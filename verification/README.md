# Contour in Dafny

Contour watches Kubernetes objects, keeps them in a cache, and builds from them a graph of listeners, virtual
hosts and routes (the DAG) that configures Envoy. This project models the parts of it that hold its hard
invariants, and proves what they promise.

| module | what it models |
|---|---|
| HeaderTokens, EnvoyVariables, DynamicHeaders, HeaderEscape | the escaping of header values for Envoy's `%` grammar: tokens and replacements, the allowed variables, the dynamic headers, and the whole |
| EventLoop | the loop that batches events and rebuilds the DAG, as a state machine with time, and the handler that follows it |
| Cond | the condition variable that tells watchers of a new DAG |
| CacheObjects, CacheMirror, SecretLookups, KubernetesCaching | the object cache: what it mirrors, which changes it reports, and its stored validation results |
| Conditions, ConditionMeaning, IncludeDuplicates, PrefixExpansion, Rewriting | the transformations of match conditions and routes on the way from an HTTPProxy to the DAG, and what they do to the path of a request |
| Delegation, RouteChains, ProxyProcessor | the include graph of HTTPProxies, the walk over it, and the orphaned proxies |
| RouteOrder, StableSort | the order of routes in which Envoy tries them, and the sort that brings them into it |
| Listeners, Hosts, MatchKeys, GatewayRoutes | the listeners of a Gateway, the host names of a route on a listener, the keys of matches, and conflicts between rules |
| Dag | the index of virtual hosts and the pruning that ends a build |
| Sorting, Text, MatchConditions, Names, Wrappers | shared definitions |

Code that changes state is a class or a method here, and each method is proved against a specification function
on values. The statements about whole runs, graphs and histories are lemmas about those functions.

What comes from outside is a parameter: clocks and durations, whether upstream has synced, the iteration order of
maps, the validity of regular expressions, host names and certificates, and the policies of a route.

## What the code does not promise

Some natural statements are not true of the code. For each of these the project holds an input that shows it, and
what is true instead.

- The comparison of routes is not asymmetric, because the item-by-item stage goes on after a "greater"
  (`RouteOrder.NotAsymmetric`); `RouteOrder.AsymmetryCondition` says exactly when. The stable sort still sorts by the
  key that decides specificity (`RouteOrder.SortRoutes`).
- A Secret object without a namespace is stored under `default` but compared with references under the empty
  namespace, so its arrival can go unreported (`SecretLookups.UnnamespacedIsUnsound`); `SecretLookups.TriggerSoundIff`
  says for which secrets the trigger is sound. The API server never delivers a Secret without a namespace, so this
  concerns only callers that build objects themselves.
- Expanding prefix routes twice is not expanding once if a lone rewritten route has a prefix of slashes only
  (`PrefixExpansion.SlashesExpandAgain`, `PrefixExpansion.ExpandTwice`); merged paths are never of that kind
  (`PrefixExpansion.MergedNotSlashesOnly`).
- A route host name with a wildcard is dropped on a listener whose wildcard is narrower although they share names
  (`Hosts.NarrowerIsDropped`); `Hosts.DroppedIff` says exactly which host names are dropped.
- A GRPCRoute may take the slot of an HTTPRoute with the same match (`GatewayRoutes.GRPCTakesHTTP`);
  `GatewayRoutes.KeepsSlotIff` says exactly when a rule keeps its slot. Rules of one kind exclude each other, first
  come, first served (`GatewayRoutes.GreedyIff`). Routes record their kind only if source metadata is set on them, as
  `contour serve` does; without it all routes exclude each other, those of earlier processors included
  (`GatewayRoutes.UnrecordedIff`).
- The flag for the first DAG is set when the caches have synced, not when a DAG was built
  (`EventLoop.FlagBeforeBuild`); `EventLoop.FlagUntruthfulIff` says exactly when it is set over no build.
- With several dynamic headers the escaped value may depend on the order of the map (`DynamicHeaders.OrderDecides`).
  `HeaderEscape.OrderIrrelevantIff` says exactly when it does not: reading the value from left to right, no reference
  shares a percent sign with a reference to another dynamic header. So `%a%b%` depends on the order and `%a%a%b%` does
  not (`DynamicHeaders.TwiceReadsApart`). The condition on the names and values under which this is proved is met by
  Contour's own headers (`DynamicHeaders.ContourHeadersAreOrdinary`).
- The key of a match does not tell all matches apart (`MatchKeys.CommaCollides`), and the same conditions in another
  order have another key (`MatchKeys.OrderCounts`). For one condition `MatchKeys.HeaderTextShared` and
  `MatchKeys.QueryTextShared` say exactly when another one has its text. Of whole matches `MatchKeys.KeysShared` says
  that legible ones, in which no text can be taken for the start of a condition or of a value, share a key only if they
  are the same; a condition on one match alone would not do, since a path may
  spell out the conditions of another match.
- With a rewritten prefix of slashes only, one sorted form of the routes may rewrite a request that another one does
  not, since a route on `/` has the key of its longer route (`Rewriting.SlashesSelectApart`).
  `Rewriting.SpellingsRewriteAlike` covers all other prefixes, and merged paths are never of that kind
  (`PrefixExpansion.MergedNotSlashesOnly`).

## Model

| member | source | states |
|---|---|---|
| HeaderEscape.EscapeHeaderValue | internal/dag/policy.go:302-345 | For percent-free dynamic headers the output splits, left to right, into percent-free text, `%%` pairs and `%VAR%` with VAR on the allow list or a well-formed `REQ(...)`, with no allowed variable left escaped; without dynamic headers, reading the pairs as `%` and the variables as themselves gives the value back; if, read from left to right, no reference shares a percent sign with a reference to another dynamic header, and no dynamic value occurs in a dynamic name, it gives the value with all references replaced, whatever the order of the map |
| HeaderTokens.ReplaceAllIsRawPass | internal/dag/policy.go:309-342 | Replacing all occurrences of a doubled reference in the text is one left-to-right pass that substitutes that name |
| HeaderTokens.RawPassIsTokenPass | internal/dag/policy.go:309-342 | A textual pass over rendered tokens is the rendering of a pass over the tokens: no replacement ever cuts a pair or a variable in two |
| HeaderTokens.ParseRender | internal/dag/policy.go:302-345 | Rendered well-formed tokens parse back to themselves |
| HeaderTokens.DoublingIsLex | internal/dag/policy.go:309 | Doubling every percent sign is the rendering of the value with each percent sign as a pair |
| HeaderTokens.PassMeaning | internal/dag/policy.go:313-344 | Unescaping variables does not change the text that the value stands for |
| HeaderTokens.PassNoRef | internal/dag/policy.go:313-344 | After a pass no reference that it looks for is left, and no other pass brings one back |
| HeaderTokens.PassTokens | internal/dag/policy.go:313-344 | A pass that writes variables keeps the tokens well formed and writes only allowed ones |
| HeaderTokens.ReqIff | internal/dag/policy.go:341-343 | A reference to a request header is `REQ(`, a header name, maybe a question mark and a second one, `)`, and maybe a colon and a length; nothing else is |
| EnvoyVariables.DocumentedAre | site/content/docs/main/config/request-rewriting.md:181-205 | The variables on the allow list are the ones that the documentation lists |
| DynamicHeaders.PassesReplace | internal/dag/policy.go:310-312 | For a value that reads apart: replacing any of the dynamic headers, in any order, replaces exactly the references to them, however many there are |
| DynamicHeaders.PassesThroughRef | internal/dag/policy.go:310-312 | A reference that shares no percent sign with a reference to another header is replaced on its own, whatever comes before and after it and whatever the order |
| DynamicHeaders.PassSealed | internal/dag/policy.go:310-312 | Replacing a reference makes up no reference to any dynamic header |
| DynamicHeaders.ReplacedMeaning | internal/dag/policy.go:310-312 | The tokens with all references replaced stand for the value with all references replaced |
| DynamicHeaders.PassesDiffer | internal/dag/policy.go:310-312 | For every value that does not read apart there are two orders of the map after which the tokens differ |
| DynamicHeaders.ReplacementsArePasses | internal/dag/policy.go:309-312 | For percent-free dynamic headers the successive replacements in the text are the successive passes over the tokens |
| HeaderEscape.OrderIrrelevantIff | internal/dag/policy.go:302-345 | If no dynamic value occurs in a dynamic name: the text after the replacements, and the escaped value, is the same for all orders of the map exactly when the value, read from left to right, has no reference that shares a percent sign with a reference to another dynamic header |
| HeaderEscape.EscapedStands | internal/dag/policy.go:302-345 | What the escaped value stands for, for every order of the map |
| HeaderEscape.ReplaceDynamic | internal/dag/policy.go:309-312 | The loop over the map replaces the dynamic headers in some order, each once |
| DynamicHeaders.ContourHeadersAreOrdinary | internal/dag/httpproxy_processor.go:743-744 | The dynamic headers that Contour sets are percent-free and no value of them occurs in a name, since the names are upper-case and the values are lower-case names and numbers |
| DynamicHeaders.OrderDecides | internal/dag/policy.go:310-312 | For all names and values, the value with two adjacent references that share a percent sign: the result depends on which header comes first |
| DynamicHeaders.TwiceReadsApart | internal/dag/policy.go:310-312 | A value in which a percent sign is shared although the order of the map makes no difference |
| EventLoop.RunsAreSafe | internal/contour/handler.go:160-232 | Every run keeps the invariant of the loop, from any state that satisfies it |
| EventLoop.Safety | internal/contour/handler.go:129-237 | In every run from the start a pending change has a timer armed or fired and undelivered, with none pending every interesting change is in the last rebuild, and every rebuild happened with upstream synced and all announced initial-list adds applied; the sequence number accounts for every event |
| EventLoop.InvStep | internal/contour/handler.go:172-232 | Each step of the loop keeps the invariant |
| EventLoop.TimingStep | internal/contour/handler.go:172-226 | Each step keeps the deadline of a pending rebuild within its bound, if a fired timer is served before time goes on |
| EventLoop.RebuildIsTimely | internal/contour/handler.go:172-226 | However many events reset the timer, a pending change is rebuilt by max(last rebuild + maximum hold-off + hold-off, arrival of the first pending change), or one hold-off after the last retry while the caches are not synced |
| EventLoop.FlagBeforeBuild | internal/contour/handler.go:227-232 | A run in which the flag for the first DAG is set although no DAG was built |
| EventLoop.FlagAndBuildsIff | internal/contour/handler.go:204-232 | In every run the flag for the first DAG is set exactly by a poll that finds the caches synced, and the first build is made exactly by a timer that is served with the caches synced |
| EventLoop.FlagUntruthfulIff | internal/contour/handler.go:204-232 | In every run from the start the flag is set although no DAG was built exactly when a poll found the caches synced and no timer was served with the caches synced |
| EventLoop.RebuildIsBatched | internal/contour/handler.go:180-191 | A rebuild waits the full hold-off after the last change unless the maximum hold-off has passed |
| EventLoop.DeadlineIs | internal/contour/handler.go:180-226 | In every run the deadline of a pending rebuild is the full hold-off after the last change, the last change itself if the maximum hold-off had passed then, or the full hold-off after a rebuild was put off |
| EventLoop.UnreadIsFirst | internal/contour/handler.go:292-300 | Until it is read, the sequence channel holds the first number that was made since it was empty |
| EventLoop.FirstPendingIs | internal/contour/handler.go:173-203 | Until the next rebuild the first pending change stays the first one |
| EventLoop.EventHandler.constructor | internal/contour/handler.go:71-83 | The handler starts in an initial state of the state machine |
| EventLoop.EventHandler.AnnounceAdd | internal/contour/handler.go:98-103 | An initial-list add is announced before it is sent |
| EventLoop.EventHandler.IncrementSequence | internal/contour/handler.go:292-300 | Every answered event advances the sequence number by one |
| EventLoop.EventHandler.HandleUpdate | internal/contour/handler.go:173-203 | The update case is the update step of the state machine |
| EventLoop.EventHandler.HandleTimer | internal/contour/handler.go:204-226 | The timer case is the timer step: a retry while the caches are not synced, or else a rebuild |
| EventLoop.EventHandler.HandleSyncPoll | internal/contour/handler.go:227-232 | The sync poll records that the caches have synced |
| EventLoop.EventHandler.Handle | internal/contour/handler.go:172-237 | Each case of the select, and each step of the environment, is that step of the state machine |
| EventLoop.EventHandler.Serve | internal/contour/handler.go:129-237 | Serving any sequence of events is the run of the state machine on it |
| Cond.RunKeepsInv | internal/contour/cond.go:42-80 | In every run each registration is sent at most one value, namely the one it is owed, it is listed exactly until that value is due, and registrations = waiting + notified |
| Cond.NothingMissed | internal/contour/cond.go:42-80 | A listed waiter has missed no notification that concerns it and is numbered above what its owner had seen |
| Cond.RegisterLate | internal/contour/cond.go:46-50 | A registration that missed a notification is answered at once with the latest number and is not listed |
| Cond.RegisterInTime | internal/contour/cond.go:51-54 | A registration that missed nothing is listed and settles nobody else |
| Cond.NotifyKeepsInv | internal/contour/cond.go:58-80 | A notification sends to exactly the listed waiters that it concerns |
| Cond.KeptIs | internal/contour/cond.go:63-79 | The list keeps exactly the waiters that the notification does not concern, in their order |
| Cond.OwedStep | internal/contour/cond.go:58-80 | What a registration is owed is settled by the first notification that concerns it and never changes |
| Cond.ChannelEmpty | internal/contour/cond.go:66-75 | When a notification reaches a waiter that it concerns, the waiter's channel is empty, so the send does not block |
| Cond.NotifyReaches | internal/contour/cond.go:63-79 | A notification without hints reaches everybody who waits, and one with hints exactly those who share a hint with it; they are sent its number |
| Cond.Intersection | internal/contour/cond.go:85-94 | True exactly when the two lists share an element |
| Cond.CondVar.constructor | internal/contour/cond.go:25-29 | A new condition variable has nobody waiting and has sent nothing |
| Cond.CondVar.Register | internal/contour/cond.go:42-55 | Registering is the register step of the state machine |
| Cond.CondVar.Notify | internal/contour/cond.go:58-80 | Notifying is the notify step of the state machine |
| Cond.CondVar.NotifyWaiters | internal/contour/cond.go:63-79 | The loop delivers the number to exactly the waiters concerned and lists the others again |
| RouteOrder.HeaderLessIsLexicographic | internal/sorter/sorter.go:50-114 | The comparison of header conditions is the lexicographic order on a key |
| RouteOrder.QueryLessIsLexicographic | internal/sorter/sorter.go:122-210 | The comparison of query parameter conditions is the lexicographic order on a key |
| RouteOrder.HeaderLessIsStrictWeak | internal/sorter/sorter.go:50-114 | The comparison of header conditions is a strict weak order |
| RouteOrder.QueryLessIsStrictWeak | internal/sorter/sorter.go:122-210 | The comparison of query parameter conditions is a strict weak order |
| RouteOrder.SplitMethod | internal/sorter/sorter.go:221-238 | The loop finds whether there is a method match and keeps the other header conditions in order |
| RouteOrder.CompareRoutesByMethodHeaderQueryParams | internal/sorter/sorter.go:217-285 | The comparison decides by method, number of header conditions, number of query conditions and priority, and then item by item |
| RouteOrder.RouteLessIsLexicographic | internal/sorter/sorter.go:296-368 | Whenever the keys of two routes differ (kind, path length, path, prefix type, method, header count, query count, priority), the comparison is the lexicographic order on keys |
| RouteOrder.KeyTotal | internal/sorter/sorter.go:296-368 | The order on keys is total |
| RouteOrder.KeyTransitive | internal/sorter/sorter.go:296-368 | The order on keys is transitive |
| RouteOrder.AsymmetryCondition | internal/sorter/sorter.go:217-285 | Two routes sort before each other exactly when their keys are equal and each holds an item that sorts before the other's |
| RouteOrder.EqualKeys | internal/sorter/sorter.go:262-285 | Of two routes with equal keys one sorts before the other exactly if one of its conditions sorts before the condition of the other at the same place |
| RouteOrder.NotAsymmetric | internal/sorter/sorter.go:262-285 | Two routes with sorted conditions that sort before each other |
| RouteOrder.AdjacentIsEnough | internal/sorter/sorter.go:296-368 | A list without adjacent inversions is sorted by key |
| RouteOrder.MostSpecificWins | internal/sorter/sorter.go:296-368 | In any list without adjacent inversions the first route that matches a request is an exact match before a regular expression before a prefix, and no matching prefix is longer than the selected one |
| RouteOrder.SelectedIsMostSpecific | internal/sorter/sorter.go:296-368 | The same for a list sorted by key |
| RouteOrder.RouteLessAgrees | internal/sorter/sorter.go:296-368 | Although it is not a strict weak order, the comparison of routes never contradicts the order of their keys |
| RouteOrder.ConditionsAgree | internal/sorter/sorter.go:50-210 | The comparisons of conditions are total preorders |
| RouteOrder.SortRoutes | internal/xdscache/v3/route.go:183-190 | Sorting the conditions of each route and then the routes gives a permutation that is sorted by key |
| StableSort.SortOrdered | internal/xdscache/v3/route.go:183-190 | Insertion sort orders a block by every total preorder that the comparison agrees with |
| StableSort.InsertLeft | internal/xdscache/v3/route.go:183-190 | A block of one element is merged into the block after it by binary search |
| StableSort.InsertRight | internal/xdscache/v3/route.go:183-190 | A block of one element is merged into the block before it by binary search |
| StableSort.Cut | internal/xdscache/v3/route.go:183-190 | The binary search of a merge cuts two blocks so that nothing in the first parts comes after anything in the second parts |
| StableSort.SymMerge | internal/xdscache/v3/route.go:183-190 | Merging two ordered blocks gives an ordered permutation, even if the comparison is not a strict weak order |
| StableSort.SortBlocks | internal/xdscache/v3/route.go:183-190 | Blocks of twenty elements are sorted |
| StableSort.MergeRound | internal/xdscache/v3/route.go:183-190 | One round merges neighbouring blocks |
| StableSort.Stable | internal/xdscache/v3/route.go:183-190 | The stable sort gives a permutation that is ordered by every total preorder that the comparison agrees with |
| Conditions.JoinPaths | internal/dag/conditions.go:33-46 | The loop concatenates the path conditions and notes whether one is a regular expression |
| Conditions.CollapseSlashes | internal/dag/conditions.go:48-49 | Replacing runs of slashes gives the collapsed string |
| Conditions.CollapseIs | internal/dag/conditions.go:48-49 | A collapsed string doubles no slash and starts with a slash exactly when the string does |
| Conditions.CollapseFixed | internal/dag/conditions.go:48-49 | A string that doubles no slash is left alone |
| Conditions.CollapseEnd | internal/dag/conditions.go:48-49 | Collapsing keeps the last character, so a trailing slash stays one |
| Conditions.CollapseSegments | internal/dag/conditions.go:48-49 | Collapsing keeps the path segments |
| Conditions.MergePathMatchConditions | internal/dag/conditions.go:32-83 | The merged condition has the collapsed path, `/` if there is none, and the kind of the last condition unless some condition is a regular expression |
| Conditions.MergedPathIs | internal/dag/conditions.go:32-83 | If every condition starts with a slash, the merged path starts with one, doubles none, and its segments are those of the conditions in order |
| Conditions.MergedKind | internal/dag/conditions.go:63-82 | A merged path is a regular expression exactly if some condition is one, exact exactly if none is and the last condition is exact, and otherwise a prefix |
| Conditions.MergedPathEnd | internal/dag/conditions.go:48-61 | A merged path ends with a slash exactly if the last path on the chain does, or if there is none |
| Conditions.PathDetermined | internal/dag/conditions.go:48-49 | The segments and the end of a path that starts with a slash and doubles none determine it |
| Conditions.PathMatchConditionsValid | internal/dag/conditions.go:87-121 | True exactly when every path condition starts with a slash, regular expressions compile and there is at most one path condition |
| Conditions.PathsValidIff | internal/dag/conditions.go:87-131 | A block is valid exactly if its paths start with a slash, its regular expressions compile, and it has no second path, in the same condition or in another |
| Conditions.IncludeMatchConditionsValid | internal/dag/conditions.go:124-135 | True exactly when no condition of an include is exact or a regular expression |
| Conditions.ValidMeansSlashStarts | internal/dag/conditions.go:87-121 | Conditions that pass validation all start with a slash |
| Conditions.IncludeMergesToPrefix | internal/dag/httpproxy_processor.go:1769-1778 | The conditions of an include that pass validation merge to a prefix, so the branch for other kinds is never taken |
| Conditions.MergeHeaderMatchConditions | internal/dag/conditions.go:137-146 | The header conditions of the list, in order |
| Conditions.MergeQueryParamMatchConditions | internal/dag/conditions.go:148-157 | The query parameter conditions of the list, in order |
| ConditionMeaning.HeaderMeaning | internal/dag/conditions.go:158-216 | The match that a header condition is converted to is on the same header and holds for a request, as Envoy reads it, exactly if the request has what the condition asks for; a condition that asks for nothing is dropped |
| ConditionMeaning.QueryMeaning | internal/dag/conditions.go:218-263 | The same for query parameter conditions |
| ConditionMeaning.MergedHeadersMean | internal/dag/conditions.go:137-146 | A request meets the merged header matches exactly if it meets the header condition of every condition on the chain |
| ConditionMeaning.MergedQueriesMean | internal/dag/conditions.go:148-156 | The same for query parameters |
| IncludeDuplicates.CanonicalIs | internal/dag/httpproxy_processor.go:1795-1833 | Two includes have the same sorted conditions exactly when they have the same conditions, each equally often, in whatever order |
| IncludeDuplicates.SameAggregate | internal/dag/httpproxy_processor.go:1848-1880 | The element-by-element comparison is equality of the sorted lists |
| IncludeDuplicates.FindOrSave | internal/dag/httpproxy_processor.go:1835-1890 | Sorted conditions are found under a path exactly when they were saved there, and are saved otherwise |
| IncludeDuplicates.FoundMeansDuplicate | internal/dag/httpproxy_processor.go:1835-1890 | The sorted form is found exactly when an earlier include has the same merged prefix and the same conditions as multisets |
| IncludeDuplicates.DuplicateIff | internal/dag/httpproxy_processor.go:1766-1891 | An include is a duplicate exactly if an earlier one has its path and its header and query parameter conditions, in whatever order, and these are not just the path `/` |
| IncludeDuplicates.IncludeMatchConditionsIdentical | internal/dag/httpproxy_processor.go:1766-1891 | True exactly when an earlier checked include of the proxy has the same merged prefix and, as multisets, the same header and query conditions; a bare `/` never counts; the record stays exact |
| PrefixExpansion.GroupByPrefix | internal/dag/httpproxy_processor.go:1563-1582 | Every prefix route is in the group of its prefix without trailing slashes, in order, and the other routes are passed on |
| PrefixExpansion.ExpandGroup | internal/dag/httpproxy_processor.go:1584-1633 | A lone route with a rewrite on another prefix than `/` becomes two routes, and other groups stay as they are |
| PrefixExpansion.ExpandPrefixMatches | internal/dag/httpproxy_processor.go:1557-1639 | Whatever order the groups are visited in, the result is the expansion of the routes as a multiset |
| PrefixExpansion.LoneIff | internal/dag/httpproxy_processor.go:1607-1624 | Exactly the prefix routes with a rewrite, on another prefix than `/`, whose prefix no other route has in any spelling, are expanded |
| PrefixExpansion.ExpandedIff | internal/dag/httpproxy_processor.go:1542-1625 | The expansion of a list holds, for each such route, the route on its prefix without and the one on it with a slash, rewritten to the replacement without and with one; it holds every other route as it is, and nothing else |
| PrefixExpansion.ExpandedPermuted | internal/dag/httpproxy_processor.go:1557-1639 | The order in which the routes come makes no difference to the expansion as a multiset |
| PrefixExpansion.SpellingsAgree | internal/dag/httpproxy_processor.go:1594-1626 | All spellings of a prefix and of its replacement, with or without trailing slashes, give the same two routes, and different prefixes or replacements different ones |
| PrefixExpansion.ExpansionsAgree | internal/dag/httpproxy_processor.go:1557-1639 | For all lists: two lists that differ in one lone rewritten route expand to the same multiset of routes exactly when the two routes differ at most in trailing slashes |
| Rewriting.LongerIsSelected | internal/dag/httpproxy_processor.go:1542-1625 | In the sorted expansion of any list the shorter of the two routes is not selected for a path that the longer one applies to |
| Rewriting.RewriteIs | internal/dag/httpproxy_processor.go:1542-1625 | For every list and every request, after expansion and sorting by key: if Envoy selects one of the two routes of a lone rewritten route, P/x is rewritten to R/x, P itself to R or to `/`, and other paths that start with P as plain text |
| Rewriting.SameKeySelected | internal/sorter/sorter.go:296-368 | However a multiset of routes is sorted, a request selects routes with the same key |
| Rewriting.SpellingsRewriteAlike | internal/dag/httpproxy_processor.go:1542-1625 | Two lists that differ only in the spelling of one lone rewritten route select routes with the same key for every request; if one selects an expanded route and the prefix is not of slashes only, the other selects the very same route, and both rewrite the path as the spelling-free prefix and replacement say |
| Rewriting.SlashesSelectApart | internal/dag/httpproxy_processor.go:1542-1625 | A list with a prefix of slashes only, two sorted forms of its expansion, and a request that one of them rewrites and the other one does not |
| Rewriting.SortExpanded | internal/xdscache/v3/route.go:183-190 | Expanding a list of routes and sorting the result gives a sorted expansion, with the conditions of each route sorted; every request that does not look at the order of conditions selects the same routes in it |
| PrefixExpansion.LoneOrigin | internal/dag/httpproxy_processor.go:1542-1625 | A route of the expansion on the prefix of a lone rewritten route, with or without the slash, comes from that route, unless the prefix is of slashes only |
| RouteOrder.TidiedKey | internal/xdscache/v3/route.go:183-190 | Sorting the conditions of a route does not change its key |
| PrefixExpansion.NoDoubleAtSeam | internal/dag/httpproxy_processor.go:1542-1556 | Nothing is doubled at the seam, and the rewritten path has the segments of the replacement and then those of the rest |
| PrefixExpansion.ExpandTwice | internal/dag/httpproxy_processor.go:1557-1639 | Expanding twice gives the same multiset of routes exactly when no lone rewritten route has a prefix of slashes only |
| PrefixExpansion.SlashesExpandAgain | internal/dag/httpproxy_processor.go:1594-1626 | A lone rewritten route on `//` goes on expanding |
| PrefixExpansion.MergedNotSlashesOnly | internal/dag/httpproxy_processor.go:1557-1639 | Merged paths are never of that kind, so for them expansion is idempotent |
| Delegation.TcpBack | internal/dag/httpproxy_processor.go:1302-1318 | A TCP include that leads back to a proxy on the way ends nowhere |
| Delegation.TcpEndsStep | internal/dag/httpproxy_processor.go:1175-1328 | TCP includes from a proxy end well exactly when the proxy itself can serve or its include ends well |
| Delegation.FollowsNamed | internal/dag/httpproxy_processor.go:695-714 | An include names a proxy that is no root, in its own namespace unless it names another one |
| Delegation.PassesIff | internal/dag/httpproxy_processor.go:685-714 | An include passes exactly if it has prefixes only, its conditions are valid, and no earlier well-formed include is its duplicate |
| Delegation.TcpNextNamed | internal/dag/httpproxy_processor.go:1278-1304 | The same for TCP includes; the current field goes before the deprecated one, and services before both |
| Delegation.TcpErasedIsReachable | internal/dag/httpproxy_processor.go:1299-1328 | The marks erased by following TCP includes are exactly those of the proxies that can be reached over TCP includes, whatever cycles there are |
| RouteChains.ErasedIsReachable | internal/dag/httpproxy_processor.go:651-741 | Cutting cycles at repeated proxies loses nothing: the marks erased by the walk from a proxy are exactly those of the proxies reachable over includes that pass their checks |
| RouteChains.RoutesJustified | internal/dag/httpproxy_processor.go:651-1116 | Every route of the walk comes from a chain of includes that repeats no proxy and on which every proxy accepts its routes, and from a route, or a dangling include, of its last proxy |
| RouteChains.RoutesComplete | internal/dag/httpproxy_processor.go:651-1116 | Every chain that repeats no proxy and on which all proxies accept their routes is served: each route at its end and each dangling include there has its route |
| RouteChains.RootRoutesAre | internal/dag/httpproxy_processor.go:522-557 | Both hold of the routes of a root, in whatever order they come |
| RouteChains.ServesIff | internal/dag/httpproxy_processor.go:651-1116 | A route entry of a proxy is served by a root exactly when a chain of includes from the root that repeats no proxy, and on which every proxy accepts its routes, leads to the proxy |
| RouteChains.AnswersBadGatewayIff | internal/dag/httpproxy_processor.go:716-735 | A proxy answers with a bad gateway exactly when such a chain leads to it and it has an include with conditions that names no proxy it can include |
| RouteChains.RoutePathIs | internal/dag/httpproxy_processor.go:759-827 | The path of every route starts with a slash, doubles none, and has the segments of the path conditions of its chain and of the route, in order, up to a trailing slash; it is a regular expression exactly if one of these is, exact exactly if none is and the last of them is exact, and otherwise a prefix |
| RouteChains.ExpansionKeepsVariant | internal/dag/httpproxy_processor.go:1116 | Expanding the routes of a proxy drops no route |
| ProxyProcessor.MarksAre | internal/dag/httpproxy_processor.go:138-151 | When all proxies that are not roots are processed before the roots, a mark remains exactly on the proxies that no processed root delegates to |
| ProxyProcessor.ErasedIsClaimed | internal/dag/httpproxy_processor.go:512-524 | The marks that a root erases are those of the proxies it reaches over TCP includes and, if these end well, over route includes |
| ProxyProcessor.ClaimsIs | internal/dag/httpproxy_processor.go:154-524 | Without a TCP proxy a root claims what its includes reach; with one it claims nothing without TLS, and otherwise what the TCP includes reach and, if these end well, what its includes reach |
| ProxyProcessor.OrphanIff | internal/dag/httpproxy_processor.go:126-152 | An orphan is no root, and every root that claims it shares its host name with another root |
| ProxyProcessor.HTTPProxyProcessor.constructor | internal/dag/httpproxy_processor.go:126-129 | A run starts without marks |
| ProxyProcessor.HTTPProxyProcessor.ChooseRewrite | internal/dag/httpproxy_processor.go:911-931 | The replacement for the routing prefix if there is one, or else the default one |
| ProxyProcessor.HTTPProxyProcessor.FindReplacement | internal/dag/httpproxy_processor.go:911-931 | The first replacement for a prefix |
| RouteChains.FirstWithIs | internal/dag/httpproxy_processor.go:900-931 | Valid replacements have one entry per prefix, so their order makes no difference to the choice |
| RouteChains.ChosenIs | internal/dag/httpproxy_processor.go:893-932 | The replacement for the very prefix goes before the default one, and without either there is none |
| RouteChains.AcceptedIff | internal/dag/httpproxy_processor.go:759-905 | A route is accepted exactly if its conditions and policies are valid and, with replacements, its path is a prefix and no two replacements are for one prefix |
| RouteChains.BuiltRouteIs | internal/dag/httpproxy_processor.go:759-932 | The path and the conditions of a built route, the host name that it asks for on a wildcard host, and its rewrite |
| RouteChains.DanglingIff | internal/dag/httpproxy_processor.go:695-733 | An include is answered with 502 exactly if it passes, has conditions, and names a proxy that is missing or is a root |
| ProxyProcessor.HTTPProxyProcessor.BuildRoute | internal/dag/httpproxy_processor.go:753-1110 | A route specification that passes its checks gives the route with the merged conditions, the chosen rewrite and, for a wildcard host, the match on the host name |
| ProxyProcessor.HTTPProxyProcessor.BuildRoutes | internal/dag/httpproxy_processor.go:753-1114 | All routes of the proxy in order, or nothing at all if one of them is not accepted |
| ProxyProcessor.HTTPProxyProcessor.AddStatusBadGatewayRoute | internal/dag/httpproxy_processor.go:631-649 | A route with the conditions of the include alone is added if the include has conditions |
| ProxyProcessor.HTTPProxyProcessor.CheckInclude | internal/dag/httpproxy_processor.go:685-714 | True exactly when the include is well formed and repeats no earlier well-formed include |
| ProxyProcessor.HTTPProxyProcessor.FollowInclude | internal/dag/httpproxy_processor.go:716-741 | An include that passes its checks adds the routes of its target and erases the target's mark, or answers with a bad gateway |
| ProxyProcessor.HTTPProxyProcessor.ProcessInclude | internal/dag/httpproxy_processor.go:680-741 | The routes and the erased marks of one include |
| ProxyProcessor.HTTPProxyProcessor.ProcessIncludes | internal/dag/httpproxy_processor.go:676-741 | The routes and the erased marks of all includes of a proxy |
| ProxyProcessor.HTTPProxyProcessor.ComputeRoutes | internal/dag/httpproxy_processor.go:651-1119 | The walk ends on every graph, and gives the routes and erases the marks that the walk over simple chains stands for |
| ProxyProcessor.HTTPProxyProcessor.ProcessTCPProxy | internal/dag/httpproxy_processor.go:1175-1329 | True exactly when the TCP includes lead to a proxy without a TCP proxy or with valid services; erases the marks of the proxies they lead to |
| ProxyProcessor.HTTPProxyProcessor.ComputeHTTPProxy | internal/dag/httpproxy_processor.go:154-524 | Marks a proxy that is not a root; a root that gets that far erases the marks of what it delegates to and gets its routes |
| ProxyProcessor.HTTPProxyProcessor.GroupByHost | internal/dag/httpproxy_processor.go:1336-1345 | The proxies that are not roots, and the roots by lower-case host name |
| ProxyProcessor.HTTPProxyProcessor.ValidHTTPProxies | internal/dag/httpproxy_processor.go:1334-1370 | In any map order: all proxies that are not roots, then exactly the roots that share their host name with none, each once |
| ProxyProcessor.HTTPProxyProcessor.Run | internal/dag/httpproxy_processor.go:126-152 | After a run, for every include graph and map order, the orphaned proxies are exactly those that are not roots and that no root with a host name of its own delegates to; the served roots have the routes of their chains |
| CacheObjects.QualifiedName | internal/k8s/objectmeta.go:62-89 | A qualified name is read back as it is, whatever the default namespaces are |
| CacheObjects.NamesIff | internal/k8s/objectmeta.go:62-89 | A name is split at its first slash; without a namespace it is in the first default namespace that is not empty |
| CacheObjects.WantedIff | internal/ingressclass/ingressclass.go:32-65 | An ingress or proxy is wanted exactly if its class is a configured one, or, if none is configured, no class or `contour`; annotations go before the spec |
| CacheObjects.SecretTriggersIff | internal/dag/cache.go:536-612 | A change of a secret is worth a rebuild exactly if it holds a CA certificate, is configured, or is named by an ingress, a proxy or a Gateway listener |
| CacheObjects.ConfigMapTriggersIff | internal/dag/cache.go:614-637 | A change of a config map is worth a rebuild exactly if a policy in its namespace names it as a CA |
| CacheObjects.InsertIs | internal/dag/cache.go:123-302 | An object that is not taken changes and reports nothing; any other one is held afterwards, and reported, secrets and config maps only if they are referred to |
| CacheObjects.RemoveIs | internal/dag/cache.go:304-433 | A removed object is not held afterwards, and is reported if it was held; secrets and config maps if they are referred to |
| CacheObjects.OthersKept | internal/dag/cache.go:123-433 | Inserting or removing an object touches no other object |
| CacheObjects.SkippedIff | internal/k8s/helpers.go:100-138 | Exactly when an update is skipped, by kind of object |
| CacheObjects.UpdateIs | internal/contour/handler.go:243-290 | A skipped update changes and reports nothing; any other one is a removal and an insertion |
| CacheObjects.QuietRemove | internal/dag/cache.go:318-350 | A removal that reports nothing changes nothing but secrets and config maps |
| CacheObjects.QuietOp | internal/contour/handler.go:243-280 | An event that reports no change leaves everything but secrets and config maps as it is |
| CacheMirror.SkipMirrors | internal/k8s/helpers.go:100-130 | An update that is skipped as equal has left everything that matters as it was |
| CacheMirror.StepMirrors | internal/contour/handler.go:243-280 | Every possible event keeps the cache a mirror of the live objects |
| CacheMirror.HistoryMirrors | internal/dag/cache.go:151-180 | After every history of adds, updates, deletes and tombstones the cache holds an ingress or a proxy exactly when the live object of that name matches the configured classes, with its current spec and annotations |
| CacheMirror.SameWanted | internal/ingressclass/ingressclass.go:32-65 | Whether an object is cached depends on its annotations and its spec only |
| SecretLookups.OwnName | internal/dag/cache.go:536-612 | Every TLS or CRL lookup of a secret by its name goes through a reference that makes a change of the secret reported |
| SecretLookups.OtherName | internal/dag/cache.go:656-800 | A lookup of another name has the same answer before and after |
| SecretLookups.NotPermittedIff | internal/dag/cache.go:804-835 | A TLS, CA or CRL lookup is refused exactly if it comes from another namespace than the secret's and no delegation there names the secret and the target namespace, or the secret and a lone star |
| SecretLookups.DelegationTellsOthersNothing | internal/dag/cache.go:804-835 | A new delegation changes no answer to a namespace that it does not open the secret to, and the secret is no longer refused to one that it does |
| SecretLookups.AnswerWhenPermitted | internal/dag/cache.go:660-800 | A lookup that is not refused finds the stored object if it is valid for its purpose |
| SecretLookups.MakesIff | internal/dag/httpproxy_processor.go:240-360 | Which lookups the processors make, from which namespaces |
| SecretLookups.NamespacedIsSound | internal/dag/cache.go:536-612 | If a change of a secret with a namespace is not reported, every TLS or CRL lookup of the processors has the same answer before and after |
| SecretLookups.UnnamespacedIsUnsound | internal/dag/cache.go:128-132 | A secret without a namespace is stored under `default` but compared under the empty one: its arrival can go unreported although a lookup notices |
| SecretLookups.TriggerSoundIff | internal/dag/cache.go:536-612 | The trigger is sound in every cache exactly for the secrets that have a namespace, hold a CA certificate or are configured under the empty namespace |
| SecretLookups.QuietSecrets | internal/contour/handler.go:243-280 | An unreported event changes no secret, or one that is unreferenced and holds no CA certificate before or after |
| SecretLookups.DifferenceUnnoticed | internal/dag/cache.go:656-800 | No lookup of the processors notices a change of an unreferenced secret, and no lookup of a CA certificate finds anything else |
| SecretLookups.QuietEventUnnoticed | internal/contour/handler.go:243-280 | If an add, update or delete of any kind is not reported, the processors make the same TLS and CRL lookups with the same answers as before, and every lookup of a CA certificate finds what it found before |
| SecretLookups.QualifiedReferenceTriggers | internal/dag/cache.go:551-557 | A qualified reference in an ingress makes a change of the secret that it names reported |
| KubernetesCaching.KubernetesCache.constructor | internal/dag/cache.go:102-117 | A new cache holds nothing |
| KubernetesCaching.KubernetesCache.IngressesRefer | internal/dag/cache.go:551-557 | True exactly when some ingress names the secret |
| KubernetesCaching.KubernetesCache.ProxiesRefer | internal/dag/cache.go:559-579 | True exactly when some root names the secret or the revocation list |
| KubernetesCaching.KubernetesCache.GatewayHasRef | internal/dag/cache.go:588-612 | True exactly when some listener of the Gateway refers to the secret |
| KubernetesCaching.KubernetesCache.SecretTriggersRebuild | internal/dag/cache.go:536-612 | True exactly when a change of the secret is worth a rebuild |
| KubernetesCaching.KubernetesCache.ConfigMapTriggersRebuild | internal/dag/cache.go:614-636 | True exactly when some backend TLS policy refers to the config map |
| KubernetesCaching.KubernetesCache.Insert | internal/dag/cache.go:123-300 | The new contents, with no validation result left of an earlier secret, and whether the object is of interest |
| KubernetesCaching.KubernetesCache.Remove | internal/dag/cache.go:304-432 | The new contents, and whether they changed; a tombstone removes the object it stands for |
| KubernetesCaching.KubernetesCache.OnUpdate | internal/contour/handler.go:243-280 | An add inserts, a delete removes, an update of an object that differs does both; true if one of them reports a change; the news of an election is passed on |
| KubernetesCaching.KubernetesCache.DelegationPermitted | internal/dag/cache.go:804-835 | True exactly when the secret is in the namespace or a delegation in the secret's namespace names both |
| KubernetesCaching.KubernetesCache.LookupTLSSecretInsecure | internal/dag/cache.go:782-800 | The answer of a cache that stores no validation results; every stored result stays right |
| KubernetesCaching.KubernetesCache.LookupTLSSecret | internal/dag/cache.go:656-661 | The same, after the delegation check |
| KubernetesCaching.KubernetesCache.LookupCASecret | internal/dag/cache.go:666-688 | The same, for CA secrets |
| KubernetesCaching.KubernetesCache.LookupCRLSecret | internal/dag/cache.go:714-736 | The same, for revocation lists |
| KubernetesCaching.KubernetesCache.LookupCAConfigMap | internal/dag/cache.go:691-709 | The same, for CA certificates in config maps |
| KubernetesCaching.KubernetesCache.Serve | internal/dag/cache.go:123-835 | One event or lookup is answered as by a cache that stores no validation results |
| KubernetesCaching.KubernetesCache.ServeAll | internal/dag/cache.go:123-835 | Over every sequence of events and lookups the cache replies as one that stores no validation results |
| Listeners.ContainerPorts | internal/gatewayapi/listeners.go:210-225 | Container ports are unprivileged, and two ports share one exactly when they are 1023 apart and the lower is in 57536-58558 |
| Listeners.DecimalInjective | internal/gatewayapi/listeners.go:184 | Different ports have different decimal forms |
| Listeners.DecimalValue | internal/gatewayapi/listeners.go:75-180 | The decimal form of a port stands for it |
| Listeners.FindConflict | internal/gatewayapi/listeners.go:115-166 | The first conflict with an earlier listener |
| Listeners.FindPort | internal/gatewayapi/listeners.go:189-195 | True exactly when a port of that name is in the list |
| Listeners.ValidateListeners | internal/gatewayapi/listeners.go:75-208 | The names, ports and invalid listeners of the verdicts on the listeners in order |
| Listeners.VerdictIs | internal/gatewayapi/listeners.go:75-180 | A listener is valid exactly if its host name is valid or empty, its protocol is supported, and it can be served beside every earlier listener; the reason of an invalid one is the first of these that fails, and the first listener that it cannot be served beside |
| Listeners.ValidOnesApart | internal/gatewayapi/listeners.go:100-160 | Two valid listeners on one port have protocols of one family and different host names; on different ports they have different container ports |
| Listeners.Partition | internal/gatewayapi/listeners.go:75-208 | With distinct names each listener is in exactly one of the name map and the invalid map, by its verdict |
| Listeners.NamesOnly | internal/gatewayapi/listeners.go:75-208 | Only names of listeners are recorded |
| Listeners.Stable | internal/gatewayapi/listeners.go:115-166 | Appending listeners changes no verdict on the earlier ones and only appends ports |
| Listeners.PortsDistinct | internal/gatewayapi/listeners.go:186-204 | No two ports share a name, a port or a container port |
| Listeners.PortsInRange | internal/gatewayapi/listeners.go:197-204 | Every container port is between 1024 and 65535 |
| Listeners.ValidHasPort | internal/gatewayapi/listeners.go:172-204 | Every valid listener has its port, container port and protocol in the list under its Envoy name |
| Listeners.AddListeners | internal/dag/listener_processor.go:34-73 | The DAG gets one listener per port of the Gateway, or the two static ones |
| Listeners.StaticListenersAre | internal/dag/listener_processor.go:34-73 | The two static listeners with their addresses, route configurations, and default ports unless others are configured |
| Listeners.ReadyHasListener | internal/dag/gatewayapi_processor.go:449-452 | Every ready listener maps to a listener of the DAG that serves its protocol on its container port |
| Hosts.OtherListenerIntersection | internal/dag/gatewayapi_processor.go:865-878 | True exactly when another listener has the host name or a longer wildcard for it |
| Hosts.ComputeHosts | internal/dag/gatewayapi_processor.go:847-920 | The host names that the valid route host names add on the listener, and the invalid ones in order |
| Hosts.InvalidOnesAre | internal/dag/gatewayapi_processor.go:880-888 | Exactly the invalid host names of a route are reported |
| Hosts.HostsAreShared | internal/dag/gatewayapi_processor.go:847-920 | Every concrete name that a result stands for is in the listener's pattern and in some route pattern |
| Hosts.HostsAreUnclaimed | internal/dag/gatewayapi_processor.go:865-878 | On an empty or wildcard listener no result but the listener's own host name equals the host name of another listener or matches a longer wildcard of one |
| Hosts.ClaimedIff | internal/dag/gatewayapi_processor.go:865-878 | Another listener claims a host name exactly if it has the very name, or a wildcard that is longer than the listener's pattern and matches it |
| Hosts.DenotesIff | internal/dag/gatewayapi_processor.go:927-934 | A wildcard stands for exactly the names that put something in place of the star |
| Hosts.MoreOthersFewerHosts | internal/dag/gatewayapi_processor.go:865-878 | More listeners beside this one leave no more host names for it |
| Hosts.DroppedIff | internal/dag/gatewayapi_processor.go:890-917 | A route host name adds nothing exactly when it shares no name with the listener, when the listener's wildcard is the narrower of two, or when another listener claims it |
| Hosts.NarrowerIsDropped | internal/dag/gatewayapi_processor.go:903-906 | Every route wildcard is dropped on every narrower wildcard listener although they share names |
| Hosts.WildcardsIntersect | internal/dag/gatewayapi_processor.go:927-934 | Two wildcards share a name exactly when one ends like the other |
| GatewayRoutes.BeforeIsStrictWeak | internal/dag/gatewayapi_processor.go:2512-2519 | The order by age and then by name is a strict weak order |
| GatewayRoutes.OldestFirst | internal/dag/gatewayapi_processor.go:2505-2541 | In a sorted list older routes come first, and routes of one age in the order of namespace and name |
| GatewayRoutes.OlderIsEarlier | internal/dag/gatewayapi_processor.go:2505-2541 | The older of two routes, or of two of one age the one whose name is first, comes first |
| GatewayRoutes.SortRoutes | internal/dag/gatewayapi_processor.go:2507-2522 | The routes of the map, sorted by age and then by name |
| GatewayRoutes.OrderIsUnique | internal/dag/gatewayapi_processor.go:2507-2541 | However the map is iterated there is one sorted list |
| GatewayRoutes.VirtualHosts.constructor | internal/dag/dag.go:755-762 | The hosts hold the routes of earlier processors |
| GatewayRoutes.VirtualHosts.HasConflictRoute | internal/dag/gatewayapi_processor.go:1515-1534 | True exactly when a route of the same recorded kind holds a slot that the rule needs |
| GatewayRoutes.VirtualHosts.AddToHost | internal/dag/gatewayapi_processor.go:1487-1498 | The routes of a rule take their slots on one host |
| GatewayRoutes.VirtualHosts.AddRule | internal/dag/gatewayapi_processor.go:1483-1505 | All routes of the rule are added, or none if one conflicts |
| GatewayRoutes.VirtualHosts.AddRules | internal/dag/gatewayapi_processor.go:1483-1505 | On top of the routes that are there, a rule of the list is added exactly when it is accepted after the earlier ones |
| GatewayRoutes.VirtualHosts.ProcessRoutes | internal/dag/gatewayapi_processor.go:158-170 | HTTPRoutes in order and then GRPCRoutes in order, on top of the routes that are there: the rules that are added are the accepted ones, and the outcome does not depend on the order of the maps, with source metadata on routes and without |
| GatewayRoutes.FlattenRules | internal/dag/gatewayapi_processor.go:158-170 | The rules of the routes, in order |
| GatewayRoutes.AllOrNone | internal/dag/dag.go:764-771 | A rule takes all its slots or changes nothing, never takes a slot from a rule of its kind, and touches no other slot |
| GatewayRoutes.HolderIsAccepted | internal/dag/dag.go:755-771 | Every route that a rule put into a slot belongs to an accepted rule that needs the slot |
| GatewayRoutes.AcceptedHolds | internal/dag/gatewayapi_processor.go:1661-1681 | The slots of an accepted rule stay with it or go to a GRPCRoute |
| GatewayRoutes.KeepsSlotIff | internal/dag/gatewayapi_processor.go:1661-1681 | An accepted rule keeps a slot to the end exactly when it is of a GRPCRoute or no accepted rule of a GRPCRoute needs the slot |
| GatewayRoutes.EarlierKeepsSlotIff | internal/dag/dag.go:755-771 | A route of an earlier processor keeps its slot exactly when no accepted rule needs it |
| GatewayRoutes.GRPCTakesHTTP | internal/dag/dag.go:764-771 | A GRPCRoute that takes the slot of an HTTPRoute with the same match |
| GatewayRoutes.GreedyIff | internal/dag/gatewayapi_processor.go:1483-1534 | A rule is accepted exactly when it needs no slot of an earlier accepted rule of its kind |
| GatewayRoutes.UnrecordedIff | internal/dag/gatewayapi_processor.go:2402-2406 | Without source metadata on routes a rule is accepted exactly when none of its slots is taken by a route of an earlier processor or by an earlier accepted rule of either kind |
| GatewayRoutes.FilledStays | internal/dag/gatewayapi_processor.go:2402-2406 | Without source metadata on routes no route is ever replaced by another one |
| GatewayRoutes.SlotsMeet | internal/dag/gatewayapi_processor.go:1515-1534 | Rules with legible matches need a common slot exactly when they share a listener, a host and a match |
| GatewayRoutes.KindsInOrder | internal/dag/gatewayapi_processor.go:158-170 | The rules of sorted HTTPRoutes followed by those of sorted GRPCRoutes come HTTPRoutes first |
| GatewayRoutes.OldestWins | internal/dag/gatewayapi_processor.go:1483-1534 | Of two rules of one kind that need a common slot, the one of the older route shuts out the other |
| GatewayRoutes.OldestHTTPRouteWins | internal/dag/gatewayapi_processor.go:158-170 | In the processing of all routes, a rule of an older HTTPRoute shuts out a rule of a younger one that needs a common slot |
| GatewayRoutes.OldestGRPCRouteWins | internal/dag/gatewayapi_processor.go:158-170 | The same, for GRPCRoutes |
| MatchKeys.ConditionsToString | internal/dag/dag.go:773-782 | The key of a match: its path, header and query conditions spelled out and joined |
| MatchKeys.HeaderSpelled | internal/dag/dag.go:152-163 | The text of a header condition |
| MatchKeys.QuerySpelled | internal/dag/dag.go:197-206 | The text of a query parameter condition |
| MatchKeys.JoinInjective | internal/dag/dag.go:773-782 | Joining conditions loses nothing if none of them holds the start of another one, and either the first parts hold none or the number of parts is known |
| MatchKeys.HeaderTextIs | internal/dag/dag.go:152-163 | Two header conditions have the same text exactly when they agree in all flags and in name, `&value=` and value put together |
| MatchKeys.QueryTextIs | internal/dag/dag.go:197-206 | The same for query parameter conditions |
| MatchKeys.HeaderTextShared | internal/dag/dag.go:152-163 | Another header condition has the same text exactly when `&value=` occurs in its name or in its value |
| MatchKeys.QueryTextShared | internal/dag/dag.go:197-206 | Another query parameter condition has the same text exactly when `&value=` occurs in its name or in its value |
| MatchKeys.KeysShared | internal/dag/dag.go:773-782 | Two matches share a key exactly when they have the same path, headers and queries in the same order, if neither `,header: ` nor `,queryparam: ` occurs in the text of the path, in a name or in a value, nor `&value=` in a name; commas and ampersands are otherwise free |
| MatchKeys.CommaCollides | internal/dag/dag.go:773-782 | Every match with conditions on an exact path or a regular expression shares its key with a match without conditions, whose path spells them out |
| MatchKeys.OrderCounts | internal/dag/dag.go:773-782 | On any path, the same legible header and query conditions in another order have another key |
| Dag.VirtualHost.constructor | internal/dag/accessors.go:212-214 | A new host has no routes |
| Dag.VirtualHost.AddRoute | internal/dag/dag.go:755-762 | The route is stored under its match conditions, which makes a host valid that needs nothing else |
| Dag.ScanFinds | internal/dag/accessors.go:177-219 | Scanning the list finds a host of that name exactly if there is one |
| Dag.DAG.GetVirtualHost | internal/dag/accessors.go:201-203 | The lookup in the index is a scan of the list |
| Dag.DAG.GetSecureVirtualHost | internal/dag/accessors.go:177-179 | The same, for secure hosts |
| Dag.DAG.EnsureVirtualHost | internal/dag/accessors.go:207-219 | The host of that name; a new one is appended only if there was none, and index and list go on agreeing |
| Dag.DAG.EnsureSecureVirtualHost | internal/dag/accessors.go:183-197 | The same, for secure hosts |
| Dag.KeepValid | internal/dag/builder.go:88-93 | The valid hosts of the list, in order |
| Dag.PruneListener | internal/dag/builder.go:87-117 | A listener keeps its valid hosts, sorted, and is kept exactly if it has one or a TCP proxy |
| Dag.ServesWork | internal/dag/builder.go:87-117 | A listener is kept exactly if one of its hosts has something to serve, or if it has a TCP proxy itself |
| Dag.ValidHasWork | internal/dag/dag.go:904-909 | A host is valid exactly if it has routes, and a secret if it is secure, or if it is secure and has a TCP proxy |
| Dag.DAG.Prune | internal/dag/builder.go:83-124 | Exactly the listeners with a valid host or a TCP proxy remain, with their valid hosts sorted |
| Dag.PrunedIs | internal/dag/builder.go:87-110 | Exactly the valid hosts remain, in strictly increasing order of their names |

## Left out

- HeaderEscape.EscapeHeaderValue: nothing is stated for dynamic header names or values that contain a percent sign.
- HeaderEscape.OrderIrrelevantIff: nothing is stated for dynamic values that are empty or occur in a dynamic name, which Contour never sets.
- EventLoop.EventHandler.Serve: channels, goroutines and shutdown are not modelled; each case of the select is one atomic step, and the sync check and the rebuild of a fired timer happen at one moment.
- Cond.CondVar.Register: the mutex and the channel are modelled as an atomic step and a capacity-one cell that its owner drains.
- PrefixExpansion.ExpandPrefixMatches: the source rewrites a lone route in place through a shared pointer; routes are values here, so sharing is not captured.
- ProxyProcessor.HTTPProxyProcessor.BuildRoute: the policies of a route, its services and clusters and their errors are one yes-or-no outcome per route.
- ProxyProcessor.HTTPProxyProcessor.ComputeHTTPProxy: TLS, JWT, CORS, rate limits, authorization and root namespaces are one yes-or-no outcome per root; adding the routes to virtual hosts is left to the caller.
- ProxyProcessor.HTTPProxyProcessor.ProcessTCPProxy: the clusters of a TCP proxy are one yes-or-no outcome.
- ProxyProcessor.HTTPProxyProcessor.Run: status conditions are not modelled; the set of orphaned proxies is the result.
- KubernetesCaching.KubernetesCache.Insert: services, namespaces, gateway classes, Gateway API routes, reference grants and extension services are not modelled, nor are metrics and annotation warnings.
- KubernetesCaching.KubernetesCache.Remove: the same kinds are not modelled.
- KubernetesCaching.KubernetesCache.LookupTLSSecretInsecure: a lookup returns the stored object, not a pointer into the cache.
- SecretLookups.NamespacedIsSound: one insertion or removal on its own can change what a lookup of a CA certificate finds, if the secret loses its CA key; for whole events QuietEventUnnoticed covers these lookups too.
- StableSort.Stable: the elements are moved between sequences instead of being swapped in place.
- Listeners.ValidateListeners: ports are unbounded integers and do not wrap at 32 bits; the messages of conditions are not modelled.
- Listeners.ReadyHasListener: the TLS mode, the secret and the allowed routes of a listener are one yes-or-no outcome.
- Listeners.AddListeners: the tables of virtual hosts of a new listener are in module Dag.
- MatchKeys.KeysShared: which matches that are not legible share a key is stated for single conditions only.
- Hosts.ComputeHosts: whether a host name is valid is a parameter.
- GatewayRoutes.VirtualHosts.AddRule: the filters and clusters of a rule are not modelled; a rule is its kind, its hosts and its matches. The empty virtual hosts that the search for conflicts leaves behind are not modelled.
- GatewayRoutes.SortRoutes: namespaces with a slash, which Kubernetes does not allow, are excluded.
- Dag.DAG.Prune: the processors that run before it are modelled on their own; only the fields of a host that decide its validity are modelled.
- The triggers for services and routes, and the lookup of services, are left out as easy members.
- The validation of header and query parameter conditions is left out as straight-line code.
- The Envoy resources built from the DAG, the xDS servers, the provisioner, certificates and status writing are left out.
