/**
 The routes that a root HTTPProxy stands for: one for every chain of includes that repeats no proxy and
 every route at the end of such a chain.
 */
module RouteChains {
  import opened Wrappers
  import opened Names
  import opened MatchConditions
  import opened Conditions
  import opened Delegation
  import PX = PrefixExpansion

  /** Where a DAG route comes from, with the match conditions besides its path. */
  datatype Origin =
    | FromRoute(proxy: NamespacedName, index: nat, headers: seq<HeaderMatch>, queries: seq<QueryMatch>)
    | BadGateway(proxy: NamespacedName, headers: seq<HeaderMatch>, queries: seq<QueryMatch>)

  type DagRoute = PX.Route<Origin>

  // ---------- Chains of includes ----------

  /** A root, or a chain continued by an include of its last proxy. */
  datatype Chain = Start(k: NamespacedName) | Via(prev: Chain, inc: nat, k: NamespacedName)

  function Proxies(c: Chain): seq<NamespacedName> {
    match c
    case Start(k) => [k]
    case Via(prev, _, k) => Proxies(prev) + [k]
  }

  predicate IsChain(w: World, c: Chain) {
    match c
    case Start(k) => k in w.proxies
    case Via(prev, i, k) => IsChain(w, prev) && Follows(w, prev.k, i, k)
  }

  predicate NoRepeat(c: Chain) {
    match c
    case Start(_) => true
    case Via(prev, _, k) => NoRepeat(prev) && k !in Proxies(prev)
  }

  /** The conditions collected on the way. */
  function Collected(w: World, c: Chain): seq<MatchCondition>
    requires IsChain(w, c)
  {
    match c
    case Start(_) => []
    case Via(prev, i, _) => Collected(w, prev) + w.proxies[prev.k].includes[i].conditions
  }

  // ---------- The routes at the end of a chain ----------

  function FirstWith(rs: seq<ReplacePrefix>, prefix: string): Option<string> {
    if rs == [] then None
    else if rs[0].prefix == prefix then Some(rs[0].replacement)
    else FirstWith(rs[1..], prefix)
  }

  /** An exact match on the routing prefix, or else the default replacement. */
  function ChosenRewrite(rs: seq<ReplacePrefix>, routingPrefix: string): Option<string> {
    if routingPrefix != "" && FirstWith(rs, routingPrefix).Some? then FirstWith(rs, routingPrefix)
    else FirstWith(rs, "")
  }

  /** The replacement for the very prefix beats the default one, and without either there is none. */
  lemma ChosenIs(rs: seq<ReplacePrefix>, routingPrefix: string, t: string)
    requires ReplacementsValid(rs) && routingPrefix != ""
    ensures ReplacePrefix(routingPrefix, t) in rs ==> ChosenRewrite(rs, routingPrefix) == Some(t)
    ensures (forall r | r in rs :: r.prefix != routingPrefix) && ReplacePrefix("", t) in rs ==>
              ChosenRewrite(rs, routingPrefix) == Some(t)
    ensures ChosenRewrite(rs, routingPrefix).None? <==>
            forall r | r in rs :: r.prefix != routingPrefix && r.prefix != ""
  {
    hide FirstWith, ReplacementsValid;
    FirstWithIs(rs, routingPrefix, t);
    FirstWithIs(rs, "", t);
    FirstWithNone(rs, routingPrefix);
    FirstWithNone(rs, "");
  }

  lemma {:induction false} FirstWithNone(rs: seq<ReplacePrefix>, prefix: string)
    ensures FirstWith(rs, prefix).None? <==> forall r | r in rs :: r.prefix != prefix
  {
    if rs != [] {
      assert rs == [rs[0]] + rs[1..];
      FirstWithNone(rs[1..], prefix);
    }
  }

  /** With one replacement per prefix the order makes no difference: the first one found is the only one. */
  lemma {:induction false} FirstWithIs(rs: seq<ReplacePrefix>, prefix: string, replacement: string)
    requires ReplacementsValid(rs)
    ensures FirstWith(rs, prefix) == Some(replacement) <==> ReplacePrefix(prefix, replacement) in rs
  {
    if rs != [] {
      var rest := rs[1..];
      assert rs == [rs[0]] + rest;
      assert ReplacementsValid(rest) by {
        forall i, j | 0 <= i < j < |rest| ensures rest[i].prefix != rest[j].prefix {
          assert rest[i] == rs[i + 1] && rest[j] == rs[j + 1];
        }
      }
      FirstWithIs(rest, prefix, replacement);
      forall r | r in rest ensures r.prefix != rs[0].prefix {
        var i :| 0 <= i < |rest| && rest[i] == r;
        assert rs[i + 1] == r;
      }
    }
  }

  lemma {:induction false} FirstWithStep(rs: seq<ReplacePrefix>, prefix: string, i: nat)
    requires i < |rs| && FirstWith(rs[..i], prefix).None?
    ensures FirstWith(rs[..i + 1], prefix) == if rs[i].prefix == prefix then Some(rs[i].replacement) else None
    ensures rs[i].prefix == prefix ==> FirstWith(rs, prefix) == Some(rs[i].replacement)
  {
    if i == 0 {
      assert rs[..1] == [rs[0]] && [rs[0]][1..] == [];
    } else {
      assert rs[..i][0] == rs[0] && rs[..i + 1][0] == rs[0];
      assert rs[..i][1..] == rs[1..][..i - 1] && rs[..i + 1][1..] == rs[1..][..i];
      FirstWithStep(rs[1..], prefix, i - 1);
    }
  }

  predicate ReplacementsValid(rs: seq<ReplacePrefix>) {
    forall i, j | 0 <= i < j < |rs| :: rs[i].prefix != rs[j].prefix
  }

  /** The conditions that route `j` of proxy `k` is matched on, at the end of a chain. */
  function RouteConditions(w: World, k: NamespacedName, conds: seq<MatchCondition>, j: nat): seq<MatchCondition>
    requires k in w.proxies && j < |w.proxies[k].routes|
  {
    conds + w.proxies[k].routes[j].conditions
  }

  predicate RouteAccepted(w: World, root: NamespacedName, k: NamespacedName, conds: seq<MatchCondition>, j: nat)
    requires k in w.proxies && j < |w.proxies[k].routes|
  {
    var spec, all := w.proxies[k].routes[j], RouteConditions(w, k, conds, j);
    && PathConditionsValid(spec.conditions, w.checks.regexOk)
    && w.checks.conditionsOk(all)
    && w.checks.routeOk(root, k, j)
    && (spec.replacements != [] ==> MergedPath(all).Prefix? && ReplacementsValid(spec.replacements))
  }

  /** A route with replacements is accepted only on a prefix, and with one replacement for each prefix. */
  lemma AcceptedIff(w: World, root: NamespacedName, k: NamespacedName, conds: seq<MatchCondition>, j: nat)
    requires k in w.proxies && j < |w.proxies[k].routes|
    ensures var spec := w.proxies[k].routes[j];
            RouteAccepted(w, root, k, conds, j) <==>
            && PathConditionsValid(spec.conditions, w.checks.regexOk)
            && w.checks.conditionsOk(conds + spec.conditions) && w.checks.routeOk(root, k, j)
            && (spec.replacements == [] ||
                (&& MergedPath(conds + spec.conditions).Prefix?
                 && !exists m: nat, n: nat | m < n < |spec.replacements| ::
                       spec.replacements[m].prefix == spec.replacements[n].prefix))
  {
    hide Conditions.MergedPath, Conditions.PathConditionsValid;
  }

  /** Routes of a wildcard host match the host name as well. */
  function WildcardHeaders(w: World, root: NamespacedName): seq<HeaderMatch> {
    if root in w.proxies && w.proxies[root].virtualHost.Some? && "*." <= w.proxies[root].virtualHost.value.fqdn
    then
      var pattern := w.checks.wildcardRegex(w.proxies[root].virtualHost.value.fqdn);
      [HeaderMatch(":authority", pattern, HeaderRegex, false, false, false)]
    else []
  }

  function BuiltRoute(w: World, root: NamespacedName, k: NamespacedName, conds: seq<MatchCondition>, j: nat): DagRoute
    requires k in w.proxies && j < |w.proxies[k].routes|
  {
    var spec, all := w.proxies[k].routes[j], RouteConditions(w, k, conds, j);
    var path := MergedPath(all);
    PX.Route(path,
             if spec.replacements != [] && path.Prefix? then ChosenRewrite(spec.replacements, path.prefix) else None,
             FromRoute(k, j, MergedHeaders(all) + WildcardHeaders(w, root), MergedQueries(all)))
  }

  /** What is known of a route that is built: its path and conditions are merged from those of the chain and the route;
      on a wildcard host it asks for a host name in one label as well; and it is rewritten by the replacement for its
      very prefix, or else by the default one, if there is one. */
  lemma BuiltRouteIs(w: World, root: NamespacedName, k: NamespacedName, conds: seq<MatchCondition>, j: nat, t: string)
    requires k in w.proxies && j < |w.proxies[k].routes| && RouteAccepted(w, root, k, conds, j)
    ensures var r, spec := BuiltRoute(w, root, k, conds, j), w.proxies[k].routes[j];
            && r.path == MergedPath(conds + spec.conditions)
            && r.rest.FromRoute? && r.rest.proxy == k && r.rest.index == j
            && r.rest.queries == MergedQueries(conds + spec.conditions)
            && MergedHeaders(conds + spec.conditions) <= r.rest.headers
            && (OnWildcard(w, root) ==>
                  && |r.rest.headers| == |MergedHeaders(conds + spec.conditions)| + 1
                  && var h := r.rest.headers[|r.rest.headers| - 1];
                     && h.name == ":authority" && h.matchType == HeaderRegex
                     && h.value == w.checks.wildcardRegex(w.proxies[root].virtualHost.value.fqdn)
                     && !h.invert && !h.ignoreCase && !h.treatMissingAsEmpty)
            && (!OnWildcard(w, root) ==> r.rest.headers == MergedHeaders(conds + spec.conditions))
    ensures var r, spec := BuiltRoute(w, root, k, conds, j), w.proxies[k].routes[j];
            && (spec.replacements == [] ==> r.rewrite.None?)
            && (spec.replacements != [] ==>
                  && r.path.Prefix?
                  && (r.path.prefix != "" ==>
                        && (ReplacePrefix(r.path.prefix, t) in spec.replacements ==> r.rewrite == Some(t))
                        && (ReplacePrefix("", t) in spec.replacements
                            && (forall p | p in spec.replacements :: p.prefix != r.path.prefix)
                            ==> r.rewrite == Some(t))
                        && (r.rewrite.None? <==>
                            forall p | p in spec.replacements :: p.prefix != r.path.prefix && p.prefix != "")))
  {
    hide Conditions.MergedPath, Conditions.MergedHeaders, Conditions.MergedQueries, ChosenRewrite;
    var spec := w.proxies[k].routes[j];
    var path := MergedPath(conds + spec.conditions);
    if spec.replacements != [] && path.prefix != "" { ChosenIs(spec.replacements, path.prefix, t); }
  }

  predicate OnWildcard(w: World, root: NamespacedName) {
    && root in w.proxies && w.proxies[root].virtualHost.Some?
    && var fqdn := w.proxies[root].virtualHost.value.fqdn; |fqdn| > 1 && fqdn[0] == '*' && fqdn[1] == '.'
  }

  /** Include `i` passes its checks but names no proxy that can be included, and has conditions. */
  predicate Dangling(w: World, k: NamespacedName, i: nat) {
    && k in w.proxies && IncludePasses(w, w.proxies[k].includes, i)
    && !Includable(w, IncludeTarget(k, w.proxies[k].includes[i]))
    && w.proxies[k].includes[i].conditions != []
  }

  /** Such an include names a proxy that is missing or is a root. */
  lemma DanglingIff(w: World, k: NamespacedName, i: nat)
    ensures Dangling(w, k, i) <==>
            && k in w.proxies && IncludePasses(w, w.proxies[k].includes, i)
            && var inc := w.proxies[k].includes[i];
               && |inc.conditions| > 0
               && var q := NamespacedName(if inc.namespace != "" then inc.namespace else k.namespace, inc.name);
                  q !in w.proxies || w.proxies[q].virtualHost.Some?
  {
    hide Delegation.IncludeWellFormed, IncludeDuplicates.Duplicate;
  }

  function BadGatewayRoute(w: World, k: NamespacedName, i: nat): DagRoute
    requires Dangling(w, k, i)
  {
    var conds := w.proxies[k].includes[i].conditions;
    PX.Route(MergedPath(conds), None, BadGateway(k, MergedHeaders(conds), MergedQueries(conds)))
  }

  /** `r` is `b`, or one of the two routes that prefix expansion turns `b` into. */
  predicate Variant(r: DagRoute, b: DagRoute) {
    r == b ||
    (b.path.Prefix? && b.rewrite.Some? && b.path.prefix != "/" && (r == PX.ShortRoute(b) || r == PX.SlashRoute(b)))
  }

  /** Every route of the proxy is accepted; otherwise the proxy yields nothing. */
  predicate AllAccepted(w: World, root: NamespacedName, k: NamespacedName, conds: seq<MatchCondition>)
    requires k in w.proxies
  {
    forall j | 0 <= j < |w.proxies[k].routes| :: RouteAccepted(w, root, k, conds, j)
  }

  /** The chain repeats no proxy, and the proxies on it from `base` on all accept their routes. */
  predicate Leads(w: World, root: NamespacedName, base: Chain, c: Chain) {
    && IsChain(w, c) && NoRepeat(c)
    && AllAccepted(w, root, c.k, Collected(w, c))
    && (c == base || (c.Via? && Leads(w, root, base, c.prev)))
  }

  /** `r` is the route that chain `c` and entry `j` of its last proxy's routes stand for. */
  predicate ComesFrom(w: World, root: NamespacedName, r: DagRoute, c: Chain, j: nat) {
    && Leads(w, root, Start(root), c) && j < |w.proxies[c.k].routes|
    && Variant(r, BuiltRoute(w, root, c.k, Collected(w, c), j))
  }

  predicate ComesFromInclude(w: World, root: NamespacedName, r: DagRoute, c: Chain, i: nat) {
    && Leads(w, root, Start(root), c)
    && Dangling(w, c.k, i) && r == BadGatewayRoute(w, c.k, i)
  }

  /** A route of a root comes from a chain that starts at the root, repeats no proxy, and on which every proxy
      accepts its routes. */
  ghost predicate Justified(w: World, root: NamespacedName, r: DagRoute) {
    || (exists c, j :: ComesFrom(w, root, r, c, j))
    || (exists c, i :: ComesFromInclude(w, root, r, c, i))
  }

  predicate HasVariant(rs: seq<DagRoute>, b: DagRoute) {
    exists r | r in rs :: Variant(r, b)
  }

  /** `rs` holds all routes that the last proxy of the chain stands for. */
  ghost predicate Complete(w: World, root: NamespacedName, rs: seq<DagRoute>, c: Chain)
    requires IsChain(w, c)
  {
    && (forall j | 0 <= j < |w.proxies[c.k].routes| :: HasVariant(rs, BuiltRoute(w, root, c.k, Collected(w, c), j)))
    && (forall i | Dangling(w, c.k, i) :: HasVariant(rs, BadGatewayRoute(w, c.k, i)))
  }

  // ---------- Prefix expansion keeps what is known ----------

  lemma TrimNonEmpty(t: string)
    requires PX.TrimSlashes(t) == t
    ensures PX.TrimSlashes(PX.NonEmpty(t)) == t
  {
    assert "/"[..0] == "";
  }

  /** Expanding a variant gives variants. */
  lemma VariantExpands(all: seq<DagRoute>, r: DagRoute, b: DagRoute, e: DagRoute)
    requires Variant(r, b) && e in PX.ExpandOne(all, r)
    ensures Variant(e, b)
  {
    if PX.Expandable(all, r) && r != b {
      var p, t := b.path.prefix, b.rewrite.value;
      PX.KeyNotSlash(p);
      PX.TrimIs(p);
      PX.TrimIs(t);
      TrimNonEmpty(PX.TrimSlashes(t));
      PX.TrimAddedSlash(PX.TrimSlashes(t));
      if r == PX.SlashRoute(b) {
        PX.TrimAddedSlash(PX.TrimSlashes(p));
      }
    }
  }

  ghost predicate AllJustified(w: World, root: NamespacedName, rs: seq<DagRoute>) {
    forall r | r in rs :: Justified(w, root, r)
  }

  lemma JustifiedVariant(w: World, root: NamespacedName, all: seq<DagRoute>, r: DagRoute, e: DagRoute)
    requires Justified(w, root, r) && e in PX.ExpandOne(all, r)
    ensures Justified(w, root, e)
  {
    if exists c, j :: ComesFrom(w, root, r, c, j) {
      var c, j :| ComesFrom(w, root, r, c, j);
      VariantExpands(all, r, BuiltRoute(w, root, c.k, Collected(w, c), j), e);
      assert ComesFrom(w, root, e, c, j);
    } else {
      var c, i :| ComesFromInclude(w, root, r, c, i);
      assert e == r;
    }
  }

  /** Expansion keeps every route justified. */
  lemma ExpansionKeeps(w: World, root: NamespacedName, pre: seq<DagRoute>)
    requires AllJustified(w, root, pre)
    ensures AllJustified(w, root, PX.Expanded(pre))
  {
    forall e | e in PX.Expanded(pre) ensures Justified(w, root, e) {
      var r := PX.ExpandedFrom(pre, pre, e);
      JustifiedVariant(w, root, pre, r, e);
    }
  }

  /** Expansion drops no route. */
  lemma ExpansionKeepsVariant(pre: seq<DagRoute>, r: DagRoute, b: DagRoute)
    requires r in pre && Variant(r, b)
    ensures HasVariant(PX.Expanded(pre), b)
  {
    var e := PX.ExpandOne(pre, r)[0];
    PX.ExpandContains(pre, pre, r);
    VariantExpands(pre, r, b, e);
  }

  // ---------- What is known of a route's path ----------

  lemma {:induction false} CollectedSlashes(w: World, c: Chain)
    requires IsChain(w, c)
    ensures SlashStarts(Collected(w, c))
  {
    if c.Via? {
      CollectedSlashes(w, c.prev);
      ValidMeansSlashStarts(w.proxies[c.prev.k].includes[c.inc].conditions, w.checks.regexOk);
    }
  }

  lemma {:induction false} SegmentsTrim(s: string)
    ensures Segments(PX.TrimSlashes(s)) == Segments(s)
  {
    if s != "" && s[|s| - 1] == '/' {
      var init := s[..|s| - 1];
      SegmentsTrim(init);
      assert s == init + "/" && "/"[1..] == "";
      SegmentsAppend(init, "/");
    }
  }

  /** Both spellings of a prefix are as well formed as the prefix, and have its segments. */
  lemma SpellingsWellFormed(m: string)
    requires StartsWithSlash(m) && NoDoubleSlash(m) && m != "/"
    ensures var t := PX.TrimSlashes(m);
            && StartsWithSlash(t) && NoDoubleSlash(t) && Segments(t) == Segments(m)
            && StartsWithSlash(t + "/") && NoDoubleSlash(t + "/") && Segments(t + "/") == Segments(m)
  {
    var t := PX.TrimSlashes(m);
    PX.TrimIs(m);
    PX.TrimNotEmpty(m);
    SegmentsTrim(m);
    PX.NoDoubleAtSeam(t, "");
    assert t + "/" + "" == t + "/" && "/" + "" == "/";
    assert Segments(m) + [] == Segments(m);
  }

  /** The spellings that a variant's path can have. */
  predicate Spelling(path: PathMatch, m: PathMatch) {
    || path == m
    || (&& m.Prefix? && m.prefix != "/"
        && (path == Prefix(PX.TrimSlashes(m.prefix), false) || path == Prefix(PX.TrimSlashes(m.prefix) + "/", false)))
  }

  lemma VariantSpelling(w: World, root: NamespacedName, r: DagRoute, k: NamespacedName,
                        conds: seq<MatchCondition>, j: nat)
    requires k in w.proxies && j < |w.proxies[k].routes| && Variant(r, BuiltRoute(w, root, k, conds, j))
    ensures Spelling(r.path, MergedPath(RouteConditions(w, k, conds, j)))
  {
    hide Conditions.MergedPath, Conditions.MergedHeaders, Conditions.MergedQueries, ChosenRewrite, WildcardHeaders;
  }

  /** A spelling is well formed and has the same segments. */
  lemma SpellingKeeps(path: PathMatch, m: PathMatch)
    requires Spelling(path, m) && StartsWithSlash(Text(m)) && NoDoubleSlash(Text(m))
    ensures StartsWithSlash(Text(path)) && NoDoubleSlash(Text(path)) && Segments(Text(path)) == Segments(Text(m))
  {
    if path != m {
      SpellingsWellFormed(m.prefix);
    }
  }

  /** The path of every route built from a chain starts with a slash, doubles none, and its segments are
      those of the path conditions of the chain and the route, in order. */
  lemma RoutePathIs(w: World, root: NamespacedName, r: DagRoute, c: Chain, j: nat)
    requires ComesFrom(w, root, r, c, j)
    ensures var all := RouteConditions(w, c.k, Collected(w, c), j);
            && StartsWithSlash(Text(r.path)) && NoDoubleSlash(Text(r.path))
            && Segments(Text(r.path)) == ConditionSegments(all)
            && KindFits(r.path, all)
  {
    var all := RouteConditions(w, c.k, Collected(w, c), j);
    AllSlashStarts(w, root, r, c, j);
    hide Conditions.MergedPath, Conditions.Segments, Conditions.ConditionSegments, Conditions.SlashStarts;
    hide Conditions.NoDoubleSlash, Conditions.StartsWithSlash, Conditions.KindFits, Conditions.Text;
    hide BuiltRoute, Variant, Spelling;
    MergedPathIs(all);
    MergedKind(all);
    VariantSpelling(w, root, r, c.k, Collected(w, c), j);
    SpellingKeeps(r.path, MergedPath(all));
    SpellingKind(r.path, MergedPath(all), all);
  }

  lemma SpellingKind(path: PathMatch, m: PathMatch, all: seq<MatchCondition>)
    requires Spelling(path, m) && KindFits(m, all)
    ensures KindFits(path, all)
  {
  }

  lemma AllSlashStarts(w: World, root: NamespacedName, r: DagRoute, c: Chain, j: nat)
    requires ComesFrom(w, root, r, c, j)
    ensures SlashStarts(RouteConditions(w, c.k, Collected(w, c), j))
  {
    hide Conditions.MergedPath, BuiltRoute, Variant;
    CollectedSlashes(w, c);
    assert RouteAccepted(w, root, c.k, Collected(w, c), j);
    ValidMeansSlashStarts(w.proxies[c.k].routes[j].conditions, w.checks.regexOk);
  }

  // ---------- What the walk computes ----------

  function Concat(parts: seq<seq<DagRoute>>): seq<DagRoute> {
    if parts == [] then [] else Concat(parts[..|parts| - 1]) + parts[|parts| - 1]
  }

  lemma {:induction false} ConcatHolds(parts: seq<seq<DagRoute>>, i: nat, r: DagRoute)
    requires i < |parts| && r in parts[i]
    ensures r in Concat(parts)
  {
    if i < |parts| - 1 {
      ConcatHolds(parts[..|parts| - 1], i, r);
    }
  }

  lemma ConcatNone()
    ensures Concat([]) == []
  {
  }

  lemma {:induction false} ConcatStep(parts: seq<seq<DagRoute>>, i: nat, rs: seq<DagRoute>, more: seq<DagRoute>)
    requires i < |parts| && multiset(rs) == multiset(Concat(parts[..i])) && multiset(more) == multiset(parts[i])
    ensures multiset(rs + more) == multiset(Concat(parts[..i + 1]))
  {
    assert parts[..i + 1][..i] == parts[..i];
  }

  lemma {:induction false} ConcatJustified(w: World, root: NamespacedName, parts: seq<seq<DagRoute>>)
    requires forall i | 0 <= i < |parts| :: AllJustified(w, root, parts[i])
    ensures AllJustified(w, root, Concat(parts))
  {
    if parts != [] {
      ConcatJustified(w, root, parts[..|parts| - 1]);
    }
  }

  /** The routes that proxy `k` builds itself. */
  function OwnRoutes(w: World, root: NamespacedName, k: NamespacedName, conds: seq<MatchCondition>): seq<DagRoute>
    requires k in w.proxies
  {
    seq(|w.proxies[k].routes|, j requires 0 <= j < |w.proxies[k].routes| => BuiltRoute(w, root, k, conds, j))
  }

  /** The routes of proxy `k`, visited after `visited` with the conditions `conds`. */
  ghost function RoutesFor(w: World, root: NamespacedName, k: NamespacedName, conds: seq<MatchCondition>,
                           visited: seq<NamespacedName>): seq<DagRoute>
    requires k in w.proxies
    decreases w.proxies.Keys - Elements(visited), 0, 0
  {
    if k in visited || !AllAccepted(w, root, k, conds) then []
    else
      ElementsGrow(visited, k);
      PX.Expanded(Concat(IncludedRoutes(w, root, k, conds, visited + [k])) + OwnRoutes(w, root, k, conds))
  }

  /** The routes of each include of proxy `k`, the last of the visited ones. */
  ghost function IncludedRoutes(w: World, root: NamespacedName, k: NamespacedName, conds: seq<MatchCondition>,
                                visited: seq<NamespacedName>): seq<seq<DagRoute>>
    requires k in w.proxies
    decreases w.proxies.Keys - Elements(visited), 2
  {
    var n := |w.proxies[k].includes|;
    seq(n, i requires 0 <= i < n => IncludeRoutes(w, root, k, conds, visited, i))
  }

  ghost function IncludeRoutes(w: World, root: NamespacedName, k: NamespacedName, conds: seq<MatchCondition>,
                               visited: seq<NamespacedName>, i: nat): seq<DagRoute>
    requires k in w.proxies && i < |w.proxies[k].includes|
    decreases w.proxies.Keys - Elements(visited), 1, 0
  {
    var inc := w.proxies[k].includes[i];
    var q := IncludeTarget(k, inc);
    if Dangling(w, k, i) then [BadGatewayRoute(w, k, i)]
    else if Follows(w, k, i, q) then RoutesFor(w, root, q, conds + inc.conditions, visited)
    else []
  }

  /** The proxies that the route includes of `k` lead to, visited after `visited`. */
  ghost function ErasedFor(w: World, k: NamespacedName, visited: seq<NamespacedName>): set<NamespacedName>
    requires k in w.proxies
    decreases w.proxies.Keys - Elements(visited), 0, 0
  {
    if k in visited then {}
    else
      ElementsGrow(visited, k);
      ErasedIncludes(w, k, visited + [k], |w.proxies[k].includes|)
  }

  ghost function ErasedIncludes(w: World, k: NamespacedName, visited: seq<NamespacedName>, n: nat): set<NamespacedName>
    requires k in w.proxies && n <= |w.proxies[k].includes|
    decreases w.proxies.Keys - Elements(visited), 2, n
  {
    if n == 0 then {} else ErasedIncludes(w, k, visited, n - 1) + ErasedInclude(w, k, visited, n - 1)
  }

  ghost function ErasedInclude(w: World, k: NamespacedName, visited: seq<NamespacedName>, i: nat): set<NamespacedName>
    requires k in w.proxies && i < |w.proxies[k].includes|
    decreases w.proxies.Keys - Elements(visited), 1, 0
  {
    var q := IncludeTarget(k, w.proxies[k].includes[i]);
    if Follows(w, k, i, q) then ErasedFor(w, q, visited) + {q} else {}
  }

  /** An include that passes its checks is followed, or answered with a bad gateway if it has conditions. */
  lemma IncludeCases(w: World, root: NamespacedName, k: NamespacedName, conds: seq<MatchCondition>,
                     visited: seq<NamespacedName>, i: nat)
    requires k in w.proxies && i < |w.proxies[k].includes| && IncludePasses(w, w.proxies[k].includes, i)
    ensures var inc := w.proxies[k].includes[i];
            var q := IncludeTarget(k, inc);
            if Includable(w, q) then
              && IncludeRoutes(w, root, k, conds, visited, i) == RoutesFor(w, root, q, conds + inc.conditions, visited)
              && ErasedInclude(w, k, visited, i) == ErasedFor(w, q, visited) + {q}
            else
              && ErasedInclude(w, k, visited, i) == {}
              && IncludeRoutes(w, root, k, conds, visited, i) ==
                 if inc.conditions != [] then [BadGatewayRoute(w, k, i)] else []
  {
    hide RoutesFor, ErasedFor, IncludePasses, BadGatewayRoute;
  }

  lemma NothingIncluded(w: World, root: NamespacedName, k: NamespacedName, conds: seq<MatchCondition>,
                        visited: seq<NamespacedName>, i: nat)
    requires k in w.proxies && i < |w.proxies[k].includes| && !IncludePasses(w, w.proxies[k].includes, i)
    ensures IncludeRoutes(w, root, k, conds, visited, i) == [] && ErasedInclude(w, k, visited, i) == {}
  {
  }

  // ---------- The walk reaches exactly what is reachable ----------

  ghost predicate AllReached(w: World, k: NamespacedName, s: set<NamespacedName>) {
    forall q | q in s :: Reaches(w, k, q)
  }

  lemma {:induction false} ErasedIsReached(w: World, k: NamespacedName, visited: seq<NamespacedName>)
    requires k in w.proxies
    ensures AllReached(w, k, ErasedFor(w, k, visited))
    decreases w.proxies.Keys - Elements(visited), 0, 0
  {
    if k !in visited {
      ElementsGrow(visited, k);
      ErasedIncludesAreReached(w, k, visited + [k], |w.proxies[k].includes|);
    }
  }

  lemma {:induction false} ErasedIncludesAreReached(w: World, k: NamespacedName, visited: seq<NamespacedName>, n: nat)
    requires k in w.proxies && n <= |w.proxies[k].includes|
    ensures AllReached(w, k, ErasedIncludes(w, k, visited, n))
    decreases w.proxies.Keys - Elements(visited), 1, n
  {
    hide Delegation.IncludePasses, Edge, Reaches, ErasedFor;
    if n > 0 {
      ErasedIncludesAreReached(w, k, visited, n - 1);
      var q := IncludeTarget(k, w.proxies[k].includes[n - 1]);
      if Follows(w, k, n - 1, q) {
        ErasedIsReached(w, q, visited);
        FollowedIsEdge(w, k, n - 1, q);
        ReachedThrough(w, k, q, ErasedFor(w, q, visited));
      }
    }
  }

  lemma FollowedIsEdge(w: World, k: NamespacedName, i: nat, q: NamespacedName)
    requires Follows(w, k, i, q)
    ensures Edge(w, k, q)
  {
  }

  lemma ReachedThrough(w: World, k: NamespacedName, q: NamespacedName, s: set<NamespacedName>)
    requires Edge(w, k, q) && AllReached(w, q, s)
    ensures AllReached(w, k, s + {q})
  {
    hide Edge, Reaches;
    ReachesByEdge(w, k, q);
    forall m | m in s ensures Reaches(w, k, m) { ReachesFirst(w, k, q, m); }
  }

  /** No edge leaves `s`, except from the proxies on the way. */
  ghost predicate ClosedOutside(w: World, s: set<NamespacedName>, visited: seq<NamespacedName>) {
    forall n, q | n in s && n !in visited && Edge(w, n, q) :: q in s
  }

  lemma {:induction false} ErasedIsClosed(w: World, k: NamespacedName, visited: seq<NamespacedName>)
    requires k in w.proxies
    ensures ClosedOutside(w, ErasedFor(w, k, visited), visited)
    ensures k !in visited ==> forall q | Edge(w, k, q) :: q in ErasedFor(w, k, visited)
    decreases w.proxies.Keys - Elements(visited), 0, 0
  {
    if k !in visited {
      ElementsGrow(visited, k);
      ErasedIncludesAreClosed(w, k, visited + [k], |w.proxies[k].includes|);
    }
  }

  lemma {:induction false} ErasedIncludesAreClosed(w: World, k: NamespacedName, visited: seq<NamespacedName>, n: nat)
    requires k in w.proxies && n <= |w.proxies[k].includes|
    ensures ClosedOutside(w, ErasedIncludes(w, k, visited, n), visited)
    ensures forall i: nat, q | i < n && Follows(w, k, i, q) :: q in ErasedIncludes(w, k, visited, n)
    decreases w.proxies.Keys - Elements(visited), 1, n
  {
    hide Delegation.IncludePasses, Edge, ErasedFor;
    if n > 0 {
      ErasedIncludesAreClosed(w, k, visited, n - 1);
      var q := IncludeTarget(k, w.proxies[k].includes[n - 1]);
      if Follows(w, k, n - 1, q) {
        ErasedIsClosed(w, q, visited);
        ClosedWith(w, ErasedFor(w, q, visited), q, visited);
      }
      ClosedUnion(w, ErasedIncludes(w, k, visited, n - 1), ErasedInclude(w, k, visited, n - 1), visited);
    }
  }

  lemma ClosedUnion(w: World, s: set<NamespacedName>, t: set<NamespacedName>, visited: seq<NamespacedName>)
    requires ClosedOutside(w, s, visited) && ClosedOutside(w, t, visited)
    ensures ClosedOutside(w, s + t, visited)
  {
  }

  lemma ClosedWith(w: World, s: set<NamespacedName>, q: NamespacedName, visited: seq<NamespacedName>)
    requires ClosedOutside(w, s, visited) && (q !in visited ==> forall n | Edge(w, q, n) :: n in s)
    ensures ClosedOutside(w, s + {q}, visited)
  {
  }

  /** Cutting cycles loses nothing: the proxies whose mark the walk from `k` erases are exactly those that
      can be reached from `k`, whatever cycles the graph has. */
  lemma ErasedIsReachable(w: World, k: NamespacedName)
    requires k in w.proxies
    ensures forall q :: q in ErasedFor(w, k, []) <==> Reaches(w, k, q)
  {
    ErasedIsReached(w, k, []);
    ErasedIsClosed(w, k, []);
    forall q | Reaches(w, k, q) ensures q in ErasedFor(w, k, []) {
      var p :| RoutePath(w, p) && |p| >= 2 && p[0] == k && p[|p| - 1] == q;
      ReachesClosed(w, p, ErasedFor(w, k, []));
    }
  }

  // ---------- The routes are exactly those of the chains ----------

  lemma OwnJustified(w: World, root: NamespacedName, c: Chain)
    requires Leads(w, root, Start(root), c)
    ensures AllJustified(w, root, OwnRoutes(w, root, c.k, Collected(w, c)))
  {
    var conds := Collected(w, c);
    forall r | r in OwnRoutes(w, root, c.k, conds) ensures Justified(w, root, r) {
      var j: nat :| j < |w.proxies[c.k].routes| && r == BuiltRoute(w, root, c.k, conds, j);
      assert ComesFrom(w, root, r, c, j);
    }
  }

  /** The chain is the root itself, or its proxies before the last one all accept their routes. */
  predicate Arrives(w: World, root: NamespacedName, c: Chain) {
    IsChain(w, c) && (c == Start(root) || (c.Via? && Leads(w, root, Start(root), c.prev)))
  }

  /** Every route of the walk is the route of a chain that repeats no proxy and on which every proxy accepts its
      routes. */
  lemma {:induction false} RoutesJustified(w: World, root: NamespacedName, c: Chain, visited: seq<NamespacedName>)
    requires Arrives(w, root, c) && Proxies(c) == visited + [c.k] && (c.k !in visited ==> NoRepeat(c))
    ensures AllJustified(w, root, RoutesFor(w, root, c.k, Collected(w, c), visited))
    decreases w.proxies.Keys - Elements(visited), 0, 0
  {
    var k, conds := c.k, Collected(w, c);
    if k !in visited && AllAccepted(w, root, k, conds) {
      ElementsGrow(visited, k);
      assert Leads(w, root, Start(root), c);
      IncludedJustified(w, root, c, visited + [k]);
      OwnJustified(w, root, c);
      var pre := Concat(IncludedRoutes(w, root, k, conds, visited + [k])) + OwnRoutes(w, root, k, conds);
      ExpansionKeeps(w, root, pre);
    }
  }

  lemma {:induction false} IncludedJustified(w: World, root: NamespacedName, c: Chain, visited: seq<NamespacedName>)
    requires Leads(w, root, Start(root), c) && Proxies(c) == visited
    ensures AllJustified(w, root, Concat(IncludedRoutes(w, root, c.k, Collected(w, c), visited)))
    decreases w.proxies.Keys - Elements(visited), 2
  {
    var parts := IncludedRoutes(w, root, c.k, Collected(w, c), visited);
    forall i | 0 <= i < |parts| ensures AllJustified(w, root, parts[i]) {
      IncludeJustified(w, root, c, visited, i);
    }
    ConcatJustified(w, root, parts);
  }

  lemma {:induction false} IncludeJustified(w: World, root: NamespacedName, c: Chain,
                                            visited: seq<NamespacedName>, i: nat)
    requires Leads(w, root, Start(root), c) && Proxies(c) == visited
    requires i < |w.proxies[c.k].includes|
    ensures AllJustified(w, root, IncludeRoutes(w, root, c.k, Collected(w, c), visited, i))
    decreases w.proxies.Keys - Elements(visited), 1, 0
  {
    var q := IncludeTarget(c.k, w.proxies[c.k].includes[i]);
    if Dangling(w, c.k, i) {
      assert ComesFromInclude(w, root, BadGatewayRoute(w, c.k, i), c, i);
    } else if Follows(w, c.k, i, q) {
      RoutesJustified(w, root, Via(c, i, q), visited);
    }
  }

  /** A longer chain takes some include of the last proxy of the shorter one. */
  lemma {:induction false} LeadsNext(w: World, root: NamespacedName, base: Chain, c: Chain)
    returns (i: nat, q: NamespacedName)
    requires Leads(w, root, base, c) && c != base
    ensures Follows(w, base.k, i, q) && Leads(w, root, Via(base, i, q), c)
  {
    if c.prev == base {
      i, q := c.inc, c.k;
    } else {
      i, q := LeadsNext(w, root, base, c.prev);
    }
  }

  lemma {:induction false} LeadsFrom(w: World, root: NamespacedName, base: Chain, c: Chain)
    requires Leads(w, root, base, c)
    ensures IsChain(w, base) && NoRepeat(base) && AllAccepted(w, root, base.k, Collected(w, base))
  {
    if c != base {
      LeadsFrom(w, root, base, c.prev);
    }
  }

  /** What an include stands for is among the routes of the proxy, in one spelling or another. */
  lemma {:induction false} IncludeVariants(w: World, root: NamespacedName, c: Chain,
                                           visited: seq<NamespacedName>, i: nat, b: DagRoute)
    requires c.k in w.proxies && i < |w.proxies[c.k].includes|
    requires IsChain(w, c) && c.k !in visited && AllAccepted(w, root, c.k, Collected(w, c))
    requires HasVariant(IncludeRoutes(w, root, c.k, Collected(w, c), visited + [c.k], i), b)
    ensures HasVariant(RoutesFor(w, root, c.k, Collected(w, c), visited), b)
  {
    var k, conds := c.k, Collected(w, c);
    var r :| r in IncludeRoutes(w, root, k, conds, visited + [k], i) && Variant(r, b);
    var parts := IncludedRoutes(w, root, k, conds, visited + [k]);
    ConcatHolds(parts, i, r);
    ExpansionKeepsVariant(Concat(parts) + OwnRoutes(w, root, k, conds), r, b);
  }

  lemma {:induction false} OwnComplete(w: World, root: NamespacedName, c: Chain, visited: seq<NamespacedName>)
    requires IsChain(w, c) && c.k !in visited && AllAccepted(w, root, c.k, Collected(w, c))
    ensures Complete(w, root, RoutesFor(w, root, c.k, Collected(w, c), visited), c)
  {
    var k, conds := c.k, Collected(w, c);
    var rs := RoutesFor(w, root, k, conds, visited);
    forall j | 0 <= j < |w.proxies[k].routes| ensures HasVariant(rs, BuiltRoute(w, root, k, conds, j)) {
      var own := OwnRoutes(w, root, k, conds);
      assert own[j] in own;
      ExpansionKeepsVariant(Concat(IncludedRoutes(w, root, k, conds, visited + [k])) + own, own[j], own[j]);
    }
    forall i | Dangling(w, k, i) ensures HasVariant(rs, BadGatewayRoute(w, k, i)) {
      var b := BadGatewayRoute(w, k, i);
      assert b in IncludeRoutes(w, root, k, conds, visited + [k], i) && Variant(b, b);
      IncludeVariants(w, root, c, visited, i, b);
    }
  }

  /** Every chain from the root that repeats no proxy and on which every proxy accepts its routes is served:
      each route at its end, and each dangling include there, has its route. */
  lemma {:induction false} RoutesComplete(w: World, root: NamespacedName, base: Chain,
                                          visited: seq<NamespacedName>, c: Chain)
    requires Leads(w, root, base, c) && Proxies(base) == visited + [base.k] && IsChain(w, base)
    ensures Complete(w, root, RoutesFor(w, root, base.k, Collected(w, base), visited), c)
    decreases w.proxies.Keys - Elements(visited)
  {
    LeadsFrom(w, root, base, c);
    NoRepeatIsNew(base, visited);
    if c == base {
      OwnComplete(w, root, base, visited);
    } else {
      var i, q := LeadsNext(w, root, base, c);
      ElementsGrow(visited, base.k);
      RoutesComplete(w, root, Via(base, i, q), visited + [base.k], c);
      CompleteLift(w, root, base, visited, i, q, c);
    }
  }

  lemma NoRepeatIsNew(c: Chain, visited: seq<NamespacedName>)
    requires NoRepeat(c) && Proxies(c) == visited + [c.k]
    ensures c.k !in visited
  {
    if c.Via? {
      assert Proxies(c)[..|visited|] == Proxies(c.prev);
    }
  }

  lemma {:induction false} CompleteLift(w: World, root: NamespacedName, base: Chain,
                                        visited: seq<NamespacedName>, i: nat, q: NamespacedName, c: Chain)
    requires IsChain(w, base) && base.k !in visited && AllAccepted(w, root, base.k, Collected(w, base))
    requires Follows(w, base.k, i, q) && IsChain(w, c)
    requires Complete(w, root, RoutesFor(w, root, q, Collected(w, Via(base, i, q)), visited + [base.k]), c)
    ensures Complete(w, root, RoutesFor(w, root, base.k, Collected(w, base), visited), c)
  {
    var rs := IncludeRoutes(w, root, base.k, Collected(w, base), visited + [base.k], i);
    assert rs == RoutesFor(w, root, q, Collected(w, Via(base, i, q)), visited + [base.k]);
    forall b | HasVariant(rs, b) ensures HasVariant(RoutesFor(w, root, base.k, Collected(w, base), visited), b) {
      IncludeVariants(w, root, base, visited, i, b);
    }
  }

  lemma SameElements(a: seq<DagRoute>, b: seq<DagRoute>)
    requires multiset(a) == multiset(b)
    ensures forall r :: r in a <==> r in b
  {
    assert forall r :: r in a <==> r in multiset(a);
    assert forall r :: r in b <==> r in multiset(b);
  }

  lemma CompletePermuted(w: World, root: NamespacedName, a: seq<DagRoute>, b: seq<DagRoute>, c: Chain)
    requires multiset(a) == multiset(b) && IsChain(w, c) && Complete(w, root, a, c)
    ensures Complete(w, root, b, c)
  {
    SameElements(a, b);
    forall x | HasVariant(a, x) ensures HasVariant(b, x) {}
  }

  /** The routes of a root, in any order: every one comes from a chain of includes from the root that repeats
      no proxy and on which all proxies accept their routes, and every such chain is served. */
  lemma RootRoutesAre(w: World, root: NamespacedName, rs: seq<DagRoute>)
    requires root in w.proxies && multiset(rs) == multiset(RoutesFor(w, root, root, [], []))
    ensures AllJustified(w, root, rs)
    ensures forall c | Leads(w, root, Start(root), c) :: Complete(w, root, rs, c)
  {
    hide RoutesFor, Justified, Complete;
    var all := RoutesFor(w, root, root, [], []);
    SameElements(rs, all);
    RoutesJustified(w, root, Start(root), []);
    forall c | Leads(w, root, Start(root), c) ensures Complete(w, root, rs, c) {
      RoutesComplete(w, root, Start(root), [], c);
      CompletePermuted(w, root, all, rs, c);
    }
  }

  /** A route built from entry `j` of proxy `k` is among the routes. */
  predicate Serves(rs: seq<DagRoute>, k: NamespacedName, j: nat) {
    exists r | r in rs :: r.rest.FromRoute? && r.rest.proxy == k && r.rest.index == j
  }

  predicate AnswersBadGateway(rs: seq<DagRoute>, k: NamespacedName) {
    exists r | r in rs :: r.rest.BadGateway? && r.rest.proxy == k
  }

  /** A chain on which every proxy accepts its routes leads from the root to the proxy. */
  ghost predicate Led(w: World, root: NamespacedName, k: NamespacedName) {
    k in w.proxies && exists c :: Leads(w, root, Start(root), c) && c.k == k
  }

  lemma VariantOrigin(rs: seq<DagRoute>, b: DagRoute)
    requires HasVariant(rs, b)
    ensures b.rest.FromRoute? ==> Serves(rs, b.rest.proxy, b.rest.index)
    ensures b.rest.BadGateway? ==> AnswersBadGateway(rs, b.rest.proxy)
  {
    var r :| r in rs && Variant(r, b);
    assert r.rest == b.rest;
  }

  /** Entry `j` of a proxy is served exactly when a chain on which every proxy accepts its routes leads to it. */
  lemma ServesIff(w: World, root: NamespacedName, rs: seq<DagRoute>, k: NamespacedName, j: nat)
    requires root in w.proxies && multiset(rs) == multiset(RoutesFor(w, root, root, [], []))
    ensures Serves(rs, k, j) <==> Led(w, root, k) && j < |w.proxies[k].routes|
  {
    hide RoutesFor, AllAccepted, HasVariant, Justified;
    RootRoutesAre(w, root, rs);
    if Serves(rs, k, j) {
      var r :| r in rs && r.rest.FromRoute? && r.rest.proxy == k && r.rest.index == j;
      OriginOf(w, root, r);
    }
    if Led(w, root, k) && j < |w.proxies[k].routes| {
      var c :| Leads(w, root, Start(root), c) && c.k == k;
      VariantOrigin(rs, BuiltRoute(w, root, k, Collected(w, c), j));
    }
  }

  /** A proxy answers for a dangling include exactly when it has one and such a chain leads to it. */
  lemma AnswersBadGatewayIff(w: World, root: NamespacedName, rs: seq<DagRoute>, k: NamespacedName)
    requires root in w.proxies && multiset(rs) == multiset(RoutesFor(w, root, root, [], []))
    ensures AnswersBadGateway(rs, k) <==> Led(w, root, k) && exists i :: Dangling(w, k, i)
  {
    hide RoutesFor, AllAccepted, HasVariant, Justified;
    RootRoutesAre(w, root, rs);
    if AnswersBadGateway(rs, k) {
      var r :| r in rs && r.rest.BadGateway? && r.rest.proxy == k;
      OriginOf(w, root, r);
    }
    if Led(w, root, k) && exists i :: Dangling(w, k, i) {
      var c :| Leads(w, root, Start(root), c) && c.k == k;
      var i :| Dangling(w, k, i);
      VariantOrigin(rs, BadGatewayRoute(w, k, i));
    }
  }

  lemma BuiltOrigin(w: World, root: NamespacedName, r: DagRoute, k: NamespacedName, conds: seq<MatchCondition>, j: nat)
    requires k in w.proxies && j < |w.proxies[k].routes| && Variant(r, BuiltRoute(w, root, k, conds, j))
    ensures r.rest.FromRoute? && r.rest.proxy == k && r.rest.index == j
  {
    hide Conditions.MergedPath, Conditions.MergedHeaders, Conditions.MergedQueries, ChosenRewrite, WildcardHeaders;
  }

  /** The proxy named by a justified route is led to, and has the route or the dangling include. */
  lemma OriginOf(w: World, root: NamespacedName, r: DagRoute)
    requires Justified(w, root, r)
    ensures Led(w, root, r.rest.proxy)
    ensures r.rest.proxy in w.proxies
    ensures r.rest.FromRoute? ==> r.rest.index < |w.proxies[r.rest.proxy].routes|
    ensures r.rest.BadGateway? ==> exists i :: Dangling(w, r.rest.proxy, i)
  {
    hide AllAccepted, BuiltRoute, Conditions.MergedPath, Conditions.MergedHeaders, Conditions.MergedQueries;
    if c, j :| ComesFrom(w, root, r, c, j) {
      BuiltOrigin(w, root, r, c.k, Collected(w, c), j);
    } else {
      var c, i :| ComesFromInclude(w, root, r, c, i);
      assert Dangling(w, c.k, i) && r.rest.proxy == c.k;
    }
  }
}
