/**
 The include graph of HTTPProxies: what a world of proxies delegates to what.

 This module holds the data, the edges of the graph and what it means to be reached; the walk itself is
 in module ProxyProcessor.
 */
module Delegation {
  import opened Wrappers
  import opened Names
  import opened MatchConditions
  import opened Conditions
  import opened IncludeDuplicates

  datatype Include = Include(name: string, namespace: string, conditions: seq<MatchCondition>)

  datatype ReplacePrefix = ReplacePrefix(prefix: string, replacement: string)

  datatype RouteSpec = RouteSpec(conditions: seq<MatchCondition>, replacements: seq<ReplacePrefix>)

  datatype Target = Target(name: string, namespace: string)

  datatype TCPProxy = TCPProxy(hasServices: bool, incl: Option<Target>, includesDeprecated: Option<Target>)

  datatype VirtualHost = VirtualHost(fqdn: string, tls: bool)

  datatype Proxy = Proxy(
    virtualHost: Option<VirtualHost>,
    includes: seq<Include>,
    routes: seq<RouteSpec>,
    tcp: Option<TCPProxy>)

  /** Outcomes of the checks that the model does not open up: regular expressions, header and query
      parameter conditions, the policies of a route, the settings of a root, the services of a TCP proxy.
      `toLower` is the lower-case form of a host name;
      `wildcardRegex` is the pattern that matches a wildcard host name in one label only. */
  datatype Checks = Checks(
    wildcardRegex: string -> string,
    regexOk: string -> bool,
    conditionsOk: seq<MatchCondition> -> bool,
    routeOk: (NamespacedName, NamespacedName, nat) -> bool,
    rootOk: NamespacedName -> bool,
    servicesOk: NamespacedName -> bool,
    toLower: string -> string)

  datatype World = World(proxies: map<NamespacedName, Proxy>, checks: Checks)

  function DefaultNamespace(namespace: string, k: NamespacedName): string {
    if namespace == "" then k.namespace else namespace
  }

  /** A proxy that can be included: it exists and is not a root. */
  predicate Includable(w: World, q: NamespacedName) {
    q in w.proxies && w.proxies[q].virtualHost.None?
  }

  // ---------- Route includes ----------

  predicate IncludeWellFormed(w: World, inc: Include) {
    && IncludeConditionsValid(inc.conditions)
    && PathConditionsValid(inc.conditions, w.checks.regexOk)
    && w.checks.conditionsOk(inc.conditions)
  }

  /** The conditions of the includes before the `n`-th that reach the check for duplicates. */
  function CheckedBefore(w: World, incs: seq<Include>, n: nat): seq<seq<MatchCondition>>
    requires n <= |incs|
  {
    if n == 0 then []
    else
      var before := CheckedBefore(w, incs, n - 1);
      if IncludeWellFormed(w, incs[n - 1]) then before + [incs[n - 1].conditions] else before
  }

  predicate IncludePasses(w: World, incs: seq<Include>, i: nat) {
    i < |incs| && IncludeWellFormed(w, incs[i]) && !Duplicate(incs[i].conditions, CheckedBefore(w, incs, i))
  }

  lemma {:induction false} CheckedAre(w: World, incs: seq<Include>, n: nat, conds: seq<MatchCondition>)
    requires n <= |incs|
    ensures conds in CheckedBefore(w, incs, n) <==>
            exists j: nat | j < n :: IncludeWellFormed(w, incs[j]) && incs[j].conditions == conds
  {
    hide IncludeWellFormed;
    if n > 0 {
      CheckedAre(w, incs, n - 1, conds);
      if j: nat :| j < n - 1 && IncludeWellFormed(w, incs[j]) && incs[j].conditions == conds {}
    }
  }

  /** An include passes exactly if it has prefixes only, its conditions are valid, and no earlier include that is well
      formed has the same path and the same header and query parameter conditions, unless these are just `/`. */
  lemma PassesIff(w: World, incs: seq<Include>, i: nat)
    requires i < |incs|
    ensures IncludePasses(w, incs, i) <==>
            && (forall c | c in incs[i].conditions :: c.exact == "" && c.regex == "")
            && PathConditionsValid(incs[i].conditions, w.checks.regexOk) && w.checks.conditionsOk(incs[i].conditions)
            && var conds := incs[i].conditions;
               (|| (MergedPath(conds) == Prefix("/", false) && MergedHeaders(conds) == [] && MergedQueries(conds) == [])
                || forall j: nat | j < i && IncludeWellFormed(w, incs[j]) ::
                     MergedPath(incs[j].conditions) != MergedPath(conds) || !SameTests(incs[j].conditions, conds))
  {
    hide Conditions.MergedPath, Conditions.MergedHeaders, Conditions.MergedQueries, SameTests, Duplicate,
      PathConditionsValid, CheckedBefore;
    var conds := incs[i].conditions;
    forall k | 0 <= k < |conds| ensures conds[k] in conds {}
    DuplicateIff(conds, CheckedBefore(w, incs, i));
    forall e ensures e in CheckedBefore(w, incs, i) <==>
                     exists j: nat | j < i :: IncludeWellFormed(w, incs[j]) && incs[j].conditions == e
    {
      CheckedAre(w, incs, i, e);
    }
  }

  function IncludeTarget(k: NamespacedName, inc: Include): NamespacedName {
    NamespacedName(DefaultNamespace(inc.namespace, k), inc.name)
  }

  /** Include `i` of proxy `k` passes its checks and leads to `q`. */
  predicate Follows(w: World, k: NamespacedName, i: nat, q: NamespacedName) {
    && k in w.proxies && IncludePasses(w, w.proxies[k].includes, i)
    && q == IncludeTarget(k, w.proxies[k].includes[i])
    && Includable(w, q)
  }

  /** An include without a namespace stays in the namespace of its proxy. */
  lemma FollowsNamed(w: World, k: NamespacedName, i: nat, q: NamespacedName)
    requires Follows(w, k, i, q)
    ensures var inc := w.proxies[k].includes[i];
            && q.name == inc.name && q.namespace == (if inc.namespace != "" then inc.namespace else k.namespace)
            && q in w.proxies && w.proxies[q].virtualHost.None?
  {
  }

  ghost predicate Edge(w: World, k: NamespacedName, q: NamespacedName) {
    exists i :: Follows(w, k, i, q)
  }

  // ---------- TCP includes ----------

  function TcpInclude(t: TCPProxy): Option<Target> {
    if t.incl.None? then t.includesDeprecated else t.incl
  }

  /** The proxy that the TCP proxy of `k` is delegated to, if it is. */
  function TcpNext(w: World, k: NamespacedName): Option<NamespacedName> {
    if k !in w.proxies || w.proxies[k].tcp.None? then None
    else
      var t := w.proxies[k].tcp.value;
      if t.hasServices || TcpInclude(t).None? then None
      else
        var q := NamespacedName(DefaultNamespace(TcpInclude(t).value.namespace, k), TcpInclude(t).value.name);
        if Includable(w, q) then Some(q) else None
  }

  /** The current field for a TCP include goes before the deprecated one, services go before either, and an include
      without a namespace stays in the namespace of its proxy. */
  lemma TcpNextNamed(w: World, k: NamespacedName, q: NamespacedName)
    ensures TcpNext(w, k) == Some(q) <==>
            && k in w.proxies && w.proxies[k].tcp.Some? && !w.proxies[k].tcp.value.hasServices
            && q in w.proxies && w.proxies[q].virtualHost.None?
            && var t := w.proxies[k].tcp.value;
               (|| (t.incl.Some? && Named(t.incl.value, k, q))
                || (t.incl.None? && t.includesDeprecated.Some? && Named(t.includesDeprecated.value, k, q)))
  {
  }

  predicate Named(t: Target, k: NamespacedName, q: NamespacedName) {
    q.name == t.name && (if t.namespace == "" then q.namespace == k.namespace else q.namespace == t.namespace)
  }

  /** Following TCP includes may end at this proxy: it has no TCP proxy, or one with valid services. */
  predicate TcpTerminal(w: World, k: NamespacedName) {
    && k in w.proxies
    && (w.proxies[k].tcp.None?
        || (w.proxies[k].tcp.value.hasServices && TcpInclude(w.proxies[k].tcp.value).None? && w.checks.servicesOk(k)))
  }

  predicate TcpPath(w: World, p: seq<NamespacedName>) {
    p != [] && forall i | 0 < i < |p| :: TcpNext(w, p[i - 1]) == Some(p[i])
  }

  /** The TCP includes from `k` lead to a proxy that can serve. */
  ghost predicate TcpEnds(w: World, k: NamespacedName) {
    exists p :: TcpPath(w, p) && p[0] == k && TcpTerminal(w, p[|p| - 1])
  }

  ghost predicate TcpReaches(w: World, k: NamespacedName, q: NamespacedName) {
    exists p :: TcpPath(w, p) && |p| >= 2 && p[0] == k && p[|p| - 1] == q
  }

  // ---------- Reachability ----------

  ghost predicate RoutePath(w: World, p: seq<NamespacedName>) {
    p != [] && forall i | 0 < i < |p| :: Edge(w, p[i - 1], p[i])
  }

  /** `q` can be reached from `k` over one or more includes that pass their checks. */
  ghost predicate Reaches(w: World, k: NamespacedName, q: NamespacedName) {
    exists p :: RoutePath(w, p) && |p| >= 2 && p[0] == k && p[|p| - 1] == q
  }

  lemma ReachesByEdge(w: World, k: NamespacedName, q: NamespacedName)
    requires Edge(w, k, q)
    ensures Reaches(w, k, q)
  {
    assert RoutePath(w, [k, q]);
  }

  lemma ReachesFirst(w: World, k: NamespacedName, q: NamespacedName, n: NamespacedName)
    requires Edge(w, k, q) && Reaches(w, q, n)
    ensures Reaches(w, k, n)
  {
    var p :| RoutePath(w, p) && |p| >= 2 && p[0] == q && p[|p| - 1] == n;
    var p' := [k] + p;
    forall i | 0 < i < |p'| ensures Edge(w, p'[i - 1], p'[i]) {
      if i > 1 { assert p'[i - 1] == p[i - 2] && p'[i] == p[i - 1]; }
    }
    assert p'[|p'| - 1] == n;
  }

  /** A set that the edges from `k` enter and no edge leaves holds everything reached from `k`. */
  lemma {:induction false} ReachesClosed(w: World, p: seq<NamespacedName>, s: set<NamespacedName>)
    requires RoutePath(w, p) && |p| >= 2
    requires forall n, q | (n == p[0] || n in s) && Edge(w, n, q) :: q in s
    ensures p[|p| - 1] in s
  {
    if |p| == 2 {
      assert Edge(w, p[0], p[1]);
    } else {
      var init := p[..|p| - 1];
      assert forall i | 0 <= i < |init| :: init[i] == p[i];
      ReachesClosed(w, init, s);
      assert Edge(w, p[|p| - 2], p[|p| - 1]);
    }
  }

  lemma TcpReachesByStep(w: World, k: NamespacedName, q: NamespacedName)
    requires TcpNext(w, k) == Some(q)
    ensures TcpReaches(w, k, q)
  {
    assert TcpPath(w, [k, q]);
  }

  lemma TcpPathFirst(w: World, k: NamespacedName, p: seq<NamespacedName>)
    requires TcpPath(w, p) && TcpNext(w, k) == Some(p[0])
    ensures TcpPath(w, [k] + p) && ([k] + p)[|p|] == p[|p| - 1]
  {
    var p' := [k] + p;
    forall i | 0 < i < |p'| ensures TcpNext(w, p'[i - 1]) == Some(p'[i]) {
      if i > 1 { assert p'[i - 1] == p[i - 2] && p'[i] == p[i - 1]; }
    }
  }

  lemma TcpReachesFirst(w: World, k: NamespacedName, q: NamespacedName, n: NamespacedName)
    requires TcpNext(w, k) == Some(q) && TcpReaches(w, q, n)
    ensures TcpReaches(w, k, n)
  {
    var p :| TcpPath(w, p) && |p| >= 2 && p[0] == q && p[|p| - 1] == n;
    TcpPathFirst(w, k, p);
    assert |[k] + p| >= 2 && ([k] + p)[0] == k;
  }

  lemma {:induction false} TcpReachesClosed(w: World, p: seq<NamespacedName>, s: set<NamespacedName>)
    requires TcpPath(w, p) && |p| >= 2
    requires forall n | (n == p[0] || n in s) && TcpNext(w, n).Some? :: TcpNext(w, n).value in s
    ensures p[|p| - 1] in s
  {
    if |p| == 2 {
      assert TcpNext(w, p[0]) == Some(p[1]);
    } else {
      var init := p[..|p| - 1];
      assert forall i | 0 <= i < |init| :: init[i] == p[i];
      TcpReachesClosed(w, init, s);
      assert TcpNext(w, p[|p| - 2]) == Some(p[|p| - 1]);
    }
  }

  /** What is known of the end of the TCP includes one step on. */
  lemma TcpEndsStep(w: World, k: NamespacedName)
    ensures TcpEnds(w, k) <==>
            TcpTerminal(w, k) || (TcpNext(w, k).Some? && TcpEnds(w, TcpNext(w, k).value))
  {
    if TcpTerminal(w, k) {
      assert TcpPath(w, [k]);
      assert [k][0] == k;
    }
    if TcpNext(w, k).Some? && TcpEnds(w, TcpNext(w, k).value) {
      var p :| TcpPath(w, p) && p[0] == TcpNext(w, k).value && TcpTerminal(w, p[|p| - 1]);
      TcpPathFirst(w, k, p);
      assert ([k] + p)[0] == k;
    }
    if TcpEnds(w, k) {
      var p :| TcpPath(w, p) && p[0] == k && TcpTerminal(w, p[|p| - 1]);
      if |p| > 1 {
        var rest := p[1..];
        assert TcpNext(w, p[0]) == Some(p[1]);
        assert forall i | 0 < i < |rest| :: rest[i] == p[i + 1] && rest[i - 1] == p[i];
        assert TcpPath(w, rest) && rest[|rest| - 1] == p[|p| - 1];
      }
    }
  }

  /** TCP includes that run into a cycle end nowhere. */
  lemma {:induction false} TcpCycle(w: World, p: seq<NamespacedName>, s: set<NamespacedName>)
    requires TcpPath(w, p) && p[0] in s
    requires forall n | n in s :: TcpNext(w, n).Some? && TcpNext(w, n).value in s
    ensures p[|p| - 1] in s && !TcpTerminal(w, p[|p| - 1])
  {
    if |p| > 1 {
      var init := p[..|p| - 1];
      assert forall i | 0 <= i < |init| :: init[i] == p[i];
      TcpCycle(w, init, s);
      assert TcpNext(w, p[|p| - 2]) == Some(p[|p| - 1]);
    }
  }

  // ---------- Following TCP includes with the proxies on the way ----------

  ghost function Elements(visited: seq<NamespacedName>): set<NamespacedName> {
    set v | v in visited
  }

  lemma ElementsGrow(visited: seq<NamespacedName>, k: NamespacedName)
    ensures Elements(visited + [k]) == Elements(visited) + {k}
  {
  }

  /** The proxies on the way are those that TCP includes led through, one to the next and at last to `k`. */
  predicate TcpWay(w: World, visited: seq<NamespacedName>, k: NamespacedName) {
    && (forall i | 0 < i < |visited| :: TcpNext(w, visited[i - 1]) == Some(visited[i]))
    && (visited != [] ==> TcpNext(w, visited[|visited| - 1]) == Some(k))
  }

  /** A TCP include that leads back to a proxy on the way ends nowhere. */
  lemma TcpBack(w: World, visited: seq<NamespacedName>, k: NamespacedName)
    requires TcpWay(w, visited, k) && TcpNext(w, k).Some? && TcpNext(w, k).value in visited + [k]
    ensures !TcpEnds(w, k)
  {
    var s := Elements(visited + [k]);
    forall n | n in s ensures TcpNext(w, n).Some? && TcpNext(w, n).value in s {
      if n != k {
        var i :| 0 <= i < |visited| && visited[i] == n;
        assert i + 1 < |visited| ==> TcpNext(w, visited[i]) == Some(visited[i + 1]);
      }
    }
    forall p | TcpPath(w, p) && p[0] == k ensures !TcpTerminal(w, p[|p| - 1]) {
      TcpCycle(w, p, s);
    }
  }

  /** The proxies that the TCP includes of `k` lead to, visited after `visited`. */
  ghost function TcpErased(w: World, k: NamespacedName, visited: seq<NamespacedName>): set<NamespacedName>
    requires k in w.proxies && k !in visited
    decreases w.proxies.Keys - Elements(visited)
  {
    if TcpNext(w, k).None? then {}
    else
      var q := TcpNext(w, k).value;
      ElementsGrow(visited, k);
      if q in visited + [k] then {q} else {q} + TcpErased(w, q, visited + [k])
  }

  lemma {:induction false} TcpErasedIsReached(w: World, k: NamespacedName, visited: seq<NamespacedName>)
    requires k in w.proxies && k !in visited
    ensures forall n | n in TcpErased(w, k, visited) :: TcpReaches(w, k, n)
    decreases w.proxies.Keys - Elements(visited)
  {
    if TcpNext(w, k).Some? {
      var q := TcpNext(w, k).value;
      TcpReachesByStep(w, k, q);
      if q !in visited + [k] {
        ElementsGrow(visited, k);
        TcpErasedIsReached(w, q, visited + [k]);
        forall n | n in TcpErased(w, q, visited + [k]) ensures TcpReaches(w, k, n) { TcpReachesFirst(w, k, q, n); }
      }
    }
  }

  lemma {:induction false} TcpErasedIsClosed(w: World, k: NamespacedName, visited: seq<NamespacedName>)
    requires k in w.proxies && k !in visited
    ensures TcpNext(w, k).Some? ==> TcpNext(w, k).value in TcpErased(w, k, visited)
    ensures forall n | n in TcpErased(w, k, visited) && n !in visited && TcpNext(w, n).Some? ::
              TcpNext(w, n).value in TcpErased(w, k, visited)
    decreases w.proxies.Keys - Elements(visited)
  {
    if TcpNext(w, k).Some? {
      var q := TcpNext(w, k).value;
      if q !in visited + [k] {
        ElementsGrow(visited, k);
        TcpErasedIsClosed(w, q, visited + [k]);
      }
    }
  }

  /** Cutting cycles loses no TCP include either. */
  lemma TcpErasedIsReachable(w: World, k: NamespacedName)
    requires k in w.proxies
    ensures forall q :: q in TcpErased(w, k, []) <==> TcpReaches(w, k, q)
  {
    TcpErasedIsReached(w, k, []);
    TcpErasedIsClosed(w, k, []);
    forall q | TcpReaches(w, k, q) ensures q in TcpErased(w, k, []) {
      var p :| TcpPath(w, p) && |p| >= 2 && p[0] == k && p[|p| - 1] == q;
      TcpReachesClosed(w, p, TcpErased(w, k, []));
    }
  }
}
