/**
 The walk over the include graph.

 For every root HTTPProxy the processor follows TCP includes and route includes recursively, cutting
 cycles with the list of proxies on the way. Proxies that are not roots are first marked as orphaned;
 the walk erases the mark of every proxy it is led to.
 */
module ProxyProcessor {
  import opened Wrappers
  import opened Names
  import opened MatchConditions
  import opened Conditions
  import opened IncludeDuplicates
  import opened Delegation
  import opened RouteChains
  import PX = PrefixExpansion

  // ---------- Which proxies are orphaned ----------

  predicate IsRoot(w: World, k: NamespacedName) {
    k in w.proxies && w.proxies[k].virtualHost.Some?
  }

  /** The host name of a root, as it is compared with others. */
  function HostOf(w: World, k: NamespacedName): string
    requires IsRoot(w, k)
  {
    w.checks.toLower(w.proxies[k].virtualHost.value.fqdn)
  }

  /** No other root has the same host name. */
  ghost predicate SoleOwner(w: World, k: NamespacedName) {
    IsRoot(w, k) && forall q | IsRoot(w, q) && HostOf(w, q) == HostOf(w, k) :: q == k
  }

  /** The routes of the root are computed: it has no TCP proxy, or one whose includes end well. */
  ghost predicate ServesRoutes(w: World, r: NamespacedName) {
    && IsRoot(w, r) && w.checks.rootOk(r)
    && (w.proxies[r].tcp.Some? ==> w.proxies[r].virtualHost.value.tls && TcpEnds(w, r))
  }

  ghost predicate ServesTcp(w: World, r: NamespacedName) {
    IsRoot(w, r) && w.checks.rootOk(r) && w.proxies[r].tcp.Some? && w.proxies[r].virtualHost.value.tls
  }

  /** Root `r` delegates to `q`, directly or through other proxies. */
  ghost predicate Claims(w: World, r: NamespacedName, q: NamespacedName) {
    (ServesTcp(w, r) && TcpReaches(w, r, q)) || (ServesRoutes(w, r) && Reaches(w, r, q))
  }

  /** A root without a TCP proxy claims what its includes reach. With one it claims nothing unless it has TLS; then it
      claims what the TCP includes reach and, if these end well, what its includes reach. */
  lemma ClaimsIs(w: World, r: NamespacedName, q: NamespacedName)
    ensures Claims(w, r, q) <==>
            && r in w.proxies && w.proxies[r].virtualHost.Some? && w.checks.rootOk(r)
            && if w.proxies[r].tcp.None? then Reaches(w, r, q)
               else w.proxies[r].virtualHost.value.tls && (TcpReaches(w, r, q) || (TcpEnds(w, r) && Reaches(w, r, q)))
  {
  }

  /** An orphan is no root, and no root that has its host name for itself claims it. */
  lemma OrphanIff(w: World, q: NamespacedName)
    ensures Orphan(w, q) <==>
            && q in w.proxies && w.proxies[q].virtualHost.None?
            && forall r | r in w.proxies && w.proxies[r].virtualHost.Some? && Claims(w, r, q) ::
                 exists p | p in w.proxies && p != r && w.proxies[p].virtualHost.Some? ::
                   w.checks.toLower(w.proxies[p].virtualHost.value.fqdn) ==
                   w.checks.toLower(w.proxies[r].virtualHost.value.fqdn)
  {
    hide Claims;
    forall r | r in w.proxies && w.proxies[r].virtualHost.Some?
      ensures !SoleOwner(w, r) <==>
              exists p | p in w.proxies && p != r && w.proxies[p].virtualHost.Some? ::
                w.checks.toLower(w.proxies[p].virtualHost.value.fqdn) ==
                w.checks.toLower(w.proxies[r].virtualHost.value.fqdn)
    {
      if !SoleOwner(w, r) {
        var p :| IsRoot(w, p) && HostOf(w, p) == HostOf(w, r) && p != r;
      }
      if p :| p in w.proxies && p != r && w.proxies[p].virtualHost.Some?
              && w.checks.toLower(w.proxies[p].virtualHost.value.fqdn) ==
                 w.checks.toLower(w.proxies[r].virtualHost.value.fqdn) {
        assert IsRoot(w, p) && HostOf(w, p) == HostOf(w, r);
      }
    }
  }

  /** A proxy that is not a root and that no root with a host name of its own delegates to. */
  ghost predicate Orphan(w: World, q: NamespacedName) {
    q in w.proxies && !IsRoot(w, q) && forall r | SoleOwner(w, r) :: !Claims(w, r, q)
  }

  ghost function Erased(w: World, r: NamespacedName): set<NamespacedName>
    requires IsRoot(w, r)
  {
    (if ServesTcp(w, r) then TcpErased(w, r, []) else {}) + (if ServesRoutes(w, r) then ErasedFor(w, r, []) else {})
  }

  lemma ErasedIsClaimed(w: World, r: NamespacedName, q: NamespacedName)
    requires IsRoot(w, r)
    ensures q in Erased(w, r) <==> Claims(w, r, q)
  {
    ErasedIsReachable(w, r);
    TcpErasedIsReachable(w, r);
  }

  /** The marks after the given proxies have been processed in order. */
  ghost function MarksAfter(w: World, ps: seq<NamespacedName>): set<NamespacedName>
    requires forall p | p in ps :: p in w.proxies
  {
    if ps == [] then {}
    else
      var init, k := ps[..|ps| - 1], ps[|ps| - 1];
      if IsRoot(w, k) then MarksAfter(w, init) - Erased(w, k) else MarksAfter(w, init) + {k}
  }

  /** All proxies that are not roots come before those that are. */
  predicate RootsLast(w: World, ps: seq<NamespacedName>) {
    forall i, j | 0 <= i < j < |ps| && IsRoot(w, ps[i]) :: IsRoot(w, ps[j])
  }

  lemma {:induction false} MarksAre(w: World, ps: seq<NamespacedName>, q: NamespacedName)
    requires (forall p | p in ps :: p in w.proxies) && RootsLast(w, ps)
    ensures q in MarksAfter(w, ps) <==>
            q in ps && !IsRoot(w, q) && forall r | r in ps && IsRoot(w, r) :: !Claims(w, r, q)
  {
    if ps != [] {
      var init, k := ps[..|ps| - 1], ps[|ps| - 1];
      MarksAre(w, init, q);
      assert ps == init + [k];
      if IsRoot(w, k) {
        ErasedIsClaimed(w, k, q);
      } else {
        forall r | r in init ensures !IsRoot(w, r) {
          var i :| 0 <= i < |init| && init[i] == r;
          assert ps[i] == r;
        }
      }
    }
  }

  ghost predicate NoDuplicates(ps: seq<NamespacedName>) {
    forall i, j | 0 <= i < j < |ps| :: ps[i] != ps[j]
  }

  /** The roots of `done`, by host name. */
  ghost predicate ByHost(w: World, m: map<string, seq<NamespacedName>>, done: set<NamespacedName>) {
    && (forall k | k in done && IsRoot(w, k) :: HostOf(w, k) in m)
    && (forall f, k | f in m :: k in m[f] <==> k in done && IsRoot(w, k) && HostOf(w, k) == f)
    && (forall f | f in m :: m[f] != [] && NoDuplicates(m[f]))
  }

  lemma ByHostStep(w: World, m: map<string, seq<NamespacedName>>, done: set<NamespacedName>, k: NamespacedName)
    requires ByHost(w, m, done) && k !in done && IsRoot(w, k)
    ensures var f := HostOf(w, k);
            ByHost(w, m[f := (if f in m then m[f] else []) + [k]], done + {k})
  {
  }

  /** A list of roots with one host name holds a single root just when that root is the sole owner. */
  lemma LoneIsSole(w: World, m: map<string, seq<NamespacedName>>, f: string)
    requires ByHost(w, m, w.proxies.Keys) && f in m
    ensures |m[f]| == 1 ==> SoleOwner(w, m[f][0])
    ensures |m[f]| != 1 ==> forall k | k in m[f] :: !SoleOwner(w, k)
  {
    if |m[f]| == 1 {
      assert m[f][0] in m[f];
      forall q | IsRoot(w, q) && HostOf(w, q) == f ensures q == m[f][0] { assert q in m[f]; }
    } else {
      forall k | k in m[f] ensures !SoleOwner(w, k) {
        var q := if k == m[f][0] then m[f][1] else m[f][0];
        assert q in m[f] && q != k;
        assert IsRoot(w, q) && HostOf(w, q) == f && HostOf(w, k) == f;
      }
    }
  }

  class HTTPProxyProcessor {
    const w: World
    var orphaned: set<NamespacedName>

    constructor (w: World)
      ensures this.w == w && orphaned == {}
    {
      this.w := w;
      orphaned := {};
    }

    /** The replacement for the routing prefix, or else the default one. */
    method ChooseRewrite(replacements: seq<ReplacePrefix>, routingPrefix: string) returns (rewrite: Option<string>)
      ensures rewrite == ChosenRewrite(replacements, routingPrefix)
    {
      rewrite := None;
      if |routingPrefix| > 0 {
        rewrite := FindReplacement(replacements, routingPrefix);
      }
      if rewrite.None? {
        rewrite := FindReplacement(replacements, "");
      }
    }

    method FindReplacement(replacements: seq<ReplacePrefix>, prefix: string) returns (found: Option<string>)
      ensures found == FirstWith(replacements, prefix)
    {
      for i := 0 to |replacements|
        invariant FirstWith(replacements[..i], prefix).None?
      {
        FirstWithStep(replacements, prefix, i);
        if replacements[i].prefix == prefix {
          return Some(replacements[i].replacement);
        }
      }
      assert replacements[..|replacements|] == replacements;
      return None;
    }

    /** Entry `j` of `Spec.Routes`, if its checks pass. */
    method BuildRoute(root: NamespacedName, k: NamespacedName, conditions: seq<MatchCondition>, j: nat)
      returns (route: Option<DagRoute>)
      requires k in w.proxies && j < |w.proxies[k].routes|
      ensures route == if RouteAccepted(w, root, k, conditions, j)
                       then Some(BuiltRoute(w, root, k, conditions, j)) else None
    {
      var spec := w.proxies[k].routes[j];
      var pathsValid := PathMatchConditionsValid(spec.conditions, w.checks.regexOk);
      if !pathsValid {
        return None;
      }
      var routeConditions := conditions + spec.conditions;
      if !w.checks.conditionsOk(routeConditions) || !w.checks.routeOk(root, k, j) {
        return None;
      }
      var path := MergePathMatchConditions(routeConditions);
      var headers := MergeHeaderMatchConditions(routeConditions);
      var queries := MergeQueryParamMatchConditions(routeConditions);
      var rewrite := None;
      if |spec.replacements| > 0 {
        if !path.Prefix? || !ReplacementsValid(spec.replacements) {
          return None;
        }
        rewrite := ChooseRewrite(spec.replacements, path.prefix);
      }
      return Some(PX.Route(path, rewrite, FromRoute(k, j, headers + WildcardHeaders(w, root), queries)));
    }

    /** The loop over `Spec.Routes`: all routes of the proxy, or nothing if one is not accepted. */
    method BuildRoutes(root: NamespacedName, k: NamespacedName, conditions: seq<MatchCondition>)
      returns (ok: bool, routes: seq<DagRoute>)
      requires k in w.proxies
      ensures ok <==> AllAccepted(w, root, k, conditions)
      ensures ok ==> routes == OwnRoutes(w, root, k, conditions)
    {
      hide RouteChains.RouteAccepted, RouteChains.BuiltRoute;
      routes := [];
      for j := 0 to |w.proxies[k].routes|
        invariant |routes| == j
        invariant forall i | 0 <= i < j :: RouteAccepted(w, root, k, conditions, i)
        invariant forall i | 0 <= i < j :: routes[i] == BuiltRoute(w, root, k, conditions, i)
      {
        var route := BuildRoute(root, k, conditions, j);
        if route.None? {
          return false, [];
        }
        routes := routes + [route.value];
      }
      return true, routes;
    }

    method AddStatusBadGatewayRoute(routes: seq<DagRoute>, conds: seq<MatchCondition>, k: NamespacedName)
      returns (out: seq<DagRoute>)
      ensures conds == [] ==> out == routes
      ensures conds != [] ==>
                out == routes + [PX.Route(MergedPath(conds), None,
                                          BadGateway(k, MergedHeaders(conds), MergedQueries(conds)))]
    {
      out := routes;
      if |conds| > 0 {
        var path := MergePathMatchConditions(conds);
        var headers := MergeHeaderMatchConditions(conds);
        var queries := MergeQueryParamMatchConditions(conds);
        out := out + [PX.Route(path, None, BadGateway(k, headers, queries))];
      }
    }

    /** The checks of include `i` that come before its target is looked up. */
    method CheckInclude(k: NamespacedName, i: nat, seen: Seen) returns (passes: bool, seen': Seen)
      requires k in w.proxies && i < |w.proxies[k].includes|
      requires Records(seen, CheckedBefore(w, w.proxies[k].includes, i))
      ensures passes <==> IncludePasses(w, w.proxies[k].includes, i)
      ensures Records(seen', CheckedBefore(w, w.proxies[k].includes, i + 1))
    {
      seen' := seen;
      var inc := w.proxies[k].includes[i];
      var valid := IncludeMatchConditionsValid(inc.conditions);
      if !valid {
        return false, seen';
      }
      valid := PathMatchConditionsValid(inc.conditions, w.checks.regexOk);
      if !valid || !w.checks.conditionsOk(inc.conditions) {
        return false, seen';
      }
      var duplicate;
      ghost var earlier := CheckedBefore(w, w.proxies[k].includes, i);
      duplicate, seen' := IncludeMatchConditionsIdentical(inc.conditions, seen, earlier);
      IncludeMergesToPrefix(inc.conditions);
      passes := !duplicate;
    }

    /** The body of the loop over `Spec.Includes`, for an include that passes its checks. */
    method FollowInclude(root: NamespacedName, k: NamespacedName, i: nat, conditions: seq<MatchCondition>,
                         visited: seq<NamespacedName>)
      returns (routes: seq<DagRoute>)
      requires k in w.proxies && IncludePasses(w, w.proxies[k].includes, i)
      modifies this`orphaned
      decreases w.proxies.Keys - Elements(visited), 1
      ensures multiset(routes) == multiset(IncludeRoutes(w, root, k, conditions, visited, i))
      ensures orphaned == old(orphaned) - ErasedInclude(w, k, visited, i)
    {
      hide RouteChains.RoutesFor, RouteChains.ErasedFor, RouteChains.IncludeRoutes, RouteChains.ErasedInclude;
      hide Conditions.MergedPath, Conditions.MergedHeaders, Conditions.MergedQueries;
      IncludeCases(w, root, k, conditions, visited, i);
      var inc := w.proxies[k].includes[i];
      var q := NamespacedName(if inc.namespace == "" then k.namespace else inc.namespace, inc.name);
      if q !in w.proxies || w.proxies[q].virtualHost.Some? {
        routes := AddStatusBadGatewayRoute([], inc.conditions, k);
        return;
      }
      routes := ComputeRoutes(root, q, conditions + inc.conditions, visited);
      orphaned := orphaned - {q};
    }

    /** The body of the loop over `Spec.Includes`, for include `i` of proxy `k`. */
    method ProcessInclude(root: NamespacedName, k: NamespacedName, i: nat, conditions: seq<MatchCondition>,
                          visited: seq<NamespacedName>, seen: Seen)
      returns (routes: seq<DagRoute>, seen': Seen)
      requires k in w.proxies && i < |w.proxies[k].includes|
      requires Records(seen, CheckedBefore(w, w.proxies[k].includes, i))
      modifies this`orphaned
      decreases w.proxies.Keys - Elements(visited), 2
      ensures Records(seen', CheckedBefore(w, w.proxies[k].includes, i + 1))
      ensures multiset(routes) == multiset(IncludeRoutes(w, root, k, conditions, visited, i))
      ensures orphaned == old(orphaned) - ErasedInclude(w, k, visited, i)
    {
      hide RouteChains.IncludeRoutes, RouteChains.ErasedInclude, IncludeDuplicates.Records;
      var passes;
      passes, seen' := CheckInclude(k, i, seen);
      if passes {
        routes := FollowInclude(root, k, i, conditions, visited);
      } else {
        routes := [];
        NothingIncluded(w, root, k, conditions, visited, i);
      }
    }

    /** The loop over `Spec.Includes` of proxy `k`, which is the last of the visited ones. */
    method ProcessIncludes(root: NamespacedName, k: NamespacedName, conditions: seq<MatchCondition>,
                           visited: seq<NamespacedName>)
      returns (routes: seq<DagRoute>)
      requires k in w.proxies
      modifies this`orphaned
      decreases w.proxies.Keys - Elements(visited), 3
      ensures multiset(routes) == multiset(Concat(IncludedRoutes(w, root, k, conditions, visited)))
      ensures orphaned == old(orphaned) - ErasedIncludes(w, k, visited, |w.proxies[k].includes|)
    {
      hide RouteChains.IncludeRoutes, RouteChains.ErasedInclude, IncludeDuplicates.Records, RouteChains.Concat;
      ConcatNone();
      routes := [];
      var seen: Seen := map[];
      EmptyRecords();
      ghost var parts := IncludedRoutes(w, root, k, conditions, visited);
      for i := 0 to |w.proxies[k].includes|
        invariant Records(seen, CheckedBefore(w, w.proxies[k].includes, i))
        invariant multiset(routes) == multiset(Concat(parts[..i]))
        invariant orphaned == old(orphaned) - ErasedIncludes(w, k, visited, i)
      {
        var more;
        more, seen := ProcessInclude(root, k, i, conditions, visited, seen);
        ConcatStep(parts, i, routes, more);
        routes := routes + more;
      }
      assert parts[..|parts|] == parts;
    }

    /** The routes of proxy `k` under the given conditions, visited after `visited`. */
    method ComputeRoutes(root: NamespacedName, k: NamespacedName, conditions: seq<MatchCondition>,
                         visited: seq<NamespacedName>)
      returns (routes: seq<DagRoute>)
      requires k in w.proxies
      modifies this`orphaned
      decreases w.proxies.Keys - Elements(visited), 0
      ensures multiset(routes) == multiset(RoutesFor(w, root, k, conditions, visited))
      ensures orphaned == old(orphaned) - ErasedFor(w, k, visited)
    {
      if k in visited {
        return [];
      }
      ElementsGrow(visited, k);
      routes := ProcessIncludes(root, k, conditions, visited + [k]);
      var ok, own := BuildRoutes(root, k, conditions);
      if !ok {
        return [];
      }
      PX.ExpandedPermuted(routes + own, Concat(IncludedRoutes(w, root, k, conditions, visited + [k])) + own);
      routes := PX.ExpandPrefixMatches(routes + own);
    }

    /** Follows the TCP includes from proxy `k`: true if they end at a proxy that can serve. */
    method ProcessTCPProxy(k: NamespacedName, visited: seq<NamespacedName>) returns (ok: bool)
      requires k in w.proxies && k !in visited && TcpWay(w, visited, k)
      modifies this`orphaned
      decreases w.proxies.Keys - Elements(visited)
      ensures ok <==> TcpEnds(w, k)
      ensures orphaned == old(orphaned) - TcpErased(w, k, visited)
    {
      TcpEndsStep(w, k);
      hide Delegation.TcpEnds;
      if w.proxies[k].tcp.None? {
        return true;
      }
      var tcp := w.proxies[k].tcp.value;
      var incl := tcp.incl;
      if tcp.incl.None? {
        incl := tcp.includesDeprecated;
      }
      if tcp.hasServices && incl.Some? {
        return false;
      }
      if tcp.hasServices {
        return w.checks.servicesOk(k);
      }
      if incl.None? {
        return false;
      }
      var q := NamespacedName(if incl.value.namespace == "" then k.namespace else incl.value.namespace, incl.value.name);
      if q !in w.proxies || w.proxies[q].virtualHost.Some? {
        return false;
      }
      orphaned := orphaned - {q};
      if q in visited + [k] {
        TcpBack(w, visited, k);
        return false;
      }
      ElementsGrow(visited, k);
      ok := ProcessTCPProxy(q, visited + [k]);
    }

    /** Marks a proxy that is not a root as orphaned, and computes the routes of one that is. */
    method ComputeHTTPProxy(k: NamespacedName) returns (routes: Option<seq<DagRoute>>)
      requires k in w.proxies
      modifies this`orphaned
      ensures IsRoot(w, k) ==> orphaned == old(orphaned) - Erased(w, k)
      ensures !IsRoot(w, k) ==> orphaned == old(orphaned) + {k}
      ensures routes.Some? <==> ServesRoutes(w, k)
      ensures routes.Some? ==> multiset(routes.value) == multiset(RoutesFor(w, k, k, [], []))
    {
      hide RouteChains.RoutesFor, RouteChains.ErasedFor, Delegation.TcpErased;
      if w.proxies[k].virtualHost.None? {
        orphaned := orphaned + {k};
        return None;
      }
      if !w.checks.rootOk(k) {
        return None;
      }
      if w.proxies[k].tcp.Some? {
        if !w.proxies[k].virtualHost.value.tls {
          return None;
        }
        var ok := ProcessTCPProxy(k, []);
        if !ok {
          return None;
        }
      }
      var rs := ComputeRoutes(k, k, [], []);
      return Some(rs);
    }

    /** The proxies of the world by kind: those that are not roots, and the roots by host name. */
    method GroupByHost() returns (others: seq<NamespacedName>, byHost: map<string, seq<NamespacedName>>)
      ensures NoDuplicates(others) && forall k :: k in others <==> k in w.proxies && !IsRoot(w, k)
      ensures ByHost(w, byHost, w.proxies.Keys)
    {
      others, byHost := [], map[];
      var remaining := w.proxies.Keys;
      while remaining != {}
        invariant remaining <= w.proxies.Keys
        invariant NoDuplicates(others)
        invariant forall k :: k in others <==> k in w.proxies.Keys - remaining && !IsRoot(w, k)
        invariant ByHost(w, byHost, w.proxies.Keys - remaining)
      {
        var k :| k in remaining;
        ghost var done := w.proxies.Keys - remaining;
        if w.proxies[k].virtualHost.None? {
          others := others + [k];
          assert ByHost(w, byHost, done + {k});
        } else {
          ByHostStep(w, byHost, done, k);
          var f := w.checks.toLower(w.proxies[k].virtualHost.value.fqdn);
          byHost := byHost[f := (if f in byHost then byHost[f] else []) + [k]];
        }
        remaining := remaining - {k};
        assert w.proxies.Keys - remaining == done + {k};
      }
    }

    /** The proxies to process: those that are not roots, then the roots that share their host name with none. */
    method ValidHTTPProxies() returns (valid: seq<NamespacedName>)
      ensures forall k :: k in valid <==> k in w.proxies && (!IsRoot(w, k) || SoleOwner(w, k))
      ensures RootsLast(w, valid) && NoDuplicates(valid)
    {
      var byHost;
      valid, byHost := GroupByHost();
      var hosts := byHost.Keys;
      while hosts != {}
        invariant hosts <= byHost.Keys
        invariant RootsLast(w, valid) && NoDuplicates(valid)
        invariant forall k :: k in valid <==>
                    k in w.proxies && (!IsRoot(w, k) || (SoleOwner(w, k) && HostOf(w, k) !in hosts))
      {
        var f :| f in hosts;
        LoneIsSole(w, byHost, f);
        if |byHost[f]| == 1 {
          assert byHost[f][0] in byHost[f];
          valid := valid + [byHost[f][0]];
        }
        hosts := hosts - {f};
      }
    }

    /** A run marks as orphaned exactly the proxies that are not roots and that no root delegates to, whatever
        order the maps are iterated in; the roots that serve routes get the routes of their chains. */
    method Run() returns (served: map<NamespacedName, seq<DagRoute>>)
      modifies this`orphaned
      ensures forall q :: q in orphaned <==> Orphan(w, q)
      ensures forall r :: r in served <==> SoleOwner(w, r) && ServesRoutes(w, r)
      ensures forall r | r in served :: r in w.proxies && multiset(served[r]) == multiset(RoutesFor(w, r, r, [], []))
    {
      orphaned, served := {}, map[];
      var ps := ValidHTTPProxies();
      for i := 0 to |ps|
        invariant forall p | p in ps[..i] :: p in w.proxies
        invariant orphaned == MarksAfter(w, ps[..i])
        invariant forall r :: r in served <==> r in ps[..i] && ServesRoutes(w, r)
        invariant forall r | r in served :: r in w.proxies && multiset(served[r]) == multiset(RoutesFor(w, r, r, [], []))
      {
        assert ps[..i + 1][..i] == ps[..i];
        var routes := ComputeHTTPProxy(ps[i]);
        if routes.Some? {
          served := served[ps[i] := routes.value];
        }
      }
      assert ps[..|ps|] == ps;
      forall q ensures q in orphaned <==> Orphan(w, q) {
        MarksAre(w, ps, q);
      }
    }
  }
}
