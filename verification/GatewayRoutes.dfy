/**
 Adding the rules of Gateway API routes to the virtual hosts of the DAG: the order of the routes, and the
 conflicts between their rules.
 */
module GatewayRoutes {
  import opened MatchKeys
  import opened Names
  import Sorting
  import StableSort
  import Text

  /** The kind of object that a route records as its source, if source metadata is set on routes at all. */
  datatype Kind = Unrecorded | Ingress | HTTPProxy | HTTPRoute | GRPCRoute

  /** The routes of one rule on one listener: one per match, each on every host. */
  datatype Rule = Rule(kind: Kind, listener: string, secure: bool, hosts: set<string>, matches: seq<Match>)

  // ---------- The order of the routes ----------

  datatype RouteObject = RouteObject(namespace: string, name: string, created: int, rules: seq<Rule>)

  function KeyOf(r: RouteObject): NamespacedName {
    NamespacedName(if r.namespace == "" then "default" else r.namespace, r.name)
  }

  function FullName(r: RouteObject): string {
    KeyOf(r).namespace + "/" + KeyOf(r).name
  }

  /** Older routes first; routes of one age by namespace and name. */
  predicate Before(a: RouteObject, b: RouteObject) {
    if a.created == b.created then Text.Less(FullName(a), FullName(b)) else a.created < b.created
  }

  predicate NotAfter(a: RouteObject, b: RouteObject) {
    !Before(b, a)
  }

  lemma BeforeIsStrictWeak()
    ensures Sorting.StrictWeak(Before) && StableSort.Agrees(Before, NotAfter)
  {
    forall a, b | Before(a, b) ensures !Before(b, a) {
      Text.LessIsTotal(FullName(a), FullName(b));
    }
    forall a, b, c | !Before(b, a) && !Before(c, b) ensures !Before(c, a) {
      Text.CompareFlip(FullName(a), FullName(b));
      Text.CompareFlip(FullName(b), FullName(c));
      Text.CompareFlip(FullName(a), FullName(c));
      if a.created == b.created == c.created {
        Text.CompareTransitive(FullName(a), FullName(b), FullName(c));
      }
    }
  }

  /** The name by which routes of one age are ordered. */
  function Spelled(r: RouteObject): string {
    (if r.namespace == "" then "default" else r.namespace) + "/" + r.name
  }

  /** In a sorted list older routes come first, and routes of one age by namespace and name. */
  lemma OldestFirst(routes: seq<RouteObject>, i: nat, j: nat)
    requires Sorting.Sorted(Before, routes) && i < j < |routes|
    ensures routes[i].created <= routes[j].created
    ensures routes[i].created == routes[j].created ==> !Text.Less(Spelled(routes[j]), Spelled(routes[i]))
  {
  }

  /** The older of two routes, or the one whose name is first, has its place first. */
  lemma OlderIsEarlier(routes: seq<RouteObject>, m: nat, n: nat)
    requires Sorting.Sorted(Before, routes) && m < |routes| && n < |routes|
    requires || routes[m].created < routes[n].created
             || (routes[m].created == routes[n].created && Text.Less(Spelled(routes[m]), Spelled(routes[n])))
    ensures m < n
  {
    if n < m { OldestFirst(routes, n, m); }
    Text.LessIsTotal(Spelled(routes[m]), Spelled(routes[n]));
  }

  /** The map is keyed by name, and no namespace holds a slash, as Kubernetes has it. */
  predicate WellKeyed(m: map<NamespacedName, RouteObject>) {
    forall k | k in m :: KeyOf(m[k]) == k && '/' !in k.namespace
  }

  lemma {:induction false} FullNameInjective(a: NamespacedName, b: NamespacedName)
    requires '/' !in a.namespace && '/' !in b.namespace
    requires a.namespace + "/" + a.name == b.namespace + "/" + b.name
    ensures a == b
  {
    var s := a.namespace + "/" + a.name;
    var m, n := |a.namespace|, |b.namespace|;
    assert s[m] == '/' && s[n] == '/';
    assert s[..m] == a.namespace && s[..n] == b.namespace;
    assert m == n;
    assert s[m + 1..] == a.name && s[n + 1..] == b.name;
  }

  /** Any two sorted lists of the routes are one and the same, however the map is iterated. */
  lemma OrderIsUnique(m: map<NamespacedName, RouteObject>, a: seq<RouteObject>, b: seq<RouteObject>)
    requires WellKeyed(m) && Sorting.Sorted(Before, a) && Sorting.Sorted(Before, b)
    requires multiset(a) == multiset(m.Values) == multiset(b)
    ensures a == b
  {
    forall x, y | x in a && y in a && x != y ensures Before(x, y) || Before(y, x) {
      assert x in multiset(a) && y in multiset(a);
      var j :| j in m && m[j] == x;
      var k :| k in m && m[k] == y;
      if FullName(x) == FullName(y) {
        FullNameInjective(j, k);
      }
      Text.LessIsTotal(FullName(x), FullName(y));
    }
    Sorting.SortedIsUnique(Before, a, b);
  }

  /** The routes of the map in order. */
  method SortRoutes(m: map<NamespacedName, RouteObject>) returns (routes: seq<RouteObject>)
    requires WellKeyed(m)
    ensures Sorting.Sorted(Before, routes) && multiset(routes) == multiset(m.Values)
  {
    routes := [];
    var remaining := m.Keys;
    ghost var taken: set<RouteObject> := {};
    while remaining != {}
      invariant remaining <= m.Keys
      invariant multiset(routes) == multiset(taken)
      invariant forall r :: r in taken <==> exists k | k in m.Keys - remaining :: m[k] == r
    {
      var k :| k in remaining;
      assert m[k] !in taken;
      routes := routes + [m[k]];
      taken := taken + {m[k]};
      remaining := remaining - {k};
    }
    assert taken == m.Values;
    BeforeIsStrictWeak();
    routes := StableSort.Stable(Before, NotAfter, routes);
  }

  // ---------- Slots ----------

  /** A place for one route: a match on a host of a listener. */
  datatype Slot = Slot(listener: string, secure: bool, host: string, key: string)

  /** What is in a slot: the route of an earlier processor, or the one that the rule with that number put there. */
  datatype Held = Earlier(kind: Kind) | ByRule(kind: Kind, owner: nat)

  type Slots = map<Slot, Held>

  function SlotFor(r: Rule, host: string, m: Match): Slot {
    Slot(r.listener, r.secure, host, Key(m))
  }

  ghost function SlotsOf(r: Rule): set<Slot> {
    set h, m | h in r.hosts && m in r.matches :: SlotFor(r, h, m)
  }

  predicate TakenBy(slots: Slots, s: Slot, kind: Kind) {
    s in slots && slots[s].kind == kind
  }

  /** A route of the same kind is in a slot that the rule needs. */
  ghost predicate Conflicts(slots: Slots, r: Rule) {
    exists s | s in SlotsOf(r) :: TakenBy(slots, s, r.kind)
  }

  ghost function Added(slots: Slots, r: Rule, n: nat): Slots {
    slots + map s | s in SlotsOf(r) :: ByRule(r.kind, n)
  }

  ghost function After(slots: Slots, r: Rule, n: nat): Slots {
    if Conflicts(slots, r) then slots else Added(slots, r, n)
  }

  class VirtualHosts {
    var routes: Slots

    constructor (routes: Slots)
      ensures this.routes == routes
    {
      this.routes := routes;
    }

    method HasConflictRoute(r: Rule) returns (conflict: bool)
      ensures conflict <==> Conflicts(routes, r)
    {
      hide MatchKeys.Key;
      var remaining := r.hosts;
      while remaining != {}
        invariant remaining <= r.hosts
        invariant forall h, m | h in r.hosts - remaining && m in r.matches :: !TakenBy(routes, SlotFor(r, h, m), r.kind)
      {
        var h :| h in remaining;
        for i := 0 to |r.matches|
          invariant forall j | 0 <= j < i :: !TakenBy(routes, SlotFor(r, h, r.matches[j]), r.kind)
        {
          var key := ConditionsToString(r.matches[i]);
          var s := Slot(r.listener, r.secure, h, key);
          if TakenBy(routes, s, r.kind) {
            assert s == SlotFor(r, h, r.matches[i]) && s in SlotsOf(r);
            return true;
          }
        }
        remaining := remaining - {h};
      }
      return false;
    }

    /** Adds the routes of a rule to one host. */
    method AddToHost(r: Rule, h: string, n: nat)
      modifies this
      ensures routes == Added(old(routes), r.(hosts := {h}), n)
    {
      hide Added, MatchKeys.Key;
      AddedNone(routes, r.(matches := []), n);
      for i := 0 to |r.matches|
        invariant routes == Added(old(routes), r.(hosts := {h}, matches := r.matches[..i]), n)
      {
        AddedMatch(old(routes), r, h, i, n);
        var key := ConditionsToString(r.matches[i]);
        routes := routes[Slot(r.listener, r.secure, h, key) := ByRule(r.kind, n)];
      }
      assert r.matches[..|r.matches|] == r.matches;
    }

    /** Adds all the routes of rule number `n`, or none if one of them conflicts. */
    method AddRule(r: Rule, n: nat) returns (added: bool)
      modifies this
      ensures added <==> !Conflicts(old(routes), r)
      ensures routes == After(old(routes), r, n)
    {
      hide Conflicts, Added;
      var conflict := HasConflictRoute(r);
      if conflict {
        return false;
      }
      AddedNone(routes, r, n);
      var remaining := r.hosts;
      while remaining != {}
        invariant remaining <= r.hosts
        invariant routes == Added(old(routes), r.(hosts := r.hosts - remaining), n)
      {
        var h :| h in remaining;
        AddedJoin(old(routes), r, r.hosts - remaining, h, n);
        AddToHost(r, h, n);
        assert r.hosts - (remaining - {h}) == r.hosts - remaining + {h};
        remaining := remaining - {h};
      }
      assert r.(hosts := r.hosts - {}) == r;
      return true;
    }

    /** Adds the rules in order to the routes that are there already. */
    method AddRules(rules: seq<Rule>) returns (added: seq<bool>)
      modifies this
      ensures routes == SlotsAfter(old(routes), rules)
      ensures |added| == |rules| && forall i | 0 <= i < |rules| :: added[i] <==> Accepted(old(routes), rules, i)
    {
      hide After, Conflicts;
      added := [];
      for n := 0 to |rules|
        invariant routes == SlotsAfter(old(routes), rules[..n])
        invariant |added| == n && forall i | 0 <= i < n :: added[i] <==> Accepted(old(routes), rules, i)
      {
        assert rules[..n + 1][..n] == rules[..n];
        var ok := AddRule(rules[n], n);
        added := added + [ok];
      }
      assert rules[..|rules|] == rules;
    }

    /** Processes all HTTPRoutes in order and then all GRPCRoutes in order, on top of the routes that are there
        already; the outcome does not depend on how the maps are iterated. */
    method ProcessRoutes(https: map<NamespacedName, RouteObject>, grpcs: map<NamespacedName, RouteObject>,
                         ghost recorded: bool)
      returns (added: seq<bool>)
      requires WellKeyed(https) && WellKeyed(grpcs)
      requires RulesOf(https, RecordedKind(HTTPRoute, recorded)) && RulesOf(grpcs, RecordedKind(GRPCRoute, recorded))
      modifies this
      ensures forall a, b | IsOrder(https, a) && IsOrder(grpcs, b) ::
                Outcome(old(routes), RulesIn(a) + RulesIn(b), recorded, added, routes)
    {
      var sortedHttps := SortRoutes(https);
      var sortedGrpcs := SortRoutes(grpcs);
      var rules := FlattenRules(sortedHttps);
      var more := FlattenRules(sortedGrpcs);
      added := AddRules(rules + more);
      forall a, b | IsOrder(https, a) && IsOrder(grpcs, b)
        ensures Outcome(old(routes), RulesIn(a) + RulesIn(b), recorded, added, routes)
      {
        OrderIsUnique(https, a, sortedHttps);
        OrderIsUnique(grpcs, b, sortedGrpcs);
        OrderKeepsKind(https, a, RecordedKind(HTTPRoute, recorded));
        OrderKeepsKind(grpcs, b, RecordedKind(GRPCRoute, recorded));
      }
    }
  }

  /** Without source metadata the routes of all objects have the same empty kind. */
  ghost function RecordedKind(kind: Kind, recorded: bool): Kind {
    if recorded then kind else Unrecorded
  }

  /** The rules come HTTPRoutes first, or with no kind at all; those that were added are the accepted ones, and
      the slots are theirs. */
  ghost predicate Outcome(start: Slots, rules: seq<Rule>, recorded: bool, added: seq<bool>, end: Slots) {
    && (if recorded then HTTPFirst(rules) else AllOfKind(rules, Unrecorded)) && end == SlotsAfter(start, rules)
    && |added| == |rules| && forall i | 0 <= i < |rules| :: added[i] <==> Accepted(start, rules, i)
  }

  /** The routes of the map, sorted. */
  ghost predicate IsOrder(m: map<NamespacedName, RouteObject>, routes: seq<RouteObject>) {
    Sorting.Sorted(Before, routes) && multiset(routes) == multiset(m.Values)
  }

  predicate AllOfKind(rules: seq<Rule>, kind: Kind) {
    forall i | 0 <= i < |rules| :: rules[i].kind == kind
  }

  /** The routes of the map have rules of one kind. */
  predicate RulesOf(m: map<NamespacedName, RouteObject>, kind: Kind) {
    forall k | k in m :: AllOfKind(m[k].rules, kind)
  }

  function RulesIn(routes: seq<RouteObject>): seq<Rule> {
    if routes == [] then [] else RulesIn(routes[..|routes| - 1]) + routes[|routes| - 1].rules
  }

  lemma {:induction false} RulesInKind(routes: seq<RouteObject>, kind: Kind)
    requires forall i | 0 <= i < |routes| :: AllOfKind(routes[i].rules, kind)
    ensures AllOfKind(RulesIn(routes), kind)
  {
    if routes != [] {
      RulesInKind(routes[..|routes| - 1], kind);
    }
  }

  lemma OrderKeepsKind(m: map<NamespacedName, RouteObject>, routes: seq<RouteObject>, kind: Kind)
    requires RulesOf(m, kind) && IsOrder(m, routes)
    ensures AllOfKind(RulesIn(routes), kind)
  {
    forall i | 0 <= i < |routes| ensures AllOfKind(routes[i].rules, kind) {
      assert routes[i] in multiset(routes);
      var k :| k in m && m[k] == routes[i];
    }
    RulesInKind(routes, kind);
  }

  lemma KindsInOrder(https: map<NamespacedName, RouteObject>, grpcs: map<NamespacedName, RouteObject>,
                     a: seq<RouteObject>, b: seq<RouteObject>)
    requires RulesOf(https, HTTPRoute) && RulesOf(grpcs, GRPCRoute) && IsOrder(https, a) && IsOrder(grpcs, b)
    ensures AllOfKind(RulesIn(a), HTTPRoute) && AllOfKind(RulesIn(b), GRPCRoute) && HTTPFirst(RulesIn(a) + RulesIn(b))
  {
    OrderKeepsKind(https, a, HTTPRoute);
    OrderKeepsKind(grpcs, b, GRPCRoute);
  }

  method FlattenRules(routes: seq<RouteObject>) returns (rules: seq<Rule>)
    ensures rules == RulesIn(routes)
  {
    rules := [];
    for i := 0 to |routes|
      invariant rules == RulesIn(routes[..i])
    {
      RulesStep(routes, i);
      rules := rules + routes[i].rules;
    }
    assert routes[..|routes|] == routes;
  }

  lemma {:induction false} RulesStep(routes: seq<RouteObject>, i: nat)
    requires i < |routes|
    ensures RulesIn(routes[..i + 1]) == RulesIn(routes[..i]) + routes[i].rules
  {
    assert routes[..i + 1][..i] == routes[..i];
  }

  lemma AddedNone(slots: Slots, r: Rule, n: nat)
    ensures Added(slots, r.(hosts := {}), n) == slots && r.hosts - r.hosts == {}
    ensures r.matches == [] ==> forall h :: Added(slots, r.(hosts := {h}), n) == slots
  {
  }

  lemma AddedMatch(slots: Slots, r: Rule, h: string, i: nat, n: nat)
    requires i < |r.matches|
    ensures Added(slots, r.(hosts := {h}, matches := r.matches[..i + 1]), n) ==
            Added(slots, r.(hosts := {h}, matches := r.matches[..i]), n)
            [SlotFor(r, h, r.matches[i]) := ByRule(r.kind, n)]
  {
    hide SlotsOf, SlotFor;
    SlotsMatch(r, h, i);
  }

  lemma SlotsMatch(r: Rule, h: string, i: nat)
    requires i < |r.matches|
    ensures SlotsOf(r.(hosts := {h}, matches := r.matches[..i + 1])) ==
            SlotsOf(r.(hosts := {h}, matches := r.matches[..i])) + {SlotFor(r, h, r.matches[i])}
  {
    hide MatchKeys.Key;
    var more, fewer := r.(hosts := {h}, matches := r.matches[..i + 1]), r.(hosts := {h}, matches := r.matches[..i]);
    assert more.matches == fewer.matches + [r.matches[i]];
    forall s ensures s in SlotsOf(more) <==> s in SlotsOf(fewer) || s == SlotFor(r, h, r.matches[i]) {
      if s == SlotFor(r, h, r.matches[i]) {
        assert r.matches[i] in more.matches && s == SlotFor(more, h, r.matches[i]);
      } else if s in SlotsOf(fewer) {
        var m :| m in fewer.matches && s == SlotFor(fewer, h, m);
        assert m in more.matches && s == SlotFor(more, h, m);
      }
    }
  }

  lemma AddedJoin(slots: Slots, r: Rule, hosts: set<string>, h: string, n: nat)
    ensures Added(Added(slots, r.(hosts := hosts), n), r.(hosts := {h}), n) == Added(slots, r.(hosts := hosts + {h}), n)
  {
    hide SlotsOf;
    SlotsJoin(r, hosts, h);
  }

  lemma SlotsJoin(r: Rule, hosts: set<string>, h: string)
    ensures SlotsOf(r.(hosts := hosts + {h})) == SlotsOf(r.(hosts := hosts)) + SlotsOf(r.(hosts := {h}))
  {
    hide MatchKeys.Key;
  }

  /** Rules with legible matches need a common slot exactly when they have a listener, a host and a match in
      common. */
  lemma SlotsMeet(r: Rule, q: Rule)
    requires (forall m | m in r.matches :: LegibleMatch(m)) && (forall m | m in q.matches :: LegibleMatch(m))
    ensures SlotsOf(r) !! SlotsOf(q) <==>
            || r.listener != q.listener || r.secure != q.secure
            || r.hosts !! q.hosts
            || forall m | m in r.matches :: m !in q.matches
  {
    hide MatchKeys.Key, MatchKeys.LegibleMatch;
    if r.listener == q.listener && r.secure == q.secure && !(r.hosts !! q.hosts) {
      var h :| h in r.hosts && h in q.hosts;
      if m :| m in r.matches && m in q.matches {
        assert SlotFor(r, h, m) in SlotsOf(r) && SlotFor(q, h, m) in SlotsOf(q);
      }
    }
    if !(SlotsOf(r) !! SlotsOf(q)) {
      var s :| s in SlotsOf(r) && s in SlotsOf(q);
      var h, m :| h in r.hosts && m in r.matches && SlotFor(r, h, m) == s;
      var g, n :| g in q.hosts && n in q.matches && SlotFor(q, g, n) == s;
      KeysShared(m, n);
    }
  }

  // ---------- Runs ----------

  ghost function SlotsAfter(start: Slots, rules: seq<Rule>): Slots {
    if rules == [] then start
    else After(SlotsAfter(start, rules[..|rules| - 1]), rules[|rules| - 1], |rules| - 1)
  }

  ghost predicate Accepted(start: Slots, rules: seq<Rule>, i: nat)
    requires i < |rules|
  {
    !Conflicts(SlotsAfter(start, rules[..i]), rules[i])
  }

  /** A rule takes all its slots or leaves everything as it was, and never takes one from a rule of its kind. */
  lemma AllOrNone(slots: Slots, r: Rule, n: nat)
    ensures || After(slots, r, n) == slots
            || forall s | s in SlotsOf(r) :: s in After(slots, r, n) && After(slots, r, n)[s] == ByRule(r.kind, n)
    ensures forall s | s in slots :: s in After(slots, r, n)
    ensures forall s | TakenBy(slots, s, r.kind) :: After(slots, r, n)[s] == slots[s]
    ensures forall s | s !in SlotsOf(r) :: s in After(slots, r, n) ==> s in slots && After(slots, r, n)[s] == slots[s]
  {
    hide SlotsOf;
  }

  /** Before the first rule, the slots hold only routes of earlier processors. */
  predicate AllEarlier(start: Slots) {
    forall s | s in start :: start[s].Earlier?
  }

  /** With source metadata these are of other kinds than the routes of rules. */
  predicate OnlyEarlier(start: Slots) {
    AllEarlier(start) && forall s | s in start :: start[s].kind == Ingress || start[s].kind == HTTPProxy
  }

  /** Every route of a rule in a slot belongs to an accepted rule that needs the slot. */
  lemma {:induction false} HolderIsAccepted(start: Slots, rules: seq<Rule>, s: Slot)
    requires AllEarlier(start) && s in SlotsAfter(start, rules) && SlotsAfter(start, rules)[s].ByRule?
    ensures var held := SlotsAfter(start, rules)[s];
            && held.owner < |rules| && held.kind == rules[held.owner].kind
            && Accepted(start, rules, held.owner) && s in SlotsOf(rules[held.owner])
  {
    hide SlotsOf;
    if rules != [] {
      var init, r := rules[..|rules| - 1], rules[|rules| - 1];
      var before := SlotsAfter(start, init);
      var held := SlotsAfter(start, rules)[s];
      if s in before && held == before[s] {
        HolderIsAccepted(start, init, s);
        assert rules[..held.owner] == init[..held.owner] && rules[held.owner] == init[held.owner];
      } else {
        assert !Conflicts(before, r) && s in SlotsOf(r);
      }
    }
  }

  lemma {:induction false} EarlierWasThere(start: Slots, rules: seq<Rule>, s: Slot)
    requires s in SlotsAfter(start, rules) && SlotsAfter(start, rules)[s].Earlier?
    ensures s in start && SlotsAfter(start, rules)[s] == start[s]
  {
    hide SlotsOf;
    if rules != [] {
      EarlierWasThere(start, rules[..|rules| - 1], s);
    }
  }

  /** With source metadata only rules put routes of these kinds into slots. */
  lemma TakenByRule(start: Slots, rules: seq<Rule>, s: Slot, kind: Kind)
    requires OnlyEarlier(start) && (kind == HTTPRoute || kind == GRPCRoute)
    requires TakenBy(SlotsAfter(start, rules), s, kind)
    ensures SlotsAfter(start, rules)[s].ByRule?
  {
    hide SlotsAfter;
    if SlotsAfter(start, rules)[s].Earlier? { EarlierWasThere(start, rules, s); }
  }

  /** All rules of HTTPRoutes come before those of GRPCRoutes. */
  predicate HTTPFirst(rules: seq<Rule>) {
    && (forall i | 0 <= i < |rules| :: rules[i].kind == HTTPRoute || rules[i].kind == GRPCRoute)
    && (forall i, j | 0 <= i < j < |rules| && rules[i].kind == GRPCRoute :: rules[j].kind == GRPCRoute)
  }

  /** The slots of an accepted rule stay with it, or go to a GRPCRoute. */
  lemma {:induction false} AcceptedHolds(start: Slots, rules: seq<Rule>, i: nat, s: Slot)
    requires OnlyEarlier(start) && HTTPFirst(rules) && i < |rules| && Accepted(start, rules, i) && s in SlotsOf(rules[i])
    ensures s in SlotsAfter(start, rules)
    ensures || SlotsAfter(start, rules)[s] == ByRule(rules[i].kind, i)
            || (rules[i].kind == HTTPRoute && TakenBy(SlotsAfter(start, rules), s, GRPCRoute))
  {
    hide SlotsOf;
    var init, r := rules[..|rules| - 1], rules[|rules| - 1];
    if i < |init| {
      assert rules[..i] == init[..i] && rules[i] == init[i];
      AcceptedHolds(start, init, i, s);
      TakenByRule(start, init, s, SlotsAfter(start, init)[s].kind);
      HolderIsAccepted(start, init, s);
      AllOrNone(SlotsAfter(start, init), r, |init|);
    } else {
      assert rules[..i] == init;
    }
  }

  /** An accepted rule keeps a slot to the end exactly when it is of a GRPCRoute or no accepted rule of a
      GRPCRoute needs the slot. */
  lemma KeepsSlotIff(start: Slots, rules: seq<Rule>, i: nat, s: Slot)
    requires OnlyEarlier(start) && HTTPFirst(rules) && i < |rules| && Accepted(start, rules, i) && s in SlotsOf(rules[i])
    ensures s in SlotsAfter(start, rules)
    ensures SlotsAfter(start, rules)[s] == ByRule(rules[i].kind, i) <==>
            || rules[i].kind == GRPCRoute
            || forall j: nat | j < |rules| && rules[j].kind == GRPCRoute && Accepted(start, rules, j) ::
                 s !in SlotsOf(rules[j])
  {
    hide SlotsOf, Accepted, SlotsAfter;
    AcceptedHolds(start, rules, i, s);
    TakenByRule(start, rules, s, SlotsAfter(start, rules)[s].kind);
    HolderIsAccepted(start, rules, s);
    forall j: nat | j < |rules| && rules[j].kind == GRPCRoute && Accepted(start, rules, j) && s in SlotsOf(rules[j])
      ensures TakenBy(SlotsAfter(start, rules), s, GRPCRoute)
    {
      AcceptedHolds(start, rules, j, s);
    }
  }

  /** A route of an earlier processor keeps its slot exactly when no accepted rule needs it. */
  lemma EarlierKeepsSlotIff(start: Slots, rules: seq<Rule>, s: Slot)
    requires OnlyEarlier(start) && HTTPFirst(rules) && s in start
    ensures s in SlotsAfter(start, rules)
    ensures SlotsAfter(start, rules)[s].Earlier? <==>
            forall j: nat | j < |rules| && Accepted(start, rules, j) :: s !in SlotsOf(rules[j])
  {
    hide SlotsOf, Accepted;
    StaysFilled(start, rules, s);
    if SlotsAfter(start, rules)[s].ByRule? {
      HolderIsAccepted(start, rules, s);
    }
    forall j: nat | j < |rules| && Accepted(start, rules, j) && s in SlotsOf(rules[j])
      ensures SlotsAfter(start, rules)[s].ByRule?
    {
      AcceptedHolds(start, rules, j, s);
      TakenByRule(start, rules, s, SlotsAfter(start, rules)[s].kind);
    }
  }

  lemma {:induction false} StaysFilled(start: Slots, rules: seq<Rule>, s: Slot)
    ensures s in start ==> s in SlotsAfter(start, rules)
  {
    if rules != [] {
      StaysFilled(start, rules[..|rules| - 1], s);
    }
  }

  /** First come, first served: a rule is accepted exactly when it needs no slot of an earlier accepted rule of
      its kind. */
  lemma GreedyIff(start: Slots, rules: seq<Rule>, i: nat)
    requires OnlyEarlier(start) && HTTPFirst(rules) && i < |rules|
    ensures Accepted(start, rules, i) <==>
            forall j: nat | j < i && rules[j].kind == rules[i].kind && Accepted(start, rules, j) ::
              SlotsOf(rules[j]) !! SlotsOf(rules[i])
  {
    hide SlotsOf, SlotsAfter;
    var init := rules[..i];
    if !Accepted(start, rules, i) {
      var s :| s in SlotsOf(rules[i]) && TakenBy(SlotsAfter(start, init), s, rules[i].kind);
      TakenByRule(start, init, s, rules[i].kind);
      HolderIsAccepted(start, init, s);
      var j := SlotsAfter(start, init)[s].owner;
      assert rules[..j] == init[..j];
      assert Accepted(start, rules, j) && s in SlotsOf(rules[j]);
    } else {
      forall j: nat | j < i && rules[j].kind == rules[i].kind && Accepted(start, rules, j)
        ensures SlotsOf(rules[j]) !! SlotsOf(rules[i])
      {
        forall s | s in SlotsOf(rules[j]) ensures s !in SlotsOf(rules[i]) {
          assert rules[..j] == init[..j];
          AcceptedHolds(start, init, j, s);
          TakenByRule(start, init, s, SlotsAfter(start, init)[s].kind);
          HolderIsAccepted(start, init, s);
          assert rules[SlotsAfter(start, init)[s].owner] == init[SlotsAfter(start, init)[s].owner];
        }
      }
    }
  }

  // ---------- Without source metadata ----------

  /** Without source metadata nothing is ever replaced: what is in a slot stays there. */
  lemma {:induction false} FilledStays(start: Slots, rules: seq<Rule>, s: Slot, i: nat)
    requires AllOfKind(rules, Unrecorded) && i <= |rules|
    requires forall t | t in start :: start[t].kind == Unrecorded
    ensures forall t | t in SlotsAfter(start, rules) :: SlotsAfter(start, rules)[t].kind == Unrecorded
    ensures var before := SlotsAfter(start, rules[..i]);
            s in before ==> s in SlotsAfter(start, rules) && SlotsAfter(start, rules)[s] == before[s]
  {
    hide SlotsOf;
    if rules == [] || i == |rules| {
      assert rules[..i] == rules;
      if rules != [] { FilledStays(start, rules[..|rules| - 1], s, 0); }
    } else {
      var init := rules[..|rules| - 1];
      assert init[..i] == rules[..i];
      FilledStays(start, init, s, i);
    }
  }

  /** Without source metadata it is first come, first served among all routes, those of earlier processors
      included: a rule is accepted exactly when none of its slots is taken by them or by an earlier accepted
      rule. */
  lemma UnrecordedIff(start: Slots, rules: seq<Rule>, i: nat)
    requires AllEarlier(start) && (forall s | s in start :: start[s].kind == Unrecorded)
    requires AllOfKind(rules, Unrecorded) && i < |rules|
    ensures Accepted(start, rules, i) <==>
            && SlotsOf(rules[i]) !! start.Keys
            && forall j: nat | j < i && Accepted(start, rules, j) :: SlotsOf(rules[j]) !! SlotsOf(rules[i])
  {
    hide SlotsOf, SlotsAfter;
    var init := rules[..i];
    if !Accepted(start, rules, i) {
      var s :| s in SlotsOf(rules[i]) && TakenBy(SlotsAfter(start, init), s, rules[i].kind);
      if SlotsAfter(start, init)[s].ByRule? {
        HolderIsAccepted(start, init, s);
        var j := SlotsAfter(start, init)[s].owner;
        assert rules[..j] == init[..j];
        assert Accepted(start, rules, j) && s in SlotsOf(rules[j]);
      } else {
        EarlierWasThere(start, init, s);
      }
    } else {
      forall s | s in SlotsOf(rules[i]) ensures s !in SlotsAfter(start, init) && s !in start {
        FilledStays(start, init, s, 0);
        StaysFilled(start, init, s);
      }
      forall j: nat | j < i && Accepted(start, rules, j) ensures SlotsOf(rules[j]) !! SlotsOf(rules[i]) {
        forall s | s in SlotsOf(rules[j]) ensures s in SlotsAfter(start, init) {
          AcceptedFills(start, rules, j, s);
          assert init[..j + 1] == rules[..j + 1];
          FilledStays(start, init, s, j + 1);
        }
      }
    }
  }

  lemma AcceptedFills(start: Slots, rules: seq<Rule>, j: nat, s: Slot)
    requires j < |rules| && Accepted(start, rules, j) && s in SlotsOf(rules[j])
    ensures s in SlotsAfter(start, rules[..j + 1])
  {
    hide SlotsOf;
    assert rules[..j + 1][..j] == rules[..j];
  }

  // ---------- The oldest route wins ----------

  /** The place of rule `x` of route `m` among all rules. */
  function Place(routes: seq<RouteObject>, m: nat, x: nat): nat
    requires m < |routes|
  {
    |RulesIn(routes[..m])| + x
  }

  lemma {:induction false} RulesGrow(routes: seq<RouteObject>, m: nat, n: nat)
    requires m <= n <= |routes|
    ensures RulesIn(routes[..m]) <= RulesIn(routes[..n])
  {
    if m < n {
      RulesGrow(routes, m, n - 1);
      RulesStep(routes, n - 1);
    }
  }

  lemma RuleAt(routes: seq<RouteObject>, m: nat, x: nat)
    requires m < |routes| && x < |routes[m].rules|
    ensures Place(routes, m, x) < |RulesIn(routes[..m + 1])| <= |RulesIn(routes)|
    ensures RulesIn(routes)[Place(routes, m, x)] == routes[m].rules[x]
  {
    hide RulesIn;
    RulesStep(routes, m);
    RulesGrow(routes, m + 1, |routes|);
    assert routes[..|routes|] == routes;
    assert RulesIn(routes[..m + 1])[Place(routes, m, x)] == routes[m].rules[x];
  }

  lemma PlacesOrdered(routes: seq<RouteObject>, m: nat, x: nat, n: nat, y: nat)
    requires m < n < |routes| && x < |routes[m].rules|
    ensures Place(routes, m, x) < Place(routes, n, y)
  {
    hide RulesIn;
    RuleAt(routes, m, x);
    RulesGrow(routes, m + 1, n);
  }

  /** Of two rules of one kind that need a common slot, the one of the older route shuts out the other: with
      `before` and `after` standing for the rules of the other kind, not both are accepted, and the later one
      only if the earlier one was not. */
  lemma OldestWins(start: Slots, before: seq<Rule>, routes: seq<RouteObject>, after: seq<Rule>,
                   m: nat, x: nat, n: nat, y: nat)
    requires OnlyEarlier(start) && HTTPFirst(before + RulesIn(routes) + after) && Sorting.Sorted(Before, routes)
    requires m < |routes| && x < |routes[m].rules| && n < |routes| && y < |routes[n].rules|
    requires || routes[m].created < routes[n].created
             || (routes[m].created == routes[n].created && Text.Less(Spelled(routes[m]), Spelled(routes[n])))
    requires routes[m].rules[x].kind == routes[n].rules[y].kind
    requires !(SlotsOf(routes[m].rules[x]) !! SlotsOf(routes[n].rules[y]))
    ensures var rules, i, j := before + RulesIn(routes) + after,
                               |before| + Place(routes, m, x), |before| + Place(routes, n, y);
            i < j < |rules| && rules[i] == routes[m].rules[x] && rules[j] == routes[n].rules[y] &&
            (Accepted(start, rules, j) ==> !Accepted(start, rules, i))
  {
    hide SlotsOf, RulesIn, Accepted, Before, Place, HTTPFirst;
    OlderIsEarlier(routes, m, n);
    PlacesOrdered(routes, m, x, n, y);
    RuleAt(routes, m, x);
    RuleAt(routes, n, y);
    GreedyIff(start, before + RulesIn(routes) + after, |before| + Place(routes, n, y));
  }

  lemma KindAt(routes: seq<RouteObject>, kind: Kind, m: nat, x: nat)
    requires AllOfKind(RulesIn(routes), kind) && m < |routes| && x < |routes[m].rules|
    ensures Place(routes, m, x) < |RulesIn(routes)| && routes[m].rules[x].kind == kind
  {
    RuleAt(routes, m, x);
  }

  /** In the processing of HTTPRoutes and GRPCRoutes, a rule of an older HTTPRoute shuts out a rule of a younger
      one that needs a common slot. */
  lemma OldestHTTPRouteWins(start: Slots, https: map<NamespacedName, RouteObject>,
                            grpcs: map<NamespacedName, RouteObject>,
                            a: seq<RouteObject>, b: seq<RouteObject>, m: nat, x: nat, n: nat, y: nat)
    requires OnlyEarlier(start) && RulesOf(https, HTTPRoute) && RulesOf(grpcs, GRPCRoute)
    requires IsOrder(https, a) && IsOrder(grpcs, b)
    requires m < |a| && x < |a[m].rules| && n < |a| && y < |a[n].rules|
    requires || a[m].created < a[n].created
             || (a[m].created == a[n].created && Text.Less(Spelled(a[m]), Spelled(a[n])))
    requires !(SlotsOf(a[m].rules[x]) !! SlotsOf(a[n].rules[y]))
    ensures var rules := RulesIn(a) + RulesIn(b);
            && Place(a, m, x) < |rules| && Place(a, n, y) < |rules|
            && (Accepted(start, rules, Place(a, n, y)) ==> !Accepted(start, rules, Place(a, m, x)))
  {
    hide SlotsOf, RulesIn, Accepted, AllOfKind, HTTPFirst, Before, Place, RulesOf, Spelled, Text.Less, OnlyEarlier;
    KindsInOrder(https, grpcs, a, b);
    KindAt(a, HTTPRoute, m, x);
    KindAt(a, HTTPRoute, n, y);
    assert [] + RulesIn(a) + RulesIn(b) == RulesIn(a) + RulesIn(b);
    OldestWins(start, [], a, RulesIn(b), m, x, n, y);
  }

  /** The same, for GRPCRoutes. */
  lemma OldestGRPCRouteWins(start: Slots, https: map<NamespacedName, RouteObject>,
                            grpcs: map<NamespacedName, RouteObject>,
                            a: seq<RouteObject>, b: seq<RouteObject>, m: nat, x: nat, n: nat, y: nat)
    requires OnlyEarlier(start) && RulesOf(https, HTTPRoute) && RulesOf(grpcs, GRPCRoute)
    requires IsOrder(https, a) && IsOrder(grpcs, b)
    requires m < |b| && x < |b[m].rules| && n < |b| && y < |b[n].rules|
    requires || b[m].created < b[n].created
             || (b[m].created == b[n].created && Text.Less(Spelled(b[m]), Spelled(b[n])))
    requires !(SlotsOf(b[m].rules[x]) !! SlotsOf(b[n].rules[y]))
    ensures var rules, k := RulesIn(a) + RulesIn(b), |RulesIn(a)|;
            && k + Place(b, m, x) < |rules| && k + Place(b, n, y) < |rules|
            && (Accepted(start, rules, k + Place(b, n, y)) ==> !Accepted(start, rules, k + Place(b, m, x)))
  {
    hide SlotsOf, RulesIn, Accepted, AllOfKind, HTTPFirst, Before, Place, RulesOf, Spelled, Text.Less, OnlyEarlier;
    KindsInOrder(https, grpcs, a, b);
    KindAt(b, GRPCRoute, m, x);
    KindAt(b, GRPCRoute, n, y);
    assert RulesIn(a) + RulesIn(b) + [] == RulesIn(a) + RulesIn(b);
    OldestWins(start, RulesIn(a), b, [], m, x, n, y);
  }

  /** A GRPCRoute takes the slot of an HTTPRoute with the same match. */
  lemma GRPCTakesHTTP(m: Match) returns (rules: seq<Rule>, s: Slot)
    ensures |rules| == 2 && HTTPFirst(rules) && Accepted(map[], rules, 0) && Accepted(map[], rules, 1)
    ensures s in SlotsOf(rules[0]) && s in SlotsAfter(map[], rules)
    ensures SlotsAfter(map[], rules)[s] == ByRule(GRPCRoute, 1)
  {
    var a, b := Rule(HTTPRoute, "http-80", false, {"*"}, [m]), Rule(GRPCRoute, "http-80", false, {"*"}, [m]);
    rules, s := [a, b], SlotFor(a, "*", m);
    OneSlot(a, "*", m);
    OneSlot(b, "*", m);
    SecondTakes(a, b, s);
  }

  lemma SecondTakes(a: Rule, b: Rule, s: Slot)
    requires a.kind == HTTPRoute && b.kind == GRPCRoute && SlotsOf(a) == {s} && SlotsOf(b) == {s}
    ensures Accepted(map[], [a, b], 0) && Accepted(map[], [a, b], 1)
    ensures SlotsAfter(map[], [a, b]) == map[s := ByRule(GRPCRoute, 1)]
  {
    hide SlotsOf;
    var rules := [a, b];
    assert rules[..0] == [] && rules[..1] == [a] && [a][..0] == [];
    assert SlotsAfter(map[], [a]) == map[s := ByRule(HTTPRoute, 0)];
  }

  lemma OneSlot(r: Rule, h: string, m: Match)
    requires r.hosts == {h} && r.matches == [m]
    ensures SlotsOf(r) == {Slot(r.listener, r.secure, h, Key(m))} && SlotFor(r, h, m) in SlotsOf(r)
  {
    hide MatchKeys.Key;
    assert SlotFor(r, h, m) in SlotsOf(r);
  }
}
