/**
 What prefix expansion and the order of routes together do to the path of a request: expansion splits a lone
 rewritten route in two, and the sorted list decides which of the two Envoy selects.
 */
module Rewriting {
  import opened Wrappers
  import opened MatchConditions
  import opened RouteChains
  import O = RouteOrder
  import PX = PrefixExpansion
  import Sorting

  /** The route as the order of routes sees it. */
  function View(r: DagRoute): O.Route {
    O.Route(r.path, r.rest.headers, r.rest.queries, 0)
  }

  function Views(rs: seq<DagRoute>): seq<O.Route> {
    seq(|rs|, i requires 0 <= i < |rs| => View(rs[i]))
  }

  /** `sorted` holds the expansion of `rs` in an order without inversions. */
  ghost predicate SortedExpansion(rs: seq<DagRoute>, sorted: seq<DagRoute>) {
    multiset(sorted) == multiset(PX.Expanded(rs)) && O.KeySorted(Views(sorted))
  }

  /** Envoy's rewrite: the matched prefix is replaced. */
  function RewritePath(r: DagRoute, path: string): string
    requires r.path.Prefix? && r.path.prefix <= path && r.rewrite.Some?
  {
    r.rewrite.value + path[|r.path.prefix|..]
  }

  /** With the prefix P and the replacement R, both without trailing slash: P/x goes to R/x, P itself to R (or to
      `/`), and other paths that start with P as plain text. */
  function Rewritten(r: DagRoute, path: string): string
    requires r.path.Prefix? && r.rewrite.Some? && PX.TrimSlashes(r.path.prefix) <= path
  {
    var p, t := PX.TrimSlashes(r.path.prefix), PX.TrimSlashes(r.rewrite.value);
    if p + "/" <= path then t + "/" + path[|p| + 1..] else PX.NonEmpty(t) + path[|p|..]
  }

  /** The route `e` rewrites the path as the spelling-free prefix and replacement of `r` say. */
  predicate RewritesAs(e: DagRoute, r: DagRoute, path: string)
    requires r.path.Prefix? && r.rewrite.Some?
  {
    && e.path.Prefix? && e.path.prefix <= path && e.rewrite.Some? && PX.TrimSlashes(r.path.prefix) <= path
    && RewritePath(e, path) == Rewritten(r, path)
  }

  lemma MemberAt(rs: seq<DagRoute>, sorted: seq<DagRoute>, r: DagRoute, e: DagRoute) returns (j: nat)
    requires multiset(sorted) == multiset(PX.Expanded(rs)) && r in rs && e in PX.ExpandOne(rs, r)
    ensures j < |sorted| && sorted[j] == e
  {
    PX.ExpandContains(rs, rs, r);
    assert e in multiset(sorted);
    j :| 0 <= j < |sorted| && sorted[j] == e;
  }

  /** If the longer of the two routes applies to the path, the shorter one is not selected. */
  lemma LongerIsSelected(rs: seq<DagRoute>, sorted: seq<DagRoute>, q: O.Request, i: nat, r: DagRoute)
    requires SortedExpansion(rs, sorted) && O.Selected(Views(sorted), q, i)
    requires r in rs && PX.Expandable(rs, r) && sorted[i] == PX.ShortRoute(r)
    ensures !(PX.TrimSlashes(r.path.prefix) + "/" <= q.path)
  {
    hide O.KeySorted, O.KeyLess, O.Key, PX.Expanded;
    if PX.TrimSlashes(r.path.prefix) + "/" <= q.path {
      assert PX.SlashRoute(r) in [PX.ShortRoute(r), PX.SlashRoute(r)];
      var j := MemberAt(rs, sorted, r, PX.SlashRoute(r));
      assert O.Matches(Views(sorted)[i], q);
      assert Views(sorted)[j] == View(PX.SlashRoute(r)) && O.Matches(Views(sorted)[j], q);
      O.SelectedIsMostSpecific(Views(sorted), q, i, j);
    }
  }

  /** In every list and for every request: if Envoy selects one of the two routes that a lone rewritten route was
      expanded to, the path is rewritten as the spelling-free prefix and replacement say. */
  lemma RewriteIs(rs: seq<DagRoute>, sorted: seq<DagRoute>, q: O.Request, i: nat, n: nat)
    requires SortedExpansion(rs, sorted) && O.Selected(Views(sorted), q, i)
    requires n < |rs| && PX.LoneRewritten(rs, n) && PX.Becomes(rs, n, sorted[i])
    ensures RewritesAs(sorted[i], rs[n], q.path)
  {
    hide PX.LoneRewritten, PX.Becomes, PX.Expandable;
    PX.LoneIff(rs, n);
    PX.BecomesIff(rs, n, sorted[i]);
    SelectedRewrites(rs, sorted, q, i, rs[n]);
  }

  lemma SelectedRewrites(rs: seq<DagRoute>, sorted: seq<DagRoute>, q: O.Request, i: nat, r: DagRoute)
    requires SortedExpansion(rs, sorted) && O.Selected(Views(sorted), q, i)
    requires r in rs && PX.Expandable(rs, r) && sorted[i] in PX.ExpandOne(rs, r)
    ensures RewritesAs(sorted[i], r, q.path)
  {
    hide O.KeySorted, O.KeyLess, O.Key, PX.Expanded, PX.Group, PX.TrimSlashes, RewritesAs;
    assert O.Matches(Views(sorted)[i], q);
    if sorted[i] == PX.ShortRoute(r) {
      LongerIsSelected(rs, sorted, q, i, r);
      ShortRewrites(r, q.path);
    } else {
      SlashRewrites(r, q.path);
    }
  }

  lemma ShortRewrites(r: DagRoute, path: string)
    requires r.path.Prefix? && r.rewrite.Some? && r.path.prefix != "/"
    requires PX.ShortRoute(r).path.prefix <= path && !(PX.TrimSlashes(r.path.prefix) + "/" <= path)
    ensures RewritesAs(PX.ShortRoute(r), r, path)
  {
    hide PX.TrimSlashes;
  }

  lemma SlashRewrites(r: DagRoute, path: string)
    requires r.path.Prefix? && r.rewrite.Some? && r.path.prefix != "/" && PX.SlashRoute(r).path.prefix <= path
    ensures RewritesAs(PX.SlashRoute(r), r, path)
  {
    hide PX.TrimSlashes;
  }

  /** However the two lists are sorted, the same request selects routes with the same key. */
  lemma SameKeySelected(a: seq<DagRoute>, b: seq<DagRoute>, q: O.Request, i: nat, j: nat)
    requires multiset(a) == multiset(b) && O.KeySorted(Views(a)) && O.KeySorted(Views(b))
    requires O.Selected(Views(a), q, i) && O.Selected(Views(b), q, j)
    ensures O.Key(View(a[i])) == O.Key(View(b[j]))
  {
    hide O.KeySorted, O.KeyLess, O.Key;
    assert a[i] in multiset(b) && b[j] in multiset(a);
    var m :| 0 <= m < |b| && b[m] == a[i];
    var n :| 0 <= n < |a| && a[n] == b[j];
    assert O.Matches(Views(a)[i], q) && O.Matches(Views(b)[j], q);
    assert Views(b)[m] == Views(a)[i] && Views(a)[n] == Views(b)[j];
    O.SelectedIsMostSpecific(Views(b), q, j, m);
    O.SelectedIsMostSpecific(Views(a), q, i, n);
    O.KeyTotal(O.Key(View(a[i])), O.Key(View(b[j])));
  }

  /** Two lists that differ only in the spelling of one lone rewritten route treat every request alike: they
      select routes with the same key; if one list selects an expanded route, the other list selects the very
      same route and rewrites the path alike. A prefix of slashes only is the exception: there another route may
      have the same key. */
  lemma SpellingsRewriteAlike(x: seq<DagRoute>, y: seq<DagRoute>, r: DagRoute, s: DagRoute,
                              a: seq<DagRoute>, b: seq<DagRoute>, q: O.Request, i: nat, j: nat)
    requires PX.Expandable(x + [r] + y, r) && PX.Expandable(x + [s] + y, s) && PX.SameSpelling(r, s)
    requires SortedExpansion(x + [r] + y, a) && SortedExpansion(x + [s] + y, b)
    requires O.Selected(Views(a), q, i) && O.Selected(Views(b), q, j)
    ensures multiset(a) == multiset(b) && O.Key(View(a[i])) == O.Key(View(b[j]))
    ensures a[i] in PX.ExpandOne(x + [r] + y, r) && PX.TrimSlashes(r.path.prefix) != "" ==> b[j] == a[i]
    ensures && a[i] in PX.ExpandOne(x + [r] + y, r)
            && (PX.TrimSlashes(r.path.prefix) != "" || b[j] in PX.ExpandOne(x + [s] + y, s)) ==>
              RewritesAs(a[i], r, q.path) && RewritesAs(b[j], r, q.path)
  {
    assert r.path.Prefix? && r.rewrite.Some? && s.path.Prefix? && s.rewrite.Some? && i < |a| && j < |b|;
    hide O.KeySorted, O.KeyLess, O.Key, PX.Expanded, PX.Expandable, PX.ExpandOne, RewritesAs, PX.TrimSlashes,
      PX.SameSpelling, O.Selected;
    PX.ExpansionsAgree(x, y, r, s);
    SameKeySelected(a, b, q, i, j);
    if a[i] in PX.ExpandOne(x + [r] + y, r) {
      assert r in x + [r] + y && s in x + [s] + y;
      SelectedRewrites(x + [r] + y, a, q, i, r);
      if PX.TrimSlashes(r.path.prefix) != "" { SameRoute(x, y, r, s, b, a[i], b[j]); }
      if b[j] in PX.ExpandOne(x + [s] + y, s) {
        SelectedRewrites(x + [s] + y, b, q, j, s);
        SpellingIrrelevant(b[j], r, s, q.path);
      }
    }
  }

  lemma SpellingIrrelevant(e: DagRoute, r: DagRoute, s: DagRoute, path: string)
    requires r.path.Prefix? && r.rewrite.Some? && s.path.Prefix? && s.rewrite.Some?
    requires PX.SameSpelling(r, s) && RewritesAs(e, s, path)
    ensures RewritesAs(e, r, path)
  {
  }

  lemma SameRoute(x: seq<DagRoute>, y: seq<DagRoute>, r: DagRoute, s: DagRoute, b: seq<DagRoute>,
                  d: DagRoute, e: DagRoute)
    requires PX.Expandable(x + [r] + y, r) && PX.Expandable(x + [s] + y, s) && PX.SameSpelling(r, s)
    requires SortedExpansion(x + [s] + y, b) && e in b && PX.TrimSlashes(r.path.prefix) != ""
    requires d in PX.ExpandOne(x + [r] + y, r) && O.Key(View(d)) == O.Key(View(e))
    ensures d == e
  {
    hide O.KeySorted, PX.Group, PX.TrimSlashes, PX.Expanded, O.Key;
    O.KeyTellsPath(View(d), View(e));
    assert PX.ShortRoute(r) == PX.ShortRoute(s) && PX.SlashRoute(r) == PX.SlashRoute(s);
    assert e in multiset(PX.Expanded(x + [s] + y));
    PX.LoneOrigin(x, y, s, e);
    PathsDiffer(s);
  }

  lemma PathsDiffer(s: DagRoute)
    requires s.path.Prefix? && s.rewrite.Some?
    ensures PX.ShortRoute(s).path != PX.SlashRoute(s).path
  {
    assert |PX.SlashRoute(s).path.prefix| == |PX.ShortRoute(s).path.prefix| + 1;
  }

  /** A prefix of slashes only: its longer route has the key of any route on `/`, and the order of the two in a
      sorted list is open, so the same request may be rewritten or not. */
  lemma SlashesSelectApart(o: Origin) returns (rs: seq<DagRoute>, r: DagRoute, a: seq<DagRoute>, b: seq<DagRoute>,
                                               q: O.Request)
    ensures r in rs && PX.Expandable(rs, r) && SortedExpansion(rs, a) && SortedExpansion(rs, b)
    ensures O.Selected(Views(a), q, 0) && O.Selected(Views(b), q, 0)
    ensures a[0] in PX.ExpandOne(rs, r) && a[0].rewrite.Some? && b[0].rewrite.None?
  {
    var e := PX.Route(Prefix("/", false), None, o);
    r := PX.Route(Prefix("//", false), Some("/new"), o);
    rs := [e, r];
    q := O.Request("/", _ => false, (_, _) => true);
    a, b := SlashesSorted(e, r);
    hide SortedExpansion, PX.Group, PX.TrimSlashes, O.Selected;
    FirstSelected(a, q);
    FirstSelected(b, q);
  }

  lemma SlashesSorted(e: DagRoute, r: DagRoute) returns (a: seq<DagRoute>, b: seq<DagRoute>)
    requires e.path == Prefix("/", false) && r.path == Prefix("//", false) && r.rewrite.Some? && e.rest == r.rest
    ensures PX.Expandable([e, r], r) && SortedExpansion([e, r], a) && SortedExpansion([e, r], b)
    ensures a != [] && a[0] in PX.ExpandOne([e, r], r) && a[0].path == Prefix("/", false) && a[0].rewrite.Some?
    ensures b != [] && b[0] == e
  {
    var short, slash := PX.ShortRoute(r), PX.SlashRoute(r);
    SlashesGroup(e, r);
    SlashesExpanded(e, r);
    assert short.path == Prefix("", false) && slash.path == Prefix("/", false) && View(e) == View(slash);
    assert slash in PX.ExpandOne([e, r], r) && slash.rewrite.Some?;
    hide SortedExpansion, ExpandsToThree, PX.Group, PX.ExpandOne, PX.ShortRoute, PX.SlashRoute, View;
    a, b := TwoSortedForms([e, r], e, short, slash);
  }

  ghost predicate ExpandsToThree(rs: seq<DagRoute>, e: DagRoute, short: DagRoute, slash: DagRoute) {
    PX.Expanded(rs) == [e, short, slash]
  }

  lemma TwoSortedForms(rs: seq<DagRoute>, e: DagRoute, short: DagRoute, slash: DagRoute)
    returns (a: seq<DagRoute>, b: seq<DagRoute>)
    requires ExpandsToThree(rs, e, short, slash) && View(e) == View(slash)
    requires slash.path == Prefix("/", false) && short.path == Prefix("", false)
    ensures SortedExpansion(rs, a) && SortedExpansion(rs, b)
    ensures a != [] && a[0] == slash && b != [] && b[0] == e
  {
    hide O.KeySorted, PX.Expanded, View;
    ThreeSorted(slash, e, short);
    ThreeSorted(e, slash, short);
    Rotated(e, short, slash);
    FirstTwoSwapped(slash, e, short);
    a, b := [slash, e, short], [e, slash, short];
  }

  lemma Swapped<T>(a: seq<T>, b: seq<T>)
    ensures multiset(a + b) == multiset(b + a)
  {
  }

  lemma Rotated<T>(x: T, y: T, z: T)
    ensures multiset([z, x, y]) == multiset([x, y, z])
  {
    Swapped([z], [x, y]);
    assert [z] + [x, y] == [z, x, y] && [x, y] + [z] == [x, y, z];
  }

  lemma FirstTwoSwapped<T>(x: T, y: T, z: T)
    ensures multiset([x, y, z]) == multiset([y, x, z])
  {
    Swapped([x], [y]);
    assert [x] + [y] + [z] == [x, y, z] && [y] + [x] + [z] == [y, x, z];
  }

  lemma FirstSelected(rs: seq<DagRoute>, q: O.Request)
    requires rs != [] && O.Matches(View(rs[0]), q)
    ensures O.Selected(Views(rs), q, 0)
  {
  }

  lemma ThreeSorted(a: DagRoute, b: DagRoute, c: DagRoute)
    requires View(a) == View(b) && c.path == Prefix("", false)
    requires a.path == Prefix("/", false) || b.path == Prefix("/", false)
    ensures O.KeySorted(Views([a, b, c]))
  {
    O.KeyTotal(O.Key(View(a)), O.Key(View(b)));
  }

  lemma SlashesExpanded(e: DagRoute, r: DagRoute)
    requires e.path == Prefix("/", false) && r.path == Prefix("//", false) && r.rewrite.Some?
    ensures PX.Expandable([e, r], r) && ExpandsToThree([e, r], e, PX.ShortRoute(r), PX.SlashRoute(r))
  {
    SlashesGroup(e, r);
    var rs := [e, r];
    PX.ExpandLone(rs, e);
    assert rs[..1] == [e];
    assert PX.ExpandAll(rs, rs) == PX.ExpandAll(rs, [e]) + PX.ExpandOne(rs, r);
  }

  lemma SlashesGroup(e: DagRoute, r: DagRoute)
    requires e.path == Prefix("/", false) && r.path == Prefix("//", false)
    ensures PX.TrimSlashes("//") == "" && PX.GroupKey("/") == "/" && PX.Group([e, r], "") == [r]
  {
    assert "//"[..1] == "/" && "/"[..0] == "";
    PX.GroupOfTwo(e, r, "");
  }

  // ---------- The sorted list is what the sort of the routes returns ----------

  /** The routes in the order of their sorted forms. */
  lemma Align(es: seq<DagRoute>, tidied: seq<O.Route>, sorted: seq<O.Route>) returns (a: seq<DagRoute>)
    requires |es| == |tidied| && forall i | 0 <= i < |es| :: O.Tidied(View(es[i]), tidied[i])
    requires multiset(sorted) == multiset(tidied)
    ensures |a| == |sorted| && multiset(a) == multiset(es)
    ensures forall i | 0 <= i < |a| :: O.Tidied(View(a[i]), sorted[i])
    decreases |sorted|
  {
    hide O.Tidied;
    Sorting.SameLength(sorted, tidied);
    if sorted == [] {
      a := [];
      assert es == [];
    } else {
      var j := Sorting.LastIn(sorted, tidied);
      a := Align(Sorting.Without(es, j), Sorting.Without(tidied, j), sorted[..|sorted| - 1]);
      Sorting.WithoutIs(es, j);
      a := a + [es[j]];
    }
  }

  /** Whether a request meets the conditions does not depend on their order. */
  ghost predicate OrderBlind(q: O.Request) {
    forall h, g, x, y | multiset(h) == multiset(g) && multiset(x) == multiset(y) ::
      q.conditions(h, x) == q.conditions(g, y)
  }

  /** Expanding the routes and sorting them: the result is a sorted expansion, with the conditions of each route
      sorted, and requests select the same routes. */
  method SortExpanded(rs: seq<DagRoute>) returns (sorted: seq<O.Route>, ghost routes: seq<DagRoute>)
    ensures SortedExpansion(rs, routes)
    ensures |sorted| == |routes| && forall i | 0 <= i < |routes| :: O.Tidied(View(routes[i]), sorted[i])
    ensures forall q, i | OrderBlind(q) :: O.Selected(sorted, q, i) <==> O.Selected(Views(routes), q, i)
  {
    hide O.KeySorted, O.Tidied, O.Selected, PX.Expanded;
    var expanded := PX.ExpandPrefixMatches(rs);
    ghost var tidied;
    sorted, tidied := O.SortRoutes(Views(expanded));
    routes := Align(expanded, tidied, sorted);
    TidiedSorted(routes, sorted);
    forall q, i | OrderBlind(q) ensures O.Selected(sorted, q, i) <==> O.Selected(Views(routes), q, i) {
      TidiedSelected(routes, sorted, q, i);
    }
  }

  lemma TidiedSorted(routes: seq<DagRoute>, sorted: seq<O.Route>)
    requires |sorted| == |routes| && (forall i | 0 <= i < |routes| :: O.Tidied(View(routes[i]), sorted[i]))
    requires O.KeySorted(sorted)
    ensures O.KeySorted(Views(routes))
  {
    hide O.KeyLess, O.Key, O.Tidied;
    forall i | 0 <= i < |routes| ensures O.Key(Views(routes)[i]) == O.Key(sorted[i]) {
      O.TidiedKey(Views(routes)[i], sorted[i]);
    }
  }

  lemma TidiedSelected(routes: seq<DagRoute>, sorted: seq<O.Route>, q: O.Request, i: nat)
    requires |sorted| == |routes| && (forall i | 0 <= i < |routes| :: O.Tidied(View(routes[i]), sorted[i]))
    requires OrderBlind(q)
    ensures O.Selected(sorted, q, i) <==> O.Selected(Views(routes), q, i)
  {
    forall k | 0 <= k < |routes| ensures O.Matches(sorted[k], q) <==> O.Matches(Views(routes)[k], q) {
      assert O.Tidied(Views(routes)[k], sorted[k]);
    }
  }
}
