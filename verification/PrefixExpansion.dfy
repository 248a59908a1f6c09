/**
 Extra prefix routes for rewritten paths.

 Envoy rewrites a path by replacing the matched prefix, so a route on `/foo` and one on `/foo/` rewrite
 differently. A lone prefix route with a rewrite is therefore expanded into one route for each of the
 two spellings of its prefix.
 */
module PrefixExpansion {
  import opened Wrappers
  import opened MatchConditions
  import opened Conditions

  /** A DAG route; `rest` stands for everything that expansion copies unchanged. */
  datatype Route<T> = Route(path: PathMatch, rewrite: Option<string>, rest: T)

  function TrimSlashes(s: string): string {
    if s != "" && s[|s| - 1] == '/' then TrimSlashes(s[..|s| - 1]) else s
  }

  /** The prefix under which a prefix route is grouped. */
  function GroupKey(prefix: string): string {
    if prefix != "/" then TrimSlashes(prefix) else prefix
  }

  predicate InGroup<T>(r: Route<T>, k: string) {
    r.path.Prefix? && GroupKey(r.path.prefix) == k
  }

  /** The routes that share a group key. */
  function Group<T>(rs: seq<Route<T>>, k: string): seq<Route<T>> {
    if rs == [] then []
    else
      var r, before := rs[|rs| - 1], Group(rs[..|rs| - 1], k);
      if InGroup(r, k) then before + [r] else before
  }

  /** A lone prefix route with a rewrite, on another prefix than `/`. */
  predicate Expandable<T>(all: seq<Route<T>>, r: Route<T>) {
    && r.path.Prefix? && r.rewrite.Some? && r.path.prefix != "/"
    && |Group(all, GroupKey(r.path.prefix))| == 1
  }

  /** There is no empty rewrite: it is the same as rewriting to `/`. */
  function NonEmpty(rewrite: string): string {
    if rewrite == "" then "/" else rewrite
  }

  function ShortRoute<T>(r: Route<T>): Route<T>
    requires r.path.Prefix? && r.rewrite.Some?
  {
    r.(path := Prefix(GroupKey(r.path.prefix), false), rewrite := Some(NonEmpty(TrimSlashes(r.rewrite.value))))
  }

  function SlashRoute<T>(r: Route<T>): Route<T>
    requires r.path.Prefix? && r.rewrite.Some?
  {
    r.(path := Prefix(GroupKey(r.path.prefix) + "/", false), rewrite := Some(TrimSlashes(r.rewrite.value) + "/"))
  }

  function ExpandOne<T>(all: seq<Route<T>>, r: Route<T>): seq<Route<T>> {
    if Expandable(all, r) then [ShortRoute(r), SlashRoute(r)] else [r]
  }

  function ExpandAll<T>(all: seq<Route<T>>, rs: seq<Route<T>>): seq<Route<T>> {
    if rs == [] then [] else ExpandAll(all, rs[..|rs| - 1]) + ExpandOne(all, rs[|rs| - 1])
  }

  /** The expansion of a list of routes, up to the order of the result. */
  function Expanded<T>(rs: seq<Route<T>>): seq<Route<T>> {
    ExpandAll(rs, rs)
  }

  // ---------- The operation ----------

  /** `m` maps every group key of `rs` to its group. */
  ghost predicate Groups<T>(m: map<string, seq<Route<T>>>, rs: seq<Route<T>>) {
    forall k :: GroupIn(m, rs, k)
  }

  ghost predicate GroupIn<T>(m: map<string, seq<Route<T>>>, rs: seq<Route<T>>, k: string) {
    if k in m then m[k] == Group(rs, k) && m[k] != [] else Group(rs, k) == []
  }

  /** The first loop: prefix routes by group key, and the other routes. */
  method GroupByPrefix<T>(routes: seq<Route<T>>)
    returns (prefixedRoutes: map<string, seq<Route<T>>>, others: seq<Route<T>>)
    ensures Groups(prefixedRoutes, routes) && others == ExpandSome(routes, routes, {})
  {
    prefixedRoutes, others := map[], [];
    for i := 0 to |routes|
      invariant Groups(prefixedRoutes, routes[..i])
      invariant others == ExpandSome(routes, routes[..i], {})
    {
      var r := routes[i];
      assert routes[..i + 1][..i] == routes[..i];
      GroupsStep(prefixedRoutes, routes[..i], r);
      assert routes[..i + 1] == routes[..i] + [r];
      if !r.path.Prefix? {
        others := others + [r];
      } else {
        var routingPrefix := r.path.prefix;
        if routingPrefix != "/" {
          routingPrefix := TrimSlashes(routingPrefix);
        }
        var group := if routingPrefix in prefixedRoutes then prefixedRoutes[routingPrefix] else [];
        prefixedRoutes := prefixedRoutes[routingPrefix := group + [r]];
      }
    }
    assert routes[..|routes|] == routes;
  }

  /** One round of the second loop: the group's routes, the lone one rewritten, and the new route. */
  method ExpandGroup<T>(prefix: string, group: seq<Route<T>>, ghost all: seq<Route<T>>) returns (out: seq<Route<T>>)
    requires group == Group(all, prefix)
    ensures out == ExpandAll(all, group)
  {
    GroupMembers(all, prefix);
    out := group;
    if |group| == 1 {
      assert group[0] in group && group == [group[0]];
      ExpandLone(all, group[0]);
      if group[0].rewrite.None? || group[0].path.prefix == "/" {
        return;
      }
      var newRoute := group[0];
      var rewrite := TrimSlashes(group[0].rewrite.value);
      out := out[0 := out[0].(rewrite := Some(rewrite), path := Prefix(prefix, false))];
      newRoute := newRoute.(rewrite := Some(rewrite + "/"), path := Prefix(prefix + "/", false));
      if |rewrite| == 0 {
        out := out[0 := out[0].(rewrite := Some("/"))];
      }
      out := out + [newRoute];
    } else {
      Unexpandable(all, group);
    }
  }

  method ExpandPrefixMatches<T>(routes: seq<Route<T>>) returns (expanded: seq<Route<T>>)
    ensures multiset(expanded) == multiset(Expanded(routes))
  {
    var prefixedRoutes;
    prefixedRoutes, expanded := GroupByPrefix(routes);
    var todo := prefixedRoutes.Keys;
    ghost var done: set<string> := {};
    while todo != {}
      invariant todo <= prefixedRoutes.Keys && done == prefixedRoutes.Keys - todo
      invariant multiset(expanded) == multiset(ExpandSome(routes, routes, done))
    {
      var prefix :| prefix in todo;
      assert GroupIn(prefixedRoutes, routes, prefix);
      var out := ExpandGroup(prefix, prefixedRoutes[prefix], routes);
      ExpandSomeMore(routes, routes, done, prefix);
      expanded := expanded + out;
      todo, done := todo - {prefix}, done + {prefix};
    }
    forall k | Group(routes, k) != [] ensures k in done {
      assert GroupIn(prefixedRoutes, routes, k);
    }
    ExpandEvery(routes, routes, done);
  }

  // ---------- The loops meet the specification ----------

  /** The expansion of the routes without a path prefix and of those in the groups `done`. */
  ghost function ExpandSome<T>(all: seq<Route<T>>, rs: seq<Route<T>>, done: set<string>): seq<Route<T>> {
    if rs == [] then []
    else
      var r, before := rs[|rs| - 1], ExpandSome(all, rs[..|rs| - 1], done);
      if !r.path.Prefix? || GroupKey(r.path.prefix) in done then before + ExpandOne(all, r) else before
  }

  lemma ExpandLast<T>(all: seq<Route<T>>, rs: seq<Route<T>>, r: Route<T>)
    ensures ExpandAll(all, rs + [r]) == ExpandAll(all, rs) + ExpandOne(all, r)
  {
    assert (rs + [r])[..|rs|] == rs;
  }

  lemma {:induction false} ExpandSomeMore<T>(all: seq<Route<T>>, rs: seq<Route<T>>, done: set<string>, k: string)
    requires k !in done
    ensures multiset(ExpandSome(all, rs, done + {k}))
         == multiset(ExpandSome(all, rs, done)) + multiset(ExpandAll(all, Group(rs, k)))
  {
    if rs != [] {
      var init, r := rs[..|rs| - 1], rs[|rs| - 1];
      hide Expandable, ExpandOne;
      ExpandSomeMore(all, init, done, k);
      if InGroup(r, k) {
        ExpandLast(all, Group(init, k), r);
      }
    }
  }

  lemma {:induction false} ExpandEvery<T>(all: seq<Route<T>>, rs: seq<Route<T>>, done: set<string>)
    requires forall k :: Group(rs, k) != [] ==> k in done
    ensures ExpandSome(all, rs, done) == ExpandAll(all, rs)
  {
    if rs != [] {
      var init, r := rs[..|rs| - 1], rs[|rs| - 1];
      if r.path.Prefix? {
        assert Group(rs, GroupKey(r.path.prefix)) != [];
      }
      forall k | Group(init, k) != [] ensures k in done {
        assert Group(rs, k) != [];
      }
      ExpandEvery(all, init, done);
    }
  }

  lemma {:induction false} ExpandLone<T>(all: seq<Route<T>>, r: Route<T>)
    ensures ExpandAll(all, [r]) == ExpandOne(all, r)
  {
    assert [r][..0] == [];
  }

  lemma {:induction false} GroupsStep<T>(m: map<string, seq<Route<T>>>, rs: seq<Route<T>>, r: Route<T>)
    requires Groups(m, rs)
    ensures !r.path.Prefix? ==> Groups(m, rs + [r])
    ensures r.path.Prefix? ==>
              var k := GroupKey(r.path.prefix);
              Groups(m[k := (if k in m then m[k] else []) + [r]], rs + [r])
  {
    assert (rs + [r])[..|rs|] == rs;
    forall k ensures GroupIn(m, rs, k) &&
                     Group(rs + [r], k) == if InGroup(r, k) then Group(rs, k) + [r] else Group(rs, k) {
    }
  }

  lemma {:induction false} GroupMembers<T>(rs: seq<Route<T>>, k: string)
    ensures forall r | r in Group(rs, k) :: InGroup(r, k) && r in rs
  {
    if rs != [] {
      GroupMembers(rs[..|rs| - 1], k);
    }
  }

  lemma {:induction false} Unexpandable<T>(all: seq<Route<T>>, rs: seq<Route<T>>)
    requires forall r | r in rs :: !Expandable(all, r)
    ensures ExpandAll(all, rs) == rs
  {
    if rs != [] {
      Unexpandable(all, rs[..|rs| - 1]);
    }
  }

  // ---------- What the expanded routes do to a path ----------

  lemma {:induction false} TrimIs(s: string)
    ensures var t := TrimSlashes(s);
            t <= s && (t == "" || t[|t| - 1] != '/') && TrimSlashes(t) == t
  {
    if s != "" && s[|s| - 1] == '/' {
      TrimIs(s[..|s| - 1]);
    }
  }

  lemma TrimAddedSlash(t: string)
    ensures TrimSlashes(t + "/") == TrimSlashes(t)
  {
    assert (t + "/")[..|t|] == t;
  }

  /** All spellings of a prefix and of a replacement, with or without trailing slashes, give the same two routes,
      and different prefixes or replacements different ones. */
  lemma SpellingsAgree<T>(r: Route<T>, q: Route<T>)
    requires r.path.Prefix? && r.rewrite.Some? && r.path.prefix != "/"
    requires q.path.Prefix? && q.rewrite.Some? && q.path.prefix != "/"
    ensures multiset{ShortRoute(r), SlashRoute(r)} == multiset{ShortRoute(q), SlashRoute(q)} <==> SameSpelling(r, q)
  {
    var p, o := TrimSlashes(r.path.prefix), TrimSlashes(q.path.prefix);
    if multiset{ShortRoute(r), SlashRoute(r)} == multiset{ShortRoute(q), SlashRoute(q)} {
      assert ShortRoute(r) in multiset{ShortRoute(q), SlashRoute(q)};
      assert SlashRoute(r) in multiset{ShortRoute(q), SlashRoute(q)};
      assert |ShortRoute(r).path.prefix| == |p| && |SlashRoute(r).path.prefix| == |p| + 1;
      assert |ShortRoute(q).path.prefix| == |o| && |SlashRoute(q).path.prefix| == |o| + 1;
      assert SlashRoute(r) == SlashRoute(q);
      SamePrefix(p, o);
      SamePrefix(TrimSlashes(r.rewrite.value), TrimSlashes(q.rewrite.value));
    }
  }

  /** The routes differ at most in the trailing slashes of prefix and replacement. */
  predicate SameSpelling<T(==)>(r: Route<T>, q: Route<T>)
    requires r.path.Prefix? && r.rewrite.Some? && q.path.Prefix? && q.rewrite.Some?
  {
    && r.rest == q.rest
    && TrimSlashes(r.path.prefix) == TrimSlashes(q.path.prefix)
    && TrimSlashes(r.rewrite.value) == TrimSlashes(q.rewrite.value)
  }

  lemma SamePrefix(a: string, b: string)
    requires a + "/" == b + "/"
    ensures a == b
  {
    assert (a + "/")[..|a|] == a && (b + "/")[..|b|] == b;
  }

  /** Nothing is doubled at the seam, and the rewritten path has the segments of the replacement and
      then those of the rest of the path. */
  lemma NoDoubleAtSeam(t: string, x: string)
    requires TrimSlashes(t) == t
    ensures NoDoubleSlash(t) && NoDoubleSlash("/" + x) ==> NoDoubleSlash(t + "/" + x)
    ensures Segments(t + "/" + x) == Segments(t) + Segments(x)
  {
    TrimIs(t);
    var s, y := t + "/" + x, "/" + x;
    assert s == t + y && y[1..] == x;
    SegmentsAppend(t, y);
    if NoDoubleSlash(t) && NoDoubleSlash(y) {
      forall i | 0 < i < |s| ensures !(s[i - 1] == '/' && s[i] == '/') {
        if i < |t| { assert s[i] == t[i] && s[i - 1] == t[i - 1]; }
        else if i > |t| { assert s[i] == y[i - |t|] && s[i - 1] == y[i - 1 - |t|]; }
      }
    }
  }

  // ---------- Expanding twice ----------

  /** A lone rewritten route on a prefix made of slashes only, other than `/` itself. */
  predicate SlashesOnly<T>(rs: seq<Route<T>>) {
    exists i | 0 <= i < |rs| :: Expandable(rs, rs[i]) && TrimSlashes(rs[i].path.prefix) == ""
  }

  lemma KeyNotSlash(prefix: string)
    ensures prefix != "/" ==> GroupKey(prefix) != "/" && GroupKey(GroupKey(prefix)) == GroupKey(prefix)
    ensures prefix != "/" && GroupKey(prefix) != "" ==> GroupKey(GroupKey(prefix) + "/") == GroupKey(prefix)
  {
    TrimIs(prefix);
    TrimAddedSlash(TrimSlashes(prefix));
  }

  /** The routes one route expands to stay in its group, unless its prefix is slashes only. */
  lemma ExpandOneGroups<T>(all: seq<Route<T>>, r: Route<T>, k: string)
    ensures var g := Group(ExpandOne(all, r), k);
            if !Expandable(all, r) then g == if InGroup(r, k) then [r] else []
            else if GroupKey(r.path.prefix) != "" then |g| == if InGroup(r, k) then 2 else 0
            else k == "" ==> g == [ShortRoute(r)]
  {
    if Expandable(all, r) {
      KeyNotSlash(r.path.prefix);
      GroupOfTwo(ShortRoute(r), SlashRoute(r), k);
    } else {
      assert [r][..0] == [];
    }
  }

  lemma GroupOfTwo<T>(a: Route<T>, b: Route<T>, k: string)
    ensures Group([a, b], k) == (if InGroup(a, k) then [a] else []) + (if InGroup(b, k) then [b] else [])
  {
    GroupOfOne(a, k);
    assert [a, b][..1] == [a];
  }

  lemma GroupOfOne<T>(a: Route<T>, k: string)
    ensures Group([a], k) == if InGroup(a, k) then [a] else []
  {
    assert [a][..0] == [];
  }

  lemma {:induction false} GroupAppend<T>(a: seq<Route<T>>, b: seq<Route<T>>, k: string)
    ensures Group(a + b, k) == Group(a, k) + Group(b, k)
  {
    if b == [] {
      assert a + b == a;
    } else {
      assert (a + b)[..|a + b| - 1] == a + b[..|b| - 1];
      GroupAppend(a, b[..|b| - 1], k);
    }
  }

  lemma {:induction false} ExpandAppend<T>(all: seq<Route<T>>, a: seq<Route<T>>, b: seq<Route<T>>)
    ensures ExpandAll(all, a + b) == ExpandAll(all, a) + ExpandAll(all, b)
  {
    if b == [] {
      assert a + b == a;
    } else {
      var init, last := b[..|b| - 1], b[|b| - 1];
      ExpandAppend(all, a, init);
      assert (a + b)[..|a + b| - 1] == a + init && (a + b)[|a + b| - 1] == last;
    }
  }

  /** Taking a route out of a list takes its part out of the group and of the expansion. */
  lemma TakeOut<T>(all: seq<Route<T>>, rs: seq<Route<T>>, x: Route<T>, k: string) returns (rest: seq<Route<T>>)
    requires x in rs
    ensures multiset(rs) == multiset(rest) + multiset{x} && |rs| == |rest| + 1
    ensures |Group(rs, k)| == |Group(rest, k)| + if InGroup(x, k) then 1 else 0
    ensures multiset(ExpandAll(all, rs)) == multiset(ExpandAll(all, rest)) + multiset(ExpandOne(all, x))
  {
    var i :| 0 <= i < |rs| && rs[i] == x;
    var a, b := rs[..i], rs[i + 1..];
    rest := a + b;
    assert rs == a + ([x] + b);
    GroupAppend(a, [x] + b, k);
    GroupAppend([x], b, k);
    GroupAppend(a, b, k);
    ExpandAppend(all, a, [x] + b);
    ExpandAppend(all, [x], b);
    ExpandAppend(all, a, b);
    GroupOfOne(x, k);
    ExpandLone(all, x);
  }

  /** Both lists have as large a group and the same expansion. */
  ghost predicate Alike<T>(all: seq<Route<T>>, a: seq<Route<T>>, b: seq<Route<T>>, k: string) {
    |Group(a, k)| == |Group(b, k)| && multiset(ExpandAll(all, a)) == multiset(ExpandAll(all, b))
  }

  lemma TakeOutBoth<T>(all: seq<Route<T>>, a: seq<Route<T>>, b: seq<Route<T>>, k: string)
    returns (a': seq<Route<T>>, b': seq<Route<T>>)
    requires multiset(a) == multiset(b) && b != []
    ensures multiset(a') == multiset(b') && |b'| < |b|
    ensures Alike(all, a', b', k) ==> Alike(all, a, b, k)
  {
    hide Group, ExpandAll, ExpandOne, InGroup;
    var x := b[0];
    assert x in multiset(a);
    a' := TakeOut(all, a, x, k);
    b' := TakeOut(all, b, x, k);
    assert multiset(a') == multiset(a) - multiset{x} && multiset(b') == multiset(b) - multiset{x};
  }

  lemma {:induction false} ExpandPermuted<T>(all: seq<Route<T>>, a: seq<Route<T>>, b: seq<Route<T>>, k: string)
    requires multiset(a) == multiset(b)
    ensures Alike(all, a, b, k)
    decreases |b|
  {
    if b == [] {
      assert |multiset(a)| == 0;
    } else {
      var a', b' := TakeOutBoth(all, a, b, k);
      ExpandPermuted(all, a', b', k);
    }
  }

  lemma {:induction false} ExpandSame<T>(a: seq<Route<T>>, b: seq<Route<T>>, rs: seq<Route<T>>)
    requires forall r | r in rs :: Expandable(a, r) <==> Expandable(b, r)
    ensures ExpandAll(a, rs) == ExpandAll(b, rs)
  {
    if rs != [] {
      assert rs[|rs| - 1] in rs;
      ExpandSame(a, b, rs[..|rs| - 1]);
    }
  }

  /** The order in which the routes come makes no difference to which routes expansion gives. */
  lemma ExpandedPermuted<T>(a: seq<Route<T>>, b: seq<Route<T>>)
    requires multiset(a) == multiset(b)
    ensures multiset(Expanded(a)) == multiset(Expanded(b))
  {
    forall r | r in b ensures Expandable(a, r) <==> Expandable(b, r) {
      if r.path.Prefix? { ExpandPermuted(a, a, b, GroupKey(r.path.prefix)); }
    }
    ExpandPermuted(a, a, b, "");
    ExpandSame(a, b, b);
  }

  lemma GroupStep<T>(all: seq<Route<T>>, init: seq<Route<T>>, r: Route<T>, k: string)
    ensures |Group(init + [r], k)| == |Group(init, k)| + if InGroup(r, k) then 1 else 0
    ensures |Group(ExpandAll(all, init + [r]), k)| == |Group(ExpandAll(all, init), k)| + |Group(ExpandOne(all, r), k)|
  {
    GroupAppend(init, [r], k);
    GroupOfOne(r, k);
    ExpandAppend(all, init, [r]);
    ExpandLone(all, r);
    GroupAppend(ExpandAll(all, init), ExpandOne(all, r), k);
  }

  lemma GroupAround<T>(a: seq<Route<T>>, r: Route<T>, b: seq<Route<T>>, k: string)
    ensures |Group(a + [r] + b, k)| == |Group(a, k)| + |Group(b, k)| + if InGroup(r, k) then 1 else 0
  {
    GroupAppend(a + [r], b, k);
    GroupAppend(a, [r], k);
    GroupOfOne(r, k);
  }

  /** Replacing one lone route by another one leaves the others as expandable as they were. */
  lemma OthersUnaffected<T>(a: seq<Route<T>>, b: seq<Route<T>>, r: Route<T>, q: Route<T>, x: Route<T>)
    requires Expandable(a + [r] + b, r) && Expandable(a + [q] + b, q) && (x in a || x in b)
    ensures Expandable(a + [r] + b, x) <==> Expandable(a + [q] + b, x)
  {
    hide Group;
    if x.path.Prefix? {
      var k := GroupKey(x.path.prefix);
      if x in a { GroupNotEmpty(a, x, k); } else { GroupNotEmpty(b, x, k); }
      GroupAround(a, r, b, k);
      GroupAround(a, q, b, k);
    }
  }

  lemma ExpandAround<T>(all: seq<Route<T>>, a: seq<Route<T>>, r: Route<T>, b: seq<Route<T>>)
    ensures multiset(ExpandAll(all, a + [r] + b)) ==
            multiset(ExpandAll(all, a)) + multiset(ExpandAll(all, b)) + multiset(ExpandOne(all, r))
  {
    ExpandAppend(all, a + [r], b);
    ExpandAppend(all, a, [r]);
    ExpandLone(all, r);
  }

  /** Two lists that differ in one lone rewritten route expand to the same routes exactly when the two routes
      differ at most in spelling. */
  lemma ExpansionsAgree<T>(a: seq<Route<T>>, b: seq<Route<T>>, r: Route<T>, q: Route<T>)
    requires Expandable(a + [r] + b, r) && Expandable(a + [q] + b, q)
    ensures multiset(Expanded(a + [r] + b)) == multiset(Expanded(a + [q] + b)) <==> SameSpelling(r, q)
  {
    hide ExpandAll, SameSpelling, ShortRoute, SlashRoute;
    var rs, qs := a + [r] + b, a + [q] + b;
    forall x | x in a || x in b ensures Expandable(rs, x) <==> Expandable(qs, x) { OthersUnaffected(a, b, r, q, x); }
    ExpandAround(rs, a, r, b);
    ExpandAround(qs, a, q, b);
    ExpandSame(rs, qs, a);
    ExpandSame(rs, qs, b);
    SpellingsAgree(r, q);
    assert multiset(ExpandOne(rs, r)) == multiset{ShortRoute(r), SlashRoute(r)};
    assert multiset(ExpandOne(qs, q)) == multiset{ShortRoute(q), SlashRoute(q)};
    SumsAgree(multiset(ExpandAll(rs, a)) + multiset(ExpandAll(rs, b)),
              multiset(ExpandOne(rs, r)), multiset(ExpandOne(qs, q)));
  }

  lemma SumsAgree<T>(m: multiset<T>, x: multiset<T>, y: multiset<T>)
    ensures m + x == m + y <==> x == y
  {
    if m + x == m + y {
      assert x == (m + x) - m && y == (m + y) - m;
    }
  }

  /** Expansion never empties a group. */
  lemma {:induction false} GroupsGrow<T>(all: seq<Route<T>>, rs: seq<Route<T>>, k: string)
    requires forall r | r in rs && Expandable(all, r) :: GroupKey(r.path.prefix) != ""
    ensures |Group(ExpandAll(all, rs), k)| >= |Group(rs, k)|
  {
    hide Expandable, InGroup, ExpandOne;
    if rs != [] {
      var init, r := rs[..|rs| - 1], rs[|rs| - 1];
      assert rs == init + [r];
      GroupsGrow(all, init, k);
      GroupStep(all, init, r, k);
      ExpandOneGroups(all, r, k);
    }
  }

  /** An expanded route leaves two routes in its group. */
  lemma {:induction false} GroupOfExpanded<T>(all: seq<Route<T>>, rs: seq<Route<T>>, q: Route<T>, k: string)
    requires q in rs && Expandable(all, q) && InGroup(q, k) && GroupKey(q.path.prefix) != ""
    ensures |Group(ExpandAll(all, rs), k)| >= 2
  {
    hide Group;
    var init, r := rs[..|rs| - 1], rs[|rs| - 1];
    assert rs == init + [r];
    GroupStep(all, init, r, k);
    if q == r {
      ExpandOneGroups(all, r, k);
    } else {
      GroupOfExpanded(all, init, q, k);
    }
  }

  lemma {:induction false} ExpandedFrom<T>(all: seq<Route<T>>, rs: seq<Route<T>>, e: Route<T>) returns (r: Route<T>)
    requires e in ExpandAll(all, rs)
    ensures r in rs && e in ExpandOne(all, r)
  {
    var init, last := rs[..|rs| - 1], rs[|rs| - 1];
    if e in ExpandOne(all, last) {
      r := last;
    } else {
      r := ExpandedFrom(all, init, e);
    }
  }

  lemma {:induction false} GroupNotEmpty<T>(rs: seq<Route<T>>, r: Route<T>, k: string)
    requires r in rs && InGroup(r, k)
    ensures |Group(rs, k)| >= 1
  {
    if r != rs[|rs| - 1] {
      GroupNotEmpty(rs[..|rs| - 1], r, k);
    }
  }

  /** An expanded route on the prefix of a lone rewritten route, with or without the slash, comes from it, unless
      the prefix is of slashes only. */
  lemma LoneOrigin<T>(a: seq<Route<T>>, b: seq<Route<T>>, r: Route<T>, e: Route<T>)
    requires Expandable(a + [r] + b, r) && e in Expanded(a + [r] + b) && TrimSlashes(r.path.prefix) != ""
    requires e.path == ShortRoute(r).path || e.path == SlashRoute(r).path
    ensures e in ExpandOne(a + [r] + b, r)
  {
    hide Group, ExpandAll;
    var all, k := a + [r] + b, TrimSlashes(r.path.prefix);
    var q := ExpandedFrom(all, all, e);
    KeyNotSlash(r.path.prefix);
    TrimAddedSlash(k);
    assert q.path.Prefix?;
    KeyNotSlash(q.path.prefix);
    assert InGroup(q, k);
    if q != r {
      if q in a { GroupNotEmpty(a, q, k); } else { GroupNotEmpty(b, q, k); }
      GroupAround(a, r, b, k);
    }
  }

  /** Nothing is left to expand in an expanded list. */
  lemma NothingLeft<T>(rs: seq<Route<T>>, e: Route<T>)
    requires !SlashesOnly(rs) && e in Expanded(rs)
    ensures !Expandable(Expanded(rs), e)
  {
    var r := ExpandedFrom(rs, rs, e);
    forall q | q in rs && Expandable(rs, q) ensures GroupKey(q.path.prefix) != "" {
      var i :| 0 <= i < |rs| && rs[i] == q;
    }
    if e.path.Prefix? {
      var k := GroupKey(e.path.prefix);
      GroupsGrow(rs, rs, k);
      if Expandable(rs, r) {
        KeyNotSlash(r.path.prefix);
        GroupOfExpanded(rs, rs, r, k);
      } else {
        GroupNotEmpty(rs, r, k);
      }
    }
  }

  lemma {:induction false} ExpandGrows<T>(all: seq<Route<T>>, rs: seq<Route<T>>)
    ensures |ExpandAll(all, rs)| >= |rs|
    ensures forall r | r in rs && Expandable(all, r) :: |ExpandAll(all, rs)| > |rs|
  {
    if rs != [] {
      ExpandGrows(all, rs[..|rs| - 1]);
      assert rs == rs[..|rs| - 1] + [rs[|rs| - 1]];
    }
  }

  lemma {:induction false} EmptyKeyGroup<T>(all: seq<Route<T>>, rs: seq<Route<T>>)
    ensures |Group(ExpandAll(all, rs), "")| == |Group(rs, "")|
  {
    if rs != [] {
      var init, r := rs[..|rs| - 1], rs[|rs| - 1];
      EmptyKeyGroup(all, init);
      GroupAppend(ExpandAll(all, init), ExpandOne(all, r), "");
      ExpandOneGroups(all, r, "");
    }
  }

  lemma {:induction false} ExpandContains<T>(all: seq<Route<T>>, rs: seq<Route<T>>, r: Route<T>)
    requires r in rs
    ensures forall e | e in ExpandOne(all, r) :: e in ExpandAll(all, rs)
  {
    if r != rs[|rs| - 1] {
      ExpandContains(all, rs[..|rs| - 1], r);
    }
  }

  // ---------- Which routes are expanded, and to what ----------

  /** A prefix route with a rewrite, on another prefix than `/`, while no other prefix route has its prefix in
      any spelling. */
  predicate LoneRewritten<T>(rs: seq<Route<T>>, i: nat) {
    && i < |rs| && rs[i].path.Prefix? && rs[i].rewrite.Some? && rs[i].path.prefix != "/"
    && forall j | 0 <= j < |rs| && j != i && rs[j].path.Prefix? && rs[j].path.prefix != "/" ::
         TrimSlashes(rs[j].path.prefix) != TrimSlashes(rs[i].path.prefix)
  }

  lemma GroupEmptyIff<T>(rs: seq<Route<T>>, k: string)
    ensures Group(rs, k) == [] <==> forall j | 0 <= j < |rs| :: !InGroup(rs[j], k)
  {
    hide Group, InGroup;
    GroupMembers(rs, k);
    if Group(rs, k) != [] {
      assert Group(rs, k)[0] in Group(rs, k);
    }
    forall j | 0 <= j < |rs| && InGroup(rs[j], k) ensures Group(rs, k) != [] { GroupNotEmpty(rs, rs[j], k); }
  }

  /** These are the routes that are expanded. */
  lemma LoneIff<T>(rs: seq<Route<T>>, i: nat)
    requires i < |rs|
    ensures LoneRewritten(rs, i) <==> Expandable(rs, rs[i])
  {
    hide Group, TrimSlashes;
    var a, r, b := rs[..i], rs[i], rs[i + 1..];
    assert rs == a + [r] + b;
    if r.path.Prefix? && r.path.prefix != "/" {
      var k := TrimSlashes(r.path.prefix);
      KeyNotSlash(r.path.prefix);
      GroupAround(a, r, b, k);
      GroupEmptyIff(a, k);
      GroupEmptyIff(b, k);
      assert forall j | 0 <= j < |a| :: a[j] == rs[j];
      assert forall j | 0 <= j < |b| :: b[j] == rs[j + i + 1];
      assert forall j | i < j < |rs| :: rs[j] == b[j - i - 1];
    }
  }

  /** What route `i` becomes: two routes, on its prefix without and with a slash, rewritten to its replacement
      without and with one; or itself. */
  predicate Becomes<T(==)>(rs: seq<Route<T>>, i: nat, e: Route<T>)
    requires i < |rs|
  {
    if LoneRewritten(rs, i) then
      var p, t := TrimSlashes(rs[i].path.prefix), TrimSlashes(rs[i].rewrite.value);
      || e == Route(Prefix(p, false), Some(if t == "" then "/" else t), rs[i].rest)
      || e == Route(Prefix(p + "/", false), Some(t + "/"), rs[i].rest)
    else e == rs[i]
  }

  /** The expansion of a list holds what its routes become, and nothing else. */
  lemma ExpandedIff<T>(rs: seq<Route<T>>, e: Route<T>)
    ensures e in Expanded(rs) <==> exists i: nat | i < |rs| :: Becomes(rs, i, e)
  {
    hide ExpandAll, LoneRewritten, Expandable;
    if e in Expanded(rs) {
      var r := ExpandedFrom(rs, rs, e);
      var i: nat :| i < |rs| && rs[i] == r;
      BecomesIff(rs, i, e);
    }
    if i: nat :| i < |rs| && Becomes(rs, i, e) {
      BecomesIff(rs, i, e);
      ExpandContains(rs, rs, rs[i]);
    }
  }

  lemma BecomesIff<T>(rs: seq<Route<T>>, i: nat, e: Route<T>)
    requires i < |rs|
    ensures Becomes(rs, i, e) <==> e in ExpandOne(rs, rs[i])
  {
    hide Group, TrimSlashes;
    LoneIff(rs, i);
  }

  /** Expanding an expanded list changes nothing, exactly when no lone rewritten route sits on a prefix of
      slashes only; merged paths never double a slash, so none does. */
  lemma ExpandTwice<T>(rs: seq<Route<T>>)
    ensures multiset(Expanded(Expanded(rs))) == multiset(Expanded(rs)) <==> !SlashesOnly(rs)
  {
    var es := Expanded(rs);
    if SlashesOnly(rs) {
      var i :| 0 <= i < |rs| && Expandable(rs, rs[i]) && TrimSlashes(rs[i].path.prefix) == "";
      EmptyKeyGroup(rs, rs);
      ExpandContains(rs, rs, rs[i]);
      var e := ShortRoute(rs[i]);
      assert e in ExpandOne(rs, rs[i]);
      assert e in es && Expandable(es, e);
      ExpandGrows(es, es);
      assert |multiset(Expanded(es))| > |multiset(es)|;
    } else {
      forall e | e in es ensures !Expandable(es, e) { NothingLeft(rs, e); }
      Unexpandable(es, es);
    }
  }

  /** A lone rewritten route on `//` goes on expanding. */
  lemma SlashesExpandAgain(r: Route<int>)
    requires r == Route(Prefix("//", false), Some("/v2"), 0)
    ensures multiset(Expanded(Expanded([r]))) != multiset(Expanded([r]))
  {
    var p := "//";
    assert p[..1] == "/" && "/"[..0] == "";
    assert TrimSlashes(p) == "" by { assert TrimSlashes("/") == TrimSlashes(""); }
    GroupOfOne(r, "");
    assert Expandable([r], [r][0]) && TrimSlashes([r][0].path.prefix) == "";
    ExpandTwice([r]);
  }

  /** Merged paths are never slashes only. */
  lemma MergedNotSlashesOnly<T>(rs: seq<Route<T>>)
    requires forall r | r in rs && r.path.Prefix? :: StartsWithSlash(r.path.prefix) && NoDoubleSlash(r.path.prefix)
    ensures !SlashesOnly(rs)
  {
    forall i | 0 <= i < |rs| && Expandable(rs, rs[i]) ensures TrimSlashes(rs[i].path.prefix) != "" {
      TrimNotEmpty(rs[i].path.prefix);
    }
  }

  lemma TrimNotEmpty(p: string)
    requires StartsWithSlash(p) && NoDoubleSlash(p) && p != "/"
    ensures TrimSlashes(p) != ""
  {
    assert |p| == 1 ==> p == "/";
    assert p[1] != '/';
    if TrimSlashes(p) == "" { TrimAllSlashes(p); }
  }

  lemma {:induction false} TrimAllSlashes(s: string)
    requires TrimSlashes(s) == ""
    ensures forall i | 0 <= i < |s| :: s[i] == '/'
  {
    if s != "" {
      TrimAllSlashes(s[..|s| - 1]);
    }
  }
}
