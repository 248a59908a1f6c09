/**
 The order in which routes are handed to Envoy.

 Envoy takes the first route that matches a request, so the sort decides which route wins. The
 comparison is a cascade of branches whose last stage, the item-by-item comparison of conditions, does
 not stop on "greater"; what the cascade decides before that stage is a lexicographic order.
 */
module RouteOrder {
  import opened MatchConditions
  import Sorting
  import StableSort
  import Text

  // ---------- Comparing header and query parameter conditions ----------

  predicate HeaderValueLess(a: HeaderMatch, b: HeaderMatch) {
    var cmp := Text.Compare(a.value, b.value);
    if cmp == -1 then true
    else if cmp == 1 then false
    else if a.invert != b.invert then !a.invert
    else false
  }

  predicate HeaderLess(a: HeaderMatch, b: HeaderMatch) {
    var cmp := Text.Compare(a.name, b.name);
    if cmp == -1 then true
    else if cmp == 1 then false
    else
      match (a.matchType, b.matchType)
      case (HeaderExact, HeaderExact) => HeaderValueLess(a, b)
      case (HeaderExact, _) => true
      case (HeaderRegex, HeaderRegex) => HeaderValueLess(a, b)
      case (HeaderRegex, HeaderContains) => true
      case (HeaderRegex, HeaderPresent) => true
      case (HeaderContains, HeaderContains) => HeaderValueLess(a, b)
      case (HeaderContains, HeaderPresent) => true
      case (HeaderPresent, HeaderPresent) => if a.invert != b.invert then !a.invert else false
      case _ => false
  }

  predicate QueryValueLess(a: QueryMatch, b: QueryMatch) {
    var cmp := Text.Compare(a.value, b.value);
    if cmp == -1 then true
    else if cmp == 1 then false
    else if a.ignoreCase != b.ignoreCase then !a.ignoreCase
    else false
  }

  predicate QueryLess(a: QueryMatch, b: QueryMatch) {
    var cmp := Text.Compare(a.name, b.name);
    if cmp == -1 then true
    else if cmp == 1 then false
    else
      match (a.matchType, b.matchType)
      case (QueryExact, QueryExact) => QueryValueLess(a, b)
      case (QueryExact, _) => true
      case (QueryRegex, QueryRegex) => QueryValueLess(a, b)
      case (QueryRegex, QueryExact) => false
      case (QueryRegex, _) => true
      case (QueryPrefix, QueryPrefix) => QueryValueLess(a, b)
      case (QueryPrefix, QuerySuffix) => true
      case (QueryPrefix, QueryContains) => true
      case (QueryPrefix, QueryPresent) => true
      case (QuerySuffix, QuerySuffix) => QueryValueLess(a, b)
      case (QuerySuffix, QueryContains) => true
      case (QuerySuffix, QueryPresent) => true
      case (QueryContains, QueryContains) => QueryValueLess(a, b)
      case (QueryContains, QueryPresent) => true
      case _ => false
  }

  /** What the two condition comparators compare: a name, a rank by specificity, a value, a flag. */
  datatype ConditionKey = ConditionKey(name: string, rank: int, value: string, flag: bool)

  predicate ConditionKeyLess(a: ConditionKey, b: ConditionKey) {
    if a.name != b.name then Text.Less(a.name, b.name)
    else if a.rank != b.rank then a.rank < b.rank
    else if a.value != b.value then Text.Less(a.value, b.value)
    else !a.flag && b.flag
  }

  function HeaderKey(h: HeaderMatch): ConditionKey {
    match h.matchType
    case HeaderExact => ConditionKey(h.name, 0, h.value, h.invert)
    case HeaderRegex => ConditionKey(h.name, 1, h.value, h.invert)
    case HeaderContains => ConditionKey(h.name, 2, h.value, h.invert)
    case HeaderPresent => ConditionKey(h.name, 3, "", h.invert)
  }

  function QueryKey(q: QueryMatch): ConditionKey {
    match q.matchType
    case QueryExact => ConditionKey(q.name, 0, q.value, q.ignoreCase)
    case QueryRegex => ConditionKey(q.name, 1, q.value, q.ignoreCase)
    case QueryPrefix => ConditionKey(q.name, 2, q.value, q.ignoreCase)
    case QuerySuffix => ConditionKey(q.name, 3, q.value, q.ignoreCase)
    case QueryContains => ConditionKey(q.name, 4, q.value, q.ignoreCase)
    case QueryPresent => ConditionKey(q.name, 5, "", false)
  }

  lemma HeaderLessIsLexicographic(a: HeaderMatch, b: HeaderMatch)
    ensures HeaderLess(a, b) <==> ConditionKeyLess(HeaderKey(a), HeaderKey(b))
  {
    hide Text.Compare;
    Text.CompareEqual(a.name, b.name);
    Text.CompareEqual(a.value, b.value);
  }

  lemma QueryLessIsLexicographic(a: QueryMatch, b: QueryMatch)
    ensures QueryLess(a, b) <==> ConditionKeyLess(QueryKey(a), QueryKey(b))
  {
    hide Text.Compare;
    Text.CompareEqual(a.name, b.name);
    Text.CompareEqual(a.value, b.value);
  }

  /** The key order is strict and total; the comparators are therefore strict weak orders, and two
      conditions are equivalent for them exactly when their keys are equal. */
  lemma ConditionKeyTotal(a: ConditionKey, b: ConditionKey)
    ensures ConditionKeyLess(a, b) || ConditionKeyLess(b, a) || a == b
    ensures !(ConditionKeyLess(a, b) && ConditionKeyLess(b, a)) && !ConditionKeyLess(a, a)
  {
    Text.LessIsTotal(a.name, b.name);
    Text.LessIsTotal(a.value, b.value);
  }

  lemma ConditionKeyTransitive(a: ConditionKey, b: ConditionKey, c: ConditionKey)
    requires ConditionKeyLess(a, b) && ConditionKeyLess(b, c)
    ensures ConditionKeyLess(a, c)
  {
    Text.LessIsTotal(a.name, b.name);
    Text.LessIsTotal(a.value, b.value);
    if Text.Less(a.name, b.name) && Text.Less(b.name, c.name) { Text.CompareTransitive(a.name, b.name, c.name); }
    if Text.Less(a.value, b.value) && Text.Less(b.value, c.value) { Text.CompareTransitive(a.value, b.value, c.value); }
    Text.LessIsTotal(a.name, c.name);
    Text.LessIsTotal(a.value, c.value);
  }

  /** Both comparators are strict weak orders: irreflexive, transitive, and so is equivalence. */
  lemma HeaderLessIsStrictWeak(a: HeaderMatch, b: HeaderMatch, c: HeaderMatch)
    ensures !HeaderLess(a, a)
    ensures HeaderLess(a, b) && HeaderLess(b, c) ==> HeaderLess(a, c)
    ensures !HeaderLess(a, b) && !HeaderLess(b, a) && !HeaderLess(b, c) && !HeaderLess(c, b) ==>
              !HeaderLess(a, c) && !HeaderLess(c, a)
  {
    HeaderLessIsLexicographic(a, a);
    HeaderLessIsLexicographic(a, b);
    HeaderLessIsLexicographic(b, a);
    HeaderLessIsLexicographic(b, c);
    HeaderLessIsLexicographic(c, b);
    HeaderLessIsLexicographic(a, c);
    HeaderLessIsLexicographic(c, a);
    ConditionKeysOrdered(HeaderKey(a), HeaderKey(b), HeaderKey(c));
  }

  lemma QueryLessIsStrictWeak(a: QueryMatch, b: QueryMatch, c: QueryMatch)
    ensures !QueryLess(a, a)
    ensures QueryLess(a, b) && QueryLess(b, c) ==> QueryLess(a, c)
    ensures !QueryLess(a, b) && !QueryLess(b, a) && !QueryLess(b, c) && !QueryLess(c, b) ==>
              !QueryLess(a, c) && !QueryLess(c, a)
  {
    QueryLessIsLexicographic(a, a);
    QueryLessIsLexicographic(a, b);
    QueryLessIsLexicographic(b, a);
    QueryLessIsLexicographic(b, c);
    QueryLessIsLexicographic(c, b);
    QueryLessIsLexicographic(a, c);
    QueryLessIsLexicographic(c, a);
    ConditionKeysOrdered(QueryKey(a), QueryKey(b), QueryKey(c));
  }

  lemma ConditionKeysOrdered(a: ConditionKey, b: ConditionKey, c: ConditionKey)
    ensures !ConditionKeyLess(a, a)
    ensures ConditionKeyLess(a, b) && ConditionKeyLess(b, c) ==> ConditionKeyLess(a, c)
    ensures !ConditionKeyLess(a, b) && !ConditionKeyLess(b, a) ==> a == b
    ensures !ConditionKeyLess(b, c) && !ConditionKeyLess(c, b) ==> b == c
  {
    ConditionKeyTotal(a, b);
    ConditionKeyTotal(b, c);
    if ConditionKeyLess(a, b) && ConditionKeyLess(b, c) {
      ConditionKeyTransitive(a, b, c);
    }
  }

  // ---------- Comparing routes ----------

  datatype Route = Route(
    path: PathMatch,
    headers: seq<HeaderMatch>,
    queries: seq<QueryMatch>,
    priority: int)

  predicate HasMethod(headers: seq<HeaderMatch>) {
    exists i | 0 <= i < |headers| :: headers[i].name == ":method"
  }

  /** The header conditions other than a match on the HTTP method. */
  function WithoutMethod(headers: seq<HeaderMatch>): seq<HeaderMatch> {
    if headers == [] then []
    else
      var last, before := headers[|headers| - 1], WithoutMethod(headers[..|headers| - 1]);
      if last.name == ":method" then before else before + [last]
  }

  /** Some item of `a` sorts before the item of `b` at the same place. */
  predicate SomeHeaderLess(a: seq<HeaderMatch>, b: seq<HeaderMatch>)
    requires |a| == |b|
  {
    exists i | 0 <= i < |a| :: HeaderLess(a[i], b[i])
  }

  predicate SomeQueryLess(a: seq<QueryMatch>, b: seq<QueryMatch>)
    requires |a| == |b|
  {
    exists i | 0 <= i < |a| :: QueryLess(a[i], b[i])
  }

  predicate ConditionsLess(a: Route, b: Route) {
    var ah, bh := WithoutMethod(a.headers), WithoutMethod(b.headers);
    if HasMethod(a.headers) != HasMethod(b.headers) then HasMethod(a.headers)
    else if |ah| != |bh| then |ah| > |bh|
    else if |a.queries| != |b.queries| then |a.queries| > |b.queries|
    else if a.priority != b.priority then a.priority < b.priority
    else SomeHeaderLess(ah, bh) || SomeQueryLess(a.queries, b.queries)
  }

  predicate RouteLess(a: Route, b: Route) {
    match a.path
    case Prefix(p, segment) =>
      if !b.path.Prefix? then false
      else if |p| != |b.path.prefix| then |p| > |b.path.prefix|
      else
        var cmp := Text.Compare(p, b.path.prefix);
        if cmp == 1 then true
        else if cmp == -1 then false
        else if segment == b.path.segment then ConditionsLess(a, b)
        else segment
    case Regex(r) =>
      (match b.path
       case Regex(q) =>
         if |r| != |q| then |r| > |q|
         else
           var cmp := Text.Compare(r, q);
           if cmp == 1 then true
           else if cmp == -1 then false
           else ConditionsLess(a, b)
       case Prefix(_, _) => true
       case Exact(_) => false)
    case Exact(p) =>
      (match b.path
       case Exact(q) =>
         var cmp := Text.Compare(p, q);
         if cmp == 1 then true
         else if cmp == -1 then false
         else ConditionsLess(a, b)
       case _ => true)
  }

  /** The slices that the comparison builds are the filtered conditions. */
  method SplitMethod(headers: seq<HeaderMatch>) returns (found: bool, others: seq<HeaderMatch>)
    ensures found == HasMethod(headers) && others == WithoutMethod(headers)
  {
    found, others := false, [];
    for i := 0 to |headers|
      invariant found == HasMethod(headers[..i]) && others == WithoutMethod(headers[..i])
    {
      assert headers[..i + 1][..i] == headers[..i];
      assert forall k | 0 <= k < i :: headers[..i + 1][k] == headers[..i][k];
      if headers[i].name == ":method" {
        assert headers[..i + 1][i].name == ":method";
        found := true;
      } else {
        others := others + [headers[i]];
      }
    }
    assert headers[..|headers|] == headers;
  }

  method CompareRoutesByMethodHeaderQueryParams(lhs: Route, rhs: Route) returns (less: bool)
    ensures less <==> ConditionsLess(lhs, rhs)
  {
    var lhsMethod, lhsHeaders := SplitMethod(lhs.headers);
    var rhsMethod, rhsHeaders := SplitMethod(rhs.headers);
    if lhsMethod != rhsMethod {
      return lhsMethod;
    }
    if |lhsHeaders| != |rhsHeaders| {
      return |lhsHeaders| > |rhsHeaders|;
    }
    if |lhs.queries| != |rhs.queries| {
      return |lhs.queries| > |rhs.queries|;
    }
    if lhs.priority != rhs.priority {
      return lhs.priority < rhs.priority;
    }
    for i := 0 to |lhsHeaders|
      invariant forall k | 0 <= k < i :: !HeaderLess(lhsHeaders[k], rhsHeaders[k])
    {
      if HeaderLess(lhsHeaders[i], rhsHeaders[i]) {
        return true;
      }
    }
    for i := 0 to |lhs.queries|
      invariant forall k | 0 <= k < i :: !QueryLess(lhs.queries[k], rhs.queries[k])
    {
      if QueryLess(lhs.queries[i], rhs.queries[i]) {
        return true;
      }
    }
    return false;
  }

  // ---------- What the order means ----------

  /** What the comparison looks at before the items of the condition lists. */
  datatype RouteKey = RouteKey(
    kind: int, length: int, text: string, segment: bool,
    hasMethod: bool, headers: nat, queries: nat, priority: int)

  function Key(r: Route): RouteKey {
    var h := |WithoutMethod(r.headers)|;
    match r.path
    case Exact(p) => RouteKey(0, 0, p, false, HasMethod(r.headers), h, |r.queries|, r.priority)
    case Regex(p) => RouteKey(1, |p|, p, false, HasMethod(r.headers), h, |r.queries|, r.priority)
    case Prefix(p, seg) => RouteKey(2, |p|, p, seg, HasMethod(r.headers), h, |r.queries|, r.priority)
  }

  lemma KeyTellsPath(a: Route, b: Route)
    requires Key(a) == Key(b)
    ensures a.path == b.path
  {
  }

  /** Exact before regex before prefix; then the longer and the greater path; then segment prefixes,
      a method match, more headers, more query parameters; then the lower priority number. */
  predicate KeyLess(a: RouteKey, b: RouteKey) {
    if a.kind != b.kind then a.kind < b.kind
    else if a.length != b.length then a.length > b.length
    else if a.text != b.text then Text.Less(b.text, a.text)
    else if a.segment != b.segment then a.segment
    else if a.hasMethod != b.hasMethod then a.hasMethod
    else if a.headers != b.headers then a.headers > b.headers
    else if a.queries != b.queries then a.queries > b.queries
    else a.priority < b.priority
  }

  lemma KeyTotal(a: RouteKey, b: RouteKey)
    ensures KeyLess(a, b) || KeyLess(b, a) || a == b
    ensures !(KeyLess(a, b) && KeyLess(b, a)) && !KeyLess(a, a)
  {
    Text.LessIsTotal(a.text, b.text);
  }

  lemma KeyTransitive(a: RouteKey, b: RouteKey, c: RouteKey)
    requires KeyLess(a, b) && KeyLess(b, c)
    ensures KeyLess(a, c)
  {
    Text.LessIsTotal(a.text, b.text);
    Text.LessIsTotal(a.text, c.text);
    if Text.Less(b.text, a.text) && Text.Less(c.text, b.text) { Text.CompareTransitive(c.text, b.text, a.text); }
  }

  /** Whenever the keys differ the comparison of routes is the lexicographic order on keys. */
  lemma RouteLessIsLexicographic(a: Route, b: Route)
    requires Key(a) != Key(b)
    ensures RouteLess(a, b) <==> KeyLess(Key(a), Key(b))
  {
    var ka, kb := Key(a), Key(b);
    Text.CompareEqual(ka.text, kb.text);
    Text.CompareFlip(ka.text, kb.text);
  }

  /** Some condition of `a` sorts before its counterpart in `b`. */
  predicate SomeItemLess(a: Route, b: Route)
    requires Key(a) == Key(b)
  {
    var ah, bh := WithoutMethod(a.headers), WithoutMethod(b.headers);
    || (exists i | 0 <= i < |ah| :: ConditionKeyLess(HeaderKey(ah[i]), HeaderKey(bh[i])))
    || (exists i | 0 <= i < |a.queries| :: ConditionKeyLess(QueryKey(a.queries[i]), QueryKey(b.queries[i])))
  }

  lemma SomeItemLessIff(a: Route, b: Route)
    requires Key(a) == Key(b)
    ensures SomeItemLess(a, b) <==>
            || SomeHeaderLess(WithoutMethod(a.headers), WithoutMethod(b.headers))
            || SomeQueryLess(a.queries, b.queries)
  {
    hide HeaderLess, QueryLess, ConditionKeyLess, HeaderKey, QueryKey;
    forall g, h ensures HeaderLess(g, h) <==> ConditionKeyLess(HeaderKey(g), HeaderKey(h)) {
      HeaderLessIsLexicographic(g, h);
    }
    forall p, q ensures QueryLess(p, q) <==> ConditionKeyLess(QueryKey(p), QueryKey(q)) {
      QueryLessIsLexicographic(p, q);
    }
  }

  /** The comparison is asymmetric except on routes with equal keys of which each holds an item that
      sorts before the other's: the item-by-item stage goes on after a "greater". */
  lemma AsymmetryCondition(a: Route, b: Route)
    ensures RouteLess(a, b) && RouteLess(b, a) <==>
            Key(a) == Key(b) && SomeItemLess(a, b) && SomeItemLess(b, a)
  {
    if Key(a) == Key(b) {
      EqualKeys(a, b);
      EqualKeys(b, a);
    } else {
      RouteLessIsLexicographic(a, b);
      RouteLessIsLexicographic(b, a);
      KeyTotal(Key(a), Key(b));
    }
  }

  /** Routes with equal keys are compared item by item. */
  lemma EqualKeys(a: Route, b: Route)
    requires Key(a) == Key(b)
    ensures RouteLess(a, b) <==> SomeItemLess(a, b)
  {
    SomeItemLessIff(a, b);
    hide SomeItemLess;
    Text.CompareEqual(Key(a).text, Key(b).text);
  }

  /** Two routes that sort before each other, with conditions that are sorted as they are when routes are
      compared. */
  lemma NotAsymmetric() returns (a: Route, b: Route)
    ensures RouteLess(a, b) && RouteLess(b, a)
    ensures a.headers == b.headers == [] && QueriesSorted(a.queries) && QueriesSorted(b.queries)
  {
    var q1, q2 := QueryMatch("a", "", QueryExact, false), QueryMatch("b", "", QueryExact, false);
    var q3, q4 := QueryMatch("c", "", QueryExact, false), QueryMatch("d", "", QueryExact, false);
    a := Route(Exact("/"), [], [q1, q4], 0);
    b := Route(Exact("/"), [], [q2, q3], 0);
    assert QueryLess(a.queries[0], b.queries[0]) && QueryLess(b.queries[1], a.queries[1]);
    assert QueryLess(q1, q4) && QueryLess(q2, q3);
  }

  predicate HeadersSorted(hs: seq<HeaderMatch>) {
    forall i, j | 0 <= i < j < |hs| :: !HeaderLess(hs[j], hs[i])
  }

  predicate QueriesSorted(qs: seq<QueryMatch>) {
    forall i, j | 0 <= i < j < |qs| :: !QueryLess(qs[j], qs[i])
  }

  // ---------- Most specific wins ----------

  predicate KeySorted(rs: seq<Route>) {
    forall i, j | 0 <= i < j < |rs| :: !KeyLess(Key(rs[j]), Key(rs[i]))
  }

  predicate NoAdjacentInversion(rs: seq<Route>) {
    forall i | 0 < i < |rs| :: !RouteLess(rs[i], rs[i - 1])
  }

  lemma NotKeyLessTransitive(a: RouteKey, b: RouteKey, c: RouteKey)
    requires !KeyLess(b, a) && !KeyLess(c, b)
    ensures !KeyLess(c, a)
  {
    KeyTotal(a, b);
    KeyTotal(b, c);
    if a != b && b != c { KeyTransitive(a, b, c); }
    KeyTotal(a, c);
  }

  /** Although the comparison is not a strict weak order, a list without adjacent inversions is sorted by key. */
  lemma {:induction false} AdjacentIsEnough(rs: seq<Route>)
    requires NoAdjacentInversion(rs)
    ensures KeySorted(rs)
  {
    if |rs| > 1 {
      var n := |rs| - 1;
      var init := rs[..n];
      AdjacentIsEnough(init);
      forall i | 0 <= i < n ensures !KeyLess(Key(rs[n]), Key(rs[i])) {
        NotInverted(rs[n - 1], rs[n]);
        if i < n - 1 {
          assert !KeyLess(Key(init[n - 1]), Key(init[i]));
          NotKeyLessTransitive(Key(rs[i]), Key(rs[n - 1]), Key(rs[n]));
        }
      }
      assert forall i, j | 0 <= i < j < n :: init[i] == rs[i] && init[j] == rs[j];
    }
  }

  lemma NotInverted(a: Route, b: Route)
    requires !RouteLess(b, a)
    ensures !KeyLess(Key(b), Key(a))
  {
    if Key(a) != Key(b) { RouteLessIsLexicographic(b, a); } else { KeyTotal(Key(a), Key(b)); }
  }

  /** A request, as far as route selection sees it: its path, which regexes match it, and which header and
      query conditions it meets. */
  datatype Request = Request(
    path: string,
    regexes: string -> bool,
    conditions: (seq<HeaderMatch>, seq<QueryMatch>) -> bool)

  predicate PathMatches(m: PathMatch, q: Request) {
    match m
    case Exact(p) => q.path == p
    case Regex(r) => q.regexes(r)
    case Prefix(p, segment) => p <= q.path && (segment ==> q.path == p || p + "/" <= q.path)
  }

  predicate Matches(r: Route, q: Request) {
    PathMatches(r.path, q) && q.conditions(r.headers, r.queries)
  }

  /** Envoy's choice: the first route that matches. */
  predicate Selected(rs: seq<Route>, q: Request, i: nat) {
    i < |rs| && Matches(rs[i], q) && forall k | 0 <= k < i :: !Matches(rs[k], q)
  }

  /** Route `j` is no more specific than route `i`: an exact match goes before a regex and a regex before a
      prefix, and of two prefixes the longer one does. */
  predicate NoMoreSpecific(rs: seq<Route>, j: nat, i: nat)
    requires i < |rs| && j < |rs|
  {
    && !KeyLess(Key(rs[j]), Key(rs[i]))
    && (rs[j].path.Exact? ==> rs[i].path.Exact?)
    && (rs[j].path.Regex? ==> !rs[i].path.Prefix?)
    && (rs[i].path.Prefix? ==> rs[j].path.Prefix? && |rs[j].path.prefix| <= |rs[i].path.prefix|)
  }

  lemma SelectedIsMostSpecific(rs: seq<Route>, q: Request, i: nat, j: nat)
    requires KeySorted(rs) && Selected(rs, q, i) && j < |rs| && Matches(rs[j], q)
    ensures NoMoreSpecific(rs, j, i)
    ensures rs[j].path.Exact? ==> rs[i].path == rs[j].path
    ensures rs[i].path.Prefix? ==> rs[j].path.prefix <= rs[i].path.prefix
  {
    assert i <= j;
    if i == j { KeyTotal(Key(rs[i]), Key(rs[i])); }
  }

  /** In a list without adjacent inversions, no route that matches the request is more specific than the one
      Envoy selects. */
  lemma MostSpecificWins(rs: seq<Route>, q: Request, i: nat, j: nat)
    requires NoAdjacentInversion(rs) && Selected(rs, q, i) && j < |rs| && Matches(rs[j], q)
    ensures NoMoreSpecific(rs, j, i)
    ensures rs[j].path.Exact? ==> rs[i].path == rs[j].path
    ensures rs[i].path.Prefix? ==> rs[j].path.prefix <= rs[i].path.prefix
  {
    AdjacentIsEnough(rs);
    SelectedIsMostSpecific(rs, q, i, j);
  }

  // ---------- Sorting with this comparison ----------

  predicate KeyLe(a: Route, b: Route) {
    !KeyLess(Key(b), Key(a))
  }

  lemma RouteBefore(a: Route, b: Route)
    requires RouteLess(a, b)
    ensures KeyLe(a, b)
  {
    KeyTotal(Key(a), Key(b));
    if Key(a) != Key(b) { RouteLessIsLexicographic(a, b); }
  }

  /** Although the comparison is not a strict weak order, it never contradicts the order of the keys. */
  lemma RouteLessAgrees()
    ensures StableSort.Agrees(RouteLess, KeyLe)
  {
    hide RouteLess, KeyLess;
    forall a, b ensures (RouteLess(a, b) ==> KeyLe(a, b)) && (!RouteLess(a, b) ==> KeyLe(b, a)) {
      if RouteLess(a, b) { RouteBefore(a, b); } else { NotInverted(b, a); }
    }
    forall a, b, c | KeyLe(a, b) && KeyLe(b, c) ensures KeyLe(a, c) {
      NotKeyLessTransitive(Key(a), Key(b), Key(c));
    }
  }

  predicate HeaderLe(a: HeaderMatch, b: HeaderMatch) {
    !HeaderLess(b, a)
  }

  predicate QueryLe(a: QueryMatch, b: QueryMatch) {
    !QueryLess(b, a)
  }

  lemma ConditionsAgree()
    ensures StableSort.Agrees(HeaderLess, HeaderLe) && StableSort.Agrees(QueryLess, QueryLe)
  {
    hide HeaderLess, QueryLess;
    forall a, b, c
      ensures (HeaderLess(a, b) ==> HeaderLe(a, b)) && (HeaderLe(a, b) && HeaderLe(b, c) ==> HeaderLe(a, c))
    {
      HeaderLessIsStrictWeak(a, b, a);
      HeaderLessIsStrictWeak(a, b, c);
      HeaderLessIsStrictWeak(c, a, b);
      HeaderLessIsStrictWeak(b, c, a);
    }
    forall a, b, c
      ensures (QueryLess(a, b) ==> QueryLe(a, b)) && (QueryLe(a, b) && QueryLe(b, c) ==> QueryLe(a, c))
    {
      QueryLessIsStrictWeak(a, b, a);
      QueryLessIsStrictWeak(a, b, c);
      QueryLessIsStrictWeak(c, a, b);
      QueryLessIsStrictWeak(b, c, a);
    }
  }

  /** The same route with its conditions sorted. */
  predicate Tidied(r: Route, t: Route) {
    && t.path == r.path && t.priority == r.priority
    && multiset(t.headers) == multiset(r.headers) && HeadersSorted(t.headers)
    && multiset(t.queries) == multiset(r.queries) && QueriesSorted(t.queries)
  }

  lemma {:induction false} WithoutMethodAppend(a: seq<HeaderMatch>, b: seq<HeaderMatch>)
    ensures |WithoutMethod(a + b)| == |WithoutMethod(a)| + |WithoutMethod(b)|
  {
    if b == [] {
      assert a + b == a;
    } else {
      assert (a + b)[..|a + b| - 1] == a + b[..|b| - 1];
      WithoutMethodAppend(a, b[..|b| - 1]);
    }
  }

  /** The order of the header conditions makes no difference to the key. */
  lemma {:induction false} MethodPermuted(a: seq<HeaderMatch>, b: seq<HeaderMatch>)
    requires multiset(a) == multiset(b)
    ensures |WithoutMethod(a)| == |WithoutMethod(b)|
  {
    if a == [] {
      Sorting.SameLength(a, b);
    } else {
      var j := Sorting.LastIn(a, b);
      MethodPermuted(a[..|a| - 1], Sorting.Without(b, j));
      MethodWithout(a, |a| - 1);
      MethodWithout(b, j);
      assert Sorting.Without(a, |a| - 1) == a[..|a| - 1];
    }
  }

  lemma MethodWithout(s: seq<HeaderMatch>, j: nat)
    requires j < |s|
    ensures |WithoutMethod(s)| == |WithoutMethod(Sorting.Without(s, j))| + if s[j].name == ":method" then 0 else 1
  {
    var a, b := s[..j], s[j + 1..];
    assert s == a + [s[j]] + b;
    WithoutMethodAppend(a, b);
    WithoutMethodAppend(a + [s[j]], b);
    WithoutMethodAppend(a, [s[j]]);
  }

  lemma HasMethodPermuted(a: seq<HeaderMatch>, b: seq<HeaderMatch>)
    requires multiset(a) == multiset(b) && HasMethod(a)
    ensures HasMethod(b)
  {
    var i :| 0 <= i < |a| && a[i].name == ":method";
    assert a[i] in multiset(b);
    var j :| 0 <= j < |b| && b[j] == a[i];
  }

  lemma TidiedKey(r: Route, t: Route)
    requires Tidied(r, t)
    ensures Key(t) == Key(r)
  {
    MethodPermuted(r.headers, t.headers);
    if HasMethod(r.headers) { HasMethodPermuted(r.headers, t.headers); }
    if HasMethod(t.headers) { HasMethodPermuted(t.headers, r.headers); }
    Sorting.SameLength(r.queries, t.queries);
  }

  /** Sorts the conditions of each route and then the routes: the result is sorted by key. */
  method SortRoutes(routes: seq<Route>) returns (sorted: seq<Route>, ghost tidied: seq<Route>)
    ensures KeySorted(sorted) && multiset(sorted) == multiset(tidied)
    ensures |tidied| == |routes| && forall i | 0 <= i < |routes| :: Tidied(routes[i], tidied[i])
  {
    hide HeaderLess, QueryLess, KeyLess, RouteLess;
    ConditionsAgree();
    RouteLessAgrees();
    var tidy := [];
    for i := 0 to |routes|
      invariant |tidy| == i && forall k | 0 <= k < i :: Tidied(routes[k], tidy[k])
    {
      var headers := StableSort.Stable(HeaderLess, HeaderLe, routes[i].headers);
      var queries := StableSort.Stable(QueryLess, QueryLe, routes[i].queries);
      tidy := tidy + [routes[i].(headers := headers, queries := queries)];
    }
    sorted := StableSort.Stable(RouteLess, KeyLe, tidy);
    tidied := tidy;
  }
}
