/**
 Detection of includes that repeat the conditions of an earlier include of the same proxy.

 The check keeps, per merged path, the conditions seen so far in sorted form and compares item by
 item; sorting is what makes the comparison independent of the order conditions are written in.
 */
module IncludeDuplicates {
  import opened MatchConditions
  import opened Conditions
  import Sorting
  import Text

  // ---------- The two orders ----------

  /** Position of a match type among the type names in alphabetical order. */
  function HeaderTypeRank(t: HeaderMatchType): int {
    match t
    case HeaderContains => 0
    case HeaderExact => 1
    case HeaderPresent => 2
    case HeaderRegex => 3
  }

  function QueryTypeRank(t: QueryMatchType): int {
    match t
    case QueryContains => 0
    case QueryExact => 1
    case QueryPrefix => 2
    case QueryPresent => 3
    case QueryRegex => 4
    case QuerySuffix => 5
  }

  predicate HeaderBefore(a: HeaderMatch, b: HeaderMatch) {
    if a.matchType != b.matchType then HeaderTypeRank(a.matchType) < HeaderTypeRank(b.matchType)
    else if a.ignoreCase != b.ignoreCase then a.ignoreCase
    else if a.invert != b.invert then a.invert
    else if a.treatMissingAsEmpty != b.treatMissingAsEmpty then a.treatMissingAsEmpty
    else if a.name != b.name then Text.Less(a.name, b.name)
    else if a.value != b.value then Text.Less(a.value, b.value)
    else false
  }

  predicate QueryBefore(a: QueryMatch, b: QueryMatch) {
    if a.matchType != b.matchType then QueryTypeRank(a.matchType) < QueryTypeRank(b.matchType)
    else if a.ignoreCase != b.ignoreCase then a.ignoreCase
    else if a.name != b.name then Text.Less(a.name, b.name)
    else if a.value != b.value then Text.Less(a.value, b.value)
    else false
  }

  lemma HeaderBeforeTotal(a: HeaderMatch, b: HeaderMatch)
    ensures HeaderBefore(a, b) ==> !HeaderBefore(b, a)
    ensures a != b ==> HeaderBefore(a, b) || HeaderBefore(b, a)
  {
    Text.LessIsTotal(a.name, b.name);
    Text.LessIsTotal(a.value, b.value);
  }

  lemma HeaderBeforeTransitive(a: HeaderMatch, b: HeaderMatch, c: HeaderMatch)
    requires HeaderBefore(a, b) && HeaderBefore(b, c)
    ensures HeaderBefore(a, c)
  {
    if Text.Less(a.name, b.name) && Text.Less(b.name, c.name) { Text.CompareTransitive(a.name, b.name, c.name); }
    if Text.Less(a.value, b.value) && Text.Less(b.value, c.value) { Text.CompareTransitive(a.value, b.value, c.value); }
    Text.LessIsTotal(a.name, c.name);
    Text.LessIsTotal(a.value, c.value);
    Text.LessIsTotal(a.name, b.name);
    Text.LessIsTotal(a.value, b.value);
  }

  lemma QueryBeforeTotal(a: QueryMatch, b: QueryMatch)
    ensures QueryBefore(a, b) ==> !QueryBefore(b, a)
    ensures a != b ==> QueryBefore(a, b) || QueryBefore(b, a)
  {
    Text.LessIsTotal(a.name, b.name);
    Text.LessIsTotal(a.value, b.value);
  }

  lemma QueryBeforeTransitive(a: QueryMatch, b: QueryMatch, c: QueryMatch)
    requires QueryBefore(a, b) && QueryBefore(b, c)
    ensures QueryBefore(a, c)
  {
    if Text.Less(a.name, b.name) && Text.Less(b.name, c.name) { Text.CompareTransitive(a.name, b.name, c.name); }
    if Text.Less(a.value, b.value) && Text.Less(b.value, c.value) { Text.CompareTransitive(a.value, b.value, c.value); }
    Text.LessIsTotal(a.name, c.name);
    Text.LessIsTotal(a.value, c.value);
    Text.LessIsTotal(a.name, b.name);
    Text.LessIsTotal(a.value, b.value);
  }

  lemma OrdersAreStrictWeak()
    ensures Sorting.StrictWeak(HeaderBefore) && Sorting.StrictWeak(QueryBefore)
  {
    forall a, b ensures HeaderBefore(a, b) ==> !HeaderBefore(b, a) { HeaderBeforeTotal(a, b); }
    forall a, b ensures QueryBefore(a, b) ==> !QueryBefore(b, a) { QueryBeforeTotal(a, b); }
    forall a, b, c | !HeaderBefore(b, a) && !HeaderBefore(c, b) ensures !HeaderBefore(c, a) {
      HeaderBeforeTotal(a, b);
      HeaderBeforeTotal(b, c);
      HeaderBeforeTotal(a, c);
      if HeaderBefore(a, b) && HeaderBefore(b, c) { HeaderBeforeTransitive(a, b, c); }
    }
    forall a, b, c | !QueryBefore(b, a) && !QueryBefore(c, b) ensures !QueryBefore(c, a) {
      QueryBeforeTotal(a, b);
      QueryBeforeTotal(b, c);
      QueryBeforeTotal(a, c);
      if QueryBefore(a, b) && QueryBefore(b, c) { QueryBeforeTransitive(a, b, c); }
    }
  }

  // ---------- Canonical form ----------

  datatype Aggregate = Aggregate(headers: seq<HeaderMatch>, queries: seq<QueryMatch>)

  /** The conditions of an include other than its path, in sorted form. */
  function Canonical(conds: seq<MatchCondition>): Aggregate {
    Aggregate(Sorting.Sort(HeaderBefore, MergedHeaders(conds)), Sorting.Sort(QueryBefore, MergedQueries(conds)))
  }

  predicate SameConditions(a: seq<MatchCondition>, b: seq<MatchCondition>) {
    && multiset(MergedHeaders(a)) == multiset(MergedHeaders(b))
    && multiset(MergedQueries(a)) == multiset(MergedQueries(b))
  }

  /** Two includes have the same sorted form exactly when they have the same conditions, each the same
      number of times, in whatever order. */
  lemma CanonicalIs(a: seq<MatchCondition>, b: seq<MatchCondition>)
    ensures Canonical(a) == Canonical(b) <==> SameConditions(a, b)
  {
    OrdersAreStrictWeak();
    var ha, hb := MergedHeaders(a), MergedHeaders(b);
    var qa, qb := MergedQueries(a), MergedQueries(b);
    Sorting.SortIsSorted(HeaderBefore, ha);
    Sorting.SortIsSorted(HeaderBefore, hb);
    Sorting.SortIsSorted(QueryBefore, qa);
    Sorting.SortIsSorted(QueryBefore, qb);
    if SameConditions(a, b) {
      forall x, y | x != y ensures HeaderBefore(x, y) || HeaderBefore(y, x) { HeaderBeforeTotal(x, y); }
      forall x, y | x != y ensures QueryBefore(x, y) || QueryBefore(y, x) { QueryBeforeTotal(x, y); }
      Sorting.SortedIsUnique(HeaderBefore, Canonical(a).headers, Canonical(b).headers);
      Sorting.SortedIsUnique(QueryBefore, Canonical(a).queries, Canonical(b).queries);
    }
  }

  // ---------- The check ----------

  type Seen = map<string, seq<Aggregate>>

  /** A lone prefix `/`, or no condition at all: never a duplicate. */
  predicate Bare(conds: seq<MatchCondition>) {
    MergedPath(conds) == Prefix("/", false) && MergedHeaders(conds) == [] && MergedQueries(conds) == []
  }

  /** Two includes match the same requests, as far as this check is concerned. */
  predicate SameMatch(a: seq<MatchCondition>, b: seq<MatchCondition>) {
    MergedPath(a) == MergedPath(b) && SameConditions(a, b)
  }

  /** An include repeats one of the includes checked before it. */
  predicate Duplicate(conds: seq<MatchCondition>, earlier: seq<seq<MatchCondition>>) {
    !Bare(conds) && exists i | 0 <= i < |earlier| :: SameMatch(earlier[i], conds)
  }

  /** The header and query parameter conditions agree, each the same number of times. */
  predicate SameTests(a: seq<MatchCondition>, b: seq<MatchCondition>) {
    && (forall h | h in MergedHeaders(a) + MergedHeaders(b) ::
          multiset(MergedHeaders(a))[h] == multiset(MergedHeaders(b))[h])
    && (forall q | q in MergedQueries(a) + MergedQueries(b) ::
          multiset(MergedQueries(a))[q] == multiset(MergedQueries(b))[q])
  }

  /** An include is a duplicate exactly if an earlier one has its path and its header and query parameter conditions,
      in whatever order, and these are not just the path `/`. */
  lemma DuplicateIff(conds: seq<MatchCondition>, earlier: seq<seq<MatchCondition>>)
    ensures Duplicate(conds, earlier) <==>
            && (MergedPath(conds) != Prefix("/", false) || MergedHeaders(conds) != [] || MergedQueries(conds) != [])
            && exists e | e in earlier :: MergedPath(e) == MergedPath(conds) && SameTests(e, conds)
  {
    hide Conditions.MergedPath, Conditions.MergedHeaders, Conditions.MergedQueries;
    forall e ensures SameTests(e, conds) <==> SameConditions(e, conds) {
      SameCounts(MergedHeaders(e), MergedHeaders(conds));
      SameCounts(MergedQueries(e), MergedQueries(conds));
    }
    hide SameTests, SameConditions;
    if i :| 0 <= i < |earlier| && SameMatch(earlier[i], conds) { assert earlier[i] in earlier; }
    if e :| e in earlier && MergedPath(e) == MergedPath(conds) && SameTests(e, conds) {
      var i :| 0 <= i < |earlier| && earlier[i] == e;
      assert SameMatch(earlier[i], conds);
    }
  }

  lemma SameCounts<T>(a: seq<T>, b: seq<T>)
    ensures multiset(a) == multiset(b) <==> forall x | x in a + b :: multiset(a)[x] == multiset(b)[x]
  {
    if forall x | x in a + b :: multiset(a)[x] == multiset(b)[x] {
      forall x ensures multiset(a)[x] == multiset(b)[x] {
        if x !in a + b { assert x !in multiset(a) && x !in multiset(b); }
      }
    }
  }

  predicate InSeen(seen: Seen, path: string, ag: Aggregate) {
    path in seen && ag in seen[path]
  }

  predicate RecordedBy(earlier: seq<seq<MatchCondition>>, path: string, ag: Aggregate) {
    exists i | 0 <= i < |earlier| ::
      !Bare(earlier[i]) && MergedPath(earlier[i]) == Prefix(path, false) && Canonical(earlier[i]) == ag
  }

  /** `seen` holds exactly the canonical forms of the includes checked so far. */
  ghost predicate Records(seen: Seen, earlier: seq<seq<MatchCondition>>) {
    forall path, ag :: InSeen(seen, path, ag) <==> RecordedBy(earlier, path, ag)
  }

  lemma EmptyRecords()
    ensures Records(map[], [])
  {
  }

  lemma RecordedAppend(earlier: seq<seq<MatchCondition>>, conds: seq<MatchCondition>, path: string, ag: Aggregate)
    ensures RecordedBy(earlier + [conds], path, ag) <==>
            RecordedBy(earlier, path, ag)
            || (!Bare(conds) && MergedPath(conds) == Prefix(path, false) && Canonical(conds) == ag)
  {
    var more := earlier + [conds];
    if RecordedBy(earlier, path, ag) {
      var i :| 0 <= i < |earlier| && !Bare(earlier[i]) && MergedPath(earlier[i]) == Prefix(path, false)
               && Canonical(earlier[i]) == ag;
      assert more[i] == earlier[i];
    }
    assert more[|earlier|] == conds;
  }

  /** An include that is not recorded leaves the record exact. */
  lemma NotRecorded(seen: Seen, earlier: seq<seq<MatchCondition>>, conds: seq<MatchCondition>)
    requires Records(seen, earlier) && (Bare(conds) || !MergedPath(conds).Prefix?)
    ensures Records(seen, earlier + [conds])
  {
    forall path, ag ensures InSeen(seen, path, ag) <==> RecordedBy(earlier + [conds], path, ag) {
      RecordedAppend(earlier, conds, path, ag);
    }
  }

  function Add(seen: Seen, path: string, ag: Aggregate): Seen {
    seen[path := (if path in seen then seen[path] else []) + [ag]]
  }

  /** Recording an include, or finding it recorded, leaves the record exact. */
  lemma Recording(seen: Seen, earlier: seq<seq<MatchCondition>>, conds: seq<MatchCondition>, path: string)
    requires Records(seen, earlier) && !Bare(conds) && MergedPath(conds) == Prefix(path, false)
    ensures Records(Add(seen, path, Canonical(conds)), earlier + [conds])
    ensures InSeen(seen, path, Canonical(conds)) ==> Records(seen, earlier + [conds])
  {
    hide Bare, Canonical, Conditions.MergedPath, RecordedBy, InSeen, Add;
    forall p, ag ensures
        && (InSeen(Add(seen, path, Canonical(conds)), p, ag) <==> RecordedBy(earlier + [conds], p, ag))
        && (InSeen(seen, path, Canonical(conds)) ==> (InSeen(seen, p, ag) <==> RecordedBy(earlier + [conds], p, ag)))
    {
      RecordedAppend(earlier, conds, p, ag);
      AddSeen(seen, path, Canonical(conds), p, ag);
    }
  }

  lemma AddSeen(seen: Seen, path: string, added: Aggregate, p: string, ag: Aggregate)
    ensures InSeen(Add(seen, path, added), p, ag) <==> InSeen(seen, p, ag) || (p == path && ag == added)
  {
  }

  lemma EmptyMultiset<T>(a: seq<T>, b: seq<T>)
    requires multiset(a) == multiset(b)
    ensures a == [] <==> b == []
  {
    assert |multiset(a)| == |multiset(b)|;
  }

  /** The canonical form is found exactly when an earlier include matches the same requests. */
  lemma FoundMeansDuplicate(seen: Seen, earlier: seq<seq<MatchCondition>>, conds: seq<MatchCondition>, path: string)
    requires Records(seen, earlier) && !Bare(conds) && MergedPath(conds) == Prefix(path, false)
    ensures InSeen(seen, path, Canonical(conds)) <==> Duplicate(conds, earlier)
  {
    assert InSeen(seen, path, Canonical(conds)) <==> RecordedBy(earlier, path, Canonical(conds));
    forall i | 0 <= i < |earlier|
      ensures !Bare(earlier[i]) && MergedPath(earlier[i]) == Prefix(path, false) && Canonical(earlier[i]) == Canonical(conds)
         <==> SameMatch(earlier[i], conds)
    {
      CanonicalIs(earlier[i], conds);
      if SameMatch(earlier[i], conds) {
        EmptyMultiset(MergedHeaders(earlier[i]), MergedHeaders(conds));
        EmptyMultiset(MergedQueries(earlier[i]), MergedQueries(conds));
      }
    }
  }

  method SameAggregate(ag: Aggregate, headers: seq<HeaderMatch>, queries: seq<QueryMatch>) returns (same: bool)
    ensures same <==> ag == Aggregate(headers, queries)
  {
    if |ag.headers| != |headers| || |ag.queries| != |queries| {
      return false;
    }
    for i := 0 to |ag.headers|
      invariant ag.headers[..i] == headers[..i]
    {
      if ag.headers[i] != headers[i] {
        return false;
      }
    }
    for i := 0 to |ag.queries|
      invariant ag.queries[..i] == queries[..i]
    {
      if ag.queries[i] != queries[i] {
        return false;
      }
    }
    assert ag.headers == ag.headers[..|headers|] && headers == headers[..|headers|];
    assert ag.queries == ag.queries[..|queries|] && queries == queries[..|queries|];
    return true;
  }

  /** Look for sorted conditions under a path, and save them when they are new. */
  method FindOrSave(path: string, headers: seq<HeaderMatch>, queries: seq<QueryMatch>, seen: Seen)
    returns (found: bool, seen': Seen)
    ensures found <==> InSeen(seen, path, Aggregate(headers, queries))
    ensures seen' == if found then seen else Add(seen, path, Aggregate(headers, queries))
  {
    if path !in seen {
      assert [] + [Aggregate(headers, queries)] == [Aggregate(headers, queries)];
      return false, seen[path := [Aggregate(headers, queries)]];
    }
    var condAggregates := seen[path];
    for i := 0 to |condAggregates|
      invariant forall k | 0 <= k < i :: condAggregates[k] != Aggregate(headers, queries)
    {
      var same := SameAggregate(condAggregates[i], headers, queries);
      if same {
        return true, seen;
      }
    }
    return false, seen[path := condAggregates + [Aggregate(headers, queries)]];
  }

  /** `identical` is true exactly for an include that repeats an earlier checked one. */
  method IncludeMatchConditionsIdentical(conds: seq<MatchCondition>, seen: Seen,
                                         ghost earlier: seq<seq<MatchCondition>>)
    returns (identical: bool, seen': Seen)
    requires Records(seen, earlier)
    ensures identical <==> !MergedPath(conds).Prefix? || Duplicate(conds, earlier)
    ensures Records(seen', earlier + [conds])
  {
    var merged := MergePathMatchConditions(conds);
    if !merged.Prefix? {
      NotRecorded(seen, earlier, conds);
      return true, seen;
    }
    var path := merged.prefix;
    var headers := MergeHeaderMatchConditions(conds);
    var queries := MergeQueryParamMatchConditions(conds);
    if path == "/" && |headers| == 0 && |queries| == 0 {
      NotRecorded(seen, earlier, conds);
      return false, seen;
    }
    headers := Sorting.Sort(HeaderBefore, headers);
    queries := Sorting.Sort(QueryBefore, queries);
    FoundMeansDuplicate(seen, earlier, conds, path);
    Recording(seen, earlier, conds, path);
    identical, seen' := FindOrSave(path, headers, queries, seen);
  }
}
