/**
 What header and query parameter conditions mean for a request: the conditions as the user wrote them, and the matches
 that they are merged to, as Envoy reads them.
 */
module ConditionMeaning {
  import opened Wrappers
  import opened MatchConditions
  import opened Conditions
  import Strings = Text

  /** How texts are compared: the form that ignores case, and whether a text matches a regular expression. */
  datatype Comparison = Comparison(fold: string -> string, matches: (string, string) -> bool)

  function Form(t: Comparison, ignoreCase: bool, x: string): string {
    if ignoreCase then t.fold(x) else x
  }

  predicate Equal(t: Comparison, ignoreCase: bool, x: string, y: string) {
    Form(t, ignoreCase, x) == Form(t, ignoreCase, y)
  }

  ghost predicate Contains(t: Comparison, ignoreCase: bool, x: string, y: string) {
    Strings.Occurs(Form(t, ignoreCase, x), Form(t, ignoreCase, y))
  }

  predicate StartsWith(t: Comparison, ignoreCase: bool, x: string, y: string) {
    Form(t, ignoreCase, x) <= Form(t, ignoreCase, y)
  }

  predicate EndsWith(t: Comparison, ignoreCase: bool, x: string, y: string) {
    var a, b := Form(t, ignoreCase, x), Form(t, ignoreCase, y);
    |a| <= |b| && b[|b| - |a|..] == a
  }

  // ---------- Headers ----------

  /** Envoy's reading of a match on a header with this value, if the request has the header at all. A missing header
      meets no match but an inverted one on its presence, unless it is to be treated as empty. */
  ghost predicate MatchHolds(t: Comparison, m: HeaderMatch, v: Option<string>) {
    if v.None? && !(m.invert && m.treatMissingAsEmpty) then m.matchType.HeaderPresent? && m.invert
    else
      var x := if v.Some? then v.value else "";
      var holds := match m.matchType
                   case HeaderPresent => true
                   case HeaderExact => Equal(t, m.ignoreCase, m.value, x)
                   case HeaderContains => Contains(t, m.ignoreCase, m.value, x)
                   case HeaderRegex => t.matches(m.value, x);
      holds != m.invert
  }

  /** A condition asks for nothing. */
  predicate Blank(c: HeaderCondition) {
    && !c.present && !c.notPresent && c.contains == "" && c.notContains == ""
    && c.exact == "" && c.notExact == "" && c.regex == ""
  }

  /** What a condition asks for; the first field that is set decides. */
  ghost predicate Asks(t: Comparison, c: HeaderCondition, v: Option<string>) {
    if c.present then v.Some?
    else if c.notPresent then v.None?
    else if c.contains != "" then v.Some? && Contains(t, c.ignoreCase, c.contains, v.value)
    else if c.notContains != "" then
      if v.Some? then !Contains(t, c.ignoreCase, c.notContains, v.value)
      else c.treatMissingAsEmpty && !Contains(t, c.ignoreCase, c.notContains, "")
    else if c.exact != "" then v.Some? && Equal(t, c.ignoreCase, c.exact, v.value)
    else if c.notExact != "" then
      if v.Some? then !Equal(t, c.ignoreCase, c.notExact, v.value)
      else c.treatMissingAsEmpty && !Equal(t, c.ignoreCase, c.notExact, "")
    else v.Some? && t.matches(c.regex, v.value)
  }

  /** The match that a condition is converted to is on the same header and means the same. */
  lemma HeaderMeaning(t: Comparison, c: HeaderCondition, v: Option<string>)
    ensures HeaderMatchOf(c).None? <==> Blank(c)
    ensures !Blank(c) ==>
              HeaderMatchOf(c).value.name == c.name && (MatchHolds(t, HeaderMatchOf(c).value, v) <==> Asks(t, c, v))
    ensures !Blank(c) && HeaderMatchOf(c).value.treatMissingAsEmpty ==>
              HeaderMatchOf(c).value.invert && c.treatMissingAsEmpty
    ensures var m := HeaderMatchOf(c);
            m.Some? && (m.value.matchType.HeaderPresent? || m.value.matchType.HeaderRegex?) ==>
              && !m.value.ignoreCase && !m.value.treatMissingAsEmpty
              && (m.value.matchType.HeaderPresent? ==> m.value.value == "")
  {
  }

  /** A request has at most one value for each header. */
  type Fields = string -> Option<string>

  ghost predicate AllMatch(t: Comparison, ms: seq<HeaderMatch>, fields: Fields) {
    forall i | 0 <= i < |ms| :: MatchHolds(t, ms[i], fields(ms[i].name))
  }

  ghost predicate MeetsHeader(t: Comparison, c: MatchCondition, fields: Fields) {
    c.header.None? || Blank(c.header.value) || Asks(t, c.header.value, fields(c.header.value.name))
  }

  /** A request meets the merged header matches exactly if it meets the header condition of every condition on the
      chain. */
  lemma {:induction false} MergedHeadersMean(t: Comparison, conds: seq<MatchCondition>, fields: Fields)
    ensures AllMatch(t, MergedHeaders(conds), fields) <==>
            forall i | 0 <= i < |conds| :: MeetsHeader(t, conds[i], fields)
  {
    hide MatchHolds, Asks, HeaderMatchOf, Blank;
    if conds != [] {
      var init, c := conds[..|conds| - 1], conds[|conds| - 1];
      MergedHeadersMean(t, init, fields);
      assert forall i | 0 <= i < |init| :: init[i] == conds[i];
      OneHeader(t, c, fields);
      AllMatchAppend(t, MergedHeaders(init), HeaderMatches(c), fields);
    }
  }

  lemma OneHeader(t: Comparison, c: MatchCondition, fields: Fields)
    ensures AllMatch(t, HeaderMatches(c), fields) <==> MeetsHeader(t, c, fields)
  {
    hide MatchHolds, Asks, HeaderMatchOf, Blank;
    if c.header.Some? {
      HeaderMeaning(t, c.header.value, fields(c.header.value.name));
      if HeaderMatchOf(c.header.value).Some? {
        assert HeaderMatches(c)[0] == HeaderMatchOf(c.header.value).value;
      }
    }
  }

  lemma AllMatchAppend(t: Comparison, a: seq<HeaderMatch>, b: seq<HeaderMatch>, fields: Fields)
    ensures AllMatch(t, a + b, fields) <==> AllMatch(t, a, fields) && AllMatch(t, b, fields)
  {
    hide MatchHolds;
    assert forall i | 0 <= i < |a| :: (a + b)[i] == a[i];
    assert forall i | 0 <= i < |b| :: (a + b)[|a| + i] == b[i];
  }

  // ---------- Query parameters ----------

  ghost predicate QueryHolds(t: Comparison, m: QueryMatch, v: Option<string>) {
    && v.Some?
    && match m.matchType
       case QueryPresent => true
       case QueryExact => Equal(t, m.ignoreCase, m.value, v.value)
       case QueryPrefix => StartsWith(t, m.ignoreCase, m.value, v.value)
       case QuerySuffix => EndsWith(t, m.ignoreCase, m.value, v.value)
       case QueryContains => Contains(t, m.ignoreCase, m.value, v.value)
       case QueryRegex => t.matches(m.value, v.value)
  }

  predicate BlankQuery(c: QueryCondition) {
    c.exact == "" && c.prefix == "" && c.suffix == "" && c.regex == "" && c.contains == "" && !c.present
  }

  ghost predicate AsksQuery(t: Comparison, c: QueryCondition, v: Option<string>) {
    && v.Some?
    && if c.exact != "" then Equal(t, c.ignoreCase, c.exact, v.value)
       else if c.prefix != "" then StartsWith(t, c.ignoreCase, c.prefix, v.value)
       else if c.suffix != "" then EndsWith(t, c.ignoreCase, c.suffix, v.value)
       else if c.regex != "" then t.matches(c.regex, v.value)
       else if c.contains != "" then Contains(t, c.ignoreCase, c.contains, v.value)
       else true
  }

  /** The same for conditions on query parameters. */
  lemma QueryMeaning(t: Comparison, c: QueryCondition, v: Option<string>)
    ensures QueryMatchOf(c).None? <==> BlankQuery(c)
    ensures !BlankQuery(c) ==>
              QueryMatchOf(c).value.name == c.name && (QueryHolds(t, QueryMatchOf(c).value, v) <==> AsksQuery(t, c, v))
    ensures var m := QueryMatchOf(c);
            m.Some? && (m.value.matchType.QueryPresent? || m.value.matchType.QueryRegex?) ==>
              !m.value.ignoreCase && (m.value.matchType.QueryPresent? ==> m.value.value == "")
  {
  }

  ghost predicate AllQueriesMatch(t: Comparison, ms: seq<QueryMatch>, fields: Fields) {
    forall i | 0 <= i < |ms| :: QueryHolds(t, ms[i], fields(ms[i].name))
  }

  ghost predicate MeetsQuery(t: Comparison, c: MatchCondition, fields: Fields) {
    c.query.None? || BlankQuery(c.query.value) || AsksQuery(t, c.query.value, fields(c.query.value.name))
  }

  /** A request meets the merged query parameter matches exactly if it meets the query parameter condition of every
      condition on the chain. */
  lemma {:induction false} MergedQueriesMean(t: Comparison, conds: seq<MatchCondition>, fields: Fields)
    ensures AllQueriesMatch(t, MergedQueries(conds), fields) <==>
            forall i | 0 <= i < |conds| :: MeetsQuery(t, conds[i], fields)
  {
    hide QueryHolds, AsksQuery, QueryMatchOf, BlankQuery;
    if conds != [] {
      var init, c := conds[..|conds| - 1], conds[|conds| - 1];
      MergedQueriesMean(t, init, fields);
      assert forall i | 0 <= i < |init| :: init[i] == conds[i];
      OneQuery(t, c, fields);
      AllQueriesAppend(t, MergedQueries(init), QueryMatches(c), fields);
    }
  }

  lemma OneQuery(t: Comparison, c: MatchCondition, fields: Fields)
    ensures AllQueriesMatch(t, QueryMatches(c), fields) <==> MeetsQuery(t, c, fields)
  {
    hide QueryHolds, AsksQuery, QueryMatchOf, BlankQuery;
    if c.query.Some? {
      QueryMeaning(t, c.query.value, fields(c.query.value.name));
      if QueryMatchOf(c.query.value).Some? {
        assert QueryMatches(c)[0] == QueryMatchOf(c.query.value).value;
      }
    }
  }

  lemma AllQueriesAppend(t: Comparison, a: seq<QueryMatch>, b: seq<QueryMatch>, fields: Fields)
    ensures AllQueriesMatch(t, a + b, fields) <==> AllQueriesMatch(t, a, fields) && AllQueriesMatch(t, b, fields)
  {
    hide QueryHolds;
    assert forall i | 0 <= i < |a| :: (a + b)[i] == a[i];
    assert forall i | 0 <= i < |b| :: (a + b)[|a| + i] == b[i];
  }
}
