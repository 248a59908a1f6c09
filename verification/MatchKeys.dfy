/**
 The text under which a virtual host stores a route: its match conditions, spelled out and joined.
 */
module MatchKeys {
  import opened MatchConditions
  import Sorting
  import Text

  /** The conditions that a route is matched on. */
  datatype Match = Match(path: PathMatch, headers: seq<HeaderMatch>, queries: seq<QueryMatch>)

  /** `strings.Join` */
  function Join(parts: seq<string>, sep: char): string {
    if parts == [] then ""
    else if |parts| == 1 then parts[0]
    else Join(parts[..|parts| - 1], sep) + [sep] + parts[|parts| - 1]
  }

  function FormatBool(b: bool): string {
    if b then "true" else "false"
  }

  function PathText(m: PathMatch): string {
    match m
    case Exact(p) => "exact: " + p
    case Regex(r) => "regex: " + r
    case Prefix(p, segment) => "prefix: " + p + (if segment then " type: segment" else " type: string")
  }

  function HeaderTypeName(t: HeaderMatchType): string {
    match t
    case HeaderExact => "exact"
    case HeaderContains => "contains"
    case HeaderPresent => "present"
    case HeaderRegex => "regex"
  }

  function QueryTypeName(t: QueryMatchType): string {
    match t
    case QueryExact => "exact"
    case QueryPrefix => "prefix"
    case QuerySuffix => "suffix"
    case QueryRegex => "regex"
    case QueryContains => "contains"
    case QueryPresent => "present"
  }

  function HeaderFields(h: HeaderMatch): seq<string> {
    ["name=" + h.name, "value=" + h.value, "matchtype=", HeaderTypeName(h.matchType),
     "TreatMissingAsEmpty=", FormatBool(h.treatMissingAsEmpty), "invert=", FormatBool(h.invert),
     "ignorecase=", FormatBool(h.ignoreCase)]
  }

  function HeaderText(h: HeaderMatch): string {
    "header: " + Join(HeaderFields(h), '&')
  }

  function QueryFields(q: QueryMatch): seq<string> {
    ["name=" + q.name, "value=" + q.value, "matchtype=", QueryTypeName(q.matchType),
     "ignorecase=", FormatBool(q.ignoreCase)]
  }

  function QueryText(q: QueryMatch): string {
    "queryparam: " + Join(QueryFields(q), '&')
  }

  function HeaderTexts(hs: seq<HeaderMatch>): seq<string> {
    seq(|hs|, i requires 0 <= i < |hs| => HeaderText(hs[i]))
  }

  function QueryTexts(qs: seq<QueryMatch>): seq<string> {
    seq(|qs|, i requires 0 <= i < |qs| => QueryText(qs[i]))
  }

  function Key(m: Match): string {
    Join(Parts(m), ',')
  }

  function Parts(m: Match): seq<string> {
    [PathText(m.path)] + HeaderTexts(m.headers) + QueryTexts(m.queries)
  }

  method ConditionsToString(m: Match) returns (key: string)
    ensures key == Key(m)
  {
    var s := [PathText(m.path)];
    for i := 0 to |m.headers|
      invariant s == [PathText(m.path)] + HeaderTexts(m.headers)[..i]
    {
      assert HeaderTexts(m.headers)[..i + 1] == HeaderTexts(m.headers)[..i] + [HeaderText(m.headers[i])];
      s := s + [HeaderText(m.headers[i])];
    }
    assert HeaderTexts(m.headers)[..|m.headers|] == HeaderTexts(m.headers);
    for i := 0 to |m.queries|
      invariant s == [PathText(m.path)] + HeaderTexts(m.headers) + QueryTexts(m.queries)[..i]
    {
      assert QueryTexts(m.queries)[..i + 1] == QueryTexts(m.queries)[..i] + [QueryText(m.queries[i])];
      s := s + [QueryText(m.queries[i])];
    }
    assert QueryTexts(m.queries)[..|m.queries|] == QueryTexts(m.queries);
    return Join(s, ',');
  }

  // ---------- How conditions are spelled out ----------

  lemma {:induction false} JoinMore(parts: seq<string>, sep: char, last: string)
    requires parts != []
    ensures Join(parts + [last], sep) == Join(parts, sep) + [sep] + last
  {
    assert (parts + [last])[..|parts|] == parts;
  }

  lemma JoinFour(a: string, b: string, c: string, d: string)
    ensures Join([a, b, c, d], '&') == a + "&" + b + "&" + c + "&" + d
  {
    assert ['&'] == "&" && Join([a], '&') == a;
    JoinMore([a], '&', b);
    JoinMore([a, b], '&', c);
    JoinMore([a, b, c], '&', d);
    assert [a] + [b] == [a, b] && [a, b] + [c] == [a, b, c] && [a, b, c] + [d] == [a, b, c, d];
  }

  lemma JoinTwoMore(parts: seq<string>, c: string, d: string)
    requires parts != []
    ensures Join(parts + [c, d], '&') == Join(parts, '&') + "&" + c + "&" + d
  {
    assert ['&'] == "&";
    JoinMore(parts, '&', c);
    JoinMore(parts + [c], '&', d);
    assert parts + [c] + [d] == parts + [c, d];
  }

  function YesNo(b: bool): string {
    ["false", "true"][if b then 1 else 0]
  }

  /** The text of a header condition. */
  lemma HeaderSpelled(h: HeaderMatch, kind: string)
    requires match h.matchType
             case HeaderExact => kind == "exact"
             case HeaderContains => kind == "contains"
             case HeaderPresent => kind == "present"
             case HeaderRegex => kind == "regex"
    ensures HeaderText(h) ==
            "header: " + ("name=" + h.name + "&" + ("value=" + h.value) + "&" + "matchtype=" + "&" + kind
            + "&" + "TreatMissingAsEmpty=" + "&" + YesNo(h.treatMissingAsEmpty)
            + "&" + "invert=" + "&" + YesNo(h.invert) + "&" + "ignorecase=" + "&" + YesNo(h.ignoreCase))
  {
    hide Join;
    var a, f := ["name=" + h.name, "value=" + h.value, "matchtype=", kind], HeaderFields(h);
    JoinFour("name=" + h.name, "value=" + h.value, "matchtype=", kind);
    JoinTwoMore(a, "TreatMissingAsEmpty=", YesNo(h.treatMissingAsEmpty));
    var b := a + ["TreatMissingAsEmpty=", YesNo(h.treatMissingAsEmpty)];
    JoinTwoMore(b, "invert=", YesNo(h.invert));
    var c := b + ["invert=", YesNo(h.invert)];
    JoinTwoMore(c, "ignorecase=", YesNo(h.ignoreCase));
    assert f == c + ["ignorecase=", YesNo(h.ignoreCase)];
  }

  /** The text of a query parameter condition. */
  lemma QuerySpelled(q: QueryMatch, kind: string)
    requires match q.matchType
             case QueryExact => kind == "exact"
             case QueryPrefix => kind == "prefix"
             case QuerySuffix => kind == "suffix"
             case QueryRegex => kind == "regex"
             case QueryContains => kind == "contains"
             case QueryPresent => kind == "present"
    ensures QueryText(q) ==
            "queryparam: " + ("name=" + q.name + "&" + ("value=" + q.value) + "&" + "matchtype=" + "&" + kind
            + "&" + "ignorecase=" + "&" + YesNo(q.ignoreCase))
  {
    hide Join;
    var a := ["name=" + q.name, "value=" + q.value, "matchtype=", kind];
    JoinFour("name=" + q.name, "value=" + q.value, "matchtype=", kind);
    JoinTwoMore(a, "ignorecase=", YesNo(q.ignoreCase));
    assert QueryFields(q) == a + ["ignorecase=", YesNo(q.ignoreCase)];
  }

  // ---------- When two conditions share a text ----------

  predicate Free(s: string, c: char) {
    c !in s
  }

  /** The part after the last separator is determined. */
  lemma LastPart(a: string, x: string, b: string, y: string, sep: char)
    requires Free(x, sep) && Free(y, sep) && a + [sep] + x == b + [sep] + y
    ensures a == b && x == y
  {
    var s := a + [sep] + x;
    assert s == b + [sep] + y;
    assert s[|a|] == sep && s[|b|] == sep;
    assert s[|a| + 1..] == x && s[|b| + 1..] == y;
    assert |a| == |b|;
    assert s[..|a|] == a && s[..|b|] == b;
  }

  /** Parts that do not hold the separator can be read from the end. */
  lemma {:induction false} JoinFromEnd(a: seq<string>, b: seq<string>, sep: char, k: nat)
    requires 1 <= k <= |a| == |b| && Join(a, sep) == Join(b, sep)
    requires forall i | k <= i < |a| :: Free(a[i], sep) && Free(b[i], sep)
    ensures a[k..] == b[k..] && Join(a[..k], sep) == Join(b[..k], sep)
  {
    var n := |a| - 1;
    if k == |a| {
      assert a[..k] == a && b[..k] == b;
    } else {
      JoinLast(a, sep);
      JoinLast(b, sep);
      hide Join, Free;
      LastPart(Join(a[..n], sep), a[n], Join(b[..n], sep), b[n], sep);
      JoinFromEnd(a[..n], b[..n], sep, k);
      InitTail(a, k);
      InitTail(b, k);
    }
  }

  lemma {:induction false} JoinLast(parts: seq<string>, sep: char)
    requires |parts| > 1
    ensures Join(parts, sep) == Join(parts[..|parts| - 1], sep) + [sep] + parts[|parts| - 1]
  {
  }

  lemma InitTail(a: seq<string>, k: nat)
    requires k < |a|
    ensures var n := |a| - 1;
            a[k..] == a[..n][k..] + [a[n]] && a[..n][..k] == a[..k]
  {
  }

  /** What stands between a name and a value. */
  const VALUE_MARK := "&value="

  function Core(name: string, value: string): string {
    name + (VALUE_MARK + value)
  }

  lemma ValueMark()
    ensures |VALUE_MARK| == 7 && VALUE_MARK[0] == '&' && forall i | 0 < i < 7 :: VALUE_MARK[i] != '&'
  {
  }

  /** Two readings of one text: the longer name holds the mark, and so does the longer value. */
  lemma TwoReadings(n: string, v: string, m: string, w: string)
    requires Core(n, v) == Core(m, w) && |m| < |n|
    ensures Text.Occurs(VALUE_MARK, n) && Text.Occurs(VALUE_MARK, w)
  {
    var s := Core(n, v);
    ValueMark();
    hide VALUE_MARK;
    assert s[|m|..] == VALUE_MARK + w && s[|n|..] == VALUE_MARK + v;
    assert forall i | 0 <= i < 7 :: s[|m| + i] == VALUE_MARK[i];
    assert s[|n|] == s[|n|..][0] == '&';
    assert |n| >= |m| + 7;
    assert n[|m|..] == s[|m|..|n|] && VALUE_MARK <= n[|m|..];
    assert w[|n| - |m| - 7..] == s[|n|..] && VALUE_MARK <= w[|n| - |m| - 7..];
  }

  lemma CoreTold(n: string, v: string, m: string, w: string)
    requires Core(n, v) == Core(m, w) && !Text.Occurs(VALUE_MARK, n) && !Text.Occurs(VALUE_MARK, m)
    ensures n == m && v == w
  {
    if |m| < |n| { TwoReadings(n, v, m, w); }
    if |n| < |m| { TwoReadings(m, w, n, v); }
    SameSplit(n, v, m, w);
  }

  lemma SameSplit(n: string, v: string, m: string, w: string)
    requires Core(n, v) == Core(m, w) && |n| == |m|
    ensures n == m && v == w
  {
    var s := Core(n, v);
    assert s[..|n|] == n && s[..|n|] == m;
    assert s[|n| + |VALUE_MARK|..] == v && s[|n| + |VALUE_MARK|..] == w;
  }

  /** Another reading, if the name or the value holds the mark. */
  lemma OtherReading(n: string, v: string) returns (m: string, w: string)
    requires Text.Occurs(VALUE_MARK, n) || Text.Occurs(VALUE_MARK, v)
    ensures m != n && Core(m, w) == Core(n, v)
  {
    hide VALUE_MARK;
    ValueMark();
    if Text.Occurs(VALUE_MARK, n) {
      var a, b := Text.Around(VALUE_MARK, n);
      m, w := a, b + (VALUE_MARK + v);
      Regroup(a, VALUE_MARK, b, v);
      assert |m| < |n|;
    } else {
      var a, b := Text.Around(VALUE_MARK, v);
      m, w := n + (VALUE_MARK + a), b;
      Regroup(n, VALUE_MARK, a, b);
      assert |m| > |n|;
    }
  }

  lemma Regroup(a: string, mark: string, b: string, v: string)
    ensures (a + (mark + b)) + (mark + v) == a + (mark + (b + (mark + v)))
  {
  }

  lemma PathTextInjective(a: PathMatch, b: PathMatch)
    requires PathText(a) == PathText(b)
    ensures a == b
  {
    assert PathText(a)[0] == PathText(b)[0];
    match a
    case Exact(p) => assert PathText(a)[7..] == p && PathText(b)[7..] == b.path;
    case Regex(r) => assert PathText(a)[7..] == r && PathText(b)[7..] == b.regex;
    case Prefix(p, segment) =>
      var s := PathText(a);
      assert s[|s| - 1] == if segment then 't' else 'g';
      assert s[|s| - 1] == if b.segment then 't' else 'g';
      var n := if segment then 14 else 13;
      assert s[8..|s| - n] == p && s[8..|s| - n] == b.prefix;
  }

  lemma TypeNames(t: HeaderMatchType, u: QueryMatchType, b: bool, c: char)
    requires c == ',' || c == '&'
    ensures Free(HeaderTypeName(t), c) && Free(QueryTypeName(u), c) && Free(FormatBool(b), c)
  {
    assert Free("exact", c) && Free("contains", c) && Free("present", c);
    assert Free("regex", c) && Free("prefix", c) && Free("suffix", c);
    assert Free("true", c) && Free("false", c);
  }

  lemma FieldNames(c: char)
    requires c == ',' || c == '&'
    ensures Free("name=", c) && Free("value=", c) && Free("matchtype=", c)
  {
  }

  lemma FlagNames(c: char)
    requires c == ',' || c == '&'
    ensures Free("TreatMissingAsEmpty=", c) && Free("invert=", c) && Free("ignorecase=", c)
  {
  }

  lemma TypeNamesDiffer()
    ensures forall t, u :: HeaderTypeName(t) == HeaderTypeName(u) ==> t == u
    ensures forall t, u :: QueryTypeName(t) == QueryTypeName(u) ==> t == u
    ensures forall b, c :: FormatBool(b) == FormatBool(c) ==> b == c
  {
    assert "exact"[0] == 'e' && "contains"[0] == 'c' && "regex"[0] == 'r' && "suffix"[0] == 's';
    assert |"present"| == 7 && |"prefix"| == 6 && "present"[0] == 'p' && "prefix"[0] == 'p';
    assert "true"[0] == 't' && "false"[0] == 'f';
  }

  lemma HeaderTail(h: HeaderMatch, c: char)
    requires c == ',' || c == '&'
    ensures forall i | 2 <= i < 10 :: Free(HeaderFields(h)[i], c)
  {
    FieldNames(c);
    FlagNames(c);
    TypeNames(h.matchType, QueryExact, h.invert, c);
    TypeNames(h.matchType, QueryExact, h.ignoreCase, c);
    TypeNames(h.matchType, QueryExact, h.treatMissingAsEmpty, c);
  }

  lemma QueryTail(q: QueryMatch, c: char)
    requires c == ',' || c == '&'
    ensures forall i | 2 <= i < 6 :: Free(QueryFields(q)[i], c)
  {
    FieldNames(c);
    FlagNames(c);
    TypeNames(HeaderExact, q.matchType, q.ignoreCase, c);
  }

  lemma JoinTwo(name: string, value: string)
    ensures Join(["name=" + name, "value=" + value], '&') == "name=" + Core(name, value)
  {
    var parts := ["name=" + name, "value=" + value];
    assert parts[..1] == ["name=" + name] && ['&'] + "value=" == VALUE_MARK;
    assert "name=" + name + (['&'] + "value=") + value == "name=" + (name + (VALUE_MARK + value));
  }

  lemma JoinTwoTells(n: string, v: string, m: string, w: string)
    requires Join(["name=" + n, "value=" + v], '&') == Join(["name=" + m, "value=" + w], '&')
    ensures Core(n, v) == Core(m, w)
  {
    JoinTwo(n, v);
    JoinTwo(m, w);
    assert ("name=" + Core(n, v))[5..] == Core(n, v) && ("name=" + Core(m, w))[5..] == Core(m, w);
  }

  /** All of a header condition can be read off its text, except where the name ends. */
  lemma HeaderTextIs(a: HeaderMatch, b: HeaderMatch)
    ensures HeaderText(a) == HeaderText(b) <==>
            Core(a.name, a.value) == Core(b.name, b.value) && a == b.(name := a.name, value := a.value)
  {
    var fa, fb := HeaderFields(a), HeaderFields(b);
    hide Join, Core;
    assert HeaderText(a)[8..] == Join(fa, '&') && HeaderText(b)[8..] == Join(fb, '&');
    if HeaderText(a) == HeaderText(b) {
      HeaderTail(a, '&');
      HeaderTail(b, '&');
      JoinFromEnd(fa, fb, '&', 2);
      assert fa[..2] == ["name=" + a.name, "value=" + a.value] && fb[..2] == ["name=" + b.name, "value=" + b.value];
      JoinTwoTells(a.name, a.value, b.name, b.value);
      assert fa[3] == fa[2..][1] && fa[5] == fa[2..][3] && fa[7] == fa[2..][5] && fa[9] == fa[2..][7];
      assert fb[3] == fb[2..][1] && fb[5] == fb[2..][3] && fb[7] == fb[2..][5] && fb[9] == fb[2..][7];
      TypeNamesDiffer();
    }
    if Core(a.name, a.value) == Core(b.name, b.value) && a == b.(name := a.name, value := a.value) {
      JoinTwo(a.name, a.value);
      JoinTwo(b.name, b.value);
      assert fa[..2] == ["name=" + a.name, "value=" + a.value] && fb[..2] == ["name=" + b.name, "value=" + b.value];
      assert fa[2..] == fb[2..];
      JoinSame(fa, fb, '&', 2);
    }
  }

  lemma {:induction false} JoinSame(a: seq<string>, b: seq<string>, sep: char, k: nat)
    requires 1 <= k <= |a| == |b| && a[k..] == b[k..] && Join(a[..k], sep) == Join(b[..k], sep)
    ensures Join(a, sep) == Join(b, sep)
  {
    if k == |a| {
      assert a[..k] == a && b[..k] == b;
    } else {
      var n := |a| - 1;
      assert a[n] == a[k..][n - k] && b[n] == b[k..][n - k];
      assert a[..n][..k] == a[..k] && b[..n][..k] == b[..k];
      assert a[..n][k..] == a[k..][..n - k] && b[..n][k..] == b[k..][..n - k];
      JoinSame(a[..n], b[..n], sep, k);
    }
  }

  lemma QueryTextIs(a: QueryMatch, b: QueryMatch)
    ensures QueryText(a) == QueryText(b) <==>
            Core(a.name, a.value) == Core(b.name, b.value) && a == b.(name := a.name, value := a.value)
  {
    var fa, fb := QueryFields(a), QueryFields(b);
    hide Join, Core;
    assert QueryText(a)[12..] == Join(fa, '&') && QueryText(b)[12..] == Join(fb, '&');
    if QueryText(a) == QueryText(b) {
      QueryTail(a, '&');
      QueryTail(b, '&');
      JoinFromEnd(fa, fb, '&', 2);
      assert fa[..2] == ["name=" + a.name, "value=" + a.value] && fb[..2] == ["name=" + b.name, "value=" + b.value];
      JoinTwoTells(a.name, a.value, b.name, b.value);
      assert fa[3] == fa[2..][1] && fa[5] == fa[2..][3] && fb[3] == fb[2..][1] && fb[5] == fb[2..][3];
      TypeNamesDiffer();
    }
    if Core(a.name, a.value) == Core(b.name, b.value) && a == b.(name := a.name, value := a.value) {
      JoinTwo(a.name, a.value);
      JoinTwo(b.name, b.value);
      assert fa[..2] == ["name=" + a.name, "value=" + a.value] && fb[..2] == ["name=" + b.name, "value=" + b.value];
      assert fa[2..] == fb[2..];
      JoinSame(fa, fb, '&', 2);
    }
  }

  /** Another header condition has the same text exactly when the mark occurs in the name or in the value. */
  lemma HeaderTextShared(h: HeaderMatch)
    ensures (exists g :: g != h && HeaderText(g) == HeaderText(h)) <==>
            Text.Occurs(VALUE_MARK, h.name) || Text.Occurs(VALUE_MARK, h.value)
  {
    hide HeaderText, Core, Text.Occurs;
    if g :| g != h && HeaderText(g) == HeaderText(h) {
      HeaderTextIs(g, h);
      CoreShared(h.name, h.value, g.name, g.value);
    }
    if Text.Occurs(VALUE_MARK, h.name) || Text.Occurs(VALUE_MARK, h.value) {
      var m, w := OtherReading(h.name, h.value);
      HeaderTextIs(h.(name := m, value := w), h);
    }
  }

  /** The same for query parameter conditions. */
  lemma QueryTextShared(q: QueryMatch)
    ensures (exists p :: p != q && QueryText(p) == QueryText(q)) <==>
            Text.Occurs(VALUE_MARK, q.name) || Text.Occurs(VALUE_MARK, q.value)
  {
    hide QueryText, Core, Text.Occurs;
    if p :| p != q && QueryText(p) == QueryText(q) {
      QueryTextIs(p, q);
      CoreShared(q.name, q.value, p.name, p.value);
    }
    if Text.Occurs(VALUE_MARK, q.name) || Text.Occurs(VALUE_MARK, q.value) {
      var m, w := OtherReading(q.name, q.value);
      QueryTextIs(q.(name := m, value := w), q);
    }
  }

  lemma CoreShared(n: string, v: string, m: string, w: string)
    requires Core(n, v) == Core(m, w) && (n != m || v != w)
    ensures Text.Occurs(VALUE_MARK, n) || Text.Occurs(VALUE_MARK, v)
  {
    if |m| < |n| {
      TwoReadings(n, v, m, w);
    } else if |n| < |m| {
      TwoReadings(m, w, n, v);
    } else {
      SameSplit(n, v, m, w);
    }
  }

  // ---------- When two matches share a key ----------

  /** Text that cannot be taken for the end of one condition and the start of another. */
  ghost predicate Unmarked(s: string) {
    !Text.Occurs(",header: ", s) && !Text.Occurs(",queryparam: ", s)
  }

  predicate IsCondition(s: string) {
    "header: " <= s || "queryparam: " <= s
  }

  ghost predicate Legible(name: string, value: string) {
    Unmarked(name) && Unmarked(value) && !Text.Occurs(VALUE_MARK, name)
  }

  ghost predicate LegibleConditions(m: Match) {
    && (forall i | 0 <= i < |m.headers| :: Legible(m.headers[i].name, m.headers[i].value))
    && (forall i | 0 <= i < |m.queries| :: Legible(m.queries[i].name, m.queries[i].value))
  }

  /** No text of the match can be taken for a condition, and no name for a name and a value. */
  ghost predicate LegibleMatch(m: Match) {
    Unmarked(PathText(m.path)) && LegibleConditions(m)
  }

  lemma MarkFollows(a: string, x: string)
    requires IsCondition(x)
    ensures !Unmarked(a + [','] + x)
  {
    var s := a + [','] + x;
    assert s[|a|..] == [','] + x;
    assert ",header: " == [','] + "header: " && ",queryparam: " == [','] + "queryparam: ";
    if "header: " <= x {
      assert ",header: " <= s[|a|..];
    } else {
      assert ",queryparam: " <= s[|a|..];
    }
  }

  /** The last condition is determined. */
  lemma LastCondition(a: string, x: string, b: string, y: string)
    requires IsCondition(x) && Unmarked(x) && IsCondition(y) && Unmarked(y) && a + [','] + x == b + [','] + y
    ensures a == b && x == y
  {
    hide Unmarked, IsCondition;
    if |a| < |b| {
      NotShorter(a, x, b, y);
    } else if |b| < |a| {
      NotShorter(b, y, a, x);
    } else {
      var s := a + [','] + x;
      assert s[..|a|] == a && s[..|a|] == b && s[|a| + 1..] == x && s[|a| + 1..] == y;
    }
  }

  lemma NotShorter(a: string, x: string, b: string, y: string)
    requires IsCondition(y) && Unmarked(x) && a + [','] + x == b + [','] + y
    ensures |a| >= |b|
  {
    hide Unmarked, IsCondition;
    if |a| < |b| {
      var s, k := a + [','] + x, |b| - |a| - 1;
      assert s[|a| + 1..] == x && s == b + [','] + y;
      assert x[..k] == s[|a| + 1..|b|] && x[k..] == s[|b|..] == [','] + y;
      assert x == x[..k] + [','] + y;
      MarkFollows(x[..k], y);
    }
  }

  /** After the first part there are conditions only, and nothing in them can be taken for another one. */
  ghost predicate Conditional(parts: seq<string>) {
    parts != [] && forall i | 0 < i < |parts| :: IsCondition(parts[i]) && Unmarked(parts[i])
  }

  /** Joining conditions loses nothing, if the first parts are unmarked or the number of parts is known. */
  lemma {:induction false} JoinInjective(a: seq<string>, b: seq<string>)
    requires Conditional(a) && Conditional(b) && Join(a, ',') == Join(b, ',')
    requires |a| == |b| || (Unmarked(a[0]) && Unmarked(b[0]))
    ensures a == b
  {
    hide IsCondition, Unmarked;
    var m, n := |a| - 1, |b| - 1;
    if m > 0 && n > 0 {
      LastCondition(Join(a[..m], ','), a[m], Join(b[..n], ','), b[n]);
      JoinInjective(a[..m], b[..n]);
      assert a == a[..m] + [a[m]] && b == b[..n] + [b[n]];
    } else if m > 0 {
      MarkFollows(Join(a[..m], ','), a[m]);
    } else if n > 0 {
      MarkFollows(Join(b[..n], ','), b[n]);
    }
  }

  // ---------- The texts of legible conditions are unmarked ----------

  predicate IsMark(mark: string) {
    mark != "" && mark[0] == ',' && '&' !in mark
  }

  lemma Marks()
    ensures IsMark(",header: ") && IsMark(",queryparam: ")
  {
  }

  lemma OccursAround(mark: string, a: string, x: string)
    requires IsMark(mark) && Text.Occurs(mark, a + ['&'] + x)
    ensures Text.Occurs(mark, a) || Text.Occurs(mark, x)
  {
    var s := a + ['&'] + x;
    var i: nat :| i <= |s| && mark <= s[i..];
    assert s[|a|] == '&' && s[i..i + |mark|] == mark;
    assert forall k | i <= k < i + |mark| :: s[k] == mark[k - i] != '&';
    if i + |mark| <= |a| {
      assert a[i..i + |mark|] == s[i..i + |mark|] && mark <= a[i..];
    } else {
      assert x[i - |a| - 1..] == s[i..];
    }
  }

  lemma OccursAfter(mark: string, p: string, x: string)
    requires IsMark(mark) && Free(p, ',') && Text.Occurs(mark, p + x)
    ensures Text.Occurs(mark, x)
  {
    var s := p + x;
    var i: nat :| i <= |s| && mark <= s[i..];
    assert mark[0] == s[i..][0] == s[i];
    assert x[i - |p|..] == s[i..];
  }

  lemma UnmarkedAround(a: string, x: string)
    requires Unmarked(a) && Unmarked(x)
    ensures Unmarked(a + ['&'] + x)
  {
    Marks();
    hide IsMark, Text.Occurs;
    if Text.Occurs(",header: ", a + ['&'] + x) { OccursAround(",header: ", a, x); }
    if Text.Occurs(",queryparam: ", a + ['&'] + x) { OccursAround(",queryparam: ", a, x); }
  }

  lemma UnmarkedAfter(p: string, x: string)
    requires Free(p, ',') && Unmarked(x)
    ensures Unmarked(p + x)
  {
    Marks();
    hide IsMark, Text.Occurs;
    if Text.Occurs(",header: ", p + x) { OccursAfter(",header: ", p, x); }
    if Text.Occurs(",queryparam: ", p + x) { OccursAfter(",queryparam: ", p, x); }
  }

  lemma FreeIsUnmarked(s: string)
    requires Free(s, ',')
    ensures Unmarked(s)
  {
    Marks();
    Text.FirstOccurs(",header: ", s);
    Text.FirstOccurs(",queryparam: ", s);
  }

  lemma {:induction false} JoinUnmarked(parts: seq<string>)
    requires parts != [] && forall i | 0 <= i < |parts| :: Unmarked(parts[i])
    ensures Unmarked(Join(parts, '&'))
  {
    hide Unmarked;
    if |parts| > 1 {
      JoinUnmarked(parts[..|parts| - 1]);
      UnmarkedAround(Join(parts[..|parts| - 1], '&'), parts[|parts| - 1]);
    }
  }

  lemma NameAndValueUnmarked(name: string, value: string)
    requires Unmarked(name) && Unmarked(value)
    ensures Unmarked("name=" + name) && Unmarked("value=" + value)
  {
    hide Unmarked;
    FieldNames(',');
    UnmarkedAfter("name=", name);
    UnmarkedAfter("value=", value);
  }

  lemma HeaderTextUnmarked(h: HeaderMatch)
    requires Unmarked(h.name) && Unmarked(h.value)
    ensures IsCondition(HeaderText(h)) && Unmarked(HeaderText(h))
  {
    hide Unmarked, Join;
    var parts := HeaderFields(h);
    NameAndValueUnmarked(h.name, h.value);
    HeaderTail(h, ',');
    forall i | 0 <= i < |parts| ensures Unmarked(parts[i]) {
      if i >= 2 { FreeIsUnmarked(parts[i]); }
    }
    JoinUnmarked(parts);
    UnmarkedAfter("header: ", Join(parts, '&'));
  }

  lemma QueryTextUnmarked(q: QueryMatch)
    requires Unmarked(q.name) && Unmarked(q.value)
    ensures IsCondition(QueryText(q)) && Unmarked(QueryText(q))
  {
    hide Unmarked, Join;
    var parts := QueryFields(q);
    NameAndValueUnmarked(q.name, q.value);
    QueryTail(q, ',');
    forall i | 0 <= i < |parts| ensures Unmarked(parts[i]) {
      if i >= 2 { FreeIsUnmarked(parts[i]); }
    }
    JoinUnmarked(parts);
    UnmarkedAfter("queryparam: ", Join(parts, '&'));
  }

  lemma PartsConditional(m: Match)
    requires LegibleConditions(m)
    ensures Conditional(Parts(m))
  {
    hide Unmarked, IsCondition, HeaderText, QueryText, PathText, Text.Occurs;
    forall i | 0 < i < |Parts(m)| ensures IsCondition(Parts(m)[i]) && Unmarked(Parts(m)[i]) {
      if i <= |m.headers| {
        HeaderTextUnmarked(m.headers[i - 1]);
      } else {
        QueryTextUnmarked(m.queries[i - 1 - |m.headers|]);
      }
    }
  }

  // ---------- Keys ----------

  /** The first character tells a header condition from a query condition. */
  lemma FirstLetters(m: Match, i: nat)
    requires 0 < i < |Parts(m)|
    ensures Parts(m)[i] != "" && (Parts(m)[i][0] == 'h' <==> i <= |m.headers|)
  {
    hide Join, PathText;
    if i <= |m.headers| {
      assert Parts(m)[i] == HeaderText(m.headers[i - 1]);
    } else {
      assert Parts(m)[i] == QueryText(m.queries[i - 1 - |m.headers|]);
    }
  }

  lemma SameHeaderCount(a: Match, b: Match)
    requires Parts(a) == Parts(b)
    ensures |a.headers| == |b.headers|
  {
    hide Join, PathText;
    var m, n := |a.headers|, |b.headers|;
    if m < n {
      FirstLetters(a, m + 1);
      FirstLetters(b, m + 1);
    } else if n < m {
      FirstLetters(a, n + 1);
      FirstLetters(b, n + 1);
    }
  }

  lemma PartsTell(a: Match, b: Match)
    requires LegibleConditions(a) && LegibleConditions(b) && Parts(a) == Parts(b)
    ensures a == b
  {
    hide Join, PathText, HeaderText, QueryText, Unmarked, Text.Occurs, Core;
    SameHeaderCount(a, b);
    assert Parts(a)[0] == Parts(b)[0];
    PathTextInjective(a.path, b.path);
    var n := |a.headers|;
    forall i | 0 <= i < n ensures a.headers[i] == b.headers[i] {
      var g, h := a.headers[i], b.headers[i];
      assert Parts(a)[i + 1] == Parts(b)[i + 1];
      HeaderTextIs(g, h);
      CoreTold(g.name, g.value, h.name, h.value);
    }
    forall i | 0 <= i < |a.queries| ensures a.queries[i] == b.queries[i] {
      var p, q := a.queries[i], b.queries[i];
      assert Parts(a)[i + 1 + n] == Parts(b)[i + 1 + n];
      QueryTextIs(p, q);
      CoreTold(p.name, p.value, q.name, q.value);
    }
  }

  /** Legible matches share a key exactly when they are the same, in the same order. */
  lemma KeysShared(a: Match, b: Match)
    requires LegibleMatch(a) && LegibleMatch(b)
    ensures Key(a) == Key(b) <==> a == b
  {
    hide Join, PathText, LegibleConditions, Unmarked;
    if Key(a) == Key(b) {
      PartsConditional(a);
      PartsConditional(b);
      JoinInjective(Parts(a), Parts(b));
      PartsTell(a, b);
    }
  }

  /** The order of the conditions counts, on any path: the same conditions in another order have another key. */
  lemma OrderCounts(a: Match, b: Match)
    requires a.path == b.path && LegibleConditions(a)
    requires multiset(a.headers) == multiset(b.headers) && multiset(a.queries) == multiset(b.queries)
    ensures Key(a) == Key(b) <==> a == b
  {
    hide Join, PathText, LegibleConditions, Unmarked;
    if Key(a) == Key(b) {
      LegiblePermuted(a, b);
      Sorting.SameLength(a.headers, b.headers);
      Sorting.SameLength(a.queries, b.queries);
      PartsConditional(a);
      PartsConditional(b);
      JoinInjective(Parts(a), Parts(b));
      PartsTell(a, b);
    }
  }

  lemma LegiblePermuted(a: Match, b: Match)
    requires multiset(a.headers) == multiset(b.headers) && multiset(a.queries) == multiset(b.queries)
    requires LegibleConditions(a)
    ensures LegibleConditions(b)
  {
    hide Legible;
    forall i | 0 <= i < |b.headers| ensures Legible(b.headers[i].name, b.headers[i].value) {
      assert b.headers[i] in multiset(a.headers);
      var j :| 0 <= j < |a.headers| && a.headers[j] == b.headers[i];
    }
    forall i | 0 <= i < |b.queries| ensures Legible(b.queries[i].name, b.queries[i].value) {
      assert b.queries[i] in multiset(a.queries);
      var j :| 0 <= j < |a.queries| && a.queries[j] == b.queries[i];
    }
  }

  lemma {:induction false} JoinStarts(parts: seq<string>, sep: char)
    requires parts != []
    ensures parts[0] <= Join(parts, sep)
  {
    if |parts| > 1 {
      JoinStarts(parts[..|parts| - 1], sep);
    }
  }

  /** A path can stand for a path and conditions: every match with conditions on an exact path or on a regular
      expression shares its key with a match without conditions. */
  lemma CommaCollides(m: Match) returns (n: Match)
    requires !m.path.Prefix? && (m.headers != [] || m.queries != [])
    ensures n != m && n.headers == [] && n.queries == [] && Key(n) == Key(m)
  {
    JoinStarts(Parts(m), ',');
    hide Join;
    var rest := Key(m)[|PathText(m.path)|..];
    assert Key(m) == PathText(m.path) + rest;
    var path := PathAbsorbs(m.path, rest);
    n := Match(path, [], []);
    assert Parts(n) == [PathText(path)];
    JoinOne(PathText(path), ',');
  }

  lemma JoinOne(s: string, sep: char)
    ensures Join([s], sep) == s
  {
  }

  lemma PathAbsorbs(path: PathMatch, rest: string) returns (longer: PathMatch)
    requires !path.Prefix?
    ensures PathText(longer) == PathText(path) + rest
  {
    if path.Exact? {
      longer := Exact(path.path + rest);
      assert "exact: " + (path.path + rest) == "exact: " + path.path + rest;
    } else {
      longer := Regex(path.regex + rest);
      assert "regex: " + (path.regex + rest) == "regex: " + path.regex + rest;
    }
  }
}
