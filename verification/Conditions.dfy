/**
 Merging and validating the match conditions of an include chain.

 A route's path is the concatenation of the path conditions on the way from the root proxy to the
 route, with runs of slashes collapsed.
 */
module Conditions {
  import Strings = Text
  import opened Wrappers
  import opened MatchConditions

  datatype HeaderCondition = HeaderCondition(
    name: string,
    present: bool,
    notPresent: bool,
    contains: string,
    notContains: string,
    exact: string,
    notExact: string,
    regex: string,
    ignoreCase: bool,
    treatMissingAsEmpty: bool)

  datatype QueryCondition = QueryCondition(
    name: string,
    exact: string,
    prefix: string,
    suffix: string,
    regex: string,
    contains: string,
    ignoreCase: bool,
    present: bool)

  datatype MatchCondition = MatchCondition(
    prefix: string,
    exact: string,
    regex: string,
    header: Option<HeaderCondition>,
    query: Option<QueryCondition>)

  // ---------- Paths ----------

  /** The path text a condition contributes. */
  function PathText(c: MatchCondition): string {
    if c.prefix != "" then c.prefix else if c.exact != "" then c.exact else c.regex
  }

  function JoinedPath(conds: seq<MatchCondition>): string {
    if conds == [] then "" else JoinedPath(conds[..|conds| - 1]) + PathText(conds[|conds| - 1])
  }

  predicate UsesRegex(c: MatchCondition) {
    c.prefix == "" && c.exact == "" && c.regex != ""
  }

  /** Every run of slashes becomes one slash. */
  function Collapse(s: string): string {
    if |s| < 2 then s
    else if s[0] == '/' && s[1] == '/' then Collapse(s[1..])
    else [s[0]] + Collapse(s[1..])
  }

  function MergedPath(conds: seq<MatchCondition>): PathMatch {
    var text := Collapse(JoinedPath(conds));
    if text == "" || conds == [] then Prefix("/", false)
    else if AnyRegex(conds) then Regex(text)
    else
      var last := conds[|conds| - 1];
      if last.prefix != "" then Prefix(text, false)
      else if last.exact != "" then Exact(text)
      else Prefix(text, false)
  }

  predicate AnyRegex(conds: seq<MatchCondition>) {
    exists i | 0 <= i < |conds| :: UsesRegex(conds[i])
  }

  method JoinPaths(conds: seq<MatchCondition>) returns (path: string, isRegex: bool)
    ensures path == JoinedPath(conds) && isRegex == AnyRegex(conds)
  {
    path, isRegex := "", false;
    for i := 0 to |conds|
      invariant path == JoinedPath(conds[..i])
      invariant isRegex <==> exists k | 0 <= k < i :: UsesRegex(conds[k])
    {
      var c := conds[i];
      assert conds[..i + 1][..i] == conds[..i];
      if c.prefix != "" {
        path := path + c.prefix;
      } else if c.exact != "" {
        path := path + c.exact;
      } else if c.regex != "" {
        path := path + c.regex;
        assert UsesRegex(conds[i]);
        isRegex := true;
      }
    }
    assert conds[..|conds|] == conds;
  }

  method MergePathMatchConditions(conds: seq<MatchCondition>) returns (merged: PathMatch)
    ensures merged == MergedPath(conds)
  {
    var mergedPath, isRegex := JoinPaths(conds);
    mergedPath := CollapseSlashes(mergedPath);
    if mergedPath == "" || |conds| == 0 {
      return Prefix("/", false);
    }
    var last := conds[|conds| - 1];
    if isRegex {
      return Regex(mergedPath);
    } else if last.prefix != "" {
      return Prefix(mergedPath, false);
    } else if last.exact != "" {
      return Exact(mergedPath);
    } else {
      return Prefix(mergedPath, false);
    }
  }

  /** The replacement of `//+` by `/`: a run is written when its last slash is reached. */
  method CollapseSlashes(s: string) returns (r: string)
    ensures r == Collapse(s)
  {
    r := "";
    for i := 0 to |s|
      invariant r + Collapse(s[i..]) == Collapse(s)
    {
      var tail := s[i..];
      assert tail[0] == s[i] && tail[1..] == s[i + 1..];
      if !(s[i] == '/' && i + 1 < |s| && s[i + 1] == '/') {
        assert Collapse(tail) == [s[i]] + Collapse(tail[1..]);
        assert r + ([s[i]] + Collapse(tail[1..])) == (r + [s[i]]) + Collapse(tail[1..]);
        r := r + [s[i]];
      }
    }
    assert s[|s|..] == "" && r + "" == r;
  }

  // ---------- What a merged path is ----------

  function Text(m: PathMatch): string {
    match m
    case Prefix(p, _) => p
    case Exact(p) => p
    case Regex(r) => r
  }

  predicate StartsWithSlash(s: string) {
    s != "" && s[0] == '/'
  }

  predicate NoDoubleSlash(s: string) {
    forall i | 0 < i < |s| :: !(s[i - 1] == '/' && s[i] == '/')
  }

  /** Every path condition that is present starts with a slash. */
  predicate SlashStarts(conds: seq<MatchCondition>) {
    forall i | 0 <= i < |conds| :: PathText(conds[i]) == "" || StartsWithSlash(PathText(conds[i]))
  }

  lemma {:induction false} CollapseIs(s: string)
    ensures NoDoubleSlash(Collapse(s))
    ensures s == "" <==> Collapse(s) == ""
    ensures s != "" ==> Collapse(s)[0] == s[0]
  {
    if |s| >= 2 {
      CollapseIs(s[1..]);
      var c := Collapse(s[1..]);
      if !(s[0] == '/' && s[1] == '/') {
        ConsNoDouble(s[0], c);
      }
    }
  }

  lemma {:induction false} CollapseEnd(s: string)
    requires s != ""
    ensures Collapse(s) != "" && Collapse(s)[|Collapse(s)| - 1] == s[|s| - 1]
  {
    if |s| >= 2 {
      CollapseEnd(s[1..]);
    }
  }

  lemma ConsNoDouble(h: char, t: string)
    requires NoDoubleSlash(t) && (t == "" || !(h == '/' && t[0] == '/'))
    ensures NoDoubleSlash([h] + t)
  {
    var s := [h] + t;
    forall i | 0 < i < |s| ensures !(s[i - 1] == '/' && s[i] == '/') {
      if i > 1 { assert s[i] == t[i - 1] && s[i - 1] == t[i - 2]; }
    }
  }

  /** A string without doubled slashes is left alone, so collapsing twice is collapsing once. */
  lemma {:induction false} CollapseFixed(s: string)
    requires NoDoubleSlash(s)
    ensures Collapse(s) == s
  {
    if |s| >= 2 {
      assert !(s[0] == '/' && s[1] == '/');
      forall i | 0 < i < |s[1..]| ensures !(s[1..][i - 1] == '/' && s[1..][i] == '/') {
        assert s[1..][i] == s[i + 1] && s[1..][i - 1] == s[i];
      }
      CollapseFixed(s[1..]);
    }
  }

  /** The non-empty segments of a path. */
  function Segments(s: string): seq<string> {
    if s == "" then []
    else if s[0] == '/' then Segments(s[1..])
    else var i := Strings.IndexOf(s, '/'); [s[..i]] + Segments(s[i..])
  }

  lemma {:induction false} IndexOfSlashAppend(a: string, b: string)
    requires b == "" || b[0] == '/'
    ensures Strings.IndexOf(a + b, '/') == Strings.IndexOf(a, '/')
  {
    if a == "" {
      assert a + b == b;
    } else {
      assert (a + b)[0] == a[0] && (a + b)[1..] == a[1..] + b;
      IndexOfSlashAppend(a[1..], b);
    }
  }

  lemma {:induction false} SegmentsAppend(a: string, b: string)
    requires b == "" || b[0] == '/'
    ensures Segments(a + b) == Segments(a) + Segments(b)
    decreases |a|
  {
    if a == "" {
      assert a + b == b;
    } else if a[0] == '/' {
      assert (a + b)[1..] == a[1..] + b;
      SegmentsAppend(a[1..], b);
    } else {
      var i := Strings.IndexOf(a, '/');
      IndexOfSlashAppend(a, b);
      assert (a + b)[..i] == a[..i] && (a + b)[i..] == a[i..] + b;
      SegmentsAppend(a[i..], b);
      assert Segments(a + b) == [a[..i]] + (Segments(a[i..]) + Segments(b));
    }
  }

  lemma CollapseCons(c: char, t: string)
    requires c != '/'
    ensures Collapse([c] + t) == [c] + Collapse(t)
  {
    assert ([c] + t)[1..] == t;
  }

  lemma {:induction false} CollapseWord(a: string, b: string)
    requires Strings.IndexOf(a, '/') == |a|
    ensures Collapse(a + b) == a + Collapse(b)
  {
    hide Collapse;
    if a == "" {
      assert a + b == b && a + Collapse(b) == Collapse(b);
    } else {
      assert a + b == [a[0]] + (a[1..] + b) && a + Collapse(b) == [a[0]] + (a[1..] + Collapse(b));
      CollapseWord(a[1..], b);
      CollapseCons(a[0], a[1..] + b);
    }
  }

  /** Collapsing keeps the segments of the path. */
  lemma {:induction false} CollapseSegments(s: string)
    ensures Segments(Collapse(s)) == Segments(s)
    decreases |s|
  {
    if |s| >= 2 {
      if s[0] == '/' {
        CollapseSegments(s[1..]);
        assert s[1] != '/' ==> ([s[0]] + Collapse(s[1..]))[1..] == Collapse(s[1..]);
      } else {
        var i := Strings.IndexOf(s, '/');
        WordOf(s);
        CollapseWord(s[..i], s[i..]);
        assert s == s[..i] + s[i..];
        CollapseSegments(s[i..]);
        CollapseIs(s[i..]);
        SegmentsAppend(s[..i], s[i..]);
        SegmentsAppend(s[..i], Collapse(s[i..]));
      }
    }
  }

  lemma {:induction false} WordOf(s: string)
    ensures var i := Strings.IndexOf(s, '/');
            Strings.IndexOf(s[..i], '/') == i && (i == |s| || s[i] == '/')
  {
    if s != "" && s[0] != '/' {
      WordOf(s[1..]);
      var i := Strings.IndexOf(s[1..], '/');
      assert s[..i + 1][1..] == s[1..][..i];
    }
  }

  function ConditionSegments(conds: seq<MatchCondition>): seq<string> {
    if conds == [] then []
    else ConditionSegments(conds[..|conds| - 1]) + Segments(PathText(conds[|conds| - 1]))
  }

  lemma {:induction false} JoinedIs(conds: seq<MatchCondition>)
    requires SlashStarts(conds)
    ensures JoinedPath(conds) == "" || StartsWithSlash(JoinedPath(conds))
    ensures Segments(JoinedPath(conds)) == ConditionSegments(conds)
  {
    if conds != [] {
      var init := conds[..|conds| - 1];
      assert forall i | 0 <= i < |init| :: init[i] == conds[i];
      JoinedIs(init);
      SegmentsAppend(JoinedPath(init), PathText(conds[|conds| - 1]));
    }
  }

  /** The merged path starts with a slash, doubles none, and its segments are those of the conditions
      in their order: it denotes the concatenation of the chain's paths. */
  lemma MergedPathIs(conds: seq<MatchCondition>)
    requires SlashStarts(conds)
    ensures var t := Text(MergedPath(conds));
            StartsWithSlash(t) && NoDoubleSlash(t) && Segments(t) == ConditionSegments(conds)
  {
    hide Collapse, Segments, JoinedPath, ConditionSegments;
    RootPath();
    JoinedIs(conds);
    CollapseIs(JoinedPath(conds));
    CollapseSegments(JoinedPath(conds));
  }

  predicate EndsWithSlash(s: string) {
    s != "" && s[|s| - 1] == '/'
  }

  /** The path text of the last condition that has one. */
  function LastPathText(conds: seq<MatchCondition>): string {
    if conds == [] then ""
    else if PathText(conds[|conds| - 1]) != "" then PathText(conds[|conds| - 1])
    else LastPathText(conds[..|conds| - 1])
  }

  lemma {:induction false} JoinedEnd(conds: seq<MatchCondition>)
    ensures LastPathText(conds) == "" <==> JoinedPath(conds) == ""
    ensures EndsWithSlash(JoinedPath(conds)) <==> EndsWithSlash(LastPathText(conds))
  {
    if conds != [] {
      JoinedEnd(conds[..|conds| - 1]);
      EndsOfSum(JoinedPath(conds[..|conds| - 1]), PathText(conds[|conds| - 1]));
      hide EndsWithSlash, PathText;
    }
  }

  lemma EndsOfSum(a: string, b: string)
    ensures a + b == "" <==> a == "" && b == ""
    ensures EndsWithSlash(a + b) <==> if b == "" then EndsWithSlash(a) else EndsWithSlash(b)
  {
    assert b == "" ==> a + b == a;
  }

  /** The merged path ends with a slash just when the last path on the chain does, or when there is none. */
  lemma MergedPathEnd(conds: seq<MatchCondition>)
    ensures EndsWithSlash(Text(MergedPath(conds))) <==> LastPathText(conds) == "" || EndsWithSlash(LastPathText(conds))
  {
    hide Collapse, JoinedPath, LastPathText, AnyRegex, NoDoubleSlash;
    RootPath();
    JoinedEnd(conds);
    CollapseIs(JoinedPath(conds));
    if JoinedPath(conds) != "" { CollapseEnd(JoinedPath(conds)); }
  }

  /** The segments and the end determine a path that starts with a slash and doubles none. */
  lemma {:induction false} PathDetermined(s: string, t: string)
    requires StartsWithSlash(s) && StartsWithSlash(t) && NoDoubleSlash(s) && NoDoubleSlash(t)
    requires Segments(s) == Segments(t) && (EndsWithSlash(s) <==> EndsWithSlash(t))
    ensures s == t
    decreases |s|
  {
    hide Segments, Strings.IndexOf;
    var i, j := Strings.IndexOf(s[1..], '/'), Strings.IndexOf(t[1..], '/');
    FirstSegment(s);
    FirstSegment(t);
    if s != "/" && t != "/" {
      assert Segments(s)[0] == s[1..1 + i] && Segments(t)[0] == t[1..1 + j];
      assert Segments(s)[1..] == Segments(s[1 + i..]) && Segments(t)[1..] == Segments(t[1 + j..]);
      assert |s[1..1 + i]| == i && |t[1..1 + j]| == j;
      if 1 + i < |s| && 1 + i < |t| {
        NoDoubleSuffix(s, 1 + i);
        NoDoubleSuffix(t, 1 + i);
        PathDetermined(s[1 + i..], t[1 + i..]);
      } else {
        NoSegments(s[1 + i..]);
        NoSegments(t[1 + i..]);
      }
      assert s == "/" + s[1..1 + i] + s[1 + i..] && t == "/" + t[1..1 + i] + t[1 + i..];
    }
  }

  lemma NoDoubleSuffix(s: string, i: nat)
    requires NoDoubleSlash(s) && i <= |s|
    ensures NoDoubleSlash(s[i..])
  {
    forall k | 0 < k < |s[i..]| ensures !(s[i..][k - 1] == '/' && s[i..][k] == '/') {
      assert s[i..][k] == s[i + k] && s[i..][k - 1] == s[i + k - 1];
    }
  }

  lemma NoSegments(s: string)
    requires NoDoubleSlash(s) && (s == "" || s[0] == '/')
    ensures Segments(s) == [] <==> s == "" || s == "/"
  {
    if |s| > 1 {
      assert s[1] != '/' && s[1..][0] == s[1];
    }
  }

  /** The first segment of a path, what follows it, and how the path ends. */
  lemma FirstSegment(s: string)
    requires StartsWithSlash(s) && NoDoubleSlash(s)
    ensures s == "/" <==> Segments(s) == []
    ensures s != "/" ==>
              var i := Strings.IndexOf(s[1..], '/');
              && 0 < i && 1 + i <= |s| && Segments(s) == [s[1..1 + i]] + Segments(s[1 + i..])
              && (1 + i < |s| ==> s[1 + i] == '/' && (EndsWithSlash(s[1 + i..]) <==> EndsWithSlash(s)))
              && (1 + i == |s| ==> !EndsWithSlash(s))
  {
    var t := s[1..];
    var i := Strings.IndexOf(t, '/');
    if s == "/" {
      assert t == "";
    } else {
      assert s[1] != '/' && t[0] == s[1];
      assert Segments(s) == Segments(t) && Segments(t) == [t[..i]] + Segments(t[i..]) && 0 < i;
      hide Segments, NoDoubleSlash;
      Strings.IndexOfIs(t, '/');
      hide Strings.IndexOf;
      SliceOfTail(s, i);
    }
  }

  lemma SliceOfTail(s: string, i: nat)
    requires s != "" && 0 < i <= |s| - 1 && '/' !in s[1..][..i]
    ensures s[1..][..i] == s[1..1 + i] && s[1..][i..] == s[1 + i..]
    ensures i < |s| - 1 ==> (EndsWithSlash(s[1 + i..]) <==> EndsWithSlash(s)) && s[1..][i] == s[1 + i]
    ensures i == |s| - 1 ==> !EndsWithSlash(s)
  {
    if i == |s| - 1 {
      assert s[1..][..i][i - 1] == s[|s| - 1];
    }
  }

  /** The path is a regular expression if any condition is one; otherwise it is exact if the last condition is, and a
      prefix in all other cases, also when the last condition says nothing of the path. */
  predicate KindFits(path: PathMatch, conds: seq<MatchCondition>) {
    && (path.Regex? <==> exists c | c in conds :: c.prefix == "" && c.exact == "" && c.regex != "")
    && (path.Exact? <==>
          && (forall c | c in conds :: c.prefix != "" || c.exact != "" || c.regex == "")
          && conds != [] && conds[|conds| - 1].prefix == "" && conds[|conds| - 1].exact != "")
    && (path.Prefix? ==> !path.segment)
  }

  lemma MergedKind(conds: seq<MatchCondition>)
    ensures KindFits(MergedPath(conds), conds)
  {
    hide Collapse, JoinedPath;
    CollapseIs(JoinedPath(conds));
    if c :| c in conds && PathText(c) != "" { JoinedNotEmpty(conds, c); }
    if conds != [] { assert conds[|conds| - 1] in conds; }
    if c :| c in conds && c.prefix == "" && c.exact == "" && c.regex != "" {
      JoinedNotEmpty(conds, c);
      var i :| 0 <= i < |conds| && conds[i] == c;
      assert UsesRegex(conds[i]);
    }
    if conds != [] && conds[|conds| - 1].exact != "" { JoinedNotEmpty(conds, conds[|conds| - 1]); }
  }

  lemma {:induction false} JoinedNotEmpty(conds: seq<MatchCondition>, c: MatchCondition)
    requires c in conds && PathText(c) != ""
    ensures JoinedPath(conds) != ""
  {
    if c != conds[|conds| - 1] {
      JoinedNotEmpty(conds[..|conds| - 1], c);
    }
  }

  lemma RootPath()
    ensures StartsWithSlash("/") && NoDoubleSlash("/") && Segments("/") == Segments("")
    ensures JoinedPath([]) == "" && Collapse("") == ""
  {
    assert "/"[1..] == "";
  }

  // ---------- Validation ----------

  function PathCount(c: MatchCondition): nat {
    (if c.prefix != "" then 1 else 0) + (if c.exact != "" then 1 else 0) + (if c.regex != "" then 1 else 0)
  }

  function PathCounts(conds: seq<MatchCondition>): nat {
    if conds == [] then 0 else PathCounts(conds[..|conds| - 1]) + PathCount(conds[|conds| - 1])
  }

  predicate PathConditionOk(c: MatchCondition, regexOk: string -> bool) {
    && (c.prefix != "" ==> c.prefix[0] == '/')
    && (c.exact != "" ==> c.exact[0] == '/')
    && (c.regex != "" ==> c.regex[0] == '/' && regexOk(c.regex))
  }

  /** At most one path condition in the block, and it starts with a slash. */
  predicate PathConditionsValid(conds: seq<MatchCondition>, regexOk: string -> bool) {
    && (forall i | 0 <= i < |conds| :: PathConditionOk(conds[i], regexOk))
    && PathCounts(conds) <= 1
  }

  method PathMatchConditionsValid(conds: seq<MatchCondition>, regexOk: string -> bool) returns (valid: bool)
    ensures valid <==> PathConditionsValid(conds, regexOk)
  {
    var prefixCount, exactCount, regexCount := 0, 0, 0;
    for i := 0 to |conds|
      invariant 0 <= prefixCount && 0 <= exactCount && 0 <= regexCount
      invariant prefixCount + exactCount + regexCount == PathCounts(conds[..i])
      invariant forall k | 0 <= k < i :: PathConditionOk(conds[k], regexOk)
    {
      var c := conds[i];
      assert conds[..i + 1][..i] == conds[..i];
      if c.prefix != "" {
        prefixCount := prefixCount + 1;
        if c.prefix[0] != '/' { return false; }
      }
      if c.exact != "" {
        exactCount := exactCount + 1;
        if c.exact[0] != '/' { return false; }
      }
      if c.regex != "" {
        regexCount := regexCount + 1;
        if c.regex[0] != '/' || !regexOk(c.regex) { return false; }
      }
    }
    assert conds[..|conds|] == conds;
    return !(prefixCount > 1 || exactCount > 1 || regexCount > 1 || prefixCount + exactCount + regexCount > 1);
  }

  predicate HasPath(c: MatchCondition) {
    c.prefix != "" || c.exact != "" || c.regex != ""
  }

  /** At most one of the three kinds of path is set. */
  predicate OnePath(c: MatchCondition) {
    (c.prefix == "" && c.exact == "") || (c.prefix == "" && c.regex == "") || (c.exact == "" && c.regex == "")
  }

  /** A block is valid exactly if every path in it starts with a slash, every regular expression compiles, and
      there is no second path, neither in one condition nor in another one. */
  lemma PathsValidIff(conds: seq<MatchCondition>, regexOk: string -> bool)
    ensures PathConditionsValid(conds, regexOk) <==>
            && (forall c | c in conds ::
                  && OnePath(c) && (c.prefix == "" || c.prefix[0] == '/') && (c.exact == "" || c.exact[0] == '/')
                  && (c.regex == "" || (c.regex[0] == '/' && regexOk(c.regex))))
            && (forall i, j | 0 <= i < j < |conds| :: !(HasPath(conds[i]) && HasPath(conds[j])))
  {
    hide PathCounts;
    PathCountsIs(conds);
    forall i | 0 <= i < |conds| ensures conds[i] in conds {}
  }

  lemma {:induction false} PathCountsIs(conds: seq<MatchCondition>)
    ensures PathCounts(conds) == 0 <==> forall i | 0 <= i < |conds| :: !HasPath(conds[i])
    ensures PathCounts(conds) <= 1 <==>
            && (forall i | 0 <= i < |conds| :: OnePath(conds[i]))
            && (forall i, j | 0 <= i < j < |conds| :: !(HasPath(conds[i]) && HasPath(conds[j])))
  {
    if conds != [] {
      var init := conds[..|conds| - 1];
      PathCountsIs(init);
      assert forall i | 0 <= i < |init| :: init[i] == conds[i];
    }
  }

  predicate IncludeConditionsValid(conds: seq<MatchCondition>) {
    forall i | 0 <= i < |conds| :: conds[i].exact == "" && conds[i].regex == ""
  }

  method IncludeMatchConditionsValid(conds: seq<MatchCondition>) returns (valid: bool)
    ensures valid <==> IncludeConditionsValid(conds)
  {
    for i := 0 to |conds|
      invariant forall k | 0 <= k < i :: conds[k].exact == "" && conds[k].regex == ""
    {
      if conds[i].exact != "" || conds[i].regex != "" {
        return false;
      }
    }
    return true;
  }

  lemma ValidMeansSlashStarts(conds: seq<MatchCondition>, regexOk: string -> bool)
    requires PathConditionsValid(conds, regexOk)
    ensures SlashStarts(conds)
  {
    forall i | 0 <= i < |conds| ensures PathText(conds[i]) == "" || StartsWithSlash(PathText(conds[i])) {
      assert PathConditionOk(conds[i], regexOk);
    }
  }

  /** Include conditions merge to a prefix. */
  lemma IncludeMergesToPrefix(conds: seq<MatchCondition>)
    requires IncludeConditionsValid(conds)
    ensures MergedPath(conds).Prefix?
  {
  }

  // ---------- Header and query parameter conditions ----------

  function HeaderMatchOf(c: HeaderCondition): Option<HeaderMatch> {
    if c.present then Some(HeaderMatch(c.name, "", HeaderPresent, false, false, false))
    else if c.notPresent then Some(HeaderMatch(c.name, "", HeaderPresent, true, false, false))
    else if c.contains != "" then Some(HeaderMatch(c.name, c.contains, HeaderContains, false, c.ignoreCase, false))
    else if c.notContains != "" then
      Some(HeaderMatch(c.name, c.notContains, HeaderContains, true, c.ignoreCase, c.treatMissingAsEmpty))
    else if c.exact != "" then Some(HeaderMatch(c.name, c.exact, HeaderExact, false, c.ignoreCase, false))
    else if c.notExact != "" then
      Some(HeaderMatch(c.name, c.notExact, HeaderExact, true, c.ignoreCase, c.treatMissingAsEmpty))
    else if c.regex != "" then Some(HeaderMatch(c.name, c.regex, HeaderRegex, false, false, false))
    else None
  }

  function QueryMatchOf(c: QueryCondition): Option<QueryMatch> {
    if c.exact != "" then Some(QueryMatch(c.name, c.exact, QueryExact, c.ignoreCase))
    else if c.prefix != "" then Some(QueryMatch(c.name, c.prefix, QueryPrefix, c.ignoreCase))
    else if c.suffix != "" then Some(QueryMatch(c.name, c.suffix, QuerySuffix, c.ignoreCase))
    else if c.regex != "" then Some(QueryMatch(c.name, c.regex, QueryRegex, false))
    else if c.contains != "" then Some(QueryMatch(c.name, c.contains, QueryContains, c.ignoreCase))
    else if c.present then Some(QueryMatch(c.name, "", QueryPresent, false))
    else None
  }

  function OptionSeq<T>(o: Option<T>): seq<T> {
    if o.Some? then [o.value] else []
  }

  function HeaderMatches(c: MatchCondition): seq<HeaderMatch> {
    if c.header.Some? then OptionSeq(HeaderMatchOf(c.header.value)) else []
  }

  function QueryMatches(c: MatchCondition): seq<QueryMatch> {
    if c.query.Some? then OptionSeq(QueryMatchOf(c.query.value)) else []
  }

  function MergedHeaders(conds: seq<MatchCondition>): seq<HeaderMatch> {
    if conds == [] then [] else MergedHeaders(conds[..|conds| - 1]) + HeaderMatches(conds[|conds| - 1])
  }

  function MergedQueries(conds: seq<MatchCondition>): seq<QueryMatch> {
    if conds == [] then [] else MergedQueries(conds[..|conds| - 1]) + QueryMatches(conds[|conds| - 1])
  }

  method MergeHeaderMatchConditions(conds: seq<MatchCondition>) returns (merged: seq<HeaderMatch>)
    ensures merged == MergedHeaders(conds)
  {
    merged := [];
    for i := 0 to |conds|
      invariant merged == MergedHeaders(conds[..i])
    {
      assert conds[..i + 1][..i] == conds[..i];
      merged := merged + HeaderMatches(conds[i]);
    }
    assert conds[..|conds|] == conds;
  }

  method MergeQueryParamMatchConditions(conds: seq<MatchCondition>) returns (merged: seq<QueryMatch>)
    ensures merged == MergedQueries(conds)
  {
    merged := [];
    for i := 0 to |conds|
      invariant merged == MergedQueries(conds[..i])
    {
      assert conds[..i + 1][..i] == conds[..i];
      merged := merged + QueryMatches(conds[i]);
    }
    assert conds[..|conds|] == conds;
  }
}
