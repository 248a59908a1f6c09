/**
 Envoy's grammar of header values, and textual replacements that respect it.

 Envoy reads `%NAME%` inside a header value as a variable and `%%` as a literal percent sign. Nothing in the textual
 form of a replacement says that it respects the boundaries of pairs and variables; the token view below is what
 makes that provable.
 */
module HeaderTokens {
  import opened Wrappers
  import Strings = Text

  // ---------- Text and the replacement operations the source is built from ----------

  predicate PercentFree(s: string) {
    '%' !in s
  }

  /** Leftmost, non-overlapping replacement of `pat` by `sub`. */
  function ReplaceAll(s: string, pat: string, sub: string): string
    requires pat != ""
  {
    if s == "" then ""
    else if pat <= s then sub + ReplaceAll(s[|pat|..], pat, sub)
    else [s[0]] + ReplaceAll(s[1..], pat, sub)
  }

  const EnvoyVars: seq<string> := [
    "DOWNSTREAM_REMOTE_ADDRESS",
    "DOWNSTREAM_REMOTE_ADDRESS_WITHOUT_PORT",
    "DOWNSTREAM_LOCAL_ADDRESS",
    "DOWNSTREAM_LOCAL_ADDRESS_WITHOUT_PORT",
    "DOWNSTREAM_LOCAL_PORT",
    "DOWNSTREAM_LOCAL_URI_SAN",
    "DOWNSTREAM_PEER_URI_SAN",
    "DOWNSTREAM_LOCAL_SUBJECT",
    "DOWNSTREAM_PEER_SUBJECT",
    "DOWNSTREAM_PEER_ISSUER",
    "DOWNSTREAM_TLS_SESSION_ID",
    "DOWNSTREAM_TLS_CIPHER",
    "DOWNSTREAM_TLS_VERSION",
    "DOWNSTREAM_PEER_FINGERPRINT_256",
    "DOWNSTREAM_PEER_FINGERPRINT_1",
    "DOWNSTREAM_PEER_SERIAL",
    "DOWNSTREAM_PEER_CERT",
    "DOWNSTREAM_PEER_CERT_V_START",
    "DOWNSTREAM_PEER_CERT_V_END",
    "HOSTNAME",
    "PROTOCOL",
    "UPSTREAM_REMOTE_ADDRESS",
    "RESPONSE_FLAGS",
    "RESPONSE_CODE_DETAILS"
  ]

  predicate IsDigit(c: char) {
    '0' <= c <= '9'
  }

  predicate IsWordOrDash(c: char) {
    IsDigit(c) || 'a' <= c <= 'z' || 'A' <= c <= 'Z' || c == '_' || c == '-'
  }

  /** `:?[\w-]+` */
  predicate IsHeaderRef(h: string) {
    var n := if h != "" && h[0] == ':' then h[1..] else h;
    n != "" && forall c | c in n :: IsWordOrDash(c)
  }

  /** `REQ\(:?[\w-]+(\?:?[\w-]+)?\)(:\d+)?` */
  predicate IsReq(v: string) {
    && "REQ(" <= v
    && var close := Strings.IndexOf(v, ')');
       && 4 <= close < |v|
       && var args, limit := v[4..close], v[close + 1..];
          var q := Strings.IndexOf(args, '?');
          && (if q == |args| then IsHeaderRef(args) else IsHeaderRef(args[..q]) && IsHeaderRef(args[q + 1..]))
          && (limit == "" || (|limit| > 1 && limit[0] == ':' && forall c | c in limit[1..] :: IsDigit(c)))
  }

  predicate Allowed(v: string) {
    v in EnvoyVars || IsReq(v)
  }

  predicate StartsPair(s: string) {
    |s| >= 2 && s[0] == '%' && s[1] == '%'
  }

  /** The name `v` when `s` starts with `%%v%%` and `v` holds no percent sign. */
  function HeadName(s: string): Option<string> {
    if !StartsPair(s) then None else
    var j := Strings.IndexOf(s[2..], '%');
    if StartsPair(s[2 + j..]) then Some(s[2..2 + j]) else None
  }

  /** The names a pass looks for: one literal name, or every name of the `REQ(...)` form. */
  datatype Names = Only(v: string) | ReqForm {
    predicate Has(n: string) {
      match this
      case Only(v) => n == v
      case ReqForm => IsReq(n)
    }
  }

  /** What a pass writes for a reference: the variable itself, or a fixed text. */
  datatype Sub = AsVariable | AsText(text: string) {
    function Text(v: string): string {
      match this
      case AsVariable => "%" + (v + "%")
      case AsText(t) => t
    }

    function Tokens(v: string, rest: Tokens): Tokens {
      match this
      case AsVariable => Cons(Var(v), rest)
      case AsText(t) => TextThen(t, rest)
    }
  }

  /** Replacement of every leftmost `%%v%%` with `names.Has(v)`, one pass, left to right. */
  function RawPass(s: string, names: Names, sub: Sub): string
  {
    if s == "" then ""
    else if HeadName(s).Some? && names.Has(HeadName(s).value) then
      sub.Text(HeadName(s).value) + RawPass(s[|HeadName(s).value| + 4..], names, sub)
    else [s[0]] + RawPass(s[1..], names, sub)
  }

  /** The regular-expression step: `%%REQ(...)%%` becomes `%REQ(...)%`. */
  function ReplaceReq(s: string): string {
    RawPass(s, ReqForm, AsVariable)
  }

  // ---------- Envoy's reading of a header value ----------

  /** What Envoy sees: a plain character, a literal percent sign written `%%`, or a variable. */
  datatype Token = Plain(c: char) | Pair | Var(name: string)

  datatype Tokens = Nil | Cons(head: Token, tail: Tokens)

  function Length(ts: Tokens): nat {
    match ts
    case Nil => 0
    case Cons(_, rest) => 1 + Length(rest)
  }

  function Render(ts: Tokens): string {
    match ts
    case Nil => ""
    case Cons(Plain(c), rest) => [c] + Render(rest)
    case Cons(Pair, rest) => "%" + ("%" + Render(rest))
    case Cons(Var(n), rest) => "%" + (n + ("%" + Render(rest)))
  }

  /** The text the tokens stand for in the value the user wrote. */
  function Meaning(ts: Tokens): string {
    match ts
    case Nil => ""
    case Cons(Plain(c), rest) => [c] + Meaning(rest)
    case Cons(Pair, rest) => "%" + Meaning(rest)
    case Cons(Var(n), rest) => "%" + (n + ("%" + Meaning(rest)))
  }

  /** Left-to-right reader; fails on a lone percent sign and on a variable off the allow-list. */
  function Parse(s: string, allowed: string -> bool): Option<Tokens>
  {
    if s == "" then Some(Nil)
    else if s[0] != '%' then Prepend(Plain(s[0]), Parse(s[1..], allowed))
    else if StartsPair(s) then Prepend(Pair, Parse(s[2..], allowed))
    else
      var j := Strings.IndexOf(s[1..], '%');
      if 1 + j < |s| && allowed(s[1..1 + j])
      then Prepend(Var(s[1..1 + j]), Parse(s[j + 2..], allowed))
      else None
  }

  function Prepend(t: Token, r: Option<Tokens>): Option<Tokens> {
    if r.Some? then Some(Cons(t, r.value)) else None
  }

  predicate TokensOk(ts: Tokens) {
    match ts
    case Nil => true
    case Cons(Plain(c), rest) => c != '%' && TokensOk(rest)
    case Cons(Pair, rest) => TokensOk(rest)
    case Cons(Var(n), rest) => n != "" && PercentFree(n) && TokensOk(rest)
  }

  predicate VarsIn(ts: Tokens, allowed: string -> bool) {
    match ts
    case Nil => true
    case Cons(Var(n), rest) => allowed(n) && VarsIn(rest, allowed)
    case Cons(_, rest) => VarsIn(rest, allowed)
  }

  /** None of the variables of `ts` is one that the pass looks for. */
  predicate VarsAvoid(ts: Tokens, names: Names) {
    match ts
    case Nil => true
    case Cons(Var(n), rest) => !names.Has(n) && VarsAvoid(rest, names)
    case Cons(_, rest) => VarsAvoid(rest, names)
  }

  predicate NoVars(ts: Tokens) {
    ts.Nil? || (!ts.head.Var? && NoVars(ts.tail))
  }

  predicate AllPlain(ts: Tokens) {
    ts.Nil? || (ts.head.Plain? && AllPlain(ts.tail))
  }

  /** The characters of `s`, then `rest`. */
  function TextThen(s: string, rest: Tokens): Tokens {
    if s == "" then rest else Cons(Plain(s[0]), TextThen(s[1..], rest))
  }

  /** The plain text `ts` starts with, and what follows it. */
  function Span(ts: Tokens): (r: (string, Tokens))
    ensures Length(r.1) <= Length(ts)
  {
    match ts
    case Cons(Plain(c), rest) => var (v, after) := Span(rest); ([c] + v, after)
    case _ => ("", ts)
  }

  /** The name `v` and the rest when `ts` starts with the doubled reference `%%v%%`. */
  function HeadRef(ts: Tokens): (r: Option<(string, Tokens)>)
    ensures r.Some? ==> Length(r.value.1) < Length(ts)
  {
    match ts
    case Cons(Pair, rest) =>
      var (v, after) := Span(rest);
      if after.Cons? && after.head.Pair? then Some((v, after.tail)) else None
    case _ => None
  }

  predicate IsRef(ts: Tokens, v: string) {
    HeadRef(ts).Some? && HeadRef(ts).value.0 == v
  }

  /** No doubled reference to `v` is left anywhere in `ts`. */
  predicate NoRef(ts: Tokens, v: string) {
    ts.Nil? || (!IsRef(ts, v) && NoRef(ts.tail, v))
  }

  predicate Hit(ts: Tokens, names: Names) {
    HeadRef(ts).Some? && names.Has(HeadRef(ts).value.0)
  }

  /** `RawPass` on tokens: the replacement stated where pair boundaries are visible. */
  function TokenPass(ts: Tokens, names: Names, sub: Sub): Tokens
    decreases Length(ts)
  {
    if ts.Nil? then Nil
    else if Hit(ts, names) then
      var (v, rest) := HeadRef(ts).value;
      sub.Tokens(v, TokenPass(rest, names, sub))
    else Cons(ts.head, TokenPass(ts.tail, names, sub))
  }

  // ---------- References to request headers ----------

  /** Letters, digits, underscores and dashes, at least one of them. */
  predicate Word(w: string) {
    && |w| > 0
    && forall i | 0 <= i < |w| ::
         'a' <= w[i] <= 'z' || 'A' <= w[i] <= 'Z' || '0' <= w[i] <= '9' || w[i] == '_' || w[i] == '-'
  }

  /** A word, with a colon in front if it names a pseudo-header. */
  predicate HeaderName(h: string) {
    Word(h) || (|h| > 0 && h[0] == ':' && Word(h[1..]))
  }

  predicate Number(n: string) {
    |n| > 0 && forall i | 0 <= i < |n| :: '0' <= n[i] <= '9'
  }

  /** `REQ(`, a header, maybe a question mark and another header, `)`, and maybe a colon and a length. */
  predicate ReqShape(v: string, h: string, alt: string, limit: string) {
    && HeaderName(h) && (alt == "" || (alt[0] == '?' && HeaderName(alt[1..])))
    && (limit == "" || (limit[0] == ':' && Number(limit[1..])))
    && v == "REQ(" + (h + alt + (")" + limit))
  }

  lemma WordIff(w: string)
    ensures Word(w) <==> w != "" && forall c | c in w :: IsWordOrDash(c)
    ensures Word(w) ==> ')' !in w && '?' !in w && ':' !in w
  {
    forall i | 0 <= i < |w| ensures w[i] in w {}
  }

  lemma NumberIff(n: string)
    ensures Number(n) <==> n != "" && forall c | c in n :: IsDigit(c)
  {
    forall i | 0 <= i < |n| ensures n[i] in n {}
  }

  lemma HeaderRefIff(h: string)
    ensures IsHeaderRef(h) <==> HeaderName(h)
    ensures HeaderName(h) ==> ')' !in h && '?' !in h
  {
    WordIff(h);
    if h != "" && h[0] == ':' {
      WordIff(h[1..]);
      assert h == [':'] + h[1..] && ':' in h;
    }
    hide Word;
  }

  /** The shape of a reference to a request header. */
  lemma ReqIff(v: string)
    ensures IsReq(v) <==> exists h, alt, limit :: ReqShape(v, h, alt, limit)
  {
    if IsReq(v) { var h, alt, limit := ReqHasShape(v); }
    if h, alt, limit :| ReqShape(v, h, alt, limit) { ShapeIsReq(v, h, alt, limit); }
  }

  lemma ReqHasShape(v: string) returns (h: string, alt: string, limit: string)
    requires IsReq(v)
    ensures ReqShape(v, h, alt, limit)
  {
    var close := Strings.IndexOf(v, ')');
    Strings.IndexOfIs(v, ')');
    var args := v[4..close];
    limit := v[close + 1..];
    assert v == "REQ(" + (args + (")" + limit));
    if limit != "" { NumberIff(limit[1..]); }
    var q := Strings.IndexOf(args, '?');
    h, alt := args[..q], args[q..];
    hide IsHeaderRef, HeaderName, Number, Strings.IndexOf;
    Strings.IndexOfIs(args, '?');
    assert args == h + alt;
    HeaderRefIff(h);
    if q == |args| {
      assert h == args && alt == "";
    } else {
      assert alt[0] == '?' && alt[1..] == args[q + 1..];
      HeaderRefIff(args[q + 1..]);
    }
  }

  lemma ShapeIsReq(v: string, h: string, alt: string, limit: string)
    requires ReqShape(v, h, alt, limit)
    ensures IsReq(v)
  {
    var args := h + alt;
    HeaderRefIff(h);
    assert "REQ" + ("(" + "") == "REQ(" && ')' !in "REQ(";
    if alt != "" {
      HeaderRefIff(alt[1..]);
      assert alt == ['?'] + alt[1..];
      Strings.IndexOfFirst(h, '?', alt[1..]);
      assert args[..|h|] == h && args[|h| + 1..] == alt[1..];
    } else {
      assert args == h;
      Strings.IndexOfFirst(h, '?', "");
    }
    assert v == ("REQ(" + args) + ([')'] + limit);
    Strings.IndexOfFirst("REQ(" + args, ')', limit);
    assert v[4..4 + |args|] == args && v[5 + |args|..] == limit;
    if limit != "" { NumberIff(limit[1..]); }
  }

  // ---------- Facts about text ----------

  lemma {:induction false} IndexOfAt(a: string, s: string)
    requires PercentFree(a) && (s == "" || s[0] == '%')
    ensures Strings.IndexOf(a + s, '%') == |a|
  {
    if a == "" {
      assert a + s == s;
    } else {
      assert (a + s)[1..] == a[1..] + s;
      IndexOfAt(a[1..], s);
    }
  }

  /** What follows a pair decides the reference that starts there. */
  lemma HeadNameOf(v: string, x: string)
    requires PercentFree(v) && (x == "" || x[0] == '%')
    ensures HeadName("%" + ("%" + (v + x))) == if StartsPair(x) then Some(v) else None
  {
    var s := "%" + ("%" + (v + x));
    assert s[2..] == v + x;
    IndexOfAt(v, x);
    assert s[2 + |v|..] == x;
    assert s[2..2 + |v|] == v;
  }

  /** `strings.ReplaceAll` sees `%%v%%` exactly where a pass sees the name `v`. */
  lemma {:induction false} NameOfPrefix(s: string, v: string, pat: string)
    requires PercentFree(v) && pat == "%" + ("%" + (v + "%%"))
    ensures pat <= s <==> HeadName(s) == Some(v)
  {
    if pat <= s {
      var rest := s[|pat|..];
      assert s == pat + rest == "%" + ("%" + (v + ("%%" + rest)));
      HeadNameOf(v, "%%" + rest);
    }
    if HeadName(s) == Some(v) {
      assert s[2..2 + |v|] == v;
      forall i | 0 <= i < |pat| ensures pat[i] == s[i] {
        if 2 <= i < 2 + |v| { assert v[i - 2] == s[i]; }
        else if 2 + |v| <= i { assert s[2 + |v|..][i - 2 - |v|] == '%'; }
      }
      assert s[..|pat|] == pat;
    }
  }

  /** `strings.ReplaceAll` on a doubled reference is a pass with a one-name list. */
  lemma {:induction false} ReplaceAllIsRawPass(s: string, v: string, sub: Sub, pat: string)
    requires PercentFree(v) && pat == "%" + ("%" + (v + "%%"))
    ensures ReplaceAll(s, pat, sub.Text(v)) == RawPass(s, Only(v), sub)
    decreases |s|
  {
    if s != "" {
      NameOfPrefix(s, v, pat);
      ReplaceAllIsRawPass(if pat <= s then s[|pat|..] else s[1..], v, sub, pat);
    }
  }

  // ---------- Steps of a textual pass ----------

  /** No reference that a pass over `names` replaces starts at the head of `s`. */
  predicate Kept(s: string, names: Names) {
    HeadName(s).Some? ==> !names.Has(HeadName(s).value)
  }

  lemma {:induction false} KeepChar(c: char, s: string, names: Names, sub: Sub)
    requires Kept([c] + s, names)
    ensures RawPass([c] + s, names, sub) == [c] + RawPass(s, names, sub)
  {
    assert ([c] + s)[1..] == s;
  }

  lemma SplitHead(v: string, s: string)
    requires v != ""
    ensures v + s == [v[0]] + (v[1..] + s)
  {
  }

  lemma {:induction false} KeepText(v: string, s: string, names: Names, sub: Sub)
    requires PercentFree(v)
    ensures RawPass(v + s, names, sub) == v + RawPass(s, names, sub)
  {
    if v == "" {
      assert v + s == s && v + RawPass(s, names, sub) == RawPass(s, names, sub);
    } else {
      KeepText(v[1..], s, names, sub);
      KeepChar(v[0], v[1..] + s, names, sub);
      SplitHead(v, s);
      SplitHead(v, RawPass(s, names, sub));
    }
  }

  lemma ReplaceName(v: string, x: string, names: Names, sub: Sub)
    requires PercentFree(v) && names.Has(v)
    ensures RawPass("%" + ("%" + (v + ("%" + ("%" + x)))), names, sub) == sub.Text(v) + RawPass(x, names, sub)
  {
    HeadNameOf(v, "%" + ("%" + x));
    DropName(v, x);
    ReplaceHead("%" + ("%" + (v + ("%" + ("%" + x)))), v, names, sub);
  }

  lemma {:induction false} ReplaceHead(s: string, v: string, names: Names, sub: Sub)
    requires HeadName(s) == Some(v) && names.Has(v)
    ensures RawPass(s, names, sub) == sub.Text(v) + RawPass(s[|v| + 4..], names, sub)
  {
    hide HeadName, IsReq, StartsPair, Strings.IndexOf;
    HeadFits(s);
  }

  lemma HeadFits(s: string)
    ensures HeadName(s).Some? ==> |HeadName(s).value| + 4 <= |s|
  {
  }

  lemma DropName(v: string, x: string)
    ensures ("%" + ("%" + (v + ("%" + ("%" + x)))))[|v| + 4..] == x
  {
  }

  // ---------- A textual pass is a token pass ----------

  lemma {:induction false} SpanRenders(ts: Tokens)
    requires TokensOk(ts)
    ensures var (v, after) := Span(ts);
            && Render(ts) == v + Render(after) && PercentFree(v)
            && TokensOk(after) && !(after.Cons? && after.head.Plain?)
  {
    match ts
    case Cons(Plain(c), rest) =>
      SpanRenders(rest);
      var (v, after) := Span(rest);
      assert [c] + (v + Render(after)) == ([c] + v) + Render(after);
    case _ =>
      assert "" + Render(ts) == Render(ts);
  }

  lemma RenderStart(ts: Tokens)
    requires TokensOk(ts) && !(ts.Cons? && ts.head.Plain?)
    ensures Render(ts) == "" || Render(ts)[0] == '%'
    ensures StartsPair(Render(ts)) <==> ts.Cons? && ts.head.Pair?
  {
    if ts.Cons? && ts.head.Var? {
      assert Render(ts)[1] == ts.head.name[0];
    }
  }

  /** A pair starts the same reference whether it is seen as text or as tokens. */
  lemma HeadNameAtPair(rest: Tokens)
    requires TokensOk(rest)
    ensures var s := Render(Cons(Pair, rest)); var r := HeadRef(Cons(Pair, rest));
            if r.Some?
            then HeadName(s) == Some(r.value.0) && PercentFree(r.value.0) && TokensOk(r.value.1)
                 && s == "%" + ("%" + (r.value.0 + ("%" + ("%" + Render(r.value.1)))))
            else HeadName(s) == None
  {
    var (v, after) := Span(rest);
    SpanRenders(rest);
    RenderStart(after);
    HeadNameOf(v, Render(after));
  }

  /** A percent sign that closes a token never starts a replaced reference. */
  lemma LoosePercent(ts: Tokens, names: Names)
    requires TokensOk(ts) && VarsAvoid(ts, names) && !(names.Has("") && ts.Cons? && ts.head.Pair?)
    ensures Kept("%" + Render(ts), names)
  {
    match ts
    case Nil =>
    case Cons(Plain(c), rest) => assert ("%" + Render(ts))[1] == c;
    case Cons(Pair, rest) =>
      var s := "%" + ("%" + ("%" + Render(rest)));
      assert s == "%" + ("%" + ("" + ("%" + Render(rest))));
      HeadNameOf("", "%" + Render(rest));
    case Cons(Var(n), rest) =>
      HeadNameOf(n, "%" + Render(rest));
  }

  lemma KeepPair(rest: Tokens, names: Names, sub: Sub)
    requires TokensOk(rest) && VarsAvoid(rest, names) && !Hit(Cons(Pair, rest), names)
    ensures RawPass(Render(Cons(Pair, rest)), names, sub) == "%" + ("%" + RawPass(Render(rest), names, sub))
  {
    HeadNameAtPair(rest);
    LoosePercent(rest, names);
    KeepChar('%', Render(rest), names, sub);
    KeepChar('%', "%" + Render(rest), names, sub);
  }

  lemma KeepVar(n: string, rest: Tokens, names: Names, sub: Sub)
    requires TokensOk(Cons(Var(n), rest)) && VarsAvoid(rest, names) && !names.Has("")
    ensures RawPass(Render(Cons(Var(n), rest)), names, sub) == "%" + (n + ("%" + RawPass(Render(rest), names, sub)))
  {
    var tail := "%" + Render(rest);
    LoosePercent(rest, names);
    KeepChar('%', Render(rest), names, sub);
    KeepText(n, tail, names, sub);
    assert ("%" + (n + tail))[1] == n[0];
    KeepChar('%', n + tail, names, sub);
  }

  lemma {:induction false} SubRenders(sub: Sub, v: string, rest: Tokens)
    ensures Render(sub.Tokens(v, rest)) == sub.Text(v) + Render(rest)
  {
    match sub
    case AsVariable => assert ("%" + (v + "%")) + Render(rest) == "%" + (v + ("%" + Render(rest)));
    case AsText(t) => TextRenders(t, rest);
  }

  lemma {:induction false} TextRenders(s: string, rest: Tokens)
    ensures Render(TextThen(s, rest)) == s + Render(rest)
  {
    if s == "" {
      assert s + Render(rest) == Render(rest);
    } else {
      TextRenders(s[1..], rest);
      SplitHead(s, Render(rest));
    }
  }

  /** A textual pass never cuts a pair or a variable in two. */
  lemma {:induction false} RawPassIsTokenPass(ts: Tokens, names: Names, sub: Sub)
    requires TokensOk(ts) && VarsAvoid(ts, names) && (names.Has("") ==> NoVars(ts))
    ensures RawPass(Render(ts), names, sub) == Render(TokenPass(ts, names, sub))
    decreases Length(ts)
  {
    if ts.Cons? {
      if Hit(ts, names) {
        var (v, rest) := HeadRef(ts).value;
        HeadNameAtPair(ts.tail);
        RefRest(ts, names);
        RawPassIsTokenPass(rest, names, sub);
        ReplaceName(v, Render(rest), names, sub);
        SubRenders(sub, v, TokenPass(rest, names, sub));
      } else {
        RawPassIsTokenPass(ts.tail, names, sub);
        match ts.head
        case Plain(c) => KeepChar(c, Render(ts.tail), names, sub);
        case Pair => KeepPair(ts.tail, names, sub);
        case Var(n) => KeepVar(n, ts.tail, names, sub);
      }
    }
  }

  /** What follows a reference inherits what is known of the whole. */
  lemma RefRest(ts: Tokens, names: Names)
    requires HeadRef(ts).Some?
    ensures var rest := HeadRef(ts).value.1;
            && (VarsAvoid(ts, names) ==> VarsAvoid(rest, names))
            && (NoVars(ts) ==> NoVars(rest))
  {
    SpanRest(ts.tail, names);
  }

  lemma {:induction false} SpanRest(ts: Tokens, names: Names)
    ensures var after := Span(ts).1;
            && (VarsAvoid(ts, names) ==> VarsAvoid(after, names))
            && (NoVars(ts) ==> NoVars(after))
  {
    if ts.Cons? && ts.head.Plain? {
      SpanRest(ts.tail, names);
    }
  }

  // ---------- Envoy reads back exactly what was written ----------

  lemma {:induction false} ParseRender(ts: Tokens, allowed: string -> bool)
    requires TokensOk(ts) && VarsIn(ts, allowed)
    ensures Parse(Render(ts), allowed) == Some(ts)
  {
    if ts.Cons? {
      var r := Render(ts.tail);
      ParseRender(ts.tail, allowed);
      match ts.head
      case Plain(c) => assert ([c] + r)[1..] == r;
      case Pair => assert ("%" + ("%" + r))[2..] == r;
      case Var(n) => ParseVar(n, r, allowed);
    }
  }

  lemma ParseVar(n: string, r: string, allowed: string -> bool)
    requires n != "" && PercentFree(n) && allowed(n)
    ensures Parse("%" + (n + ("%" + r)), allowed) == Prepend(Var(n), Parse(r, allowed))
  {
    var w := "%" + (n + ("%" + r));
    assert w[1] == n[0];
    assert w[1..] == n + ("%" + r);
    IndexOfAt(n, "%" + r);
    assert w[1..1 + |n|] == n;
    assert w[|n| + 2..] == r;
  }

  // ---------- What a pass does to the tokens ----------

  lemma {:induction false} SpanMeaning(ts: Tokens)
    ensures Meaning(ts) == Span(ts).0 + Meaning(Span(ts).1)
  {
    match ts
    case Cons(Plain(c), rest) =>
      SpanMeaning(rest);
      var (v, after) := Span(rest);
      assert [c] + (v + Meaning(after)) == ([c] + v) + Meaning(after);
    case _ =>
      assert "" + Meaning(ts) == Meaning(ts);
  }

  /** Unescaping a variable does not change the text the user wrote. */
  lemma {:induction false} PassMeaning(ts: Tokens, names: Names)
    ensures Meaning(TokenPass(ts, names, AsVariable)) == Meaning(ts)
    decreases Length(ts)
  {
    if ts.Cons? {
      if Hit(ts, names) {
        SpanMeaning(ts.tail);
        PassMeaning(HeadRef(ts).value.1, names);
      } else {
        PassMeaning(ts.tail, names);
      }
    }
  }

  /** A pass that writes variables keeps the tokens well formed and writes only allowed ones. */
  lemma {:induction false} PassTokens(ts: Tokens, names: Names, allowed: string -> bool)
    requires TokensOk(ts) && VarsIn(ts, allowed) && !names.Has("")
    requires forall n | names.Has(n) :: allowed(n)
    ensures TokensOk(TokenPass(ts, names, AsVariable)) && VarsIn(TokenPass(ts, names, AsVariable), allowed)
    decreases Length(ts)
  {
    if ts.Cons? {
      if Hit(ts, names) {
        HeadNameAtPair(ts.tail);
        RefVars(ts.tail, allowed);
        PassTokens(HeadRef(ts).value.1, names, allowed);
      } else {
        PassTokens(ts.tail, names, allowed);
      }
    }
  }

  lemma {:induction false} RefVars(ts: Tokens, allowed: string -> bool)
    requires VarsIn(ts, allowed)
    ensures VarsIn(Span(ts).1, allowed)
  {
    if ts.Cons? && ts.head.Plain? {
      RefVars(ts.tail, allowed);
    }
  }

  /** A pass that writes plain text keeps the tokens well formed and free of variables. */
  lemma {:induction false} PassText(ts: Tokens, names: Names, text: string)
    requires TokensOk(ts) && NoVars(ts) && PercentFree(text)
    ensures TokensOk(TokenPass(ts, names, AsText(text))) && NoVars(TokenPass(ts, names, AsText(text)))
    decreases Length(ts)
  {
    if ts.Cons? {
      if Hit(ts, names) {
        var rest := HeadRef(ts).value.1;
        HeadNameAtPair(ts.tail);
        RefRest(ts, names);
        PassText(rest, names, text);
        TextOk(text, TokenPass(rest, names, AsText(text)));
      } else {
        PassText(ts.tail, names, text);
      }
    }
  }

  lemma {:induction false} TextOk(s: string, rest: Tokens)
    requires PercentFree(s) && TokensOk(rest) && NoVars(rest)
    ensures TokensOk(TextThen(s, rest)) && NoVars(TextThen(s, rest))
  {
    if s != "" {
      TextOk(s[1..], rest);
    }
  }

  lemma {:induction false} PassSpan(ts: Tokens, names: Names)
    ensures var r := Span(TokenPass(ts, names, AsVariable)); var (v, after) := Span(ts);
            r == (v, TokenPass(after, names, AsVariable))
    decreases Length(ts)
  {
    if ts.Cons? && ts.head.Plain? {
      PassSpan(ts.tail, names);
    }
  }

  /** A pass creates no reference: one that starts its output started its input. */
  lemma PassRefs(ts: Tokens, names: Names, w: string)
    requires IsRef(TokenPass(ts, names, AsVariable), w)
    ensures IsRef(ts, w) && !names.Has(w)
  {
    assert !Hit(ts, names);
    PassSpan(ts.tail, names);
  }

  lemma {:induction false} NoRefSpan(ts: Tokens, w: string)
    requires NoRef(ts, w)
    ensures NoRef(Span(ts).1, w)
  {
    if ts.Cons? && ts.head.Plain? {
      NoRefSpan(ts.tail, w);
    }
  }

  /** After a pass no reference it looks for is left, and none comes back in a later pass. */
  lemma {:induction false} PassNoRef(ts: Tokens, names: Names, w: string)
    requires names.Has(w) || NoRef(ts, w)
    ensures NoRef(TokenPass(ts, names, AsVariable), w)
    decreases Length(ts)
  {
    if ts.Cons? {
      if Hit(ts, names) {
        if !names.Has(w) { NoRefSpan(ts.tail, w); }
        PassNoRef(HeadRef(ts).value.1, names, w);
      } else {
        PassNoRef(ts.tail, names, w);
        if IsRef(TokenPass(ts, names, AsVariable), w) { PassRefs(ts, names, w); }
      }
    }
  }

  lemma {:induction false} PassPlain(ts: Tokens, names: Names, sub: Sub)
    requires AllPlain(ts)
    ensures TokenPass(ts, names, sub) == ts
    decreases Length(ts)
  {
    if ts.Cons? {
      PassPlain(ts.tail, names, sub);
    }
  }

  // ---------- The value as the user wrote it ----------

  function Lex(s: string): Tokens {
    if s == "" then Nil else Cons(if s[0] == '%' then Pair else Plain(s[0]), Lex(s[1..]))
  }

  /** Doubling every percent sign writes each of them as a pair. */
  lemma {:induction false} DoublingIsLex(s: string)
    ensures ReplaceAll(s, "%", "%%") == Render(Lex(s))
    ensures TokensOk(Lex(s)) && NoVars(Lex(s)) && Meaning(Lex(s)) == s
  {
    if s != "" {
      DoublingIsLex(s[1..]);
      assert "%" <= s <==> s[0] == '%';
      assert "%%" + Render(Lex(s[1..])) == "%" + ("%" + Render(Lex(s[1..])));
    }
  }

  lemma {:induction false} LexText(a: string, s: string)
    requires PercentFree(a)
    ensures Lex(a + s) == TextThen(a, Lex(s))
  {
    if a == "" {
      assert a + s == s;
    } else {
      LexText(a[1..], s);
      SplitHead(a, s);
      assert ([a[0]] + (a[1..] + s))[1..] == a[1..] + s;
    }
  }

  // ---------- Tokens without variables ----------

  lemma {:induction false} MeaningTells(a: Tokens, b: Tokens)
    requires TokensOk(a) && NoVars(a) && TokensOk(b) && NoVars(b) && Meaning(a) == Meaning(b)
    ensures a == b
  {
    if a.Cons? && b.Cons? {
      assert Meaning(a)[0] == Meaning(b)[0];
      assert Meaning(a)[1..] == Meaning(a.tail) && Meaning(b)[1..] == Meaning(b.tail);
      MeaningTells(a.tail, b.tail);
    }
  }

  /** Every reference to an allowed variable has been turned into that variable. */
  ghost predicate AllUnescaped(ts: Tokens) {
    forall v | Allowed(v) :: NoRef(ts, v)
  }

  lemma {:induction false} PlainMeaning(ts: Tokens)
    requires NoVars(ts)
    ensures PercentFree(Meaning(ts)) ==> AllPlain(ts) && Render(ts) == Meaning(ts)
  {
    if ts.Cons? {
      PlainMeaning(ts.tail);
      assert ts.head.Pair? ==> Meaning(ts)[0] == '%';
      assert ts.head.Plain? && PercentFree(Meaning(ts)) ==> PercentFree(Meaning(ts.tail)) by {
        assert ts.head.Plain? ==> Meaning(ts)[1..] == Meaning(ts.tail);
      }
    }
  }

  lemma {:induction false} NoVarsAvoid(ts: Tokens, names: Names)
    requires NoVars(ts)
    ensures VarsAvoid(ts, names) && forall allowed: string -> bool :: VarsIn(ts, allowed)
  {
    if ts.Cons? {
      NoVarsAvoid(ts.tail, names);
    }
  }

  lemma RenderTells(a: Tokens, b: Tokens)
    requires TokensOk(a) && NoVars(a) && TokensOk(b) && NoVars(b) && Render(a) == Render(b)
    ensures a == b
  {
    NoVarsAvoid(a, ReqForm);
    NoVarsAvoid(b, ReqForm);
    ParseRender(a, Allowed);
    ParseRender(b, Allowed);
  }
}
