/**
 The replacement of dynamic headers in a header value, one after the other, in the order in which a map happens to be
 iterated: when the order makes a difference, and what the result is when it does not.
 */
module DynamicHeaders {
  import opened Wrappers
  import opened HeaderTokens
  import Strings = Text

  // ---------- References to dynamic headers ----------

  predicate DynamicPercentFree(dynamicHeaders: map<string, string>) {
    forall k | k in dynamicHeaders :: PercentFree(k) && PercentFree(dynamicHeaders[k])
  }

  lemma CutAt(s: string, i: nat)
    requires i < |s|
    ensures s == s[..i] + ([s[i]] + s[i + 1..])
  {
  }

  /** The reference `%v%` that the value starts with, and what follows it. */
  function RefAt(s: string): (r: Option<(string, string)>)
    ensures r.Some? ==> |r.value.1| + |r.value.0| + 2 == |s|
  {
    if s == "" || s[0] != '%' then None else
    var j := Strings.IndexOf(s[1..], '%');
    if 1 + j < |s| then Some((s[1..1 + j], s[j + 2..])) else None
  }

  predicate RefersTo(s: string, dynamicHeaders: map<string, string>) {
    RefAt(s).Some? && RefAt(s).value.0 in dynamicHeaders
  }

  /** What is left to read after the reference, or the character, that the value starts with. */
  function Onward(s: string, dynamicHeaders: map<string, string>): (r: string)
    requires s != ""
    ensures |r| < |s|
  {
    if RefersTo(s, dynamicHeaders) then RefAt(s).value.1 else s[1..]
  }

  /** The value with every reference to a dynamic header replaced, from left to right. */
  function Replaced(s: string, dynamicHeaders: map<string, string>): string {
    if s == "" then ""
    else if RefersTo(s, dynamicHeaders) then
      var (v, rest) := RefAt(s).value;
      dynamicHeaders[v] + Replaced(rest, dynamicHeaders)
    else [s[0]] + Replaced(s[1..], dynamicHeaders)
  }

  /** The percent sign that ends a reference does not start a reference to another dynamic header. */
  predicate EndsApart(s: string, dynamicHeaders: map<string, string>) {
    RefersTo(s, dynamicHeaders) ==>
      var next := "%" + RefAt(s).value.1;
      RefersTo(next, dynamicHeaders) ==> RefAt(next).value.0 == RefAt(s).value.0
  }

  /** Read from left to right, no reference shares its last percent sign with a reference to another header. */
  predicate ReadsApart(s: string, dynamicHeaders: map<string, string>)
    decreases |s|
  {
    s == "" || (EndsApart(s, dynamicHeaders) && ReadsApart(Onward(s, dynamicHeaders), dynamicHeaders))
  }

  /** No dynamic value occurs in a dynamic name, so replacing one reference makes up no other. */
  ghost predicate NoValueInName(dynamicHeaders: map<string, string>) {
    forall k, w | k in dynamicHeaders && w in dynamicHeaders :: !Strings.Occurs(dynamicHeaders[w], k)
  }

  /** The order in which the dynamic headers are replaced makes no difference. */
  ghost predicate Orderly(value: string, dynamicHeaders: map<string, string>) {
    NoValueInName(dynamicHeaders) && ReadsApart(value, dynamicHeaders)
  }

  /** The tokens of the value with the references to the given headers replaced by text. */
  function ReplacedTokens(s: string, part: map<string, string>): Tokens {
    if s == "" then Nil
    else if RefersTo(s, part) then
      var (v, rest) := RefAt(s).value;
      TextThen(part[v], ReplacedTokens(rest, part))
    else Cons(if s[0] == '%' then Pair else Plain(s[0]), ReplacedTokens(s[1..], part))
  }

  lemma RefAtNone(s: string)
    requires s != "" && s[0] == '%' && RefAt(s).None?
    ensures PercentFree(s[1..])
  {
    Strings.IndexOfIs(s[1..], '%');
    assert s[1..][..|s| - 1] == s[1..];
  }

  lemma RefAtSome(s: string)
    requires RefAt(s).Some?
    ensures var (v, rest) := RefAt(s).value;
            PercentFree(v) && s[1..] == v + ("%" + rest)
  {
    var t := s[1..];
    var j := Strings.IndexOf(t, '%');
    Strings.IndexOfIs(t, '%');
    CutAt(t, j);
    assert t[..j] == s[1..1 + j] && t[j + 1..] == s[j + 2..];
  }

  lemma RefAtOf(v: string, rest: string)
    requires PercentFree(v)
    ensures RefAt("%" + (v + ("%" + rest))) == Some((v, rest))
  {
    var s := "%" + (v + ("%" + rest));
    assert s[1..] == v + ("%" + rest);
    IndexOfAt(v, "%" + rest);
    assert s[1..1 + |v|] == v && s[|v| + 2..] == rest;
  }

  /** Text without percent signs is copied. */
  lemma {:induction false} ReplacedText(v: string, x: string, part: map<string, string>)
    requires PercentFree(v)
    ensures ReplacedTokens(v + x, part) == TextThen(v, ReplacedTokens(x, part))
    ensures Replaced(v + x, part) == v + Replaced(x, part)
  {
    if v == "" {
      assert v + x == x;
    } else {
      SplitHead(v, x);
      assert (v + x)[0] == v[0] && (v + x)[1..] == v[1..] + x;
      ReplacedText(v[1..], x, part);
      assert [v[0]] + (v[1..] + Replaced(x, part)) == v + Replaced(x, part);
    }
  }

  lemma {:induction false} TextMeaning(t: string, rest: Tokens)
    ensures Meaning(TextThen(t, rest)) == t + Meaning(rest)
  {
    if t == "" {
      assert t + Meaning(rest) == Meaning(rest);
    } else {
      TextMeaning(t[1..], rest);
      SplitHead(t, Meaning(rest));
    }
  }

  lemma {:induction false} ReplacedMeaning(s: string, part: map<string, string>)
    ensures Meaning(ReplacedTokens(s, part)) == Replaced(s, part)
  {
    if s != "" {
      if RefersTo(s, part) {
        var (v, rest) := RefAt(s).value;
        ReplacedMeaning(rest, part);
        TextMeaning(part[v], ReplacedTokens(rest, part));
      } else {
        ReplacedMeaning(s[1..], part);
      }
    }
  }

  lemma {:induction false} SpanOf(k: string, rest: Tokens)
    requires !(rest.Cons? && rest.head.Plain?)
    ensures Span(TextThen(k, rest)) == (k, rest)
  {
    if k != "" {
      SpanOf(k[1..], rest);
      assert k == [k[0]] + k[1..];
    }
  }

  lemma {:induction false} SpanText(t: string, rest: Tokens)
    ensures Span(TextThen(t, rest)) == (t + Span(rest).0, Span(rest).1)
  {
    if t == "" {
      assert t + Span(rest).0 == Span(rest).0;
    } else {
      SpanText(t[1..], rest);
      SplitHead(t, Span(rest).0);
    }
  }

  lemma {:induction false} SpanThen(ts: Tokens)
    ensures ts == TextThen(Span(ts).0, Span(ts).1) && !(Span(ts).1.Cons? && Span(ts).1.head.Plain?)
  {
    match ts
    case Cons(Plain(c), rest) =>
      SpanThen(rest);
      assert ([c] + Span(rest).0)[1..] == Span(rest).0;
    case _ =>
  }

  lemma {:induction false} TextThenInjective(t: string, a: Tokens, b: Tokens)
    requires TextThen(t, a) == TextThen(t, b)
    ensures a == b
  {
    if t != "" {
      TextThenInjective(t[1..], a, b);
    }
  }

  /** Plain text in front is copied by every pass. */
  lemma {:induction false} PassAfterText(a: string, ts: Tokens, names: Names, sub: Sub)
    ensures TokenPass(TextThen(a, ts), names, sub) == TextThen(a, TokenPass(ts, names, sub))
  {
    if a != "" {
      PassAfterText(a[1..], ts, names, sub);
    }
  }

  lemma {:induction false} TextPlain(s: string, rest: Tokens)
    requires AllPlain(rest)
    ensures AllPlain(TextThen(s, rest))
  {
    if s != "" {
      TextPlain(s[1..], rest);
    }
  }

  // ---------- Passes for several dynamic headers ----------

  /** One pass for each of the headers, in this order. */
  function Passes(ts: Tokens, order: seq<string>, d: map<string, string>): Tokens
    requires forall k | k in order :: k in d
  {
    if order == [] then ts
    else
      var k := order[|order| - 1];
      TokenPass(Passes(ts, order[..|order| - 1], d), Only(k), AsText(d[k]))
  }

  /** The doubled reference to `u`, then `rest`. */
  function RefTokens(u: string, rest: Tokens): Tokens {
    Cons(Pair, TextThen(u, Cons(Pair, rest)))
  }

  /** A pair in front of `ts` starts no reference to any of the headers. */
  predicate Sealed(ts: Tokens, headers: set<string>) {
    forall k | k in headers :: !Hit(Cons(Pair, ts), Only(k))
  }

  /** A pair in front of text that ends with a replaced reference starts no reference to a dynamic header. */
  lemma MadeUp(v: string, w: string, rest: Tokens, d: map<string, string>)
    requires NoValueInName(d) && w in d
    ensures Sealed(TextThen(v, TextThen(d[w], rest)), d.Keys)
  {
    var x := d[w];
    var (y, after) := Span(rest);
    SpanText(v, TextThen(x, rest));
    SpanText(x, rest);
    Strings.OccursWithin(v, x, y);
    hide Span, TextThen, Strings.Occurs;
  }

  /** A pass does not make up references. */
  lemma PassSealed(ts: Tokens, headers: set<string>, k: string, d: map<string, string>)
    requires NoValueInName(d) && headers <= d.Keys && k in d && Sealed(ts, headers)
    ensures Sealed(TokenPass(ts, Only(k), AsText(d[k])), headers)
  {
    var (a, rest) := Span(ts);
    SpanThen(ts);
    var more := TokenPass(rest, Only(k), AsText(d[k]));
    PassAfterText(a, rest, Only(k), AsText(d[k]));
    if Hit(rest, Only(k)) {
      MadeUp(a, k, TokenPass(HeadRef(rest).value.1, Only(k), AsText(d[k])), d);
    } else {
      SpanOf(a, more);
    }
  }

  lemma PassThroughRef(u: string, ts: Tokens, k: string, d: map<string, string>)
    requires k in d && Sealed(ts, d.Keys - {u})
    ensures var more := TokenPass(ts, Only(k), AsText(d[k]));
            TokenPass(RefTokens(u, ts), Only(k), AsText(d[k])) ==
            if k == u then TextThen(d[u], more) else RefTokens(u, more)
  {
    SpanOf(u, Cons(Pair, ts));
    PassAfterText(u, Cons(Pair, ts), Only(k), AsText(d[k]));
  }

  /** A reference that shares no percent sign with another is replaced on its own, whatever the order. */
  lemma {:induction false} PassesThroughRef(u: string, ts: Tokens, order: seq<string>, d: map<string, string>)
    requires NoValueInName(d) && Sealed(ts, d.Keys - {u}) && forall k | k in order :: k in d
    ensures Sealed(Passes(ts, order, d), d.Keys - {u})
    ensures Passes(RefTokens(u, ts), order, d) ==
            if u in order then TextThen(d[u], Passes(ts, order, d)) else RefTokens(u, Passes(ts, order, d))
  {
    hide TokenPass, Sealed, NoValueInName, RefTokens;
    if order != [] {
      var init, k := order[..|order| - 1], order[|order| - 1];
      assert order == init + [k];
      PassesThroughRef(u, ts, init, d);
      PassSealed(Passes(ts, init, d), d.Keys - {u}, k, d);
      if u in init {
        PassAfterText(d[u], Passes(ts, init, d), Only(k), AsText(d[k]));
      } else {
        PassThroughRef(u, Passes(ts, init, d), k, d);
      }
    }
  }

  /** A token that starts no reference is copied, whatever the order. */
  lemma {:induction false} PassesThroughToken(t: Token, ts: Tokens, order: seq<string>, d: map<string, string>)
    requires NoValueInName(d) && (t.Pair? ==> Sealed(ts, d.Keys)) && forall k | k in order :: k in d
    ensures t.Pair? ==> Sealed(Passes(ts, order, d), d.Keys)
    ensures Passes(Cons(t, ts), order, d) == Cons(t, Passes(ts, order, d))
  {
    hide NoValueInName;
    if order != [] {
      var init, k := order[..|order| - 1], order[|order| - 1];
      PassesThroughToken(t, ts, init, d);
      if t.Pair? {
        PassSealed(Passes(ts, init, d), d.Keys, k, d);
      }
    }
  }

  /** A percent sign starts the same reference in the value and in its tokens. */
  lemma LexRef(s: string)
    requires s != "" && s[0] == '%'
    ensures HeadRef(Lex(s)) == if RefAt(s).Some? then Some((RefAt(s).value.0, Lex(RefAt(s).value.1))) else None
    ensures RefAt(s).Some? ==> Lex(s) == RefTokens(RefAt(s).value.0, Lex(RefAt(s).value.1))
  {
    if RefAt(s).Some? {
      var (v, rest) := RefAt(s).value;
      RefAtSome(s);
      LexText(v, "%" + rest);
      assert ("%" + rest)[1..] == rest;
      SpanOf(v, Cons(Pair, Lex(rest)));
    } else {
      RefAtNone(s);
      LexText(s[1..], "");
      assert s[1..] + "" == s[1..];
      SpanOf(s[1..], Nil);
    }
  }

  /** What all passes together do to the reference, or the character, that the value starts with. */
  lemma PassesRead(s: string, order: seq<string>, d: map<string, string>)
    requires s != "" && NoValueInName(d) && EndsApart(s, d) && forall k | k in order :: k in d
    ensures var rest := Passes(Lex(Onward(s, d)), order, d);
            Passes(Lex(s), order, d) ==
            if !RefersTo(s, d) then Cons(Lex(s).head, rest)
            else if RefAt(s).value.0 in order then TextThen(d[RefAt(s).value.0], rest)
            else RefTokens(RefAt(s).value.0, rest)
  {
    hide NoValueInName, RefTokens, Passes;
    if s[0] == '%' { LexRef(s); }
    if RefersTo(s, d) {
      var (u, rest) := RefAt(s).value;
      LexRef("%" + rest);
      assert ("%" + rest)[1..] == rest;
      PassesThroughRef(u, Lex(rest), order, d);
    } else {
      PassesThroughToken(Lex(s).head, Lex(s[1..]), order, d);
    }
  }

  function Part(d: map<string, string>, order: seq<string>): map<string, string>
    requires forall k | k in order :: k in d
  {
    map k | k in order :: d[k]
  }

  /** If the value reads apart, the passes for any headers in any order replace exactly the references to them. */
  lemma {:induction false} PassesReplace(s: string, order: seq<string>, d: map<string, string>)
    requires Orderly(s, d) && forall k | k in order :: k in d
    ensures Passes(Lex(s), order, d) == ReplacedTokens(s, Part(d, order))
    decreases |s|
  {
    hide NoValueInName, Passes;
    if s == "" {
      PassesNil(order, d);
    } else {
      PassesRead(s, order, d);
      PassesReplace(Onward(s, d), order, d);
      if RefersTo(s, d) && RefAt(s).value.0 !in order {
        var (u, rest) := RefAt(s).value;
        RefAtSome(s);
        ReplacedText(u, "%" + rest, Part(d, order));
        assert ("%" + rest)[1..] == rest;
      }
    }
  }

  lemma {:induction false} PassesNil(order: seq<string>, d: map<string, string>)
    requires forall k | k in order :: k in d
    ensures Passes(Nil, order, d) == Nil
  {
    if order != [] {
      PassesNil(order[..|order| - 1], d);
    }
  }

  // ---------- When the order decides ----------

  lemma {:induction false} PassesAfterText(a: string, ts: Tokens, order: seq<string>, d: map<string, string>)
    requires forall k | k in order :: k in d
    ensures Passes(TextThen(a, ts), order, d) == TextThen(a, Passes(ts, order, d))
  {
    hide TokenPass;
    if order != [] {
      var init, k := order[..|order| - 1], order[|order| - 1];
      PassesAfterText(a, ts, init, d);
      PassAfterText(a, Passes(ts, init, d), Only(k), AsText(d[k]));
    }
  }

  lemma {:induction false} PassesFirst(ts: Tokens, k: string, order: seq<string>, d: map<string, string>)
    requires k in d && forall n | n in order :: n in d
    ensures Passes(ts, [k] + order, d) == Passes(TokenPass(ts, Only(k), AsText(d[k])), order, d)
  {
    hide TokenPass;
    if order == [] {
      assert ([k] + order)[..0] == [] && [k] + order == [k];
    } else {
      PassesFirst(ts, k, order[..|order| - 1], d);
      assert ([k] + order)[..|order|] == [k] + order[..|order| - 1];
    }
  }

  /** The header `v` comes first: its reference is replaced, so the result starts with text. */
  lemma FirstHeaderFirst(v: string, w: string, more: Tokens, order: seq<string>, d: map<string, string>)
    requires v in d && d[v] != "" && forall k | k in order :: k in d
    ensures var r := Passes(RefTokens(v, TextThen(w, Cons(Pair, more))), [v] + order, d);
            r.Cons? && r.head.Plain?
  {
    var tail := TextThen(w, Cons(Pair, more));
    var rest := TokenPass(tail, Only(v), AsText(d[v]));
    PassesFirst(RefTokens(v, tail), v, order, d);
    SpanOf(v, Cons(Pair, tail));
    assert TokenPass(RefTokens(v, tail), Only(v), AsText(d[v])) == TextThen(d[v], rest);
    PassesAfterText(d[v], rest, order, d);
  }

  /** The header `w` comes first: what is before its reference is no reference any more, so the result starts
      with a pair. */
  lemma SecondHeaderFirst(v: string, w: string, more: Tokens, order: seq<string>, d: map<string, string>)
    requires v != w && w in d && NoValueInName(d) && forall k | k in order :: k in d
    ensures var r := Passes(RefTokens(v, TextThen(w, Cons(Pair, more))), [w] + order, d);
            r.Cons? && r.head.Pair?
  {
    var tail := TextThen(w, Cons(Pair, more));
    var rest := TokenPass(more, Only(w), AsText(d[w]));
    PassesFirst(RefTokens(v, tail), w, order, d);
    SpanOf(v, Cons(Pair, tail));
    SpanOf(w, Cons(Pair, more));
    PassAfterText(v, Cons(Pair, tail), Only(w), AsText(d[w]));
    assert TokenPass(RefTokens(v, tail), Only(w), AsText(d[w])) == Cons(Pair, TextThen(v, TextThen(d[w], rest)));
    MadeUp(v, w, rest, d);
    PassesThroughToken(Pair, TextThen(v, TextThen(d[w], rest)), order, d);
  }

  ghost predicate Lists(order: seq<string>, keys: set<string>) {
    (forall k :: k in order <==> k in keys) && multiset(order) == multiset(keys)
  }

  /** All headers, each once: an order in which a map may be iterated. */
  ghost predicate IsOrder(order: seq<string>, d: map<string, string>) {
    Lists(order, d.Keys)
  }

  lemma ListsMore(order: seq<string>, keys: set<string>, k: string)
    requires Lists(order, keys) && k !in keys
    ensures Lists(order + [k], keys + {k}) && Lists([k] + order, keys + {k})
  {
  }

  lemma AnyOrder(keys: set<string>) returns (order: seq<string>)
    ensures Lists(order, keys)
  {
    if keys == {} {
      order := [];
    } else {
      hide Lists;
      var k :| k in keys;
      order := AnyOrder(keys - {k});
      ListsMore(order, keys - {k}, k);
      assert keys - {k} + {k} == keys;
      order := order + [k];
    }
  }

  lemma ListsTwoMore(order: seq<string>, d: map<string, string>, v: string, w: string)
    requires v in d && w in d && v != w && Lists(order, d.Keys - {v, w})
    ensures IsOrder([v] + ([w] + order), d) && forall k | k in order :: k in d
  {
    ListsMore(order, d.Keys - {v, w}, w);
    assert d.Keys - {v, w} + {w} == d.Keys - {v};
    ListsMore([w] + order, d.Keys - {v}, v);
    assert d.Keys - {v} + {v} == d.Keys;
  }

  /** Two orders that differ in which of the two headers comes first. */
  lemma TwoOrders(v: string, w: string, d: map<string, string>) returns (order: seq<string>)
    requires v in d && w in d && v != w
    ensures IsOrder([v] + ([w] + order), d) && IsOrder([w] + ([v] + order), d)
    ensures forall k | k in order :: k in d
  {
    hide Lists, IsOrder;
    order := AnyOrder(d.Keys - {v, w});
    assert {v, w} == {w, v};
    ListsTwoMore(order, d, v, w);
    ListsTwoMore(order, d, w, v);
  }

  /** If the value does not read apart, the results of two orders differ. */
  lemma {:induction false} PassesDiffer(s: string, d: map<string, string>) returns (p: seq<string>, q: seq<string>)
    requires NoValueInName(d) && !ReadsApart(s, d)
    ensures IsOrder(p, d) && IsOrder(q, d)
    ensures Passes(Lex(s), p, d) != Passes(Lex(s), q, d)
    decreases |s|
  {
    hide NoValueInName, Passes;
    if EndsApart(s, d) {
      p, q := PassesDiffer(Onward(s, d), d);
      PassesRead(s, p, d);
      PassesRead(s, q, d);
      if RefersTo(s, d) && Passes(Lex(s), p, d) == Passes(Lex(s), q, d) {
        TextThenInjective(d[RefAt(s).value.0], Passes(Lex(Onward(s, d)), p, d), Passes(Lex(Onward(s, d)), q, d));
      }
    } else {
      var v, w, more := SharedPercent(s, d);
      var others := TwoOrders(v, w, d);
      p, q := [v] + ([w] + others), [w] + ([v] + others);
      ValueNotEmpty(v, d);
      FirstHeaderFirst(v, w, more, [w] + others, d);
      SecondHeaderFirst(v, w, more, [v] + others, d);
    }
  }

  lemma ValueNotEmpty(v: string, d: map<string, string>)
    requires NoValueInName(d) && v in d
    ensures d[v] != ""
  {
    Strings.OccursWithin("", "", v);
    assert "" + ("" + v) == v;
  }

  /** Two references that share a percent sign. */
  lemma SharedPercent(s: string, d: map<string, string>) returns (v: string, w: string, more: Tokens)
    requires !EndsApart(s, d)
    ensures v in d && w in d && v != w && Lex(s) == RefTokens(v, TextThen(w, Cons(Pair, more)))
  {
    var next := "%" + RefAt(s).value.1;
    v, w, more := RefAt(s).value.0, RefAt(next).value.0, Lex(RefAt(next).value.1);
    LexRef(s);
    LexRef(next);
    assert next[1..] == RefAt(s).value.1;
  }

  // ---------- The replacements on the text ----------

  /** The first two steps of the escaping: percent signs are doubled, and the dynamic headers replaced. */
  function ReplaceInOrder(value: string, order: seq<string>, d: map<string, string>): string
    requires forall k | k in order :: k in d
  {
    if order == [] then ReplaceAll(value, "%", "%%")
    else
      var k := order[|order| - 1];
      ReplaceAll(ReplaceInOrder(value, order[..|order| - 1], d), "%" + ("%" + (k + "%%")), d[k])
  }

  /** Replacing a doubled reference by text is a pass over the tokens. */
  lemma TextPass(ts: Tokens, escaped: string, key: string, text: string, pat: string)
    requires TokensOk(ts) && NoVars(ts) && Render(ts) == escaped && PercentFree(key) && PercentFree(text)
    requires pat == "%" + ("%" + (key + "%%"))
    ensures var more := TokenPass(ts, Only(key), AsText(text));
            TokensOk(more) && NoVars(more) && Render(more) == ReplaceAll(escaped, pat, text)
  {
    hide TokenPass, Render, TokensOk, NoVars, ReplaceAll;
    NoVarsAvoid(ts, Only(key));
    ReplaceAllIsRawPass(escaped, key, AsText(text), pat);
    RawPassIsTokenPass(ts, Only(key), AsText(text));
    PassText(ts, Only(key), text);
  }

  /** The replacements on the text are the passes over the tokens. */
  lemma {:induction false} ReplacementsArePasses(value: string, order: seq<string>, d: map<string, string>)
    requires DynamicPercentFree(d) && forall k | k in order :: k in d
    ensures var ts := Passes(Lex(value), order, d);
            TokensOk(ts) && NoVars(ts) && Render(ts) == ReplaceInOrder(value, order, d)
  {
    hide TokenPass, Render, TokensOk, NoVars, ReplaceAll, PercentFree;
    if order == [] {
      DoublingIsLex(value);
    } else {
      var init, k := order[..|order| - 1], order[|order| - 1];
      ReplacementsArePasses(value, init, d);
      TextPass(Passes(Lex(value), init, d), ReplaceInOrder(value, init, d), k, d[k], "%" + ("%" + (k + "%%")));
    }
  }

  // ---------- Examples ----------

  lemma {:induction false} TextReadsApart(v: string, x: string, d: map<string, string>)
    requires PercentFree(v)
    ensures ReadsApart(v + x, d) <==> ReadsApart(x, d)
    decreases |v|
  {
    if v == "" {
      assert v + x == x;
    } else {
      assert (v + x)[0] == v[0] && (v + x)[1..] == v[1..] + x;
      TextReadsApart(v[1..], x, d);
    }
  }

  /** The value `%a%b%`. */
  function Overlap(a: string, b: string): string {
    "%" + (a + ("%" + (b + ("%" + ""))))
  }

  lemma LexOverlap(a: string, b: string)
    requires PercentFree(a) && PercentFree(b)
    ensures Lex(Overlap(a, b)) == Cons(Pair, TextThen(a, Cons(Pair, TextThen(b, Cons(Pair, Nil)))))
  {
    var t := b + ("%" + "");
    assert ("%" + "")[1..] == "";
    LexText(b, "%" + "");
    assert ("%" + t)[1..] == t;
    LexText(a, "%" + t);
    assert Overlap(a, b)[1..] == a + ("%" + t);
  }

  lemma FirstOfTwo(a: string, b: string, x: string, y: string)
    requires PercentFree(a) && PercentFree(b)
    ensures TokenPass(TokenPass(Lex(Overlap(a, b)), Only(a), AsText(x)), Only(b), AsText(y)) ==
            TextThen(x, TextThen(b, Cons(Pair, Nil)))
  {
    var end := Cons(Pair, Nil);
    LexOverlap(a, b);
    SpanOf(a, Cons(Pair, TextThen(b, end)));
    PassAfterText(b, end, Only(a), AsText(x));
    PassAfterText(x, TextThen(b, end), Only(b), AsText(y));
    PassAfterText(b, end, Only(b), AsText(y));
  }

  lemma SecondOfTwo(a: string, b: string, x: string, y: string)
    requires PercentFree(a) && PercentFree(b) && a != b
    ensures TokenPass(TokenPass(Lex(Overlap(a, b)), Only(b), AsText(y)), Only(a), AsText(x)) ==
            Cons(Pair, TextThen(a, TextThen(y, Nil)))
  {
    var end := Cons(Pair, Nil);
    var tail := Cons(Pair, TextThen(b, end));
    LexOverlap(a, b);
    SpanOf(a, tail);
    SpanOf(b, end);
    PassAfterText(a, tail, Only(b), AsText(y));
    SpanText(a, TextThen(y, Nil));
    SpanText(y, Nil);
    PassAfterText(a, TextThen(y, Nil), Only(a), AsText(x));
    PassAfterText(y, Nil, Only(a), AsText(x));
  }

  /** References to two dynamic headers that share a percent sign: whichever header comes first is replaced, and
      the other reference is gone, so the order decides. */
  lemma OrderDecides(a: string, b: string, x: string, y: string)
    requires PercentFree(a) && PercentFree(b) && a != b
    ensures !ReadsApart(Overlap(a, b), map[a := x, b := y])
    ensures var ts := Lex(Overlap(a, b));
            TokenPass(TokenPass(ts, Only(a), AsText(x)), Only(b), AsText(y)) !=
            TokenPass(TokenPass(ts, Only(b), AsText(y)), Only(a), AsText(x))
  {
    hide TokenPass;
    FirstOfTwo(a, b, x, y);
    SecondOfTwo(a, b, x, y);
    RefAtOf(a, b + ("%" + ""));
    RefAtOf(b, "");
  }

  /** Not every shared percent sign matters: `%a%a%b%` reads apart, as the reference to `a`, text, and the
      reference to `b`. */
  lemma TwiceReadsApart(a: string, b: string, d: map<string, string>)
    requires PercentFree(a) && PercentFree(b) && a in d && b in d
    ensures ReadsApart("%" + (a + ("%" + (a + ("%" + (b + ("%" + "")))))), d)
  {
    var end := b + ("%" + "");
    RefAtOf(a, a + ("%" + end));
    RefAtOf(a, end);
    RefAtOf(b, "");
    TextReadsApart(a, "%" + end, d);
  }

  // ---------- The dynamic headers of Contour ----------

  /** The names that Contour replaces, with values as Kubernetes has them: namespaces, names of services and
      ports are not empty and hold lower-case letters, digits, dashes and dots. */
  predicate ContourHeaders(d: map<string, string>) {
    forall k | k in d ::
      && k in ["CONTOUR_NAMESPACE", "CONTOUR_SERVICE_NAME", "CONTOUR_SERVICE_PORT"]
      && d[k] != "" && forall c | c in d[k] :: 'a' <= c <= 'z' || IsDigit(c) || c == '-' || c == '.'
  }

  predicate UpperCase(s: string) {
    forall c | c in s :: 'A' <= c <= 'Z' || c == '_'
  }

  lemma ContourNames()
    ensures UpperCase("CONTOUR_NAMESPACE") && UpperCase("CONTOUR_SERVICE_NAME") && UpperCase("CONTOUR_SERVICE_PORT")
  {
  }

  /** With Contour's own headers nothing but a shared percent sign makes the order matter. */
  lemma ContourHeadersAreOrdinary(d: map<string, string>)
    requires ContourHeaders(d)
    ensures DynamicPercentFree(d) && NoValueInName(d)
  {
    ContourNames();
    forall k, w | k in d && w in d ensures !Strings.Occurs(d[w], k) {
      assert d[w][0] in d[w] && UpperCase(k);
      Strings.FirstOccurs(d[w], k);
    }
  }
}
