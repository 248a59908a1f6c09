/**
 Escaping of user-supplied header values: every percent sign is doubled, dynamic headers are replaced, and the
 doubling is undone around a fixed list of variables, all with successive textual replacements.
 */
module HeaderEscape {
  import opened Wrappers
  import opened HeaderTokens
  import opened EnvoyVariables
  import opened DynamicHeaders

  lemma {:induction false} NoRefPlain(ts: Tokens, v: string)
    requires AllPlain(ts)
    ensures NoRef(ts, v)
  {
    if ts.Cons? {
      NoRefPlain(ts.tail, v);
    }
  }

  /** A value without percent signs is handed over as it is. */
  lemma PlainValue(value: string)
    requires PercentFree(value)
    ensures Parse(value, Allowed) == Some(Lex(value)) && AllUnescaped(Lex(value))
    ensures Meaning(Lex(value)) == value && forall dynamicHeaders :: Replaced(value, dynamicHeaders) == value
  {
    DoublingIsLex(value);
    LexText(value, "");
    TextPlain(value, Nil);
    TextRenders(value, Nil);
    assert value + "" == value;
    NoVarsAvoid(Lex(value), ReqForm);
    ParseRender(Lex(value), Allowed);
    forall v | Allowed(v) ensures NoRef(Lex(value), v) { NoRefPlain(Lex(value), v); }
    forall dynamicHeaders ensures Replaced(value, dynamicHeaders) == value {
      ReplacedText(value, "", dynamicHeaders);
    }
  }

  // ---------- The operation ----------

  /** The escaped value when the map of dynamic headers is iterated in this order. */
  function EscapedInOrder(value: string, order: seq<string>, d: map<string, string>): string
    requires forall k | k in order :: k in d
  {
    if '%' !in value then value
    else ReplaceReq(UnescapeVariables(ReplaceInOrder(value, order, d), |EnvoyVars|))
  }

  /** Whatever the order: Envoy can read the escaped value, and it stands for what the passes left. */
  lemma EscapedIs(value: string, order: seq<string>, d: map<string, string>)
    requires DynamicPercentFree(d) && forall k | k in order :: k in d
    requires '%' in value
    ensures var escaped := EscapedInOrder(value, order, d); var ts := Passes(Lex(value), order, d);
            && Parse(escaped, Allowed).Some? && AllUnescaped(Parse(escaped, Allowed).value)
            && Meaning(Parse(escaped, Allowed).value) == Meaning(ts)
            && (PercentFree(Meaning(ts)) ==> escaped == Meaning(ts))
  {
    hide Passes, ReplaceInOrder, UnescapeVariables, VariablePasses, VariablePhase, AllUnescaped, Parse, ReplaceReq;
    var ts := Passes(Lex(value), order, d);
    ReplacementsArePasses(value, order, d);
    VariablesUnescaped(ts, |EnvoyVars|);
    ReqStep(ts, VariablePasses(ts, |EnvoyVars|), UnescapeVariables(Render(ts), |EnvoyVars|));
    PlainMeaning(ts);
  }

  /** A value that reads apart stands for itself with the references replaced. */
  lemma OrderlyMeaning(value: string, order: seq<string>, d: map<string, string>)
    requires Orderly(value, d) && IsOrder(order, d)
    ensures Meaning(Passes(Lex(value), order, d)) == Replaced(value, d)
  {
    hide Orderly, Passes;
    assert Part(d, order) == d;
    PassesReplace(value, order, d);
    ReplacedMeaning(value, d);
  }

  /** Two orders after which the text differs, at once and when the escaping is done. */
  lemma OrdersDiffer(value: string, d: map<string, string>) returns (p: seq<string>, q: seq<string>)
    requires DynamicPercentFree(d) && NoValueInName(d) && !ReadsApart(value, d)
    ensures IsOrder(p, d) && IsOrder(q, d)
    ensures ReplaceInOrder(value, p, d) != ReplaceInOrder(value, q, d)
    ensures EscapedInOrder(value, p, d) != EscapedInOrder(value, q, d)
  {
    hide Passes, ReplaceInOrder, EscapedInOrder, NoValueInName, AllUnescaped, Parse;
    assert value + "" == value;
    if PercentFree(value) { TextReadsApart(value, "", d); }
    p, q := PassesDiffer(value, d);
    var a, b := Passes(Lex(value), p, d), Passes(Lex(value), q, d);
    ReplacementsArePasses(value, p, d);
    ReplacementsArePasses(value, q, d);
    EscapedIs(value, p, d);
    EscapedIs(value, q, d);
    if Meaning(a) == Meaning(b) { MeaningTells(a, b); }
    if Render(a) == Render(b) { RenderTells(a, b); }
  }

  /** The replaced text, and the escaped value, is one and the same for all orders of the map. */
  ghost predicate SameInAllOrders(value: string, d: map<string, string>) {
    forall p, q | IsOrder(p, d) && IsOrder(q, d) ::
      ReplaceInOrder(value, p, d) == ReplaceInOrder(value, q, d)
  }

  ghost predicate EscapedSameInAllOrders(value: string, d: map<string, string>) {
    forall p, q | IsOrder(p, d) && IsOrder(q, d) ::
      EscapedInOrder(value, p, d) == EscapedInOrder(value, q, d)
  }

  /** The order of the map makes no difference to the text exactly when the value reads apart; nor, then, to the
      escaped value. */
  lemma OrderIrrelevantIff(value: string, d: map<string, string>)
    requires DynamicPercentFree(d) && NoValueInName(d)
    ensures SameInAllOrders(value, d) <==> ReadsApart(value, d)
    ensures EscapedSameInAllOrders(value, d) <==> ReadsApart(value, d)
  {
    hide ReplaceInOrder, NoValueInName, ReadsApart, UnescapeVariables, Passes, ReplaceReq;
    if ReadsApart(value, d) {
      forall p, q | IsOrder(p, d) && IsOrder(q, d)
        ensures ReplaceInOrder(value, p, d) == ReplaceInOrder(value, q, d)
      {
        assert Part(d, p) == Part(d, q);
        PassesReplace(value, p, d);
        PassesReplace(value, q, d);
        ReplacementsArePasses(value, p, d);
        ReplacementsArePasses(value, q, d);
      }
    } else {
      var p, q := OrdersDiffer(value, d);
    }
  }

  lemma NoHeaders(value: string, d: map<string, string>)
    ensures Meaning(Passes(Lex(value), [], d)) == value
  {
    DoublingIsLex(value);
  }

  /** What the escaped value stands for, whatever the order. */
  lemma EscapedStands(value: string, order: seq<string>, d: map<string, string>)
    requires DynamicPercentFree(d) && IsOrder(order, d)
    ensures var escaped := EscapedInOrder(value, order, d);
            && Parse(escaped, Allowed).Some? && AllUnescaped(Parse(escaped, Allowed).value)
            && (d == map[] ==> Meaning(Parse(escaped, Allowed).value) == value)
            && (Orderly(value, d) ==>
                  && Meaning(Parse(escaped, Allowed).value) == Replaced(value, d)
                  && (PercentFree(Replaced(value, d)) ==> escaped == Replaced(value, d)))
  {
    hide Passes, Orderly, AllUnescaped, Parse, Replaced, ReplaceReq, ReplaceInOrder, UnescapeVariables;
    if '%' !in value {
      PlainValue(value);
    } else {
      EscapedIs(value, order, d);
      if Orderly(value, d) { OrderlyMeaning(value, order, d); }
      if d == map[] {
        assert |order| == |multiset(order)| == 0;
        NoHeaders(value, d);
      }
    }
  }

  /** The loop over the dynamic headers. */
  method ReplaceDynamic(value: string, dynamicHeaders: map<string, string>)
    returns (escaped: string, ghost order: seq<string>)
    ensures IsOrder(order, dynamicHeaders) && escaped == ReplaceInOrder(value, order, dynamicHeaders)
  {
    hide ReplaceAll, Lists;
    order := [];
    escaped := ReplaceAll(value, "%", "%%");
    assert escaped == ReplaceInOrder(value, order, dynamicHeaders);
    hide ReplaceInOrder;
    var keys := dynamicHeaders.Keys;
    NothingListed(dynamicHeaders.Keys);
    while keys != {}
      invariant keys <= dynamicHeaders.Keys && Lists(order, dynamicHeaders.Keys - keys)
      invariant forall k | k in order :: k in dynamicHeaders
      invariant escaped == ReplaceInOrder(value, order, dynamicHeaders)
    {
      var k :| k in keys;
      ReplaceOneMore(value, order, k, dynamicHeaders);
      escaped := ReplaceAll(escaped, "%" + ("%" + (k + "%%")), dynamicHeaders[k]);
      ListsMore(order, dynamicHeaders.Keys - keys, k);
      order := order + [k];
      assert dynamicHeaders.Keys - (keys - {k}) == dynamicHeaders.Keys - keys + {k};
      keys := keys - {k};
    }
    assert dynamicHeaders.Keys - keys == dynamicHeaders.Keys;
  }

  lemma ReplaceOneMore(value: string, order: seq<string>, k: string, d: map<string, string>)
    requires k in d && forall n | n in order :: n in d
    ensures ReplaceInOrder(value, order + [k], d) ==
            ReplaceAll(ReplaceInOrder(value, order, d), "%" + ("%" + (k + "%%")), d[k])
  {
    hide ReplaceAll;
    assert (order + [k])[..|order|] == order;
  }

  lemma NothingListed(keys: set<string>)
    ensures Lists([], keys - keys)
  {
  }

  /**
   The value Contour hands to Envoy, for some order in which the map of dynamic headers is iterated.
   - Envoy can read it: it splits left to right into plain text, `%%` pairs and allowed variables,
     and no reference to an allowed variable is left escaped.
   - Without dynamic headers it stands for exactly the text the user wrote.
   - If no dynamic value occurs in a dynamic name and, read from left to right, no reference shares a percent sign
     with a reference to another header, it stands for the value with all references replaced, whatever the
     order; and it is that text itself when no percent sign is left.
   */
  method EscapeHeaderValue(value: string, dynamicHeaders: map<string, string>)
    returns (escaped: string, ghost order: seq<string>)
    ensures IsOrder(order, dynamicHeaders) && escaped == EscapedInOrder(value, order, dynamicHeaders)
    ensures DynamicPercentFree(dynamicHeaders) ==>
              && Parse(escaped, Allowed).Some?
              && AllUnescaped(Parse(escaped, Allowed).value)
              && (dynamicHeaders == map[] ==> Meaning(Parse(escaped, Allowed).value) == value)
    ensures DynamicPercentFree(dynamicHeaders) && Orderly(value, dynamicHeaders) ==>
              && Meaning(Parse(escaped, Allowed).value) == Replaced(value, dynamicHeaders)
              && (PercentFree(Replaced(value, dynamicHeaders)) ==> escaped == Replaced(value, dynamicHeaders))
  {
    hide AllUnescaped, Orderly, Parse, Replaced, ReplaceReq, ReplaceAll, ReplaceInOrder, DynamicPercentFree;
    if '%' !in value {
      escaped := value;
      order := AnyOrder(dynamicHeaders.Keys);
    } else {
      escaped, order := ReplaceDynamic(value, dynamicHeaders);
      for i := 0 to |EnvoyVars|
        invariant escaped == UnescapeVariables(ReplaceInOrder(value, order, dynamicHeaders), i)
      {
        escaped := ReplaceAll(escaped, "%" + ("%" + (EnvoyVars[i] + "%%")), "%" + (EnvoyVars[i] + "%"));
      }
      escaped := ReplaceReq(escaped);
    }
    if DynamicPercentFree(dynamicHeaders) { EscapedStands(value, order, dynamicHeaders); }
  }
}
