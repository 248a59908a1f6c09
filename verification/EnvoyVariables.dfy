/**
 The variables that a header value may refer to: undoing the doubling of percent signs around each of them.
 */
module EnvoyVariables {
  import opened Wrappers
  import opened HeaderTokens

  // ---------- The allow-list ----------

  /** Length and last character tell the listed variables apart. */
  function Signature(s: string): int
    requires s != ""
  {
    256 * |s| + s[|s| - 1] as int
  }

  const Signatures: seq<int> := [
    6483, 9812, 6227, 9556, 5460, 6222, 5966, 6228, 5972, 5714, 6468, 5458,
    5710, 7990, 7473, 5708, 5204, 7252, 6724, 2117, 2124, 5971, 3667, 5459]

  /** The `i`-th listed variable has the `i`-th signature, no percent sign, and is not of the `REQ(...)` form. */
  predicate Listed(i: nat) {
    && i < |EnvoyVars| && i < |Signatures| && |EnvoyVars[i]| > 3 && Signature(EnvoyVars[i]) == Signatures[i]
    && PercentFree(EnvoyVars[i]) && EnvoyVars[i][3] != '('
  }

  lemma Listed0()
    ensures Listed(0) && Listed(1) && Listed(2)
  {
  }

  lemma Listed1()
    ensures Listed(3) && Listed(4) && Listed(5)
  {
  }

  lemma Listed2()
    ensures Listed(6) && Listed(7) && Listed(8)
  {
  }

  lemma Listed3()
    ensures Listed(9) && Listed(10) && Listed(11)
  {
  }

  lemma Listed4()
    ensures Listed(12) && Listed(13) && Listed(14)
  {
  }

  lemma Listed5()
    ensures Listed(15) && Listed(16) && Listed(17)
  {
  }

  lemma Listed6()
    ensures Listed(18) && Listed(19) && Listed(20)
  {
  }

  lemma Listed7()
    ensures Listed(21) && Listed(22) && Listed(23)
  {
  }

  lemma SignaturesDistinct()
    ensures |Signatures| == 24
    ensures forall i, k | 0 <= k < i < 24 :: Signatures[i] != Signatures[k]
  {
  }

  lemma NameOk(i: nat)
    requires i < |EnvoyVars|
    ensures var v := EnvoyVars[i];
            v != "" && PercentFree(v) && !IsReq(v) && i < |Signatures| && Signature(v) == Signatures[i]
  {
    assert |EnvoyVars| == 24;
    assert Listed(i) by {
      hide Listed;
      Listed0(); Listed1(); Listed2(); Listed3(); Listed4(); Listed5(); Listed6(); Listed7();
    }
    assert "REQ("[3] == '(';
  }

  lemma NamesDiffer(i: nat, k: nat)
    requires k < i < |EnvoyVars|
    ensures EnvoyVars[i] != EnvoyVars[k]
  {
    NameOk(i);
    NameOk(k);
    SignaturesDistinct();
  }

  /** The variables that the documentation lists, besides `REQ(header-name)`. */
  const Documented: seq<string> := [
    "DOWNSTREAM_REMOTE_ADDRESS", "DOWNSTREAM_REMOTE_ADDRESS_WITHOUT_PORT", "DOWNSTREAM_LOCAL_ADDRESS",
    "DOWNSTREAM_LOCAL_ADDRESS_WITHOUT_PORT", "DOWNSTREAM_LOCAL_PORT", "DOWNSTREAM_LOCAL_URI_SAN",
    "DOWNSTREAM_PEER_URI_SAN", "DOWNSTREAM_LOCAL_SUBJECT", "DOWNSTREAM_PEER_SUBJECT", "DOWNSTREAM_PEER_ISSUER",
    "DOWNSTREAM_TLS_SESSION_ID", "DOWNSTREAM_TLS_CIPHER", "DOWNSTREAM_TLS_VERSION",
    "DOWNSTREAM_PEER_FINGERPRINT_256", "DOWNSTREAM_PEER_FINGERPRINT_1", "DOWNSTREAM_PEER_SERIAL",
    "DOWNSTREAM_PEER_CERT", "DOWNSTREAM_PEER_CERT_V_START", "DOWNSTREAM_PEER_CERT_V_END",
    "HOSTNAME", "PROTOCOL", "RESPONSE_FLAGS", "RESPONSE_CODE_DETAILS", "UPSTREAM_REMOTE_ADDRESS"
  ]

  /** The documented variables are the ones on the allow-list. */
  lemma DocumentedAre(v: string)
    ensures v in Documented <==> v in EnvoyVars
  {
    assert EnvoyVars[..21] == Documented[..21];
    assert EnvoyVars[21] == Documented[23] && EnvoyVars[22] == Documented[21] && EnvoyVars[23] == Documented[22];
    hide EnvoyVars, Documented;
  }

  // ---------- The loop over the allow-list ----------

  /** Membership in the first `i` variables of the allow-list. */
  function Earlier(i: nat): string -> bool
    requires i <= |EnvoyVars|
  {
    n => n in EnvoyVars[..i]
  }

  /** State of the loop over the allow-list: the first `i` variables are unescaped. */
  ghost predicate VariablePhase(ts0: Tokens, i: nat, ts: Tokens, escaped: string)
    requires i <= |EnvoyVars|
  {
    && TokensOk(ts) && Render(ts) == escaped && Meaning(ts) == Meaning(ts0)
    && VarsIn(ts, Earlier(i))
    && (forall k | 0 <= k < i :: NoRef(ts, EnvoyVars[k]))
    && (AllPlain(ts0) ==> ts == ts0)
  }

  lemma {:induction false} VarsInWider(ts: Tokens, p: string -> bool, q: string -> bool)
    requires VarsIn(ts, p) && forall n :: p(n) ==> q(n)
    ensures VarsIn(ts, q)
  {
    if ts.Cons? {
      VarsInWider(ts.tail, p, q);
    }
  }

  lemma {:induction false} VarsInAvoid(ts: Tokens, p: string -> bool, names: Names)
    requires VarsIn(ts, p) && forall n :: p(n) ==> !names.Has(n)
    ensures VarsAvoid(ts, names)
  {
    if ts.Cons? {
      VarsInAvoid(ts.tail, p, names);
    }
  }

  lemma EarlierDiffers(i: nat, n: string)
    requires i < |EnvoyVars| && Earlier(i)(n)
    ensures n != EnvoyVars[i]
  {
    var k :| 0 <= k < i && EnvoyVars[..i][k] == n;
    NamesDiffer(i, k);
  }

  lemma EarlierStep(ts: Tokens, i: nat)
    requires i < |EnvoyVars| && VarsIn(ts, Earlier(i))
    ensures VarsAvoid(ts, Only(EnvoyVars[i])) && VarsIn(ts, Earlier(i + 1)) && Earlier(i + 1)(EnvoyVars[i])
  {
    forall n | Earlier(i)(n) ensures !Only(EnvoyVars[i]).Has(n) { EarlierDiffers(i, n); }
    VarsInAvoid(ts, Earlier(i), Only(EnvoyVars[i]));
    assert EnvoyVars[..i + 1] == EnvoyVars[..i] + [EnvoyVars[i]];
    VarsInWider(ts, Earlier(i), Earlier(i + 1));
  }

  lemma VariablePhaseStep(ts0: Tokens, i: nat, ts: Tokens, escaped: string, pat: string)
    requires i < |EnvoyVars| && VariablePhase(ts0, i, ts, escaped)
    requires pat == "%" + ("%" + (EnvoyVars[i] + "%%"))
    ensures VariablePhase(ts0, i + 1, TokenPass(ts, Only(EnvoyVars[i]), AsVariable),
                          ReplaceAll(escaped, pat, "%" + (EnvoyVars[i] + "%")))
  {
    var v := EnvoyVars[i];
    var names := Only(v);
    NameOk(i);
    EarlierStep(ts, i);
    ReplaceAllIsRawPass(escaped, v, AsVariable, pat);
    RawPassIsTokenPass(ts, names, AsVariable);
    PassTokens(ts, names, Earlier(i + 1));
    PassMeaning(ts, names);
    forall k | 0 <= k < i + 1 ensures NoRef(TokenPass(ts, names, AsVariable), EnvoyVars[k]) {
      PassNoRef(ts, names, EnvoyVars[k]);
    }
    if AllPlain(ts0) { PassPlain(ts, names, AsVariable); }
  }

  /** The passes for the first `i` variables of the allow-list. */
  function VariablePasses(ts: Tokens, i: nat): Tokens
    requires i <= |EnvoyVars|
  {
    if i == 0 then ts else TokenPass(VariablePasses(ts, i - 1), Only(EnvoyVars[i - 1]), AsVariable)
  }

  /** The third step of the escaping: the doubling is undone around the first `i` variables. */
  function UnescapeVariables(escaped: string, i: nat): string
    requires i <= |EnvoyVars|
  {
    if i == 0 then escaped
    else
      var v := EnvoyVars[i - 1];
      ReplaceAll(UnescapeVariables(escaped, i - 1), "%" + ("%" + (v + "%%")), "%" + (v + "%"))
  }

  lemma {:induction false} VariablesUnescaped(ts: Tokens, i: nat)
    requires i <= |EnvoyVars| && TokensOk(ts) && NoVars(ts)
    ensures VariablePhase(ts, i, VariablePasses(ts, i), UnescapeVariables(Render(ts), i))
  {
    hide VariablePhase, TokenPass, ReplaceAll;
    if i == 0 {
      VariablePhaseStart(ts);
    } else {
      VariablesUnescaped(ts, i - 1);
      VariablePhaseStep(ts, i - 1, VariablePasses(ts, i - 1), UnescapeVariables(Render(ts), i - 1),
                        "%" + ("%" + (EnvoyVars[i - 1] + "%%")));
    }
  }

  lemma VariablePhaseStart(ts: Tokens)
    requires TokensOk(ts) && NoVars(ts)
    ensures VariablePhase(ts, 0, ts, Render(ts))
  {
    NoVarsAvoid(ts, ReqForm);
  }

  lemma EarlierNotReq(n: string)
    requires Earlier(|EnvoyVars|)(n)
    ensures n in EnvoyVars && !IsReq(n)
  {
    var k :| 0 <= k < |EnvoyVars| && EnvoyVars[..|EnvoyVars|][k] == n;
    NameOk(k);
  }

  /** The regular-expression step completes the list: what Envoy reads is now fixed. */
  lemma ReqStep(ts0: Tokens, ts: Tokens, escaped: string)
    requires VariablePhase(ts0, |EnvoyVars|, ts, escaped)
    ensures var r := TokenPass(ts, ReqForm, AsVariable);
            && Parse(ReplaceReq(escaped), Allowed) == Some(r)
            && AllUnescaped(r) && Meaning(r) == Meaning(ts0)
            && (AllPlain(ts0) ==> ReplaceReq(escaped) == Render(ts0))
  {
    var r := TokenPass(ts, ReqForm, AsVariable);
    forall n | Earlier(|EnvoyVars|)(n) ensures Allowed(n) && !ReqForm.Has(n) { EarlierNotReq(n); }
    VarsInAvoid(ts, Earlier(|EnvoyVars|), ReqForm);
    RawPassIsTokenPass(ts, ReqForm, AsVariable);
    VarsInWider(ts, Earlier(|EnvoyVars|), Allowed);
    PassTokens(ts, ReqForm, Allowed);
    PassMeaning(ts, ReqForm);
    ParseRender(r, Allowed);
    ReqComplete(ts);
    if AllPlain(ts0) { PassPlain(ts, ReqForm, AsVariable); }
  }

  lemma ReqComplete(ts: Tokens)
    requires forall k | 0 <= k < |EnvoyVars| :: NoRef(ts, EnvoyVars[k])
    ensures AllUnescaped(TokenPass(ts, ReqForm, AsVariable))
  {
    forall v | Allowed(v) ensures NoRef(TokenPass(ts, ReqForm, AsVariable), v) {
      PassNoRef(ts, ReqForm, v);
    }
  }
}
