/**
 Looking up secrets, and which changes of secrets the readers of the cache can notice.
 */
module SecretLookups {
  import opened Wrappers
  import opened Names
  import opened CacheObjects

  datatype Answer = Found(secret: SecretObj) | NotFound | NotPermitted | Invalid(error: string)

  datatype Lookup =
    | TLSLookup(name: NamespacedName, target: string)
    | TLSInsecureLookup(name: NamespacedName)
    | CALookup(name: NamespacedName, target: string)
    | CRLLookup(name: NamespacedName, target: string)
    | CAConfigMapLookup(name: NamespacedName)

  // ---------- What a lookup answers ----------

  predicate TargetsNamespace(targets: seq<string>, namespace: string) {
    targets == ["*"] || namespace in targets
  }

  /** A delegation in the secret's namespace names the secret and the target namespace. */
  predicate DelegatedBy(o: Obj<seq<Delegation>>, secret: NamespacedName, target: string) {
    && o.meta.namespace == secret.namespace
    && exists i | 0 <= i < |o.spec| ::
         TargetsNamespace(o.spec[i].targetNamespaces, target) && o.spec[i].secretName == secret.name
  }

  ghost predicate Permitted(s: Objects, secret: NamespacedName, target: string) {
    secret.namespace == target || exists k | k in s.delegations :: DelegatedBy(s.delegations[k], secret, target)
  }

  function Checked(secret: SecretObj, error: Option<string>): Answer {
    if error.Some? then Invalid(error.value) else Found(secret)
  }

  function Lookedup(m: map<NamespacedName, SecretObj>, name: NamespacedName, valid: SecretObj -> Option<string>): Answer {
    if name !in m then NotFound else Checked(m[name], valid(m[name]))
  }

  /** The answer to a lookup, with nothing stored beside the objects. */
  ghost function AnswerTo(cfg: Config, s: Objects, l: Lookup): Answer {
    match l
    case TLSLookup(name, target) =>
      if Permitted(s, name, target) then Lookedup(s.secrets, name, cfg.validTLS) else NotPermitted
    case TLSInsecureLookup(name) => Lookedup(s.secrets, name, cfg.validTLS)
    case CALookup(name, target) =>
      if Permitted(s, name, target) then Lookedup(s.secrets, name, cfg.validCA) else NotPermitted
    case CRLLookup(name, target) =>
      if Permitted(s, name, target) then Lookedup(s.secrets, name, cfg.validCRL) else NotPermitted
    case CAConfigMapLookup(name) => Lookedup(s.configMaps, name, cfg.validCA)
  }

  // ---------- Who may look up a secret ----------

  /** Entry `i` of the delegation opens the secret to the target namespace: by name, or to all with a lone star. */
  predicate Opens(d: Obj<seq<Delegation>>, i: nat, secret: NamespacedName, target: string) {
    && d.meta.namespace == secret.namespace && i < |d.spec| && d.spec[i].secretName == secret.name
    && (target in d.spec[i].targetNamespaces
        || (|d.spec[i].targetNamespaces| == 1 && d.spec[i].targetNamespaces[0] == "*"))
  }

  /** The lookups that ask for permission. */
  predicate Asks(l: Lookup, name: NamespacedName, target: string) {
    l == TLSLookup(name, target) || l == CALookup(name, target) || l == CRLLookup(name, target)
  }

  /** A lookup is refused exactly when it comes from another namespace and no delegation opens the secret to it. */
  lemma NotPermittedIff(cfg: Config, s: Objects, name: NamespacedName, target: string, l: Lookup)
    requires Asks(l, name, target)
    ensures AnswerTo(cfg, s, l).NotPermitted? <==>
            && name.namespace != target
            && forall k, i: nat | k in s.delegations :: !Opens(s.delegations[k], i, name, target)
  {
    if k, i: nat :| k in s.delegations && Opens(s.delegations[k], i, name, target) {
      assert s.delegations[k].spec[i].targetNamespaces == ["*"] || target in s.delegations[k].spec[i].targetNamespaces;
      assert DelegatedBy(s.delegations[k], name, target);
    }
    if k :| k in s.delegations && DelegatedBy(s.delegations[k], name, target) {
      var i: nat :| i < |s.delegations[k].spec| && s.delegations[k].spec[i].secretName == name.name
        && TargetsNamespace(s.delegations[k].spec[i].targetNamespaces, target);
      assert Opens(s.delegations[k], i, name, target);
    }
  }

  /** A new delegation changes the answer to a lookup from a namespace only if it opens the secret to it. */
  lemma DelegationTellsOthersNothing(cfg: Config, s: Objects, d: Obj<seq<Delegation>>, name: NamespacedName,
                                     target: string, l: Lookup)
    requires Asks(l, name, target) && KeyOf(d.meta) !in s.delegations
    ensures var t := AfterInsert(cfg, s, OfDelegation(d));
            if exists i: nat :: Opens(d, i, name, target) then !AnswerTo(cfg, t, l).NotPermitted?
            else AnswerTo(cfg, t, l) == AnswerTo(cfg, s, l)
  {
    hide Permitted, Opens;
    var t := AfterInsert(cfg, s, OfDelegation(d));
    NotPermittedIff(cfg, s, name, target, l);
    NotPermittedIff(cfg, t, name, target, l);
    assert t.delegations[KeyOf(d.meta)] == d;
    forall k, i: nat | k in s.delegations
      ensures Opens(t.delegations[k], i, name, target) == Opens(s.delegations[k], i, name, target)
    {
      assert t.delegations[k] == s.delegations[k];
    }
    AnswerWhenPermitted(cfg, s, l);
    AnswerWhenPermitted(cfg, t, l);
  }

  /** What a lookup that is not refused finds: the stored object, checked for its purpose. */
  lemma AnswerWhenPermitted(cfg: Config, s: Objects, l: Lookup)
    ensures var m := if l.CAConfigMapLookup? then s.configMaps else s.secrets;
            !AnswerTo(cfg, s, l).NotPermitted? ==>
              if l.name !in m then AnswerTo(cfg, s, l) == NotFound
              else
                var error := if l.TLSLookup? || l.TLSInsecureLookup? then cfg.validTLS(m[l.name])
                             else if l.CRLLookup? then cfg.validCRL(m[l.name])
                             else cfg.validCA(m[l.name]);
                if error.None? then AnswerTo(cfg, s, l) == Found(m[l.name])
                else AnswerTo(cfg, s, l) == Invalid(error.value)
  {
  }

  // ---------- The lookups that the processors make ----------

  ghost predicate ForIngress(s: Objects, l: Lookup) {
    exists k, i: nat | k in s.ingresses && i < |s.ingresses[k].spec.tls| ::
      l == TLSLookup(IngressSecret(s.ingresses[k], i), s.ingresses[k].meta.namespace)
  }

  predicate ForRoot(o: HTTPProxy, l: Lookup) {
    && HasTLS(o) && !o.spec.virtualHost.value.value.passthrough
    && (|| l == TLSLookup(ProxySecret(o), o.meta.namespace)
        || (HasRevocationList(o) && o.spec.virtualHost.value.value.revocationList.value != ""
            && l == CRLLookup(ProxyRevocationList(o), o.meta.namespace)))
  }

  ghost predicate ForProxy(s: Objects, l: Lookup) {
    exists k | k in s.proxies :: ForRoot(s.proxies[k], l)
  }

  /** The fallback certificate is looked up for any namespace, and the client certificate without a check. */
  predicate ForConfig(cfg: Config, l: Lookup) {
    (l.TLSLookup? || l.TLSInsecureLookup?) && l.name in cfg.secretRefs
  }

  function RefName(ref: CertificateRef, gatewayNamespace: string): NamespacedName {
    NamespacedName(if ref.namespace.Some? then ref.namespace.value else gatewayNamespace, ref.name)
  }

  predicate ForListener(refs: Option<seq<CertificateRef>>, gatewayNamespace: string, l: Lookup) {
    && refs.Some? && |refs.value| == 1 && IsSecretRef(refs.value[0])
    && l == TLSInsecureLookup(RefName(refs.value[0], gatewayNamespace))
  }

  ghost predicate ForGateway(s: Objects, l: Lookup) {
    && s.gateway.Some?
    && exists i | 0 <= i < |s.gateway.value.spec| ::
         ForListener(s.gateway.value.spec[i], s.gateway.value.meta.namespace, l)
  }

  ghost predicate Makes(cfg: Config, s: Objects, l: Lookup) {
    ForIngress(s, l) || ForProxy(s, l) || ForConfig(cfg, l) || ForGateway(s, l)
  }

  /** The lookups that are made, spelled out: for every TLS entry of an ingress; for the certificate and the revocation
      list of every root proxy with TLS that is not passed through; for the configured secrets; and for every Gateway
      listener with a single certificate. Lookups for ingresses and proxies come from their own namespaces. */
  lemma MakesIff(cfg: Config, s: Objects, l: Lookup)
    ensures Makes(cfg, s, l) <==>
            || (l.TLSLookup? && exists k, i: nat | k in s.ingresses && i < |s.ingresses[k].spec.tls| ::
                  && l.target == s.ingresses[k].meta.namespace
                  && Spells(s.ingresses[k].spec.tls[i], SecretNamespace(s.ingresses[k].meta), l.name))
            || (exists k | k in s.proxies :: AsksForRoot(s.proxies[k], l))
            || (l.name in cfg.secretRefs && (l.TLSLookup? || l.TLSInsecureLookup?))
            || (l.TLSInsecureLookup? && s.gateway.Some? && exists i: nat | i < |s.gateway.value.spec| ::
                  && s.gateway.value.spec[i].Some? && |s.gateway.value.spec[i].value| == 1
                  && RefIs(s.gateway.value.spec[i].value[0], s.gateway.value.meta.namespace, l.name))
  {
    ForIngressIff(s, l);
    ForProxyIff(s, l);
    ForGatewayIff(s, l);
    hide ForIngress, ForProxy, ForGateway, Spells, RefIs, AsksForRoot;
  }

  predicate AsksForRoot(o: HTTPProxy, l: Lookup) {
    && o.spec.virtualHost.Some? && o.spec.virtualHost.value.Some?
    && var tls := o.spec.virtualHost.value.value;
       && !tls.passthrough
       && (|| (&& l.TLSLookup? && l.target == o.meta.namespace
               && Spells(tls.secretName, OrDefault(o.meta.namespace), l.name))
           || (&& l.CRLLookup? && l.target == o.meta.namespace && tls.revocationList.Some?
               && |tls.revocationList.value| > 0
               && Spells(tls.revocationList.value, OrDefault(o.meta.namespace), l.name)))
  }

  lemma ForIngressIff(s: Objects, l: Lookup)
    ensures ForIngress(s, l) <==>
            l.TLSLookup? && exists k, i: nat | k in s.ingresses && i < |s.ingresses[k].spec.tls| ::
              && l.target == s.ingresses[k].meta.namespace
              && Spells(s.ingresses[k].spec.tls[i], SecretNamespace(s.ingresses[k].meta), l.name)
  {
    hide Spells, NamespacedNameFrom;
    forall k, i: nat | k in s.ingresses && i < |s.ingresses[k].spec.tls|
      ensures IngressSecret(s.ingresses[k], i) == l.name <==>
              Spells(s.ingresses[k].spec.tls[i], SecretNamespace(s.ingresses[k].meta), l.name)
    {
      var m := s.ingresses[k].meta;
      NamesIff(s.ingresses[k].spec.tls[i], Annotation(m, "projectcontour.io/tls-cert-namespace"), m.namespace, l.name);
    }
    hide IngressSecret;
  }

  lemma ForProxyIff(s: Objects, l: Lookup)
    ensures ForProxy(s, l) <==> exists k | k in s.proxies :: AsksForRoot(s.proxies[k], l)
  {
    forall k | k in s.proxies ensures ForRoot(s.proxies[k], l) <==> AsksForRoot(s.proxies[k], l) {
      ForRootIff(s.proxies[k], l);
    }
    hide ForRoot, AsksForRoot;
  }

  lemma ForRootIff(o: HTTPProxy, l: Lookup)
    ensures ForRoot(o, l) <==> AsksForRoot(o, l)
  {
    hide Spells, NamespacedNameFrom;
    if HasTLS(o) {
      var tls := o.spec.virtualHost.value.value;
      NamesIff(tls.secretName, "", o.meta.namespace, l.name);
      if tls.revocationList.Some? { NamesIff(tls.revocationList.value, "", o.meta.namespace, l.name); }
    }
  }

  lemma ForGatewayIff(s: Objects, l: Lookup)
    ensures ForGateway(s, l) <==>
            l.TLSInsecureLookup? && s.gateway.Some? && exists i: nat | i < |s.gateway.value.spec| ::
              && s.gateway.value.spec[i].Some? && |s.gateway.value.spec[i].value| == 1
              && RefIs(s.gateway.value.spec[i].value[0], s.gateway.value.meta.namespace, l.name)
  {
    if s.gateway.Some? {
      var g := s.gateway.value;
      forall i: nat | i < |g.spec|
        ensures ForListener(g.spec[i], g.meta.namespace, l) <==>
                && l.TLSInsecureLookup? && g.spec[i].Some? && |g.spec[i].value| == 1
                && RefIs(g.spec[i].value[0], g.meta.namespace, l.name)
      {
      }
    }
  }

  // ---------- Changes that nobody notices ----------

  /** If a change of the secret is not reported, no TLS or CRL lookup of the processors can tell. */
  ghost predicate Sound(cfg: Config, s: Objects, secret: SecretObj) {
    !SecretTriggers(cfg, s, secret) ==> forall l | Makes(cfg, s, l) :: Unnoticed(cfg, s, secret, l)
  }

  /** The lookup has one answer before and after the secret is inserted, and after it is removed. */
  ghost predicate Unnoticed(cfg: Config, s: Objects, secret: SecretObj, l: Lookup) {
    && AnswerTo(cfg, AfterInsert(cfg, s, OfSecret(secret)), l) == AnswerTo(cfg, s, l)
    && AnswerTo(cfg, AfterRemove(cfg, s, OfSecret(secret)), l) == AnswerTo(cfg, s, l)
  }

  /** A lookup of another name does not notice. */
  lemma OtherName(cfg: Config, s: Objects, secret: SecretObj, l: Lookup)
    requires l.CAConfigMapLookup? || l.name != KeyOf(secret.meta)
    ensures Unnoticed(cfg, s, secret, l)
  {
    var t, u := AfterInsert(cfg, s, OfSecret(secret)), AfterRemove(cfg, s, OfSecret(secret));
    assert t.delegations == s.delegations && u.delegations == s.delegations;
    assert forall n, target :: Permitted(t, n, target) == Permitted(s, n, target) == Permitted(u, n, target);
  }

  /** Every lookup of the secret's own name goes through a reference that reports the change. */
  lemma OwnName(cfg: Config, s: Objects, secret: SecretObj, l: Lookup)
    requires secret.meta.namespace != "" && Makes(cfg, s, l) && !l.CAConfigMapLookup? && l.name == KeyOf(secret.meta)
    ensures SecretTriggers(cfg, s, secret)
  {
    var name := NamespacedName(secret.meta.namespace, secret.meta.name);
    if ForIngress(s, l) {
      var k, i: nat :| k in s.ingresses && i < |s.ingresses[k].spec.tls| &&
        l == TLSLookup(IngressSecret(s.ingresses[k], i), s.ingresses[k].meta.namespace);
      assert IngressSecret(s.ingresses[k], i) == name;
    } else if ForProxy(s, l) {
      var k :| k in s.proxies && ForRoot(s.proxies[k], l);
      assert RefersTo(s.proxies[k], name);
    } else if ForGateway(s, l) {
      var g := s.gateway.value;
      var i :| 0 <= i < |g.spec| && ForListener(g.spec[i], g.meta.namespace, l);
      assert IsRefToSecret(g.spec[i].value[0], secret, g.meta.namespace);
      assert ListenerRefers(g.spec[i], secret, g.meta.namespace);
    }
  }

  lemma NamespacedIsSound(cfg: Config, s: Objects, secret: SecretObj)
    requires secret.meta.namespace != ""
    ensures Sound(cfg, s, secret)
  {
    if !SecretTriggers(cfg, s, secret) {
      forall l | Makes(cfg, s, l) ensures Unnoticed(cfg, s, secret, l) {
        if !l.CAConfigMapLookup? && l.name == KeyOf(secret.meta) {
          OwnName(cfg, s, secret, l);
        } else {
          OtherName(cfg, s, secret, l);
        }
      }
    }
  }

  /** The certificate of a Gateway listener is the secret, which the cache does not hold yet. */
  function Referring(secret: SecretObj): Objects {
    var ref := CertificateRef(Some(""), Some("Secret"), Some("default"), secret.meta.name);
    var meta := Meta("projectcontour", "contour", map[], 1, "1");
    Objects(map[], map[], map[], map[], map[], map[], Some(Obj(meta, [Some([ref])])))
  }

  /** Without a namespace the secret is stored in `default` but compared under its empty one: its arrival in a
      cache whose Gateway refers to it goes unreported although the Gateway's lookup notices. */
  lemma UnnamespacedIsUnsound(cfg: Config, secret: SecretObj)
    requires secret.meta.namespace == "" && CACertificateKey !in secret.spec
    requires NamespacedName("", secret.meta.name) !in cfg.secretRefs
    ensures !Sound(cfg, Referring(secret), secret)
  {
    var s := Referring(secret);
    var g := s.gateway.value;
    var l := TLSInsecureLookup(NamespacedName("default", secret.meta.name));
    assert ForListener(g.spec[0], g.meta.namespace, l);
    assert Makes(cfg, s, l);
    forall i | 0 <= i < |g.spec| ensures !ListenerRefers(g.spec[i], secret, g.meta.namespace) {
      assert g.spec[i].value[0].namespace != Some(secret.meta.namespace);
    }
    assert !Unnoticed(cfg, s, secret, l);
  }

  /** The trigger for secrets is sound in every cache just for the secrets that have a namespace or are always
      reported. */
  lemma TriggerSoundIff(cfg: Config, secret: SecretObj)
    ensures (forall s :: Sound(cfg, s, secret)) <==>
            || secret.meta.namespace != ""
            || CACertificateKey in secret.spec
            || NamespacedName("", secret.meta.name) in cfg.secretRefs
  {
    if secret.meta.namespace != "" {
      forall s ensures Sound(cfg, s, secret) { NamespacedIsSound(cfg, s, secret); }
    } else if CACertificateKey !in secret.spec && NamespacedName("", secret.meta.name) !in cfg.secretRefs {
      UnnamespacedIsUnsound(cfg, secret);
    } else {
      assert forall s :: SecretTriggers(cfg, s, secret);
    }
  }

  // ---------- Events that nobody notices ----------

  /** The secret that an object stands for, if it stands for one. */
  function SecretIn(o: Object): Option<SecretObj> {
    match o
    case OfSecret(x) => Some(x)
    case Tombstone(last) => SecretIn(last)
    case _ => None
  }

  /** The secret has a namespace, and if the cache holds a secret of its name, it is one with the same data. */
  predicate HeldAs(s: Objects, x: SecretObj) {
    x.meta.namespace != "" && (KeyOf(x.meta) in s.secrets ==> s.secrets[KeyOf(x.meta)].spec == x.spec)
  }

  /** An event that speaks of a secret has a namespace and agrees with the cache: additions are of secrets that the
      cache does not hold, and updates and deletions of the ones it does. */
  predicate SecretEvent(s: Objects, op: Op) {
    match op
    case Add(o) => o.OfSecret? ==> o.secret.meta.namespace != "" && KeyOf(o.secret.meta) !in s.secrets
    case Update(a, b) =>
      && (a.OfSecret? <==> b.OfSecret?)
      && (a.OfSecret? ==>
            && HeldAs(s, a.secret) && b.secret.meta.namespace != ""
            && KeyOf(a.secret.meta) == KeyOf(b.secret.meta))
    case Delete(o) => SecretIn(o).Some? ==> HeldAs(s, SecretIn(o).value)
    case Elected(_) => true
  }

  /** A CA certificate is valid only if it is there. */
  ghost predicate CANeedsKey(cfg: Config) {
    forall x :: cfg.validCA(x).None? ==> CACertificateKey in x.spec
  }

  /** The secret that a lookup finds. */
  function FoundIn(a: Answer): Option<SecretObj> {
    if a.Found? then Some(a.secret) else None
  }

  /** The lookups that are made are the same, and what they say of delegation. */
  lemma SameLookups(cfg: Config, s: Objects, t: Objects, l: Lookup)
    requires SameReferences(s, t)
    ensures Makes(cfg, s, l) <==> Makes(cfg, t, l)
    ensures forall name, target :: Permitted(s, name, target) <==> Permitted(t, name, target)
  {
    assert ForIngress(s, l) <==> ForIngress(t, l);
    assert ForProxy(s, l) <==> ForProxy(t, l);
  }

  /** The secrets of `t` differ from those of `s` at most under the name of `x`, and neither there nor in `x` is a
      CA certificate. */
  predicate DiffersAt(s: Objects, t: Objects, x: SecretObj) {
    && SameReferences(s, t) && t.secrets - {KeyOf(x.meta)} == s.secrets - {KeyOf(x.meta)}
    && (KeyOf(x.meta) in s.secrets ==> CACertificateKey !in s.secrets[KeyOf(x.meta)].spec)
    && (KeyOf(x.meta) in t.secrets ==> CACertificateKey !in t.secrets[KeyOf(x.meta)].spec)
  }

  lemma ElsewhereSame(s: Objects, t: Objects, x: SecretObj, name: NamespacedName)
    requires DiffersAt(s, t, x) && name != KeyOf(x.meta)
    ensures name in s.secrets <==> name in t.secrets
    ensures name in s.secrets ==> s.secrets[name] == t.secrets[name]
  {
    assert name in s.secrets - {KeyOf(x.meta)} <==> name in s.secrets;
    assert name in t.secrets - {KeyOf(x.meta)} <==> name in t.secrets;
    if name in s.secrets {
      assert (s.secrets - {KeyOf(x.meta)})[name] == (t.secrets - {KeyOf(x.meta)})[name];
    }
  }

  /** A change of an unreferenced secret without CA certificate is not noticed. */
  lemma DifferenceUnnoticed(cfg: Config, s: Objects, t: Objects, x: SecretObj, l: Lookup)
    requires DiffersAt(s, t, x) && x.meta.namespace != "" && !SecretTriggers(cfg, s, x)
    ensures Makes(cfg, s, l) ==> AnswerTo(cfg, t, l) == AnswerTo(cfg, s, l)
    ensures CANeedsKey(cfg) && l.CALookup? ==> FoundIn(AnswerTo(cfg, t, l)) == FoundIn(AnswerTo(cfg, s, l))
  {
    hide SecretTriggers, Makes, Permitted;
    SameLookups(cfg, s, t, l);
    if !l.CAConfigMapLookup? && l.name != KeyOf(x.meta) {
      ElsewhereSame(s, t, x, l.name);
    } else if Makes(cfg, s, l) {
      MakesNoConfigMapLookup(cfg, s, l);
      OwnName(cfg, s, x, l);
    }
  }

  lemma MakesNoConfigMapLookup(cfg: Config, s: Objects, l: Lookup)
    requires Makes(cfg, s, l)
    ensures !l.CAConfigMapLookup?
  {
  }

  /** The change is none, or one of an unreferenced secret with a namespace. */
  ghost predicate QuietChange(cfg: Config, s: Objects, t: Objects, x: Option<SecretObj>) {
    && SameReferences(s, t)
    && (x.None? ==> t.secrets == s.secrets)
    && (x.Some? ==> DiffersAt(s, t, x.value) && x.value.meta.namespace != "" && !SecretTriggers(cfg, s, x.value))
  }

  lemma QuietAdd(cfg: Config, s: Objects, o: Object) returns (x: Option<SecretObj>)
    requires SecretEvent(s, Add(o)) && !InsertReports(cfg, s, o)
    ensures QuietChange(cfg, s, AfterInsert(cfg, s, o), x)
  {
    hide IngressRefers, ProxyRefers, GatewayRefers;
    QuietInsert(cfg, s, o);
    x := if o.OfSecret? then Some(o.secret) else None;
  }

  lemma QuietDelete(cfg: Config, s: Objects, o: Object) returns (x: Option<SecretObj>)
    requires SecretEvent(s, Delete(o)) && !RemoveReports(cfg, s, o)
    ensures QuietChange(cfg, s, AfterRemove(cfg, s, o), x)
  {
    hide IngressRefers, ProxyRefers, GatewayRefers, AfterRemove, RemoveReports;
    QuietRemove(cfg, s, o);
    OthersKeepSecrets(cfg, s, o);
    x := SecretIn(o);
  }

  lemma QuietUpdateOfSecret(cfg: Config, s: Objects, a: Object, b: Object)
    requires SecretEvent(s, Update(a, b)) && a.OfSecret?
    requires !RemoveReports(cfg, s, a) && !InsertReports(cfg, AfterRemove(cfg, s, a), b)
    ensures QuietChange(cfg, s, AfterInsert(cfg, AfterRemove(cfg, s, a), b), Some(a.secret))
  {
    hide IngressRefers, ProxyRefers, GatewayRefers;
    TriggersIgnoreSecrets(cfg, s, AfterRemove(cfg, s, a), b.secret);
  }

  lemma QuietUpdateOfOther(cfg: Config, s: Objects, a: Object, b: Object)
    requires SecretEvent(s, Update(a, b)) && !a.OfSecret? && Comparable(a, b)
    requires !RemoveReports(cfg, s, a) && !InsertReports(cfg, AfterRemove(cfg, s, a), b)
    ensures QuietChange(cfg, s, AfterInsert(cfg, AfterRemove(cfg, s, a), b), None)
  {
    hide SecretTriggers, ConfigMapTriggers;
    QuietRemove(cfg, s, a);
    OthersKeepSecrets(cfg, s, a);
    QuietInsert(cfg, AfterRemove(cfg, s, a), b);
    assert AfterInsert(cfg, AfterRemove(cfg, s, a), b).secrets == AfterRemove(cfg, s, a).secrets;
  }

  /** What an unreported event does to the secrets: nothing, or a change of an unreferenced secret. */
  lemma QuietSecrets(cfg: Config, s: Objects, op: Op) returns (x: Option<SecretObj>)
    requires SecretEvent(s, op) && !OpReports(cfg, s, op)
    ensures QuietChange(cfg, s, AfterOp(cfg, s, op), x)
  {
    hide SecretTriggers, SecretEvent, AfterInsert, AfterRemove, InsertReports, RemoveReports, DiffersAt;
    x := None;
    match op
    case Add(o) => x := QuietAdd(cfg, s, o);
    case Update(a, b) =>
      if Comparable(a, b) && !IsObjectEqual(a, b) {
        if a.OfSecret? {
          QuietUpdateOfSecret(cfg, s, a, b);
          x := Some(a.secret);
        } else {
          QuietUpdateOfOther(cfg, s, a, b);
        }
      }
    case Delete(o) => x := QuietDelete(cfg, s, o);
    case Elected(_) =>
  }

  lemma {:induction false} OthersKeepSecrets(cfg: Config, s: Objects, o: Object)
    ensures SecretIn(o).None? ==> AfterRemove(cfg, s, o).secrets == s.secrets
    ensures SecretIn(o).Some? ==>
              && AfterRemove(cfg, s, o).secrets == s.secrets - {KeyOf(SecretIn(o).value.meta)}
              && (RemoveReports(cfg, s, o) <==> SecretTriggers(cfg, s, SecretIn(o).value))
  {
    if o.Tombstone? {
      OthersKeepSecrets(cfg, s, o.last);
    }
  }

  /** If an event of any kind is not reported, the processors make the same lookups as before with the same
      answers, and every lookup of a CA certificate finds what it found before. */
  lemma QuietEventUnnoticed(cfg: Config, s: Objects, op: Op, l: Lookup)
    requires SecretEvent(s, op) && !OpReports(cfg, s, op)
    ensures Makes(cfg, s, l) <==> Makes(cfg, AfterOp(cfg, s, op), l)
    ensures Makes(cfg, s, l) ==> AnswerTo(cfg, AfterOp(cfg, s, op), l) == AnswerTo(cfg, s, l)
    ensures CANeedsKey(cfg) && l.CALookup? ==>
              FoundIn(AnswerTo(cfg, AfterOp(cfg, s, op), l)) == FoundIn(AnswerTo(cfg, s, l))
  {
    hide AfterOp, OpReports, SecretEvent, SecretTriggers, Makes, Permitted;
    var t := AfterOp(cfg, s, op);
    var x := QuietSecrets(cfg, s, op);
    SameLookups(cfg, s, t, l);
    if x.Some? {
      DifferenceUnnoticed(cfg, s, t, x.value, l);
    } else if Makes(cfg, s, l) {
      MakesNoConfigMapLookup(cfg, s, l);
    }
  }

  /** A qualified reference in an ingress makes a change of the secret that it names reported. */
  lemma QualifiedReferenceTriggers(cfg: Config, s: Objects, k: NamespacedName, i: nat, secret: SecretObj)
    requires k in s.ingresses && i < |s.ingresses[k].spec.tls|
    requires secret.meta.namespace != "" && '/' !in secret.meta.namespace
    requires s.ingresses[k].spec.tls[i] == secret.meta.namespace + "/" + secret.meta.name
    ensures SecretTriggers(cfg, s, secret)
  {
    var name := NamespacedName(secret.meta.namespace, secret.meta.name);
    var o := s.ingresses[k];
    var annotated := if "projectcontour.io/tls-cert-namespace" in o.meta.annotations
                     then o.meta.annotations["projectcontour.io/tls-cert-namespace"] else "";
    QualifiedName(name, [annotated, o.meta.namespace]);
    assert IngressSecret(o, i) == name;
  }
}
