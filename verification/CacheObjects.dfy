/**
 The Kubernetes objects that the cache holds, and what inserting, removing and looking them up means,
 without the stored validation results.
 */
module CacheObjects {
  import opened Wrappers
  import opened Names
  import Text

  // ---------- Objects ----------

  datatype Meta = Meta(
    namespace: string, name: string, annotations: map<string, string>, generation: int, resourceVersion: string)

  datatype Obj<S> = Obj(meta: Meta, spec: S)

  /** An ingress names one secret per TLS entry. */
  datatype IngressSpec = IngressSpec(className: Option<string>, tls: seq<string>)

  datatype TLS = TLS(secretName: string, passthrough: bool, revocationList: Option<string>)

  datatype ProxySpec = ProxySpec(className: string, virtualHost: Option<Option<TLS>>)

  datatype Delegation = Delegation(secretName: string, targetNamespaces: seq<string>)

  datatype CertificateRef = CertificateRef(
    group: Option<string>, kind: Option<string>, namespace: Option<string>, name: string)

  /** The certificate references of each listener that has a TLS section. */
  type GatewaySpec = seq<Option<seq<CertificateRef>>>

  datatype CARef = CARef(group: string, kind: string, name: string)

  type Ingress = Obj<IngressSpec>
  type HTTPProxy = Obj<ProxySpec>
  type SecretObj = Obj<map<string, string>>
  type Gateway = Obj<GatewaySpec>

  datatype Object =
    | OfIngress(ingress: Ingress)
    | OfProxy(proxy: HTTPProxy)
    | OfSecret(secret: SecretObj)
    | OfConfigMap(configMap: SecretObj)
    | OfDelegation(delegation: Obj<seq<Delegation>>)
    | OfPolicy(policy: Obj<seq<CARef>>)
    | OfGateway(gateway: Gateway)
    | Tombstone(last: Object)
    | Unknown

  /** The configuration; a validator gives the error it finds, if any. */
  datatype Config = Config(
    ingressClasses: seq<string>,
    secretRefs: seq<NamespacedName>,
    gatewayToCache: Option<NamespacedName>,
    validTLS: SecretObj -> Option<string>,
    validCA: SecretObj -> Option<string>,
    validCRL: SecretObj -> Option<string>)

  datatype Objects = Objects(
    ingresses: map<NamespacedName, Ingress>,
    proxies: map<NamespacedName, HTTPProxy>,
    secrets: map<NamespacedName, SecretObj>,
    configMaps: map<NamespacedName, SecretObj>,
    delegations: map<NamespacedName, Obj<seq<Delegation>>>,
    policies: map<NamespacedName, Obj<seq<CARef>>>,
    gateway: Option<Gateway>)

  const CACertificateKey := "ca.crt"

  // ---------- Names ----------

  function FirstNonEmpty(namespaces: seq<string>): string {
    if namespaces == [] then "default"
    else if namespaces[0] != "" then namespaces[0]
    else FirstNonEmpty(namespaces[1..])
  }

  function KeyOf(m: Meta): NamespacedName {
    NamespacedName(if m.namespace == "" then "default" else m.namespace, m.name)
  }

  /** `namespace/name`, or a bare name in the first namespace of the list that is not empty. */
  function NamespacedNameFrom(s: string, namespaces: seq<string>): NamespacedName {
    var i := Text.IndexOf(s, '/');
    if i == |s| then NamespacedName(FirstNonEmpty(namespaces), s)
    else NamespacedName(FirstNonEmpty([s[..i]] + namespaces), s[i + 1..])
  }

  /** A qualified name is read back as it is, whatever the default namespaces are. */
  lemma QualifiedName(k: NamespacedName, namespaces: seq<string>)
    requires k.namespace != "" && '/' !in k.namespace
    ensures NamespacedNameFrom(k.namespace + "/" + k.name, namespaces) == k
  {
    var s, n := k.namespace + "/" + k.name, |k.namespace|;
    var i := Text.IndexOf(s, '/');
    Text.IndexOfIs(s, '/');
    assert s[n] == '/' && s[..n] == k.namespace && s[n + 1..] == k.name;
    assert i == n;
  }

  /** `k` is what the text names: `namespace/name`, or a bare name, which is in the default namespace `n`. An empty
      namespace in front of the slash stands for the default one as well. */
  predicate Spells(text: string, n: string, k: NamespacedName) {
    if '/' !in text then k == NamespacedName(n, text)
    else
      && |k.name| < |text| && text[|text| - |k.name|..] == k.name
      && var before := text[..|text| - |k.name|];
         && before[|before| - 1] == '/' && '/' !in before[..|before| - 1]
         && k.namespace == if |before| > 1 then before[..|before| - 1] else n
  }

  /** The default namespace is the first one of the list that is not empty, or `default`. */
  lemma NamesIff(text: string, a: string, b: string, k: NamespacedName)
    ensures NamespacedNameFrom(text, [a, b]) == k <==>
            Spells(text, if a != "" then a else if b != "" then b else "default", k)
    ensures NamespacedNameFrom(text, [b]) == k <==> Spells(text, if b != "" then b else "default", k)
  {
    var i := Text.IndexOf(text, '/');
    Text.IndexOfIs(text, '/');
    Defaults(a, b);
    if i == |text| {
      assert text[..i] == text;
    } else {
      var n := NamespacedNameFrom(text, [a, b]);
      Defaults3(text[..i], a, b);
      assert text[..i + 1][..i] == text[..i] && n.name == text[i + 1..];
      if |k.name| < |text| {
        var before := text[..|text| - |k.name|];
        if before[|before| - 1] == '/' && '/' !in before[..|before| - 1] {
          assert forall m | 0 <= m < i :: text[m] == text[..i][m] != '/';
          assert forall m | 0 <= m < |before| - 1 :: text[m] == before[..|before| - 1][m] != '/';
        }
      }
    }
  }

  lemma Defaults(a: string, b: string)
    ensures FirstNonEmpty([a, b]) == if a != "" then a else if b != "" then b else "default"
    ensures FirstNonEmpty([b]) == if b != "" then b else "default"
  {
    assert [a, b][1..] == [b] && [b][1..] == [];
    assert FirstNonEmpty([]) == "default";
    assert FirstNonEmpty([b]) == if b != "" then b else "default";
  }

  lemma Defaults3(n: string, a: string, b: string)
    ensures FirstNonEmpty([n] + [a, b]) == if n != "" then n else FirstNonEmpty([a, b])
    ensures FirstNonEmpty([n] + [b]) == if n != "" then n else FirstNonEmpty([b])
  {
    assert ([n] + [a, b])[1..] == [a, b] && ([n] + [b])[1..] == [b];
  }

  // ---------- Ingress classes ----------

  function AnnotatedClass(annotations: map<string, string>): string {
    if "projectcontour.io/ingress.class" in annotations then annotations["projectcontour.io/ingress.class"]
    else if "kubernetes.io/ingress.class" in annotations then annotations["kubernetes.io/ingress.class"]
    else ""
  }

  predicate ClassMatches(class_: string, configured: seq<string>) {
    if configured == [] then class_ == "" || class_ == "contour" else class_ in configured
  }

  /** Annotations take precedence over the class named in the spec. */
  function ClassOf<S>(o: Obj<S>, inSpec: string): string {
    if AnnotatedClass(o.meta.annotations) != "" then AnnotatedClass(o.meta.annotations) else inSpec
  }

  predicate IngressWanted(cfg: Config, o: Ingress) {
    var inSpec := if o.spec.className.Some? then o.spec.className.value else "";
    ClassMatches(ClassOf(o, inSpec), cfg.ingressClasses)
  }

  predicate ProxyWanted(cfg: Config, o: HTTPProxy) {
    ClassMatches(ClassOf(o, o.spec.className), cfg.ingressClasses)
  }

  /** The class of an object: the first annotation that is there decides, if it is not empty, or else the spec. */
  predicate HasClass(annotations: map<string, string>, inSpec: string, class_: string) {
    var own, general := "projectcontour.io/ingress.class", "kubernetes.io/ingress.class";
    if own in annotations then class_ == (if annotations[own] == "" then inSpec else annotations[own])
    else if general in annotations then class_ == (if annotations[general] == "" then inSpec else annotations[general])
    else class_ == inSpec
  }

  /** The cache wants the objects of the configured classes; if none are configured, those without a class and those
      of the class `contour`. */
  lemma WantedIff(cfg: Config, i: Ingress, p: HTTPProxy, class_: string)
    ensures HasClass(i.meta.annotations, if i.spec.className.Some? then i.spec.className.value else "", class_) ==>
              (IngressWanted(cfg, i) <==>
               class_ in cfg.ingressClasses || (|cfg.ingressClasses| == 0 && class_ in ["", "contour"]))
    ensures HasClass(p.meta.annotations, p.spec.className, class_) ==>
              (ProxyWanted(cfg, p) <==>
               class_ in cfg.ingressClasses || (|cfg.ingressClasses| == 0 && class_ in ["", "contour"]))
  {
  }

  // ---------- References to secrets ----------

  function IngressSecret(o: Ingress, i: nat): NamespacedName
    requires i < |o.spec.tls|
  {
    var annotated := if "projectcontour.io/tls-cert-namespace" in o.meta.annotations
                     then o.meta.annotations["projectcontour.io/tls-cert-namespace"] else "";
    NamespacedNameFrom(o.spec.tls[i], [annotated, o.meta.namespace])
  }

  predicate HasTLS(o: HTTPProxy) {
    o.spec.virtualHost.Some? && o.spec.virtualHost.value.Some?
  }

  function ProxySecret(o: HTTPProxy): NamespacedName
    requires HasTLS(o)
  {
    NamespacedNameFrom(o.spec.virtualHost.value.value.secretName, [o.meta.namespace])
  }

  predicate HasRevocationList(o: HTTPProxy) {
    HasTLS(o) && o.spec.virtualHost.value.value.revocationList.Some?
  }

  function ProxyRevocationList(o: HTTPProxy): NamespacedName
    requires HasRevocationList(o)
  {
    NamespacedNameFrom(o.spec.virtualHost.value.value.revocationList.value, [o.meta.namespace])
  }

  predicate IsSecretRef(ref: CertificateRef) {
    ref.group == Some("") && ref.kind == Some("Secret")
  }

  predicate IsRefToSecret(ref: CertificateRef, secret: SecretObj, gatewayNamespace: string) {
    && IsSecretRef(ref)
    && (|| ref.namespace == Some(secret.meta.namespace)
        || (ref.namespace.None? && gatewayNamespace == secret.meta.namespace))
    && ref.name == secret.meta.name
  }

  ghost predicate IngressRefers(s: Objects, name: NamespacedName) {
    exists k, i: nat | k in s.ingresses && i < |s.ingresses[k].spec.tls| :: IngressSecret(s.ingresses[k], i) == name
  }

  predicate RefersTo(o: HTTPProxy, name: NamespacedName) {
    (HasTLS(o) && ProxySecret(o) == name) || (HasRevocationList(o) && ProxyRevocationList(o) == name)
  }

  ghost predicate ProxyRefers(s: Objects, name: NamespacedName) {
    exists k | k in s.proxies :: RefersTo(s.proxies[k], name)
  }

  predicate ListenerRefers(refs: Option<seq<CertificateRef>>, secret: SecretObj, gatewayNamespace: string) {
    refs.Some? && exists j | 0 <= j < |refs.value| :: IsRefToSecret(refs.value[j], secret, gatewayNamespace)
  }

  ghost predicate GatewayRefers(s: Objects, secret: SecretObj) {
    s.gateway.Some? &&
    exists i | 0 <= i < |s.gateway.value.spec| ::
      ListenerRefers(s.gateway.value.spec[i], secret, s.gateway.value.meta.namespace)
  }

  /** A change of the secret is worth a rebuild. The name is taken from the object as it is. */
  ghost predicate SecretTriggers(cfg: Config, s: Objects, secret: SecretObj) {
    var name := NamespacedName(secret.meta.namespace, secret.meta.name);
    || CACertificateKey in secret.spec
    || IngressRefers(s, name) || ProxyRefers(s, name) || name in cfg.secretRefs || GatewayRefers(s, secret)
  }

  /** A certificate reference of a Gateway listener, in the Gateway's namespace unless it names another one. */
  predicate RefIs(ref: CertificateRef, gatewayNamespace: string, k: NamespacedName) {
    ref == CertificateRef(Some(""), Some("Secret"), if ref.namespace.Some? then Some(k.namespace) else None, k.name)
    && (ref.namespace.None? ==> gatewayNamespace == k.namespace)
  }

  function Annotation(m: Meta, key: string): string {
    if key in m.annotations then m.annotations[key] else ""
  }

  function OrDefault(n: string): string {
    if n != "" then n else "default"
  }

  /** The namespace of the secrets that an ingress names: the annotated one, or its own. */
  function SecretNamespace(m: Meta): string {
    var annotated := Annotation(m, "projectcontour.io/tls-cert-namespace");
    if annotated != "" then annotated else OrDefault(m.namespace)
  }

  /** Everything that names the secret `k`: the TLS entries of ingresses, in the annotated namespace or their own,
      the secrets and revocation lists of HTTPProxies, in their own, and the references of Gateway listeners. */
  ghost predicate NamedSomewhere(s: Objects, k: NamespacedName) {
    || (exists n, i: nat | n in s.ingresses && i < |s.ingresses[n].spec.tls| ::
          Spells(s.ingresses[n].spec.tls[i], SecretNamespace(s.ingresses[n].meta), k))
    || (exists n | n in s.proxies ::
          var p := s.proxies[n];
          && p.spec.virtualHost.Some? && p.spec.virtualHost.value.Some?
          && var tls := p.spec.virtualHost.value.value;
             || Spells(tls.secretName, OrDefault(p.meta.namespace), k)
             || (tls.revocationList.Some? && Spells(tls.revocationList.value, OrDefault(p.meta.namespace), k)))
    || (s.gateway.Some? && exists i: nat, j: nat | i < |s.gateway.value.spec| && s.gateway.value.spec[i].Some?
                                                   && j < |s.gateway.value.spec[i].value| ::
          RefIs(s.gateway.value.spec[i].value[j], s.gateway.value.meta.namespace, k))
  }

  /** A change of a secret is worth a rebuild exactly if it holds a CA certificate, is configured, or is named. */
  lemma SecretTriggersIff(cfg: Config, s: Objects, secret: SecretObj)
    ensures var k := NamespacedName(secret.meta.namespace, secret.meta.name);
            SecretTriggers(cfg, s, secret) <==> "ca.crt" in secret.spec || k in cfg.secretRefs || NamedSomewhere(s, k)
  {
    var k := NamespacedName(secret.meta.namespace, secret.meta.name);
    IngressRefersIff(s, k);
    ProxyRefersIff(s, k);
    GatewayRefersIff(s, secret);
    hide IngressRefers, ProxyRefers, GatewayRefers, Spells, RefIs;
  }

  lemma IngressRefersIff(s: Objects, k: NamespacedName)
    ensures IngressRefers(s, k) <==>
            exists n, i: nat | n in s.ingresses && i < |s.ingresses[n].spec.tls| ::
              Spells(s.ingresses[n].spec.tls[i], SecretNamespace(s.ingresses[n].meta), k)
  {
    hide Spells, NamespacedNameFrom;
    forall n, i: nat | n in s.ingresses && i < |s.ingresses[n].spec.tls|
      ensures IngressSecret(s.ingresses[n], i) == k <==>
              Spells(s.ingresses[n].spec.tls[i], SecretNamespace(s.ingresses[n].meta), k)
    {
      var m := s.ingresses[n].meta;
      NamesIff(s.ingresses[n].spec.tls[i], Annotation(m, "projectcontour.io/tls-cert-namespace"), m.namespace, k);
    }
  }

  lemma ProxyRefersIff(s: Objects, k: NamespacedName)
    ensures ProxyRefers(s, k) <==>
            exists n | n in s.proxies ::
              var p := s.proxies[n];
              && p.spec.virtualHost.Some? && p.spec.virtualHost.value.Some?
              && var tls := p.spec.virtualHost.value.value;
                 || Spells(tls.secretName, OrDefault(p.meta.namespace), k)
                 || (tls.revocationList.Some? && Spells(tls.revocationList.value, OrDefault(p.meta.namespace), k))
  {
    hide Spells, NamespacedNameFrom;
    forall n | n in s.proxies && HasTLS(s.proxies[n])
      ensures var p := s.proxies[n]; var tls := p.spec.virtualHost.value.value;
              RefersTo(p, k) <==>
              || Spells(tls.secretName, OrDefault(p.meta.namespace), k)
              || (tls.revocationList.Some? && Spells(tls.revocationList.value, OrDefault(p.meta.namespace), k))
    {
      var p := s.proxies[n];
      var tls := p.spec.virtualHost.value.value;
      NamesIff(tls.secretName, "", p.meta.namespace, k);
      if tls.revocationList.Some? { NamesIff(tls.revocationList.value, "", p.meta.namespace, k); }
    }
  }

  lemma GatewayRefersIff(s: Objects, secret: SecretObj)
    ensures GatewayRefers(s, secret) <==>
            s.gateway.Some? && exists i: nat, j: nat | i < |s.gateway.value.spec| && s.gateway.value.spec[i].Some?
                                                       && j < |s.gateway.value.spec[i].value| ::
              RefIs(s.gateway.value.spec[i].value[j], s.gateway.value.meta.namespace,
                    NamespacedName(secret.meta.namespace, secret.meta.name))
  {
    var k := NamespacedName(secret.meta.namespace, secret.meta.name);
    forall ref, n ensures IsRefToSecret(ref, secret, n) <==> RefIs(ref, n, k) {}
    hide IsRefToSecret, RefIs;
    if GatewayRefers(s, secret) {
      var g := s.gateway.value;
      var i: nat :| i < |g.spec| && ListenerRefers(g.spec[i], secret, g.meta.namespace);
      var j: nat :| j < |g.spec[i].value| && IsRefToSecret(g.spec[i].value[j], secret, g.meta.namespace);
    }
    if s.gateway.Some? {
      var g := s.gateway.value;
      if i: nat, j: nat :| i < |g.spec| && g.spec[i].Some? && j < |g.spec[i].value|
                           && RefIs(g.spec[i].value[j], g.meta.namespace, k) {
        assert ListenerRefers(g.spec[i], secret, g.meta.namespace);
      }
    }
  }

  lemma TriggersIgnoreSecrets(cfg: Config, s: Objects, t: Objects, secret: SecretObj)
    requires t == s.(secrets := t.secrets)
    ensures SecretTriggers(cfg, s, secret) == SecretTriggers(cfg, t, secret)
  {
    var name := NamespacedName(secret.meta.namespace, secret.meta.name);
    assert IngressRefers(s, name) == IngressRefers(t, name);
    assert ProxyRefers(s, name) == ProxyRefers(t, name);
  }

  predicate PolicyRefers(o: Obj<seq<CARef>>, name: NamespacedName) {
    exists j | 0 <= j < |o.spec| :: o.spec[j] == CARef("", "ConfigMap", name.name) && name.namespace == o.meta.namespace
  }

  ghost predicate ConfigMapTriggers(s: Objects, configMap: SecretObj) {
    exists k | k in s.policies ::
      PolicyRefers(s.policies[k], NamespacedName(configMap.meta.namespace, configMap.meta.name))
  }

  /** A change of a config map is worth a rebuild exactly if a policy in its namespace names it as a CA. */
  lemma ConfigMapTriggersIff(s: Objects, configMap: SecretObj)
    ensures ConfigMapTriggers(s, configMap) <==>
            exists k, j: nat | k in s.policies && j < |s.policies[k].spec| ::
              var ref := s.policies[k].spec[j];
              && ref.group == "" && ref.kind == "ConfigMap" && ref.name == configMap.meta.name
              && s.policies[k].meta.namespace == configMap.meta.namespace
  {
    var name := NamespacedName(configMap.meta.namespace, configMap.meta.name);
    if k :| k in s.policies && PolicyRefers(s.policies[k], name) {
      var j: nat :| j < |s.policies[k].spec| && s.policies[k].spec[j] == CARef("", "ConfigMap", name.name);
      assert s.policies[k].meta.namespace == configMap.meta.namespace;
    }
    if k, j: nat :| k in s.policies && j < |s.policies[k].spec| && s.policies[k].spec[j].group == ""
                    && s.policies[k].spec[j].kind == "ConfigMap" && s.policies[k].spec[j].name == configMap.meta.name
                    && s.policies[k].meta.namespace == configMap.meta.namespace {
      assert s.policies[k].spec[j] == CARef("", "ConfigMap", name.name);
      assert PolicyRefers(s.policies[k], name);
    }
  }

  // ---------- Insert and remove ----------

  function CASecretOf(configMap: SecretObj): SecretObj
    requires CACertificateKey in configMap.spec
  {
    Obj(configMap.meta, map[CACertificateKey := configMap.spec[CACertificateKey]])
  }

  predicate GatewayWanted(cfg: Config, o: Gateway) {
    cfg.gatewayToCache.Some? ==> KeyOf(o.meta) == cfg.gatewayToCache.value
  }

  function AfterInsert(cfg: Config, s: Objects, o: Object): Objects {
    match o
    case OfIngress(x) => if IngressWanted(cfg, x) then s.(ingresses := s.ingresses[KeyOf(x.meta) := x]) else s
    case OfProxy(x) => if ProxyWanted(cfg, x) then s.(proxies := s.proxies[KeyOf(x.meta) := x]) else s
    case OfSecret(x) => s.(secrets := s.secrets[KeyOf(x.meta) := x])
    case OfConfigMap(x) =>
      if CACertificateKey in x.spec then s.(configMaps := s.configMaps[KeyOf(x.meta) := CASecretOf(x)]) else s
    case OfDelegation(x) => s.(delegations := s.delegations[KeyOf(x.meta) := x])
    case OfPolicy(x) => s.(policies := s.policies[KeyOf(x.meta) := x])
    case OfGateway(x) => if GatewayWanted(cfg, x) then s.(gateway := Some(x)) else s
    case Tombstone(_) => s
    case Unknown => s
  }

  ghost predicate InsertReports(cfg: Config, s: Objects, o: Object) {
    match o
    case OfIngress(x) => IngressWanted(cfg, x)
    case OfProxy(x) => ProxyWanted(cfg, x)
    case OfSecret(x) => SecretTriggers(cfg, s, x)
    case OfConfigMap(x) => CACertificateKey in x.spec && ConfigMapTriggers(s, x)
    case OfDelegation(_) => true
    case OfPolicy(_) => true
    case OfGateway(x) => GatewayWanted(cfg, x)
    case Tombstone(_) => false
    case Unknown => false
  }

  predicate GatewayRemoved(cfg: Config, s: Objects, o: Gateway) {
    cfg.gatewayToCache.Some? ==> s.gateway.Some? && KeyOf(o.meta) == KeyOf(s.gateway.value.meta)
  }

  function AfterRemove(cfg: Config, s: Objects, o: Object): Objects {
    match o
    case OfIngress(x) => s.(ingresses := s.ingresses - {KeyOf(x.meta)})
    case OfProxy(x) => s.(proxies := s.proxies - {KeyOf(x.meta)})
    case OfSecret(x) => s.(secrets := s.secrets - {KeyOf(x.meta)})
    case OfConfigMap(x) => s.(configMaps := s.configMaps - {KeyOf(x.meta)})
    case OfDelegation(x) => s.(delegations := s.delegations - {KeyOf(x.meta)})
    case OfPolicy(x) => s.(policies := s.policies - {KeyOf(x.meta)})
    case OfGateway(x) => if GatewayRemoved(cfg, s, x) then s.(gateway := None) else s
    case Tombstone(last) => AfterRemove(cfg, s, last)
    case Unknown => s
  }

  ghost predicate RemoveReports(cfg: Config, s: Objects, o: Object) {
    match o
    case OfIngress(x) => KeyOf(x.meta) in s.ingresses
    case OfProxy(x) => KeyOf(x.meta) in s.proxies
    case OfSecret(x) => SecretTriggers(cfg, s, x)
    case OfConfigMap(x) => ConfigMapTriggers(s, x)
    case OfDelegation(x) => KeyOf(x.meta) in s.delegations
    case OfPolicy(x) => KeyOf(x.meta) in s.policies
    case OfGateway(x) => GatewayRemoved(cfg, s, x)
    case Tombstone(last) => RemoveReports(cfg, s, last)
    case Unknown => false
  }

  /** An object that the cache does not take: an ingress or proxy of another class, a config map without a CA
      certificate, another Gateway than the configured one, or nothing that the cache knows how to insert. */
  predicate NotTaken(cfg: Config, o: Object) {
    || (o.OfIngress? && !IngressWanted(cfg, o.ingress))
    || (o.OfProxy? && !ProxyWanted(cfg, o.proxy))
    || (o.OfConfigMap? && "ca.crt" !in o.configMap.spec)
    || (o.OfGateway? && cfg.gatewayToCache.Some? && cfg.gatewayToCache.value != KeyOf(o.gateway.meta))
    || o.Tombstone? || o.Unknown?
  }

  /** Such an object leaves the cache as it is. All others are found in the cache afterwards. A change is reported for
      every object that is taken, and for secrets and config maps if they are referred to. */
  lemma InsertIs(cfg: Config, s: Objects, o: Object)
    ensures NotTaken(cfg, o) ==> AfterInsert(cfg, s, o) == s && !InsertReports(cfg, s, o)
    ensures !NotTaken(cfg, o) ==> Holds(AfterInsert(cfg, s, o), o)
    ensures !NotTaken(cfg, o) ==>
              (InsertReports(cfg, s, o) <==>
               && (o.OfSecret? ==> SecretTriggers(cfg, s, o.secret))
               && (o.OfConfigMap? ==> ConfigMapTriggers(s, o.configMap)))
  {
  }

  /** The cache holds the object under its name; of a config map it holds the CA certificate. */
  predicate Holds(s: Objects, o: Object) {
    match o
    case OfIngress(x) => KeyOf(x.meta) in s.ingresses && s.ingresses[KeyOf(x.meta)] == x
    case OfProxy(x) => KeyOf(x.meta) in s.proxies && s.proxies[KeyOf(x.meta)] == x
    case OfSecret(x) => KeyOf(x.meta) in s.secrets && s.secrets[KeyOf(x.meta)] == x
    case OfConfigMap(x) =>
      && KeyOf(x.meta) in s.configMaps && s.configMaps[KeyOf(x.meta)].meta == x.meta
      && s.configMaps[KeyOf(x.meta)].spec.Keys == {"ca.crt"} && "ca.crt" in x.spec
      && s.configMaps[KeyOf(x.meta)].spec["ca.crt"] == x.spec["ca.crt"]
    case OfDelegation(x) => KeyOf(x.meta) in s.delegations && s.delegations[KeyOf(x.meta)] == x
    case OfPolicy(x) => KeyOf(x.meta) in s.policies && s.policies[KeyOf(x.meta)] == x
    case OfGateway(x) => s.gateway == Some(x)
    case _ => false
  }

  /** The object inside a record of a deletion that was missed. */
  function Buried(o: Object): Object {
    match o
    case Tombstone(last) => Buried(last)
    case _ => o
  }

  /** After a removal the cache holds no object of that kind and name; with a configured Gateway, only the one that
      is cached can be removed. Objects other than secrets and config maps are reported if they were there. */
  lemma {:induction false} RemoveIs(cfg: Config, s: Objects, o: Object)
    ensures var t := AfterRemove(cfg, s, o);
            match Buried(o)
            case OfIngress(x) =>
              KeyOf(x.meta) !in t.ingresses && (RemoveReports(cfg, s, o) <==> KeyOf(x.meta) in s.ingresses)
            case OfProxy(x) =>
              KeyOf(x.meta) !in t.proxies && (RemoveReports(cfg, s, o) <==> KeyOf(x.meta) in s.proxies)
            case OfSecret(x) =>
              KeyOf(x.meta) !in t.secrets && (RemoveReports(cfg, s, o) <==> SecretTriggers(cfg, s, x))
            case OfConfigMap(x) =>
              KeyOf(x.meta) !in t.configMaps && (RemoveReports(cfg, s, o) <==> ConfigMapTriggers(s, x))
            case OfDelegation(x) =>
              KeyOf(x.meta) !in t.delegations && (RemoveReports(cfg, s, o) <==> KeyOf(x.meta) in s.delegations)
            case OfPolicy(x) =>
              KeyOf(x.meta) !in t.policies && (RemoveReports(cfg, s, o) <==> KeyOf(x.meta) in s.policies)
            case OfGateway(x) =>
              if cfg.gatewayToCache.None? || (s.gateway.Some? && KeyOf(s.gateway.value.meta) == KeyOf(x.meta))
              then t.gateway.None? && RemoveReports(cfg, s, o)
              else t == s && !RemoveReports(cfg, s, o)
            case _ => t == s && !RemoveReports(cfg, s, o)
  {
    if o.Tombstone? {
      RemoveIs(cfg, s, o.last);
    }
  }

  predicate SameAt<T(==)>(a: map<NamespacedName, T>, b: map<NamespacedName, T>, k: NamespacedName) {
    (k in a <==> k in b) && (k in a && k in b ==> a[k] == b[k])
  }

  /** `t` is `s` but for objects of the kind of `o` and under its name. */
  predicate OnlyDiffersAt(s: Objects, t: Objects, o: Object) {
    match o
    case OfIngress(_) => t == s.(ingresses := t.ingresses)
    case OfProxy(_) => t == s.(proxies := t.proxies)
    case OfSecret(_) => t == s.(secrets := t.secrets)
    case OfConfigMap(_) => t == s.(configMaps := t.configMaps)
    case OfDelegation(_) => t == s.(delegations := t.delegations)
    case OfPolicy(_) => t == s.(policies := t.policies)
    case OfGateway(_) => t == s.(gateway := t.gateway)
    case _ => t == s
  }

  predicate SameUnder(s: Objects, t: Objects, k: NamespacedName) {
    && SameAt(s.ingresses, t.ingresses, k) && SameAt(s.proxies, t.proxies, k)
    && SameAt(s.secrets, t.secrets, k) && SameAt(s.configMaps, t.configMaps, k)
    && SameAt(s.delegations, t.delegations, k) && SameAt(s.policies, t.policies, k)
  }

  predicate KindSameAt(s: Objects, t: Objects, o: Object, k: NamespacedName) {
    && (o.OfIngress? ==> SameAt(s.ingresses, t.ingresses, k)) && (o.OfProxy? ==> SameAt(s.proxies, t.proxies, k))
    && (o.OfSecret? ==> SameAt(s.secrets, t.secrets, k)) && (o.OfConfigMap? ==> SameAt(s.configMaps, t.configMaps, k))
    && (o.OfDelegation? ==> SameAt(s.delegations, t.delegations, k))
    && (o.OfPolicy? ==> SameAt(s.policies, t.policies, k))
  }

  lemma SameUnderFrom(s: Objects, t: Objects, o: Object, k: NamespacedName)
    requires OnlyDiffersAt(s, t, o) && KindSameAt(s, t, o, k)
    ensures SameUnder(s, t, k)
  {
    hide SameAt;
    SameAtSelf(s.ingresses, k);
    SameAtSelf(s.proxies, k);
    SameAtSelf(s.secrets, k);
    SameAtSelf(s.configMaps, k);
    SameAtSelf(s.delegations, k);
    SameAtSelf(s.policies, k);
  }

  lemma SameAtSelf<T>(m: map<NamespacedName, T>, k: NamespacedName)
    ensures SameAt(m, m, k)
  {
  }

  lemma InsertKind(cfg: Config, s: Objects, o: Object)
    ensures OnlyDiffersAt(s, AfterInsert(cfg, s, o), o)
  {
    hide KeyOf, IngressWanted, ProxyWanted, GatewayWanted;
  }

  lemma RemoveKind(cfg: Config, s: Objects, o: Object)
    requires !o.Tombstone?
    ensures OnlyDiffersAt(s, AfterRemove(cfg, s, o), o)
  {
    hide KeyOf, GatewayRemoved;
  }

  lemma InsertSame(cfg: Config, s: Objects, o: Object, k: NamespacedName)
    requires MetaOf(o).Some? && KeyOf(MetaOf(o).value) != k
    ensures KindSameAt(s, AfterInsert(cfg, s, o), o, k) && KindSameAt(s, AfterRemove(cfg, s, o), o, k)
  {
    hide KeyOf, IngressWanted, ProxyWanted;
  }

  /** Inserting or removing an object touches no other object. */
  lemma {:induction false} OthersKept(cfg: Config, s: Objects, o: Object, k: NamespacedName)
    ensures OnlyDiffersAt(s, AfterInsert(cfg, s, o), o) && OnlyDiffersAt(s, AfterRemove(cfg, s, o), Buried(o))
    ensures MetaOf(Buried(o)).Some? && KeyOf(MetaOf(Buried(o)).value) != k ==>
              SameUnder(s, AfterInsert(cfg, s, o), k) && SameUnder(s, AfterRemove(cfg, s, o), k)
  {
    if o.Tombstone? {
      OthersKept(cfg, s, o.last, k);
      assert AfterInsert(cfg, s, o) == s;
      SameUnderSelf(s, k);
    } else {
      InsertKind(cfg, s, o);
      RemoveKind(cfg, s, o);
      hide KeyOf, SameUnder, AfterInsert, AfterRemove, OnlyDiffersAt, KindSameAt;
      if MetaOf(o).Some? && KeyOf(MetaOf(o).value) != k {
        InsertSame(cfg, s, o, k);
        SameUnderFrom(s, AfterInsert(cfg, s, o), o, k);
        SameUnderFrom(s, AfterRemove(cfg, s, o), o, k);
      }
    }
  }

  lemma SameUnderSelf(s: Objects, k: NamespacedName)
    ensures SameUnder(s, s, k)
  {
  }

  // ---------- Events ----------

  /** What the event handler receives: an event of an informer, or the news that this instance was elected. */
  datatype Op = Add(obj: Object) | Update(old_: Object, new_: Object) | Delete(obj: Object) | Elected(rebuild: bool)

  function MetaOf(o: Object): Option<Meta> {
    match o
    case OfIngress(x) => Some(x.meta)
    case OfProxy(x) => Some(x.meta)
    case OfSecret(x) => Some(x.meta)
    case OfConfigMap(x) => Some(x.meta)
    case OfDelegation(x) => Some(x.meta)
    case OfPolicy(x) => Some(x.meta)
    case OfGateway(x) => Some(x.meta)
    case Tombstone(_) => None
    case Unknown => None
  }

  /** Both sides of an update are objects that can be compared. */
  predicate Comparable(a: Object, b: Object) {
    MetaOf(a).Some? && MetaOf(b).Some?
  }

  predicate IsObjectEqual(a: Object, b: Object)
    requires Comparable(a, b)
  {
    var m, n := MetaOf(a).value, MetaOf(b).value;
    || m.resourceVersion == n.resourceVersion
    || match a
       case OfIngress(_) => m.generation == n.generation && m.annotations == n.annotations
       case OfProxy(_) => m.generation == n.generation && m.annotations == n.annotations
       case OfSecret(x) => b.OfSecret? && x.spec == b.secret.spec
       case OfConfigMap(x) => b.OfConfigMap? && x.spec == b.configMap.spec
       case _ => m.generation == n.generation
  }

  function AfterOp(cfg: Config, s: Objects, op: Op): Objects {
    match op
    case Add(o) => AfterInsert(cfg, s, o)
    case Update(a, b) =>
      if !Comparable(a, b) || IsObjectEqual(a, b) then s else AfterInsert(cfg, AfterRemove(cfg, s, a), b)
    case Delete(o) => AfterRemove(cfg, s, o)
    case Elected(_) => s
  }

  ghost predicate OpReports(cfg: Config, s: Objects, op: Op) {
    match op
    case Add(o) => InsertReports(cfg, s, o)
    case Update(a, b) =>
      && Comparable(a, b) && !IsObjectEqual(a, b)
      && (RemoveReports(cfg, s, a) || InsertReports(cfg, AfterRemove(cfg, s, a), b))
    case Delete(o) => RemoveReports(cfg, s, o)
    case Elected(rebuild) => rebuild
  }

  /** An update is skipped exactly if the versions are equal, or if the generation, the annotations or the data show
      that nothing changed that the cache looks at; which of them do depends on the kind of object. */
  lemma SkippedIff(a: Object, b: Object)
    requires MetaOf(a).Some? && MetaOf(b).Some?
    ensures var m, n := MetaOf(a).value, MetaOf(b).value;
            !IsObjectEqual(a, b) <==>
            && m.resourceVersion != n.resourceVersion
            && (a.OfSecret? ==> !b.OfSecret? || b.secret.spec != a.secret.spec)
            && (a.OfConfigMap? ==> !b.OfConfigMap? || b.configMap.spec != a.configMap.spec)
            && (a.OfIngress? || a.OfProxy? ==> m.generation != n.generation || m.annotations != n.annotations)
            && (a.OfDelegation? || a.OfPolicy? || a.OfGateway? ==> m.generation != n.generation)
  {
  }

  /** A skipped update changes and reports nothing; any other one is a removal and an insertion, and is reported if
      one of them is. */
  lemma UpdateIs(cfg: Config, s: Objects, a: Object, b: Object)
    ensures var op := Update(a, b);
            if MetaOf(a).None? || MetaOf(b).None? || IsObjectEqual(a, b)
            then AfterOp(cfg, s, op) == s && !OpReports(cfg, s, op)
            else
              && AfterOp(cfg, s, op) == AfterOp(cfg, AfterOp(cfg, s, Delete(a)), Add(b))
              && (OpReports(cfg, s, op) <==>
                  OpReports(cfg, s, Delete(a)) || OpReports(cfg, AfterOp(cfg, s, Delete(a)), Add(b)))
  {
  }

  /** All but the secrets and the config maps is the same. */
  predicate SameReferences(s: Objects, t: Objects) {
    t == s.(secrets := t.secrets, configMaps := t.configMaps)
  }

  lemma {:induction false} QuietRemove(cfg: Config, s: Objects, o: Object)
    requires !RemoveReports(cfg, s, o)
    ensures SameReferences(s, AfterRemove(cfg, s, o))
  {
    match o
    case Tombstone(last) => QuietRemove(cfg, s, last);
    case OfIngress(x) => assert s.ingresses - {KeyOf(x.meta)} == s.ingresses;
    case OfProxy(x) => assert s.proxies - {KeyOf(x.meta)} == s.proxies;
    case OfDelegation(x) => assert s.delegations - {KeyOf(x.meta)} == s.delegations;
    case OfPolicy(x) => assert s.policies - {KeyOf(x.meta)} == s.policies;
    case _ =>
  }

  lemma QuietInsert(cfg: Config, s: Objects, o: Object)
    requires !InsertReports(cfg, s, o)
    ensures SameReferences(s, AfterInsert(cfg, s, o))
  {
  }

  /** An event that does not call for a rebuild changes nothing but secrets and config maps. */
  lemma QuietOp(cfg: Config, s: Objects, op: Op)
    requires !OpReports(cfg, s, op)
    ensures SameReferences(s, AfterOp(cfg, s, op))
  {
    hide AfterInsert, AfterRemove, InsertReports, RemoveReports;
    match op
    case Add(o) => QuietInsert(cfg, s, o);
    case Update(a, b) =>
      if Comparable(a, b) && !IsObjectEqual(a, b) {
        QuietRemove(cfg, s, a);
        QuietInsert(cfg, AfterRemove(cfg, s, a), b);
      }
    case Delete(o) => QuietRemove(cfg, s, o);
    case Elected(_) =>
  }
}
