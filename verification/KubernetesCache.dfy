/**
 The cache of Kubernetes objects, with validation results of secrets stored beside them.
 */
module KubernetesCaching {
  import opened Wrappers
  import opened Names
  import opened CacheObjects
  import opened SecretLookups

  /** A secret with the validation results stored so far. */
  datatype Secret = Secret(
    obj: SecretObj,
    validTLS: Option<Option<string>>,
    validCA: Option<Option<string>>,
    validCRL: Option<Option<string>>)

  function Fresh(obj: SecretObj): Secret {
    Secret(obj, None, None, None)
  }

  predicate ResultIs(stored: Option<Option<string>>, result: Option<string>) {
    stored.Some? ==> stored.value == result
  }

  /** Every stored result is what the validator says of the stored object. */
  predicate Remembers(cfg: Config, e: Secret) {
    && ResultIs(e.validTLS, cfg.validTLS(e.obj))
    && ResultIs(e.validCA, cfg.validCA(e.obj))
    && ResultIs(e.validCRL, cfg.validCRL(e.obj))
  }

  ghost predicate AllRemember(cfg: Config, m: map<NamespacedName, Secret>) {
    forall k | k in m :: Remembers(cfg, m[k])
  }

  ghost function ObjectsOf(m: map<NamespacedName, Secret>): map<NamespacedName, SecretObj> {
    map k | k in m :: m[k].obj
  }

  lemma PutSecret(cfg: Config, m: map<NamespacedName, Secret>, k: NamespacedName, e: Secret)
    requires AllRemember(cfg, m) && Remembers(cfg, e)
    ensures AllRemember(cfg, m[k := e]) && ObjectsOf(m[k := e]) == ObjectsOf(m)[k := e.obj]
    ensures k in m && m[k].obj == e.obj ==> ObjectsOf(m[k := e]) == ObjectsOf(m)
  {
  }

  lemma DropSecret(cfg: Config, m: map<NamespacedName, Secret>, k: NamespacedName)
    requires AllRemember(cfg, m)
    ensures AllRemember(cfg, m - {k}) && ObjectsOf(m - {k}) == ObjectsOf(m) - {k}
  {
  }

  datatype Request = Event(op: Op) | Ask(lookup: Lookup)

  datatype Reply = Changed(changed: bool) | Told(answer: Answer)

  ghost function ObjectsAfter(cfg: Config, s: Objects, r: Request): Objects {
    if r.Event? then AfterOp(cfg, s, r.op) else s
  }

  /** What a cache that stores no results would reply. */
  ghost predicate Replies(cfg: Config, s: Objects, r: Request, reply: Reply) {
    match r
    case Event(op) => reply == Changed(OpReports(cfg, s, op))
    case Ask(l) => reply == Told(AnswerTo(cfg, s, l))
  }

  ghost function ObjectsAfterRequests(cfg: Config, s: Objects, rs: seq<Request>): Objects {
    if rs == [] then s else ObjectsAfter(cfg, ObjectsAfterRequests(cfg, s, rs[..|rs| - 1]), rs[|rs| - 1])
  }

  class KubernetesCache {
    const cfg: Config
    var ingresses: map<NamespacedName, Ingress>
    var httpproxies: map<NamespacedName, HTTPProxy>
    var secrets: map<NamespacedName, Secret>
    var configmapsecrets: map<NamespacedName, Secret>
    var tlscertificatedelegations: map<NamespacedName, Obj<seq<Delegation>>>
    var backendtlspolicies: map<NamespacedName, Obj<seq<CARef>>>
    var gateway: Option<Gateway>

    ghost predicate Valid()
      reads this
    {
      AllRemember(cfg, secrets) && AllRemember(cfg, configmapsecrets)
    }

    ghost function Contents(): Objects
      reads this
    {
      Objects(ingresses, httpproxies, ObjectsOf(secrets), ObjectsOf(configmapsecrets), tlscertificatedelegations,
              backendtlspolicies, gateway)
    }

    constructor (cfg: Config)
      ensures this.cfg == cfg && Valid() && Contents() == Objects(map[], map[], map[], map[], map[], map[], None)
    {
      this.cfg := cfg;
      ingresses, httpproxies, secrets, configmapsecrets := map[], map[], map[], map[];
      tlscertificatedelegations, backendtlspolicies, gateway := map[], map[], None;
    }

    // ---------- Does a change matter? ----------

    method IngressesRefer(name: NamespacedName) returns (found: bool)
      ensures found <==> IngressRefers(Contents(), name)
    {
      var remaining := ingresses.Keys;
      while remaining != {}
        invariant remaining <= ingresses.Keys
        invariant forall k, i: nat | k in ingresses.Keys - remaining && i < |ingresses[k].spec.tls| ::
                    IngressSecret(ingresses[k], i) != name
      {
        var k :| k in remaining;
        for i := 0 to |ingresses[k].spec.tls|
          invariant forall j: nat | j < i :: IngressSecret(ingresses[k], j) != name
        {
          if IngressSecret(ingresses[k], i) == name {
            return true;
          }
        }
        remaining := remaining - {k};
      }
      return false;
    }

    method ProxiesRefer(name: NamespacedName) returns (found: bool)
      ensures found <==> ProxyRefers(Contents(), name)
    {
      var remaining := httpproxies.Keys;
      while remaining != {}
        invariant remaining <= httpproxies.Keys
        invariant forall k | k in httpproxies.Keys - remaining :: !RefersTo(httpproxies[k], name)
      {
        var k :| k in remaining;
        remaining := remaining - {k};
        var proxy := httpproxies[k];
        if proxy.spec.virtualHost.None? {
          continue;
        }
        var tls := proxy.spec.virtualHost.value;
        if tls.None? {
          continue;
        }
        if name == NamespacedNameFrom(tls.value.secretName, [proxy.meta.namespace]) {
          return true;
        }
        var crl := tls.value.revocationList;
        if crl.Some? && name == NamespacedNameFrom(crl.value, [proxy.meta.namespace]) {
          return true;
        }
      }
      return false;
    }

    method GatewayHasRef(secret: SecretObj) returns (found: bool)
      ensures found <==> GatewayRefers(Contents(), secret)
    {
      if gateway.None? {
        return false;
      }
      var listeners, namespace := gateway.value.spec, gateway.value.meta.namespace;
      for i := 0 to |listeners|
        invariant forall j | 0 <= j < i :: !ListenerRefers(listeners[j], secret, namespace)
      {
        if listeners[i].None? {
          continue;
        }
        var refs := listeners[i].value;
        for j := 0 to |refs|
          invariant forall n | 0 <= n < j :: !IsRefToSecret(refs[n], secret, namespace)
        {
          if IsRefToSecret(refs[j], secret, namespace) {
            return true;
          }
        }
      }
      return false;
    }

    method SecretTriggersRebuild(secret: SecretObj) returns (triggers: bool)
      ensures triggers <==> SecretTriggers(cfg, Contents(), secret)
    {
      hide CacheObjects.IngressRefers, CacheObjects.ProxyRefers, CacheObjects.GatewayRefers;
      if CACertificateKey in secret.spec {
        return true;
      }
      var name := NamespacedName(secret.meta.namespace, secret.meta.name);
      triggers := IngressesRefer(name);
      if triggers {
        return true;
      }
      triggers := ProxiesRefer(name);
      if triggers || name in cfg.secretRefs {
        return true;
      }
      triggers := GatewayHasRef(secret);
    }

    method ConfigMapTriggersRebuild(configMap: SecretObj) returns (triggers: bool)
      ensures triggers <==> ConfigMapTriggers(Contents(), configMap)
    {
      var name := NamespacedName(configMap.meta.namespace, configMap.meta.name);
      var remaining := backendtlspolicies.Keys;
      while remaining != {}
        invariant remaining <= backendtlspolicies.Keys
        invariant forall k | k in backendtlspolicies.Keys - remaining :: !PolicyRefers(backendtlspolicies[k], name)
      {
        var k :| k in remaining;
        var refs := backendtlspolicies[k].spec;
        for j := 0 to |refs|
          invariant forall n | 0 <= n < j ::
                      !(&& refs[n] == CARef("", "ConfigMap", name.name)
                        && name.namespace == backendtlspolicies[k].meta.namespace)
        {
          if refs[j].group != "" || refs[j].kind != "ConfigMap" {
            continue;
          }
          if name == NamespacedName(backendtlspolicies[k].meta.namespace, refs[j].name) {
            return true;
          }
        }
        remaining := remaining - {k};
      }
      return false;
    }

    // ---------- Insert and remove ----------

    method Insert(o: Object) returns (accepted: bool)
      requires Valid()
      modifies this
      ensures Valid() && Contents() == AfterInsert(cfg, old(Contents()), o)
      ensures accepted <==> InsertReports(cfg, old(Contents()), o)
    {
      hide CacheObjects.IngressRefers, CacheObjects.ProxyRefers, CacheObjects.GatewayRefers;
      hide CacheObjects.IngressWanted, CacheObjects.ProxyWanted, ObjectsOf, AllRemember;
      match o
      case OfSecret(x) =>
        PutSecret(cfg, secrets, KeyOf(x.meta), Fresh(x));
        secrets := secrets[KeyOf(x.meta) := Fresh(x)];
        accepted := SecretTriggersRebuild(x);
        TriggersIgnoreSecrets(cfg, old(Contents()), Contents(), x);
      case OfConfigMap(x) =>
        if CACertificateKey in x.spec {
          PutSecret(cfg, configmapsecrets, KeyOf(x.meta), Fresh(CASecretOf(x)));
          configmapsecrets := configmapsecrets[KeyOf(x.meta) := Fresh(CASecretOf(x))];
          accepted := ConfigMapTriggersRebuild(x);
        } else {
          accepted := false;
        }
      case OfIngress(x) =>
        if !IngressWanted(cfg, x) {
          return false;
        }
        ingresses := ingresses[KeyOf(x.meta) := x];
        return true;
      case OfProxy(x) =>
        if !ProxyWanted(cfg, x) {
          return false;
        }
        httpproxies := httpproxies[KeyOf(x.meta) := x];
        return true;
      case OfDelegation(x) =>
        tlscertificatedelegations := tlscertificatedelegations[KeyOf(x.meta) := x];
        return true;
      case OfPolicy(x) =>
        backendtlspolicies := backendtlspolicies[KeyOf(x.meta) := x];
        return true;
      case OfGateway(x) =>
        if cfg.gatewayToCache.Some? && KeyOf(x.meta) != cfg.gatewayToCache.value {
          return false;
        }
        gateway := Some(x);
        return true;
      case Tombstone(_) => return false;
      case Unknown => return false;
    }

    method Remove(o: Object) returns (changed: bool)
      requires Valid()
      modifies this
      decreases o
      ensures Valid() && Contents() == AfterRemove(cfg, old(Contents()), o)
      ensures changed <==> RemoveReports(cfg, old(Contents()), o)
    {
      hide CacheObjects.IngressRefers, CacheObjects.ProxyRefers, CacheObjects.GatewayRefers, ObjectsOf, AllRemember;
      match o
      case OfSecret(x) =>
        DropSecret(cfg, secrets, KeyOf(x.meta));
        secrets := secrets - {KeyOf(x.meta)};
        changed := SecretTriggersRebuild(x);
        TriggersIgnoreSecrets(cfg, old(Contents()), Contents(), x);
      case OfConfigMap(x) =>
        DropSecret(cfg, configmapsecrets, KeyOf(x.meta));
        configmapsecrets := configmapsecrets - {KeyOf(x.meta)};
        changed := ConfigMapTriggersRebuild(x);
      case OfIngress(x) =>
        changed := KeyOf(x.meta) in ingresses;
        ingresses := ingresses - {KeyOf(x.meta)};
      case OfProxy(x) =>
        changed := KeyOf(x.meta) in httpproxies;
        httpproxies := httpproxies - {KeyOf(x.meta)};
      case OfDelegation(x) =>
        changed := KeyOf(x.meta) in tlscertificatedelegations;
        tlscertificatedelegations := tlscertificatedelegations - {KeyOf(x.meta)};
      case OfPolicy(x) =>
        changed := KeyOf(x.meta) in backendtlspolicies;
        backendtlspolicies := backendtlspolicies - {KeyOf(x.meta)};
      case OfGateway(x) =>
        if cfg.gatewayToCache.Some? && (gateway.None? || KeyOf(x.meta) != KeyOf(gateway.value.meta)) {
          return false;
        }
        gateway := None;
        changed := true;
      case Tombstone(last) => changed := Remove(last);
      case Unknown => changed := false;
    }

    /** What the event handler does with an event; true if it calls for a rebuild. */
    method OnUpdate(op: Op) returns (changed: bool)
      requires Valid()
      modifies this
      ensures Valid() && Contents() == AfterOp(cfg, old(Contents()), op)
      ensures changed <==> OpReports(cfg, old(Contents()), op)
    {
      hide CacheObjects.AfterInsert, CacheObjects.AfterRemove, CacheObjects.InsertReports, CacheObjects.RemoveReports;
      match op
      case Add(o) => changed := Insert(o);
      case Update(a, b) =>
        if !Comparable(a, b) || IsObjectEqual(a, b) {
          return false;
        }
        var removed := Remove(a);
        var inserted := Insert(b);
        changed := removed || inserted;
      case Delete(o) => changed := Remove(o);
      case Elected(rebuild) => changed := rebuild;
    }

    // ---------- Lookups ----------

    method DelegationPermitted(secret: NamespacedName, target: string) returns (permitted: bool)
      ensures permitted <==> Permitted(Contents(), secret, target)
    {
      if secret.namespace == target {
        return true;
      }
      var remaining := tlscertificatedelegations.Keys;
      while remaining != {}
        invariant remaining <= tlscertificatedelegations.Keys
        invariant forall k | k in tlscertificatedelegations.Keys - remaining ::
                    !DelegatedBy(tlscertificatedelegations[k], secret, target)
      {
        var k :| k in remaining;
        remaining := remaining - {k};
        var d := tlscertificatedelegations[k];
        if d.meta.namespace != secret.namespace {
          continue;
        }
        for i := 0 to |d.spec|
          invariant forall j | 0 <= j < i ::
                      !(TargetsNamespace(d.spec[j].targetNamespaces, target) && d.spec[j].secretName == secret.name)
        {
          if TargetsNamespace(d.spec[i].targetNamespaces, target) {
            if secret.name == d.spec[i].secretName {
              return true;
            }
          }
        }
      }
      return false;
    }

    method LookupTLSSecretInsecure(name: NamespacedName) returns (answer: Answer)
      requires Valid()
      modifies this`secrets
      ensures Valid() && Contents() == old(Contents())
      ensures answer == AnswerTo(cfg, Contents(), TLSInsecureLookup(name))
    {
      if name !in secrets {
        return NotFound;
      }
      if secrets[name].validTLS.None? {
        var sec := secrets[name].(validTLS := Some(cfg.validTLS(secrets[name].obj)));
        PutSecret(cfg, secrets, name, sec);
        secrets := secrets[name := sec];
      }
      if secrets[name].validTLS.value.Some? {
        return Invalid(secrets[name].validTLS.value.value);
      }
      return Found(secrets[name].obj);
    }

    method LookupTLSSecret(name: NamespacedName, target: string) returns (answer: Answer)
      requires Valid()
      modifies this`secrets
      ensures Valid() && Contents() == old(Contents())
      ensures answer == AnswerTo(cfg, Contents(), TLSLookup(name, target))
    {
      var permitted := DelegationPermitted(name, target);
      if !permitted {
        return NotPermitted;
      }
      answer := LookupTLSSecretInsecure(name);
    }

    method LookupCASecret(name: NamespacedName, target: string) returns (answer: Answer)
      requires Valid()
      modifies this`secrets
      ensures Valid() && Contents() == old(Contents())
      ensures answer == AnswerTo(cfg, Contents(), CALookup(name, target))
    {
      hide SecretLookups.Permitted;
      var permitted := DelegationPermitted(name, target);
      if !permitted {
        return NotPermitted;
      }
      if name !in secrets {
        return NotFound;
      }
      if secrets[name].validCA.None? {
        var sec := secrets[name].(validCA := Some(cfg.validCA(secrets[name].obj)));
        PutSecret(cfg, secrets, name, sec);
        secrets := secrets[name := sec];
      }
      if secrets[name].validCA.value.Some? {
        return Invalid(secrets[name].validCA.value.value);
      }
      return Found(secrets[name].obj);
    }

    method LookupCRLSecret(name: NamespacedName, target: string) returns (answer: Answer)
      requires Valid()
      modifies this`secrets
      ensures Valid() && Contents() == old(Contents())
      ensures answer == AnswerTo(cfg, Contents(), CRLLookup(name, target))
    {
      hide SecretLookups.Permitted;
      var permitted := DelegationPermitted(name, target);
      if !permitted {
        return NotPermitted;
      }
      if name !in secrets {
        return NotFound;
      }
      if secrets[name].validCRL.None? {
        var sec := secrets[name].(validCRL := Some(cfg.validCRL(secrets[name].obj)));
        PutSecret(cfg, secrets, name, sec);
        secrets := secrets[name := sec];
      }
      if secrets[name].validCRL.value.Some? {
        return Invalid(secrets[name].validCRL.value.value);
      }
      return Found(secrets[name].obj);
    }

    method LookupCAConfigMap(name: NamespacedName) returns (answer: Answer)
      requires Valid()
      modifies this`configmapsecrets
      ensures Valid() && Contents() == old(Contents())
      ensures answer == AnswerTo(cfg, Contents(), CAConfigMapLookup(name))
    {
      if name !in configmapsecrets {
        return NotFound;
      }
      if configmapsecrets[name].validCA.None? {
        var sec := configmapsecrets[name].(validCA := Some(cfg.validCA(configmapsecrets[name].obj)));
        PutSecret(cfg, configmapsecrets, name, sec);
        configmapsecrets := configmapsecrets[name := sec];
      }
      if configmapsecrets[name].validCA.value.Some? {
        return Invalid(configmapsecrets[name].validCA.value.value);
      }
      return Found(configmapsecrets[name].obj);
    }

    method Serve(r: Request) returns (reply: Reply)
      requires Valid()
      modifies this
      ensures Valid() && Contents() == ObjectsAfter(cfg, old(Contents()), r)
      ensures Replies(cfg, old(Contents()), r, reply)
    {
      hide SecretLookups.AnswerTo, CacheObjects.AfterOp, CacheObjects.OpReports, AllRemember, ObjectsOf;
      match r
      case Event(op) =>
        var changed := OnUpdate(op);
        reply := Changed(changed);
      case Ask(l) =>
        var answer;
        match l {
          case TLSLookup(name, target) => answer := LookupTLSSecret(name, target);
          case TLSInsecureLookup(name) => answer := LookupTLSSecretInsecure(name);
          case CALookup(name, target) => answer := LookupCASecret(name, target);
          case CRLLookup(name, target) => answer := LookupCRLSecret(name, target);
          case CAConfigMapLookup(name) => answer := LookupCAConfigMap(name);
        }
        reply := Told(answer);
    }

    /** Over every sequence of events and lookups the cache replies as one that stores no results would. */
    method ServeAll(rs: seq<Request>) returns (replies: seq<Reply>)
      requires Valid()
      modifies this
      ensures Valid() && Contents() == ObjectsAfterRequests(cfg, old(Contents()), rs)
      ensures |replies| == |rs|
      ensures forall i | 0 <= i < |rs| ::
                Replies(cfg, ObjectsAfterRequests(cfg, old(Contents()), rs[..i]), rs[i], replies[i])
    {
      hide ObjectsAfter, Replies, Valid, Contents;
      replies := [];
      for n := 0 to |rs|
        invariant Valid() && Contents() == ObjectsAfterRequests(cfg, old(Contents()), rs[..n])
        invariant |replies| == n
        invariant forall i | 0 <= i < n ::
                    Replies(cfg, ObjectsAfterRequests(cfg, old(Contents()), rs[..i]), rs[i], replies[i])
      {
        var reply := Serve(rs[n]);
        replies := replies + [reply];
        assert rs[..n + 1][..n] == rs[..n];
      }
      assert rs[..|rs|] == rs;
    }
  }
}
