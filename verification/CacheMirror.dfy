/**
 The ingresses and proxies in the cache are those of the live objects that match the configured classes.
 */
module CacheMirror {
  import opened Names
  import opened CacheObjects

  datatype Live = Live(ingresses: map<NamespacedName, Ingress>, proxies: map<NamespacedName, HTTPProxy>)

  /** Equal in all that the cache's readers look at. */
  predicate Same<S(==)>(a: Obj<S>, b: Obj<S>) {
    a.meta.annotations == b.meta.annotations && a.spec == b.spec
  }

  /** What the API server promises: an equal resource version means an equal object, and an equal
      generation means an equal spec. */
  predicate Honest<S(==)>(a: Obj<S>, b: Obj<S>) {
    && KeyOf(a.meta) == KeyOf(b.meta)
    && (a.meta.resourceVersion == b.meta.resourceVersion ==> Same(a, b))
    && (a.meta.generation == b.meta.generation ==> a.spec == b.spec)
  }

  /** An event that can follow: additions are of new objects and updates of live ones. */
  predicate Possible(live: Live, op: Op) {
    match op
    case Add(OfIngress(x)) => KeyOf(x.meta) !in live.ingresses
    case Add(OfProxy(x)) => KeyOf(x.meta) !in live.proxies
    case Add(_) => true
    case Update(OfIngress(a), b) =>
      b.OfIngress? && KeyOf(a.meta) in live.ingresses && live.ingresses[KeyOf(a.meta)] == a && Honest(a, b.ingress)
    case Update(OfProxy(a), b) =>
      b.OfProxy? && KeyOf(a.meta) in live.proxies && live.proxies[KeyOf(a.meta)] == a && Honest(a, b.proxy)
    case Update(_, b) => !b.OfIngress? && !b.OfProxy?
    case Delete(_) => true
    case Elected(_) => true
  }

  function WithLive(live: Live, o: Object): Live {
    match o
    case OfIngress(x) => live.(ingresses := live.ingresses[KeyOf(x.meta) := x])
    case OfProxy(x) => live.(proxies := live.proxies[KeyOf(x.meta) := x])
    case _ => live
  }

  function WithoutLive(live: Live, o: Object): Live {
    match o
    case OfIngress(x) => live.(ingresses := live.ingresses - {KeyOf(x.meta)})
    case OfProxy(x) => live.(proxies := live.proxies - {KeyOf(x.meta)})
    case Tombstone(last) => WithoutLive(live, last)
    case _ => live
  }

  function LiveAfter(live: Live, op: Op): Live {
    match op
    case Add(o) => WithLive(live, o)
    case Update(_, b) => WithLive(live, b)
    case Delete(o) => WithoutLive(live, o)
    case Elected(_) => live
  }

  /** The map holds a key just when the live object with that key is wanted, and then holds that object, up
      to the parts that no reader looks at. */
  ghost predicate MirrorOf<S(!new)>(m: map<NamespacedName, Obj<S>>, live: map<NamespacedName, Obj<S>>,
                                    wanted: Obj<S> -> bool) {
    && (forall k :: k in m <==> k in live && wanted(live[k]))
    && (forall k | k in m && k in live :: Same(m[k], live[k]))
  }

  function WantedIngress(cfg: Config): Ingress -> bool {
    x => IngressWanted(cfg, x)
  }

  function WantedProxy(cfg: Config): HTTPProxy -> bool {
    x => ProxyWanted(cfg, x)
  }

  ghost predicate Mirror(cfg: Config, s: Objects, live: Live) {
    && MirrorOf(s.ingresses, live.ingresses, WantedIngress(cfg))
    && MirrorOf(s.proxies, live.proxies, WantedProxy(cfg))
  }

  lemma MapAdd<S(!new)>(m: map<NamespacedName, Obj<S>>, live: map<NamespacedName, Obj<S>>, wanted: Obj<S> -> bool,
                        k: NamespacedName, x: Obj<S>)
    requires MirrorOf(m, live, wanted) && k !in live
    ensures MirrorOf(if wanted(x) then m[k := x] else m, live[k := x], wanted)
  {
  }

  lemma MapSame<S(!new)>(m: map<NamespacedName, Obj<S>>, live: map<NamespacedName, Obj<S>>, wanted: Obj<S> -> bool,
                         k: NamespacedName, x: Obj<S>)
    requires MirrorOf(m, live, wanted) && k in live && Same(live[k], x) && wanted(live[k]) == wanted(x)
    ensures MirrorOf(m, live[k := x], wanted)
  {
  }

  lemma {:induction false} RemoveMirrors(cfg: Config, s: Objects, live: Live, o: Object)
    requires Mirror(cfg, s, live)
    ensures Mirror(cfg, AfterRemove(cfg, s, o), WithoutLive(live, o))
  {
    hide CacheObjects.IngressWanted, CacheObjects.ProxyWanted;
    match o
    case Tombstone(last) => RemoveMirrors(cfg, s, live, last);
    case _ =>
  }

  /** The object is not among the live ones. */
  predicate IsNew(live: Live, o: Object) {
    && (o.OfIngress? ==> KeyOf(o.ingress.meta) !in live.ingresses)
    && (o.OfProxy? ==> KeyOf(o.proxy.meta) !in live.proxies)
  }

  lemma AddMirrors(cfg: Config, s: Objects, live: Live, o: Object)
    requires Mirror(cfg, s, live) && IsNew(live, o)
    ensures Mirror(cfg, AfterInsert(cfg, s, o), WithLive(live, o))
  {
    hide MirrorOf, CacheObjects.IngressWanted, CacheObjects.ProxyWanted;
    match o
    case OfIngress(x) => MapAdd(s.ingresses, live.ingresses, WantedIngress(cfg), KeyOf(x.meta), x);
    case OfProxy(x) => MapAdd(s.proxies, live.proxies, WantedProxy(cfg), KeyOf(x.meta), x);
    case _ =>
  }

  lemma SameWanted(cfg: Config)
    ensures forall a, b | Same(a, b) :: IngressWanted(cfg, a) == IngressWanted(cfg, b)
    ensures forall a, b | Same(a, b) :: ProxyWanted(cfg, a) == ProxyWanted(cfg, b)
  {
  }

  /** An update that is skipped has left everything that matters as it was. */
  lemma SkipMirrors(cfg: Config, s: Objects, live: Live, a: Object, b: Object)
    requires Mirror(cfg, s, live) && Possible(live, Update(a, b)) && Comparable(a, b) && IsObjectEqual(a, b)
    ensures Mirror(cfg, s, WithLive(live, b))
  {
    hide MirrorOf, CacheObjects.IngressWanted, CacheObjects.ProxyWanted;
    SameWanted(cfg);
    match a
    case OfIngress(_) => MapSame(s.ingresses, live.ingresses, WantedIngress(cfg), KeyOf(b.ingress.meta), b.ingress);
    case OfProxy(_) => MapSame(s.proxies, live.proxies, WantedProxy(cfg), KeyOf(b.proxy.meta), b.proxy);
    case _ =>
  }

  lemma ReplacedLive(live: Live, a: Object, b: Object)
    requires Possible(live, Update(a, b))
    ensures IsNew(WithoutLive(live, a), b) && (a.Tombstone? || WithLive(WithoutLive(live, a), b) == WithLive(live, b))
  {
    var gone := WithoutLive(live, a);
    match a
    case OfIngress(_) => assert WithLive(gone, b).ingresses == WithLive(live, b).ingresses;
    case OfProxy(_) => assert WithLive(gone, b).proxies == WithLive(live, b).proxies;
    case _ =>
  }

  /** An update that is not skipped is a removal followed by an insertion. */
  lemma UpdateMirrors(cfg: Config, s: Objects, live: Live, a: Object, b: Object)
    requires Mirror(cfg, s, live) && Possible(live, Update(a, b)) && Comparable(a, b) && !IsObjectEqual(a, b)
    ensures Mirror(cfg, AfterInsert(cfg, AfterRemove(cfg, s, a), b), WithLive(live, b))
  {
    hide Mirror, CacheObjects.AfterInsert, CacheObjects.AfterRemove;
    RemoveMirrors(cfg, s, live, a);
    ReplacedLive(live, a, b);
    AddMirrors(cfg, AfterRemove(cfg, s, a), WithoutLive(live, a), b);
  }

  lemma StepMirrors(cfg: Config, s: Objects, live: Live, op: Op)
    requires Mirror(cfg, s, live) && Possible(live, op)
    ensures Mirror(cfg, AfterOp(cfg, s, op), LiveAfter(live, op))
  {
    match op
    case Add(o) => AddMirrors(cfg, s, live, o);
    case Update(a, b) =>
      if !Comparable(a, b) {
        assert WithLive(live, b) == live;
      } else if IsObjectEqual(a, b) {
        SkipMirrors(cfg, s, live, a, b);
      } else {
        UpdateMirrors(cfg, s, live, a, b);
      }
    case Delete(o) => RemoveMirrors(cfg, s, live, o);
    case Elected(_) =>
  }

  function LiveAfterAll(ops: seq<Op>): Live {
    if ops == [] then Live(map[], map[]) else LiveAfter(LiveAfterAll(ops[..|ops| - 1]), ops[|ops| - 1])
  }

  function ObjectsAfterAll(cfg: Config, s: Objects, ops: seq<Op>): Objects {
    if ops == [] then s else AfterOp(cfg, ObjectsAfterAll(cfg, s, ops[..|ops| - 1]), ops[|ops| - 1])
  }

  predicate IsHistory(ops: seq<Op>) {
    ops == [] || (IsHistory(ops[..|ops| - 1]) && Possible(LiveAfterAll(ops[..|ops| - 1]), ops[|ops| - 1]))
  }

  /** After every possible history the cache mirrors the live objects that match its classes. */
  lemma {:induction false} HistoryMirrors(cfg: Config, s: Objects, ops: seq<Op>)
    requires s.ingresses == map[] && s.proxies == map[] && IsHistory(ops)
    ensures Mirror(cfg, ObjectsAfterAll(cfg, s, ops), LiveAfterAll(ops))
  {
    if ops != [] {
      var init := ops[..|ops| - 1];
      HistoryMirrors(cfg, s, init);
      StepMirrors(cfg, ObjectsAfterAll(cfg, s, init), LiveAfterAll(init), ops[|ops| - 1]);
    }
  }
}
