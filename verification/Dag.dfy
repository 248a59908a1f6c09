/**
 The virtual hosts of the DAG's listeners: found by name while the DAG is built, and then pruned and sorted.
 */
module Dag {
  import opened MatchKeys
  import opened Wrappers
  import Sorting
  import Text

  /** A virtual host; a secure one may need a secret and may have a TCP proxy. */
  class VirtualHost {
    const name: string
    const secure: bool
    var routes: map<string, nat>
    var secret: Option<nat>
    var tcpProxy: bool

    constructor (name: string, secure: bool)
      ensures this.name == name && this.secure == secure && routes == map[] && secret == None && !tcpProxy
    {
      this.name, this.secure := name, secure;
      routes, secret, tcpProxy := map[], None, false;
    }

    /** A host is valid if it has a route and, to be secure, a secret; or else a TCP proxy. */
    predicate Valid()
      reads this
    {
      if secure then (secret.Some? && |routes| > 0) || tcpProxy else |routes| > 0
    }

    method AddRoute(m: Match, route: nat)
      modifies this`routes
      ensures routes == old(routes)[Key(m) := route]
      ensures !secure || secret.Some? ==> Valid()
    {
      var key := ConditionsToString(m);
      routes := routes[key := route];
      assert key in routes;
    }
  }

  class Listener {
    const name: string
    var virtualHosts: seq<VirtualHost>
    var secureVirtualHosts: seq<VirtualHost>
    var vhostsByName: map<string, VirtualHost>
    var svhostsByName: map<string, VirtualHost>
    var tcpProxy: bool

    constructor (name: string)
      ensures this.name == name && virtualHosts == [] && secureVirtualHosts == [] && !tcpProxy && Valid()
    {
      this.name, virtualHosts, secureVirtualHosts, vhostsByName, svhostsByName := name, [], [], map[], map[];
      tcpProxy := false;
    }

    ghost predicate Valid()
      reads this
    {
      Indexed(virtualHosts, vhostsByName) && Indexed(secureVirtualHosts, svhostsByName)
    }
  }

  // ---------- The index ----------

  predicate DistinctNames(hosts: seq<VirtualHost>) {
    forall i, j | 0 <= i < j < |hosts| :: hosts[i].name != hosts[j].name
  }

  /** The index holds the hosts of the list, each under its name, and the names differ. */
  ghost predicate Indexed(hosts: seq<VirtualHost>, byName: map<string, VirtualHost>) {
    && DistinctNames(hosts)
    && (forall h | h in hosts :: h.name in byName && byName[h.name] == h)
    && (forall n | n in byName :: byName[n] in hosts && byName[n].name == n)
  }

  /** The first host of that name in the list. */
  function Scan(hosts: seq<VirtualHost>, name: string): VirtualHost? {
    if hosts == [] then null else if hosts[0].name == name then hosts[0] else Scan(hosts[1..], name)
  }

  lemma {:induction false} ScanFinds(hosts: seq<VirtualHost>, name: string)
    ensures Scan(hosts, name) == null <==> forall h | h in hosts :: h.name != name
    ensures Scan(hosts, name) != null ==> Scan(hosts, name) in hosts && Scan(hosts, name).name == name
  {
    if hosts != [] {
      assert hosts == [hosts[0]] + hosts[1..];
      ScanFinds(hosts[1..], name);
    }
  }

  lemma IndexedAppend(hosts: seq<VirtualHost>, byName: map<string, VirtualHost>, h: VirtualHost)
    requires Indexed(hosts, byName) && h.name !in byName
    ensures Indexed(hosts + [h], byName[h.name := h])
  {
    forall i | 0 <= i < |hosts| ensures hosts[i].name != h.name { assert hosts[i] in hosts; }
  }

  // ---------- Pruning ----------

  predicate NameBefore(a: VirtualHost, b: VirtualHost) {
    Text.Less(a.name, b.name)
  }

  lemma NameBeforeIsStrictWeak(hosts: seq<VirtualHost>)
    ensures Sorting.StrictWeakOn(NameBefore, hosts)
  {
    forall a, b | a in hosts && b in hosts && NameBefore(a, b) ensures !NameBefore(b, a) {
      Text.LessIsTotal(a.name, b.name);
    }
    forall a, b, c | a in hosts && b in hosts && c in hosts && !NameBefore(b, a) && !NameBefore(c, b)
      ensures !NameBefore(c, a)
    {
      Text.CompareFlip(a.name, b.name);
      Text.CompareFlip(b.name, c.name);
      Text.CompareFlip(a.name, c.name);
      Text.CompareTransitive(a.name, b.name, c.name);
    }
  }

  function ValidOnes(hosts: seq<VirtualHost>): seq<VirtualHost>
    reads hosts
  {
    if hosts == [] then []
    else ValidOnes(hosts[..|hosts| - 1]) + if hosts[|hosts| - 1].Valid() then [hosts[|hosts| - 1]] else []
  }

  function Pruned(hosts: seq<VirtualHost>): seq<VirtualHost>
    reads hosts
  {
    Sorting.Sort(NameBefore, ValidOnes(hosts))
  }

  lemma {:induction false} ValidOnesAre(hosts: seq<VirtualHost>)
    ensures forall i | 0 <= i < |ValidOnes(hosts)| :: ValidOnes(hosts)[i] in hosts && ValidOnes(hosts)[i].Valid()
    ensures forall i | 0 <= i < |hosts| && hosts[i].Valid() :: hosts[i] in ValidOnes(hosts)
  {
    if hosts != [] {
      var init, last := hosts[..|hosts| - 1], hosts[|hosts| - 1];
      assert hosts == init + [last];
      ValidOnesAre(init);
      forall i | 0 <= i < |ValidOnes(hosts)| ensures ValidOnes(hosts)[i] in hosts && ValidOnes(hosts)[i].Valid() {
        if i < |ValidOnes(init)| { assert ValidOnes(init)[i] in init; }
      }
    }
  }

  lemma {:induction false} ValidOnesDistinct(hosts: seq<VirtualHost>)
    requires DistinctNames(hosts)
    ensures DistinctNames(ValidOnes(hosts))
  {
    if hosts != [] {
      var init, last := hosts[..|hosts| - 1], hosts[|hosts| - 1];
      ValidOnesDistinct(init);
      ValidOnesAre(init);
      forall i | 0 <= i < |ValidOnes(init)| ensures ValidOnes(init)[i].name != last.name {
        assert ValidOnes(init)[i] in init;
        var j :| 0 <= j < |init| && init[j] == ValidOnes(init)[i];
        assert hosts[j] == init[j];
      }
    }
  }

  /** Names strictly increase. */
  predicate Increasing(hosts: seq<VirtualHost>) {
    forall i, j | 0 <= i < j < |hosts| :: Text.Less(hosts[i].name, hosts[j].name)
  }

  lemma SortedHosts(vs: seq<VirtualHost>)
    requires DistinctNames(vs)
    ensures var ps := Sorting.Sort(NameBefore, vs); multiset(ps) == multiset(vs) && Increasing(ps)
  {
    hide Sorting.Sort;
    var ps := Sorting.Sort(NameBefore, vs);
    NameBeforeIsStrictWeak(vs);
    Sorting.SortIsSortedOn(NameBefore, vs, vs);
    DistinctPermuted(vs, ps);
    forall i, j | 0 <= i < j < |ps| ensures Text.Less(ps[i].name, ps[j].name) {
      assert !NameBefore(ps[j], ps[i]);
      Text.LessIsTotal(ps[i].name, ps[j].name);
    }
  }

  /** A host with something to serve: routes, for a secure host with a secret, or a TCP proxy of a secure host. */
  predicate HasWork(h: VirtualHost)
    reads h
  {
    || (!h.secure && h.routes != map[])
    || (h.secure && h.secret.Some? && h.routes != map[])
    || (h.secure && h.tcpProxy)
  }

  lemma ValidHasWork(h: VirtualHost)
    ensures h.Valid() <==> HasWork(h)
  {
    if h.routes != map[] {
      var k :| k in h.routes;
    }
  }

  /** Pruning keeps exactly the hosts that have something to serve, in strictly increasing order of their names. */
  lemma PrunedIs(hosts: seq<VirtualHost>)
    requires DistinctNames(hosts)
    ensures forall h :: h in Pruned(hosts) <==> h in hosts && HasWork(h)
    ensures forall i, j | 0 <= i < j < |Pruned(hosts)| :: Text.Less(Pruned(hosts)[i].name, Pruned(hosts)[j].name)
  {
    hide Sorting.Sort, ValidOnes, HasWork, Increasing;
    PrunedAre(hosts);
    assert Increasing(Pruned(hosts));
    forall h ensures h in Pruned(hosts) <==> h in hosts && HasWork(h) {
      ValidHasWork(h);
      if h in hosts && h.Valid() {
        var i :| 0 <= i < |hosts| && hosts[i] == h;
      }
    }
    IncreasingIs(Pruned(hosts));
  }

  /** A listener is kept exactly if one of its hosts has something to serve, or if it has a TCP proxy itself. */
  lemma ServesWork(l: Listener)
    ensures Serves(l) <==> l.tcpProxy || exists h | h in l.virtualHosts + l.secureVirtualHosts :: HasWork(h)
  {
    forall h | h in l.virtualHosts + l.secureVirtualHosts ensures h.Valid() <==> HasWork(h) { ValidHasWork(h); }
    hide HasWork;
    if h :| h in l.virtualHosts + l.secureVirtualHosts && HasWork(h) {
      if h in l.virtualHosts {
        var i :| 0 <= i < |l.virtualHosts| && l.virtualHosts[i] == h;
      } else {
        var i :| 0 <= i < |l.secureVirtualHosts| && l.secureVirtualHosts[i] == h;
      }
    }
    if SomeValid(l.virtualHosts) {
      var i :| 0 <= i < |l.virtualHosts| && l.virtualHosts[i].Valid();
      assert l.virtualHosts[i] in l.virtualHosts + l.secureVirtualHosts;
    }
    if SomeValid(l.secureVirtualHosts) {
      var i :| 0 <= i < |l.secureVirtualHosts| && l.secureVirtualHosts[i].Valid();
      assert l.secureVirtualHosts[i] in l.virtualHosts + l.secureVirtualHosts;
    }
  }

  lemma IncreasingIs(hosts: seq<VirtualHost>)
    requires Increasing(hosts)
    ensures forall i, j | 0 <= i < j < |hosts| :: Text.Less(hosts[i].name, hosts[j].name)
  {
  }

  lemma PrunedAre(hosts: seq<VirtualHost>)
    requires DistinctNames(hosts)
    ensures forall i | 0 <= i < |Pruned(hosts)| :: Pruned(hosts)[i] in hosts && Pruned(hosts)[i].Valid()
    ensures forall i | 0 <= i < |hosts| && hosts[i].Valid() :: hosts[i] in Pruned(hosts)
    ensures Increasing(Pruned(hosts))
  {
    hide Sorting.Sort, ValidOnes, Increasing;
    var vs, ps := ValidOnes(hosts), Pruned(hosts);
    ValidOnesAre(hosts);
    ValidOnesDistinct(hosts);
    SortedHosts(vs);
    forall i | 0 <= i < |ps| ensures ps[i] in hosts && ps[i].Valid() {
      assert ps[i] in multiset(ps);
      var j :| 0 <= j < |vs| && vs[j] == ps[i];
      assert ValidOnes(hosts)[j] in hosts;
    }
    forall i | 0 <= i < |hosts| && hosts[i].Valid() ensures hosts[i] in ps {
      assert hosts[i] in multiset(vs);
    }
  }

  /** Distinct names stay distinct in another order. */
  lemma DistinctPermuted(a: seq<VirtualHost>, b: seq<VirtualHost>)
    requires DistinctNames(a) && multiset(a) == multiset(b)
    ensures DistinctNames(b)
  {
    forall i, j | 0 <= i < j < |b| ensures b[i].name != b[j].name {
      if b[i] == b[j] {
        Twice(b, i, j);
        OnceEach(a, b[i]);
      } else {
        assert b[i] in multiset(a) && b[j] in multiset(a);
        var m :| 0 <= m < |a| && a[m] == b[i];
        var n :| 0 <= n < |a| && a[n] == b[j];
      }
    }
  }

  lemma Twice(b: seq<VirtualHost>, i: nat, j: nat)
    requires i < j < |b| && b[i] == b[j]
    ensures multiset(b)[b[i]] >= 2
  {
    assert b == b[..i] + [b[i]] + b[i + 1..j] + [b[j]] + b[j + 1..];
  }

  lemma {:induction false} OnceEach(a: seq<VirtualHost>, h: VirtualHost)
    requires DistinctNames(a)
    ensures multiset(a)[h] <= 1
  {
    if a != [] {
      var init, last := a[..|a| - 1], a[|a| - 1];
      assert a == init + [last];
      OnceEach(init, h);
      if h == last {
        assert h !in init;
      }
    }
  }

  predicate SomeValid(hosts: seq<VirtualHost>)
    reads hosts
  {
    exists i | 0 <= i < |hosts| :: hosts[i].Valid()
  }

  /** The listener has a valid host or a TCP proxy. */
  predicate Serves(l: Listener)
    reads l, l.virtualHosts, l.secureVirtualHosts
  {
    SomeValid(l.virtualHosts) || SomeValid(l.secureVirtualHosts) || l.tcpProxy
  }

  class DAG {
    var listeners: map<string, Listener>

    constructor ()
      ensures Valid() && listeners == map[]
    {
      listeners := map[];
    }

    /** Listeners are stored under their names, and their hosts are indexed. */
    ghost predicate Valid()
      reads this, listeners.Values
    {
      forall n | n in listeners :: listeners[n].name == n && listeners[n].Valid()
    }

    method GetVirtualHost(listener: string, hostname: string) returns (vh: VirtualHost?)
      requires Valid() && listener in listeners
      ensures vh == Scan(listeners[listener].virtualHosts, hostname)
    {
      var l := listeners[listener];
      ScanFinds(l.virtualHosts, hostname);
      vh := if hostname in l.vhostsByName then l.vhostsByName[hostname] else null;
    }

    method GetSecureVirtualHost(listener: string, hostname: string) returns (vh: VirtualHost?)
      requires Valid() && listener in listeners
      ensures vh == Scan(listeners[listener].secureVirtualHosts, hostname)
    {
      var l := listeners[listener];
      ScanFinds(l.secureVirtualHosts, hostname);
      vh := if hostname in l.svhostsByName then l.svhostsByName[hostname] else null;
    }

    /** The host of that name, which is made and appended if the listener has none. */
    method EnsureVirtualHost(listener: string, hostname: string) returns (vh: VirtualHost)
      requires Valid() && listener in listeners
      modifies listeners[listener]
      ensures Valid() && vh == Scan(listeners[listener].virtualHosts, hostname)
      ensures var was := old(listeners[listener].virtualHosts);
              listeners[listener].virtualHosts == if Scan(was, hostname) == null then was + [vh] else was
      ensures old(Scan(listeners[listener].virtualHosts, hostname)) == null ==> fresh(vh) && !vh.secure && !vh.Valid()
      ensures listeners[listener].secureVirtualHosts == old(listeners[listener].secureVirtualHosts)
      ensures listeners[listener].tcpProxy == old(listeners[listener].tcpProxy)
    {
      var found := GetVirtualHost(listener, hostname);
      if found != null {
        return found;
      }
      vh := new VirtualHost(hostname, false);
      var l := listeners[listener];
      ScanFinds(l.virtualHosts, hostname);
      IndexedAppend(l.virtualHosts, l.vhostsByName, vh);
      ScanNew(l.virtualHosts, vh);
      l.virtualHosts := l.virtualHosts + [vh];
      l.vhostsByName := l.vhostsByName[hostname := vh];
    }

    method EnsureSecureVirtualHost(listener: string, hostname: string) returns (vh: VirtualHost)
      requires Valid() && listener in listeners
      modifies listeners[listener]
      ensures Valid() && vh == Scan(listeners[listener].secureVirtualHosts, hostname)
      ensures var was := old(listeners[listener].secureVirtualHosts);
              listeners[listener].secureVirtualHosts == if Scan(was, hostname) == null then was + [vh] else was
      ensures old(Scan(listeners[listener].secureVirtualHosts, hostname)) == null ==>
                fresh(vh) && vh.secure && !vh.Valid()
      ensures listeners[listener].virtualHosts == old(listeners[listener].virtualHosts)
      ensures listeners[listener].tcpProxy == old(listeners[listener].tcpProxy)
    {
      var found := GetSecureVirtualHost(listener, hostname);
      if found != null {
        return found;
      }
      vh := new VirtualHost(hostname, true);
      var l := listeners[listener];
      ScanFinds(l.secureVirtualHosts, hostname);
      IndexedAppend(l.secureVirtualHosts, l.svhostsByName, vh);
      ScanNew(l.secureVirtualHosts, vh);
      l.secureVirtualHosts := l.secureVirtualHosts + [vh];
      l.svhostsByName := l.svhostsByName[hostname := vh];
    }

    /** The last phase of a build: prunes hosts and listeners, and sorts the hosts by name. */
    method Prune()
      requires Valid()
      modifies this, listeners.Values
      ensures forall n :: n in listeners <==> n in old(listeners) && old(Serves(listeners[n]))
      ensures forall n | n in listeners ::
                && listeners[n] == old(listeners[n])
                && listeners[n].virtualHosts == old(Pruned(listeners[n].virtualHosts))
                && listeners[n].secureVirtualHosts == old(Pruned(listeners[n].secureVirtualHosts))
    {
      hide Serves, Pruned, Indexed;
      var kept: map<string, Listener> := map[];
      var remaining := listeners.Keys;
      while remaining != {}
        invariant remaining <= listeners.Keys && listeners == old(listeners)
        invariant forall n | n in remaining :: unchanged(listeners[n])
        invariant forall n :: n in kept <==> n in listeners.Keys - remaining && old(Serves(listeners[n]))
        invariant forall n | n in kept ::
                    && kept[n] == listeners[n]
                    && kept[n].virtualHosts == old(Pruned(listeners[n].virtualHosts))
                    && kept[n].secureVirtualHosts == old(Pruned(listeners[n].secureVirtualHosts))
      {
        var n :| n in remaining;
        var l := listeners[n];
        var keep := PruneListener(l);
        if keep {
          kept := kept[l.name := l];
        }
        remaining := remaining - {n};
      }
      listeners := kept;
    }
  }

  lemma {:induction false} ScanNew(hosts: seq<VirtualHost>, h: VirtualHost)
    requires Scan(hosts, h.name) == null
    ensures Scan(hosts + [h], h.name) == h
  {
    if hosts != [] {
      assert (hosts + [h])[1..] == hosts[1..] + [h];
      ScanNew(hosts[1..], h);
    }
  }

  method KeepValid(hosts: seq<VirtualHost>) returns (valid: seq<VirtualHost>)
    ensures valid == ValidOnes(hosts)
  {
    valid := [];
    for i := 0 to |hosts|
      invariant valid == ValidOnes(hosts[..i])
    {
      assert hosts[..i + 1][..i] == hosts[..i];
      if hosts[i].Valid() {
        valid := valid + [hosts[i]];
      }
    }
    assert hosts[..|hosts|] == hosts;
  }

  /** Prunes and sorts the hosts of one listener; true if the listener has anything to serve. */
  method PruneListener(l: Listener) returns (keep: bool)
    modifies l
    ensures l.tcpProxy == old(l.tcpProxy) && (keep <==> old(Serves(l)))
    ensures keep ==>
              && l.virtualHosts == old(Pruned(l.virtualHosts))
              && l.secureVirtualHosts == old(Pruned(l.secureVirtualHosts))
  {
    hide Serves, Sorting.Sort, ValidOnes;
    var vhosts := KeepValid(l.virtualHosts);
    var svhosts := KeepValid(l.secureVirtualHosts);
    ServesIff(l);
    l.virtualHosts, l.secureVirtualHosts := vhosts, svhosts;
    if |vhosts| > 0 || |svhosts| > 0 {
      l.virtualHosts := Sorting.Sort(NameBefore, vhosts);
      l.secureVirtualHosts := Sorting.Sort(NameBefore, svhosts);
      l.vhostsByName, l.svhostsByName := map[], map[];
      keep := true;
    } else {
      NothingToSort();
      keep := l.tcpProxy;
    }
  }

  lemma NothingToSort()
    ensures Sorting.Sort(NameBefore, []) == []
  {
  }

  lemma SomeValidIff(hosts: seq<VirtualHost>)
    ensures SomeValid(hosts) <==> |ValidOnes(hosts)| > 0
  {
    hide ValidOnes;
    ValidOnesAre(hosts);
    if |ValidOnes(hosts)| > 0 {
      assert ValidOnes(hosts)[0] in hosts;
      var i :| 0 <= i < |hosts| && hosts[i] == ValidOnes(hosts)[0];
    }
  }

  lemma ServesIff(l: Listener)
    ensures Serves(l) <==> |ValidOnes(l.virtualHosts)| > 0 || |ValidOnes(l.secureVirtualHosts)| > 0 || l.tcpProxy
  {
    SomeValidIff(l.virtualHosts);
    SomeValidIff(l.secureVirtualHosts);
  }
}
