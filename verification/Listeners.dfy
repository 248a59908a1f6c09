/**
 Validation of the listeners of a Gateway, the ports that the data plane listens on, and the listeners of
 the DAG.
 */
module Listeners {
  import opened Wrappers

  datatype Listener = Listener(name: string, hostname: Option<string>, protocol: string, port: int)

  datatype Reason = InvalidHostname | UnsupportedProtocol | PortUnavailable | ProtocolConflict | HostnameConflict

  datatype ListenerPort = ListenerPort(name: string, port: int, containerPort: int, protocol: string)

  datatype Result = Result(
    listenerNames: map<string, string>, ports: seq<ListenerPort>, invalid: map<string, Reason>)

  // ---------- Ports and names ----------

  /** 8000 above the listener's port, wrapping around and skipping the privileged ports. */
  function ToContainerPort(p: int): int {
    var c := if p + 8000 > 65535 then p + 8000 - 65535 else p + 8000;
    if c <= 1023 then c + 1023 else c
  }

  predicate PortNumber(p: int) {
    1 <= p <= 65535
  }

  /** Container ports are unprivileged, and two ports share one just when they are 1023 apart at the wrap. */
  lemma ContainerPorts(p: int, q: int)
    requires PortNumber(p) && PortNumber(q) && p < q
    ensures 1024 <= ToContainerPort(p) <= 65535 && 1024 <= ToContainerPort(q) <= 65535
    ensures ToContainerPort(p) == ToContainerPort(q) <==> q == p + 1023 && 57536 <= p <= 58558
  {
  }

  function Digit(n: int): char
    requires 0 <= n < 10
  {
    "0123456789"[n]
  }

  function Digits(n: nat): string {
    if n < 10 then [Digit(n)] else Digits(n / 10) + [Digit(n % 10)]
  }

  function Decimal(n: int): string {
    if n < 0 then "-" + Digits(-n) else Digits(n)
  }

  lemma {:induction false} DigitsInjective(m: nat, n: nat)
    requires Digits(m) == Digits(n)
    ensures m == n
  {
    var s := Digits(m);
    assert s[|s| - 1] == Digit(m % 10) == Digit(n % 10);
    if m >= 10 && n >= 10 {
      assert s[..|s| - 1] == Digits(m / 10) == Digits(n / 10);
      DigitsInjective(m / 10, n / 10);
    } else if m >= 10 {
      DigitsNotEmpty(m / 10);
    } else if n >= 10 {
      DigitsNotEmpty(n / 10);
    }
  }

  lemma {:induction false} DigitsNotEmpty(n: nat)
    ensures |Digits(n)| >= 1 && Digits(n)[0] in "0123456789"
  {
    if n >= 10 {
      DigitsNotEmpty(n / 10);
    }
  }

  lemma DecimalSign(n: int)
    ensures |Decimal(n)| >= 1 && (Decimal(n)[0] == '-' <==> n < 0)
    ensures n < 0 ==> Decimal(n)[1..] == Digits(-n)
  {
    DigitsNotEmpty(if n < 0 then -n else n);
  }

  lemma DecimalInjective(m: int, n: int)
    requires Decimal(m) == Decimal(n)
    ensures m == n
  {
    DecimalSign(m);
    DecimalSign(n);
    DigitsInjective(if m < 0 then -m else m, if n < 0 then -n else n);
  }

  function ValueOf(s: string): int {
    if s == "" then 0 else 10 * ValueOf(s[..|s| - 1]) + (s[|s| - 1] as int - '0' as int)
  }

  /** The digits of a number stand for it. */
  lemma {:induction false} DigitsValue(n: nat)
    ensures ValueOf(Digits(n)) == n
  {
    var s := Digits(n);
    assert s[|s| - 1] as int - '0' as int == n % 10;
    if n >= 10 {
      DigitsValue(n / 10);
      assert s[..|s| - 1] == Digits(n / 10);
    } else {
      assert s[..0] == "";
    }
  }

  /** The decimal form of a number stands for it, with a minus sign in front if it is negative. */
  lemma DecimalValue(n: int)
    ensures if n < 0 then Decimal(n)[0] == '-' && ValueOf(Decimal(n)[1..]) == -n else ValueOf(Decimal(n)) == n
  {
    DecimalSign(n);
    DigitsValue(if n < 0 then -n else n);
  }

  // ---------- Verdicts ----------

  predicate TLSBased(protocol: string) {
    protocol == "HTTPS" || protocol == "TLS" || protocol == "projectcontour.io/https"
  }

  predicate Supported(protocol: string) {
    protocol == "HTTP" || protocol == "TCP" || TLSBased(protocol)
  }

  function EnvoyProtocol(protocol: string): string {
    if protocol == "HTTP" then "http" else if TLSBased(protocol) then "https" else if protocol == "TCP" then "tcp" else ""
  }

  function EnvoyName(l: Listener): string {
    EnvoyProtocol(l.protocol) + "-" + Decimal(l.port)
  }

  function Host(l: Listener): string {
    if l.hostname.Some? then l.hostname.value else ""
  }

  predicate ProtocolsClash(p: string, other: string) {
    if p == "HTTP" then other != "HTTP"
    else if TLSBased(p) then !TLSBased(other)
    else p == "TCP" && other != "TCP"
  }

  function Conflict(l: Listener, other: Listener): Option<Reason> {
    if l.port != other.port then
      if ToContainerPort(l.port) == ToContainerPort(other.port) then Some(PortUnavailable) else None
    else if ProtocolsClash(l.protocol, other.protocol) then Some(ProtocolConflict)
    else if Host(l) == Host(other) then Some(HostnameConflict)
    else None
  }

  /** The first conflict with an earlier listener, valid or not. */
  function FirstConflict(before: seq<Listener>, l: Listener): Option<Reason> {
    if before == [] then None
    else
      var c := FirstConflict(before[..|before| - 1], l);
      if c.Some? then c else Conflict(l, before[|before| - 1])
  }

  /** What is wrong with a listener that comes after the others, if anything is. */
  function Verdict(validHostname: string -> bool, before: seq<Listener>, l: Listener): Option<Reason> {
    if Host(l) != "" && !validHostname(Host(l)) then Some(InvalidHostname)
    else if !Supported(l.protocol) then Some(UnsupportedProtocol)
    else FirstConflict(before, l)
  }

  function PortOf(l: Listener): ListenerPort {
    ListenerPort(EnvoyName(l), l.port, ToContainerPort(l.port), EnvoyProtocol(l.protocol))
  }

  predicate HasName(ports: seq<ListenerPort>, name: string) {
    exists e | e in ports :: e.name == name
  }

  function WithPort(ports: seq<ListenerPort>, l: Listener): seq<ListenerPort> {
    if HasName(ports, EnvoyName(l)) then ports else ports + [PortOf(l)]
  }

  function WithListener(validHostname: string -> bool, before: seq<Listener>, r: Result, l: Listener): Result {
    var v := Verdict(validHostname, before, l);
    if v.Some? then r.(invalid := r.invalid[l.name := v.value])
    else r.(listenerNames := r.listenerNames[l.name := EnvoyName(l)], ports := WithPort(r.ports, l))
  }

  function ResultFor(validHostname: string -> bool, ls: seq<Listener>): Result {
    if ls == [] then Result(map[], [], map[])
    else
      var init, l := ls[..|ls| - 1], ls[|ls| - 1];
      WithListener(validHostname, init, ResultFor(validHostname, init), l)
  }

  // ---------- The methods ----------

  method FindConflict(listeners: seq<Listener>, i: nat) returns (reason: Option<Reason>)
    requires i < |listeners|
    ensures reason == FirstConflict(listeners[..i], listeners[i])
  {
    var listener := listeners[i];
    for j := 0 to i
      invariant FirstConflict(listeners[..j], listener).None?
    {
      var other := listeners[j];
      assert listeners[..j + 1][..j] == listeners[..j];
      if listener.port != other.port {
        if ToContainerPort(listener.port) == ToContainerPort(other.port) {
          ConflictStays(listeners[..j + 1], listener, i - j - 1, listeners[..i]);
          return Some(PortUnavailable);
        }
        continue;
      }
      if ProtocolsClash(listener.protocol, other.protocol) {
        ConflictStays(listeners[..j + 1], listener, i - j - 1, listeners[..i]);
        return Some(ProtocolConflict);
      }
      if Host(listener) == Host(other) {
        ConflictStays(listeners[..j + 1], listener, i - j - 1, listeners[..i]);
        return Some(HostnameConflict);
      }
    }
    return None;
  }

  method FindPort(ports: seq<ListenerPort>, name: string) returns (found: bool)
    ensures found <==> HasName(ports, name)
  {
    for j := 0 to |ports|
      invariant forall n | 0 <= n < j :: ports[n].name != name
    {
      if ports[j].name == name {
        return true;
      }
    }
    return false;
  }

  method ValidateListeners(validHostname: string -> bool, listeners: seq<Listener>) returns (r: Result)
    ensures r == ResultFor(validHostname, listeners)
  {
    hide FirstConflict, EnvoyName, Supported, HasName, ToContainerPort;
    r := Result(map[], [], map[]);
    for i := 0 to |listeners|
      invariant r == ResultFor(validHostname, listeners[..i])
    {
      var listener := listeners[i];
      assert listeners[..i + 1][..i] == listeners[..i];
      if Host(listener) != "" && !validHostname(Host(listener)) {
        r := r.(invalid := r.invalid[listener.name := InvalidHostname]);
        continue;
      }
      if !Supported(listener.protocol) {
        r := r.(invalid := r.invalid[listener.name := UnsupportedProtocol]);
        continue;
      }
      var conflict := FindConflict(listeners, i);
      if conflict.Some? {
        r := r.(invalid := r.invalid[listener.name := conflict.value]);
        continue;
      }
      r := r.(listenerNames := r.listenerNames[listener.name := EnvoyName(listener)]);
      var found := FindPort(r.ports, EnvoyName(listener));
      if !found {
        r := r.(ports := r.ports + [PortOf(listener)]);
      }
    }
    assert listeners[..|listeners|] == listeners;
  }

  lemma {:induction false} ConflictStays(before: seq<Listener>, l: Listener, n: nat, all: seq<Listener>)
    requires FirstConflict(before, l).Some? && |before| + n == |all| && before == all[..|before|]
    ensures FirstConflict(all, l) == FirstConflict(before, l)
  {
    if n > 0 {
      assert all[..|all| - 1][..|before|] == before;
      ConflictStays(before, l, n - 1, all[..|all| - 1]);
    } else {
      assert all == before;
    }
  }

  // ---------- Each listener has one verdict, and keeps it ----------

  predicate DistinctNames(ls: seq<Listener>) {
    forall i, j | 0 <= i < j < |ls| :: ls[i].name != ls[j].name
  }

  /** The verdict on listener `i` of the list. */
  function VerdictAt(validHostname: string -> bool, ls: seq<Listener>, i: nat): Option<Reason>
    requires i < |ls|
  {
    Verdict(validHostname, ls[..i], ls[i])
  }

  /** Listener `i` is recorded as invalid for the reason of its verdict, or else under its Envoy name. */
  predicate Recorded(validHostname: string -> bool, ls: seq<Listener>, r: Result, i: nat)
    requires i < |ls|
  {
    var v, name := VerdictAt(validHostname, ls, i), ls[i].name;
    if v.Some? then name in r.invalid && r.invalid[name] == v.value && name !in r.listenerNames
    else name in r.listenerNames && r.listenerNames[name] == EnvoyName(ls[i]) && name !in r.invalid
  }

  /** Only names of the listeners are recorded. */
  lemma {:induction false} NamesOnly(validHostname: string -> bool, ls: seq<Listener>, n: string)
    requires var r := ResultFor(validHostname, ls); n in r.listenerNames || n in r.invalid
    ensures exists l | l in ls :: l.name == n
  {
    hide Verdict, EnvoyName, WithPort;
    if ls != [] {
      var init, l := ls[..|ls| - 1], ls[|ls| - 1];
      assert l in ls;
      if n != l.name {
        NamesOnly(validHostname, init, n);
        var o :| o in init && o.name == n;
        assert o in ls;
      }
    }
  }

  lemma {:induction false} NewName(validHostname: string -> bool, init: seq<Listener>, l: Listener)
    requires DistinctNames(init + [l])
    ensures var r := ResultFor(validHostname, init); l.name !in r.listenerNames && l.name !in r.invalid
  {
    hide ResultFor;
    forall o | o in init ensures o.name != l.name {
      var j :| 0 <= j < |init| && init[j] == o;
      assert (init + [l])[j] == o && (init + [l])[|init|] == l;
    }
    var r := ResultFor(validHostname, init);
    if l.name in r.listenerNames || l.name in r.invalid {
      NamesOnly(validHostname, init, l.name);
    }
  }

  /** With distinct names each listener is in exactly one of the two maps, by its verdict. */
  lemma {:induction false} Partition(validHostname: string -> bool, ls: seq<Listener>, i: nat)
    requires DistinctNames(ls) && i < |ls|
    ensures Recorded(validHostname, ls, ResultFor(validHostname, ls), i)
  {
    hide Verdict, EnvoyName, WithPort;
    var init, l := ls[..|ls| - 1], ls[|ls| - 1];
    assert ls == init + [l];
    if i < |init| {
      assert ls[i] == init[i] && ls[..i] == init[..i];
      Partition(validHostname, init, i);
    } else {
      NewName(validHostname, init, l);
    }
  }

  /** Listeners that are appended change no verdict, and only append ports. */
  lemma {:induction false} Stable(validHostname: string -> bool, ls: seq<Listener>, more: seq<Listener>)
    ensures forall i | 0 <= i < |ls| :: VerdictAt(validHostname, ls + more, i) == VerdictAt(validHostname, ls, i)
    ensures ResultFor(validHostname, ls).ports <= ResultFor(validHostname, ls + more).ports
  {
    forall i | 0 <= i < |ls| ensures VerdictAt(validHostname, ls + more, i) == VerdictAt(validHostname, ls, i) {
      assert (ls + more)[..i] == ls[..i];
    }
    if more == [] {
      assert ls + more == ls;
    } else {
      var init, l := more[..|more| - 1], more[|more| - 1];
      Stable(validHostname, ls, init);
      assert (ls + more)[..|ls + more| - 1] == ls + init;
    }
  }

  // ---------- What makes a listener invalid ----------

  /** HTTP, TCP, and the protocols on top of TLS, which may share a port with each other. */
  function Family(protocol: string): int {
    if protocol == "HTTP" then 1
    else if protocol in ["HTTPS", "TLS", "projectcontour.io/https"] then 2
    else if protocol == "TCP" then 3
    else 0
  }

  lemma FamilyIs(p: string, other: string)
    ensures Supported(p) <==> Family(p) != 0
    ensures Supported(p) ==> (ProtocolsClash(p, other) <==> Family(p) != Family(other))
  {
  }

  /** The reasons for which a listener of a supported protocol cannot be served beside an earlier one: the two need
      one container port for different ports, or share a port with different families of protocols or with one
      host name. */
  function Reasons(l: Listener, o: Listener): set<Reason> {
    (if l.port != o.port && ToContainerPort(l.port) == ToContainerPort(o.port) then {PortUnavailable} else {})
    + (if l.port == o.port && Family(l.protocol) != Family(o.protocol) then {ProtocolConflict} else {})
    + (if l.port == o.port && Family(l.protocol) == Family(o.protocol) && Host(l) == Host(o)
       then {HostnameConflict} else {})
  }

  lemma ConflictIs(l: Listener, o: Listener)
    requires Supported(l.protocol)
    ensures Conflict(l, o).None? <==> Reasons(l, o) == {}
    ensures Conflict(l, o).Some? ==> Conflict(l, o).value in Reasons(l, o)
  {
    FamilyIs(l.protocol, o.protocol);
    hide Family, ToContainerPort, ProtocolsClash;
  }

  /** Listener `l` is refused because of `others[j]`, the first of them that it cannot be served beside. */
  predicate RefusedFor(others: seq<Listener>, l: Listener, reason: Reason, j: nat) {
    && j < |others| && reason in Reasons(l, others[j]) && forall k | 0 <= k < j :: Reasons(l, others[k]) == {}
  }

  lemma {:induction false} FirstConflictIs(others: seq<Listener>, l: Listener)
    requires Supported(l.protocol)
    ensures FirstConflict(others, l).None? <==> forall k | 0 <= k < |others| :: Reasons(l, others[k]) == {}
    ensures FirstConflict(others, l).Some? ==> exists j: nat :: RefusedFor(others, l, FirstConflict(others, l).value, j)
  {
    hide Reasons, Conflict;
    if others != [] {
      var init, o := others[..|others| - 1], others[|others| - 1];
      FirstConflictIs(init, l);
      ConflictIs(l, o);
      if FirstConflict(init, l).Some? {
        var j: nat :| RefusedFor(init, l, FirstConflict(init, l).value, j);
        assert RefusedFor(others, l, FirstConflict(others, l).value, j);
      } else if Conflict(l, o).Some? {
        assert RefusedFor(others, l, FirstConflict(others, l).value, |init|);
      }
    }
  }

  /** A listener is valid exactly if its host name is valid or empty, its protocol is supported and it can be served
      beside every earlier listener; and the reason of an invalid one is the first of these that fails. */
  lemma VerdictIs(validHostname: string -> bool, ls: seq<Listener>, i: nat)
    requires i < |ls|
    ensures var host, family := Host(ls[i]), Family(ls[i].protocol);
            match VerdictAt(validHostname, ls, i)
            case None =>
              && (host == "" || validHostname(host)) && family != 0
              && forall k | 0 <= k < i :: Reasons(ls[i], ls[k]) == {}
            case Some(InvalidHostname) => host != "" && !validHostname(host)
            case Some(UnsupportedProtocol) => (host == "" || validHostname(host)) && family == 0
            case Some(reason) =>
              && (host == "" || validHostname(host)) && family != 0
              && exists j: nat :: RefusedFor(ls[..i], ls[i], reason, j)
  {
    hide Reasons, Conflict, FirstConflict, Family;
    FamilyIs(ls[i].protocol, "");
    if Supported(ls[i].protocol) {
      FirstConflictIs(ls[..i], ls[i]);
      ReasonsOnly(ls[..i], ls[i]);
    }
  }

  lemma ReasonsOnly(others: seq<Listener>, l: Listener)
    requires Supported(l.protocol)
    ensures FirstConflict(others, l) != Some(InvalidHostname) && FirstConflict(others, l) != Some(UnsupportedProtocol)
  {
    FirstConflictIs(others, l);
  }

  /** Two valid listeners on one port have protocols of one family and different host names; on different ports
      they have different container ports. */
  lemma ValidOnesApart(validHostname: string -> bool, ls: seq<Listener>, i: nat, j: nat)
    requires i < j < |ls| && VerdictAt(validHostname, ls, i).None? && VerdictAt(validHostname, ls, j).None?
    ensures ls[i].port == ls[j].port ==>
              Family(ls[i].protocol) == Family(ls[j].protocol) && Host(ls[i]) != Host(ls[j])
    ensures ls[i].port != ls[j].port ==> ToContainerPort(ls[i].port) != ToContainerPort(ls[j].port)
  {
    hide Family, ToContainerPort;
    VerdictIs(validHostname, ls, j);
    assert Reasons(ls[j], ls[i]) == {};
    assert PortUnavailable !in Reasons(ls[j], ls[i]) && ProtocolConflict !in Reasons(ls[j], ls[i]);
    assert HostnameConflict !in Reasons(ls[j], ls[i]);
  }

  // ---------- Ports ----------

  lemma {:induction false} NoConflict(before: seq<Listener>, l: Listener)
    requires FirstConflict(before, l).None?
    ensures forall o | o in before :: Conflict(l, o).None?
  {
    if before != [] {
      NoConflict(before[..|before| - 1], l);
      assert before == before[..|before| - 1] + [before[|before| - 1]];
    }
  }

  /** Listeners that can share the data plane: a shared port means a shared name, and other ports map apart. */
  predicate Compatible(a: ListenerPort, b: ListenerPort) {
    (a.port == b.port ==> a.name == b.name) && (a.containerPort == b.containerPort ==> a.port == b.port)
  }

  lemma ValidIsCompatible(validHostname: string -> bool, before: seq<Listener>, l: Listener, o: Listener)
    requires Verdict(validHostname, before, l).None? && o in before && Supported(o.protocol)
    ensures Compatible(PortOf(o), PortOf(l))
  {
    NoConflict(before, l);
    assert Conflict(l, o).None?;
  }

  /** The entry stands for a valid listener. */
  predicate FromListener(validHostname: string -> bool, ls: seq<Listener>, e: ListenerPort) {
    exists i | 0 <= i < |ls| :: VerdictAt(validHostname, ls, i).None? && e == PortOf(ls[i])
  }

  predicate PairwiseDistinct(ports: seq<ListenerPort>) {
    forall i, j | 0 <= i < j < |ports| ::
      ports[i].name != ports[j].name && ports[i].port != ports[j].port && ports[i].containerPort != ports[j].containerPort
  }

  lemma {:induction false} PortsFrom(validHostname: string -> bool, ls: seq<Listener>, e: ListenerPort)
    requires e in ResultFor(validHostname, ls).ports
    ensures FromListener(validHostname, ls, e)
  {
    hide Verdict, PortOf;
    if ls != [] {
      var init, l := ls[..|ls| - 1], ls[|ls| - 1];
      if e in ResultFor(validHostname, init).ports {
        PortsFrom(validHostname, init, e);
        var i :| 0 <= i < |init| && VerdictAt(validHostname, init, i).None? && e == PortOf(init[i]);
        assert init[i] == ls[i] && init[..i] == ls[..i];
      } else {
        assert VerdictAt(validHostname, ls, |init|).None?;
      }
    }
  }

  /** No two entries share a name, a port or a container port. */
  lemma {:induction false} PortsDistinct(validHostname: string -> bool, ls: seq<Listener>)
    ensures PairwiseDistinct(ResultFor(validHostname, ls).ports)
  {
    hide Verdict, EnvoyName;
    if ls != [] {
      var init, l := ls[..|ls| - 1], ls[|ls| - 1];
      PortsDistinct(validHostname, init);
      var before := ResultFor(validHostname, init).ports;
      if Verdict(validHostname, init, l).None? && !HasName(before, EnvoyName(l)) {
        forall e | e in before ensures Compatible(e, PortOf(l)) {
          PortsFrom(validHostname, init, e);
          var i :| 0 <= i < |init| && VerdictAt(validHostname, init, i).None? && e == PortOf(init[i]);
          ValidIsSupported(validHostname, init[..i], init[i]);
          ValidIsCompatible(validHostname, init, l, init[i]);
        }
        AppendDistinct(before, PortOf(l));
      }
    }
  }

  lemma AppendDistinct(ports: seq<ListenerPort>, e: ListenerPort)
    requires PairwiseDistinct(ports) && !HasName(ports, e.name) && forall x | x in ports :: Compatible(x, e)
    ensures PairwiseDistinct(ports + [e])
  {
    forall i | 0 <= i < |ports| ensures ports[i].name != e.name && Compatible(ports[i], e) { assert ports[i] in ports; }
  }

  lemma ValidIsSupported(validHostname: string -> bool, before: seq<Listener>, l: Listener)
    requires Verdict(validHostname, before, l).None?
    ensures Supported(l.protocol)
  {
  }

  /** Every entry has an unprivileged container port. */
  lemma PortsInRange(validHostname: string -> bool, ls: seq<Listener>, e: ListenerPort)
    requires (forall l | l in ls :: PortNumber(l.port)) && e in ResultFor(validHostname, ls).ports
    ensures 1024 <= e.containerPort <= 65535
  {
    PortsFrom(validHostname, ls, e);
  }

  lemma NamesTellPorts(l: Listener, o: Listener)
    requires Supported(l.protocol) && Supported(o.protocol) && EnvoyName(l) == EnvoyName(o)
    ensures PortOf(l) == PortOf(o)
  {
    var p, q := EnvoyProtocol(l.protocol), EnvoyProtocol(o.protocol);
    assert EnvoyName(l)[|p|] == '-' && EnvoyName(o)[|q|] == '-';
    assert p == q;
    assert EnvoyName(l)[|p| + 1..] == Decimal(l.port) && EnvoyName(o)[|q| + 1..] == Decimal(o.port);
    DecimalInjective(l.port, o.port);
  }

  /** Every valid listener has its port, container port and protocol in the list under its Envoy name. */
  lemma {:induction false} ValidHasPort(validHostname: string -> bool, ls: seq<Listener>, i: nat)
    requires i < |ls| && VerdictAt(validHostname, ls, i).None?
    ensures PortOf(ls[i]) in ResultFor(validHostname, ls).ports
  {
    hide Verdict, EnvoyName, Supported;
    var init, l := ls[..|ls| - 1], ls[|ls| - 1];
    if i < |init| {
      assert init[i] == ls[i] && init[..i] == ls[..i];
      ValidHasPort(validHostname, init, i);
    } else {
      var before := ResultFor(validHostname, init).ports;
      if HasName(before, EnvoyName(l)) {
        var e :| e in before && e.name == EnvoyName(l);
        PortsFrom(validHostname, init, e);
        var j :| 0 <= j < |init| && VerdictAt(validHostname, init, j).None? && e == PortOf(init[j]);
        ValidIsSupported(validHostname, init, l);
        ValidIsSupported(validHostname, init[..j], init[j]);
        NamesTellPorts(l, init[j]);
      }
    }
  }

  // ---------- The listeners of the DAG ----------

  datatype DagListener = DagListener(
    name: string, protocol: string, address: string, port: int,
    routeConfigName: string, fallbackCertRouteConfigName: string, enableWebsockets: bool)

  datatype Processor = Processor(httpAddress: string, httpPort: int, httpsAddress: string, httpsPort: int)

  function OrDefault(n: int, default_: int): int {
    if n > 0 then n else default_
  }

  function ToDag(p: Processor, e: ListenerPort): DagListener {
    var address := if e.protocol == "https" then p.httpsAddress else p.httpAddress;
    DagListener(e.name, e.protocol, address, e.containerPort, "", "", true)
  }

  function DagFor(p: Processor, ports: seq<ListenerPort>): map<string, DagListener> {
    if ports == [] then map[]
    else
      var e := ports[|ports| - 1];
      DagFor(p, ports[..|ports| - 1])[e.name := ToDag(p, e)]
  }

  function StaticListeners(p: Processor): map<string, DagListener> {
    map["ingress_http" :=
          DagListener("ingress_http", "http", p.httpAddress, OrDefault(p.httpPort, 8080), "ingress_http", "", false),
        "ingress_https" :=
          DagListener("ingress_https", "https", p.httpsAddress, OrDefault(p.httpsPort, 8443), "https",
                      "ingress_fallbackcert", false)]
  }

  /** Adds the listeners of the Gateway, if there is one, or else the two static listeners. */
  method AddListeners(p: Processor, validHostname: string -> bool, gateway: Option<seq<Listener>>,
                      listeners: map<string, DagListener>)
    returns (dag: map<string, DagListener>, hasDynamicListeners: bool)
    ensures hasDynamicListeners <==> gateway.Some?
    ensures gateway.Some? ==> dag == listeners + DagFor(p, ResultFor(validHostname, gateway.value).ports)
    ensures gateway.None? ==> dag == listeners + StaticListeners(p)
  {
    hide ResultFor, DagFor;
    if gateway.None? {
      return listeners + StaticListeners(p), false;
    }
    hide StaticListeners;
    dag, hasDynamicListeners := listeners, true;
    DagForNone(p);
    var r := ValidateListeners(validHostname, gateway.value);
    for i := 0 to |r.ports|
      invariant dag == listeners + DagFor(p, r.ports[..i])
    {
      var port := r.ports[i];
      var address := p.httpAddress;
      if port.protocol == "https" {
        address := p.httpsAddress;
      }
      dag := dag[port.name := DagListener(port.name, port.protocol, address, port.containerPort, "", "", true)];
      DagForStep(p, r.ports, i);
    }
    assert r.ports[..|r.ports|] == r.ports;
  }

  lemma DagForNone(p: Processor)
    ensures DagFor(p, []) == map[]
  {
  }

  lemma DagForStep(p: Processor, ports: seq<ListenerPort>, i: nat)
    requires i < |ports|
    ensures DagFor(p, ports[..i + 1]) == DagFor(p, ports[..i])[ports[i].name := ToDag(p, ports[i])]
  {
    assert ports[..i + 1][..i] == ports[..i];
  }

  lemma {:induction false} DagHas(p: Processor, ports: seq<ListenerPort>, e: ListenerPort)
    requires PairwiseDistinct(ports) && e in ports
    ensures e.name in DagFor(p, ports) && DagFor(p, ports)[e.name] == ToDag(p, e)
  {
    var init := ports[..|ports| - 1];
    if e != ports[|ports| - 1] {
      assert ports == init + [ports[|ports| - 1]];
      var j :| 0 <= j < |init| && init[j] == e;
      assert ports[j].name != ports[|ports| - 1].name;
      DagHas(p, init, e);
    }
  }

  /** A listener of the Gateway is ready only if it is not among the invalid ones; its TLS secret, allowed
      routes and mode must be in order as well. */
  predicate Ready(r: Result, l: Listener, otherwiseInOrder: bool) {
    l.name !in r.invalid && otherwiseInOrder
  }

  /** The names of the protocols in the data plane. */
  function FamilyName(protocol: string): string {
    ["", "http", "https", "tcp"][Family(protocol)]
  }

  lemma EnvoyNameIs(l: Listener)
    requires Supported(l.protocol)
    ensures EnvoyProtocol(l.protocol) == FamilyName(l.protocol)
    ensures EnvoyName(l) == FamilyName(l.protocol) + "-" + Decimal(l.port)
  {
  }

  /** The two static listeners: plain HTTP and HTTPS, on their default ports unless others are configured. */
  lemma StaticListenersAre(p: Processor)
    ensures StaticListeners(p).Keys == {"ingress_http", "ingress_https"}
    ensures var h := StaticListeners(p)["ingress_http"];
            && h.name == "ingress_http" && h.protocol == "http" && h.address == p.httpAddress
            && (p.httpPort > 0 ==> h.port == p.httpPort) && (p.httpPort <= 0 ==> h.port == 8080)
            && h.routeConfigName == "ingress_http" && h.fallbackCertRouteConfigName == "" && !h.enableWebsockets
    ensures var h := StaticListeners(p)["ingress_https"];
            && h.name == "ingress_https" && h.protocol == "https" && h.address == p.httpsAddress
            && (p.httpsPort > 0 ==> h.port == p.httpsPort) && (p.httpsPort <= 0 ==> h.port == 8443)
            && h.routeConfigName == "https" && h.fallbackCertRouteConfigName == "ingress_fallbackcert"
            && !h.enableWebsockets
  {
    assert "ingress_http" != "ingress_https";
  }

  /** Every ready listener maps to a listener of the DAG that serves its protocol on its container port. */
  lemma ReadyHasListener(p: Processor, validHostname: string -> bool, ls: seq<Listener>, i: nat, otherwiseInOrder: bool)
    requires DistinctNames(ls) && i < |ls| && Ready(ResultFor(validHostname, ls), ls[i], otherwiseInOrder)
    ensures var r := ResultFor(validHostname, ls);
            && ls[i].name in r.listenerNames
            && r.listenerNames[ls[i].name] in DagFor(p, r.ports)
            && var d := DagFor(p, r.ports)[r.listenerNames[ls[i].name]];
               && d.name == r.listenerNames[ls[i].name] == FamilyName(ls[i].protocol) + "-" + Decimal(ls[i].port)
               && d.protocol == FamilyName(ls[i].protocol) && d.port == ToContainerPort(ls[i].port)
               && d.address == (if Family(ls[i].protocol) == 2 then p.httpsAddress else p.httpAddress)
               && d.routeConfigName == "" && d.fallbackCertRouteConfigName == "" && d.enableWebsockets
  {
    hide Verdict, EnvoyName, ResultFor, DagFor;
    assert VerdictAt(validHostname, ls, i).None? by { Partition(validHostname, ls, i); }
    ValidIsSupported(validHostname, ls[..i], ls[i]);
    EnvoyNameIs(ls[i]);
    ReadyListener(p, validHostname, ls, i, otherwiseInOrder);
  }

  lemma ReadyListener(p: Processor, validHostname: string -> bool, ls: seq<Listener>, i: nat, otherwiseInOrder: bool)
    requires DistinctNames(ls) && i < |ls| && Ready(ResultFor(validHostname, ls), ls[i], otherwiseInOrder)
    ensures var r := ResultFor(validHostname, ls);
            && ls[i].name in r.listenerNames && r.listenerNames[ls[i].name] == EnvoyName(ls[i])
            && r.listenerNames[ls[i].name] in DagFor(p, r.ports)
            && DagFor(p, r.ports)[r.listenerNames[ls[i].name]] == ToDag(p, PortOf(ls[i]))
  {
    Partition(validHostname, ls, i);
    ValidHasPort(validHostname, ls, i);
    PortsDistinct(validHostname, ls);
    DagHas(p, ResultFor(validHostname, ls).ports, PortOf(ls[i]));
  }
}
