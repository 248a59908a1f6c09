/**
 The condition variable that wakes waiting goroutines through channels.

 A registration carries the last sequence number its owner has seen. It is answered at once when a
 notification was missed, and otherwise by the first later notification whose hints concern it. A
 registration's channel is identified by a ticket, the number of registrations made before it; the
 caller hands over a channel of capacity 1 that it has drained.
 */
module Cond {
  import opened Wrappers

  datatype Waiter = Waiter(ticket: nat, hints: seq<string>)

  /** A call of Register: the caller's number, its hints, and the counter at that moment. */
  datatype Registration = Registration(seen: int, hints: seq<string>, at: nat)

  datatype State = State(
    waiters: seq<Waiter>,
    last: nat,
    sent: map<nat, nat>,          // by ticket, the value waiting in the channel
    // History.
    regs: seq<Registration>,
    notes: seq<seq<string>>)      // the hints of the notification numbered i + 1

  const Empty: State := State([], 0, map[], [], [])

  predicate Intersects(left: seq<string>, right: seq<string>) {
    exists l | l in left :: l in right
  }

  /** A notification without hints concerns everybody. */
  predicate Concerns(hints: seq<string>, waiting: seq<string>) {
    hints == [] || Intersects(hints, waiting)
  }

  // ---------- What a registration is owed ----------

  /** Number of the first notification after the first `from` that concerns `waiting`. */
  function FirstConcerning(notes: seq<seq<string>>, from: nat, waiting: seq<string>): Option<nat>
    requires from <= |notes|
    decreases |notes| - from
  {
    if from == |notes| then None
    else if Concerns(notes[from], waiting) then Some(from + 1)
    else FirstConcerning(notes, from + 1, waiting)
  }

  /** The one value a registration is to receive, if it is due yet. */
  function Owed(reg: Registration, notes: seq<seq<string>>): Option<nat>
    requires reg.at <= |notes|
  {
    if reg.seen < reg.at then Some(reg.at) else FirstConcerning(notes, reg.at, reg.hints)
  }

  lemma {:induction false} FirstConcerningIs(notes: seq<seq<string>>, from: nat, waiting: seq<string>)
    requires from <= |notes|
    ensures match FirstConcerning(notes, from, waiting)
            case Some(n) =>
              && from < n <= |notes| && Concerns(notes[n - 1], waiting)
              && forall k | from <= k < n - 1 :: !Concerns(notes[k], waiting)
            case None => forall k | from <= k < |notes| :: !Concerns(notes[k], waiting)
    decreases |notes| - from
  {
    if from < |notes| && !Concerns(notes[from], waiting) {
      FirstConcerningIs(notes, from + 1, waiting);
    }
  }

  /** A new notification settles a registration that concerns it and changes nothing else. */
  lemma {:induction false} OwedStep(reg: Registration, notes: seq<seq<string>>, hints: seq<string>)
    requires reg.at <= |notes|
    ensures Owed(reg, notes + [hints]) ==
            if Owed(reg, notes).Some? then Owed(reg, notes)
            else if Concerns(hints, reg.hints) then Some(|notes| + 1) else None
  {
    if reg.seen >= reg.at {
      FirstStep(notes, reg.at, reg.hints, hints);
    }
  }

  lemma {:induction false} FirstStep(notes: seq<seq<string>>, from: nat, waiting: seq<string>, hints: seq<string>)
    requires from <= |notes|
    ensures FirstConcerning(notes + [hints], from, waiting) ==
            if FirstConcerning(notes, from, waiting).Some? then FirstConcerning(notes, from, waiting)
            else if Concerns(hints, waiting) then Some(|notes| + 1) else None
    decreases |notes| - from
  {
    if from < |notes| && !Concerns(notes[from], waiting) {
      FirstStep(notes, from + 1, waiting, hints);
    }
  }

  // ---------- The operations ----------

  function AfterRegister(s: State, seen: int, hints: seq<string>): State {
    var t := |s.regs|;
    var s1 := s.(regs := s.regs + [Registration(seen, hints, s.last)]);
    if seen < s.last then s1.(sent := s.sent[t := s.last])
    else s1.(waiters := s.waiters + [Waiter(t, hints)])
  }

  function Kept(ws: seq<Waiter>, hints: seq<string>): seq<Waiter> {
    if ws == [] then []
    else
      var w, before := ws[|ws| - 1], Kept(ws[..|ws| - 1], hints);
      if Concerns(hints, w.hints) then before else before + [w]
  }

  /** The tickets of the waiters that a notification with these hints concerns. */
  function Concerned(ws: seq<Waiter>, hints: seq<string>): set<nat> {
    if ws == [] then {} else
    var w, before := ws[|ws| - 1], Concerned(ws[..|ws| - 1], hints);
    if Concerns(hints, w.hints) then before + {w.ticket} else before
  }

  /** The channels after the number `n` is sent to the tickets `ts`. */
  function Deliver(sent: map<nat, nat>, ts: set<nat>, n: nat): map<nat, nat> {
    map t | t in sent.Keys + ts :: if t in ts then n else sent[t]
  }

  function AfterNotify(s: State, hints: seq<string>): State {
    var n := s.last + 1;
    s.(last := n,
       waiters := Kept(s.waiters, hints),
       sent := Deliver(s.sent, Concerned(s.waiters, hints), n),
       notes := s.notes + [hints])
  }

  datatype Op = Registering(seen: int, hints: seq<string>) | Notifying(hints: seq<string>)

  function Apply(s: State, op: Op): State {
    match op
    case Registering(seen, hints) => AfterRegister(s, seen, hints)
    case Notifying(hints) => AfterNotify(s, hints)
  }

  function Run(s: State, ops: seq<Op>): State
    decreases |ops|
  {
    if ops == [] then s else Run(Apply(s, ops[0]), ops[1..])
  }

  // ---------- Invariant ----------

  function Tickets(ws: seq<Waiter>): set<nat> {
    if ws == [] then {} else Tickets(ws[..|ws| - 1]) + {ws[|ws| - 1].ticket}
  }

  /** Waiters are listed in the order they registered. */
  predicate Ordered(ws: seq<Waiter>) {
    ws == [] ||
    (Ordered(ws[..|ws| - 1]) && AllBelow(Tickets(ws[..|ws| - 1]), ws[|ws| - 1].ticket))
  }

  predicate AllBelow(ts: set<nat>, n: nat) {
    forall t | t in ts :: t < n
  }

  predicate WaitersOk(ws: seq<Waiter>, regs: seq<Registration>) {
    ws == [] ||
    (var w := ws[|ws| - 1];
     w.ticket < |regs| && regs[w.ticket].hints == w.hints && WaitersOk(ws[..|ws| - 1], regs))
  }

  /** Ticket `t` has been sent exactly what its registration is owed, and is listed until then. */
  predicate Settled(s: State, t: nat)
    requires t < |s.regs|
  {
    && s.regs[t].at <= |s.notes|
    && (match Owed(s.regs[t], s.notes)
        case Some(v) => t in s.sent && s.sent[t] == v && t !in Tickets(s.waiters)
        case None => t !in s.sent && t in Tickets(s.waiters))
  }

  predicate Inv(s: State) {
    && |s.notes| == s.last
    && Ordered(s.waiters) && WaitersOk(s.waiters, s.regs)
    && (forall t | t in s.sent :: t < |s.regs|)
    && (forall t | 0 <= t < |s.regs| :: Settled(s, t))
    && |s.regs| == |s.waiters| + |s.sent|
  }

  lemma {:induction false} TicketsAppend(ws: seq<Waiter>, w: Waiter, regs: seq<Registration>)
    ensures Tickets(ws + [w]) == Tickets(ws) + {w.ticket}
    ensures Ordered(ws + [w]) <==> Ordered(ws) && AllBelow(Tickets(ws), w.ticket)
    ensures WaitersOk(ws + [w], regs) <==>
            w.ticket < |regs| && regs[w.ticket].hints == w.hints && WaitersOk(ws, regs)
  {
    assert (ws + [w])[..|ws|] == ws;
  }

  lemma {:induction false} WaitersKnown(ws: seq<Waiter>, regs: seq<Registration>, more: seq<Registration>)
    requires WaitersOk(ws, regs)
    ensures WaitersOk(ws, regs + more) && AllBelow(Tickets(ws), |regs|)
  {
    if ws != [] {
      WaitersKnown(ws[..|ws| - 1], regs, more);
    }
  }

  lemma {:induction false} SettledFrame(s: State, s': State, t: nat)
    requires t < |s.regs| && Settled(s, t) && s.regs <= s'.regs && s'.notes == s.notes
    requires t in s.sent <==> t in s'.sent
    requires t in s.sent ==> s'.sent[t] == s.sent[t]
    requires t in Tickets(s.waiters) <==> t in Tickets(s'.waiters)
    ensures Settled(s', t)
  {
    assert s'.regs[t] == s.regs[t];
  }

  lemma {:induction false} PutNew(m: map<nat, nat>, k: nat, v: nat)
    requires k !in m
    ensures |m[k := v]| == |m| + 1
  {
    assert m[k := v].Keys == m.Keys + {k};
    assert |m.Keys + {k}| == |m.Keys| + 1;
  }

  /** A registration that missed a notification is answered at once. */
  lemma {:induction false} RegisterLate(s: State, seen: int, hints: seq<string>)
    requires Inv(s) && seen < s.last
    ensures Inv(AfterRegister(s, seen, hints))
  {
    var s', n := AfterRegister(s, seen, hints), |s.regs|;
    WaitersKnown(s.waiters, s.regs, [Registration(seen, hints, s.last)]);
    PutNew(s.sent, n, s.last);
    forall t | 0 <= t < n ensures Settled(s', t) { SettledFrame(s, s', t); }
    assert Settled(s', n);
  }

  lemma {:induction false} RegisterInTime(s: State, seen: int, hints: seq<string>)
    requires Inv(s) && seen >= s.last
    ensures Inv(AfterRegister(s, seen, hints))
  {
    WaitersKnown(s.waiters, s.regs, [Registration(seen, hints, s.last)]);
    TicketsAppend(s.waiters, Waiter(|s.regs|, hints), s.regs + [Registration(seen, hints, s.last)]);
    InTimeSettled(s, seen, hints);
  }

  lemma {:induction false} InTimeSettled(s: State, seen: int, hints: seq<string>)
    requires Inv(s) && seen >= s.last
    ensures var s' := AfterRegister(s, seen, hints);
            forall t | 0 <= t < |s'.regs| :: Settled(s', t)
  {
    var s', n := AfterRegister(s, seen, hints), |s.regs|;
    TicketsAppend(s.waiters, Waiter(n, hints), s'.regs);
    forall t | 0 <= t < n ensures Settled(s', t) { SettledFrame(s, s', t); }
    ListedSettled(s', n);
  }

  lemma {:induction false} ListedSettled(s: State, t: nat)
    requires t < |s.regs| && s.regs[t].at == |s.notes| <= s.regs[t].seen
    requires t !in s.sent && t in Tickets(s.waiters)
    ensures Settled(s, t)
  {
  }

  lemma {:induction false} ConcernedIs(ws: seq<Waiter>, hints: seq<string>, regs: seq<Registration>, t: nat)
    requires Ordered(ws) && WaitersOk(ws, regs) && t < |regs|
    ensures t in Concerned(ws, hints) <==> t in Tickets(ws) && Concerns(hints, regs[t].hints)
  {
    if ws != [] {
      ConcernedIs(ws[..|ws| - 1], hints, regs, t);
    }
  }

  /** The list keeps exactly the waiters the notification does not concern, in their order. */
  lemma {:induction false} KeptIs(ws: seq<Waiter>, hints: seq<string>, regs: seq<Registration>)
    requires Ordered(ws) && WaitersOk(ws, regs)
    ensures var kept := Kept(ws, hints);
            Ordered(kept) && WaitersOk(kept, regs) && Tickets(kept) == Tickets(ws) - Concerned(ws, hints)
            && Concerned(ws, hints) <= Tickets(ws)
  {
    if ws != [] {
      var init, w := ws[..|ws| - 1], ws[|ws| - 1];
      hide Concerns;
      KeptIs(init, hints, regs);
      TicketsAppend(Kept(init, hints), w, regs);
    }
  }

  lemma {:induction false} KeptCount(ws: seq<Waiter>, hints: seq<string>)
    requires Ordered(ws)
    ensures Concerned(ws, hints) <= Tickets(ws)
    ensures |Concerned(ws, hints)| + |Kept(ws, hints)| == |ws|
  {
    if ws != [] {
      KeptCount(ws[..|ws| - 1], hints);
      assert ws[|ws| - 1].ticket !in Concerned(ws[..|ws| - 1], hints);
    }
  }

  lemma {:induction false} DeliverCount(sent: map<nat, nat>, ts: set<nat>, n: nat)
    requires sent.Keys !! ts
    ensures |Deliver(sent, ts, n)| == |sent| + |ts|
  {
    assert Deliver(sent, ts, n).Keys == sent.Keys + ts;
    assert |sent.Keys + ts| == |sent.Keys| + |ts|;
  }

  lemma {:induction false} NotifyKeepsInv(s: State, hints: seq<string>)
    requires Inv(s)
    ensures Inv(AfterNotify(s, hints))
  {
    hide Owed, Kept, Concerned, Ordered, WaitersOk;
    var s' := AfterNotify(s, hints);
    WaitersKnown(s.waiters, s.regs, []);
    assert Tickets(s.waiters) !! s.sent.Keys by {
      forall t | t in Tickets(s.waiters) ensures t !in s.sent { assert Settled(s, t); }
    }
    KeptIs(s.waiters, hints, s.regs);
    KeptCount(s.waiters, hints);
    DeliverCount(s.sent, Concerned(s.waiters, hints), s.last + 1);
    forall t | 0 <= t < |s'.regs| ensures Settled(s', t) { NotifySettles(s, hints, t); }
  }

  lemma {:induction false} NotifySettles(s: State, hints: seq<string>, t: nat)
    requires Inv(s) && t < |s.regs|
    ensures Settled(AfterNotify(s, hints), t)
  {
    hide Kept, Concerned, Tickets, Ordered, WaitersOk, FirstConcerning, Concerns;
    assert Settled(s, t);
    KeptIs(s.waiters, hints, s.regs);
    OwedStep(s.regs[t], s.notes, hints);
    ConcernedIs(s.waiters, hints, s.regs, t);
  }

  /** In every run each registration is sent at most one value, namely the one it is owed, it is listed
      exactly until that value is due, and registrations = waiting + notified. */
  lemma {:induction false} RunKeepsInv(s: State, ops: seq<Op>)
    requires Inv(s)
    ensures Inv(Run(s, ops))
    decreases |ops|
  {
    if ops != [] {
      match ops[0] {
        case Registering(seen, hints) =>
          if seen < s.last { RegisterLate(s, seen, hints); } else { RegisterInTime(s, seen, hints); }
        case Notifying(hints) => NotifyKeepsInv(s, hints);
      }
      RunKeepsInv(Apply(s, ops[0]), ops[1..]);
    }
  }

  /** A listed waiter has missed no notification that concerns it and is numbered above what its
      owner had seen. */
  lemma {:induction false} NothingMissed(s: State, t: nat, k: nat)
    requires Inv(s) && t in Tickets(s.waiters) && t < |s.regs|
    requires s.regs[t].seen < k <= s.last && 0 < k
    ensures !Concerns(s.notes[k - 1], s.regs[t].hints)
  {
    assert Settled(s, t);
    FirstConcerningIs(s.notes, s.regs[t].at, s.regs[t].hints);
  }

  /** A notification without hints reaches everybody, and one with hints those that share a hint with it. */
  lemma NotifyReaches(s: State, hints: seq<string>, t: nat)
    requires Inv(s) && t < |s.regs| && t !in s.sent
    ensures var s' := AfterNotify(s, hints);
            t in s'.sent <==> hints == [] || exists h | h in hints :: h in s.regs[t].hints
    ensures t in AfterNotify(s, hints).sent ==> AfterNotify(s, hints).sent[t] == s.last + 1
  {
    hide Owed, Tickets, Kept, Concerned, Ordered, WaitersOk, Deliver;
    assert Settled(s, t);
    NotifyKeepsInv(s, hints);
    OwedStep(s.regs[t], s.notes, hints);
    assert Settled(AfterNotify(s, hints), t);
  }

  // ---------- The code ----------

  method Intersection(left: seq<string>, right: seq<string>) returns (found: bool)
    ensures found <==> Intersects(left, right)
  {
    for i := 0 to |left|
      invariant forall k | 0 <= k < i :: left[k] !in right
    {
      for j := 0 to |right|
        invariant forall k | 0 <= k < j :: left[i] != right[k]
      {
        if left[i] == right[j] {
          assert left[i] in left && left[i] in right;
          return true;
        }
      }
    }
    return false;
  }

  class CondVar {
    var waiters: seq<Waiter>
    var last: nat
    var channels: map<nat, nat>
    var tickets: nat
    ghost var regs: seq<Registration>
    ghost var notes: seq<seq<string>>

    ghost function Model(): State
      reads this
    {
      State(waiters, last, channels, regs, notes)
    }

    ghost predicate Valid()
      reads this
    {
      tickets == |regs| && Inv(Model())
    }

    constructor ()
      ensures Valid() && Model() == Empty
    {
      waiters, last, channels, tickets, regs, notes := [], 0, map[], 0, [], [];
    }

    /** The ticket stands for the caller's channel, which is empty when it is handed over. */
    method Register(seen: int, hints: seq<string>) returns (ticket: nat)
      requires Valid()
      modifies this
      ensures Valid() && Model() == AfterRegister(old(Model()), seen, hints)
      ensures ticket == |old(regs)| && ticket !in old(channels)
    {
      ticket := tickets;
      ghost var before := Model();
      if seen < last { RegisterLate(before, seen, hints); } else { RegisterInTime(before, seen, hints); }
      regs := regs + [Registration(seen, hints, last)];
      tickets := tickets + 1;
      if seen < last {
        channels := channels[ticket := last];
        return;
      }
      waiters := waiters + [Waiter(ticket, hints)];
    }

    method Notify(hints: seq<string>)
      requires Valid()
      modifies this
      ensures Valid() && Model() == AfterNotify(old(Model()), hints)
    {
      ghost var before := Model();
      NotifyKeepsInv(before, hints);
      forall i | 0 <= i < |waiters| ensures CanSend(waiters, channels, hints, i) {
        ChannelEmpty(before, hints, i);
      }
      last := last + 1;
      NotifyWaiters(hints);
      notes := notes + [hints];
    }

    /** The loop of Notify. No send meets a channel that still holds a value. */
    method NotifyWaiters(hints: seq<string>)
      requires forall i | 0 <= i < |waiters| :: CanSend(waiters, channels, hints, i)
      modifies this`waiters, this`channels
      ensures waiters == Kept(old(waiters), hints)
      ensures channels == Deliver(old(channels), Concerned(old(waiters), hints), last)
    {
      var notify := waiters;
      waiters := [];
      for i := 0 to |notify|
        invariant waiters == Kept(notify[..i], hints)
        invariant channels == Deliver(old(channels), Concerned(notify[..i], hints), last)
      {
        var w := notify[i];
        NotifyStep(notify, hints, i);
        var concerned := hints == [];
        if !concerned {
          concerned := Intersection(hints, w.hints);
        }
        if concerned {
          assert CanSend(notify, old(channels), hints, i);
          assert w.ticket !in channels;
          DeliverOne(old(channels), Concerned(notify[..i], hints), w.ticket, last);
          channels := channels[w.ticket := last];
        } else {
          waiters := waiters + [w];
        }
      }
      assert notify[..|notify|] == notify;
    }
  }

  lemma {:induction false} DeliverOne(sent: map<nat, nat>, ts: set<nat>, t: nat, n: nat)
    ensures Deliver(sent, ts + {t}, n) == Deliver(sent, ts, n)[t := n]
  {
  }

  predicate CanSend(ws: seq<Waiter>, sent: map<nat, nat>, hints: seq<string>, i: nat)
    requires i < |ws|
  {
    ws[i].ticket !in sent && ws[i].ticket !in Concerned(ws[..i], hints)
  }

  lemma {:induction false} NotifyStep(ws: seq<Waiter>, hints: seq<string>, i: nat)
    requires i < |ws|
    ensures var concerned := Concerns(hints, ws[i].hints);
            && Kept(ws[..i + 1], hints) == Kept(ws[..i], hints) + (if concerned then [] else [ws[i]])
            && Concerned(ws[..i + 1], hints) == Concerned(ws[..i], hints) + (if concerned then {ws[i].ticket} else {})
  {
    assert ws[..i + 1][..i] == ws[..i];
  }

  /** When a notification reaches the waiter at `i`, that waiter's channel is empty. */
  lemma {:induction false} ChannelEmpty(s: State, hints: seq<string>, i: nat)
    requires Inv(s) && i < |s.waiters|
    ensures CanSend(s.waiters, s.sent, hints, i)
  {
    WaitersKnown(s.waiters, s.regs, []);
    OrderedPrefix(s.waiters, hints, i);
    assert Settled(s, s.waiters[i].ticket);
  }

  lemma {:induction false} OrderedPrefix(ws: seq<Waiter>, hints: seq<string>, i: nat)
    requires Ordered(ws) && i < |ws|
    ensures ws[i].ticket in Tickets(ws) && ws[i].ticket !in Concerned(ws[..i], hints)
  {
    var init := ws[..|ws| - 1];
    if i < |init| {
      OrderedPrefix(init, hints, i);
      assert init[..i] == ws[..i];
    } else {
      KeptCount(init, hints);
    }
  }
}
