/**
 The event handler's main loop.

 Informer events arrive on a channel, a hold-off timer batches them, and a rebuild of the DAG
 happens when the timer is served and the informer caches are synced. Each case of the loop's
 `select`, and each action of the environment the loop can observe, is one atomic step.
 Times are nanoseconds since the loop started.
 */
module EventLoop {
  import opened Wrappers

  datatype Config = Config(holdoff: nat, maxHoldoff: nat)

  /** The hold-off timer: never created, running until a deadline (after which its value waits on
      the channel), or fired and received. */
  datatype Timer = NoTimer | Armed(deadline: nat) | Received

  /** What a finished rebuild saw. */
  datatype Build = Build(at: nat, upstreamSynced: bool, started: nat, applied: nat, changes: nat)

  datatype Loop = Loop(
    now: nat,
    // Variables of the loop.
    outstanding: nat,
    timer: Timer,
    lastRebuild: nat,
    seqNo: nat,
    sequence: Option<nat>,        // the buffered channel of capacity 1
    initialDagBuilt: bool,
    // The sync tracker: upstream's answer and the counter of initial-list adds under way.
    upstreamSynced: bool,
    count: int,
    // History.
    started: nat,                 // initial-list adds that OnAdd has announced
    applied: nat,                 // of these, the ones the loop has applied to the cache
    changes: nat,                 // events that changed the cache in an interesting way
    ignored: nat,                 // events that did not
    firstPending: nat,            // when the first change after the last rebuild was applied
    lastChange: nat,              // when the last change was applied
    lastRetry: Option<nat>,       // last rebuild put off since the last rebuild
    builds: seq<Build>)

  datatype Event =
    | Tick(dt: nat)
    | UpstreamSyncs
    | AddStarted
    | Update(interesting: bool, initial: bool)
    | TimerServed(duration: nat)
    | SyncPoll
    | SequenceRead

  /** The state in which the loop is entered; the last rebuild is seeded with the current time. */
  predicate Initial(s: Loop) {
    && s.outstanding == 0 && s.timer.NoTimer? && s.lastRebuild == s.now
    && s.seqNo == 0 && s.sequence.None? && !s.initialDagBuilt && !s.upstreamSynced && s.count == 0
    && s.started == s.applied == s.changes == s.ignored == 0
    && s.firstPending == s.lastChange == 0 && s.lastRetry.None? && s.builds == []
  }

  predicate HasSynced(s: Loop) {
    s.upstreamSynced && s.count <= 0
  }

  /** When the loop or its environment can take a step. An initial-list add reaches the loop only
      after OnAdd has announced it, and a timer is served only once it has fired. */
  predicate Enabled(s: Loop, e: Event) {
    match e
    case Update(_, initial) => initial ==> s.applied < s.started
    case TimerServed(_) => s.timer.Armed? && s.timer.deadline <= s.now
    case _ => true
  }

  function IncSequence(s: Loop): Loop {
    var n := s.seqNo + 1;
    s.(seqNo := n, sequence := if s.sequence.None? then Some(n) else s.sequence)
  }

  function Delay(c: Config, s: Loop): nat {
    if s.now - s.lastRebuild > c.maxHoldoff then 0 else c.holdoff
  }

  function OnUpdate(c: Config, s: Loop, interesting: bool, initial: bool): Loop {
    var s1 :=
      if interesting then
        s.(outstanding := s.outstanding + 1,
           timer := Armed(s.now + Delay(c, s)),
           changes := s.changes + 1,
           firstPending := if s.outstanding == 0 then s.now else s.firstPending,
           lastChange := s.now)
      else IncSequence(s).(ignored := s.ignored + 1);
    if initial then s1.(count := s1.count - 1, applied := s1.applied + 1) else s1
  }

  function OnTimer(c: Config, s: Loop, duration: nat): Loop {
    if !HasSynced(s) then
      s.(timer := Armed(s.now + c.holdoff), lastRetry := Some(s.now))
    else
      var b := Build(s.now, s.upstreamSynced, s.started, s.applied, s.changes);
      IncSequence(s).(outstanding := 0,
                      timer := Received,
                      now := s.now + duration,
                      lastRebuild := s.now + duration,
                      lastRetry := None,
                      builds := s.builds + [b])
  }

  function Next(c: Config, s: Loop, e: Event): Loop {
    match e
    case Tick(dt) => s.(now := s.now + dt)
    case UpstreamSyncs => s.(upstreamSynced := true)
    case AddStarted => s.(count := s.count + 1, started := s.started + 1)
    case Update(interesting, initial) => OnUpdate(c, s, interesting, initial)
    case TimerServed(duration) => OnTimer(c, s, duration)
    case SyncPoll => s.(initialDagBuilt := s.initialDagBuilt || HasSynced(s))
    case SequenceRead => s.(sequence := None)
  }

  /** A run: every step enabled in the state it is taken in. */
  predicate IsRun(c: Config, s: Loop, es: seq<Event>)
    decreases |es|
  {
    es == [] || (Enabled(s, es[0]) && IsRun(c, Next(c, s, es[0]), es[1..]))
  }

  function After(c: Config, s: Loop, es: seq<Event>): Loop
    decreases |es|
  {
    if es == [] then s else After(c, Next(c, s, es[0]), es[1..])
  }

  // ---------- Safety ----------

  /** The changes the last rebuild covered. */
  function Built(builds: seq<Build>): nat {
    if builds == [] then 0 else builds[|builds| - 1].changes
  }

  /** Every rebuild saw synced caches with nothing announced and unapplied, and covered at least
      one change that the rebuild before it did not. */
  predicate BuildsOk(builds: seq<Build>) {
    forall i | 0 <= i < |builds| :: BuildOk(builds[i], Built(builds[..i]))
  }

  predicate BuildOk(b: Build, before: nat) {
    b.upstreamSynced && b.started == b.applied && before < b.changes
  }

  predicate Inv(s: Loop) {
    && (s.outstanding > 0 <==> s.timer.Armed?)
    && s.outstanding == s.changes - Built(s.builds)
    && s.count == s.started - s.applied && s.applied <= s.started
    && s.seqNo == s.ignored + |s.builds|
    && (s.sequence.Some? ==> 0 < s.sequence.value <= s.seqNo)
    && (s.initialDagBuilt ==> s.upstreamSynced)
    && BuildsOk(s.builds)
  }

  lemma BuildsExtend(builds: seq<Build>, b: Build)
    requires BuildsOk(builds) && BuildOk(b, Built(builds))
    ensures BuildsOk(builds + [b]) && Built(builds + [b]) == b.changes
  {
    var more := builds + [b];
    forall i | 0 <= i < |more| ensures BuildOk(more[i], Built(more[..i])) {
      assert more[..i] == if i < |builds| then builds[..i] else builds;
    }
  }

  lemma InvUpdate(c: Config, s: Loop, interesting: bool, initial: bool)
    requires Inv(s) && (initial ==> s.applied < s.started)
    ensures Inv(OnUpdate(c, s, interesting, initial))
  {
  }

  lemma InvTimer(c: Config, s: Loop, duration: nat)
    requires Inv(s) && s.timer.Armed?
    ensures Inv(OnTimer(c, s, duration))
  {
    if HasSynced(s) {
      BuildsExtend(s.builds, Build(s.now, s.upstreamSynced, s.started, s.applied, s.changes));
    }
  }

  /** Every step keeps the invariant. */
  lemma InvStep(c: Config, s: Loop, e: Event)
    requires Inv(s) && Enabled(s, e)
    ensures Inv(Next(c, s, e))
  {
    match e
    case Update(interesting, initial) => InvUpdate(c, s, interesting, initial);
    case TimerServed(duration) => InvTimer(c, s, duration);
    case _ =>
  }

  /** Safety of every run: a pending change always has a timer armed or fired and undelivered,
      nothing is pending exactly when the last rebuild covers every interesting change, and every
      rebuild happened with upstream synced and every announced initial-list add applied. */
  lemma {:induction false} RunsAreSafe(c: Config, s: Loop, es: seq<Event>)
    requires Inv(s) && IsRun(c, s, es)
    ensures Inv(After(c, s, es))
    decreases |es|
  {
    if es != [] {
      InvStep(c, s, es[0]);
      RunsAreSafe(c, Next(c, s, es[0]), es[1..]);
    }
  }

  // ---------- Timing ----------

  function Max(a: int, b: int): int {
    if a < b then b else a
  }

  /** Latest time at which the pending changes are rebuilt. */
  function Bound(c: Config, s: Loop): int {
    var b := Max(s.lastRebuild + c.maxHoldoff + c.holdoff, s.firstPending);
    if s.lastRetry.Some? then Max(b, s.lastRetry.value + c.holdoff) else b
  }

  /** What the timer's deadline says about the pending changes, whoever is late. */
  predicate TimingInv(c: Config, s: Loop) {
    && s.lastRebuild <= s.now && s.lastChange <= s.now
    && (s.lastRetry.Some? ==> s.lastRetry.value <= s.now)
    && (s.timer.Armed? ==>
          && s.lastRebuild <= s.firstPending <= s.lastChange
          && (SetByChange(c, s) || SetByRetry(c, s)))
    && (!s.timer.Armed? ==> s.lastRetry.None?)
  }

  /** The last change set the timer: to the full hold-off, or to no delay if the last rebuild was longer ago than
      the maximum. */
  predicate SetByChange(c: Config, s: Loop)
    requires s.timer.Armed?
  {
    && (s.lastRetry.Some? ==> s.lastRetry.value <= s.lastChange)
    && (s.lastChange - s.lastRebuild <= c.maxHoldoff ==> s.timer.deadline == s.lastChange + c.holdoff)
    && (s.lastChange - s.lastRebuild > c.maxHoldoff ==> s.timer.deadline == s.lastChange)
  }

  /** A rebuild was put off after the last change, by the full hold-off. */
  predicate SetByRetry(c: Config, s: Loop)
    requires s.timer.Armed?
  {
    && s.lastRetry.Some? && s.lastChange <= s.lastRetry.value
    && s.timer.deadline == s.lastRetry.value + c.holdoff
  }

  /** Time does not pass a fired timer before it is served. */
  predicate Urgent(s: Loop, e: Event) {
    e.Tick? && s.timer.Armed? ==> s.now + e.dt <= Max(s.now, s.timer.deadline)
  }

  predicate OnTime(c: Config, s: Loop) {
    s.timer.Armed? ==> s.now <= s.timer.deadline <= Bound(c, s)
  }

  predicate IsUrgentRun(c: Config, s: Loop, es: seq<Event>)
    decreases |es|
  {
    es == [] || (Enabled(s, es[0]) && Urgent(s, es[0]) && IsUrgentRun(c, Next(c, s, es[0]), es[1..]))
  }

  lemma TimingUpdate(c: Config, s: Loop, interesting: bool, initial: bool)
    requires Inv(s) && TimingInv(c, s)
    ensures TimingInv(c, OnUpdate(c, s, interesting, initial))
    ensures OnTime(c, s) ==> OnTime(c, OnUpdate(c, s, interesting, initial))
  {
  }

  lemma TimingTimer(c: Config, s: Loop, duration: nat)
    requires TimingInv(c, s) && s.timer.Armed? && s.timer.deadline <= s.now
    ensures TimingInv(c, OnTimer(c, s, duration))
    ensures OnTime(c, s) ==> OnTime(c, OnTimer(c, s, duration))
  {
  }

  lemma TimingTick(c: Config, s: Loop, dt: nat)
    requires TimingInv(c, s)
    ensures TimingInv(c, s.(now := s.now + dt))
    ensures OnTime(c, s) && Urgent(s, Tick(dt)) ==> OnTime(c, s.(now := s.now + dt))
  {
  }

  lemma TimingFrame(c: Config, s: Loop, t: Loop)
    requires TimingInv(c, s) && t.now == s.now && t.timer == s.timer && t.lastRebuild == s.lastRebuild
    requires t.firstPending == s.firstPending && t.lastChange == s.lastChange && t.lastRetry == s.lastRetry
    ensures TimingInv(c, t) && (OnTime(c, s) ==> OnTime(c, t))
  {
  }

  /** A step keeps the deadline within the bound, if a fired timer is served before time goes on. */
  lemma TimingStep(c: Config, s: Loop, e: Event)
    requires Inv(s) && TimingInv(c, s) && Enabled(s, e)
    ensures TimingInv(c, Next(c, s, e))
    ensures OnTime(c, s) && Urgent(s, e) ==> OnTime(c, Next(c, s, e))
  {
    match e
    case Update(interesting, initial) => TimingUpdate(c, s, interesting, initial);
    case TimerServed(duration) => TimingTimer(c, s, duration);
    case Tick(dt) => TimingTick(c, s, dt);
    case _ => TimingFrame(c, s, Next(c, s, e));
  }

  lemma {:induction false} UrgentRuns(c: Config, s: Loop, es: seq<Event>)
    requires Inv(s) && TimingInv(c, s) && OnTime(c, s) && IsUrgentRun(c, s, es)
    ensures var s' := After(c, s, es);
            Inv(s') && TimingInv(c, s') && OnTime(c, s')
    decreases |es|
  {
    if es != [] {
      InvStep(c, s, es[0]);
      TimingStep(c, s, es[0]);
      UrgentRuns(c, Next(c, s, es[0]), es[1..]);
    }
  }

  /** However many events keep resetting the timer: in a run that serves fired timers at once, a
      pending change is never older than the bound; and if no rebuild was put off since the last one,
      it is rebuilt by max(last rebuild + both hold-offs, arrival of the first pending change). */
  lemma RebuildIsTimely(c: Config, s0: Loop, es: seq<Event>)
    requires Initial(s0) && IsUrgentRun(c, s0, es)
    ensures var s := After(c, s0, es);
            s.outstanding > 0 ==>
              && s.timer.Armed? && s.now <= s.timer.deadline <= Bound(c, s)
              && (s.lastRetry.None? ==>
                    s.timer.deadline <= Max(s.lastRebuild + c.maxHoldoff + c.holdoff, s.firstPending))
  {
    UrgentRuns(c, s0, es);
  }

  /** A rebuild is put off by the full hold-off after the last change, unless the maximum has passed. */
  lemma {:induction false} RebuildIsBatched(c: Config, s: Loop, es: seq<Event>)
    requires Inv(s) && TimingInv(c, s) && IsRun(c, s, es)
    ensures var s' := After(c, s, es);
            TimingInv(c, s') && Inv(s')
            && (Enabled(s', TimerServed(0)) && s'.lastRetry.None? && s'.lastChange - s'.lastRebuild <= c.maxHoldoff ==>
                  s'.lastChange + c.holdoff <= s'.now)
    decreases |es|
  {
    if es != [] {
      InvStep(c, s, es[0]);
      TimingStep(c, s, es[0]);
      RebuildIsBatched(c, Next(c, s, es[0]), es[1..]);
    }
  }

  /** The deadline of a pending rebuild, in every run: the full hold-off after the last change, no delay after it
      if the maximum has passed, or the full hold-off after a rebuild was put off. */
  lemma DeadlineIs(c: Config, s: Loop, es: seq<Event>)
    requires Inv(s) && TimingInv(c, s) && IsRun(c, s, es)
    ensures var t := After(c, s, es);
            t.timer.Armed? ==>
              && (t.lastRetry.None? || t.lastRetry.value < t.lastChange ==>
                    t.timer.deadline ==
                    if t.lastChange - t.lastRebuild > c.maxHoldoff then t.lastChange else t.lastChange + c.holdoff)
              && (t.lastRetry.Some? && t.lastRetry.value > t.lastChange ==>
                    t.timer.deadline == t.lastRetry.value + c.holdoff)
  {
    RebuildIsBatched(c, s, es);
  }

  // ---------- What the history and the sequence channel hold ----------

  /** Until it is read, the channel holds the first number that was made since it was empty. */
  lemma {:induction false} UnreadIsFirst(c: Config, s: Loop, es: seq<Event>)
    requires forall e | e in es :: !e.SequenceRead?
    ensures var t := After(c, s, es);
            && t.seqNo >= s.seqNo
            && t.sequence == (if s.sequence.Some? then s.sequence
                              else if t.seqNo > s.seqNo then Some(s.seqNo + 1) else None)
    decreases |es|
  {
    hide Next;
    if es != [] {
      assert es[0] in es && forall e | e in es[1..] :: e in es;
      SequenceStep(c, s, es[0]);
      UnreadIsFirst(c, Next(c, s, es[0]), es[1..]);
    }
  }

  lemma SequenceStep(c: Config, s: Loop, e: Event)
    requires !e.SequenceRead?
    ensures var t := Next(c, s, e);
            && (t.seqNo == s.seqNo || t.seqNo == s.seqNo + 1)
            && t.sequence == (if s.sequence.Some? || t.seqNo == s.seqNo then s.sequence else Some(s.seqNo + 1))
  {
  }

  /** Until the next rebuild the first pending change stays the first one, and a change that finds none pending becomes
      it. */
  lemma {:induction false} FirstPendingIs(c: Config, s: Loop, es: seq<Event>)
    requires Inv(s) && IsRun(c, s, es)
    ensures s.outstanding > 0 && After(c, s, es).builds == s.builds ==> After(c, s, es).firstPending == s.firstPending
    ensures forall initial: bool :: s.outstanding == 0 ==> OnUpdate(c, s, true, initial).firstPending == s.now
    ensures |After(c, s, es).builds| >= |s.builds|
    decreases |es|
  {
    if es != [] {
      InvStep(c, s, es[0]);
      PendingStep(c, s, es[0]);
      hide Next, Inv, Enabled;
      FirstPendingIs(c, Next(c, s, es[0]), es[1..]);
    }
  }

  lemma PendingStep(c: Config, s: Loop, e: Event)
    ensures |Next(c, s, e).builds| >= |s.builds|
    ensures Next(c, s, e).builds != s.builds ==> |Next(c, s, e).builds| > |s.builds|
    ensures s.outstanding > 0 && Next(c, s, e).builds == s.builds ==>
              Next(c, s, e).outstanding > 0 && Next(c, s, e).firstPending == s.firstPending
  {
  }

  // ---------- The flag for the first DAG ----------

  /** Some sync poll of the run finds the caches synced. */
  predicate PolledSynced(c: Config, s: Loop, es: seq<Event>)
    decreases |es|
  {
    es != [] && ((es[0].SyncPoll? && HasSynced(s)) || PolledSynced(c, Next(c, s, es[0]), es[1..]))
  }

  /** Some timer of the run is served with the caches synced. */
  predicate ServedSynced(c: Config, s: Loop, es: seq<Event>)
    decreases |es|
  {
    es != [] && ((es[0].TimerServed? && HasSynced(s)) || ServedSynced(c, Next(c, s, es[0]), es[1..]))
  }

  lemma FlagAndBuildsStep(c: Config, s: Loop, e: Event)
    ensures Next(c, s, e).initialDagBuilt <==> s.initialDagBuilt || (e.SyncPoll? && HasSynced(s))
    ensures Next(c, s, e).builds == [] <==> s.builds == [] && !(e.TimerServed? && HasSynced(s))
  {
  }

  /** What sets the flag, and what makes the first build: a poll and a timer, each with the caches synced. */
  lemma {:induction false} FlagAndBuildsIff(c: Config, s: Loop, es: seq<Event>)
    ensures After(c, s, es).initialDagBuilt <==> s.initialDagBuilt || PolledSynced(c, s, es)
    ensures After(c, s, es).builds == [] <==> s.builds == [] && !ServedSynced(c, s, es)
    decreases |es|
  {
    hide Next, HasSynced;
    if es != [] {
      FlagAndBuildsStep(c, s, es[0]);
      FlagAndBuildsIff(c, Next(c, s, es[0]), es[1..]);
    }
  }

  /** In a run from the start the flag is untruthful, that is, set although no DAG was built, exactly when a
      poll found the caches synced and no timer was served with the caches synced. */
  lemma FlagUntruthfulIff(c: Config, s0: Loop, es: seq<Event>)
    requires Initial(s0)
    ensures After(c, s0, es).initialDagBuilt && After(c, s0, es).builds == [] <==>
            PolledSynced(c, s0, es) && !ServedSynced(c, s0, es)
  {
    FlagAndBuildsIff(c, s0, es);
  }

  /** The flag for the first DAG can be set before any DAG is built. */
  lemma FlagBeforeBuild(c: Config, s0: Loop) returns (es: seq<Event>)
    requires Initial(s0)
    ensures IsRun(c, s0, es) && After(c, s0, es).initialDagBuilt && After(c, s0, es).builds == []
  {
    es := [UpstreamSyncs, SyncPoll];
    var s1 := Next(c, s0, es[0]);
    assert es[1..] == [SyncPoll] && es[1..][1..] == [];
    assert After(c, s1, es[1..]) == Next(c, s1, SyncPoll);
    assert IsRun(c, s1, es[1..]);
  }

  /** What the invariant says of a run from the start, spelled out. */
  lemma {:induction false} Safety(c: Config, s0: Loop, es: seq<Event>)
    requires Initial(s0) && IsRun(c, s0, es)
    ensures var s := After(c, s0, es);
            && (s.outstanding > 0 ==> s.timer.Armed?)
            && (s.outstanding == 0 ==> s.changes == Built(s.builds))
            && (forall b | b in s.builds :: b.upstreamSynced && b.started == b.applied)
            && s.changes + s.ignored == s.seqNo - |s.builds| + s.outstanding + Built(s.builds)
  {
    RunsAreSafe(c, s0, es);
    var s := After(c, s0, es);
    forall b | b in s.builds ensures b.upstreamSynced && b.started == b.applied {
      var i :| 0 <= i < |s.builds| && s.builds[i] == b;
      assert BuildOk(s.builds[i], Built(s.builds[..i]));
    }
  }

  // ---------- The loop itself ----------

  class EventHandler {
    const cfg: Config

    var outstanding: nat
    var timer: Timer
    var lastDAGRebuild: nat
    var seqNo: nat
    var sequence: Option<nat>
    var initialDagBuilt: bool
    var trackerCount: int

    ghost var model: Loop

    ghost predicate Valid()
      reads this
    {
      && model.outstanding == outstanding && model.timer == timer && model.lastRebuild == lastDAGRebuild
      && model.seqNo == seqNo && model.sequence == sequence && model.initialDagBuilt == initialDagBuilt
      && model.count == trackerCount
    }

    constructor (cfg: Config, now: nat)
      ensures Valid() && Initial(model) && this.cfg == cfg && model.now == now
    {
      this.cfg := cfg;
      outstanding, timer, lastDAGRebuild := 0, NoTimer, now;
      seqNo, sequence, initialDagBuilt, trackerCount := 0, None, false, 0;
      model := Loop(now, 0, NoTimer, now, 0, None, false, false, 0, 0, 0, 0, 0, 0, 0, None, []);
    }

    /** OnAdd of an initial-list object, before the object is sent to the loop. */
    method AnnounceAdd()
      requires Valid()
      modifies this
      ensures Valid() && model == Next(cfg, old(model), AddStarted)
    {
      trackerCount := trackerCount + 1;
      model := Next(cfg, model, AddStarted);
    }

    method IncrementSequence()
      requires Valid()
      modifies this
      ensures Valid() && model == IncSequence(old(model))
    {
      seqNo := seqNo + 1;
      if sequence.None? {
        sequence := Some(seqNo);
      }
      model := IncSequence(model);
    }

    /** The case `op := <-e.update`; `interesting` is the answer of the cache. */
    method HandleUpdate(now: nat, interesting: bool, initial: bool)
      requires Valid() && now == model.now && Enabled(model, Update(interesting, initial))
      modifies this
      ensures Valid() && model == Next(cfg, old(model), Update(interesting, initial))
    {
      ghost var before := model;
      if interesting {
        outstanding := outstanding + 1;
        var delay := cfg.holdoff;
        if now - lastDAGRebuild > cfg.maxHoldoff {
          delay := 0;
        }
        timer := Armed(now + delay);
      } else {
        IncrementSequence();
      }
      if initial {
        trackerCount := trackerCount - 1;
      }
      model := OnUpdate(cfg, before, interesting, initial);
    }

    /** The case `<-pending`; a rebuild ends at `finished`. */
    method HandleTimer(now: nat, upstreamSynced: bool, finished: nat)
      requires Valid() && now == model.now && upstreamSynced == model.upstreamSynced && now <= finished
      requires Enabled(model, TimerServed(finished - now))
      modifies this
      ensures Valid() && model == Next(cfg, old(model), TimerServed(finished - now))
    {
      ghost var before := model;
      if !(upstreamSynced && trackerCount <= 0) {
        timer := Armed(now + cfg.holdoff);
      } else {
        outstanding := 0;
        timer := Received;
        model := before.(outstanding := 0, timer := Received);
        IncrementSequence();
        lastDAGRebuild := finished;
      }
      model := OnTimer(cfg, before, finished - now);
    }

    /** The case `<-initialSyncPoll`. */
    method HandleSyncPoll(upstreamSynced: bool)
      requires Valid() && upstreamSynced == model.upstreamSynced
      modifies this
      ensures Valid() && model == Next(cfg, old(model), SyncPoll)
    {
      if upstreamSynced && trackerCount <= 0 {
        initialDagBuilt := true;
      }
      model := Next(cfg, model, SyncPoll);
    }

    /** One event, of the loop or of its environment. */
    method Handle(now: nat, upstreamSynced: bool, e: Event) returns (clock: nat, synced: bool)
      requires Valid() && now == model.now && upstreamSynced == model.upstreamSynced && Enabled(model, e)
      modifies this
      ensures Valid() && model == Next(cfg, old(model), e)
      ensures clock == model.now && synced == model.upstreamSynced
    {
      clock, synced := now, upstreamSynced;
      match e
      case AddStarted => AnnounceAdd();
      case Update(interesting, initial) => HandleUpdate(now, interesting, initial);
      case TimerServed(duration) =>
        clock := if upstreamSynced && trackerCount <= 0 then now + duration else now;
        HandleTimer(now, upstreamSynced, now + duration);
      case SyncPoll => HandleSyncPoll(upstreamSynced);
      case SequenceRead =>
        sequence := None;
        model := Next(cfg, model, e);
      case UpstreamSyncs =>
        synced := true;
        model := Next(cfg, model, e);
      case Tick(dt) =>
        clock := now + dt;
        model := Next(cfg, model, e);
    }

    /** The loop over a sequence of events, entered at time `now`, is the run of the state machine. */
    method Serve(now: nat, upstreamSynced: bool, events: seq<Event>)
      requires Valid() && now == model.now && upstreamSynced == model.upstreamSynced
      requires IsRun(cfg, model, events)
      modifies this
      ensures Valid() && model == After(cfg, old(model), events)
    {
      hide Valid, Next;
      var clock, synced := now, upstreamSynced;
      for i := 0 to |events|
        invariant Valid() && clock == model.now && synced == model.upstreamSynced
        invariant IsRun(cfg, model, events[i..])
        invariant After(cfg, model, events[i..]) == After(cfg, old(model), events)
      {
        assert events[i..][0] == events[i] && events[i..][1..] == events[i + 1..];
        clock, synced := Handle(clock, synced, events[i]);
      }
      assert events[|events|..] == [];
    }
  }
}
