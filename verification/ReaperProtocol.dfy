/**
 * The reaper thread, any number of killers and any number of barrier waiters,
 * interleaved one lock, queue or condition-variable action at a time.
 */
module ReaperProtocol {
  import opened Options
  import opened ReaperQueue

  type ThreadId = nat

  /** SIGKILL and wait for one entry, at the given time. */
  datatype Reaped = Reaped(kill: PendingKill, at: int)

  /** Where the reaper thread is; it holds the lock in the first three places. */
  datatype ReaperPc =
    | AtTop
    | Measured(now: int)
    | Passed
    | Sleeping(until: Option<int>)
    | Waking

  /** A kill by its pid and its place among all enqueued kills. */
  datatype Own = Own(pid: nat, index: nat)

  /**
   * Where a caller is. `thenWait` marks `terminate`, which waits for its own
   * kill; `mark` is how many kills had been enqueued when the wait was called,
   * and `own` the kill that a terminating caller enqueued itself.
   */
  datatype Pc =
    | KillCall(pid: nat, thenWait: bool)
    | KillLocked(pid: nat, thenWait: bool)
    | KillPushed(kill: Own, thenWait: bool)
    | KillDone
    | WaitCall(mark: nat, own: Option<Own>)
    | WaitLocked(mark: nat, own: Option<Own>)
    | Waiting(mark: nat, own: Option<Own>)
    | WaitWoken(mark: nat, own: Option<Own>)
    | WaitDone(mark: nat, own: Option<Own>)

  datatype Lock = Free | ByReaper | By(t: ThreadId)

  datatype State = State(
    queue: seq<PendingKill>,
    log: seq<PendingKill>,
    reaped: seq<Reaped>,
    now: int,
    lock: Lock,
    reaper: ReaperPc,
    threads: map<ThreadId, Pc>
  )

  datatype Event =
    | Tick(d: nat)
    | CallKill(t: ThreadId, pid: nat, thenWait: bool)
    | CallWait(t: ThreadId)
    | KillLock(t: ThreadId)
    | KillPush(t: ThreadId)
    | KillNotify(t: ThreadId)
    | WaitLock(t: ThreadId)
    | WaitCheck(t: ThreadId)
    | WaitSpurious(t: ThreadId)
    | ReaperLock
    | ReaperCheck
    | ReaperDecide
    | ReaperNotify
    | ReaperTimeout
    | ReaperSpurious

  /** The reaper thread starts by taking the lock on an empty queue. */
  function Init(): State {
    State([], [], [], 0, Free, Waking, map[])
  }

  function At(s: State, t: ThreadId): Pc {
    if t in s.threads then s.threads[t] else KillDone
  }

  predicate Enabled(s: State, e: Event) {
    match e
    case Tick(_) => true
    case CallKill(t, _, _) => t !in s.threads
    case CallWait(t) => t !in s.threads
    case KillLock(t) => At(s, t).KillCall? && s.lock.Free?
    case KillPush(t) => At(s, t).KillLocked?
    case KillNotify(t) => At(s, t).KillPushed?
    case WaitLock(t) => (At(s, t).WaitCall? || At(s, t).WaitWoken?) && s.lock.Free?
    case WaitCheck(t) => At(s, t).WaitLocked?
    case WaitSpurious(t) => At(s, t).Waiting?
    case ReaperLock => s.reaper.Waking? && s.lock.Free?
    case ReaperCheck => s.reaper.AtTop?
    case ReaperDecide => s.reaper.Measured? && s.queue != []
    case ReaperNotify => s.reaper.Passed?
    case ReaperTimeout => s.reaper.Sleeping? && s.reaper.until.Some? && s.reaper.until.value <= s.now
    case ReaperSpurious => s.reaper.Sleeping?
  }

  function Woken(pc: Pc): Pc {
    if pc.Waiting? then WaitWoken(pc.mark, pc.own) else pc
  }

  /** `notify_all` on the condition variable. */
  function NotifyAll(s: State): State {
    s.(threads := map t | t in s.threads :: Woken(s.threads[t]),
       reaper := if s.reaper.Sleeping? then Waking else s.reaper)
  }

  function ReapAt(kills: seq<PendingKill>, now: int): seq<Reaped> {
    seq(|kills|, i requires 0 <= i < |kills| => Reaped(kills[i], now))
  }

  function Apply(s: State, e: Event): State
    requires Enabled(s, e)
  {
    match e
    case Tick(d) => s.(now := s.now + d)
    case CallKill(t, pid, thenWait) => s.(threads := s.threads[t := KillCall(pid, thenWait)])
    case CallWait(t) => s.(threads := s.threads[t := WaitCall(|s.log|, None)])
    case KillLock(t) =>
      s.(lock := By(t), threads := s.threads[t := KillLocked(At(s, t).pid, At(s, t).thenWait)])
    case KillPush(t) =>
      var kill := PendingKill(At(s, t).pid, s.now);
      s.(queue := s.queue + [kill], log := s.log + [kill], lock := Free,
         threads := s.threads[t := KillPushed(Own(At(s, t).pid, |s.log|), At(s, t).thenWait)])
    case KillNotify(t) =>
      var s' := NotifyAll(s);
      s'.(threads := s'.threads[t := if At(s, t).thenWait then WaitCall(|s.log|, Some(At(s, t).kill)) else KillDone])
    case WaitLock(t) =>
      s.(lock := By(t), threads := s.threads[t := WaitLocked(At(s, t).mark, At(s, t).own)])
    case WaitCheck(t) =>
      s.(lock := Free,
         threads := s.threads[t := if s.queue == [] then WaitDone(At(s, t).mark, At(s, t).own)
                                   else Waiting(At(s, t).mark, At(s, t).own)])
    case WaitSpurious(t) => s.(threads := s.threads[t := WaitWoken(At(s, t).mark, At(s, t).own)])
    case ReaperLock => s.(lock := ByReaper, reaper := AtTop)
    case ReaperCheck =>
      if s.queue == [] then s.(lock := Free, reaper := Sleeping(None))
      else s.(reaper := Measured(s.now))
    case ReaperDecide =>
      var deadline := NextDeadline(s.queue);
      if s.reaper.now < deadline then
        s.(lock := Free, reaper := Sleeping(Some(s.now + (deadline - s.reaper.now))))
      else
        s.(queue := Unexpired(s.queue, s.reaper.now),
           reaped := s.reaped + ReapAt(Expired(s.queue, s.reaper.now), s.now),
           reaper := Passed)
    case ReaperNotify =>
      var s' := if s.queue == [] then NotifyAll(s) else s;
      s'.(reaper := AtTop)
    case ReaperTimeout => s.(reaper := Waking)
    case ReaperSpurious => s.(reaper := Waking)
  }

  predicate Feasible(s: State, events: seq<Event>)
    decreases |events|
  {
    events == [] || (Enabled(s, events[0]) && Feasible(Apply(s, events[0]), events[1..]))
  }

  function Exec(s: State, events: seq<Event>): State
    requires Feasible(s, events)
    decreases |events|
  {
    if events == [] then s else Exec(Apply(s, events[0]), events[1..])
  }

  function Kills(reaped: seq<Reaped>): seq<PendingKill> {
    seq(|reaped|, i requires 0 <= i < |reaped| => reaped[i].kill)
  }

  // ----- what every step keeps

  predicate Holds(pc: Pc) {
    pc.KillLocked? || pc.WaitLocked?
  }

  predicate ReaperHolds(pc: ReaperPc) {
    pc.AtTop? || pc.Measured? || pc.Passed?
  }

  /** Mutual exclusion: who is in a critical section is who owns the lock. */
  ghost predicate LockInv(s: State) {
    && (ReaperHolds(s.reaper) <==> s.lock == ByReaper)
    && (forall t :: Holds(At(s, t)) <==> s.lock == By(t))
  }

  /** Time stamps lie in the past, and every forced kill waited out its grace period. */
  ghost predicate TimeInv(s: State) {
    && (forall e <- s.queue :: e.enqueuedAt <= s.now)
    && (s.reaper.Measured? ==> s.reaper.now <= s.now)
    && (forall r <- s.reaped :: Deadline(r.kill) <= r.at <= s.now)
  }

  ghost predicate SomeoneWillNotify(s: State) {
    exists t :: At(s, t).KillPushed?
  }

  /**
   * The reaper never sleeps on work it does not know of: an untimed sleep over
   * a non-empty queue means a killer is about to notify, and a timed sleep ends
   * when an entry has expired.
   */
  ghost predicate SleepInv(s: State) {
    && (s.reaper.Measured? ==> s.queue != [])
    && (s.reaper.Sleeping? && s.reaper.until.None? && s.queue != [] ==> SomeoneWillNotify(s))
    && (s.reaper.Sleeping? && s.reaper.until.Some? ==> s.queue != [] && NextDeadline(s.queue) <= s.reaper.until.value)
  }

  /** A waiter sleeps only while the queue is non-empty, or the reaper is about to notify. */
  ghost predicate WaiterInv(s: State) {
    forall t :: At(s, t).Waiting? ==> s.queue != [] || s.reaper.Passed?
  }

  /** Every enqueued kill is queued or reaped, with multiplicity. */
  ghost predicate ConservationInv(s: State) {
    multiset(s.log) == multiset(s.queue) + multiset(Kills(s.reaped))
  }

  predicate HasMark(pc: Pc) {
    pc.WaitCall? || pc.WaitLocked? || pc.Waiting? || pc.WaitWoken? || pc.WaitDone?
  }

  /** The kill is among the first `n` enqueued ones, in its place. */
  predicate Enqueued(log: seq<PendingKill>, n: nat, own: Own) {
    own.index < n <= |log| && log[own.index].pid == own.pid
  }

  /** A mark points into the log, and behind a terminating caller's own kill. */
  predicate Marked(log: seq<PendingKill>, pc: Pc) {
    && (pc.KillPushed? ==> Enqueued(log, |log|, pc.kill))
    && (HasMark(pc) ==> pc.mark <= |log| && (pc.own.Some? ==> Enqueued(log, pc.mark, pc.own.value)))
  }

  ghost predicate MarkInv(s: State) {
    forall t :: Marked(s.log, At(s, t))
  }

  /** A finished wait saw everything enqueued before its call reaped. */
  ghost predicate Cleared(s: State, pc: Pc) {
    pc.WaitDone? ==> pc.mark <= |s.log| && multiset(s.log[..pc.mark]) <= multiset(Kills(s.reaped))
  }

  ghost predicate BarrierInv(s: State) {
    forall t :: Cleared(s, At(s, t))
  }

  ghost predicate Inv(s: State) {
    LockInv(s) && TimeInv(s) && SleepInv(s) && WaiterInv(s) && ConservationInv(s) && MarkInv(s) && BarrierInv(s)
  }

  lemma NotifyAt(s: State)
    ensures forall t :: At(NotifyAll(s), t) == Woken(At(s, t))
  {
  }

  lemma LockStep(s: State, e: Event)
    requires LockInv(s) && Enabled(s, e)
    ensures LockInv(Apply(s, e))
  {
    NotifyAt(s);
    var s' := Apply(s, e);
    forall t ensures Holds(At(s', t)) <==> s'.lock == By(t) {
      assert Holds(At(s, t)) <==> s.lock == By(t);
    }
  }

  lemma KillsAppend(reaped: seq<Reaped>, kills: seq<PendingKill>, now: int)
    ensures Kills(reaped + ReapAt(kills, now)) == Kills(reaped) + kills
  {
  }

  lemma TimeStep(s: State, e: Event)
    requires TimeInv(s) && Enabled(s, e)
    ensures TimeInv(Apply(s, e))
  {
    if e.ReaperDecide? && NextDeadline(s.queue) <= s.reaper.now {
      PassSplits(s.queue, s.reaper.now);
    }
  }

  lemma SleepStep(s: State, e: Event)
    requires TimeInv(s) && SleepInv(s) && LockInv(s) && Enabled(s, e)
    ensures SleepInv(Apply(s, e))
  {
    var s' := Apply(s, e);
    NotifyAt(s);
    if e.KillPush? {
      assert At(s', e.t).KillPushed?;
      if s.queue != [] {
        PushKeepsDeadline(s.queue, PendingKill(At(s, e.t).pid, s.now));
      }
    } else if SomeoneWillNotify(s) && !e.KillNotify? {
      var t :| At(s, t).KillPushed?;
      assert At(s', t).KillPushed?;
    }
  }

  lemma WaiterStep(s: State, e: Event)
    requires WaiterInv(s) && LockInv(s) && SleepInv(s) && Enabled(s, e)
    ensures WaiterInv(Apply(s, e))
  {
    NotifyAt(s);
    var s' := Apply(s, e);
    forall t | At(s', t).Waiting? ensures s'.queue != [] || s'.reaper.Passed? {
      if e.ReaperNotify? {
        assert At(s, t).Waiting?;
      } else if !e.WaitCheck? || e.t != t {
        assert At(s, t).Waiting?;
      }
    }
  }

  lemma ConservationStep(s: State, e: Event)
    requires ConservationInv(s) && Enabled(s, e)
    ensures ConservationInv(Apply(s, e))
  {
    if e.ReaperDecide? && NextDeadline(s.queue) <= s.reaper.now {
      PassSplits(s.queue, s.reaper.now);
      KillsAppend(s.reaped, Expired(s.queue, s.reaper.now), s.now);
    }
  }

  lemma PrefixBelow(log: seq<PendingKill>, n: nat)
    requires n <= |log|
    ensures multiset(log[..n]) <= multiset(log)
  {
    assert log == log[..n] + log[n..];
  }

  lemma MarkStep(s: State, e: Event)
    requires MarkInv(s) && Enabled(s, e)
    ensures MarkInv(Apply(s, e))
  {
    NotifyAt(s);
    var s' := Apply(s, e);
    forall t ensures Marked(s'.log, At(s', t)) {
      assert Marked(s.log, At(s, t));
    }
  }

  /** What was reaped stays reaped, and what was enqueued stays in its place. */
  lemma RecordsGrow(s: State, e: Event)
    requires Enabled(s, e)
    ensures s.log <= Apply(s, e).log
    ensures multiset(Kills(s.reaped)) <= multiset(Kills(Apply(s, e).reaped))
  {
    if e.ReaperDecide? && NextDeadline(s.queue) <= s.reaper.now {
      KillsAppend(s.reaped, Expired(s.queue, s.reaper.now), s.now);
    }
  }

  lemma BarrierThread(s: State, e: Event, t: ThreadId)
    requires Cleared(s, At(s, t)) && Marked(s.log, At(s, t)) && ConservationInv(s) && Enabled(s, e)
    ensures Cleared(Apply(s, e), At(Apply(s, e), t))
  {
    NotifyAt(s);
    RecordsGrow(s, e);
    var s' := Apply(s, e);
    if At(s', t).WaitDone? {
      var mark := At(s', t).mark;
      assert HasMark(At(s, t)) && At(s, t).mark == mark;
      assert s'.log[..mark] == s.log[..mark];
      if !At(s, t).WaitDone? {
        PrefixBelow(s.log, mark);
      }
    }
  }

  lemma BarrierStep(s: State, e: Event)
    requires BarrierInv(s) && MarkInv(s) && ConservationInv(s) && Enabled(s, e)
    ensures BarrierInv(Apply(s, e))
  {
    forall t ensures Cleared(Apply(s, e), At(Apply(s, e), t)) {
      BarrierThread(s, e, t);
    }
  }

  lemma Preserved(s: State, e: Event)
    requires Inv(s) && Enabled(s, e)
    ensures Inv(Apply(s, e))
  {
    LockStep(s, e);
    TimeStep(s, e);
    SleepStep(s, e);
    WaiterStep(s, e);
    ConservationStep(s, e);
    MarkStep(s, e);
    BarrierStep(s, e);
  }

  lemma {:induction false} PreservedByRun(s: State, events: seq<Event>)
    requires Inv(s) && Feasible(s, events)
    ensures Inv(Exec(s, events))
    decreases |events|
  {
    if events != [] {
      Preserved(s, events[0]);
      PreservedByRun(Apply(s, events[0]), events[1..]);
    }
  }

  ghost predicate Reachable(s: State) {
    exists events :: Feasible(Init(), events) && Exec(Init(), events) == s
  }

  lemma ReachableInv(s: State)
    requires Reachable(s)
    ensures Inv(s)
  {
    var events :| Feasible(Init(), events) && Exec(Init(), events) == s;
    assert Kills([]) == [];
    PreservedByRun(Init(), events);
  }

  /**
   * No lost wake-up in any interleaving: an untimed sleep of the reaper over a
   * non-empty queue has a killer about to notify, and when nobody holds the
   * lock and the queue is empty no waiter is left sleeping un-notified.
   */
  lemma NoLostWakeUp(s: State)
    requires Reachable(s)
    ensures s.reaper.Sleeping? && s.reaper.until.None? && s.queue != [] ==> exists t :: At(s, t).KillPushed?
    ensures s.lock.Free? && s.queue == [] ==> forall t :: !At(s, t).Waiting?
    ensures s.reaper.Sleeping? && s.reaper.until.Some? && s.reaper.until.value <= s.now ==>
      s.queue != [] && NextDeadline(s.queue) <= s.now
  {
    ReachableInv(s);
  }

  /** Every enqueued kill is queued or reaped exactly once, and none was forced before its grace period ended. */
  lemma KillsConserved(s: State)
    requires Reachable(s)
    ensures multiset(s.log) == multiset(s.queue) + multiset(Kills(s.reaped))
    ensures forall r <- s.reaped :: r.kill.enqueuedAt + GRACE_PERIOD <= r.at <= s.now
  {
    ReachableInv(s);
  }

  /** When a wait returns, every kill enqueued before it was called has been reaped. */
  lemma WaitIsBarrier(s: State, t: ThreadId)
    requires Reachable(s) && At(s, t).WaitDone?
    ensures At(s, t).mark <= |s.log|
    ensures multiset(s.log[..At(s, t).mark]) <= multiset(Kills(s.reaped))
  {
    ReachableInv(s);
    assert Cleared(s, At(s, t));
  }

  /**
   * When `terminate` returns, the very kill it enqueued has been carried out and
   * waited for, also when an older kill has the same pid.
   */
  lemma TerminateReaps(s: State, t: ThreadId)
    requires Reachable(s) && At(s, t).WaitDone? && At(s, t).own.Some?
    ensures var own := At(s, t).own.value;
      && own.index < |s.log| && s.log[own.index].pid == own.pid
      && multiset(s.log[..own.index + 1]) <= multiset(Kills(s.reaped))
      && exists r <- s.reaped :: r.kill == s.log[own.index]
  {
    ReachableInv(s);
    var own, mark := At(s, t).own.value, At(s, t).mark;
    assert Marked(s.log, At(s, t)) && Cleared(s, At(s, t));
    var prefix := s.log[..mark];
    PrefixBelow(prefix, own.index + 1);
    assert prefix[..own.index + 1] == s.log[..own.index + 1];
    assert prefix[own.index] == s.log[own.index] && prefix[own.index] in multiset(prefix);
    var j :| 0 <= j < |Kills(s.reaped)| && Kills(s.reaped)[j] == s.log[own.index];
    assert s.reaped[j] in s.reaped;
  }
}
