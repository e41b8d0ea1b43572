/**
 * Endless runs with spurious wake-ups. When no more calls come in, every run in
 * which the clock goes on and no thread is starved drains, however often the
 * reaper and the waiters are woken for nothing.
 */
module ReaperFairness {
  import opened Options
  import opened ReaperQueue
  import opened ReaperProtocol
  import opened ReaperProgress
  import opened ReaperLiveness

  ghost predicate Goes(b: Behaviour, i: nat) {
    && Enabled(b.state(i), b.step(i)) && b.state(i + 1) == Apply(b.state(i), b.step(i))
    && !b.step(i).CallKill? && !b.step(i).CallWait?
  }

  /** From a reachable state on, anything but new calls. */
  ghost predicate CalmRun(b: Behaviour) {
    Reachable(b.state(0)) && forall i: nat :: Goes(b, i)
  }

  ghost predicate EnabledFrom(b: Behaviour, e: Event, i: nat) {
    exists j: nat :: i <= j && Enabled(b.state(j), e)
  }

  ghost predicate TakenFrom(b: Behaviour, e: Event, i: nat) {
    exists j: nat :: i <= j && b.step(j) == e
  }

  /** A step that is possible again and again is taken again and again. */
  ghost predicate FairTo(b: Behaviour, e: Event) {
    (forall i: nat :: EnabledFrom(b, e, i)) ==> forall i: nat :: TakenFrom(b, e, i)
  }

  /** The clock passes every time, and nobody is starved, not even of the lock. */
  ghost predicate NobodyStarves(b: Behaviour) {
    (forall i: nat, time: int :: Reaches(b, i, time)) && forall e | Internal(e) :: FairTo(b, e)
  }

  lemma {:induction false} CalmInv(b: Behaviour, i: nat)
    requires CalmRun(b)
    ensures Inv(b.state(i))
  {
    if i == 0 {
      ReachableInv(b.state(0));
    } else {
      CalmInv(b, i - 1);
      assert Goes(b, i - 1);
      Preserved(b.state(i - 1), b.step(i - 1));
    }
  }

  // ----- what has to happen happens

  /** The condition stays until the event. */
  ghost predicate Until(b: Behaviour, p: State -> bool, e: Event, k: nat) {
    p(b.state(k)) && b.step(k) != e ==> p(b.state(k + 1))
  }

  /** Either the condition still holds, or the event came in between, while it held. */
  lemma {:induction false} HoldsOrTaken(b: Behaviour, p: State -> bool, e: Event, k: nat, j: nat)
    requires k <= j && p(b.state(k)) && forall i: nat | k <= i :: Until(b, p, e, i)
    ensures p(b.state(j)) || exists i: nat :: k <= i < j && b.step(i) == e && p(b.state(i))
    decreases j
  {
    if k < j {
      HoldsOrTaken(b, p, e, k, j - 1);
      assert Until(b, p, e, j - 1);
    }
  }

  lemma EventuallyTaken(b: Behaviour, e: Event, m: nat)
    requires NobodyStarves(b) && Internal(e) && forall k: nat | m <= k :: EnabledFrom(b, e, k)
    ensures TakenFrom(b, e, m)
  {
    forall i: nat ensures EnabledFrom(b, e, i) {
      assert EnabledFrom(b, e, if i < m then m else i);
    }
    assert FairTo(b, e);
  }

  lemma WillBeTaken(b: Behaviour, p: State -> bool, e: Event, m: nat)
    requires NobodyStarves(b) && Internal(e)
    requires p(b.state(m)) && forall k: nat | m <= k :: Until(b, p, e, k)
    requires forall k: nat | m <= k && p(b.state(k)) :: EnabledFrom(b, e, k)
    ensures TakenFrom(b, e, m)
  {
    if !TakenFrom(b, e, m) {
      forall k: nat | m <= k ensures EnabledFrom(b, e, k) {
        HoldsOrTaken(b, p, e, m, k);
      }
      EventuallyTaken(b, e, m);
    }
  }

  /** A condition that stays until an event, and keeps it possible again and again, leads to the event. */
  lemma LeadsTo(b: Behaviour, p: State -> bool, e: Event, m: nat) returns (j: nat)
    requires NobodyStarves(b) && Internal(e)
    requires p(b.state(m)) && forall k: nat | m <= k :: Until(b, p, e, k)
    requires forall k: nat | m <= k && p(b.state(k)) :: EnabledFrom(b, e, k)
    ensures m <= j && b.step(j) == e && p(b.state(j))
  {
    WillBeTaken(b, p, e, m);
    j :| m <= j && b.step(j) == e;
    HoldsOrTaken(b, p, e, m, j);
    if !p(b.state(j)) {
      j :| m <= j && b.step(j) == e && p(b.state(j));
    }
  }

  /** The same for a condition that makes the event possible outright. */
  lemma LeadsStraightTo(b: Behaviour, p: State -> bool, e: Event, m: nat) returns (j: nat)
    requires NobodyStarves(b) && Internal(e)
    requires p(b.state(m)) && forall k: nat | m <= k :: Until(b, p, e, k)
    requires forall k: nat | m <= k && p(b.state(k)) :: Enabled(b.state(k), e)
    ensures m <= j && b.step(j) == e && p(b.state(j))
  {
    forall k: nat | m <= k && p(b.state(k)) ensures EnabledFrom(b, e, k) {
      assert Enabled(b.state(k), e);
    }
    j := LeadsTo(b, p, e, m);
  }

  // ----- the work left, which spurious wake-ups do not raise

  function Waiters(s: State): set<ThreadId> {
    set t | t in s.threads && HasMark(s.threads[t]) && !s.threads[t].WaitDone?
  }

  /** Work left: callers, pushers, notifiers, the queue, and waits that have not returned. */
  function Todo(s: State): Rank {
    Rank(|Callers(s)|, |Pushers(s)|, |Notifiers(s)|, QueueWork(s), |Waiters(s)|, 0, 0)
  }

  /** Steps that get work done. */
  predicate Works(s: State, e: Event) {
    match e
    case KillLock(_) => true
    case KillPush(_) => true
    case KillNotify(_) => true
    case ReaperNotify => true
    case ReaperDecide => s.reaper.Measured? && s.queue != [] && NextDeadline(s.queue) <= s.reaper.now
    case WaitCheck(_) => s.queue == []
    case _ => false
  }

  lemma KillWorks(s: State, e: Event)
    requires Inv(s) && Enabled(s, e) && (e.KillLock? || e.KillPush? || e.KillNotify?)
    ensures ReaperProgress.Below(Todo(Apply(s, e)), Todo(s))
  {
    if e.KillLock? {
      KillLockSets(s, e);
    } else if e.KillPush? {
      KillPushSets(s, e);
    } else {
      KillNotifySets(s, e);
    }
  }

  lemma WaitWorks(s: State, e: Event)
    requires Inv(s) && Enabled(s, e) && (e.WaitLock? || e.WaitCheck? || e.WaitSpurious?)
    ensures if Works(s, e) then ReaperProgress.Below(Todo(Apply(s, e)), Todo(s)) else Todo(Apply(s, e)) == Todo(s)
  {
    var s' := Apply(s, e);
    assert Callers(s') == Callers(s) && Pushers(s') == Pushers(s) && Notifiers(s') == Notifiers(s);
    assert Waiters(s') == if Works(s, e) then Waiters(s) - {e.t} else Waiters(s);
  }

  lemma ReaperWorks(s: State, e: Event)
    requires Inv(s) && Enabled(s, e)
    requires e.Tick? || e.ReaperLock? || e.ReaperCheck? || e.ReaperDecide? || e.ReaperTimeout? || e.ReaperSpurious?
    ensures if Works(s, e) then ReaperProgress.Below(Todo(Apply(s, e)), Todo(s)) else Todo(Apply(s, e)) == Todo(s)
  {
    var s' := Apply(s, e);
    assert s'.threads == s.threads;
    assert Callers(s') == Callers(s) && Pushers(s') == Pushers(s) && Notifiers(s') == Notifiers(s);
    assert Waiters(s') == Waiters(s);
    if Works(s, e) {
      PassShrinks(s.queue, s.reaper.now);
    }
  }

  lemma NotifyWorks(s: State)
    requires Inv(s) && Enabled(s, ReaperNotify)
    ensures ReaperProgress.Below(Todo(Apply(s, ReaperNotify)), Todo(s))
  {
    var s' := Apply(s, ReaperNotify);
    assert Callers(s') == Callers(s) && Pushers(s') == Pushers(s) && Notifiers(s') == Notifiers(s);
  }

  lemma StepWorks(b: Behaviour, i: nat)
    requires CalmRun(b)
    ensures AtMost(Todo(b.state(i + 1)), Todo(b.state(i)))
    ensures Works(b.state(i), b.step(i)) ==> ReaperProgress.Below(Todo(b.state(i + 1)), Todo(b.state(i)))
  {
    CalmInv(b, i);
    assert Goes(b, i);
    var s, e := b.state(i), b.step(i);
    if e.KillLock? || e.KillPush? || e.KillNotify? {
      KillWorks(s, e);
    } else if e.WaitLock? || e.WaitCheck? || e.WaitSpurious? {
      WaitWorks(s, e);
    } else if e.ReaperNotify? {
      NotifyWorks(s);
    } else {
      ReaperWorks(s, e);
    }
  }

  lemma TodoFalls(b: Behaviour, i: nat, j: nat)
    requires CalmRun(b) && i <= j
    ensures AtMost(Todo(b.state(j)), Todo(b.state(i)))
  {
    var rank := (k: nat) => Todo(b.state(k));
    forall k: nat ensures Falls(rank, k) {
      StepWorks(b, k);
    }
    Descends(rank, i, j);
  }

  /** From `n` on no work gets done. */
  ghost predicate Idle(b: Behaviour, n: nat) {
    forall j: nat | n <= j :: !Works(b.state(j), b.step(j))
  }

  /** Work runs out. */
  lemma {:induction false} IdleFrom(b: Behaviour, i: nat, r: Rank) returns (n: nat)
    requires CalmRun(b) && r == Todo(b.state(i))
    ensures Idle(b, n)
    decreases r.callers, r.pushers, r.notifiers, r.queue, r.lockers
  {
    if j: nat :| i <= j && Works(b.state(j), b.step(j)) {
      TodoFalls(b, i, j);
      StepWorks(b, j);
      BelowTransitive(Todo(b.state(j + 1)), Todo(b.state(j)), r);
      n := IdleFrom(b, j + 1, Todo(b.state(j + 1)));
    } else {
      n := i;
    }
  }

  // ----- an idle run has nothing left to do

  /** A thread stays where it is until its own step or a notification. */
  lemma ThreadStays(s: State, e: Event, t: ThreadId)
    requires Enabled(s, e) && !e.CallKill? && !e.CallWait?
    ensures At(s, t).KillLocked? && e != KillPush(t) ==> At(Apply(s, e), t) == At(s, t)
    ensures At(s, t).KillPushed? && e != KillNotify(t) ==> At(Apply(s, e), t) == At(s, t)
    ensures At(s, t).KillCall? && e != KillLock(t) ==> At(Apply(s, e), t) == At(s, t)
    ensures At(s, t).WaitLocked? && e != WaitCheck(t) ==> At(Apply(s, e), t) == At(s, t)
    ensures (At(s, t).WaitCall? || At(s, t).WaitWoken?) && e != WaitLock(t) ==> At(Apply(s, e), t) == At(s, t)
  {
    NotifyAt(s);
  }

  lemma NobodyPushes(b: Behaviour, n: nat, t: ThreadId)
    requires CalmRun(b) && NobodyStarves(b) && Idle(b, n)
    ensures !At(b.state(n), t).KillLocked?
  {
    if At(b.state(n), t).KillLocked? {
      var p := (s: State) => At(s, t).KillLocked?;
      forall k: nat | n <= k ensures Until(b, p, KillPush(t), k) {
        assert Goes(b, k);
        ThreadStays(b.state(k), b.step(k), t);
      }
      var j := LeadsStraightTo(b, p, KillPush(t), n);
    }
  }

  lemma NobodyNotifies(b: Behaviour, n: nat, t: ThreadId)
    requires CalmRun(b) && NobodyStarves(b) && Idle(b, n)
    ensures !At(b.state(n), t).KillPushed?
  {
    if At(b.state(n), t).KillPushed? {
      var p := (s: State) => At(s, t).KillPushed?;
      forall k: nat | n <= k ensures Until(b, p, KillNotify(t), k) {
        assert Goes(b, k);
        ThreadStays(b.state(k), b.step(k), t);
      }
      var j := LeadsStraightTo(b, p, KillNotify(t), n);
    }
  }

  lemma NeverPassed(b: Behaviour, n: nat)
    requires CalmRun(b) && NobodyStarves(b) && Idle(b, n)
    ensures !b.state(n).reaper.Passed?
  {
    if b.state(n).reaper.Passed? {
      var p := (s: State) => s.reaper.Passed?;
      forall k: nat | n <= k ensures Until(b, p, ReaperNotify, k) {
        assert Goes(b, k);
      }
      var j := LeadsStraightTo(b, p, ReaperNotify, n);
    }
  }

  /** A waiter in its critical section leaves it. */
  lemma CheckerLeaves(b: Behaviour, n: nat, t: ThreadId) returns (j: nat)
    requires CalmRun(b) && NobodyStarves(b) && At(b.state(n), t).WaitLocked?
    ensures n <= j && b.step(j) == WaitCheck(t) && At(b.state(j), t).WaitLocked?
  {
    var p := (s: State) => At(s, t).WaitLocked?;
    forall k: nat | n <= k ensures Until(b, p, WaitCheck(t), k) {
      assert Goes(b, k);
      ThreadStays(b.state(k), b.step(k), t);
    }
    j := LeadsStraightTo(b, p, WaitCheck(t), n);
  }

  /** So does the reaper: from the top of its loop it checks the queue. */
  lemma TopChecks(b: Behaviour, n: nat) returns (j: nat)
    requires CalmRun(b) && NobodyStarves(b) && b.state(n).reaper.AtTop?
    ensures n <= j && b.step(j) == ReaperCheck && b.state(j).reaper.AtTop?
  {
    var p := (s: State) => s.reaper.AtTop?;
    forall k: nat | n <= k ensures Until(b, p, ReaperCheck, k) {
      assert Goes(b, k);
    }
    j := LeadsStraightTo(b, p, ReaperCheck, n);
  }

  /** And from a measured time it decides. */
  lemma MeasuredDecides(b: Behaviour, n: nat) returns (j: nat)
    requires CalmRun(b) && NobodyStarves(b) && b.state(n).reaper.Measured?
    ensures n <= j && b.step(j) == ReaperDecide && b.state(j).reaper == b.state(n).reaper
  {
    var at := b.state(n).reaper;
    var p := (s: State) => s.reaper == at;
    forall k: nat | n <= k ensures Until(b, p, ReaperDecide, k) {
      assert Goes(b, k);
    }
    forall k: nat | n <= k && p(b.state(k)) ensures Enabled(b.state(k), ReaperDecide) {
      CalmInv(b, k);
    }
    j := LeadsStraightTo(b, p, ReaperDecide, n);
  }

  /** In an idle run a decision is to sleep, which frees the lock. */
  lemma DecidesToSleep(b: Behaviour, n: nat) returns (j: nat)
    requires CalmRun(b) && NobodyStarves(b) && Idle(b, n) && b.state(n).reaper.Measured?
    ensures n < j && b.state(j).lock.Free? && b.state(j).reaper.Sleeping?
  {
    var k := MeasuredDecides(b, n);
    assert Goes(b, k) && !Works(b.state(k), b.step(k));
    j := k + 1;
  }

  /** The lock becomes free again and again. */
  lemma LockIsFreed(b: Behaviour, n: nat) returns (j: nat)
    requires CalmRun(b) && NobodyStarves(b) && Idle(b, n)
    ensures n <= j && b.state(j).lock.Free?
  {
    CalmInv(b, n);
    var s := b.state(n);
    match s.lock {
      case Free => j := n;
      case By(t) =>
        NobodyPushes(b, n, t);
        assert Holds(At(s, t));
        var k := CheckerLeaves(b, n, t);
        assert Goes(b, k);
        j := k + 1;
      case ByReaper =>
        NeverPassed(b, n);
        if s.reaper.Measured? {
          j := DecidesToSleep(b, n);
        } else {
          var k := TopChecks(b, n);
          assert Goes(b, k);
          j := k + 1;
          if !b.state(j).lock.Free? {
            j := DecidesToSleep(b, j);
          }
        }
    }
  }

  /** Who waits for the lock, and leaves only by taking it, takes it. */
  lemma GetsLock(b: Behaviour, n: nat, p: State -> bool, e: Event) returns (j: nat)
    requires CalmRun(b) && NobodyStarves(b) && Idle(b, n) && Internal(e)
    requires p(b.state(n)) && forall k: nat | n <= k :: Until(b, p, e, k)
    requires forall k: nat | n <= k && p(b.state(k)) && b.state(k).lock.Free? :: Enabled(b.state(k), e)
    ensures n <= j && b.step(j) == e && p(b.state(j))
  {
    forall k: nat | n <= k && p(b.state(k)) ensures EnabledFrom(b, e, k) {
      var i := LockIsFreed(b, k);
      HoldsOrTaken(b, p, e, k, i);
      if p(b.state(i)) {
        assert Enabled(b.state(i), e);
      } else {
        var l: nat :| k <= l < i && b.step(l) == e && p(b.state(l));
        assert Goes(b, l);
      }
    }
    j := LeadsTo(b, p, e, n);
  }

  lemma NobodyCalls(b: Behaviour, n: nat, t: ThreadId)
    requires CalmRun(b) && NobodyStarves(b) && Idle(b, n)
    ensures !At(b.state(n), t).KillCall?
  {
    if At(b.state(n), t).KillCall? {
      var p := (s: State) => At(s, t).KillCall?;
      forall k: nat | n <= k ensures Until(b, p, KillLock(t), k) {
        assert Goes(b, k);
        ThreadStays(b.state(k), b.step(k), t);
      }
      var j := GetsLock(b, n, p, KillLock(t));
    }
  }

  // ----- the queue of an idle run is empty

  lemma {:induction false} QueueStays(b: Behaviour, n: nat, j: nat)
    requires CalmRun(b) && Idle(b, n) && n <= j
    ensures b.state(j).queue == b.state(n).queue && b.state(n).now <= b.state(j).now
    decreases j
  {
    if n < j {
      QueueStays(b, n, j - 1);
      assert Goes(b, j - 1) && !Works(b.state(j - 1), b.step(j - 1));
    }
  }

  /** The queue holds a kill that is due. */
  predicate Overdue(s: State) {
    s.queue != [] && NextDeadline(s.queue) <= s.now
  }

  lemma StaysOverdue(b: Behaviour, n: nat, j: nat)
    requires CalmRun(b) && Idle(b, n) && n <= j && Overdue(b.state(n))
    ensures Overdue(b.state(j))
  {
    QueueStays(b, n, j);
  }

  lemma NotAtTop(b: Behaviour, n: nat)
    requires CalmRun(b) && NobodyStarves(b) && Idle(b, n) && Overdue(b.state(n))
    ensures !b.state(n).reaper.AtTop?
  {
    if b.state(n).reaper.AtTop? {
      var k := TopChecks(b, n);
      StaysOverdue(b, n, k);
      assert Goes(b, k);
      var j := MeasuredDecides(b, k + 1);
      QueueStays(b, k, j);
    }
  }

  /** A waking reaper gets the lock. */
  lemma WakesUp(b: Behaviour, n: nat) returns (j: nat)
    requires CalmRun(b) && NobodyStarves(b) && Idle(b, n) && b.state(n).reaper.Waking?
    ensures n < j && b.state(j).reaper.AtTop?
  {
    var p := (s: State) => s.reaper.Waking?;
    forall k: nat | n <= k ensures Until(b, p, ReaperLock, k) {
      assert Goes(b, k);
    }
    var k := GetsLock(b, n, p, ReaperLock);
    assert Goes(b, k);
    j := k + 1;
  }

  lemma NotWaking(b: Behaviour, n: nat)
    requires CalmRun(b) && NobodyStarves(b) && Idle(b, n) && Overdue(b.state(n))
    ensures !b.state(n).reaper.Waking?
  {
    if b.state(n).reaper.Waking? {
      var j := WakesUp(b, n);
      StaysOverdue(b, n, j);
      NotAtTop(b, j);
    }
  }

  lemma {:induction false} SleepsOn(b: Behaviour, n: nat, j: nat)
    requires CalmRun(b) && NobodyStarves(b) && Idle(b, n) && Overdue(b.state(n)) && n <= j
    requires b.state(n).reaper.Sleeping?
    ensures b.state(j).reaper == b.state(n).reaper
    decreases j
  {
    if n < j {
      SleepsOn(b, n, j - 1);
      assert Goes(b, j - 1) && !Works(b.state(j - 1), b.step(j - 1));
      StaysOverdue(b, n, j);
      NotWaking(b, j);
    }
  }

  ghost predicate SleepsForever(b: Behaviour, n: nat) {
    forall k: nat | n <= k :: b.state(k).reaper == b.state(n).reaper
  }

  lemma TimeoutWakes(b: Behaviour, k: nat)
    requires CalmRun(b) && b.step(k) == ReaperTimeout
    ensures b.state(k + 1).reaper.Waking?
  {
    assert Goes(b, k);
  }

  /** A timed sleep ends, by its timeout if by nothing else. */
  lemma SleepEnds(b: Behaviour, n: nat)
    requires CalmRun(b) && NobodyStarves(b)
    requires b.state(n).reaper.Sleeping? && b.state(n).reaper.until.Some?
    ensures !SleepsForever(b, n)
  {
    if SleepsForever(b, n) {
      var time := b.state(n).reaper.until.value;
      assert Reaches(b, n, time);
      var m: nat :| n <= m && time <= b.state(m).now;
      forall k: nat | m <= k ensures EnabledFrom(b, ReaperTimeout, k) {
        ClockRuns(b, m, k);
        assert Enabled(b.state(k), ReaperTimeout);
      }
      EventuallyTaken(b, ReaperTimeout, m);
      var k: nat :| m <= k && b.step(k) == ReaperTimeout;
      TimeoutWakes(b, k);
    }
  }

  lemma {:induction false} ClockRuns(b: Behaviour, m: nat, k: nat)
    requires CalmRun(b) && m <= k
    ensures b.state(m).now <= b.state(k).now
    decreases k
  {
    if m < k {
      ClockRuns(b, m, k - 1);
      assert Goes(b, k - 1);
    }
  }

  lemma NotSleeping(b: Behaviour, n: nat)
    requires CalmRun(b) && NobodyStarves(b) && Idle(b, n) && Overdue(b.state(n))
    ensures !b.state(n).reaper.Sleeping?
  {
    var s := b.state(n);
    if s.reaper.Sleeping? {
      CalmInv(b, n);
      if s.reaper.until.None? {
        var t :| At(s, t).KillPushed?;
        NobodyNotifies(b, n, t);
      } else {
        SleepEnds(b, n);
        forall k: nat | n <= k ensures b.state(k).reaper == s.reaper {
          SleepsOn(b, n, k);
        }
      }
    }
  }

  lemma NotOverdue(b: Behaviour, n: nat)
    requires CalmRun(b) && NobodyStarves(b) && Idle(b, n)
    ensures !Overdue(b.state(n))
  {
    if Overdue(b.state(n)) {
      NotAtTop(b, n);
      NotWaking(b, n);
      NeverPassed(b, n);
      NotSleeping(b, n);
      var j := DecidesToSleep(b, n);
      StaysOverdue(b, n, j);
      NotSleeping(b, j);
    }
  }

  lemma QueueIsEmpty(b: Behaviour, n: nat)
    requires CalmRun(b) && NobodyStarves(b) && Idle(b, n)
    ensures b.state(n).queue == []
  {
    if b.state(n).queue != [] {
      var time := NextDeadline(b.state(n).queue);
      assert Reaches(b, n, time);
      var m: nat :| n <= m && time <= b.state(m).now;
      QueueStays(b, n, m);
      NotOverdue(b, m);
    }
  }

  // ----- so all waits have returned

  lemma NobodyChecks(b: Behaviour, n: nat, t: ThreadId)
    requires CalmRun(b) && NobodyStarves(b) && Idle(b, n)
    ensures !At(b.state(n), t).WaitLocked?
  {
    if At(b.state(n), t).WaitLocked? {
      var j := CheckerLeaves(b, n, t);
      QueueIsEmpty(b, j);
    }
  }

  lemma NobodyWaits(b: Behaviour, n: nat, t: ThreadId)
    requires CalmRun(b) && NobodyStarves(b) && Idle(b, n)
    ensures !At(b.state(n), t).WaitCall? && !At(b.state(n), t).WaitWoken? && !At(b.state(n), t).Waiting?
  {
    CalmInv(b, n);
    QueueIsEmpty(b, n);
    NeverPassed(b, n);
    assert !At(b.state(n), t).Waiting?;
    if At(b.state(n), t).WaitCall? || At(b.state(n), t).WaitWoken? {
      var p := (s: State) => At(s, t).WaitCall? || At(s, t).WaitWoken?;
      forall k: nat | n <= k ensures Until(b, p, WaitLock(t), k) {
        assert Goes(b, k);
        ThreadStays(b.state(k), b.step(k), t);
      }
      var j := GetsLock(b, n, p, WaitLock(t));
      assert Goes(b, j);
      NobodyChecks(b, j + 1, t);
    }
  }

  lemma IdleIsAtRest(b: Behaviour, n: nat)
    requires CalmRun(b) && NobodyStarves(b) && Idle(b, n)
    ensures AtRest(b.state(n))
  {
    QueueIsEmpty(b, n);
    var s := b.state(n);
    forall t | t in s.threads ensures s.threads[t].KillDone? || s.threads[t].WaitDone? {
      NobodyCalls(b, n, t);
      NobodyPushes(b, n, t);
      NobodyNotifies(b, n, t);
      NobodyChecks(b, n, t);
      NobodyWaits(b, n, t);
      assert At(s, t) == s.threads[t];
    }
  }

  /**
   * Every run without new calls in which nobody is starved reaches a state in
   * which every kill is reaped and every caller, barrier waits included, has
   * returned, and stays there, whatever spurious wake-ups it has.
   */
  lemma InevitableDespiteWakeUps(b: Behaviour)
    requires CalmRun(b) && NobodyStarves(b)
    ensures exists n: nat :: RestsFrom(b, n)
  {
    var n := IdleFrom(b, 0, Todo(b.state(0)));
    forall j: nat | n <= j ensures AtRest(b.state(j)) {
      assert Idle(b, j);
      IdleIsAtRest(b, j);
    }
    assert RestsFrom(b, n);
  }

  // ----- there are such runs

  /** An idle reaper that is woken for nothing once every tick, for ever. */
  function Restless(i: nat): State {
    State([], [], [], i / 4 + (if i % 4 == 3 then 1 else 0), if i % 4 == 1 then ByReaper else Free,
          if i % 4 == 0 then Waking else if i % 4 == 1 then AtTop else Sleeping(None), map[])
  }

  function RestlessStep(i: nat): Event {
    if i % 4 == 0 then ReaperLock
    else if i % 4 == 1 then ReaperCheck
    else if i % 4 == 2 then Tick(1)
    else ReaperSpurious
  }

  lemma RestlessGoes(b: Behaviour, i: nat)
    requires b == Behaviour(Restless, RestlessStep)
    ensures Goes(b, i)
  {
    assert (i + 1) % 4 == if i % 4 == 3 then 0 else i % 4 + 1;
    assert (i + 1) / 4 == if i % 4 == 3 then i / 4 + 1 else i / 4;
  }

  lemma RestlessOften(b: Behaviour, phase: nat, i: nat)
    requires b == Behaviour(Restless, RestlessStep) && phase < 4
    ensures TakenFrom(b, RestlessStep(phase), i)
  {
    var j := 4 * i + phase;
    assert j % 4 == phase && i <= j;
    assert b.step(j) == RestlessStep(phase);
  }

  lemma RestlessFair(b: Behaviour, e: Event)
    requires b == Behaviour(Restless, RestlessStep) && Internal(e)
    ensures FairTo(b, e)
  {
    if e.ReaperLock? {
      forall i: nat ensures TakenFrom(b, e, i) {
        RestlessOften(b, 0, i);
      }
    } else if e.ReaperCheck? {
      forall i: nat ensures TakenFrom(b, e, i) {
        RestlessOften(b, 1, i);
      }
    } else {
      assert forall j: nat :: !Enabled(b.state(j), e);
      assert !EnabledFrom(b, e, 0);
    }
  }

  /** Runs without calls that starve nobody exist, also with spurious wake-ups that never stop. */
  lemma FairRunsExist()
    ensures exists b :: CalmRun(b) && NobodyStarves(b) && forall i: nat :: TakenFrom(b, ReaperSpurious, i)
  {
    var b := Behaviour(Restless, RestlessStep);
    assert Feasible(Init(), []) && Exec(Init(), []) == b.state(0);
    forall i: nat ensures Goes(b, i) {
      RestlessGoes(b, i);
    }
    forall i: nat, time: int ensures Reaches(b, i, time) {
      var k: nat := if time < i then i else time;
      assert 4 * k % 4 == 0 && 4 * k / 4 == k;
      assert i <= 4 * k && time <= b.state(4 * k).now;
    }
    forall e | Internal(e) ensures FairTo(b, e) {
      RestlessFair(b, e);
    }
    forall i: nat ensures TakenFrom(b, ReaperSpurious, i) {
      RestlessOften(b, 3, i);
    }
    assert CalmRun(b) && NobodyStarves(b);
  }
}
