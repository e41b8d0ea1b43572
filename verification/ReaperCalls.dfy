/** Calls to the reaper, from the step that makes one to the states in which it has returned. */
module ReaperCalls {
  import opened Options
  import opened ReaperQueue
  import opened ReaperProtocol
  import opened ReaperProgress

  /** The call that a thread made is over. */
  predicate Returned(s: State, t: ThreadId) {
    t in s.threads && (s.threads[t].KillDone? || s.threads[t].WaitDone?)
  }

  lemma {:induction false} Splits(s: State, events: seq<Event>, i: nat)
    requires Feasible(s, events) && i <= |events|
    ensures Feasible(s, events[..i]) && Feasible(Exec(s, events[..i]), events[i..])
    ensures Exec(s, events) == Exec(Exec(s, events[..i]), events[i..])
    decreases i
  {
    if i == 0 {
      assert events[..i] == [] && events[i..] == events;
    } else {
      Splits(Apply(s, events[0]), events[1..], i - 1);
      assert events[..i][1..] == events[1..][..i - 1] && events[i..] == events[1..][i - 1..];
    }
  }

  lemma Later(s: State, events: seq<Event>, i: nat, j: nat)
    requires Feasible(s, events) && i <= j <= |events|
    ensures Feasible(s, events[..i]) && Feasible(s, events[..j])
    ensures Feasible(Exec(s, events[..i]), events[i..j])
    ensures Exec(s, events[..j]) == Exec(Exec(s, events[..i]), events[i..j])
  {
    Splits(s, events, j);
    Splits(s, events[..j], i);
    assert events[..j][..i] == events[..i] && events[..j][i..] == events[i..j];
  }

  // ----- the barrier

  /** The thread waits, or has waited, for a beginning of the log. */
  predicate WaitsFor(s: State, t: ThreadId, log: seq<PendingKill>) {
    t in s.threads && HasMark(s.threads[t]) && s.threads[t].mark == |log| && log <= s.log
  }

  lemma WaitsForStep(s: State, e: Event, t: ThreadId, log: seq<PendingKill>)
    requires Enabled(s, e) && WaitsFor(s, t, log)
    ensures WaitsFor(Apply(s, e), t, log)
  {
    NotifyAt(s);
    RecordsGrow(s, e);
  }

  lemma {:induction false} WaitsOn(s: State, events: seq<Event>, t: ThreadId, log: seq<PendingKill>)
    requires Feasible(s, events) && WaitsFor(s, t, log)
    ensures WaitsFor(Exec(s, events), t, log)
    decreases |events|
  {
    if events != [] {
      WaitsForStep(s, events[0], t, log);
      WaitsOn(Apply(s, events[0]), events[1..], t, log);
    }
  }

  /**
   * In every run: when a call of the barrier has returned, every kill that had
   * been enqueued when it was made has been reaped.
   */
  lemma BarrierHolds(events: seq<Event>, i: nat, j: nat, t: ThreadId)
    requires Feasible(Init(), events) && i < j <= |events| && events[i] == CallWait(t)
    ensures Feasible(Init(), events[..i]) && Feasible(Init(), events[..j])
    ensures var s, s' := Exec(Init(), events[..i]), Exec(Init(), events[..j]);
      Returned(s', t) ==> multiset(s.log) <= multiset(Kills(s'.reaped))
  {
    Later(Init(), events, i, j);
    var s, s', rest := Exec(Init(), events[..i]), Exec(Init(), events[..j]), events[i..j];
    assert rest[0] == CallWait(t);
    WaitsOn(Apply(s, rest[0]), rest[1..], t, s.log);
    ReachableInv(s');
    assert Cleared(s', At(s', t));
    assert s'.log[..|s.log|] == s.log;
  }

  // ----- kills

  /** An entry of the log for the pid, at or behind `from` and not before `since`. */
  predicate IsKill(log: seq<PendingKill>, k: nat, pid: nat, from: nat, since: int) {
    from <= k < |log| && log[k].pid == pid && since <= log[k].enqueuedAt
  }

  /** How far a call of `kill_process`, or of `terminate` if it then waits, has come. */
  ghost predicate Killing(s: State, t: ThreadId, call: Event, from: nat, since: int)
    requires call.CallKill?
  {
    && t in s.threads && from <= |s.log| && since <= s.now
    && match s.threads[t]
       case KillCall(pid, thenWait) => pid == call.pid && thenWait == call.thenWait
       case KillLocked(pid, thenWait) => pid == call.pid && thenWait == call.thenWait
       case KillPushed(kill, thenWait) =>
         thenWait == call.thenWait && IsKill(s.log, kill.index, call.pid, from, since)
       case KillDone => !call.thenWait && exists k: nat :: IsKill(s.log, k, call.pid, from, since)
       case pc => call.thenWait && pc.own.Some? && IsKill(s.log, pc.own.value.index, call.pid, from, since)
  }

  /** Entries of the log stay. */
  lemma KillStays(s: State, e: Event, k: nat, pid: nat, from: nat, since: int)
    requires Enabled(s, e) && IsKill(s.log, k, pid, from, since)
    ensures IsKill(Apply(s, e).log, k, pid, from, since)
  {
    RecordsGrow(s, e);
    assert Apply(s, e).log[k] == s.log[k];
  }

  lemma KillingStep(s: State, e: Event, t: ThreadId, call: Event, from: nat, since: int)
    requires Enabled(s, e) && call.CallKill? && Killing(s, t, call, from, since)
    ensures Killing(Apply(s, e), t, call, from, since)
  {
    NotifyAt(s);
    RecordsGrow(s, e);
    match s.threads[t] {
      case KillCall(_, _) =>
      case KillLocked(_, _) =>
      case KillPushed(kill, _) => KillStays(s, e, kill.index, call.pid, from, since);
      case KillDone =>
        var k: nat :| IsKill(s.log, k, call.pid, from, since);
        KillStays(s, e, k, call.pid, from, since);
      case pc => KillStays(s, e, pc.own.value.index, call.pid, from, since);
    }
  }

  lemma {:induction false} KillingOn(s: State, events: seq<Event>, t: ThreadId, call: Event, from: nat, since: int)
    requires Feasible(s, events) && call.CallKill? && Killing(s, t, call, from, since)
    ensures Killing(Exec(s, events), t, call, from, since)
    decreases |events|
  {
    if events != [] {
      KillingStep(s, events[0], t, call, from, since);
      KillingOn(Apply(s, events[0]), events[1..], t, call, from, since);
    }
  }

  /**
   * In every run: when a kill call has returned, it has enqueued a kill for its
   * pid since it was made. When `terminate` has returned, that kill and all
   * enqueued before it have been reaped.
   */
  lemma KillDelivers(events: seq<Event>, i: nat, j: nat, t: ThreadId)
    requires Feasible(Init(), events) && i < j <= |events| && events[i].CallKill? && events[i].t == t
    ensures Feasible(Init(), events[..i]) && Feasible(Init(), events[..j])
    ensures var s, s' := Exec(Init(), events[..i]), Exec(Init(), events[..j]);
      Returned(s', t) ==> exists k: nat ::
        && IsKill(s'.log, k, events[i].pid, |s.log|, s.now)
        && (events[i].thenWait ==> multiset(s'.log[..k + 1]) <= multiset(Kills(s'.reaped)))
  {
    Later(Init(), events, i, j);
    var s, s', rest := Exec(Init(), events[..i]), Exec(Init(), events[..j]), events[i..j];
    assert rest[0] == events[i];
    KillingOn(Apply(s, rest[0]), rest[1..], t, events[i], |s.log|, s.now);
    if Returned(s', t) {
      if events[i].thenWait {
        TerminateReaps(s', t);
        assert IsKill(s'.log, s'.threads[t].own.value.index, events[i].pid, |s.log|, s.now);
      } else {
        var k: nat :| IsKill(s'.log, k, events[i].pid, |s.log|, s.now);
      }
    }
  }

  /** A terminating caller that enqueued the last kill of `log` and is not past it. */
  predicate Terminating(s: State, t: ThreadId, log: seq<PendingKill>) {
    && t in s.threads && log != [] && log <= s.log
    && match s.threads[t]
       case KillPushed(kill, thenWait) => thenWait && kill.index == |log| - 1
       case KillCall(_, _) => false
       case KillLocked(_, _) => false
       case KillDone => false
       case pc => pc.own.Some? && pc.own.value.index == |log| - 1
  }

  lemma TerminatingStep(s: State, e: Event, t: ThreadId, log: seq<PendingKill>)
    requires Enabled(s, e) && Terminating(s, t, log)
    ensures Terminating(Apply(s, e), t, log)
  {
    NotifyAt(s);
    RecordsGrow(s, e);
  }

  lemma {:induction false} TerminatingOn(s: State, events: seq<Event>, t: ThreadId, log: seq<PendingKill>)
    requires Feasible(s, events) && Terminating(s, t, log)
    ensures Terminating(Exec(s, events), t, log)
    decreases |events|
  {
    if events != [] {
      TerminatingStep(s, events[0], t, log);
      TerminatingOn(Apply(s, events[0]), events[1..], t, log);
    }
  }

  lemma TerminatedReaped(s: State, t: ThreadId, log: seq<PendingKill>)
    requires Reachable(s) && Terminating(s, t, log) && Returned(s, t)
    ensures multiset(log) <= multiset(Kills(s.reaped))
  {
    TerminateReaps(s, t);
    assert s.log[..|log|] == log;
  }

  lemma PushStarts(s: State, t: ThreadId)
    requires Enabled(s, KillPush(t)) && At(s, t).thenWait
    ensures Terminating(Apply(s, KillPush(t)), t, s.log + [PendingKill(At(s, t).pid, s.now)])
  {
  }

  /**
   * In every run: when `terminate` has returned, the kill it pushed, and every
   * kill enqueued before that, has been reaped.
   */
  lemma TerminateHolds(events: seq<Event>, i: nat, j: nat, t: ThreadId)
    requires Feasible(Init(), events) && i < j <= |events| && events[i] == KillPush(t)
    ensures Feasible(Init(), events[..i]) && Feasible(Init(), events[..j])
    ensures var s, s' := Exec(Init(), events[..i]), Exec(Init(), events[..j]);
      && At(s, t).KillLocked?
      && (At(s, t).thenWait && Returned(s', t) ==>
            multiset(s.log + [PendingKill(At(s, t).pid, s.now)]) <= multiset(Kills(s'.reaped)))
  {
    Later(Init(), events, i, j);
    var s, s', rest := Exec(Init(), events[..i]), Exec(Init(), events[..j]), events[i..j];
    assert rest[0] == KillPush(t);
    if At(s, t).thenWait && Returned(s', t) {
      var log := s.log + [PendingKill(At(s, t).pid, s.now)];
      PushStarts(s, t);
      TerminatingOn(Apply(s, rest[0]), rest[1..], t, log);
      TerminatedReaped(s', t, log);
    }
  }

  // ----- every call can be made and returns

  predicate IsCall(e: Event, t: ThreadId) {
    e == CallWait(t) || (e.CallKill? && e.t == t)
  }

  /**
   * A thread that has made no call yet can make any call in any reachable state,
   * and the protocol's own steps and the passing of time can then let it return.
   */
  lemma CallsReturn(s: State, call: Event, t: ThreadId)
    requires Reachable(s) && IsCall(call, t) && t !in s.threads
    ensures exists events ::
      Feasible(s, [call] + events) && Quiet(events) && Returned(Exec(s, [call] + events), t)
  {
    ReachableInv(s);
    Preserved(s, call);
    var s' := Apply(s, call);
    var events := DrainsFrom(s', RankOf(s'));
    assert ([call] + events)[1..] == events;
    if call.CallWait? {
      WaitsOn(s', events, t, s.log);
    } else {
      KillingOn(s', events, t, call, |s.log|, s.now);
    }
  }

  /** A waiter that wakes up for no reason finds the queue as it was and sleeps again: nothing has changed. */
  lemma SpuriousWakeUps(s: State, t: ThreadId)
    requires At(s, t).Waiting? && s.lock.Free? && s.queue != []
    ensures var events := [WaitSpurious(t), WaitLock(t), WaitCheck(t)]; Feasible(s, events) && Exec(s, events) == s
  {
    var events := [WaitSpurious(t), WaitLock(t), WaitCheck(t)];
    var s1 := Apply(s, events[0]);
    var s2 := Apply(s1, events[1]);
    var s3 := Apply(s2, events[2]);
    assert events[1..] == [WaitLock(t), WaitCheck(t)] && events[1..][1..] == [WaitCheck(t)];
    assert Feasible(s2, [WaitCheck(t)]) && Exec(s2, [WaitCheck(t)]) == s3;
    assert Feasible(s1, events[1..]) && Exec(s1, events[1..]) == s3;
    assert s3.threads == s.threads;
  }

  // ----- a pass of the reaper

  /** The reaper holds the lock while it looks at the queue: nothing is added and the time it took stays. */
  lemma MeasuredStep(s: State, e: Event)
    requires Enabled(s, e) && LockInv(s) && s.reaper.Measured? && e != ReaperDecide
    ensures Apply(s, e).reaper == s.reaper && Apply(s, e).queue == s.queue
  {
  }

  lemma {:induction false} MeasuredOn(s: State, events: seq<Event>)
    requires Feasible(s, events) && Inv(s) && s.reaper.Measured? && ReaperDecide !in events
    ensures Exec(s, events).reaper == s.reaper && Exec(s, events).queue == s.queue
    decreases |events|
  {
    if events != [] {
      MeasuredStep(s, events[0]);
      Preserved(s, events[0]);
      MeasuredOn(Apply(s, events[0]), events[1..]);
    }
  }

  /** No entry has been in the queue for its 250 ms. */
  ghost predicate NoneDue(q: seq<PendingKill>, now: int) {
    forall e <- q :: now < e.enqueuedAt + 250
  }

  /** The longest sleep that no entry's 250 ms run out in. */
  ghost predicate SleepsFor(q: seq<PendingKill>, now: int, span: int) {
    && (forall e <- q :: now + span <= e.enqueuedAt + 250)
    && (exists e <- q :: now + span == e.enqueuedAt + 250)
  }

  /** What a pass that took the time `m` did to the queue. */
  ghost predicate PassDone(m: int, s: State, s': State) {
    if NoneDue(s.queue, m) then
      && s'.reaper.Sleeping? && s'.reaper.until.Some? && s'.queue == s.queue && s'.reaped == s.reaped
      && SleepsFor(s.queue, m, s'.reaper.until.value - s.now)
    else
      && s'.reaper.Passed? && NoneDue(s'.queue, m) && multiset(s'.queue) <= multiset(s.queue)
      && multiset(s.queue) + multiset(Kills(s.reaped)) == multiset(s'.queue) + multiset(Kills(s'.reaped))
  }

  lemma DecideOn(s: State)
    requires Enabled(s, ReaperDecide)
    ensures PassDone(s.reaper.now, s, Apply(s, ReaperDecide))
  {
    var m, d := s.reaper.now, NextDeadline(s.queue);
    var e :| e in s.queue && d == Deadline(e);
    if m < d {
      assert NoneDue(s.queue, m);
    } else {
      assert !NoneDue(s.queue, m);
      PassSplits(s.queue, m);
      KillsAppend(s.reaped, Expired(s.queue, m), s.now);
    }
  }

  lemma CheckTakesTime(s: State, events: seq<Event>)
    requires Feasible(s, events) && Inv(s) && s.queue != []
    requires events != [] && events[0] == ReaperCheck && ReaperDecide !in events
    ensures Exec(s, events).reaper == Measured(s.now) && Exec(s, events).queue == s.queue
  {
    Preserved(s, events[0]);
    MeasuredOn(Apply(s, events[0]), events[1..]);
  }

  /**
   * From every reachable state, a pass of the reaper that finds the queue not
   * empty, whatever other threads do meanwhile: if an entry was due when it took
   * the time, all that were due are reaped; if none was, it sleeps for exactly as
   * long as the earliest still had.
   */
  lemma PassIsExact(s: State, events: seq<Event>)
    requires Reachable(s) && s.queue != []
    requires events != [] && events[0] == ReaperCheck && ReaperDecide !in events
    requires Feasible(s, events + [ReaperDecide])
    ensures Feasible(s, events)
    ensures Exec(s, events).queue == s.queue
    ensures PassDone(s.now, Exec(s, events), Exec(s, events + [ReaperDecide]))
  {
    var all, n := events + [ReaperDecide], |events|;
    Splits(s, all, n);
    assert all[..n] == events && all[n..] == [ReaperDecide];
    ReachableInv(s);
    CheckTakesTime(s, events);
    DecideOn(Exec(s, events));
  }
}
