/**
 * Progress of the reaper protocol: every internal step lowers a rank that the
 * clock never raises, and until all work is done some step or the clock can
 * go on. So once callers stop arriving, every barrier wait returns.
 */
module ReaperProgress {
  import opened ReaperQueue
  import opened ReaperProtocol

  /** Steps of the protocol itself, as opposed to the clock, new calls and spurious wake-ups. */
  predicate Internal(e: Event) {
    !e.Tick? && !e.CallKill? && !e.CallWait? && !e.WaitSpurious? && !e.ReaperSpurious?
  }

  function Callers(s: State): set<ThreadId> {
    set t | t in s.threads && s.threads[t].KillCall?
  }

  function Pushers(s: State): set<ThreadId> {
    set t | t in s.threads && s.threads[t].KillLocked?
  }

  function Notifiers(s: State): set<ThreadId> {
    set t | t in s.threads && s.threads[t].KillPushed?
  }

  function Lockers(s: State): set<ThreadId> {
    set t | t in s.threads && (s.threads[t].WaitCall? || s.threads[t].WaitWoken?)
  }

  function Checkers(s: State): set<ThreadId> {
    set t | t in s.threads && s.threads[t].WaitLocked?
  }

  /** Work left on the queue; a pass that empties it still owes its notification. */
  function QueueWork(s: State): nat {
    2 * |s.queue| + if s.reaper.Passed? then 1 else 0
  }

  predicate Early(s: State) {
    s.queue != [] && s.now < NextDeadline(s.queue)
  }

  /** How far the reaper is from going to sleep, or from its next pass. */
  function ReaperWork(s: State): nat {
    if s.queue == [] || Early(s) then
      (if Early(s) then 10 else 0) +
      match s.reaper
      case Waking => 3
      case AtTop => 2
      case Measured(_) => 1
      case _ => 0
    else
      match s.reaper
      case Sleeping(_) => 5
      case Waking => 4
      case AtTop => 3
      case Measured(m) => if m < NextDeadline(s.queue) then 6 else 2
      case Passed => 0
  }

  datatype Rank = Rank(callers: nat, pushers: nat, notifiers: nat, queue: nat, lockers: nat, checkers: nat, reaper: nat)

  function RankOf(s: State): Rank {
    Rank(|Callers(s)|, |Pushers(s)|, |Notifiers(s)|, QueueWork(s), |Lockers(s)|, |Checkers(s)|, ReaperWork(s))
  }

  /** Lexicographic order, so there is no infinite descent. */
  predicate Below(r: Rank, q: Rank) {
    if r.callers != q.callers then r.callers < q.callers
    else if r.pushers != q.pushers then r.pushers < q.pushers
    else if r.notifiers != q.notifiers then r.notifiers < q.notifiers
    else if r.queue != q.queue then r.queue < q.queue
    else if r.lockers != q.lockers then r.lockers < q.lockers
    else if r.checkers != q.checkers then r.checkers < q.checkers
    else r.reaper < q.reaper
  }

  lemma KillLockSets(s: State, e: Event)
    requires Inv(s) && Enabled(s, e) && e.KillLock?
    ensures Callers(Apply(s, e)) == Callers(s) - {e.t} && e.t in Callers(s)
  {
  }

  lemma KillLockLowers(s: State, e: Event)
    requires Inv(s) && Enabled(s, e) && e.KillLock?
    ensures Below(RankOf(Apply(s, e)), RankOf(s))
  {
    KillLockSets(s, e);
  }

  lemma KillPushSets(s: State, e: Event)
    requires Inv(s) && Enabled(s, e) && e.KillPush?
    ensures Callers(Apply(s, e)) == Callers(s)
    ensures Pushers(Apply(s, e)) == Pushers(s) - {e.t} && e.t in Pushers(s)
  {
  }

  lemma KillPushLowers(s: State, e: Event)
    requires Inv(s) && Enabled(s, e) && e.KillPush?
    ensures Below(RankOf(Apply(s, e)), RankOf(s))
  {
    KillPushSets(s, e);
  }

  lemma KillNotifySets(s: State, e: Event)
    requires Inv(s) && Enabled(s, e) && e.KillNotify?
    ensures Callers(Apply(s, e)) == Callers(s) && Pushers(Apply(s, e)) == Pushers(s)
    ensures Notifiers(Apply(s, e)) == Notifiers(s) - {e.t} && e.t in Notifiers(s)
  {
  }

  lemma KillNotifyLowers(s: State, e: Event)
    requires Inv(s) && Enabled(s, e) && e.KillNotify?
    ensures Below(RankOf(Apply(s, e)), RankOf(s))
  {
    KillNotifySets(s, e);
  }

  lemma KillStepLowers(s: State, e: Event)
    requires Inv(s) && Enabled(s, e) && (e.KillLock? || e.KillPush? || e.KillNotify?)
    ensures Below(RankOf(Apply(s, e)), RankOf(s))
  {
    if e.KillLock? {
      KillLockLowers(s, e);
    } else if e.KillPush? {
      KillPushLowers(s, e);
    } else {
      KillNotifyLowers(s, e);
    }
  }

  lemma WaitStepSets(s: State, e: Event)
    requires Inv(s) && Enabled(s, e) && (e.WaitLock? || e.WaitCheck?)
    ensures Callers(Apply(s, e)) == Callers(s) && Pushers(Apply(s, e)) == Pushers(s)
    ensures Notifiers(Apply(s, e)) == Notifiers(s)
    ensures e.WaitLock? ==> Lockers(Apply(s, e)) == Lockers(s) - {e.t} && e.t in Lockers(s)
    ensures e.WaitCheck? ==> Lockers(Apply(s, e)) == Lockers(s)
    ensures e.WaitCheck? ==> Checkers(Apply(s, e)) == Checkers(s) - {e.t} && e.t in Checkers(s)
  {
  }

  lemma WaitStepLowers(s: State, e: Event)
    requires Inv(s) && Enabled(s, e) && (e.WaitLock? || e.WaitCheck?)
    ensures Below(RankOf(Apply(s, e)), RankOf(s))
  {
    WaitStepSets(s, e);
  }

  lemma ReaperStepLowers(s: State, e: Event)
    requires Inv(s) && Enabled(s, e)
    requires e.ReaperLock? || e.ReaperCheck? || e.ReaperDecide? || e.ReaperTimeout?
    ensures Below(RankOf(Apply(s, e)), RankOf(s))
  {
    var s' := Apply(s, e);
    assert s'.threads == s.threads;
    assert Callers(s') == Callers(s) && Pushers(s') == Pushers(s) && Notifiers(s') == Notifiers(s);
    assert Lockers(s') == Lockers(s) && Checkers(s') == Checkers(s);
    if e.ReaperDecide? && NextDeadline(s.queue) <= s.reaper.now {
      PassShrinks(s.queue, s.reaper.now);
    }
  }

  lemma NotifyStepLowers(s: State)
    requires Inv(s) && Enabled(s, ReaperNotify)
    ensures Below(RankOf(Apply(s, ReaperNotify)), RankOf(s))
  {
    var s' := Apply(s, ReaperNotify);
    assert Callers(s') == Callers(s) && Pushers(s') == Pushers(s) && Notifiers(s') == Notifiers(s);
  }

  /** Every internal step lowers the rank. */
  lemma InternalLowers(s: State, e: Event)
    requires Inv(s) && Enabled(s, e) && Internal(e)
    ensures Below(RankOf(Apply(s, e)), RankOf(s))
  {
    if e.KillLock? || e.KillPush? || e.KillNotify? {
      KillStepLowers(s, e);
    } else if e.WaitLock? || e.WaitCheck? {
      WaitStepLowers(s, e);
    } else if e.ReaperNotify? {
      NotifyStepLowers(s);
    } else {
      ReaperStepLowers(s, e);
    }
  }

  /** The clock never raises the rank. */
  lemma ClockKeepsRank(s: State, d: nat)
    ensures var r, q := RankOf(Apply(s, Tick(d))), RankOf(s); r == q || Below(r, q)
  {
    var s' := Apply(s, Tick(d));
    assert Callers(s') == Callers(s) && Pushers(s') == Pushers(s) && Notifiers(s') == Notifiers(s);
    assert Lockers(s') == Lockers(s) && Checkers(s') == Checkers(s);
  }

  /** Every caller has returned and nothing is queued. */
  ghost predicate AtRest(s: State) {
    && s.queue == []
    && (forall t | t in s.threads :: s.threads[t].KillDone? || s.threads[t].WaitDone?)
  }

  predicate Asleep(s: State) {
    s.reaper.Sleeping? && s.reaper.until.Some? && s.now < s.reaper.until.value
  }

  /** A step that can be taken now, when there is one. */
  lemma NextStep(s: State) returns (e: Event)
    requires Inv(s) && !AtRest(s) && !Asleep(s)
    ensures Internal(e) && Enabled(s, e)
  {
    if t :| t in s.threads && Holds(s.threads[t]) {
      e := if s.threads[t].KillLocked? then KillPush(t) else WaitCheck(t);
    } else if s.reaper.AtTop? {
      e := ReaperCheck;
    } else if s.reaper.Measured? {
      e := ReaperDecide;
    } else if s.reaper.Passed? {
      e := ReaperNotify;
    } else {
      assert s.lock.By? ==> Holds(At(s, s.lock.t));
      if t :| t in s.threads && s.threads[t].KillPushed? {
        e := KillNotify(t);
      } else if t :| t in s.threads && s.threads[t].KillCall? {
        e := KillLock(t);
      } else if t :| t in s.threads && (s.threads[t].WaitCall? || s.threads[t].WaitWoken?) {
        e := WaitLock(t);
      } else if s.reaper.Waking? {
        e := ReaperLock;
      } else {
        e := ReaperTimeout;
        WaitsForClock(s);
      }
    }
  }

  /** With everyone else parked, a sleeping reaper is on a timed wait. */
  lemma WaitsForClock(s: State)
    requires Inv(s) && !AtRest(s) && s.reaper.Sleeping?
    requires forall t | t in s.threads ::
      s.threads[t].KillDone? || s.threads[t].WaitDone? || s.threads[t].Waiting?
    ensures s.reaper.until.Some?
  {
    assert forall t | t in s.threads :: At(s, t) == s.threads[t];
    assert s.queue != [];
    assert !SomeoneWillNotify(s);
  }

  predicate Quiet(events: seq<Event>) {
    forall e <- events :: Internal(e) || e.Tick?
  }

  lemma BelowTransitive(a: Rank, b: Rank, c: Rank)
    requires Below(a, b) && (b == c || Below(b, c))
    ensures Below(a, c)
  {
  }

  lemma TwoSteps(s: State, a: Event, b: Event)
    requires Enabled(s, a) && Enabled(Apply(s, a), b)
    ensures Feasible(s, [a, b]) && Exec(s, [a, b]) == Apply(Apply(s, a), b)
  {
    var s1, events, tail := Apply(s, a), [a, b], [b];
    assert events[1..] == tail && tail[1..] == [];
    assert Feasible(Apply(s1, b), []) && Feasible(s1, tail);
    assert Exec(s1, tail) == Exec(Apply(s1, b), []);
  }

  /** Sleeping until the timeout fires. */
  lemma SleepIt(s: State) returns (steps: seq<Event>)
    requires Inv(s) && Asleep(s)
    ensures Feasible(s, steps) && Quiet(steps)
    ensures Inv(Exec(s, steps)) && Below(RankOf(Exec(s, steps)), RankOf(s))
  {
    var d := s.reaper.until.value - s.now;
    var s1 := Apply(s, Tick(d));
    var s2 := Apply(s1, ReaperTimeout);
    steps := [Tick(d), ReaperTimeout];
    TwoSteps(s, Tick(d), ReaperTimeout);
    Preserved(s, Tick(d));
    Preserved(s1, ReaperTimeout);
    ClockKeepsRank(s, d);
    InternalLowers(s1, ReaperTimeout);
    BelowTransitive(RankOf(s2), RankOf(s1), RankOf(s));
  }

  lemma {:induction false} RunOn(s: State, one: seq<Event>, two: seq<Event>)
    requires Feasible(s, one) && Feasible(Exec(s, one), two)
    ensures Feasible(s, one + two) && Exec(s, one + two) == Exec(Exec(s, one), two)
    decreases |one|
  {
    if one == [] {
      assert one + two == two;
    } else {
      assert (one + two)[1..] == one[1..] + two;
      RunOn(Apply(s, one[0]), one[1..], two);
    }
  }

  lemma Advance(s: State) returns (steps: seq<Event>)
    requires Inv(s) && !AtRest(s)
    ensures Feasible(s, steps) && Quiet(steps)
    ensures Inv(Exec(s, steps)) && Below(RankOf(Exec(s, steps)), RankOf(s))
  {
    if Asleep(s) {
      steps := SleepIt(s);
    } else {
      var e := NextStep(s);
      InternalLowers(s, e);
      Preserved(s, e);
      steps := [e];
    }
  }

  lemma {:induction false} DrainsFrom(s: State, r: Rank) returns (events: seq<Event>)
    requires Inv(s) && r == RankOf(s)
    ensures Feasible(s, events) && Quiet(events) && AtRest(Exec(s, events))
    decreases r.callers, r.pushers, r.notifiers, r.queue, r.lockers, r.checkers, r.reaper
  {
    if AtRest(s) {
      events := [];
    } else {
      var steps := Advance(s);
      var s' := Exec(s, steps);
      var rest := DrainsFrom(s', RankOf(s'));
      RunOn(s, steps, rest);
      events := steps + rest;
    }
  }

  /**
   * From every reachable state, the protocol's own steps and the passing of
   * time lead to a state in which every kill is reaped and every caller,
   * barrier waits included, has returned.
   */
  lemma Drains(s: State)
    requires Reachable(s)
    ensures exists events :: Feasible(s, events) && Quiet(events) && AtRest(Exec(s, events))
  {
    ReachableInv(s);
    var events := DrainsFrom(s, RankOf(s));
  }
}
