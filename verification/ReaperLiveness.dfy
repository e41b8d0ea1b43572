/**
 * Endless runs of the reaper protocol. When no more calls come in, every run in
 * which the clock goes on and enabled steps are not put off for ever drains.
 */
module ReaperLiveness {
  import opened ReaperProtocol
  import opened ReaperProgress

  /** An endless run: the state before each step, and the step. */
  datatype Behaviour = Behaviour(state: nat -> State, step: nat -> Event)

  ghost predicate Moves(b: Behaviour, i: nat) {
    && Enabled(b.state(i), b.step(i)) && b.state(i + 1) == Apply(b.state(i), b.step(i))
    && (Internal(b.step(i)) || b.step(i).Tick?)
  }

  /** From a reachable state on, only the protocol's own steps and the clock. */
  ghost predicate QuietRun(b: Behaviour) {
    Reachable(b.state(0)) && forall i: nat :: Moves(b, i)
  }

  /** No step of the protocol itself can be taken. */
  ghost predicate Stuck(s: State) {
    forall e | Internal(e) :: !Enabled(s, e)
  }

  lemma NotStuck(s: State)
    requires Inv(s) && !AtRest(s) && !Asleep(s)
    ensures !Stuck(s)
  {
    var e := NextStep(s);
    assert Internal(e) && Enabled(s, e);
  }

  /** A state that can take no step of its own, and is not on a timed wait, has nothing left to do. */
  lemma StuckIsAtRest(s: State)
    requires Reachable(s) && Stuck(s) && !Asleep(s)
    ensures AtRest(s)
  {
    ReachableInv(s);
    if !AtRest(s) {
      NotStuck(s);
    }
  }

  ghost predicate Reaches(b: Behaviour, i: nat, time: int) {
    exists j: nat :: i <= j && time <= b.state(j).now
  }

  ghost predicate GoesOn(b: Behaviour, i: nat) {
    exists j: nat :: i <= j && (Internal(b.step(j)) || Stuck(b.state(j)))
  }

  ghost predicate RestsFrom(b: Behaviour, n: nat) {
    forall j: nat | n <= j :: AtRest(b.state(j))
  }

  /** The clock passes every time, and steps that stay possible are not put off for ever. */
  ghost predicate Fair(b: Behaviour) {
    (forall i: nat, time: int :: Reaches(b, i, time)) && forall i: nat :: GoesOn(b, i)
  }

  lemma {:induction false} KeepsInv(b: Behaviour, i: nat)
    requires QuietRun(b)
    ensures Inv(b.state(i))
  {
    if i == 0 {
      ReachableInv(b.state(0));
    } else {
      KeepsInv(b, i - 1);
      assert Moves(b, i - 1);
      Preserved(b.state(i - 1), b.step(i - 1));
    }
  }

  predicate AtMost(r: Rank, q: Rank) {
    r == q || ReaperProgress.Below(r, q)
  }

  lemma AtMostTransitive(r: Rank, q: Rank, p: Rank)
    requires AtMost(r, q) && AtMost(q, p)
    ensures AtMost(r, p)
  {
  }

  lemma StepLowers(b: Behaviour, i: nat)
    requires QuietRun(b)
    ensures AtMost(RankOf(b.state(i + 1)), RankOf(b.state(i)))
    ensures Internal(b.step(i)) ==> ReaperProgress.Below(RankOf(b.state(i + 1)), RankOf(b.state(i)))
  {
    KeepsInv(b, i);
    assert Moves(b, i);
    if Internal(b.step(i)) {
      InternalLowers(b.state(i), b.step(i));
    } else {
      ClockKeepsRank(b.state(i), b.step(i).d);
    }
  }

  predicate Falls(rank: nat -> Rank, k: nat) {
    AtMost(rank(k + 1), rank(k))
  }

  lemma {:induction false} Descends(rank: nat -> Rank, i: nat, j: nat)
    requires i <= j && forall k: nat :: Falls(rank, k)
    ensures AtMost(rank(j), rank(i))
    decreases j
  {
    if i < j {
      Descends(rank, i, j - 1);
      assert Falls(rank, j - 1);
      AtMostTransitive(rank(j), rank(j - 1), rank(i));
    }
  }

  lemma NeverRises(b: Behaviour, i: nat, j: nat)
    requires QuietRun(b) && i <= j
    ensures AtMost(RankOf(b.state(j)), RankOf(b.state(i)))
  {
    var rank := (k: nat) => RankOf(b.state(k));
    forall k: nat ensures Falls(rank, k) {
      StepLowers(b, k);
    }
    Descends(rank, i, j);
  }

  /** Internal steps run out: from some point on there is only the clock. */
  lemma {:induction false} OnlyClock(b: Behaviour, i: nat, r: Rank) returns (n: nat)
    requires QuietRun(b) && r == RankOf(b.state(i))
    ensures i <= n && forall j: nat | n <= j :: b.step(j).Tick?
    decreases r.callers, r.pushers, r.notifiers, r.queue, r.lockers, r.checkers, r.reaper
  {
    if j: nat :| i <= j && Internal(b.step(j)) {
      NeverRises(b, i, j);
      StepLowers(b, j);
      BelowTransitive(RankOf(b.state(j + 1)), RankOf(b.state(j)), r);
      n := OnlyClock(b, j + 1, RankOf(b.state(j + 1)));
    } else {
      n := i;
      forall j: nat | n <= j ensures b.step(j).Tick? {
        assert Moves(b, j);
      }
    }
  }

  lemma {:induction false} OnlyTimeChanges(b: Behaviour, n: nat, j: nat)
    requires QuietRun(b) && n <= j && forall k: nat | n <= k :: b.step(k).Tick?
    ensures b.state(n).now <= b.state(j).now
    ensures b.state(j) == b.state(n).(now := b.state(j).now)
    decreases j
  {
    if n < j {
      OnlyTimeChanges(b, n, j - 1);
      assert Moves(b, j - 1);
    }
  }

  /** When the clock has passed the timeout of a wait, the protocol cannot rest before it is done. */
  lemma AwakeIsNotStuck(b: Behaviour, n: nat, m: nat)
    requires QuietRun(b) && Fair(b) && n <= m && forall k: nat | n <= k :: b.step(k).Tick?
    requires forall j: nat | m <= j :: !Asleep(b.state(j))
    ensures AtRest(b.state(n))
  {
    assert GoesOn(b, m);
    var j: nat :| m <= j && (Internal(b.step(j)) || Stuck(b.state(j)));
    OnlyTimeChanges(b, n, j);
    KeepsInv(b, j);
    if !AtRest(b.state(n)) {
      NotStuck(b.state(j));
    }
  }

  /**
   * Every fair quiet run reaches a state in which every kill is reaped and every
   * caller, barrier waits included, has returned, and stays there.
   */
  lemma Inevitable(b: Behaviour)
    requires QuietRun(b) && Fair(b)
    ensures exists n: nat :: RestsFrom(b, n)
  {
    var n := OnlyClock(b, 0, RankOf(b.state(0)));
    var s := b.state(n);
    var m := n;
    if s.reaper.Sleeping? && s.reaper.until.Some? {
      var time := s.reaper.until.value;
      assert Reaches(b, n, time);
      m :| n <= m && time <= b.state(m).now;
    }
    forall j: nat | m <= j ensures !Asleep(b.state(j)) {
      OnlyTimeChanges(b, n, m);
      OnlyTimeChanges(b, n, j);
      OnlyTimeChanges(b, m, j);
    }
    AwakeIsNotStuck(b, n, m);
    forall j: nat | n <= j ensures AtRest(b.state(j)) {
      OnlyTimeChanges(b, n, j);
    }
    assert RestsFrom(b, n);
  }
}
