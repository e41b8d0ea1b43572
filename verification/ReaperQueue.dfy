/** The reaper's queue of pending kills and the operations done on it under the lock. */
module ReaperQueue {

  /** Milliseconds between SIGTERM and SIGKILL. */
  const GRACE_PERIOD: int := 250

  datatype PendingKill = PendingKill(pid: nat, enqueuedAt: int)

  function Deadline(e: PendingKill): int {
    e.enqueuedAt + GRACE_PERIOD
  }

  /** The earliest deadline in the queue. */
  function NextDeadline(q: seq<PendingKill>): (d: int)
    requires q != []
    ensures forall e <- q :: d <= Deadline(e)
    ensures exists e <- q :: d == Deadline(e)
  {
    if |q| == 1 then
      assert q[0] in q;
      Deadline(q[0])
    else
      var rest := NextDeadline(q[1..]);
      assert forall e <- q :: e == q[0] || e in q[1..];
      assert q[0] in q;
      if Deadline(q[0]) < rest then Deadline(q[0]) else rest
  }

  function Expired(q: seq<PendingKill>, now: int): seq<PendingKill> {
    if q == [] then []
    else if Deadline(q[0]) <= now then [q[0]] + Expired(q[1..], now)
    else Expired(q[1..], now)
  }

  function Unexpired(q: seq<PendingKill>, now: int): seq<PendingKill> {
    if q == [] then []
    else if Deadline(q[0]) <= now then Unexpired(q[1..], now)
    else [q[0]] + Unexpired(q[1..], now)
  }

  /** A pass splits the queue: nothing is lost, and only entries past their deadline are reaped. */
  lemma {:induction false} PassSplits(q: seq<PendingKill>, now: int)
    ensures multiset(q) == multiset(Expired(q, now)) + multiset(Unexpired(q, now))
    ensures forall e <- Expired(q, now) :: e in q && Deadline(e) <= now
    ensures forall e <- Unexpired(q, now) :: e in q && now < Deadline(e)
    ensures |q| == |Expired(q, now)| + |Unexpired(q, now)|
  {
    if q != [] {
      PassSplits(q[1..], now);
      assert q == [q[0]] + q[1..];
    }
  }

  lemma {:induction false} ExpiredMember(q: seq<PendingKill>, now: int, e: PendingKill)
    requires e in q && Deadline(e) <= now
    ensures e in Expired(q, now)
  {
    if e != q[0] {
      assert e in q[1..];
      ExpiredMember(q[1..], now, e);
    }
  }

  /** Once the earliest deadline has passed, a pass strictly shrinks the queue. */
  lemma PassShrinks(q: seq<PendingKill>, now: int)
    requires q != [] && NextDeadline(q) <= now
    ensures |Unexpired(q, now)| < |q|
  {
    var d := NextDeadline(q);
    var e :| e in q && d == Deadline(e);
    ExpiredMember(q, now, e);
    PassSplits(q, now);
  }

  /** A later kill never moves the earliest deadline. */
  lemma PushKeepsDeadline(q: seq<PendingKill>, e: PendingKill)
    requires q != [] && forall x <- q :: x.enqueuedAt <= e.enqueuedAt
    ensures NextDeadline(q + [e]) == NextDeadline(q)
  {
    var d0 := NextDeadline(q);
    var x :| x in q && d0 == Deadline(x);
    var longer := q + [e];
    assert x in longer;
    var d := NextDeadline(longer);
    var y :| y in longer && d == Deadline(y);
    assert y in q || y == e;
  }

  class Reaper {
    var state: seq<PendingKill>

    constructor ()
      ensures state == []
    {
      state := [];
    }

    method Push(pid: nat, now: int)
      modifies this
      ensures state == old(state) + [PendingKill(pid, now)]
    {
      state := state + [PendingKill(pid, now)];
    }

    method EarliestDeadline() returns (d: int)
      requires state != []
      ensures d == NextDeadline(state)
    {
      d := Deadline(state[0]);
      var i := 1;
      while i < |state|
        invariant 1 <= i <= |state|
        invariant forall k | 0 <= k < i :: d <= Deadline(state[k])
        invariant exists k | 0 <= k < i :: d == Deadline(state[k])
      {
        if Deadline(state[i]) < d {
          d := Deadline(state[i]);
        }
        i := i + 1;
      }
    }

    /** Keep what is within its grace period; the rest is killed and waited for. */
    method Retain(now: int) returns (reaped: seq<PendingKill>)
      modifies this
      ensures state == Unexpired(old(state), now)
      ensures reaped == Expired(old(state), now)
    {
      var kept: seq<PendingKill> := [];
      reaped := [];
      var i := 0;
      while i < |state|
        invariant 0 <= i <= |state|
        invariant state == old(state)
        invariant kept + Unexpired(state[i..], now) == Unexpired(state, now)
        invariant reaped + Expired(state[i..], now) == Expired(state, now)
      {
        assert state[i..][1..] == state[i + 1..];
        if Deadline(state[i]) <= now {
          reaped := reaped + [state[i]];
        } else {
          kept := kept + [state[i]];
        }
        i := i + 1;
      }
      assert state[i..] == [];
      state := kept;
    }
  }
}
