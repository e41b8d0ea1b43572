/**
 * The cached oldest key when adds and lookups overlap. An add is open from the
 * moment it has lowered the cache until its transaction commits or rolls back;
 * a transaction may hold several. A lookup first finds the cache empty, then
 * reads the database, then writes the cache.
 */
module OldestKeyRace {
  import opened Options
  import opened LogKeys
  import opened OperationLog

  type Tx = nat
  type Reader = nat

  datatype State = State(
    committed: set<Key>,
    open: map<Tx, set<Key>>,
    oldest: Option<Key>,
    checked: set<Reader>,
    reading: map<Reader, Key>
  )

  datatype Action =
    | Insert(tx: Tx, key: Key)
    | Commit(tx: Tx)
    | Rollback(tx: Tx)
    | Check(r: Reader)
    | Read(r: Reader, oldestInDb: Key)
    | ReadNothing(r: Reader)
    | Write(r: Reader)

  function Init(): State {
    State({}, map[], None, {}, map[])
  }

  ghost predicate OldestOf(keys: set<Key>, k: Key) {
    k in keys && forall x <- keys :: !Lt(x, k)
  }

  /** The keys that a transaction holds. */
  function Held(s: State, tx: Tx): set<Key> {
    if tx in s.open then s.open[tx] else {}
  }

  ghost predicate Enabled(s: State, a: Action) {
    match a
    case Insert(_, _) => true
    case Commit(tx) => tx in s.open
    case Rollback(tx) => tx in s.open
    case Check(r) => s.oldest.None? && r !in s.checked && r !in s.reading
    case Read(r, k) => r in s.checked && OldestOf(s.committed, k)
    case ReadNothing(r) => r in s.checked && s.committed == {}
    case Write(r) => r in s.reading
  }

  function Apply(s: State, a: Action): State {
    match a
    case Insert(tx, key) => s.(open := s.open[tx := Held(s, tx) + {key}], oldest := LowerCache(s.oldest, key))
    case Commit(tx) => s.(committed := s.committed + Held(s, tx), open := s.open - {tx})
    case Rollback(tx) => s.(open := s.open - {tx})
    case Check(r) => s.(checked := s.checked + {r})
    case Read(r, k) => s.(checked := s.checked - {r}, reading := s.reading[r := k])
    case ReadNothing(r) => s.(checked := s.checked - {r})
    case Write(r) =>
      if r in s.reading then s.(oldest := Some(s.reading[r]), reading := s.reading - {r}) else s
  }

  ghost predicate Feasible(s: State, actions: seq<Action>)
    decreases |actions|
  {
    actions == [] || (Enabled(s, actions[0]) && Feasible(Apply(s, actions[0]), actions[1..]))
  }

  function Exec(s: State, actions: seq<Action>): State
    decreases |actions|
  {
    if actions == [] then s else Exec(Apply(s, actions[0]), actions[1..])
  }

  /** No committed key is older than the cached one, so no page misses a key. */
  ghost predicate Sound(s: State) {
    s.oldest.Some? ==> forall x <- s.committed :: !Lt(x, s.oldest.value)
  }

  /** No open add is older than `k`. */
  ghost predicate NoneOpenBelow(s: State, k: Key) {
    forall tx, x | tx in s.open && x in s.open[tx] :: !Lt(x, k)
  }

  /** No key, committed or open, is older than `k`. */
  ghost predicate Bounds(s: State, k: Key) {
    (forall x <- s.committed :: !Lt(x, k)) && NoneOpenBelow(s, k)
  }

  /** The cache, and every value a reader is about to write into it, is a bound. */
  ghost predicate Safe(s: State) {
    && (s.oldest.Some? ==> Bounds(s, s.oldest.value))
    && (forall r <- s.reading.Keys :: Bounds(s, s.reading[r]))
  }

  /**
   * The overlaps that must not happen: a read while an older add is open, or an
   * insertion older than what a reader has already seen.
   */
  ghost predicate Guarded(s: State, a: Action) {
    match a
    case Read(_, k) => NoneOpenBelow(s, k)
    case Insert(_, key) => forall r <- s.reading.Keys :: !Lt(key, s.reading[r])
    case _ => true
  }

  /** A bound stays one, unless an older key is inserted. */
  lemma BoundStays(s: State, a: Action, k: Key)
    requires Bounds(s, k) && (a.Insert? ==> !Lt(a.key, k))
    ensures Bounds(Apply(s, a), k)
  {
  }

  lemma LowerIsBoundToo(s: State, k: Key, j: Key)
    requires Bounds(s, k) && !Lt(k, j)
    ensures Bounds(s, j)
  {
    forall tx, x | tx in s.open && x in s.open[tx] ensures !Lt(x, j) {
      assert !Lt(x, k);
    }
  }

  lemma GuardedKeepsSafe(s: State, a: Action)
    requires Safe(s) && Enabled(s, a) && Guarded(s, a)
    ensures Safe(Apply(s, a)) && Sound(Apply(s, a))
  {
    var s' := Apply(s, a);
    forall r <- s'.reading.Keys ensures Bounds(s', s'.reading[r]) {
      if a.Read? && a.r == r {
        assert Bounds(s, a.oldestInDb);
      }
      BoundStays(s, a, s'.reading[r]);
    }
    if s'.oldest.Some? {
      if a.Insert? && s'.oldest == Some(a.key) && s.oldest.Some? {
        LowerIsBoundToo(s, s.oldest.value, a.key);
      }
      BoundStays(s, a, s'.oldest.value);
    }
  }

  /** A run whose every read and insertion is guarded never loses a key from its pages. */
  lemma {:induction false} GuardedRunsAreSound(s: State, actions: seq<Action>)
    requires Safe(s) && Feasible(s, actions)
    requires forall i | 0 <= i < |actions| :: Guarded(Exec(s, actions[..i]), actions[i])
    ensures Safe(Exec(s, actions)) && Sound(Exec(s, actions))
    decreases |actions|
  {
    if actions != [] {
      assert Guarded(Exec(s, actions[..0]), actions[0]);
      GuardedKeepsSafe(s, actions[0]);
      var s', rest := Apply(s, actions[0]), actions[1..];
      forall i | 0 <= i < |rest| ensures Guarded(Exec(s', rest[..i]), rest[i]) {
        assert actions[..i + 1] == [actions[0]] + rest[..i];
        assert Guarded(Exec(s, actions[..i + 1]), actions[i + 1]);
      }
      GuardedRunsAreSound(s', rest);
    }
  }

  /** A reader about to write a key above an open one loses it: commit, then write. */
  lemma OpenBelowReadingLoses(s: State, tx: Tx, x: Key, r: Reader)
    requires tx in s.open && x in s.open[tx] && r in s.reading && Lt(x, s.reading[r])
    ensures Feasible(s, [Commit(tx), Write(r)]) && !Sound(Exec(s, [Commit(tx), Write(r)]))
  {
    var tail := [Commit(tx), Write(r)];
    var s1 := Apply(s, Commit(tx));
    var s2 := Apply(s1, Write(r));
    assert tail[1..] == [Write(r)] && tail[1..][1..] == [];
    assert Exec(s, tail) == Exec(s1, tail[1..]) == s2;
    assert x in s2.committed;
    assert Feasible(s1, tail[1..]);
  }

  /** An unguarded step lets the log commit a key that the cache then hides. */
  lemma UnguardedLosesKeys(s: State, a: Action)
    requires Safe(s) && Enabled(s, a) && !Guarded(s, a)
    ensures exists tx, r ::
      var s' := Apply(s, a);
      Feasible(s', [Commit(tx), Write(r)]) && !Sound(Exec(s', [Commit(tx), Write(r)]))
  {
    var s' := Apply(s, a);
    if a.Read? {
      var tx, x :| tx in s.open && x in s.open[tx] && Lt(x, a.oldestInDb);
      OpenBelowReadingLoses(s', tx, x, a.r);
    } else {
      var r :| r in s.reading.Keys && Lt(a.key, s.reading[r]);
      OpenBelowReadingLoses(s', a.tx, a.key, r);
    }
  }

  /**
   * So a step of a safe log keeps it safe exactly when it is guarded: otherwise
   * committing the open add and finishing the lookup loses a key.
   */
  lemma SafeIffGuarded(s: State, a: Action)
    requires Safe(s) && Enabled(s, a)
    ensures Guarded(s, a) <==> Safe(Apply(s, a))
  {
    var s' := Apply(s, a);
    if Guarded(s, a) {
      GuardedKeepsSafe(s, a);
    } else if a.Read? {
      assert s'.reading[a.r] == a.oldestInDb && s'.open == s.open;
    } else {
      assert a.key in s'.open[a.tx];
    }
  }

  ghost predicate AlwaysSafe(s: State, actions: seq<Action>)
    decreases |actions|
  {
    Safe(s) && (actions == [] || AlwaysSafe(Apply(s, actions[0]), actions[1..]))
  }

  ghost predicate AlwaysGuarded(s: State, actions: seq<Action>)
    decreases |actions|
  {
    actions == [] || (Guarded(s, actions[0]) && AlwaysGuarded(Apply(s, actions[0]), actions[1..]))
  }

  /** Over a whole run from a safe log: every state is safe if and only if every step is guarded. */
  lemma {:induction false} RunSafeExactly(s: State, actions: seq<Action>)
    requires Safe(s) && Feasible(s, actions)
    ensures AlwaysSafe(s, actions) <==> AlwaysGuarded(s, actions)
    decreases |actions|
  {
    if actions != [] {
      SafeIffGuarded(s, actions[0]);
      if Guarded(s, actions[0]) {
        RunSafeExactly(Apply(s, actions[0]), actions[1..]);
      }
    }
  }

  // ----- safe means that nothing under way can hide a key

  /** What is under way may finish; nothing new is inserted or read. */
  predicate Finishing(actions: seq<Action>) {
    forall a <- actions :: !a.Insert? && !a.Read?
  }

  lemma {:induction false} SafeFinishes(s: State, actions: seq<Action>)
    requires Safe(s) && Feasible(s, actions) && Finishing(actions)
    ensures Sound(Exec(s, actions))
    decreases |actions|
  {
    if actions != [] {
      assert actions[0] in actions && forall a <- actions[1..] :: a in actions;
      GuardedKeepsSafe(s, actions[0]);
      SafeFinishes(Apply(s, actions[0]), actions[1..]);
    }
  }

  /** From a log that is not safe, what is under way can finish so that a committed key is hidden. */
  lemma UnsafeHides(s: State) returns (actions: seq<Action>)
    requires !Safe(s)
    ensures Feasible(s, actions) && Finishing(actions) && !Sound(Exec(s, actions))
  {
    if s.oldest.Some? && !Bounds(s, s.oldest.value) {
      if Sound(s) {
        var tx, x :| tx in s.open && x in s.open[tx] && Lt(x, s.oldest.value);
        actions := [Commit(tx)];
        assert x in Exec(s, actions).committed;
      } else {
        actions := [];
      }
    } else {
      var r :| r in s.reading && !Bounds(s, s.reading[r]);
      if x :| x in s.committed && Lt(x, s.reading[r]) {
        actions := [Write(r)];
        assert x in Exec(s, actions).committed;
      } else {
        var tx, x :| tx in s.open && x in s.open[tx] && Lt(x, s.reading[r]);
        actions := [Commit(tx), Write(r)];
        OpenBelowReadingLoses(s, tx, x, r);
      }
    }
  }

  ghost predicate NeverHides(s: State) {
    forall actions | Feasible(s, actions) && Finishing(actions) :: Sound(Exec(s, actions))
  }

  /** A log is safe if and only if, however what is under way finishes, no committed key is hidden. */
  lemma SafeExactly(s: State)
    ensures Safe(s) <==> NeverHides(s)
  {
    if Safe(s) {
      forall actions | Feasible(s, actions) && Finishing(actions) ensures Sound(Exec(s, actions)) {
        SafeFinishes(s, actions);
      }
    } else {
      var actions := UnsafeHides(s);
    }
  }

  lemma FirstStep(s: State, actions: seq<Action>)
    requires actions != [] && Enabled(s, actions[0]) && Feasible(Apply(s, actions[0]), actions[1..])
    ensures Feasible(s, actions) && Exec(s, actions) == Exec(Apply(s, actions[0]), actions[1..])
  {
  }

  /** From the empty log: a lookup that reads while a back-dated add is open hides it for good. */
  lemma OverlapHidesKey()
    ensures var actions :=
        [Insert(0, Key(9, 1)), Commit(0), Insert(1, Key(5, 2)), Check(0), Read(0, Key(9, 1)), Commit(1), Write(0)];
      Feasible(Init(), actions) && !Sound(Exec(Init(), actions))
  {
    var recent, backDated := Key(9, 1), Key(5, 2);
    var actions := [Insert(0, recent), Commit(0), Insert(1, backDated), Check(0), Read(0, recent), Commit(1), Write(0)];
    var s1 := Apply(Init(), actions[0]);
    var s2 := Apply(s1, actions[1]);
    assert s2.committed == {recent};
    var s3 := Apply(s2, actions[2]);
    var s4 := Apply(s3, actions[3]);
    var s5 := Apply(s4, actions[4]);
    OpenBelowReadingLoses(s5, 1, backDated, 0);
    assert actions[5..] == [Commit(1), Write(0)];
    FirstStep(s4, actions[4..]);
    FirstStep(s3, actions[3..]);
    FirstStep(s2, actions[2..]);
    FirstStep(s1, actions[1..]);
    FirstStep(Init(), actions);
  }

  // ----- what is committed, and when the cache is settled

  /** The first commit or rollback of the transaction in these actions is a commit. */
  predicate Commits(actions: seq<Action>, tx: Tx) {
    actions != [] && (actions[0] == Commit(tx) || (actions[0] != Rollback(tx) && Commits(actions[1..], tx)))
  }

  /** The key is inserted by a transaction that then commits. */
  predicate Lands(actions: seq<Action>, k: Key) {
    && actions != []
    && ((actions[0].Insert? && actions[0].key == k && Commits(actions[1..], actions[0].tx)) || Lands(actions[1..], k))
  }

  ghost predicate HeldLands(s: State, actions: seq<Action>, k: Key) {
    exists tx :: k in Held(s, tx) && Commits(actions, tx)
  }

  /** What one action does to a key that some transaction holds or that is inserted. */
  lemma LandsStep(s: State, actions: seq<Action>, k: Key)
    requires actions != []
    ensures var s', rest := Apply(s, actions[0]), actions[1..];
      (k in s'.committed || HeldLands(s', rest, k) || Lands(rest, k)) <==>
      (k in s.committed || HeldLands(s, actions, k) || Lands(actions, k))
  {
    var a, s', rest := actions[0], Apply(s, actions[0]), actions[1..];
    if HeldLands(s', rest, k) {
      var tx :| k in Held(s', tx) && Commits(rest, tx);
      assert (k in Held(s, tx) && Commits(actions, tx)) || a == Insert(tx, k);
    }
    if HeldLands(s, actions, k) {
      var tx :| k in Held(s, tx) && Commits(actions, tx);
      assert a == Commit(tx) || (k in Held(s', tx) && Commits(rest, tx));
    }
    if a.Insert? && a.key == k && Commits(rest, a.tx) {
      assert k in Held(s', a.tx);
    }
  }

  lemma {:induction false} CommittedFrom(s: State, actions: seq<Action>, k: Key)
    ensures k in Exec(s, actions).committed <==> k in s.committed || HeldLands(s, actions, k) || Lands(actions, k)
    decreases |actions|
  {
    if actions != [] {
      LandsStep(s, actions, k);
      CommittedFrom(Apply(s, actions[0]), actions[1..], k);
    }
  }

  /** After every run, the committed keys are those that a transaction inserted before it committed. */
  lemma CommittedExactly(actions: seq<Action>, k: Key)
    ensures k in Exec(Init(), actions).committed <==> Lands(actions, k)
  {
    CommittedFrom(Init(), actions, k);
  }

  /** The cache holds a key not above `k` and no lookup is under way. */
  predicate CachedBelow(s: State, k: Key) {
    s.oldest.Some? && !Lt(k, s.oldest.value) && s.checked == {} && s.reading == map[]
  }

  /** Once the cache is set and the lookups are through, every run from there only lowers it. */
  lemma {:induction false} CacheOnlyLowers(s: State, actions: seq<Action>)
    requires Feasible(s, actions) && s.oldest.Some? && s.checked == {} && s.reading == map[]
    ensures CachedBelow(Exec(s, actions), s.oldest.value)
    decreases |actions|
  {
    if actions != [] {
      CacheOnlyLowers(Apply(s, actions[0]), actions[1..]);
    }
  }

  /** A rolled-back insert leaves nothing behind but a lowered cache. */
  lemma RollbackLeaves(s: State, tx: Tx, key: Key)
    requires tx !in s.open
    ensures var actions := [Insert(tx, key), Rollback(tx)];
      && Feasible(s, actions)
      && Exec(s, actions) ==
         if s.oldest.Some? && Lt(key, s.oldest.value) then s.(oldest := Some(key)) else s
  {
    var s1 := Apply(s, Insert(tx, key));
    assert s1.open - {tx} == s.open;
    FirstStep(s, [Insert(tx, key), Rollback(tx)]);
    FirstStep(s1, [Rollback(tx)]);
  }

  /** A lookup that found the cache empty and the table not caches the oldest committed key. */
  lemma LookupCachesOldest(s: State, r: Reader, k: Key)
    requires r in s.checked && OldestOf(s.committed, k)
    ensures !Enabled(s, ReadNothing(r)) && forall x | Enabled(s, Read(r, x)) :: x == k
    ensures Feasible(s, [Read(r, k), Write(r)]) && Exec(s, [Read(r, k), Write(r)]).oldest == Some(k)
  {
    var s1 := Apply(s, Read(r, k));
    FirstStep(s1, [Write(r)]);
    FirstStep(s, [Read(r, k), Write(r)]);
  }

  /** A lookup in an empty table leaves everything as it was. */
  lemma EmptyLookupLeaves(s: State, r: Reader)
    requires s.committed == {} && s.oldest.None? && r !in s.checked && r !in s.reading
    ensures Feasible(s, [Check(r), ReadNothing(r)]) && Exec(s, [Check(r), ReadNothing(r)]) == s
  {
    var s1 := Apply(s, Check(r));
    assert s1.checked - {r} == s.checked;
    FirstStep(s, [Check(r), ReadNothing(r)]);
    FirstStep(s1, [ReadNothing(r)]);
  }
}
