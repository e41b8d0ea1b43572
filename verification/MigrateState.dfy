/** State machine states in the client database, and the pointwise rewrite of them. */
module MigrateState {
  import opened Options
  import opened Encoding

  /**
   * A database row: the key is the operation id and the state bytes, whose
   * first part is the id of the module instance that owns the state.
   */
  datatype StateKey = StateKey(operation: nat, bytes: Bytes)

  type Table = set<StateKey>

  predicate OwnedBy(st: StateKey, instance: nat) {
    var d := DecodeU16(st.bytes);
    d.Got? && d.value == instance
  }

  function Owned(table: Table, instance: nat): set<StateKey> {
    set st | st in table && OwnedBy(st, instance)
  }

  function Elements(list: seq<StateKey>): set<StateKey> {
    set st | st in list
  }

  predicate NoDuplicates(list: seq<StateKey>) {
    forall i, j | 0 <= i < j < |list| :: list[i] != list[j]
  }

  lemma ElementsAppend(list: seq<StateKey>, st: StateKey)
    ensures Elements(list + [st]) == Elements(list) + {st}
    ensures NoDuplicates(list + [st]) <==> NoDuplicates(list) && st !in list
  {
    var longer := list + [st];
    assert forall x :: x in longer <==> x in list || x == st;
    if NoDuplicates(longer) {
      forall i | 0 <= i < |list| ensures list[i] != st {
        assert longer[i] != longer[|list|];
      }
      forall i, j | 0 <= i < j < |list| ensures list[i] != list[j] {
        assert longer[i] != longer[j];
      }
    }
  }

  // ----- migrating one state

  datatype Rewrite = Keep | Replace(bytes: Bytes, operation: nat) | Reject

  /** A module's rewrite of one state, given what follows the instance id. */
  type MigrateFn = (nat, Bytes) -> Rewrite

  /** The rewritten state behind the same instance id; `None` when decoding or the rewrite fails. */
  function MigrateOne(st: StateKey, migrate: MigrateFn): Option<StateKey> {
    match DecodeU16(st.bytes)
    case Malformed => None
    case Got(instance, rest) =>
      match migrate(st.operation, rest)
      case Reject => None
      case Keep => Some(st)
      case Replace(bytes, operation) => Some(StateKey(operation, EncodeBigSize(instance) + bytes))
  }

  /** The rewrite keeps the owner, and keeps a state that is not migrated byte for byte. */
  lemma MigrateOneKeeps(st: StateKey, migrate: MigrateFn, instance: nat)
    requires MigrateOne(st, migrate).Some? && OwnedBy(st, instance)
    ensures var st' := MigrateOne(st, migrate).value;
      var rest := DecodeU16(st.bytes).rest;
      && OwnedBy(st', instance)
      && st.bytes == EncodeBigSize(instance) + rest
      && match migrate(st.operation, rest)
         case Replace(bytes, operation) =>
           && st' == StateKey(operation, EncodeBigSize(instance) + bytes)
           && DecodeU16(st'.bytes) == Got(instance, bytes)
         case _ => st' == st
  {
    BigSizeCanonical(st.bytes);
    var rest := DecodeU16(st.bytes).rest;
    var r := migrate(st.operation, rest);
    if r.Replace? {
      BigSizeRoundTrip(instance, r.bytes);
    }
  }

  function MigrateAll(states: seq<StateKey>, migrate: MigrateFn): Option<seq<StateKey>> {
    if states == [] then Some([])
    else
      var init := MigrateAll(states[..|states| - 1], migrate);
      var last := MigrateOne(states[|states| - 1], migrate);
      if init.Some? && last.Some? then Some(init.value + [last.value]) else None
  }

  /** A state whose instance id does not decode, or whose rewrite fails, is the only kind that fails. */
  lemma MigrateOneFails(st: StateKey, migrate: MigrateFn)
    ensures MigrateOne(st, migrate).None? <==> Fails(st, migrate)
  {
  }

  predicate Fails(st: StateKey, migrate: MigrateFn) {
    DecodeU16(st.bytes).Malformed? || migrate(st.operation, DecodeU16(st.bytes).rest).Reject?
  }

  /** Length, order and pointwise results. */
  lemma {:induction false} MigrateAllPointwise(states: seq<StateKey>, migrate: MigrateFn)
    ensures MigrateAll(states, migrate).Some? <==> forall st <- states :: MigrateOne(st, migrate).Some?
    ensures MigrateAll(states, migrate).Some? ==>
      var states' := MigrateAll(states, migrate).value;
      |states'| == |states| && forall i | 0 <= i < |states| :: MigrateOne(states[i], migrate) == Some(states'[i])
    decreases |states|
  {
    if states != [] {
      var init, last := states[..|states| - 1], states[|states| - 1];
      MigrateAllPointwise(init, migrate);
      assert states == init + [last];
      assert forall st :: st in states <==> st in init || st == last;
    }
  }

  lemma {:induction false} MigrateAllPrefix(states: seq<StateKey>, migrate: MigrateFn, n: nat)
    requires n <= |states| && MigrateAll(states[..n], migrate).None?
    ensures MigrateAll(states, migrate).None?
    decreases |states|
  {
    if n < |states| {
      var init := states[..|states| - 1];
      assert init[..n] == states[..n];
      MigrateAllPrefix(init, migrate, n);
    } else {
      assert states[..n] == states;
    }
  }

  /** One of the two loops of the source's rewrite. */
  method MigrateLoop(states: seq<StateKey>, migrate: MigrateFn) returns (r: Option<seq<StateKey>>)
    ensures r == MigrateAll(states, migrate)
  {
    var out: seq<StateKey> := [];
    var i := 0;
    while i < |states|
      invariant 0 <= i <= |states|
      invariant MigrateAll(states[..i], migrate) == Some(out)
    {
      assert states[..i + 1][..i] == states[..i];
      var st := MigrateOne(states[i], migrate);
      if st.None? {
        MigrateAllPrefix(states, migrate, i + 1);
        return None;
      }
      out := out + [st.value];
      i := i + 1;
    }
    assert states[..i] == states;
    r := Some(out);
  }

  /** What a migration hands back: an error, nothing new, or new state lists. */
  datatype MigrationResult =
    | MigrationFailed
    | Unchanged
    | NewStates(active: seq<StateKey>, inactive: seq<StateKey>)

  function MigrateStates(active: seq<StateKey>, inactive: seq<StateKey>, migrate: MigrateFn): MigrationResult {
    var a, i := MigrateAll(active, migrate), MigrateAll(inactive, migrate);
    if a.Some? && i.Some? then NewStates(a.value, i.value) else MigrationFailed
  }

  /** The whole rewrite fails if and only if some state's does; otherwise both lists keep their length. */
  lemma MigrationFailsExactly(active: seq<StateKey>, inactive: seq<StateKey>, migrate: MigrateFn)
    ensures MigrateStates(active, inactive, migrate) == MigrationFailed <==>
      exists st <- active + inactive :: Fails(st, migrate)
    ensures var r := MigrateStates(active, inactive, migrate);
      r != MigrationFailed ==> r.NewStates? && |r.active| == |active| && |r.inactive| == |inactive|
  {
    MigrateAllPointwise(active, migrate);
    MigrateAllPointwise(inactive, migrate);
    forall st ensures MigrateOne(st, migrate).None? <==> Fails(st, migrate) {
      MigrateOneFails(st, migrate);
    }
    if exists st <- active + inactive :: Fails(st, migrate) {
      var st :| st in active + inactive && Fails(st, migrate);
      assert st in active || st in inactive;
    }
    if MigrateStates(active, inactive, migrate) == MigrationFailed {
      var st :| (st in active || st in inactive) && MigrateOne(st, migrate).None?;
      assert st in active + inactive;
    }
  }

  /** The helper that modules build their migrations from. */
  method MigrateStateMachines(
      active: seq<StateKey>, inactive: seq<StateKey>, migrate: MigrateFn) returns (r: MigrationResult)
    ensures r == MigrateStates(active, inactive, migrate)
  {
    var a := MigrateLoop(active, migrate);
    if a.None? {
      return MigrationFailed;
    }
    var i := MigrateLoop(inactive, migrate);
    if i.None? {
      return MigrationFailed;
    }
    r := NewStates(a.value, i.value);
  }

  // ----- as a function on sets of states

  /** A rewrite that fails on none of the states and keeps them apart. */
  predicate Faithful(migrate: MigrateFn, states: set<StateKey>) {
    && (forall st <- states :: MigrateOne(st, migrate).Some?)
    && (forall x <- states, y <- states | x != y :: MigrateOne(x, migrate) != MigrateOne(y, migrate))
  }

  function Image(states: set<StateKey>, migrate: MigrateFn): set<StateKey> {
    set st | st in states && MigrateOne(st, migrate).Some? :: MigrateOne(st, migrate).value
  }

  /** A list of an instance's states without duplicates becomes one for the image. */
  lemma FaithfulList(list: seq<StateKey>, migrate: MigrateFn, instance: nat)
    requires Faithful(migrate, Elements(list))
    requires NoDuplicates(list) && (forall st <- list :: OwnedBy(st, instance))
    ensures MigrateAll(list, migrate).Some?
    ensures var list' := MigrateAll(list, migrate).value;
      && NoDuplicates(list') && Elements(list') == Image(Elements(list), migrate)
      && forall st <- list' :: OwnedBy(st, instance)
  {
    MigrateAllPointwise(list, migrate);
    assert forall st <- list :: st in Elements(list);
    var list' := MigrateAll(list, migrate).value;
    forall i, j | 0 <= i < j < |list'| ensures list'[i] != list'[j] {
      assert list[i] in Elements(list) && list[j] in Elements(list) && list[i] != list[j];
    }
    forall st <- list' ensures OwnedBy(st, instance) {
      var i :| 0 <= i < |list'| && list'[i] == st;
      assert OwnedBy(list[i], instance);
      MigrateOneKeeps(list[i], migrate, instance);
    }
    forall st ensures st in Elements(list') <==> st in Image(Elements(list), migrate) {
      if st in list' {
        var i :| 0 <= i < |list'| && list'[i] == st;
        assert list[i] in Elements(list) && MigrateOne(list[i], migrate) == Some(st);
      }
      if st in Image(Elements(list), migrate) {
        var x :| x in Elements(list) && MigrateOne(x, migrate) == Some(st);
        var i :| 0 <= i < |list| && list[i] == x;
        assert list'[i] == st;
      }
    }
  }
}
