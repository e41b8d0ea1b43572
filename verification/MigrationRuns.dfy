/** What a migration run means for the module's states, and for everyone else's. */
module MigrationRuns {
  import opened Options
  import opened Encoding
  import opened MigrateState
  import opened Migration

  /** Duplicate-free lists of the instance's own states. */
  predicate Clean(lists: Lists, instance: nat) {
    && NoDuplicates(lists.active) && NoDuplicates(lists.inactive)
    && (forall st <- lists.active :: OwnedBy(st, instance))
    && (forall st <- lists.inactive :: OwnedBy(st, instance))
  }

  /** Migrations that stay within the module's prefix and return no state twice. */
  ghost predicate Confined(migrations: Migrations, instance: nat) {
    forall v, lists | v in migrations && Clean(lists, instance) ::
      var (data, r) := migrations[v](lists.data, lists.active, lists.inactive);
      r.NewStates? ==> Clean(Lists(r.active, r.inactive, data), instance)
  }

  /** The plain left fold, with no regard to any table. */
  function PlainFold(migrations: Migrations, version: nat, target: nat, lists: Lists): Option<Lists>
    decreases target - version
  {
    if target <= version then Some(lists)
    else if version !in migrations then PlainFold(migrations, version + 1, target, lists)
    else
      var (data, next) := migrations[version](lists.data, lists.active, lists.inactive);
      match next
      case MigrationFailed => None
      case Unchanged => PlainFold(migrations, version + 1, target, Lists(lists.active, lists.inactive, data))
      case NewStates(a, i) => PlainFold(migrations, version + 1, target, Lists(a, i, data))
  }

  /** Rows of other instances, as a pair of tables. */
  predicate Others(foreign: (Table, Table), instance: nat) {
    && (forall st <- foreign.0 :: !OwnedBy(st, instance))
    && (forall st <- foreign.1 :: !OwnedBy(st, instance))
  }

  lemma {:induction false} ConfinedFold(
      migrations: Migrations, version: nat, target: nat, lists: Lists, foreign: (Table, Table), instance: nat)
    requires Confined(migrations, instance) && Clean(lists, instance) && Others(foreign, instance)
    ensures Fold(migrations, version, target, lists, foreign) ==
      match PlainFold(migrations, version, target, lists)
      case None => FoldFailed
      case Some(l) => Folded(l)
    ensures PlainFold(migrations, version, target, lists).Some? ==>
      Clean(PlainFold(migrations, version, target, lists).value, instance)
    decreases target - version
  {
    if version < target {
      var (data, next) := NextLists(migrations, version, lists);
      match next {
        case MigrationFailed =>
        case Unchanged => ConfinedFold(migrations, version + 1, target, lists.(data := data), foreign, instance);
        case NewStates(a, i) =>
          assert Clean(Lists(a, i, data), instance);
          ConfinedFold(migrations, version + 1, target, Lists(a, i, data), foreign, instance);
      }
    }
  }

  lemma ForeignIsOthers(db: Db, instance: nat)
    ensures Others(Foreign(db, instance), instance)
  {
  }

  lemma ReadIsClean(db: Db, instance: nat, lists: Lists)
    requires ReadFrom(db, instance, lists)
    ensures Clean(lists, instance)
  {
    forall st <- lists.active ensures OwnedBy(st, instance) {
      assert st in Elements(lists.active);
    }
    forall st <- lists.inactive ensures OwnedBy(st, instance) {
      assert st in Elements(lists.inactive);
    }
  }

  lemma OwnedOfUnion(foreign: Table, mine: Table, instance: nat)
    requires forall st <- foreign :: !OwnedBy(st, instance)
    requires forall st <- mine :: OwnedBy(st, instance)
    ensures Owned(foreign + mine, instance) == mine
    ensures foreign + mine - Owned(foreign + mine, instance) == foreign
  {
  }

  lemma WrittenStates(db: Db, foreign: (Table, Table), instance: nat, version: nat, lists: Lists)
    requires Others(foreign, instance) && Clean(lists, instance)
    ensures var db' := Written(db, foreign, instance, version, lists);
      && Owned(db'.active, instance) == Elements(lists.active)
      && Owned(db'.inactive, instance) == Elements(lists.inactive)
      && Foreign(db', instance) == foreign
      && DataOf(db', instance) == lists.data
      && db'.data - {instance} == db.data - {instance}
  {
    OwnedOfUnion(foreign.0, Elements(lists.active), instance);
    OwnedOfUnion(foreign.1, Elements(lists.inactive), instance);
  }

  /**
   * The call ends as the fold from `start` does. On success the version is the
   * target, the module's states and data are the fold of what was on disk, those
   * of every other module are untouched, and the old place of the version holds
   * `legacy`.
   */
  ghost predicate EndsAsFold(
      db: Db, migrations: Migrations, instance: nat, lists: Lists, start: nat, legacy: Option<nat>, out: Outcome)
  {
    var target := CurrentVersion(migrations);
    if target < start then out == VersionTooHigh
    else
      match PlainFold(migrations, start, target, lists)
      case None => out == StepFailed
      case Some(l) =>
        && out.Migrated? && out.db.version == Some(target) && out.db.legacyVersion == legacy
        && Owned(out.db.active, instance) == Elements(l.active)
        && Owned(out.db.inactive, instance) == Elements(l.inactive)
        && Foreign(out.db, instance) == Foreign(db, instance)
        && DataOf(out.db, instance) == l.data
        && out.db.data - {instance} == db.data - {instance}
  }

  lemma FoldsFrom(db: Db, migrations: Migrations, instance: nat, isNew: bool, lists: Lists)
    requires Contiguous(migrations.Keys) && Confined(migrations, instance) && ReadFrom(db, instance, lists)
    ensures var db1 := WithVersion(db, isNew, CurrentVersion(migrations));
      EndsAsFold(db, migrations, instance, lists, db1.version.value, db1.legacyVersion,
                 Target(db, migrations, instance, isNew, lists))
  {
    var target := CurrentVersion(migrations);
    var db1 := WithVersion(db, isNew, target);
    var version, foreign := db1.version.value, Foreign(db, instance);
    ForeignIsOthers(db, instance);
    ReadIsClean(db, instance, lists);
    ConfinedFold(migrations, version, target, lists, foreign, instance);
    if version < target {
      match PlainFold(migrations, version, target, lists)
      case None =>
      case Some(l) => WrittenStates(db1, foreign, instance, target, l);
    }
  }

  /**
   * Migration is a fold: with confined migrations the run never panics and ends
   * as the fold does. A version on disk is where the fold starts; else a version
   * in the old place is, and it is removed from there. Without either, a new
   * database is at the target with nothing else touched, and an old one runs all
   * its migrations.
   */
  lemma MigrationIsFold(db: Db, migrations: Migrations, instance: nat, isNew: bool, lists: Lists)
    requires Contiguous(migrations.Keys) && Confined(migrations, instance) && ReadFrom(db, instance, lists)
    ensures var out := Target(db, migrations, instance, isNew, lists);
      match (db.version, db.legacyVersion)
      case (Some(v), legacy) => EndsAsFold(db, migrations, instance, lists, v, legacy, out)
      case (None, Some(v)) => EndsAsFold(db, migrations, instance, lists, v, None, out)
      case (None, None) =>
        if isNew then out == Migrated(db.(version := Some(CurrentVersion(migrations))))
        else EndsAsFold(db, migrations, instance, lists, 0, None, out)
  {
    FoldsFrom(db, migrations, instance, isNew, lists);
  }

  /** Migrations with a gap between their versions are a programming error. */
  lemma GapPanics(db: Db, migrations: Migrations, instance: nat, isNew: bool, lists: Lists, a: nat, v: nat, b: nat)
    requires a in migrations && b in migrations && v !in migrations && a < v < b
    ensures Target(db, migrations, instance, isNew, lists) == Panicked
  {
    assert !Contiguous(migrations.Keys);
  }

  /** The current version is one behind the last migration. */
  lemma CurrentIsBehindLast(migrations: Migrations)
    ensures migrations == map[] ==> CurrentVersion(migrations) == 0
    ensures migrations != map[] ==>
      CurrentVersion(migrations) > 0 && CurrentVersion(migrations) - 1 in migrations
    ensures forall v <- migrations :: v < CurrentVersion(migrations)
  {
  }

  // ----- pointwise migrations compose

  type Rewrites = map<nat, MigrateFn>

  function ByRewrite(migrate: MigrateFn): Step {
    (data, a, i) => (data, MigrateStates(a, i, migrate))
  }

  function Pointwise(rewrites: Rewrites): Migrations {
    map v | v in rewrites :: ByRewrite(rewrites[v])
  }

  /** The states of one table after the rewrites from `version` to `target`. */
  function Rewritten(rewrites: Rewrites, version: nat, target: nat, states: set<StateKey>): set<StateKey>
    decreases target - version
  {
    if target <= version then states
    else
      Rewritten(rewrites, version + 1, target, if version in rewrites then Image(states, rewrites[version]) else states)
  }

  /** Each rewrite on the way fails on no state and keeps states apart. */
  predicate FaithfulAlong(rewrites: Rewrites, version: nat, target: nat, states: set<StateKey>)
    decreases target - version
  {
    target <= version ||
    if version in rewrites then
      && Faithful(rewrites[version], states)
      && FaithfulAlong(rewrites, version + 1, target, Image(states, rewrites[version]))
    else FaithfulAlong(rewrites, version + 1, target, states)
  }

  lemma {:induction false} PointwiseFold(
      rewrites: Rewrites, version: nat, target: nat, lists: Lists, foreign: (Table, Table), instance: nat)
    requires Clean(lists, instance) && Others(foreign, instance)
    requires FaithfulAlong(rewrites, version, target, Elements(lists.active))
    requires FaithfulAlong(rewrites, version, target, Elements(lists.inactive))
    ensures var r := Fold(Pointwise(rewrites), version, target, lists, foreign);
      && r.Folded? && Clean(r.lists, instance) && r.lists.data == lists.data
      && Elements(r.lists.active) == Rewritten(rewrites, version, target, Elements(lists.active))
      && Elements(r.lists.inactive) == Rewritten(rewrites, version, target, Elements(lists.inactive))
    decreases target - version
  {
    if version < target {
      if version in rewrites {
        var migrate := rewrites[version];
        FaithfulList(lists.active, migrate, instance);
        FaithfulList(lists.inactive, migrate, instance);
        var active, inactive := MigrateAll(lists.active, migrate).value, MigrateAll(lists.inactive, migrate).value;
        var next := Lists(active, inactive, lists.data);
        assert NextLists(Pointwise(rewrites), version, lists) == (next.data, NewStates(next.active, next.inactive));
        PointwiseFold(rewrites, version + 1, target, next, foreign, instance);
      } else {
        PointwiseFold(rewrites, version + 1, target, lists, foreign, instance);
      }
    }
  }

  lemma Repeats(list: seq<StateKey>, i: nat, j: nat)
    requires i < |list| && j < |list| && i != j && list[i] == list[j]
    ensures !NoDuplicates(list)
  {
    var first, second := if i < j then i else j, if i < j then j else i;
    assert first < second && list[first] == list[second];
  }

  lemma NoDuplicatesNeedsApart(list: seq<StateKey>, migrate: MigrateFn, x: StateKey, y: StateKey)
    requires MigrateAll(list, migrate).Some? && x in list && y in list && x != y
    requires MigrateOne(x, migrate) == MigrateOne(y, migrate)
    ensures !NoDuplicates(MigrateAll(list, migrate).value)
  {
    MigrateAllPointwise(list, migrate);
    var i :| 0 <= i < |list| && list[i] == x;
    var j :| 0 <= j < |list| && list[j] == y;
    Repeats(MigrateAll(list, migrate).value, i, j);
  }

  /** A rewrite that maps two states of a table to one makes the run panic, and nothing is committed. */
  lemma CollisionPanics(
      rewrites: Rewrites, version: nat, target: nat, lists: Lists, foreign: (Table, Table), x: StateKey, y: StateKey)
    requires version < target && version in rewrites
    requires forall st <- lists.active + lists.inactive :: MigrateOne(st, rewrites[version]).Some?
    requires x != y && MigrateOne(x, rewrites[version]) == MigrateOne(y, rewrites[version])
    requires (x in lists.active && y in lists.active) || (x in lists.inactive && y in lists.inactive)
    ensures Fold(Pointwise(rewrites), version, target, lists, foreign) == FoldPanicked
  {
    var migrate := rewrites[version];
    MigrateAllPointwise(lists.active, migrate);
    MigrateAllPointwise(lists.inactive, migrate);
    if x in lists.active && y in lists.active {
      NoDuplicatesNeedsApart(lists.active, migrate, x, y);
    } else {
      NoDuplicatesNeedsApart(lists.inactive, migrate, x, y);
    }
  }

  /** A rewrite that forgets what distinguished its states. */
  function Forget(operation: nat, bytes: Bytes): Rewrite {
    Replace([9], operation)
  }

  /** Two states of instance 1 in an otherwise empty database at version 0. */
  function TwoStates(): Db {
    Db({StateKey(5, [1, 10]), StateKey(5, [1, 11])}, {}, Some(0), None, map[])
  }

  lemma Forgets(b: byte)
    ensures OwnedBy(StateKey(5, [1, b]), 1)
    ensures MigrateOne(StateKey(5, [1, b]), Forget) == Some(StateKey(5, EncodeBigSize(1) + [9]))
  {
    assert DecodeU16([1, b]) == Got(1, [b]);
  }

  lemma ReadTwoStates(read: Lists)
    requires ReadFrom(TwoStates(), 1, read)
    ensures StateKey(5, [1, 10]) in read.active && StateKey(5, [1, 11]) in read.active
    ensures forall st <- read.active + read.inactive :: MigrateOne(st, Forget).Some?
  {
    Forgets(10);
    Forgets(11);
    assert StateKey(5, [1, 10]) in Elements(read.active) && StateKey(5, [1, 11]) in Elements(read.active);
    forall st <- read.active + read.inactive ensures MigrateOne(st, Forget).Some? {
      assert st in Elements(read.active) || st in Elements(read.inactive);
    }
  }

  lemma ForgettingCollides(read: Lists)
    requires ReadFrom(TwoStates(), 1, read)
    ensures Fold(Pointwise(map[0 := Forget]), 0, 1, read, Foreign(TwoStates(), 1)) == FoldPanicked
  {
    var x, y := StateKey(5, [1, 10]), StateKey(5, [1, 11]);
    ReadTwoStates(read);
    Forgets(10);
    Forgets(11);
    assert x.bytes[1] != y.bytes[1];
    CollisionPanics(map[0 := Forget], 0, 1, read, Foreign(TwoStates(), 1), x, y);
  }

  /** That rewrite panics on those states, whatever order they are read in. */
  lemma ForgettingPanics(out: Outcome)
    requires EndsIn(TwoStates(), Pointwise(map[0 := Forget]), 1, false, out)
    ensures out == Panicked
  {
    var rewrites: Rewrites := map[0 := Forget];
    var read :| ReadFrom(TwoStates(), 1, read) && out == Target(TwoStates(), Pointwise(rewrites), 1, false, read);
    assert Pointwise(rewrites).Keys == {0};
    ForgettingCollides(read);
  }

  /** A step that fails on a state or merges two of them stops the run. */
  lemma UnfaithfulStops(rewrites: Rewrites, version: nat, target: nat, lists: Lists, foreign: (Table, Table))
    requires version < target && version in rewrites
    requires !Faithful(rewrites[version], Elements(lists.active))
          || !Faithful(rewrites[version], Elements(lists.inactive))
    ensures !Fold(Pointwise(rewrites), version, target, lists, foreign).Folded?
  {
    var migrate := rewrites[version];
    MigrateAllPointwise(lists.active, migrate);
    MigrateAllPointwise(lists.inactive, migrate);
    if forall st <- lists.active + lists.inactive :: MigrateOne(st, migrate).Some? {
      var list := if Faithful(migrate, Elements(lists.active)) then lists.inactive else lists.active;
      var x, y :| x in Elements(list) && y in Elements(list) && x != y
        && MigrateOne(x, migrate) == MigrateOne(y, migrate);
      CollisionPanics(rewrites, version, target, lists, foreign, x, y);
    }
  }

  /** A run of per-state rewrites succeeds exactly if each fails on no state and keeps the states of a table apart. */
  lemma {:induction false} FoldedExactly(
      rewrites: Rewrites, version: nat, target: nat, lists: Lists, foreign: (Table, Table), instance: nat)
    requires Clean(lists, instance) && Others(foreign, instance)
    ensures Fold(Pointwise(rewrites), version, target, lists, foreign).Folded? <==>
      && FaithfulAlong(rewrites, version, target, Elements(lists.active))
      && FaithfulAlong(rewrites, version, target, Elements(lists.inactive))
    decreases target - version
  {
    if version < target {
      if version !in rewrites {
        FoldedExactly(rewrites, version + 1, target, lists, foreign, instance);
      } else {
        var migrate := rewrites[version];
        if Faithful(migrate, Elements(lists.active)) && Faithful(migrate, Elements(lists.inactive)) {
          FaithfulList(lists.active, migrate, instance);
          FaithfulList(lists.inactive, migrate, instance);
          var active, inactive := MigrateAll(lists.active, migrate).value, MigrateAll(lists.inactive, migrate).value;
          var next := Lists(active, inactive, lists.data);
          assert NextLists(Pointwise(rewrites), version, lists) == (next.data, NewStates(next.active, next.inactive));
          FoldedExactly(rewrites, version + 1, target, next, foreign, instance);
        } else {
          UnfaithfulStops(rewrites, version, target, lists, foreign);
        }
      }
    }
  }

  lemma {:induction false} RewrittenSplits(rewrites: Rewrites, a: nat, b: nat, c: nat, states: set<StateKey>)
    requires a <= b <= c
    ensures Rewritten(rewrites, a, c, states) == Rewritten(rewrites, b, c, Rewritten(rewrites, a, b, states))
    ensures FaithfulAlong(rewrites, a, c, states) ==>
      FaithfulAlong(rewrites, a, b, states) && FaithfulAlong(rewrites, b, c, Rewritten(rewrites, a, b, states))
    decreases b - a
  {
    if a < b {
      RewrittenSplits(rewrites, a + 1, b, c, if a in rewrites then Image(states, rewrites[a]) else states);
    }
  }

  /** The rewrites below version `b`, as an older client would ship them. */
  function Below(rewrites: Rewrites, b: nat): Rewrites {
    map v | v in rewrites && v < b :: rewrites[v]
  }

  lemma {:induction false} BelowRewrites(rewrites: Rewrites, a: nat, b: nat, states: set<StateKey>)
    ensures Rewritten(Below(rewrites, b), a, b, states) == Rewritten(rewrites, a, b, states)
    ensures FaithfulAlong(Below(rewrites, b), a, b, states) <==> FaithfulAlong(rewrites, a, b, states)
    decreases b - a
  {
    if a < b {
      BelowRewrites(rewrites, a + 1, b, if a in rewrites then Image(states, rewrites[a]) else states);
    }
  }

  /** The database with the instance's states replaced, at a new version. */
  function Replaced(db: Db, instance: nat, version: nat, active: Table, inactive: Table): Db {
    Db(Foreign(db, instance).0 + active, Foreign(db, instance).1 + inactive, Some(version), db.legacyVersion,
       db.data[instance := DataOf(db, instance)])
  }

  lemma TargetFolded(db: Db, migrations: Migrations, instance: nat, isNew: bool, lists: Lists)
    requires Contiguous(migrations.Keys) && db.version.Some? && db.version.value < CurrentVersion(migrations)
    requires Fold(migrations, db.version.value, CurrentVersion(migrations), lists, Foreign(db, instance)).Folded?
    requires Fold(migrations, db.version.value, CurrentVersion(migrations), lists, Foreign(db, instance)).lists.data
          == DataOf(db, instance)
    ensures var l := Fold(migrations, db.version.value, CurrentVersion(migrations), lists, Foreign(db, instance)).lists;
      Target(db, migrations, instance, isNew, lists) ==
        Migrated(Replaced(db, instance, CurrentVersion(migrations), Elements(l.active), Elements(l.inactive)))
  {
  }

  /** One call from its version on disk to the current one, as sets of states. */
  lemma OneCall(db: Db, rewrites: Rewrites, instance: nat, isNew: bool, lists: Lists)
    requires Contiguous(rewrites.Keys) && ReadFrom(db, instance, lists) && db.version.Some?
    requires db.version.value < CurrentVersion(Pointwise(rewrites))
    requires var v, target := db.version.value, CurrentVersion(Pointwise(rewrites));
      && FaithfulAlong(rewrites, v, target, Owned(db.active, instance))
      && FaithfulAlong(rewrites, v, target, Owned(db.inactive, instance))
    ensures var v, target := db.version.value, CurrentVersion(Pointwise(rewrites));
      var act := Rewritten(rewrites, v, target, Owned(db.active, instance));
      var inact := Rewritten(rewrites, v, target, Owned(db.inactive, instance));
      && Target(db, Pointwise(rewrites), instance, isNew, lists) == Migrated(Replaced(db, instance, target, act, inact))
      && (forall st <- act :: OwnedBy(st, instance)) && (forall st <- inact :: OwnedBy(st, instance))
  {
    var v, target := db.version.value, CurrentVersion(Pointwise(rewrites));
    var foreign := Foreign(db, instance);
    assert Pointwise(rewrites).Keys == rewrites.Keys;
    ForeignIsOthers(db, instance);
    ReadIsClean(db, instance, lists);
    PointwiseFold(rewrites, v, target, lists, foreign, instance);
    TargetFolded(db, Pointwise(rewrites), instance, isNew, lists);
  }

  lemma ReplacedStates(db: Db, instance: nat, version: nat, active: Table, inactive: Table)
    requires forall st <- active :: OwnedBy(st, instance)
    requires forall st <- inactive :: OwnedBy(st, instance)
    ensures var db' := Replaced(db, instance, version, active, inactive);
      && Owned(db'.active, instance) == active && Owned(db'.inactive, instance) == inactive
      && Foreign(db', instance) == Foreign(db, instance) && DataOf(db', instance) == DataOf(db, instance)
  {
    ForeignIsOthers(db, instance);
    OwnedOfUnion(Foreign(db, instance).0, active, instance);
    OwnedOfUnion(Foreign(db, instance).1, inactive, instance);
  }

  /**
   * Stopping at a version in between changes nothing: migrating to `b` with the
   * rewrites known then and later from `b` with all of them leaves the same
   * database as migrating in one call, in whatever order the rows are read.
   */
  lemma TwoCallsAreOne(
    db: Db, rewrites: Rewrites, b: nat, instance: nat, isNew: bool,
    read1: Lists, read2: Lists, read: Lists)
    requires db.version.Some? && db.version.value < b
    requires Contiguous(rewrites.Keys) && b - 1 in rewrites && b < CurrentVersion(Pointwise(rewrites))
    requires var v, target := db.version.value, CurrentVersion(Pointwise(rewrites));
      && FaithfulAlong(rewrites, v, target, Owned(db.active, instance))
      && FaithfulAlong(rewrites, v, target, Owned(db.inactive, instance))
    requires ReadFrom(db, instance, read) && ReadFrom(db, instance, read1)
    ensures var half := Target(db, Pointwise(Below(rewrites, b)), instance, isNew, read1);
      && half.Migrated? && half.db.version == Some(b)
      && (ReadFrom(half.db, instance, read2) ==>
            Target(half.db, Pointwise(rewrites), instance, isNew, read2)
              == Target(db, Pointwise(rewrites), instance, isNew, read))
  {
    var a, c := db.version.value, CurrentVersion(Pointwise(rewrites));
    var act, inact := Owned(db.active, instance), Owned(db.inactive, instance);
    BelowVersion(rewrites, b);
    RewrittenSplits(rewrites, a, b, c, act);
    RewrittenSplits(rewrites, a, b, c, inact);
    BelowRewrites(rewrites, a, b, act);
    BelowRewrites(rewrites, a, b, inact);
    OneCall(db, Below(rewrites, b), instance, isNew, read1);
    OneCall(db, rewrites, instance, isNew, read);
    var half := Target(db, Pointwise(Below(rewrites, b)), instance, isNew, read1).db;
    if ReadFrom(half, instance, read2) {
      SecondCall(db, half, rewrites, b, instance, isNew, read2);
    }
  }

  lemma ReplacedTwice(db: Db, instance: nat, b: nat, c: nat, one: (Table, Table), two: (Table, Table))
    requires forall st <- one.0 :: OwnedBy(st, instance)
    requires forall st <- one.1 :: OwnedBy(st, instance)
    ensures Replaced(Replaced(db, instance, b, one.0, one.1), instance, c, two.0, two.1)
         == Replaced(db, instance, c, two.0, two.1)
  {
    ReplacedStates(db, instance, b, one.0, one.1);
    assert db.data[instance := DataOf(db, instance)][instance := DataOf(db, instance)]
        == db.data[instance := DataOf(db, instance)];
  }

  /** The call that finds the database as the first one left it. */
  lemma SecondCall(db: Db, half: Db, rewrites: Rewrites, b: nat, instance: nat, isNew: bool, read: Lists)
    requires db.version.Some? && db.version.value < b < CurrentVersion(Pointwise(rewrites))
    requires Contiguous(rewrites.Keys) && ReadFrom(half, instance, read)
    requires var a, act, inact := db.version.value, Owned(db.active, instance), Owned(db.inactive, instance);
      && half == Replaced(db, instance, b, Rewritten(rewrites, a, b, act), Rewritten(rewrites, a, b, inact))
      && (forall st <- Rewritten(rewrites, a, b, act) :: OwnedBy(st, instance))
      && (forall st <- Rewritten(rewrites, a, b, inact) :: OwnedBy(st, instance))
      && FaithfulAlong(rewrites, a, CurrentVersion(Pointwise(rewrites)), act)
      && FaithfulAlong(rewrites, a, CurrentVersion(Pointwise(rewrites)), inact)
    ensures var a, c := db.version.value, CurrentVersion(Pointwise(rewrites));
      Target(half, Pointwise(rewrites), instance, isNew, read) ==
        Migrated(Replaced(db, instance, c, Rewritten(rewrites, a, c, Owned(db.active, instance)),
                          Rewritten(rewrites, a, c, Owned(db.inactive, instance))))
  {
    var a, c := db.version.value, CurrentVersion(Pointwise(rewrites));
    var act, inact := Owned(db.active, instance), Owned(db.inactive, instance);
    var act', inact' := Rewritten(rewrites, a, b, act), Rewritten(rewrites, a, b, inact);
    RewrittenSplits(rewrites, a, b, c, act);
    RewrittenSplits(rewrites, a, b, c, inact);
    ReplacedStates(db, instance, b, act', inact');
    OneCall(half, rewrites, instance, isNew, read);
    var end := (Rewritten(rewrites, b, c, act'), Rewritten(rewrites, b, c, inact'));
    ReplacedTwice(db, instance, b, c, (act', inact'), end);
  }

  lemma BelowVersion(rewrites: Rewrites, b: nat)
    requires Contiguous(rewrites.Keys) && 0 < b && b - 1 in rewrites
    ensures Contiguous(Below(rewrites, b).Keys)
    ensures CurrentVersion(Pointwise(Below(rewrites, b))) == b
  {
    var below := Below(rewrites, b);
    assert Pointwise(below).Keys == below.Keys;
    assert b - 1 in below;
    var m := MaxOf(below.Keys);
    assert m in below && b - 1 <= m;
  }
}
