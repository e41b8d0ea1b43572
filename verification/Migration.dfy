/** Stepping a client module's database from its version on disk to the current one. */
module Migration {
  import opened Options
  import opened Encoding
  import opened MigrateState

  /** What a module keeps under its own prefix. */
  type ModuleData = map<Bytes, Bytes>

  /** What the loop carries from one migration to the next. */
  datatype Lists = Lists(active: seq<StateKey>, inactive: seq<StateKey>, data: ModuleData)

  /**
   * What the transaction holds: the two state tables, the module's version in
   * its new and its old place, and the data of each module instance.
   */
  datatype Db = Db(
    active: Table,
    inactive: Table,
    version: Option<nat>,
    legacyVersion: Option<nat>,
    data: map<nat, ModuleData>
  )

  function DataOf(db: Db, instance: nat): ModuleData {
    if instance in db.data then db.data[instance] else map[]
  }

  /** A module's migration from one version to the next; it may also rewrite its own data. */
  type Step = (ModuleData, seq<StateKey>, seq<StateKey>) -> (ModuleData, MigrationResult)

  type Migrations = map<nat, Step>

  datatype Outcome = Migrated(db: Db) | VersionTooHigh | StepFailed | Panicked

  // ----- versions

  predicate IsMax(s: set<nat>, m: nat) {
    m in s && forall x <- s :: x <= m
  }

  lemma {:induction false} MaxExists(s: set<nat>)
    requires s != {}
    ensures exists m :: IsMax(s, m)
    decreases |s|
  {
    var x :| x in s;
    if s == {x} {
      assert IsMax(s, x);
    } else {
      MaxExists(s - {x});
      var m :| IsMax(s - {x}, m);
      assert s == s - {x} + {x};
      assert IsMax(s, if m < x then x else m);
    }
  }

  function MaxOf(s: set<nat>): (m: nat)
    requires s != {}
    ensures m in s && forall x <- s :: x <= m
  {
    MaxExists(s);
    var m :| m in s && IsMax(s, m);
    m
  }

  predicate Contiguous(versions: set<nat>) {
    forall a <- versions, b <- versions :: forall v | a <= v <= b :: v in versions
  }

  /** One more than the last migration. */
  function CurrentVersion(migrations: Migrations): nat {
    if migrations.Keys == {} then 0 else MaxOf(migrations.Keys) + 1
  }

  /** The version is written first if it is missing, from its old place, or from how new the database is. */
  function WithVersion(db: Db, isNew: bool, target: nat): Db {
    if db.version.Some? then db
    else
      var v := if db.legacyVersion.Some? then db.legacyVersion.value else if isNew then target else 0;
      db.(version := Some(v), legacyVersion := None)
  }

  // ----- replacing the states of one table

  predicate Insertable(news: seq<StateKey>, rest: Table) {
    NoDuplicates(news) && Elements(news) !! rest
  }

  /** Remove the old states, insert the new ones; a missing row or an existing one panics. */
  method RemoveOldAndPersistNew(table: Table, news: seq<StateKey>, olds: seq<StateKey>) returns (r: Option<Table>)
    ensures r.Some? <==> NoDuplicates(olds) && Elements(olds) <= table && Insertable(news, table - Elements(olds))
    ensures r.Some? ==> r.value == table - Elements(olds) + Elements(news)
  {
    var rows := table;
    var i := 0;
    while i < |olds|
      invariant 0 <= i <= |olds|
      invariant NoDuplicates(olds[..i]) && Elements(olds[..i]) <= table
      invariant rows == table - Elements(olds[..i])
    {
      assert olds[..i + 1] == olds[..i] + [olds[i]];
      ElementsAppend(olds[..i], olds[i]);
      if olds[i] !in rows {
        RemovalMisses(table, olds, i);
        return None;
      }
      rows := rows - {olds[i]};
      i := i + 1;
    }
    assert olds[..i] == olds;
    i := 0;
    while i < |news|
      invariant 0 <= i <= |news|
      invariant Insertable(news[..i], table - Elements(olds))
      invariant rows == table - Elements(olds) + Elements(news[..i])
    {
      assert news[..i + 1] == news[..i] + [news[i]];
      ElementsAppend(news[..i], news[i]);
      if news[i] in rows {
        InsertionHits(table - Elements(olds), news, i);
        return None;
      }
      rows := rows + {news[i]};
      i := i + 1;
    }
    assert news[..i] == news;
    r := Some(rows);
  }

  lemma RemovalMisses(table: Table, olds: seq<StateKey>, i: nat)
    requires i < |olds| && olds[i] !in table - Elements(olds[..i])
    ensures !(NoDuplicates(olds) && Elements(olds) <= table)
  {
    assert olds[i] in Elements(olds);
    if olds[i] in olds[..i] {
      var j :| 0 <= j < i && olds[..i][j] == olds[i];
      assert olds[j] == olds[i];
    }
  }

  lemma InsertionHits(rest: Table, news: seq<StateKey>, i: nat)
    requires i < |news| && news[i] in rest + Elements(news[..i])
    ensures !Insertable(news, rest)
  {
    assert news[i] in Elements(news);
    if news[i] in news[..i] {
      var j :| 0 <= j < i && news[..i][j] == news[i];
      assert news[j] == news[i];
    }
  }

  /** The states of one instance, in some order. */
  method GetStates(table: Table, instance: nat) returns (list: seq<StateKey>)
    ensures NoDuplicates(list) && Elements(list) == Owned(table, instance)
  {
    list := [];
    var todo := table;
    while todo != {}
      invariant todo <= table && NoDuplicates(list)
      invariant Elements(list) == Owned(table - todo, instance)
      decreases |todo|
    {
      var st :| st in todo;
      ElementsAppend(list, st);
      if OwnedBy(st, instance) {
        assert st !in Elements(list);
        list := list + [st];
      }
      assert table - (todo - {st}) == (table - todo) + {st};
      todo := todo - {st};
    }
    assert table - {} == table;
  }

  // ----- the loop as a fold

  datatype FoldResult = Folded(lists: Lists) | FoldFailed | FoldPanicked

  function NextLists(migrations: Migrations, version: nat, lists: Lists): (ModuleData, MigrationResult) {
    if version in migrations then migrations[version](lists.data, lists.active, lists.inactive)
    else (lists.data, Unchanged)
  }

  /** One migration; `foreign` are the rows that are not the module's. */
  function FoldStep(migrations: Migrations, version: nat, lists: Lists, foreign: (Table, Table)): FoldResult {
    var (data, next) := NextLists(migrations, version, lists);
    match next
    case MigrationFailed => FoldFailed
    case Unchanged => Folded(lists.(data := data))
    case NewStates(a, i) =>
      if Insertable(a, foreign.0) && Insertable(i, foreign.1) then Folded(Lists(a, i, data)) else FoldPanicked
  }

  /** The migrations from `version` to `target`, one after the other. */
  function Fold(migrations: Migrations, version: nat, target: nat, lists: Lists, foreign: (Table, Table)): FoldResult
    decreases target - version
  {
    if target <= version then Folded(lists)
    else
      match FoldStep(migrations, version, lists, foreign)
      case Folded(next) => Fold(migrations, version + 1, target, next, foreign)
      case FoldFailed => FoldFailed
      case FoldPanicked => FoldPanicked
  }

  ghost predicate ReadFrom(db: Db, instance: nat, lists: Lists) {
    && NoDuplicates(lists.active) && Elements(lists.active) == Owned(db.active, instance)
    && NoDuplicates(lists.inactive) && Elements(lists.inactive) == Owned(db.inactive, instance)
    && lists.data == DataOf(db, instance)
  }

  function Foreign(db: Db, instance: nat): (Table, Table) {
    (db.active - Owned(db.active, instance), db.inactive - Owned(db.inactive, instance))
  }

  /** The database with the module's states and data as the loop carries them. */
  function Written(db: Db, foreign: (Table, Table), instance: nat, version: nat, lists: Lists): Db {
    Db(foreign.0 + Elements(lists.active), foreign.1 + Elements(lists.inactive), Some(version),
       db.legacyVersion, db.data[instance := lists.data])
  }

  /** Where the loop ends. */
  function LoopEnd(db: Db, foreign: (Table, Table), instance: nat, target: nat, folded: FoldResult): Outcome {
    match folded
    case FoldFailed => StepFailed
    case FoldPanicked => Panicked
    case Folded(l) => Migrated(Written(db, foreign, instance, target, l))
  }

  /** Where the whole call ends, given the order in which the states were read. */
  function Target(db: Db, migrations: Migrations, instance: nat, isNew: bool, lists: Lists): Outcome {
    if !Contiguous(migrations.Keys) then Panicked
    else
      var target := CurrentVersion(migrations);
      var db1 := WithVersion(db, isNew, target);
      var version := if db1.version.Some? then db1.version.value else target;
      if version == target then Migrated(db1)
      else if target < version then VersionTooHigh
      else
        var foreign := Foreign(db, instance);
        LoopEnd(db1, foreign, instance, target, Fold(migrations, version, target, lists, foreign))
  }

  lemma SwapRows(table: Table, foreign: Table, olds: seq<StateKey>)
    requires table == foreign + Elements(olds) && foreign !! Elements(olds)
    ensures Elements(olds) <= table && table - Elements(olds) == foreign
  {
  }

  /** What a call may end in, whatever order the rows are read in. */
  ghost predicate EndsIn(db: Db, migrations: Migrations, instance: nat, isNew: bool, out: Outcome) {
    exists read :: ReadFrom(db, instance, read) && out == Target(db, migrations, instance, isNew, read)
  }

  /** The lists in memory are what a table holds for the module. */
  predicate Matches(table: Table, foreign: Table, list: seq<StateKey>) {
    NoDuplicates(list) && table == foreign + Elements(list) && foreign !! Elements(list)
  }

  predicate InStep(db: Db, foreign: (Table, Table), lists: Lists) {
    Matches(db.active, foreign.0, lists.active) && Matches(db.inactive, foreign.1, lists.inactive)
  }

  /** Replace one table's rows; no removal misses its row. */
  method ReplaceRows(table: Table, ghost foreign: Table, olds: seq<StateKey>, news: seq<StateKey>)
    returns (r: Option<Table>)
    requires Matches(table, foreign, olds)
    ensures r.Some? <==> Insertable(news, foreign)
    ensures r.Some? ==> Matches(r.value, foreign, news)
  {
    SwapRows(table, foreign, olds);
    r := RemoveOldAndPersistNew(table, news, olds);
  }

  /** One turn of the loop. */
  method ApplyOne(
      db: Db, migrations: Migrations, instance: nat, version: nat, lists: Lists, ghost foreign: (Table, Table))
    returns (r: FoldResult, db': Db)
    requires InStep(db, foreign, lists)
    ensures r == FoldStep(migrations, version, lists, foreign)
    ensures r.Folded? ==> InStep(db', foreign, r.lists) && db' == Written(db, foreign, instance, version + 1, r.lists)
  {
    db' := db;
    var (data, next) := NextLists(migrations, version, lists);
    match next {
      case MigrationFailed =>
        return FoldFailed, db';
      case Unchanged =>
        r := Folded(lists.(data := data));
      case NewStates(a, i) =>
        var active := ReplaceRows(db.active, foreign.0, lists.active, a);
        var inactive := ReplaceRows(db.inactive, foreign.1, lists.inactive, i);
        if active.None? || inactive.None? {
          return FoldPanicked, db';
        }
        db' := db.(active := active.value, inactive := inactive.value);
        r := Folded(Lists(a, i, data));
    }
    db' := db'.(version := Some(version + 1), data := db'.data[instance := data]);
  }

  /**
   * The migration loop. The lists in memory are always what the tables hold for
   * the module, so no removal misses its row.
   */
  method MigrationLoop(
      db0: Db, migrations: Migrations, instance: nat, start: nat, target: nat,
      read: Lists, ghost foreign: (Table, Table))
    returns (out: Outcome)
    requires InStep(db0, foreign, read) && start < target
    ensures out == LoopEnd(db0, foreign, instance, target, Fold(migrations, start, target, read, foreign))
  {
    var db, version, lists := db0, start, read;
    while version < target
      invariant start <= version <= target && InStep(db, foreign, lists)
      invariant db == if version == start then db0 else Written(db0, foreign, instance, version, lists)
      invariant Fold(migrations, start, target, read, foreign) == Fold(migrations, version, target, lists, foreign)
    {
      var r, db' := ApplyOne(db, migrations, instance, version, lists, foreign);
      if r.FoldFailed? {
        return StepFailed;
      }
      if r.FoldPanicked? {
        return Panicked;
      }
      assert db'.data == db0.data[instance := r.lists.data];
      db, lists := db', r.lists;
      version := version + 1;
    }
    out := Migrated(db);
  }

  method ApplyMigrations(db0: Db, migrations: Migrations, instance: nat, isNew: bool) returns (out: Outcome)
    ensures EndsIn(db0, migrations, instance, isNew, out)
  {
    var active := GetStates(db0.active, instance);
    var inactive := GetStates(db0.inactive, instance);
    var lists := Lists(active, inactive, DataOf(db0, instance));
    assert ReadFrom(db0, instance, lists);
    if !Contiguous(migrations.Keys) {
      return Panicked;
    }
    var target := CurrentVersion(migrations);
    var db := WithVersion(db0, isNew, target);
    var version := db.version.value;
    if version == target {
      return Migrated(db);
    }
    if target < version {
      return VersionTooHigh;
    }
    out := MigrationLoop(db, migrations, instance, version, target, lists, Foreign(db0, instance));
  }

  /** The store around the transaction: only a successful run is committed. */
  class ClientDatabase {
    var db: Db

    constructor (db: Db)
      ensures this.db == db
    {
      this.db := db;
    }

    method ApplyMigrationsClientModule(migrations: Migrations, instance: nat, isNew: bool) returns (out: Outcome)
      modifies this
      ensures EndsIn(old(db), migrations, instance, isNew, out)
      ensures db == if out.Migrated? then out.db else old(db)
    {
      out := ApplyMigrations(db, migrations, instance, isNew);
      if out.Migrated? {
        db := out.db;
      }
    }
  }
}
