/** The operation log: two tables that grow together, and a cached oldest key. */
module OperationLog {
  import opened Options
  import opened LogKeys
  import opened EpochRanges

  datatype LogEntry = LogEntry(operationType: string, meta: string)

  /** Chronological keys in key order, entries by operation id, and the cached oldest key. */
  datatype LogState = LogState(keys: seq<Key>, entries: map<nat, LogEntry>, oldest: Option<Key>)

  function Empty(): LogState {
    LogState([], map[], None)
  }

  /** The cached key bounds the log from below; every listed operation has its entry. */
  ghost predicate Consistent(s: LogState) {
    && Ascending(s.keys)
    && (forall k <- s.keys :: Encodable(k) && k.id in s.entries)
    && (s.oldest.Some? ==> LowerBound(s.keys, s.oldest.value) && Encodable(s.oldest.value))
  }

  /** Inserting an existing operation, or one with no encodable time, panics. */
  predicate CanAdd(s: LogState, key: Key) {
    Encodable(key) && key.id !in s.entries
  }

  function LowerCache(oldest: Option<Key>, key: Key): Option<Key> {
    if oldest.Some? && IsOlder(key, oldest.value) then Some(key) else oldest
  }

  /** Add an entry in a transaction that then commits or rolls back; the cache moves either way. */
  function Added(s: LogState, key: Key, entry: LogEntry, commit: bool): LogState {
    var oldest := LowerCache(s.oldest, key);
    if commit then LogState(Insert(s.keys, key), s.entries[key.id := entry], oldest)
    else s.(oldest := oldest)
  }

  function LookedUp(s: LogState): LogState {
    if s.oldest.None? && s.keys != [] then s.(oldest := Some(s.keys[0])) else s
  }

  lemma AddConsistent(s: LogState, key: Key, entry: LogEntry, commit: bool)
    requires Consistent(s) && CanAdd(s, key)
    ensures Consistent(Added(s, key, entry, commit))
  {
    assert key !in s.keys;
    InsertAscending(s.keys, key);
    var s' := Added(s, key, entry, commit);
    if s'.oldest.Some? {
      forall x <- s'.keys ensures !Lt(x, s'.oldest.value) {
        assert x in s.keys || x == key;
      }
    }
  }

  lemma LookupConsistent(s: LogState)
    requires Consistent(s)
    ensures Consistent(LookedUp(s))
    ensures LookedUp(s).oldest.None? <==> s.keys == [] && s.oldest.None?
  {
    if s.oldest.None? && s.keys != [] {
      forall x <- s.keys ensures !Lt(x, s.keys[0]) {
        var i :| 0 <= i < |s.keys| && s.keys[i] == x;
        assert i > 0 ==> Lt(s.keys[0], s.keys[i]);
      }
      assert s.keys[0] in s.keys;
    }
  }

  /** Without a last seen key, paging starts thirty seconds in the future. */
  function StartKey(lastSeen: Option<Key>, now: int): Key {
    match lastSeen
    case Some(key) => key
    case None => Key(now + 30 * NANOS, 0)
  }

  /** What a page call returns: nothing on an empty log, else a walk back to the cached oldest key. */
  function PageCall(s: LogState, start: Key, limit: nat): PageResult {
    match LookedUp(s).oldest
    case None => Page([])
    case Some(oldest) => PageWalk(s.keys, start, oldest, limit, EPOCH_DURATION)
  }

  /** The walk back to the cached key would ask for a time before the Unix epoch. */
  predicate CallPanics(s: LogState, start: Key, limit: nat) {
    LookedUp(s).oldest.Some? && PanicsAt(s.keys, start, LookedUp(s).oldest.value, limit, EPOCH_DURATION)
  }

  /** Since the cached key bounds the log, a page call is "sort descending and take" or the panic. */
  lemma OnePage(s: LogState, start: Key, limit: nat)
    requires Consistent(s)
    ensures PageCall(s, start, limit) ==
      if CallPanics(s, start, limit) then EncodePanic else Page(PageOf(s.keys, start, limit))
  {
    LookupConsistent(s);
    if LookedUp(s).oldest.Some? {
      WalkExact(s.keys, start, LookedUp(s).oldest.value, limit, EPOCH_DURATION);
      PanicsExactly(s.keys, start, LookedUp(s).oldest.value, limit, EPOCH_DURATION);
    }
  }

  lemma NewestOfTwo(a: Key, b: Key, start: Key)
    requires Lt(a, start) && Lt(b, start)
    ensures NewestFirst([a, b], start) == [b, a]
  {
    var keys := [a, b];
    assert keys[1..] == [b] && [b][1..] == [];
    assert Rank([b], start) == 1 && Rank(keys, start) == 2;
    assert keys[..2] == keys && Reverse([b]) == [b];
  }

  lemma FindsSecond(a: Key, b: Key, range: KeyRange)
    requires Lt(a, range.lo) && Contains(range, b)
    ensures FindByRange([a, b], range.lo, range.hi) == [b]
  {
    var keys := [a, b];
    assert keys[1..] == [b] && [b][1..] == [];
    assert FindByRange([b], range.lo, range.hi) == [b];
  }

  lemma WalksOnce(keys: seq<Key>, range: KeyRange, b: Key, limit: nat)
    requires Encodable(range.lo) && FindByRange(keys, range.lo, range.hi) == [b] && 1 < limit
    ensures Walk(keys, [range], [], limit) == Page([b])
  {
    var none: seq<Key> := [];
    assert none + [b] == [b] && [b][..0] == none && [range][1..] == [];
    assert Pushed(none, [b], limit) == Pushed([b], none, limit) == ([b], false);
  }

  /** A cached key above a committed one hides it: the bound is what pages rest on. */
  lemma HighCacheHides(a: Key, b: Key, start: Key, limit: nat)
    requires 0 <= a.time && a.time + EPOCH_DURATION < start.time && 1 < limit
    requires Lt(b, start) && start.time - EPOCH_DURATION < b.time
    ensures PageCall(LogState([a, b], map[], Some(b)), start, limit) == Page([b])
    ensures PageOf([a, b], start, limit) == [b, a]
  {
    var low := start.time - EPOCH_DURATION;
    var range := KeyRange(Key(low, 0), start);
    assert RangesFrom(start, low, b, EPOCH_DURATION) == [];
    assert RevEpochRanges(start, b, EPOCH_DURATION) == [range];
    FindsSecond(a, b, range);
    WalksOnce([a, b], range, b, limit);
    NewestOfTwo(a, b, start);
  }

  /** The newest of the keys that qualify, in descending order, up to the limit, which acts like at least one. */
  ghost predicate NewestOf(keys: seq<Key>, qualifies: Key -> bool, limit: nat, page: seq<Key>) {
    && (forall k <- page :: k in keys && qualifies(k))
    && (forall i, j | 0 <= i < j < |page| :: Lt(page[j], page[i]))
    && |page| <= (if limit == 0 then 1 else limit)
    && (forall k <- keys | qualifies(k) && k !in page ::
          |page| == (if limit == 0 then 1 else limit) && forall p <- page :: Lt(k, p))
  }

  lemma PageIsNewest(keys: seq<Key>, start: Key, limit: nat, qualifies: Key -> bool)
    requires Ascending(keys) && forall k <- keys :: qualifies(k) <==> Lt(k, start)
    ensures NewestOf(keys, qualifies, limit, PageOf(keys, start, limit))
  {
    var all, page := NewestFirst(keys, start), PageOf(keys, start, limit);
    NewestFirstExact(keys, start);
    assert forall n | 0 <= n < |page| :: page[n] == all[n];
    forall k <- page ensures k in keys && qualifies(k) {
      var n :| 0 <= n < |page| && page[n] == k;
      assert all[n] in all;
    }
    forall k <- keys | qualifies(k) && k !in page
      ensures |page| == PageSize(limit) && forall p <- page :: Lt(k, p)
    {
      assert k in all;
      var i :| 0 <= i < |all| && all[i] == k;
      assert forall n | 0 <= n < |page| :: all[n] in page;
      forall p <- page ensures Lt(k, p) {
        var j :| 0 <= j < |page| && page[j] == p;
        assert all[j] == p;
      }
    }
  }

  /** What a page call shows: without a last key everything up to half a minute ahead, else what is below it. */
  lemma CallIsNewest(s: LogState, lastSeen: Option<Key>, now: int, limit: nat)
    requires Consistent(s)
    ensures var call := PageCall(s, StartKey(lastSeen, now), limit);
      && (call.Page? && lastSeen.None? ==> NewestOf(s.keys, (k: Key) => k.time < now + 30 * NANOS, limit, call.keys))
      && (call.Page? && lastSeen.Some? ==> NewestOf(s.keys, (k: Key) => Lt(k, lastSeen.value), limit, call.keys))
  {
    var start := StartKey(lastSeen, now);
    OnePage(s, start, limit);
    if lastSeen.None? {
      PageIsNewest(s.keys, start, limit, (k: Key) => k.time < now + 30 * NANOS);
    } else {
      PageIsNewest(s.keys, start, limit, (k: Key) => Lt(k, lastSeen.value));
    }
  }

  // ----- every history of the log

  datatype Event = Add(key: Key, entry: LogEntry, commit: bool) | Lookup

  /** An add that panics drops its transaction and leaves everything as it was. */
  function Step(s: LogState, e: Event): LogState {
    match e
    case Add(key, entry, commit) => if CanAdd(s, key) then Added(s, key, entry, commit) else s
    case Lookup => LookedUp(s)
  }

  function History(s: LogState, events: seq<Event>): LogState {
    if events == [] then s else Step(History(s, events[..|events| - 1]), events[|events| - 1])
  }

  lemma {:induction false} HistoryConsistent(events: seq<Event>)
    ensures Consistent(History(Empty(), events))
    decreases |events|
  {
    if events != [] {
      var init, e := events[..|events| - 1], events[|events| - 1];
      HistoryConsistent(init);
      var s := History(Empty(), init);
      if e.Lookup? {
        LookupConsistent(s);
      } else if CanAdd(s, e.key) {
        AddConsistent(s, e.key, e.entry, e.commit);
      }
    }
  }

  /** The committed keys of a history, which is what its pages must show. */
  function Committed(events: seq<Event>): set<Key>
  {
    if events == [] then {}
    else
      var init, e := events[..|events| - 1], events[|events| - 1];
      if e.Add? && e.commit && 0 <= e.key.time && forall k <- Committed(init) :: k.id != e.key.id
      then Committed(init) + {e.key}
      else Committed(init)
  }

  /** An operation with this id was committed. */
  ghost predicate Listed(keys: set<Key>, id: nat) {
    exists k <- keys :: k.id == id
  }

  lemma {:induction false} TableIsCommitted(events: seq<Event>)
    ensures forall k :: k in History(Empty(), events).keys <==> k in Committed(events)
    ensures forall id :: id in History(Empty(), events).entries <==> Listed(Committed(events), id)
    decreases |events|
  {
    if events != [] {
      var init, e := events[..|events| - 1], events[|events| - 1];
      TableIsCommitted(init);
      HistoryConsistent(init);
      var s, before, after := History(Empty(), init), Committed(init), Committed(events);
      if e.Add? {
        assert e.key.id in s.entries <==> Listed(before, e.key.id);
        if e.commit && CanAdd(s, e.key) {
          assert e.key !in s.keys;
          InsertAscending(s.keys, e.key);
          assert after == before + {e.key};
          forall id ensures id in s.entries || id == e.key.id <==> Listed(after, id) {
            assert e.key in after;
          }
        }
      }
    }
  }

  /** The entries of a history's committed adds. */
  function CommittedEntries(events: seq<Event>): map<nat, LogEntry> {
    if events == [] then map[]
    else
      var init, e := events[..|events| - 1], events[|events| - 1];
      var before := CommittedEntries(init);
      if e.Add? && e.commit && 0 <= e.key.time && e.key.id !in before then before[e.key.id := e.entry] else before
  }

  /** The log holds exactly the entries that were given with its committed operations, each as first given. */
  lemma {:induction false} EntriesAreCommitted(events: seq<Event>)
    ensures History(Empty(), events).entries == CommittedEntries(events)
    decreases |events|
  {
    if events != [] {
      EntriesAreCommitted(events[..|events| - 1]);
    }
  }

  class OperationLog {
    var keys: seq<Key>
    var entries: map<nat, LogEntry>
    var oldestEntry: Option<Key>

    function State(): LogState
      reads this
    {
      LogState(keys, entries, oldestEntry)
    }

    constructor ()
      ensures State() == Empty()
    {
      keys, entries, oldestEntry := [], map[], None;
    }

    /** The cached oldest key, filled from the database when there is none. */
    method GetOldestOperationLogKey() returns (oldest: Option<Key>)
      requires Consistent(State())
      modifies this`oldestEntry
      ensures State() == LookedUp(old(State())) && Consistent(State())
      ensures oldest == oldestEntry
      ensures oldest.None? ==> keys == []
      ensures oldest.Some? ==> forall k <- keys :: !Lt(k, oldest.value)
    {
      LookupConsistent(State());
      if oldestEntry.Some? {
        return oldestEntry;
      }
      if keys != [] {
        oldestEntry := Some(keys[0]);
      }
      oldest := oldestEntry;
    }

    method AddOperationLogEntry(key: Key, entry: LogEntry, commit: bool) returns (panicked: bool)
      requires Consistent(State())
      modifies this
      ensures Consistent(State())
      ensures panicked <==> key.time < 0 || key.id in old(entries)
      ensures State() == if panicked then old(State()) else Added(old(State()), key, entry, commit)
      ensures !panicked && commit ==>
        entries == old(entries)[key.id := entry] && forall k :: k in keys <==> k in old(keys) || k == key
      ensures !commit ==> entries == old(entries) && keys == old(keys)
      ensures oldestEntry ==
        if !panicked && old(oldestEntry).Some? && Lt(key, old(oldestEntry).value) then Some(key) else old(oldestEntry)
    {
      if key.time < 0 || key.id in entries {
        return true;
      }
      AddConsistent(State(), key, entry, commit);
      InsertAscending(keys, key);
      if commit {
        entries := entries[key.id := entry];
        keys := Insert(keys, key);
      }
      if oldestEntry.Some? && IsOlder(key, oldestEntry.value) {
        oldestEntry := Some(key);
      }
      panicked := false;
    }

    /** One page with its entries; the lookup of each entry cannot fail. */
    method PaginateOperationsRev(
        limit: nat, lastSeen: Option<Key>, now: int) returns (page: PageResult, found: seq<LogEntry>)
      requires Consistent(State())
      modifies this`oldestEntry
      ensures State() == LookedUp(old(State())) && Consistent(State())
      ensures page == PageCall(old(State()), StartKey(lastSeen, now), limit)
      ensures page.Page? && lastSeen.None? ==> NewestOf(keys, (k: Key) => k.time < now + 30 * NANOS, limit, page.keys)
      ensures page.Page? && lastSeen.Some? ==> NewestOf(keys, (k: Key) => Lt(k, lastSeen.value), limit, page.keys)
      ensures page.Page? ==> |found| == |page.keys|
      ensures page.Page? ==> forall i | 0 <= i < |found| ::
        page.keys[i].id in entries && found[i] == entries[page.keys[i].id]
    {
      var startAfter := StartKey(lastSeen, now);
      CallIsNewest(State(), lastSeen, now, limit);
      var oldest := GetOldestOperationLogKey();
      if oldest.None? {
        return Page([]), [];
      }
      page := CollectPage(keys, startAfter, oldest.value, limit, EPOCH_DURATION);
      found := [];
      if page.Page? {
        found := FindEntries(page.keys);
      }
    }

    /** The entries of a page, whose lookup cannot fail. */
    method FindEntries(page: seq<Key>) returns (found: seq<LogEntry>)
      requires Consistent(State()) && forall k <- page :: k in keys
      ensures |found| == |page|
      ensures forall i | 0 <= i < |page| :: page[i].id in entries && found[i] == entries[page[i].id]
    {
      found := [];
      var i := 0;
      while i < |page|
        invariant 0 <= i <= |page| && |found| == i
        invariant forall j | 0 <= j < i :: page[j].id in entries && found[j] == entries[page[j].id]
      {
        assert page[i] in keys;
        found := found + [entries[page[i].id]];
        i := i + 1;
      }
    }
  }
}
