/** Listing the whole log by passing each page's last key back in. */
module LogPages {
  import opened Options
  import opened LogKeys
  import opened EpochRanges
  import opened OperationLog

  /** Page calls, each from the last key of the one before, until a page is empty or a call panics. */
  ghost function FollowPages(s: LogState, start: Key, limit: nat): PageResult
    requires Consistent(s)
    decreases Rank(s.keys, start)
  {
    match PageCall(s, start, limit)
    case EncodePanic => EncodePanic
    case Page(page) =>
      if page == [] then Page([])
      else
        NextCall(s, start, limit);
        match FollowPages(LookedUp(s), page[|page| - 1], limit)
        case EncodePanic => EncodePanic
        case Page(rest) => Page(page + rest)
  }

  /** A page that is not empty leaves fewer keys, and the log as consistent as it was. */
  lemma NextCall(s: LogState, start: Key, limit: nat)
    requires Consistent(s) && PageCall(s, start, limit).Page? && PageCall(s, start, limit).keys != []
    ensures var page := PageCall(s, start, limit).keys;
      Consistent(LookedUp(s)) && Rank(s.keys, page[|page| - 1]) < Rank(s.keys, start)
  {
    LookupConsistent(s);
    OnePage(s, start, limit);
    NextPage(s.keys, start, limit);
  }

  /** Where the calls start: at `start`, then at every last key of a full page, then at the oldest key. */
  function PageStarts(keys: seq<Key>, start: Key, limit: nat): seq<Key>
    requires Ascending(keys)
    decreases Rank(keys, start)
  {
    var page := PageOf(keys, start, limit);
    if page == [] then [start]
    else
      NextPage(keys, start, limit);
      [start] + PageStarts(keys, page[|page| - 1], limit)
  }

  ghost predicate SomeCallPanics(s: LogState, start: Key, limit: nat)
    requires Ascending(s.keys)
  {
    exists b <- PageStarts(s.keys, start, limit) :: CallPanics(s, b, limit)
  }

  ghost predicate Followed(s: LogState, start: Key, limit: nat)
    requires Consistent(s)
  {
    FollowPages(s, start, limit) ==
      if SomeCallPanics(s, start, limit) then EncodePanic else Page(NewestFirst(s.keys, start))
  }

  lemma PanicsNowOrLater(s: LogState, start: Key, limit: nat)
    requires Ascending(s.keys)
    ensures var page := PageOf(s.keys, start, limit);
      SomeCallPanics(s, start, limit) <==>
        CallPanics(s, start, limit) || (page != [] && SomeCallPanics(LookedUp(s), page[|page| - 1], limit))
  {
    var starts, page := PageStarts(s.keys, start, limit), PageOf(s.keys, start, limit);
    assert start == starts[0];
    assert LookedUp(LookedUp(s)) == LookedUp(s);
    if page != [] {
      var rest := PageStarts(s.keys, page[|page| - 1], limit);
      assert forall b <- rest :: b in starts;
      assert forall b <- starts :: b == start || b in rest;
    }
  }

  lemma FollowedStep(s: LogState, start: Key, limit: nat)
    requires Consistent(s) && !CallPanics(s, start, limit) && PageOf(s.keys, start, limit) != []
    requires Consistent(LookedUp(s))
    requires var page := PageOf(s.keys, start, limit); Followed(LookedUp(s), page[|page| - 1], limit)
    ensures Followed(s, start, limit)
  {
    OnePage(s, start, limit);
    PanicsNowOrLater(s, start, limit);
    NextPage(s.keys, start, limit);
  }

  /** Following the pages lists every key below the start, newest first, exactly unless one of the calls panics. */
  lemma {:induction false} FollowedExactly(s: LogState, start: Key, limit: nat)
    requires Consistent(s)
    ensures Followed(s, start, limit)
    decreases Rank(s.keys, start)
  {
    OnePage(s, start, limit);
    PanicsNowOrLater(s, start, limit);
    var page := PageOf(s.keys, start, limit);
    if !CallPanics(s, start, limit) && page != [] {
      NextCall(s, start, limit);
      FollowedExactly(LookedUp(s), page[|page| - 1], limit);
      FollowedStep(s, start, limit);
    }
  }

  // ----- when following panics, for a cache at the oldest key

  lemma {:induction false} EndsAtOldest(keys: seq<Key>, start: Key, limit: nat)
    requires Ascending(keys) && Rank(keys, start) > 0
    ensures keys[0] in PageStarts(keys, start, limit)
    decreases Rank(keys, start)
  {
    var page := PageOf(keys, start, limit);
    NextPage(keys, start, limit);
    var next := page[|page| - 1];
    var starts := PageStarts(keys, next, limit);
    assert PageStarts(keys, start, limit) == [start] + starts;
    if Rank(keys, next) > 0 {
      EndsAtOldest(keys, next, limit);
    } else {
      NewestFirstExact(keys, start);
      assert next in NewestFirst(keys, start);
      var i :| 0 <= i < |keys| && keys[i] == next;
      RankSplits(keys, next);
      assert starts[0] == next;
    }
  }

  /** A cached key at least one epoch after the Unix epoch: no call panics. */
  lemma LateCacheIsSafe(s: LogState, start: Key, limit: nat)
    requires Consistent(s) && LookedUp(s).oldest.Some? && EPOCH_DURATION <= LookedUp(s).oldest.value.time
    ensures FollowPages(s, start, limit) == Page(NewestFirst(s.keys, start))
  {
    FollowedExactly(s, start, limit);
  }

  /** With the cache at the oldest key, listing panics exactly for a log that begins in the first epoch. */
  lemma FollowPanicsExactly(s: LogState, start: Key, limit: nat)
    requires Consistent(s) && s.keys != [] && LookedUp(s).oldest == Some(s.keys[0]) && Lt(s.keys[0], start)
    ensures FollowPages(s, start, limit) == EncodePanic <==> s.keys[0].time < EPOCH_DURATION
  {
    if EPOCH_DURATION <= s.keys[0].time {
      LateCacheIsSafe(s, start, limit);
    } else {
      FollowedExactly(s, start, limit);
      RankSplits(s.keys, start);
      EndsAtOldest(s.keys, start, limit);
      var first := s.keys[0];
      assert LastStop(first, first, EPOCH_DURATION) == first;
      assert CallPanics(s, first, limit);
    }
  }

  // ----- every history

  /** No add is rolled back. */
  predicate AllCommit(events: seq<Event>) {
    forall e <- events :: e.Add? ==> e.commit
  }

  /** Without rollbacks the cached key is the oldest committed one. */
  lemma {:induction false} CacheIsOldest(events: seq<Event>)
    requires AllCommit(events)
    ensures var s := History(Empty(), events);
      s.oldest.Some? ==> s.keys != [] && s.oldest.value == s.keys[0]
    decreases |events|
  {
    if events != [] {
      var init, e := events[..|events| - 1], events[|events| - 1];
      CacheIsOldest(init);
      HistoryConsistent(init);
      HistoryConsistent(events);
      var s, s' := History(Empty(), init), History(Empty(), events);
      if e.Add? && CanAdd(s, e.key) && s.oldest.Some? {
        assert e in events;
        InsertAscending(s.keys, e.key);
        assert s'.oldest.value in s'.keys && s'.keys[0] in s'.keys;
        assert forall i | 0 < i < |s'.keys| :: Lt(s'.keys[0], s'.keys[i]);
      }
    }
  }

  ghost predicate Lists(events: seq<Event>, start: Key, listing: seq<Key>) {
    && (forall k :: k in listing <==> k in Committed(events) && Lt(k, start))
    && (forall i, j | 0 <= i < j < |listing| :: Lt(listing[j], listing[i]))
  }

  /**
   * After any history of adds, back-dated ones included, committed or rolled
   * back: a page is the newest committed keys below the start, up to the limit,
   * and following the pages lists exactly the committed keys below the start,
   * each once and newest first, unless one of the calls panics.
   */
  lemma PagesRefineLog(events: seq<Event>, start: Key, limit: nat)
    ensures var s := History(Empty(), events);
      && Consistent(s)
      && PageCall(s, start, limit) ==
           (if CallPanics(s, start, limit) then EncodePanic else Page(PageOf(s.keys, start, limit)))
      && (FollowPages(s, start, limit) == EncodePanic <==> SomeCallPanics(s, start, limit))
      && (FollowPages(s, start, limit).Page? ==> Lists(events, start, FollowPages(s, start, limit).keys))
  {
    HistoryConsistent(events);
    TableIsCommitted(events);
    var s := History(Empty(), events);
    OnePage(s, start, limit);
    FollowedExactly(s, start, limit);
    NewestFirstExact(s.keys, start);
  }

  /** And if nothing is rolled back: it lists them exactly if none of them is from the first epoch. */
  lemma ListedExactly(events: seq<Event>, start: Key, limit: nat)
    requires AllCommit(events) && exists k <- Committed(events) :: Lt(k, start)
    ensures var s := History(Empty(), events);
      && Consistent(s)
      && (FollowPages(s, start, limit).Page? <==> forall k <- Committed(events) :: EPOCH_DURATION <= k.time)
  {
    HistoryConsistent(events);
    TableIsCommitted(events);
    CacheIsOldest(events);
    var s := History(Empty(), events);
    var k :| k in Committed(events) && Lt(k, start);
    assert k in s.keys;
    assert forall i | 0 < i < |s.keys| :: Lt(s.keys[0], s.keys[i]);
    assert s.keys[0] in Committed(events);
    forall x <- Committed(events) ensures !Lt(x, s.keys[0]) {
      assert x in s.keys;
    }
    FollowPanicsExactly(s, start, limit);
  }
}
