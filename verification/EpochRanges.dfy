/** Reverse iteration over a forward-only key table, one epoch at a time. */
module EpochRanges {
  import opened LogKeys

  /** The half-open range of keys `[lo, hi)`. */
  datatype KeyRange = KeyRange(lo: Key, hi: Key)

  predicate Contains(r: KeyRange, k: Key) {
    !Lt(k, r.lo) && Lt(k, r.hi)
  }

  /** The epoch that ends at time `t`. */
  function RangeAt(start: Key, t: int, epoch: nat): KeyRange {
    KeyRange(Key(t - epoch, 0), if t == start.time then start else Key(t, 0))
  }

  function RangesFrom(start: Key, t: int, last: Key, epoch: nat): seq<KeyRange>
    requires 0 < epoch
    decreases if t < last.time then 0 else t - last.time + 1
  {
    if t < last.time then [] else [RangeAt(start, t, epoch)] + RangesFrom(start, t - epoch, last, epoch)
  }

  /** Ranges from `start` backwards in time until past `last`. */
  function RevEpochRanges(start: Key, last: Key, epoch: nat): seq<KeyRange>
    requires 0 < epoch
  {
    RangesFrom(start, start.time, last, epoch)
  }

  /** Descending, adjacent ranges from `top` down to below `last`. */
  predicate Chain(ranges: seq<KeyRange>, top: Key, last: Key) {
    && (ranges == [] ==> top.time < last.time)
    && (ranges != [] ==> ranges[0].hi == top && ranges[|ranges| - 1].lo.time < last.time)
    && (forall i | 0 <= i < |ranges| :: Lt(ranges[i].lo, ranges[i].hi) && last.time <= ranges[i].hi.time)
    && (forall i | 0 <= i < |ranges| - 1 :: ranges[i].lo == ranges[i + 1].hi)
  }

  lemma {:induction false} RangesChain(start: Key, t: int, last: Key, epoch: nat)
    requires 0 < epoch && t <= start.time
    ensures Chain(RangesFrom(start, t, last, epoch), if t == start.time then start else Key(t, 0), last)
    decreases if t < last.time then 0 else t - last.time + 1
  {
    if last.time <= t {
      RangesChain(start, t - epoch, last, epoch);
      var rest := RangesFrom(start, t - epoch, last, epoch);
      var ranges := RangesFrom(start, t, last, epoch);
      assert ranges == [RangeAt(start, t, epoch)] + rest;
      forall i | 0 <= i < |ranges| - 1 ensures ranges[i].lo == ranges[i + 1].hi {
        if i > 0 {
          assert rest[i - 1].lo == rest[i].hi;
        }
      }
    }
  }

  /** Range number `i` is where the source puts it: `i` epochs before the start. */
  lemma {:induction false} RangePlaces(start: Key, t: int, last: Key, epoch: nat, i: nat)
    requires 0 < epoch && t <= start.time && i < |RangesFrom(start, t, last, epoch)|
    ensures RangesFrom(start, t, last, epoch)[i] == RangeAt(start, t - i * epoch, epoch)
    ensures last.time <= t - i * epoch
    decreases i
  {
    if i > 0 {
      RangePlaces(start, t - epoch, last, epoch, i - 1);
      assert t - epoch - (i - 1) * epoch == t - i * epoch;
    }
  }

  lemma {:induction false} ChainOrder(ranges: seq<KeyRange>, top: Key, last: Key, i: nat, j: nat)
    requires Chain(ranges, top, last) && i < j < |ranges|
    ensures !Lt(ranges[i].lo, ranges[j].hi)
    decreases j - i
  {
    if i + 1 < j {
      ChainOrder(ranges, top, last, i + 1, j);
      assert Lt(ranges[i + 1].lo, ranges[i + 1].hi);
    }
  }

  lemma {:induction false} ChainCovers(ranges: seq<KeyRange>, top: Key, last: Key, k: Key) returns (i: nat)
    requires Chain(ranges, top, last) && !Lt(k, last) && Lt(k, top)
    ensures i < |ranges| && Contains(ranges[i], k)
    decreases |ranges|
  {
    if !Lt(k, ranges[0].lo) {
      i := 0;
    } else {
      var rest := ranges[1..];
      assert rest != [] ==> ranges[0].lo == ranges[1].hi;
      forall n | 0 <= n < |rest| - 1 ensures rest[n].lo == rest[n + 1].hi {
        assert ranges[n + 1].lo == ranges[n + 2].hi;
      }
      i := ChainCovers(rest, ranges[0].lo, last, k);
      i := i + 1;
    }
  }

  /**
   * For any positive epoch the ranges are finitely many, adjacent and
   * descending; each key from `last` up to `start` lies in exactly one of them,
   * and no key at or above `start` lies in any.
   */
  lemma RangesPartition(start: Key, last: Key, epoch: nat)
    requires 0 < epoch
    ensures var ranges := RevEpochRanges(start, last, epoch);
      && Chain(ranges, start, last)
      && (forall k | !Lt(k, last) && Lt(k, start) :: exists i | 0 <= i < |ranges| :: Contains(ranges[i], k))
      && (forall i, k | 0 <= i < |ranges| && Contains(ranges[i], k) :: Lt(k, start))
      && (forall i, j, k | 0 <= i < j < |ranges| && Contains(ranges[i], k) :: !Contains(ranges[j], k))
  {
    var ranges := RevEpochRanges(start, last, epoch);
    RangesChain(start, start.time, last, epoch);
    forall k | !Lt(k, last) && Lt(k, start) ensures exists i | 0 <= i < |ranges| :: Contains(ranges[i], k) {
      var i := ChainCovers(ranges, start, last, k);
    }
    forall i, k | 0 <= i < |ranges| && Contains(ranges[i], k) ensures Lt(k, start) {
      if 0 < i {
        ChainOrder(ranges, start, last, 0, i);
        assert Lt(ranges[0].lo, ranges[0].hi);
      }
    }
    forall i, j, k | 0 <= i < j < |ranges| && Contains(ranges[i], k) ensures !Contains(ranges[j], k) {
      ChainOrder(ranges, start, last, i, j);
    }
  }

  // ----- one page

  /** The page, or the panic of encoding a range bound from before the epoch. */
  datatype PageResult = Page(keys: seq<Key>) | EncodePanic

  /** The loop pushes before it tests, so a limit of zero behaves like one. */
  function PageSize(limit: nat): nat {
    if limit == 0 then 1 else limit
  }

  /** The newest keys below `start`, up to the limit. */
  function PageOf(keys: seq<Key>, start: Key, limit: nat): seq<Key> {
    var all := NewestFirst(keys, start);
    if |all| <= PageSize(limit) then all else all[..PageSize(limit)]
  }

  ghost predicate LowerBound(keys: seq<Key>, k: Key) {
    forall x <- keys :: !Lt(x, k)
  }

  /**
   * The last range reaches back before the Unix epoch, and fewer keys than the
   * limit lie above it, so that the query for it is made.
   */
  predicate ReachesBeforeEpoch(keys: seq<Key>, start: Key, oldest: Key, limit: nat, epoch: nat)
    requires 0 < epoch
  {
    var ranges := RevEpochRanges(start, oldest, epoch);
    ranges != [] && !Encodable(ranges[|ranges| - 1].lo) &&
    Rank(keys, start) - Rank(keys, ranges[|ranges| - 1].hi) < PageSize(limit)
  }

  lemma PagePrefix(keys: seq<Key>, start: Key, limit: nat, m: nat)
    requires m <= Rank(keys, start)
    requires m == 0 || Rank(keys, start) - m == PageSize(limit)
    requires Rank(keys, start) - m <= PageSize(limit)
    ensures PageOf(keys, start, limit) == Reverse(keys[m..Rank(keys, start)])
  {
    var n := Rank(keys, start);
    ReverseSlices(keys, 0, m, n);
    assert keys[0..n] == keys[..n];
  }

  /** The upper end of what is still to be visited before range `i`. */
  function Boundary(ranges: seq<KeyRange>, start: Key, i: nat): Key
    requires i <= |ranges|
  {
    if i == 0 then start else ranges[i - 1].lo
  }

  lemma {:induction false} BoundaryRank(keys: seq<Key>, ranges: seq<KeyRange>, start: Key, last: Key, i: nat)
    requires Ascending(keys) && Chain(ranges, start, last) && i <= |ranges|
    ensures Rank(keys, Boundary(ranges, start, i)) <= Rank(keys, start)
    ensures i < |ranges| ==> Boundary(ranges, start, i) == ranges[i].hi
    decreases i
  {
    if i > 0 {
      BoundaryRank(keys, ranges, start, last, i - 1);
      assert Lt(ranges[i - 1].lo, ranges[i - 1].hi);
      RankMonotone(keys, ranges[i - 1].lo, ranges[i - 1].hi);
    }
  }

  /** Nothing is left below the last range when `last` is a lower bound. */
  lemma NothingBelow(keys: seq<Key>, ranges: seq<KeyRange>, start: Key, last: Key)
    requires Ascending(keys) && Chain(ranges, start, last) && LowerBound(keys, last)
    ensures Rank(keys, Boundary(ranges, start, |ranges|)) == 0
  {
    if keys != [] {
      assert keys[0] in keys;
    }
    NoneBelow(keys, Boundary(ranges, start, |ranges|));
  }

  /** Only the last range can reach before the epoch. */
  lemma OnlyLastReaches(ranges: seq<KeyRange>, start: Key, last: Key, i: nat)
    requires Chain(ranges, start, last) && Encodable(last) && i < |ranges| - 1
    ensures Encodable(ranges[i].lo)
  {
    assert ranges[i].lo == ranges[i + 1].hi;
  }

  /** An epoch's keys, newest first, pushed until the page is full. */
  function Pushed(page: seq<Key>, epochKeys: seq<Key>, limit: nat): (seq<Key>, bool)
    decreases |epochKeys|
  {
    if epochKeys == [] then (page, false)
    else
      var n := |epochKeys| - 1;
      var more := page + [epochKeys[n]];
      if |more| >= limit then (more, true) else Pushed(more, epochKeys[..n], limit)
  }

  /** The walk through the ranges, one forward query each, until the page is full. */
  function Walk(keys: seq<Key>, ranges: seq<KeyRange>, page: seq<Key>, limit: nat): PageResult
    decreases |ranges|
  {
    if ranges == [] then Page(page)
    else if !Encodable(ranges[0].lo) then EncodePanic
    else
      var (more, full) := Pushed(page, FindByRange(keys, ranges[0].lo, ranges[0].hi), limit);
      if full then Page(more) else Walk(keys, ranges[1..], more, limit)
  }

  /** One page, walking back from `start` to the cached oldest key. */
  function PageWalk(keys: seq<Key>, start: Key, oldest: Key, limit: nat, epoch: nat): PageResult
    requires 0 < epoch
  {
    Walk(keys, RevEpochRanges(start, oldest, epoch), [], limit)
  }

  /** The inner loop. */
  method PushEpoch(epochKeys: seq<Key>, page0: seq<Key>, limit: nat) returns (page: seq<Key>, full: bool)
    ensures (page, full) == Pushed(page0, epochKeys, limit)
  {
    page := page0;
    var i := |epochKeys|;
    assert epochKeys[..i] == epochKeys;
    while i > 0
      invariant 0 <= i <= |epochKeys|
      invariant Pushed(page0, epochKeys, limit) == Pushed(page, epochKeys[..i], limit)
    {
      i := i - 1;
      assert epochKeys[..i + 1][..i] == epochKeys[..i];
      page := page + [epochKeys[i]];
      if |page| >= limit {
        return page, true;
      }
    }
    full := false;
  }

  /** The loop over the ranges. */
  method CollectPage(keys: seq<Key>, start: Key, oldest: Key, limit: nat, epoch: nat) returns (r: PageResult)
    requires 0 < epoch
    ensures r == PageWalk(keys, start, oldest, limit, epoch)
  {
    var ranges := RevEpochRanges(start, oldest, epoch);
    var page: seq<Key> := [];
    var i := 0;
    while i < |ranges|
      invariant 0 <= i <= |ranges|
      invariant Walk(keys, ranges, [], limit) == Walk(keys, ranges[i..], page, limit)
    {
      assert ranges[i..][1..] == ranges[i + 1..];
      if !Encodable(ranges[i].lo) {
        return EncodePanic;
      }
      var full: bool;
      page, full := PushEpoch(FindByRange(keys, ranges[i].lo, ranges[i].hi), page, limit);
      if full {
        return Page(page);
      }
      i := i + 1;
    }
    r := Page(page);
  }

  // ----- the walk finds the newest keys

  lemma OneMore(keys: seq<Key>, m: nat, n: nat)
    requires 0 < m <= n <= |keys|
    ensures Reverse(keys[m - 1..n]) == Reverse(keys[m..n]) + [keys[m - 1]]
  {
    ReverseSlices(keys, m - 1, m, n);
    assert keys[m - 1..m] == [keys[m - 1]];
  }

  /** Pushing the slice `[lo, m)` onto a page that holds `[m, n)`. */
  lemma {:induction false} PushedSlice(keys: seq<Key>, lo: nat, m: nat, n: nat, limit: nat)
    requires lo <= m <= n <= |keys| && n - m < PageSize(limit)
    ensures Pushed(Reverse(keys[m..n]), keys[lo..m], limit) ==
      if n - lo < PageSize(limit) then (Reverse(keys[lo..n]), false)
      else (Reverse(keys[n - PageSize(limit)..n]), true)
    decreases m
  {
    if lo < m {
      var slice := keys[lo..m];
      OneMore(keys, m, n);
      assert slice[|slice| - 1] == keys[m - 1] && slice[..|slice| - 1] == keys[lo..m - 1];
      if n - m + 1 < PageSize(limit) {
        PushedSlice(keys, lo, m - 1, n, limit);
      }
    }
  }

  /** A page filled at range `i` never queries a range that cannot be encoded. */
  lemma FullBeforeLast(keys: seq<Key>, ranges: seq<KeyRange>, start: Key, last: Key, i: nat, m: nat, limit: nat)
    requires Ascending(keys) && Chain(ranges, start, last) && i < |ranges| && Encodable(ranges[i].lo)
    requires Rank(keys, ranges[i].lo) <= m <= Rank(keys, start) && Rank(keys, start) - m == PageSize(limit)
    ensures var final := ranges[|ranges| - 1];
      Encodable(final.lo) || Rank(keys, start) - Rank(keys, final.hi) >= PageSize(limit)
  {
    if i < |ranges| - 1 {
      ChainOrder(ranges, start, last, i, |ranges| - 1);
      RankMonotone(keys, ranges[|ranges| - 1].hi, ranges[i].lo);
    }
  }

  /** A page that fills up is the right one, and the walk ends before any panic. */
  lemma FullPage(keys: seq<Key>, start: Key, oldest: Key, limit: nat, epoch: nat, i: nat, page: seq<Key>)
    requires 0 < epoch && Ascending(keys) && i < |RevEpochRanges(start, oldest, epoch)|
    requires var range, n := RevEpochRanges(start, oldest, epoch)[i], Rank(keys, start);
      && Encodable(range.lo) && |page| == PageSize(limit)
      && Rank(keys, range.lo) <= n - |page| && page == Reverse(keys[n - |page|..n])
    ensures page == PageOf(keys, start, limit) && !ReachesBeforeEpoch(keys, start, oldest, limit, epoch)
  {
    var m := Rank(keys, start) - |page|;
    RangesChain(start, start.time, oldest, epoch);
    PagePrefix(keys, start, limit, m);
    FullBeforeLast(keys, RevEpochRanges(start, oldest, epoch), start, oldest, i, m, limit);
  }

  /** A walk that meets a range it cannot encode panics as predicted. */
  lemma PanickingPage(keys: seq<Key>, start: Key, oldest: Key, limit: nat, epoch: nat, i: nat)
    requires 0 < epoch && Encodable(oldest) && i < |RevEpochRanges(start, oldest, epoch)|
    requires !Encodable(RevEpochRanges(start, oldest, epoch)[i].lo)
    requires Rank(keys, start) - Rank(keys, RevEpochRanges(start, oldest, epoch)[i].hi) < PageSize(limit)
    ensures ReachesBeforeEpoch(keys, start, oldest, limit, epoch)
  {
    var ranges := RevEpochRanges(start, oldest, epoch);
    RangesChain(start, start.time, oldest, epoch);
    if i < |ranges| - 1 {
      OnlyLastReaches(ranges, start, oldest, i);
    }
  }

  /** A walk through all ranges has every key below the start. */
  lemma LastPage(keys: seq<Key>, start: Key, oldest: Key, limit: nat, epoch: nat, page: seq<Key>)
    requires 0 < epoch && Ascending(keys) && LowerBound(keys, oldest)
    requires var ranges, n := RevEpochRanges(start, oldest, epoch), Rank(keys, start);
      var m := Rank(keys, Boundary(ranges, start, |ranges|));
      && m <= n && n - m < PageSize(limit) && page == Reverse(keys[m..n])
      && forall j | 0 <= j < |ranges| :: Encodable(ranges[j].lo)
    ensures page == PageOf(keys, start, limit) && !ReachesBeforeEpoch(keys, start, oldest, limit, epoch)
  {
    RangesChain(start, start.time, oldest, epoch);
    NothingBelow(keys, RevEpochRanges(start, oldest, epoch), start, oldest);
    PagePrefix(keys, start, limit, 0);
  }

  /** What a page ought to be: the newest keys below the start, or the panic. */
  function Predicted(keys: seq<Key>, start: Key, oldest: Key, limit: nat, epoch: nat): PageResult
    requires 0 < epoch
  {
    if ReachesBeforeEpoch(keys, start, oldest, limit, epoch) then EncodePanic else Page(PageOf(keys, start, limit))
  }

  /** From range `i` on, with the keys above it collected, the walk ends as predicted. */
  predicate WalksOn(keys: seq<Key>, start: Key, oldest: Key, limit: nat, epoch: nat, i: nat)
    requires 0 < epoch && i <= |RevEpochRanges(start, oldest, epoch)|
  {
    var ranges, n := RevEpochRanges(start, oldest, epoch), Rank(keys, start);
    var m := Rank(keys, Boundary(ranges, start, i));
    m <= n && Walk(keys, ranges[i..], Reverse(keys[m..n]), limit) == Predicted(keys, start, oldest, limit, epoch)
  }

  lemma WalkHead(keys: seq<Key>, ranges: seq<KeyRange>, i: nat, page: seq<Key>, limit: nat, more: seq<Key>, full: bool)
    requires i < |ranges| && Encodable(ranges[i].lo)
    requires Pushed(page, FindByRange(keys, ranges[i].lo, ranges[i].hi), limit) == (more, full)
    ensures Walk(keys, ranges[i..], page, limit) ==
      if full then Page(more) else Walk(keys, ranges[i + 1..], more, limit)
  {
    assert ranges[i..][0] == ranges[i] && ranges[i..][1..] == ranges[i + 1..];
  }

  /** A range whose bound can be encoded pushes its keys. */
  lemma WalkRange(keys: seq<Key>, start: Key, oldest: Key, limit: nat, epoch: nat, i: nat)
    requires 0 < epoch && Ascending(keys) && i < |RevEpochRanges(start, oldest, epoch)|
    requires Encodable(RevEpochRanges(start, oldest, epoch)[i].lo)
    requires Rank(keys, start) - Rank(keys, Boundary(RevEpochRanges(start, oldest, epoch), start, i)) < PageSize(limit)
    ensures var ranges, n := RevEpochRanges(start, oldest, epoch), Rank(keys, start);
      var lo, m := Rank(keys, ranges[i].lo), Rank(keys, Boundary(ranges, start, i));
      && lo <= m <= n
      && Walk(keys, ranges[i..], Reverse(keys[m..n]), limit) ==
           if n - lo < PageSize(limit) then Walk(keys, ranges[i + 1..], Reverse(keys[lo..n]), limit)
           else Page(Reverse(keys[n - PageSize(limit)..n]))
  {
    var ranges, n := RevEpochRanges(start, oldest, epoch), Rank(keys, start);
    var lo, m := Rank(keys, ranges[i].lo), Rank(keys, Boundary(ranges, start, i));
    RangesChain(start, start.time, oldest, epoch);
    BoundaryRank(keys, ranges, start, oldest, i);
    FindsSlice(keys, ranges[i].lo, ranges[i].hi);
    PushedSlice(keys, lo, m, n, limit);
    var (more, full) := Pushed(Reverse(keys[m..n]), keys[lo..m], limit);
    WalkHead(keys, ranges, i, Reverse(keys[m..n]), limit, more, full);
  }

  lemma {:induction false} WalkFrom(keys: seq<Key>, start: Key, oldest: Key, limit: nat, epoch: nat, i: nat)
    requires 0 < epoch && Ascending(keys) && LowerBound(keys, oldest) && Encodable(oldest)
    requires i <= |RevEpochRanges(start, oldest, epoch)|
    requires var ranges := RevEpochRanges(start, oldest, epoch);
      && Rank(keys, start) - Rank(keys, Boundary(ranges, start, i)) < PageSize(limit)
      && forall j | 0 <= j < i :: Encodable(ranges[j].lo)
    ensures WalksOn(keys, start, oldest, limit, epoch, i)
    decreases |RevEpochRanges(start, oldest, epoch)| - i
  {
    var ranges, n := RevEpochRanges(start, oldest, epoch), Rank(keys, start);
    RangesChain(start, start.time, oldest, epoch);
    BoundaryRank(keys, ranges, start, oldest, i);
    if i == |ranges| {
      LastPage(keys, start, oldest, limit, epoch, Reverse(keys[Rank(keys, Boundary(ranges, start, i))..n]));
    } else if !Encodable(ranges[i].lo) {
      PanickingPage(keys, start, oldest, limit, epoch, i);
    } else {
      WalkRange(keys, start, oldest, limit, epoch, i);
      if n - Rank(keys, ranges[i].lo) < PageSize(limit) {
        WalkFrom(keys, start, oldest, limit, epoch, i + 1);
      } else {
        FullPage(keys, start, oldest, limit, epoch, i, Reverse(keys[n - PageSize(limit)..n]));
      }
    }
  }

  /** With a lower bound of the log as its end, the walk returns the newest keys below the start, or panics. */
  lemma WalkExact(keys: seq<Key>, start: Key, oldest: Key, limit: nat, epoch: nat)
    requires 0 < epoch && Ascending(keys) && LowerBound(keys, oldest) && Encodable(oldest)
    ensures PageWalk(keys, start, oldest, limit, epoch) == Predicted(keys, start, oldest, limit, epoch)
  {
    var ranges, n := RevEpochRanges(start, oldest, epoch), Rank(keys, start);
    WalkFrom(keys, start, oldest, limit, epoch, 0);
    assert ranges[0..] == ranges && Reverse(keys[n..n]) == [];
  }

  /** A log whose oldest key is at least one epoch after the Unix epoch never panics. */
  lemma SafeAfterFirstEpoch(keys: seq<Key>, start: Key, oldest: Key, limit: nat, epoch: nat)
    requires 0 < epoch <= oldest.time
    ensures !ReachesBeforeEpoch(keys, start, oldest, limit, epoch)
  {
    var ranges := RevEpochRanges(start, oldest, epoch);
    if ranges != [] {
      RangePlaces(start, start.time, oldest, epoch, |ranges| - 1);
    }
  }

  lemma MultipleIsFar(k: int, e: int)
    requires 0 < e
    ensures k >= 1 ==> k * e >= e
    ensures k <= -1 ==> k * e <= 0 - e
  {
    if k >= 1 {
      assert k * e == (k - 1) * e + e && (k - 1) * e >= 0;
    } else if k <= -1 {
      assert k * e == (k + 1) * e - e && (k + 1) * e <= 0;
    }
  }

  lemma ModUnique(x: int, e: nat, i: nat)
    requires 0 < e && 0 <= x - i * e < e
    ensures x % e == x - i * e
  {
    var q, r := x / e, x % e;
    assert x == e * q + r;
    assert (q - i) * e == q * e - i * e;
    MultipleIsFar(q - i, e);
  }

  /** Where the walk back from `start` ends: a whole number of epochs earlier, less than one above the oldest time. */
  function LastStop(start: Key, oldest: Key, epoch: nat): Key
    requires 0 < epoch && oldest.time <= start.time
  {
    var t := oldest.time + (start.time - oldest.time) % epoch;
    if t == start.time then start else Key(t, 0)
  }

  /** The last stop is less than one epoch after the Unix epoch, and the page is not full before it. */
  predicate PanicsAt(keys: seq<Key>, start: Key, oldest: Key, limit: nat, epoch: nat)
    requires 0 < epoch
  {
    && oldest.time <= start.time
    && LastStop(start, oldest, epoch).time < epoch
    && Rank(keys, start) - Rank(keys, LastStop(start, oldest, epoch)) < PageSize(limit)
  }

  /** Exactly when a page panics, in terms a caller can compute before asking for it. */
  lemma PanicsExactly(keys: seq<Key>, start: Key, oldest: Key, limit: nat, epoch: nat)
    requires 0 < epoch
    ensures ReachesBeforeEpoch(keys, start, oldest, limit, epoch) <==> PanicsAt(keys, start, oldest, limit, epoch)
  {
    var ranges := RevEpochRanges(start, oldest, epoch);
    RangesChain(start, start.time, oldest, epoch);
    if ranges != [] {
      var i := |ranges| - 1;
      RangePlaces(start, start.time, oldest, epoch, i);
      ModUnique(start.time - oldest.time, epoch, i);
      assert ranges[i] == RangeAt(start, LastStop(start, oldest, epoch).time, epoch);
    }
  }

  /** One week, as the source has it. */
  const EPOCH_DURATION: nat := 604_800 * NANOS

  /**
   * The first page of a log with one entry, just added: it panics if and only if
   * the clock, in nanoseconds since the Unix epoch, is within the first week less
   * half a minute, as on a device whose clock was never set.
   */
  lemma EpochClockPanics(t: nat, id: nat, limit: nat)
    ensures PageWalk([Key(t, id)], Key(t + 30 * NANOS, 0), Key(t, id), limit, EPOCH_DURATION) == EncodePanic <==>
      t < 604_770_000_000_000
  {
    var key, start := Key(t, id), Key(t + 30 * NANOS, 0);
    PanicsExactly([key], start, key, limit, EPOCH_DURATION);
    assert (30 * NANOS) % EPOCH_DURATION == 30 * NANOS;
    WalkExact([key], start, key, limit, EPOCH_DURATION);
  }

  /** The next page starts right behind this one. */
  lemma NextPage(keys: seq<Key>, start: Key, limit: nat)
    requires Ascending(keys) && PageOf(keys, start, limit) != []
    ensures var page := PageOf(keys, start, limit);
      && Rank(keys, page[|page| - 1]) + |page| == Rank(keys, start)
      && NewestFirst(keys, start) == page + NewestFirst(keys, page[|page| - 1])
  {
    var n := Rank(keys, start);
    var page := PageOf(keys, start, limit);
    var m := n - |page|;
    ReverseAt(keys[..n], |page| - 1);
    assert page[|page| - 1] == keys[m];
    RankUnique(keys, keys[m], m);
    ReverseSlices(keys, 0, m, n);
    assert keys[0..n] == keys[..n] && keys[0..m] == keys[..m];
    assert page == Reverse(keys[m..n]) by {
      assert |Reverse(keys[m..n])| == |page|;
      assert NewestFirst(keys, start)[..|page|] == page;
    }
  }
}
