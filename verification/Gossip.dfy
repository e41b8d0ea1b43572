/** Announcements and metadata that guardians gossip: the newest record per peer wins. */
module Gossip {
  import Encoding
  import opened Federation

  /** A signed record with its nonce or timestamp. */
  datatype Record<C> = Record(stamp: nat, content: C)

  type Store<C> = map<PeerId, Record<C>>

  /** A record replaces the stored one only if it is strictly newer. */
  predicate Replaces<C>(store: Store<C>, p: PeerId, r: Record<C>) {
    p !in store || store[p].stamp < r.stamp
  }

  function Winner<C>(store: Store<C>, updates: Store<C>, p: PeerId): Record<C>
    requires p in store || p in updates
  {
    if p in updates && Replaces(store, p, updates[p]) then updates[p] else store[p]
  }

  function Merge<C>(store: Store<C>, updates: Store<C>): Store<C> {
    map p | p in store.Keys + updates.Keys :: Winner(store, updates, p)
  }

  function MergeAll<C>(store: Store<C>, batches: seq<Store<C>>): Store<C> {
    if batches == [] then store else Merge(MergeAll(store, batches[..|batches| - 1]), batches[|batches| - 1])
  }

  class AnnouncementDb<C(==)> {
    var db: Store<C>

    constructor (db: Store<C>)
      ensures this.db == db
    {
      this.db := db;
    }

    /** One transaction over the announcements of one response, in any order. */
    method StoreUpdates(updates: Store<C>)
      modifies this
      ensures db == Merge(old(db), updates)
    {
      var done: set<PeerId> := {};
      while !(updates.Keys <= done)
        invariant done <= updates.Keys
        invariant db.Keys == old(db).Keys + done
        invariant forall p <- db.Keys :: db[p] == if p in done then Winner(old(db), updates, p) else old(db)[p]
        decreases updates.Keys - done
      {
        var p :| p in updates && p !in done;
        if Replaces(db, p, updates[p]) {
          db := db[p := updates[p]];
        }
        done := done + {p};
      }
      assert db == Merge(old(db), updates);
    }

    /** The responses of several peers, one after the other. */
    method StoreUpdatesFromPeers(batches: seq<Store<C>>)
      modifies this
      ensures db == MergeAll(old(db), batches)
    {
      var i := 0;
      while i < |batches|
        invariant 0 <= i <= |batches|
        invariant db == MergeAll(old(db), batches[..i])
      {
        assert batches[..i + 1][..i] == batches[..i];
        StoreUpdates(batches[i]);
        i := i + 1;
      }
      assert batches[..i] == batches;
    }
  }

  /** Every record seen for a peer: the initial one and all received. */
  ghost function Seen<C>(store: Store<C>, batches: seq<Store<C>>, p: PeerId): set<Record<C>> {
    if batches == [] then if p in store then {store[p]} else {}
    else
      var last := batches[|batches| - 1];
      Seen(store, batches[..|batches| - 1], p) + if p in last then {last[p]} else {}
  }

  /**
   * The stored record is one that was seen, and no record seen is newer: so the
   * stored nonce is the maximum, whatever the order, batching or repetition.
   */
  lemma {:induction false} StoredIsNewest<C>(store: Store<C>, batches: seq<Store<C>>, p: PeerId)
    ensures p in MergeAll(store, batches) <==> Seen(store, batches, p) != {}
    ensures p in MergeAll(store, batches) ==>
      && MergeAll(store, batches)[p] in Seen(store, batches, p)
      && forall r <- Seen(store, batches, p) :: r.stamp <= MergeAll(store, batches)[p].stamp
    decreases |batches|
  {
    if batches != [] {
      StoredIsNewest(store, batches[..|batches| - 1], p);
    }
  }

  /** No peer uses one nonce for two contents. */
  ghost predicate NeverReused<C(!new)>(store: Store<C>, batches: seq<Store<C>>) {
    forall p, r, q | r in Seen(store, batches, p) && q in Seen(store, batches, p) && r.stamp == q.stamp :: r == q
  }

  ghost predicate SameSeen<C(!new)>(store: Store<C>, one: seq<Store<C>>, two: seq<Store<C>>) {
    forall p :: Seen(store, one, p) == Seen(store, two, p)
  }

  /** Clients that saw the same records hold the same store. */
  lemma Converges<C(!new)>(store: Store<C>, one: seq<Store<C>>, two: seq<Store<C>>)
    requires SameSeen(store, one, two) && NeverReused(store, one)
    ensures MergeAll(store, one) == MergeAll(store, two)
  {
    var a, b := MergeAll(store, one), MergeAll(store, two);
    forall p ensures p in a <==> p in b {
      StoredIsNewest(store, one, p);
      StoredIsNewest(store, two, p);
      assert Seen(store, one, p) == Seen(store, two, p);
    }
    forall p | p in a ensures a[p] == b[p] {
      StoredIsNewest(store, one, p);
      StoredIsNewest(store, two, p);
      assert Seen(store, one, p) == Seen(store, two, p);
      assert a[p] in Seen(store, one, p) && b[p] in Seen(store, one, p);
    }
    assert a.Keys == b.Keys;
  }

  /** Two records of one peer commute exactly unless they reuse a nonce that is still news. */
  lemma OrderMattersExactly<C(!new)>(store: Store<C>, p: PeerId, a: Record<C>, b: Record<C>)
    ensures MergeAll(store, [map[p := a], map[p := b]]) != MergeAll(store, [map[p := b], map[p := a]])
       <==> a.stamp == b.stamp && a != b && Replaces(store, p, a)
  {
    TwoMerges(store, p, a, b);
    TwoMerges(store, p, b, a);
    var ab, ba := MergeAll(store, [map[p := a], map[p := b]]), MergeAll(store, [map[p := b], map[p := a]]);
    assert ab.Keys == ba.Keys;
    assert ab == ba <==> ab[p] == ba[p];
  }

  /** One nonce used for two contents: whoever hears them in the other order stores something else. */
  lemma ReusedNonceDiverges()
    ensures var a, b := Record(1, "here"), Record(1, "there");
      MergeAll(map[], [map[0 := a], map[0 := b]]) != MergeAll(map[], [map[0 := b], map[0 := a]])
  {
    OrderMattersExactly(map[], 0, Record(1, "here"), Record(1, "there"));
    assert |"here"| != |"there"|;
  }

  lemma TwoMerges<C>(store: Store<C>, p: PeerId, a: Record<C>, b: Record<C>)
    ensures var r := MergeAll(store, [map[p := a], map[p := b]]);
      var first := if Replaces(store, p, a) then a else store[p];
      && r.Keys == store.Keys + {p}
      && r[p] == (if first.stamp < b.stamp then b else first)
      && forall q <- store.Keys :: q != p ==> r[q] == store[q]
  {
    var batches := [map[p := a], map[p := b]];
    assert batches[..1] == [map[p := a]] && batches[..1][..0] == [];
    assert MergeAll(store, batches[..1]) == Merge(store, map[p := a]);
    assert MergeAll(store, batches) == Merge(Merge(store, map[p := a]), map[p := b]);
  }

  /** Every record seen for a peer, in the order of arrival. */
  function Arrivals<C>(store: Store<C>, batches: seq<Store<C>>, p: PeerId): seq<Record<C>> {
    if batches == [] then if p in store then [store[p]] else []
    else
      var last := batches[|batches| - 1];
      Arrivals(store, batches[..|batches| - 1], p) + if p in last then [last[p]] else []
  }

  /** The record at `i` is the earliest of those with the greatest stamp. */
  predicate FirstNewest<C>(list: seq<Record<C>>, i: nat) {
    && i < |list|
    && (forall j | 0 <= j < |list| :: list[j].stamp <= list[i].stamp)
    && (forall j | 0 <= j < i :: list[j].stamp < list[i].stamp)
  }

  ghost predicate Wins<C>(list: seq<Record<C>>, r: Record<C>) {
    exists i: nat :: FirstNewest(list, i) && list[i] == r
  }

  lemma WinnerStays<C>(list: seq<Record<C>>, r: Record<C>, next: Record<C>)
    requires Wins(list, r)
    ensures Wins(list + [next], if r.stamp < next.stamp then next else r)
  {
    var i: nat :| FirstNewest(list, i) && list[i] == r;
    var longer := list + [next];
    assert forall j | 0 <= j < |list| :: longer[j] == list[j];
    assert FirstNewest(longer, if r.stamp < next.stamp then |list| else i);
  }

  /** The stored record is the earliest arrival among those with the greatest stamp. */
  lemma {:induction false} StoredWins<C>(store: Store<C>, batches: seq<Store<C>>, p: PeerId)
    ensures p in MergeAll(store, batches) <==> Arrivals(store, batches, p) != []
    ensures p in MergeAll(store, batches) ==> Wins(Arrivals(store, batches, p), MergeAll(store, batches)[p])
    decreases |batches|
  {
    var list := Arrivals(store, batches, p);
    if batches == [] {
      if p in store {
        assert FirstNewest(list, 0);
      }
    } else {
      var init, last := batches[..|batches| - 1], batches[|batches| - 1];
      StoredWins(store, init, p);
      var before := MergeAll(store, init);
      if p in last {
        if p in before {
          WinnerStays(Arrivals(store, init, p), before[p], last[p]);
        } else {
          assert FirstNewest(list, 0);
        }
      } else {
        assert list == Arrivals(store, init, p);
      }
    }
  }

  lemma WinnerUnique<C>(list: seq<Record<C>>, r: Record<C>, q: Record<C>)
    requires Wins(list, r) && Wins(list, q)
    ensures r == q
  {
    var i: nat :| FirstNewest(list, i) && list[i] == r;
    var j: nat :| FirstNewest(list, j) && list[j] == q;
    assert i == j;
  }

  /** For this peer nothing arrived in either history, or the same record wins. */
  ghost predicate SameWinner<C(!new)>(a: Store<C>, one: seq<Store<C>>, b: Store<C>, two: seq<Store<C>>, p: PeerId) {
    var r, q := Arrivals(a, one, p), Arrivals(b, two, p);
    (r == [] <==> q == []) && forall w :: Wins(r, w) <==> Wins(q, w)
  }

  ghost predicate SameWinners<C(!new)>(a: Store<C>, one: seq<Store<C>>, b: Store<C>, two: seq<Store<C>>) {
    forall p :: SameWinner(a, one, b, two, p)
  }

  predicate SameAt<C(==)>(x: Store<C>, y: Store<C>, p: PeerId) {
    (p in x <==> p in y) && (p in x && p in y ==> x[p] == y[p])
  }

  lemma EqualPointwise<C(!new)>(x: Store<C>, y: Store<C>)
    ensures x == y <==> forall p :: SameAt(x, y, p)
  {
    if forall p :: SameAt(x, y, p) {
      assert forall p <- x.Keys :: SameAt(x, y, p);
      assert forall p <- y.Keys :: SameAt(x, y, p);
      assert x.Keys == y.Keys;
    }
  }

  lemma SameWinnerExactly<C(!new)>(a: Store<C>, one: seq<Store<C>>, b: Store<C>, two: seq<Store<C>>, p: PeerId)
    ensures SameWinner(a, one, b, two, p) <==> SameAt(MergeAll(a, one), MergeAll(b, two), p)
  {
    var x, y := MergeAll(a, one), MergeAll(b, two);
    var r, q := Arrivals(a, one, p), Arrivals(b, two, p);
    StoredWins(a, one, p);
    StoredWins(b, two, p);
    forall w | Wins(r, w) ensures p in x && x[p] == w {
      WinnerUnique(r, x[p], w);
    }
    forall w | Wins(q, w) ensures p in y && y[p] == w {
      WinnerUnique(q, y[p], w);
    }
  }

  /** Two histories leave the same store if and only if, for every peer, the same record wins. */
  lemma SameStoreExactly<C(!new)>(a: Store<C>, one: seq<Store<C>>, b: Store<C>, two: seq<Store<C>>)
    ensures MergeAll(a, one) == MergeAll(b, two) <==> SameWinners(a, one, b, two)
  {
    var x, y := MergeAll(a, one), MergeAll(b, two);
    EqualPointwise(x, y);
    forall p ensures SameWinner(a, one, b, two, p) <==> SameAt(x, y, p) {
      SameWinnerExactly(a, one, b, two, p);
    }
  }

  // ----- guardian metadata: only what verifies is merged

  const MAX_FUTURE_TIMESTAMP_SECS: nat := 3600

  /** On 64-bit seconds. */
  function SaturatingAdd(a: nat, b: nat): nat {
    if a + b < Encoding.U64_LIMIT then a + b else Encoding.U64_LIMIT - 1
  }

  /** Public keys of the guardians, and whether a record carries a key's signature. */
  datatype Keys<!K, !C> = Keys(of: map<PeerId, K>, signed: (K, Record<C>) -> bool)

  predicate Verifies<K, C>(keys: Keys<K, C>, p: PeerId, r: Record<C>, now: nat) {
    p in keys.of && keys.signed(keys.of[p], r) && r.stamp <= SaturatingAdd(now, MAX_FUTURE_TIMESTAMP_SECS)
  }

  function Verified<K, C>(keys: Keys<K, C>, updates: Store<C>, now: nat): Store<C> {
    map p | p in updates && Verifies(keys, p, updates[p], now) :: updates[p]
  }

  /** On 64-bit seconds the check allows exactly an hour ahead. */
  lemma VerifiesExactly<K, C>(keys: Keys<K, C>, p: PeerId, r: Record<C>, now: nat)
    requires r.stamp < Encoding.U64_LIMIT
    ensures Verifies(keys, p, r, now) <==>
      p in keys.of && keys.signed(keys.of[p], r) && r.stamp <= now + 3600
  {
  }

  /** A newer record of a known guardian, signed and not too far ahead, is stored. */
  lemma ValidNewerIsStored<K, C>(keys: Keys<K, C>, store: Store<C>, updates: Store<C>, now: nat, p: PeerId)
    requires p in updates && updates[p].stamp < Encoding.U64_LIMIT
    requires p in keys.of && keys.signed(keys.of[p], updates[p]) && updates[p].stamp <= now + 3600
    requires p !in store || store[p].stamp < updates[p].stamp
    ensures var after := Merge(store, Verified(keys, updates, now));
      p in after && after[p] == updates[p]
  {
  }

  /** A received metadata map and the clock when it was stored. */
  datatype Receipt<C> = Receipt(updates: Store<C>, now: nat)

  function VerifiedBatches<K, C>(keys: Keys<K, C>, receipts: seq<Receipt<C>>): seq<Store<C>> {
    seq(|receipts|, i requires 0 <= i < |receipts| => Verified(keys, receipts[i].updates, receipts[i].now))
  }

  function StoreReceipts<K, C>(keys: Keys<K, C>, store: Store<C>, receipts: seq<Receipt<C>>): Store<C> {
    MergeAll(store, VerifiedBatches(keys, receipts))
  }

  class MetadataDb<K, C(==)> {
    var db: Store<C>

    constructor (db: Store<C>)
      ensures this.db == db
    {
      this.db := db;
    }

    /** Unknown guardians and records that do not verify are skipped one by one. */
    method StoreUpdates(keys: Keys<K, C>, updates: Store<C>, now: nat)
      modifies this
      ensures db == Merge(old(db), Verified(keys, updates, now))
    {
      ghost var verified := Verified(keys, updates, now);
      var done: set<PeerId> := {};
      while !(updates.Keys <= done)
        invariant done <= updates.Keys
        invariant db.Keys == old(db).Keys + (done * verified.Keys)
        invariant forall p <- db.Keys ::
          db[p] == if p in done && p in verified then Winner(old(db), verified, p) else old(db)[p]
        decreases updates.Keys - done
      {
        var p :| p in updates && p !in done;
        done := done + {p};
        if p !in keys.of {
          continue;
        }
        if !(keys.signed(keys.of[p], updates[p]) && updates[p].stamp <= SaturatingAdd(now, MAX_FUTURE_TIMESTAMP_SECS)) {
          continue;
        }
        if Replaces(db, p, updates[p]) {
          db := db[p := updates[p]];
        }
      }
      assert db == Merge(old(db), verified);
    }

    /** The responses of several peers, each with the clock at its turn. */
    method StoreUpdatesFromPeers(keys: Keys<K, C>, receipts: seq<Receipt<C>>)
      modifies this
      ensures db == StoreReceipts(keys, old(db), receipts)
    {
      ghost var batches := VerifiedBatches(keys, receipts);
      var i := 0;
      while i < |receipts|
        invariant 0 <= i <= |receipts|
        invariant db == MergeAll(old(db), batches[..i])
      {
        assert batches[..i + 1][..i] == batches[..i];
        StoreUpdates(keys, receipts[i].updates, receipts[i].now);
        i := i + 1;
      }
      assert batches[..i] == batches;
    }
  }

  /** A record that was not there before came with a receipt it verified under. */
  lemma {:induction false} SeenIsVerified<K, C>(
      keys: Keys<K, C>, store: Store<C>, receipts: seq<Receipt<C>>, p: PeerId, r: Record<C>)
    requires r in Seen(store, VerifiedBatches(keys, receipts), p)
    ensures (p in store && r == store[p]) || exists i | 0 <= i < |receipts| ::
      p in receipts[i].updates && receipts[i].updates[p] == r && Verifies(keys, p, r, receipts[i].now)
    decreases |receipts|
  {
    if receipts != [] {
      var n := |receipts| - 1;
      var batches := VerifiedBatches(keys, receipts);
      assert batches[..n] == VerifiedBatches(keys, receipts[..n]);
      if r in Seen(store, batches[..n], p) {
        SeenIsVerified(keys, store, receipts[..n], p, r);
        if !(p in store && r == store[p]) {
          var i :| 0 <= i < n && p in receipts[..n][i].updates && receipts[..n][i].updates[p] == r
            && Verifies(keys, p, r, receipts[..n][i].now);
          assert receipts[i] == receipts[..n][i];
        }
      } else {
        assert p in receipts[n].updates && receipts[n].updates[p] == r && Verifies(keys, p, r, receipts[n].now);
      }
    }
  }

  /**
   * Over any receipts: timestamps never decrease, every stored record is an old
   * one or verified under its guardian's key when it came, and with no clock
   * beyond `latest` nothing new is stamped more than an hour after it.
   */
  lemma MetadataRuns<K, C>(keys: Keys<K, C>, store: Store<C>, receipts: seq<Receipt<C>>, p: PeerId, latest: nat)
    requires forall i | 0 <= i < |receipts| :: receipts[i].now <= latest
    ensures var after := StoreReceipts(keys, store, receipts);
      && (p in store ==> p in after && store[p].stamp <= after[p].stamp)
      && (p in after && !(p in store && after[p] == store[p]) ==>
            && p in keys.of && keys.signed(keys.of[p], after[p])
            && after[p].stamp <= latest + MAX_FUTURE_TIMESTAMP_SECS)
  {
    var batches := VerifiedBatches(keys, receipts);
    var after := StoreReceipts(keys, store, receipts);
    StoredIsNewest(store, batches, p);
    InitialSeen(store, batches, p);
    if p in after && !(p in store && after[p] == store[p]) {
      SeenIsVerified(keys, store, receipts, p, after[p]);
    }
  }

  lemma {:induction false} InitialSeen<C>(store: Store<C>, batches: seq<Store<C>>, p: PeerId)
    ensures p in store ==> store[p] in Seen(store, batches, p)
    decreases |batches|
  {
    if batches != [] {
      InitialSeen(store, batches[..|batches| - 1], p);
    }
  }
}
