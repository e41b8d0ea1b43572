/** Chronological operation log keys, their order, and the slices of a sorted key table. */
module LogKeys {
  import opened Encoding

  /** Creation time in nanoseconds since the Unix epoch, and the operation id as a 256-bit number. */
  datatype Key = Key(time: int, id: nat)

  predicate Lt(a: Key, b: Key) {
    a.time < b.time || (a.time == b.time && a.id < b.id)
  }

  /** The order used when the cached oldest key is replaced. */
  predicate IsOlder(a: Key, b: Key) {
    Lt(a, b)
  }

  // ----- key bytes

  const NANOS: nat := 1_000_000_000

  /** Times before the epoch have no encoding; the source panics on them. */
  predicate Encodable(k: Key) {
    0 <= k.time
  }

  predicate Representable(k: Key) {
    Encodable(k) && k.time / NANOS < U64_LIMIT && k.id < Pow256(32)
  }

  function KeyBytes(k: Key): Bytes
    requires Representable(k)
  {
    EncodeBigSize(k.time / NANOS) + (EncodeBigSize(k.time % NANOS) + BigEndian(k.id, 32))
  }

  /** Two integers in a row compare like pairs. */
  lemma PairOrder(s1: nat, n1: nat, x: Bytes, s2: nat, n2: nat, y: Bytes)
    requires s1 < U64_LIMIT && n1 < U64_LIMIT && s2 < U64_LIMIT && n2 < U64_LIMIT
    requires s1 < s2 || (s1 == s2 && (n1 < n2 || (n1 == n2 && LexLess(x, y))))
    ensures LexLess(EncodeBigSize(s1) + (EncodeBigSize(n1) + x), EncodeBigSize(s2) + (EncodeBigSize(n2) + y))
  {
    if s1 < s2 {
      BigSizeOrder(s1, s2, EncodeBigSize(n1) + x, EncodeBigSize(n2) + y);
    } else {
      LexCommonPrefix(EncodeBigSize(s2), EncodeBigSize(n1) + x, EncodeBigSize(n2) + y);
      if n1 < n2 {
        BigSizeOrder(n1, n2, x, y);
      } else {
        LexCommonPrefix(EncodeBigSize(n2), x, y);
      }
    }
  }

  lemma IdOrder(v: nat, w: nat, n: nat)
    requires v < w < Pow256(n)
    ensures LexLess(BigEndian(v, n), BigEndian(w, n))
  {
    BigEndianOrder(v, w, n, [], []);
    assert BigEndian(v, n) + [] == BigEndian(v, n) && BigEndian(w, n) + [] == BigEndian(w, n);
  }

  lemma KeyBytesLess(a: Key, b: Key)
    requires Representable(a) && Representable(b) && Lt(a, b)
    ensures LexLess(KeyBytes(a), KeyBytes(b))
  {
    if a.time == b.time {
      IdOrder(a.id, b.id, 32);
    }
    PairOrder(a.time / NANOS, a.time % NANOS, BigEndian(a.id, 32), b.time / NANOS, b.time % NANOS, BigEndian(b.id, 32));
  }

  lemma {:induction false} LexIrreflexive(a: Bytes)
    ensures !LexLess(a, a)
  {
    if a != [] {
      LexIrreflexive(a[1..]);
    }
  }

  /** The database's byte order on encoded keys is the order by time, then id. */
  lemma KeyByteOrder(a: Key, b: Key)
    requires Representable(a) && Representable(b)
    ensures LexLess(KeyBytes(a), KeyBytes(b)) <==> Lt(a, b)
  {
    if Lt(a, b) {
      KeyBytesLess(a, b);
    } else if a == b {
      LexIrreflexive(KeyBytes(a));
    } else {
      KeyBytesLess(b, a);
      LexAsymmetric(KeyBytes(b), KeyBytes(a));
    }
  }

  // ----- a table of keys in key order

  predicate Ascending(keys: seq<Key>) {
    forall i, j | 0 <= i < j < |keys| :: Lt(keys[i], keys[j])
  }

  /** How many keys of the table are below `k`. */
  function Rank(keys: seq<Key>, k: Key): (n: nat)
    ensures n <= |keys|
  {
    if keys == [] then 0 else (if Lt(keys[0], k) then 1 else 0) + Rank(keys[1..], k)
  }

  lemma {:induction false} RankSplits(keys: seq<Key>, k: Key)
    requires Ascending(keys)
    ensures forall i | 0 <= i < Rank(keys, k) :: Lt(keys[i], k)
    ensures forall i | Rank(keys, k) <= i < |keys| :: !Lt(keys[i], k)
  {
    if keys != [] {
      var rest := keys[1..];
      RankSplits(rest, k);
      assert forall i | 0 <= i < |rest| :: rest[i] == keys[i + 1];
      if !Lt(keys[0], k) && rest != [] {
        assert Lt(keys[0], keys[1]) && !Lt(rest[0], k);
      }
    }
  }

  lemma {:induction false} NoneBelow(keys: seq<Key>, k: Key)
    requires Ascending(keys) && (keys != [] ==> !Lt(keys[0], k))
    ensures Rank(keys, k) == 0
  {
    if |keys| > 1 {
      assert Lt(keys[0], keys[1]) && keys[1..][0] == keys[1];
      NoneBelow(keys[1..], k);
    }
  }

  lemma {:induction false} RankUnique(keys: seq<Key>, k: Key, n: nat)
    requires Ascending(keys) && n <= |keys|
    requires forall i | 0 <= i < n :: Lt(keys[i], k)
    requires n < |keys| ==> !Lt(keys[n], k)
    ensures Rank(keys, k) == n
  {
    if n == 0 {
      NoneBelow(keys, k);
    } else {
      RankUnique(keys[1..], k, n - 1);
    }
  }

  lemma {:induction false} RankMonotone(keys: seq<Key>, a: Key, b: Key)
    requires !Lt(b, a)
    ensures Rank(keys, a) <= Rank(keys, b)
  {
    if keys != [] {
      RankMonotone(keys[1..], a, b);
    }
  }

  /** A forward range query over `[lo, hi)`, in key order. */
  function FindByRange(keys: seq<Key>, lo: Key, hi: Key): seq<Key> {
    if keys == [] then []
    else if !Lt(keys[0], lo) && Lt(keys[0], hi) then [keys[0]] + FindByRange(keys[1..], lo, hi)
    else FindByRange(keys[1..], lo, hi)
  }

  lemma {:induction false} FindsSlice(keys: seq<Key>, lo: Key, hi: Key)
    requires Ascending(keys) && !Lt(hi, lo)
    ensures Rank(keys, lo) <= Rank(keys, hi)
    ensures FindByRange(keys, lo, hi) == keys[Rank(keys, lo)..Rank(keys, hi)]
  {
    RankMonotone(keys, lo, hi);
    if keys != [] {
      var rest := keys[1..];
      FindsSlice(rest, lo, hi);
      RankMonotone(rest, lo, hi);
      if !Lt(keys[0], lo) {
        NoneBelow(keys, lo);
      }
      if !Lt(keys[0], hi) {
        NoneBelow(keys, hi);
      }
    }
  }

  // ----- insertion

  function Insert(keys: seq<Key>, k: Key): seq<Key> {
    keys[..Rank(keys, k)] + [k] + keys[Rank(keys, k)..]
  }

  lemma InsertAscending(keys: seq<Key>, k: Key)
    requires Ascending(keys) && k !in keys
    ensures Ascending(Insert(keys, k))
    ensures forall x :: x in Insert(keys, k) <==> x in keys || x == k
  {
    RankSplits(keys, k);
    var n := Rank(keys, k);
    var longer := Insert(keys, k);
    assert forall x <- keys :: x in keys[..n] || x in keys[n..];
    forall i, j | 0 <= i < j < |longer| ensures Lt(longer[i], longer[j]) {
      if j == n {
        assert longer[i] == keys[i];
      } else if i == n {
        assert longer[j] == keys[j - 1];
        assert keys[j - 1] in keys;
      }
    }
  }

  // ----- newest first

  function Reverse(s: seq<Key>): (r: seq<Key>)
    ensures |r| == |s|
  {
    if s == [] then [] else Reverse(s[1..]) + [s[0]]
  }

  lemma {:induction false} ReverseAt(s: seq<Key>, i: nat)
    requires i < |s|
    ensures Reverse(s)[i] == s[|s| - 1 - i]
  {
    if i < |s| - 1 {
      ReverseAt(s[1..], i);
    }
  }

  lemma ReverseSlices(keys: seq<Key>, a: nat, b: nat, c: nat)
    requires a <= b <= c <= |keys|
    ensures Reverse(keys[b..c]) + Reverse(keys[a..b]) == Reverse(keys[a..c])
  {
    var left, right, whole := Reverse(keys[b..c]), Reverse(keys[a..b]), Reverse(keys[a..c]);
    forall i | 0 <= i < |whole| ensures (left + right)[i] == whole[i] {
      ReverseAt(keys[a..c], i);
      if i < c - b {
        ReverseAt(keys[b..c], i);
      } else {
        ReverseAt(keys[a..b], i - (c - b));
      }
    }
  }

  /** Every key below `start`, newest first: the order pagination promises. */
  function NewestFirst(keys: seq<Key>, start: Key): seq<Key> {
    Reverse(keys[..Rank(keys, start)])
  }

  /** It is exactly the keys below `start`, each once, in strictly descending order. */
  lemma NewestFirstExact(keys: seq<Key>, start: Key)
    requires Ascending(keys)
    ensures var newest := NewestFirst(keys, start);
      forall i, j | 0 <= i < j < |newest| :: Lt(newest[j], newest[i])
    ensures forall k :: k in NewestFirst(keys, start) <==> k in keys && Lt(k, start)
  {
    var below := keys[..Rank(keys, start)];
    var newest := NewestFirst(keys, start);
    RankSplits(keys, start);
    forall i | 0 <= i < |below| ensures newest[i] == below[|below| - 1 - i] {
      ReverseAt(below, i);
    }
    forall k ensures k in newest <==> k in keys && Lt(k, start) {
      if k in keys && Lt(k, start) {
        var i :| 0 <= i < |keys| && keys[i] == k;
        assert newest[|below| - 1 - i] == k;
      }
    }
  }
}
