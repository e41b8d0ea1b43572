/** The consensus encoding of integers, byte strings and database key parts. */
module Encoding {

  type byte = x: int | 0 <= x < 256

  type Bytes = seq<byte>

  const U16_LIMIT: nat := 0x1_0000
  const U32_LIMIT: nat := 0x1_0000_0000
  const U64_LIMIT: nat := 0x1_0000_0000_0000_0000

  /** A decoded value and the bytes behind it. */
  datatype Decoded<+T> = Got(value: T, rest: Bytes) | Malformed

  // ----- big-endian integers

  function Pow256(n: nat): (r: nat)
    ensures r > 0
  {
    if n == 0 then 1 else 256 * Pow256(n - 1)
  }

  function BigEndian(v: nat, n: nat): (b: Bytes)
    ensures |b| == n
    decreases n
  {
    if n == 0 then [] else BigEndian(v / 256, n - 1) + [v % 256]
  }

  function FromBigEndian(b: Bytes): nat {
    if b == [] then 0 else 256 * FromBigEndian(b[..|b| - 1]) + b[|b| - 1]
  }

  lemma {:induction false} BigEndianRoundTrip(v: nat, n: nat)
    requires v < Pow256(n)
    ensures FromBigEndian(BigEndian(v, n)) == v
    decreases n
  {
    if n > 0 {
      BigEndianRoundTrip(v / 256, n - 1);
      var b := BigEndian(v, n);
      assert b[..|b| - 1] == BigEndian(v / 256, n - 1);
    }
  }

  lemma {:induction false} FromBigEndianRoundTrip(b: Bytes)
    ensures FromBigEndian(b) < Pow256(|b|)
    ensures BigEndian(FromBigEndian(b), |b|) == b
    decreases |b|
  {
    if b != [] {
      FromBigEndianRoundTrip(b[..|b| - 1]);
      assert b == b[..|b| - 1] + [b[|b| - 1]];
    }
  }

  // ----- BigSize, the variable-length integer

  /** Bytes behind the tag of an integer too large for a single byte. */
  function Width(v: nat): nat {
    if v < U16_LIMIT then 2 else if v < U32_LIMIT then 4 else 8
  }

  function TagOf(n: nat): byte {
    if n == 2 then 0xFD else if n == 4 then 0xFE else 0xFF
  }

  function WidthOf(tag: byte): nat {
    if tag == 0xFD then 2 else if tag == 0xFE then 4 else 8
  }

  /** The least integer that needs `n` bytes behind the tag. */
  function Least(n: nat): nat {
    if n == 2 then 0xFD else if n == 4 then U16_LIMIT else U32_LIMIT
  }

  function EncodeBigSize(v: nat): (b: Bytes)
    requires v < U64_LIMIT
    ensures b != []
  {
    if v < 0xFD then [v] else [TagOf(Width(v))] + BigEndian(v, Width(v))
  }

  /** A tagged integer of `n` bytes that must be at least `least`, so in its shortest form. */
  function DecodeTagged(b: Bytes, n: nat, least: nat): Decoded<nat> {
    if |b| < n then Malformed
    else
      var v := FromBigEndian(b[..n]);
      if v < least then Malformed else Got(v, b[n..])
  }

  function DecodeBigSize(b: Bytes): Decoded<nat> {
    if b == [] then Malformed
    else if b[0] < 0xFD then Got(b[0], b[1..])
    else DecodeTagged(b[1..], WidthOf(b[0]), Least(WidthOf(b[0])))
  }

  lemma Powers()
    ensures Pow256(2) == U16_LIMIT && Pow256(4) == U32_LIMIT && Pow256(8) == U64_LIMIT
  {
    assert Pow256(1) == 256;
    assert Pow256(3) == 0x100_0000;
    assert Pow256(5) == 0x100_0000_0000;
    assert Pow256(6) == 0x1_0000_0000_0000;
    assert Pow256(7) == 0x100_0000_0000_0000;
  }

  lemma WidthFits(v: nat)
    requires 0xFD <= v < U64_LIMIT
    ensures Least(Width(v)) <= v < Pow256(Width(v))
    ensures 0xFD <= TagOf(Width(v)) && WidthOf(TagOf(Width(v))) == Width(v)
  {
    Powers();
  }

  lemma TagFits(tag: byte, v: nat)
    requires 0xFD <= tag && Least(WidthOf(tag)) <= v < Pow256(WidthOf(tag))
    ensures 0xFD <= v < U64_LIMIT && Width(v) == WidthOf(tag) && TagOf(Width(v)) == tag
  {
    Powers();
  }

  lemma TaggedRoundTrip(v: nat, n: nat, least: nat, rest: Bytes)
    requires least <= v < Pow256(n)
    ensures DecodeTagged(BigEndian(v, n) + rest, n, least) == Got(v, rest)
  {
    BigEndianRoundTrip(v, n);
    assert (BigEndian(v, n) + rest)[..n] == BigEndian(v, n);
  }

  /** Decoding an encoded integer gives it back and leaves what follows. */
  lemma BigSizeRoundTrip(v: nat, rest: Bytes)
    requires v < U64_LIMIT
    ensures DecodeBigSize(EncodeBigSize(v) + rest) == Got(v, rest)
  {
    var b := EncodeBigSize(v) + rest;
    if v < 0xFD {
      assert b[1..] == rest;
    } else {
      WidthFits(v);
      assert b[1..] == BigEndian(v, Width(v)) + rest;
      TaggedRoundTrip(v, Width(v), Least(Width(v)), rest);
    }
  }

  lemma TaggedCanonical(b: Bytes, n: nat, least: nat)
    ensures var d := DecodeTagged(b, n, least);
      d.Got? ==> least <= d.value < Pow256(n) && b == BigEndian(d.value, n) + d.rest
  {
    if n <= |b| {
      FromBigEndianRoundTrip(b[..n]);
      assert b == b[..n] + b[n..];
    }
  }

  /** Only the shortest encoding decodes, so an integer has exactly one. */
  lemma BigSizeCanonical(b: Bytes)
    ensures var d := DecodeBigSize(b);
      d.Got? ==> d.value < U64_LIMIT && b == EncodeBigSize(d.value) + d.rest
  {
    var d := DecodeBigSize(b);
    if d.Got? {
      assert b == [b[0]] + b[1..];
      if 0xFD <= b[0] {
        TaggedCanonical(b[1..], WidthOf(b[0]), Least(WidthOf(b[0])));
        TagFits(b[0], d.value);
      }
    }
  }

  // ----- byte order of encoded keys

  /** Integers around the first two changes of width, byte by byte. */
  lemma BigSizeBytes()
    ensures EncodeBigSize(0xFC) == [0xFC] && EncodeBigSize(0xFD) == [0xFD, 0, 0xFD]
    ensures EncodeBigSize(0x1_0000) == [0xFE, 0, 1, 0, 0]
  {
    assert BigEndian(0x1, 2) == [0, 1];
    assert BigEndian(0x1_0000, 4) == [0, 1, 0, 0];
  }

  /** The order in which the database keeps its keys. */
  predicate LexLess(a: Bytes, b: Bytes) {
    b != [] && (a == [] || a[0] < b[0] || (a[0] == b[0] && LexLess(a[1..], b[1..])))
  }

  lemma {:induction false} LexCommonPrefix(p: Bytes, a: Bytes, b: Bytes)
    ensures LexLess(p + a, p + b) <==> LexLess(a, b)
    decreases |p|
  {
    if p == [] {
      assert p + a == a && p + b == b;
    } else {
      assert (p + a)[1..] == p[1..] + a && (p + b)[1..] == p[1..] + b;
      LexCommonPrefix(p[1..], a, b);
    }
  }

  lemma {:induction false} BigEndianOrder(v: nat, w: nat, n: nat, x: Bytes, y: Bytes)
    requires v < w < Pow256(n)
    ensures LexLess(BigEndian(v, n) + x, BigEndian(w, n) + y)
    decreases n
  {
    var p, q := BigEndian(v / 256, n - 1), BigEndian(w / 256, n - 1);
    var x', y' := [v % 256] + x, [w % 256] + y;
    assert BigEndian(v, n) + x == p + x' && BigEndian(w, n) + y == q + y';
    if v / 256 < w / 256 {
      BigEndianOrder(v / 256, w / 256, n - 1, x', y');
    } else {
      LexCommonPrefix(p, x', y');
    }
  }

  function FirstByte(v: nat): byte {
    if v < 0xFD then v else TagOf(Width(v))
  }

  lemma SameTagOrder(tag: byte, v: nat, w: nat, n: nat, x: Bytes, y: Bytes)
    requires v < w < Pow256(n)
    ensures LexLess([tag] + BigEndian(v, n) + x, [tag] + BigEndian(w, n) + y)
  {
    BigEndianOrder(v, w, n, x, y);
    LexCommonPrefix([tag], BigEndian(v, n) + x, BigEndian(w, n) + y);
    assert [tag] + BigEndian(v, n) + x == [tag] + (BigEndian(v, n) + x);
    assert [tag] + BigEndian(w, n) + y == [tag] + (BigEndian(w, n) + y);
  }

  lemma FirstByteOrder(v: nat, w: nat)
    requires v < w < U64_LIMIT
    ensures FirstByte(v) <= FirstByte(w)
    ensures FirstByte(v) == FirstByte(w) ==> 0xFD <= v && Width(v) == Width(w)
  {
  }

  /** Smaller integers encode to smaller bytes, whatever follows them. */
  lemma BigSizeOrder(v: nat, w: nat, x: Bytes, y: Bytes)
    requires v < w < U64_LIMIT
    ensures LexLess(EncodeBigSize(v) + x, EncodeBigSize(w) + y)
  {
    FirstByteOrder(v, w);
    if FirstByte(v) == FirstByte(w) {
      WidthFits(w);
      SameTagOrder(TagOf(Width(w)), v, w, Width(w), x, y);
    }
  }

  lemma {:induction false} LexAsymmetric(a: Bytes, b: Bytes)
    requires LexLess(a, b)
    ensures !LexLess(b, a)
  {
    if a != [] && a[0] == b[0] {
      LexAsymmetric(a[1..], b[1..]);
    }
  }

  // ----- length-prefixed byte strings

  function EncodeBytes(b: Bytes): Bytes
    requires |b| < U64_LIMIT
  {
    EncodeBigSize(|b|) + b
  }

  function DecodeBytes(b: Bytes): Decoded<Bytes> {
    match DecodeBigSize(b)
    case Malformed => Malformed
    case Got(n, rest) => if |rest| < n then Malformed else Got(rest[..n], rest[n..])
  }

  lemma BytesRoundTrip(b: Bytes, rest: Bytes)
    requires |b| < U64_LIMIT
    ensures DecodeBytes(EncodeBytes(b) + rest) == Got(b, rest)
  {
    assert EncodeBytes(b) + rest == EncodeBigSize(|b|) + (b + rest);
    BigSizeRoundTrip(|b|, b + rest);
  }

  lemma BytesCanonical(b: Bytes)
    ensures var d := DecodeBytes(b);
      d.Got? ==> |d.value| < U64_LIMIT && b == EncodeBytes(d.value) + d.rest
  {
    BigSizeCanonical(b);
    var n := DecodeBigSize(b);
    if n.Got? && n.value <= |n.rest| {
      assert n.rest == n.rest[..n.value] + n.rest[n.value..];
    }
  }

  // ----- module instance ids

  /** A `u16` travels as a BigSize and is rejected when it does not fit. */
  function DecodeU16(b: Bytes): Decoded<nat> {
    match DecodeBigSize(b)
    case Malformed => Malformed
    case Got(v, rest) => if v < U16_LIMIT then Got(v, rest) else Malformed
  }
}
