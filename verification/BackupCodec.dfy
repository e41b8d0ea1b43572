/** Client backups and their encoding. */
module BackupCodec {
  import opened Options
  import opened Encoding
  import opened OrderedMaps

  const MAX_DECODE_SIZE: nat := 16_000_000

  datatype ModuleBackup = ModuleBackup(instance: nat, payload: Bytes)

  type ModuleBackups = map<nat, ModuleBackup>

  datatype ClientBackup = ClientBackup(sessionCount: nat, metadata: Bytes, modules: ModuleBackups)

  predicate FitsModule(mb: ModuleBackup) {
    mb.instance < U16_LIMIT && |mb.payload| < U64_LIMIT
  }

  predicate FitsModules(modules: ModuleBackups) {
    |modules| < U64_LIMIT && forall id <- modules.Keys :: id < U16_LIMIT && FitsModule(modules[id])
  }

  /** Every number fits the integer type it has in the source. */
  predicate Fits(b: ClientBackup) {
    b.sessionCount < U64_LIMIT && |b.metadata| < U64_LIMIT && FitsModules(b.modules)
  }

  // ----- encoding

  function EncodeModule(mb: ModuleBackup): Bytes
    requires FitsModule(mb)
  {
    EncodeBigSize(mb.instance) + EncodeBytes(mb.payload)
  }

  function DecodeModule(b: Bytes): Decoded<ModuleBackup> {
    match DecodeU16(b)
    case Malformed => Malformed
    case Got(instance, rest) =>
      match DecodeBytes(rest)
      case Malformed => Malformed
      case Got(payload, rest') => Got(ModuleBackup(instance, payload), rest')
  }

  lemma ModuleRoundTrip(mb: ModuleBackup, rest: Bytes)
    requires FitsModule(mb)
    ensures DecodeModule(EncodeModule(mb) + rest) == Got(mb, rest)
  {
    assert EncodeModule(mb) + rest == EncodeBigSize(mb.instance) + (EncodeBytes(mb.payload) + rest);
    BigSizeRoundTrip(mb.instance, EncodeBytes(mb.payload) + rest);
    BytesRoundTrip(mb.payload, rest);
  }

  lemma ModuleCanonical(b: Bytes)
    ensures var d := DecodeModule(b);
      d.Got? ==> FitsModule(d.value) && b == EncodeModule(d.value) + d.rest
  {
    BigSizeCanonical(b);
    var d := DecodeU16(b);
    if d.Got? {
      BytesCanonical(d.rest);
      var p := DecodeBytes(d.rest);
      if p.Got? {
        Joins(EncodeBigSize(d.value), EncodeBytes(p.value), p.rest);
      }
    }
  }

  lemma Joins(a: Bytes, b: Bytes, rest: Bytes)
    ensures a + b + rest == a + (b + rest)
  {
  }

  type ModuleEntry = Entry<ModuleBackup>

  predicate FitsEntry(e: ModuleEntry) {
    e.key < U16_LIMIT && FitsModule(e.value)
  }

  predicate FitsEntries(list: seq<ModuleEntry>) {
    forall i | 0 <= i < |list| :: FitsEntry(list[i])
  }

  function EncodeEntry(e: ModuleEntry): Bytes
    requires FitsEntry(e)
  {
    EncodeBigSize(e.key) + EncodeModule(e.value)
  }

  function DecodeEntry(b: Bytes): Decoded<ModuleEntry> {
    match DecodeU16(b)
    case Malformed => Malformed
    case Got(key, rest) =>
      match DecodeModule(rest)
      case Malformed => Malformed
      case Got(mb, rest') => Got(Entry(key, mb), rest')
  }

  lemma EntryRoundTrip(e: ModuleEntry, rest: Bytes)
    requires FitsEntry(e)
    ensures DecodeEntry(EncodeEntry(e) + rest) == Got(e, rest)
  {
    assert EncodeEntry(e) + rest == EncodeBigSize(e.key) + (EncodeModule(e.value) + rest);
    BigSizeRoundTrip(e.key, EncodeModule(e.value) + rest);
    ModuleRoundTrip(e.value, rest);
  }

  lemma EntryCanonical(b: Bytes)
    ensures var d := DecodeEntry(b);
      d.Got? ==> FitsEntry(d.value) && b == EncodeEntry(d.value) + d.rest
  {
    BigSizeCanonical(b);
    var d := DecodeU16(b);
    if d.Got? {
      ModuleCanonical(d.rest);
      var m := DecodeModule(d.rest);
      if m.Got? {
        Joins(EncodeBigSize(d.value), EncodeModule(m.value), m.rest);
      }
    }
  }

  function EncodeList(list: seq<ModuleEntry>): Bytes
    requires FitsEntries(list)
  {
    if list == [] then [] else EncodeEntry(list[0]) + EncodeList(list[1..])
  }

  /** `n` entries with increasing keys, as the map decoder demands. */
  function DecodeList(n: nat, prev: Option<nat>, b: Bytes): Decoded<seq<ModuleEntry>>
    decreases n
  {
    if n == 0 then Got([], b)
    else
      match DecodeEntry(b)
      case Malformed => Malformed
      case Got(e, rest) =>
        if prev.Some? && e.key <= prev.value then Malformed
        else
          match DecodeList(n - 1, Some(e.key), rest)
          case Malformed => Malformed
          case Got(more, rest') => Got([e] + more, rest')
  }

  /** Keys increase, from above `prev` on. */
  predicate Ordered(list: seq<ModuleEntry>, prev: Option<nat>) {
    Increasing(list) && (prev.Some? && list != [] ==> prev.value < list[0].key)
  }

  lemma OrderedTail(list: seq<ModuleEntry>, prev: Option<nat>)
    requires Ordered(list, prev) && list != []
    ensures Ordered(list[1..], Some(list[0].key))
  {
  }

  lemma OrderedCons(e: ModuleEntry, tail: seq<ModuleEntry>, prev: Option<nat>)
    requires Ordered(tail, Some(e.key)) && (prev.Some? ==> prev.value < e.key)
    ensures Ordered([e] + tail, prev)
  {
    forall i | 0 <= i < |tail| ensures e.key < tail[i].key {
      assert i > 0 ==> tail[0].key < tail[i].key;
    }
    ConsIncreasing(e, tail);
  }

  lemma Associative(a: Bytes, b: Bytes, c: Bytes)
    ensures a + b + c == a + (b + c)
  {
  }

  lemma EncodeListCons(e: ModuleEntry, tail: seq<ModuleEntry>, rest: Bytes)
    requires FitsEntry(e) && FitsEntries(tail)
    ensures FitsEntries([e] + tail)
    ensures EncodeList([e] + tail) + rest == EncodeEntry(e) + (EncodeList(tail) + rest)
  {
    assert ([e] + tail)[1..] == tail;
    Associative(EncodeEntry(e), EncodeList(tail), rest);
  }

  lemma DecodeListCons(n: nat, prev: Option<nat>, b: Bytes, e: ModuleEntry, rest: Bytes)
    requires 0 < n && DecodeEntry(b) == Got(e, rest) && (prev.Some? ==> prev.value < e.key)
    ensures var more := DecodeList(n - 1, Some(e.key), rest);
      DecodeList(n, prev, b) == if more.Got? then Got([e] + more.value, more.rest) else Malformed
  {
  }

  lemma {:induction false} ListRoundTrip(list: seq<ModuleEntry>, prev: Option<nat>, rest: Bytes)
    requires FitsEntries(list) && Ordered(list, prev)
    ensures DecodeList(|list|, prev, EncodeList(list) + rest) == Got(list, rest)
    decreases |list|
  {
    if list == [] {
      assert EncodeList(list) + rest == rest;
    } else {
      var e, tail := list[0], list[1..];
      assert list == [e] + tail;
      OrderedTail(list, prev);
      EncodeListCons(e, tail, rest);
      EntryRoundTrip(e, EncodeList(tail) + rest);
      DecodeListCons(|list|, prev, EncodeList(list) + rest, e, EncodeList(tail) + rest);
      ListRoundTrip(tail, Some(e.key), rest);
    }
  }

  /** `b` is the encoding of `list` and then `rest`. */
  predicate Reads(b: Bytes, list: seq<ModuleEntry>, prev: Option<nat>, rest: Bytes) {
    FitsEntries(list) && Ordered(list, prev) && b == EncodeList(list) + rest
  }

  lemma ReadsCons(b: Bytes, e: ModuleEntry, b': Bytes, tail: seq<ModuleEntry>, prev: Option<nat>, rest: Bytes)
    requires FitsEntry(e) && b == EncodeEntry(e) + b' && (prev.Some? ==> prev.value < e.key)
    requires Reads(b', tail, Some(e.key), rest)
    ensures Reads(b, [e] + tail, prev, rest)
  {
    OrderedCons(e, tail, prev);
    EncodeListCons(e, tail, rest);
  }

  lemma ReadsNothing(b: Bytes, prev: Option<nat>)
    ensures Reads(b, [], prev, b)
  {
    assert EncodeList([]) + b == b;
  }

  predicate ReadsAs(n: nat, b: Bytes, prev: Option<nat>, d: Decoded<seq<ModuleEntry>>) {
    d.Got? ==> |d.value| == n && Reads(b, d.value, prev, d.rest)
  }

  lemma ReadsAsCons(n: nat, b: Bytes, e: ModuleEntry, b': Bytes, more: Decoded<seq<ModuleEntry>>, prev: Option<nat>)
    requires DecodeEntry(b) == Got(e, b') && (prev.Some? ==> prev.value < e.key)
    requires 0 < n && more.Got? && ReadsAs(n - 1, b', Some(e.key), more)
    ensures ReadsAs(n, b, prev, Got([e] + more.value, more.rest))
  {
    EntryCanonical(b);
    ReadsCons(b, e, b', more.value, prev, more.rest);
  }

  /** A list that decodes is the one encoding of what it decodes to. */
  predicate Canonical(n: nat, prev: Option<nat>, b: Bytes) {
    ReadsAs(n, b, prev, DecodeList(n, prev, b))
  }

  lemma RejectedIsCanonical(n: nat, prev: Option<nat>, b: Bytes)
    requires 0 < n
    requires DecodeEntry(b).Malformed? || (prev.Some? && DecodeEntry(b).value.key <= prev.value)
    ensures Canonical(n, prev, b)
  {
    assert DecodeList(n, prev, b) == Malformed;
  }

  lemma CanonicalStep(n: nat, prev: Option<nat>, b: Bytes, e: ModuleEntry, b': Bytes)
    requires 0 < n && DecodeEntry(b) == Got(e, b') && (prev.Some? ==> prev.value < e.key)
    requires Canonical(n - 1, Some(e.key), b')
    ensures Canonical(n, prev, b)
  {
    DecodeListCons(n, prev, b, e, b');
    var more := DecodeList(n - 1, Some(e.key), b');
    if more.Got? {
      ReadsAsCons(n, b, e, b', more, prev);
    }
  }

  lemma CanonicalSteps(m: nat, prev: Option<nat>, b: Bytes)
    requires forall key: nat, b' :: Canonical(m, Some(key), b')
    ensures Canonical(m + 1, prev, b)
  {
    var first := DecodeEntry(b);
    if first.Malformed? || (prev.Some? && first.value.key <= prev.value) {
      RejectedIsCanonical(m + 1, prev, b);
    } else {
      CanonicalStep(m + 1, prev, b, first.value, first.rest);
    }
  }

  lemma {:induction false} ListCanonical(n: nat, prev: Option<nat>, b: Bytes)
    ensures Canonical(n, prev, b)
    decreases n
  {
    if n == 0 {
      ReadsNothing(b, prev);
    } else {
      var m := n - 1;
      forall key: nat, b' ensures Canonical(m, Some(key), b') {
        ListCanonical(m, Some(key), b');
      }
      CanonicalSteps(m, prev, b);
    }
  }

  lemma FitsItsEntries(modules: ModuleBackups)
    requires FitsModules(modules)
    ensures FitsEntries(Entries(modules)) && Ordered(Entries(modules), None)
  {
    EntriesIn(modules);
    EntriesIncrease(modules);
    var list := Entries(modules);
    forall i | 0 <= i < |list| ensures FitsEntry(list[i]) {
      assert list[i] in list;
    }
  }

  function EncodeModules(modules: ModuleBackups): Bytes
    requires FitsModules(modules)
  {
    FitsItsEntries(modules);
    EncodeBigSize(|modules|) + EncodeList(Entries(modules))
  }

  function DecodeModules(b: Bytes): Decoded<ModuleBackups> {
    match DecodeBigSize(b)
    case Malformed => Malformed
    case Got(n, rest) =>
      match DecodeList(n, None, rest)
      case Malformed => Malformed
      case Got(list, rest') => Got(ToMap(list), rest')
  }

  lemma ModulesRoundTrip(modules: ModuleBackups, rest: Bytes)
    requires FitsModules(modules)
    ensures DecodeModules(EncodeModules(modules) + rest) == Got(modules, rest)
  {
    FitsItsEntries(modules);
    var list := Entries(modules);
    assert EncodeModules(modules) + rest == EncodeBigSize(|modules|) + (EncodeList(list) + rest);
    BigSizeRoundTrip(|modules|, EncodeList(list) + rest);
    ListRoundTrip(list, None, rest);
    EntriesExact(modules);
  }

  lemma ListFitsMap(list: seq<ModuleEntry>)
    requires FitsEntries(list) && Increasing(list) && |list| < U64_LIMIT
    ensures FitsModules(ToMap(list)) && Entries(ToMap(list)) == list && |ToMap(list)| == |list|
  {
    EntriesUnique(list);
    var m := ToMap(list);
    EntriesIn(m);
    ToMapKeys(list);
    forall id <- m.Keys ensures id < U16_LIMIT && FitsModule(m[id]) {
      var i :| 0 <= i < |list| && list[i].key == id;
      assert list[i] in list;
    }
  }

  lemma ModulesCanonical(b: Bytes)
    ensures var d := DecodeModules(b);
      d.Got? ==> FitsModules(d.value) && b == EncodeModules(d.value) + d.rest
  {
    var d := DecodeModules(b);
    if d.Got? {
      BigSizeCanonical(b);
      var n := DecodeBigSize(b);
      ListCanonical(n.value, None, n.rest);
      var list := DecodeList(n.value, None, n.rest);
      ListFitsMap(list.value);
      assert b == EncodeBigSize(n.value) + (EncodeList(list.value) + list.rest);
    }
  }

  // ----- whole backups

  /** A component is decoded from a reader that stops after the decoding limit. */
  function Window(b: Bytes): Bytes {
    if |b| <= MAX_DECODE_SIZE then b else b[..MAX_DECODE_SIZE]
  }

  /** What the outer reader has left when a decoder used the window. */
  function Resume<T>(b: Bytes, d: Decoded<T>): Decoded<T> {
    match d
    case Malformed => Malformed
    case Got(v, rest) => if |rest| <= |Window(b)| then Got(v, b[|Window(b)| - |rest|..]) else Malformed
  }

  function EncodeBackup(b: ClientBackup): Bytes
    requires Fits(b)
  {
    EncodeBigSize(b.sessionCount) + (EncodeBytes(b.metadata) + (EncodeModules(b.modules) + EncodeBytes([])))
  }

  function DecodeBackup(b: Bytes): Decoded<ClientBackup> {
    match DecodeBigSize(b)
    case Malformed => Malformed
    case Got(sessionCount, b1) =>
      match Resume(b1, DecodeBytes(Window(b1)))
      case Malformed => Malformed
      case Got(metadata, b2) =>
        match Resume(b2, DecodeModules(Window(b2)))
        case Malformed => Malformed
        case Got(modules, b3) =>
          match Resume(b3, DecodeBytes(Window(b3)))
          case Malformed => Malformed
          case Got(_, rest) => Got(ClientBackup(sessionCount, metadata, modules), rest)
  }

  lemma WindowOf(enc: Bytes, rest: Bytes)
    requires |enc| <= MAX_DECODE_SIZE
    ensures exists cut :: Window(enc + rest) == enc + cut && |cut| <= |rest|
  {
    var cut := if |enc + rest| <= MAX_DECODE_SIZE then rest else rest[..MAX_DECODE_SIZE - |enc|];
    assert Window(enc + rest) == enc + cut;
  }

  /** Byte strings pass the limited reader exactly when their encoding does. */
  lemma BytesThroughWindow(v: Bytes, rest: Bytes)
    requires |v| < U64_LIMIT
    ensures var b := EncodeBytes(v) + rest;
      Resume(b, DecodeBytes(Window(b))) == if |EncodeBytes(v)| <= MAX_DECODE_SIZE then Got(v, rest) else Malformed
  {
    var enc := EncodeBytes(v);
    if |enc| <= MAX_DECODE_SIZE {
      WindowOf(enc, rest);
      var cut :| Window(enc + rest) == enc + cut && |cut| <= |rest|;
      BytesRoundTrip(v, cut);
    } else {
      var p, q := enc[..MAX_DECODE_SIZE], enc[MAX_DECODE_SIZE..];
      assert Window(enc + rest) == p;
      BytesTruncated(v, p, q);
    }
  }

  /** No encoding continues another one. */
  lemma BytesUnique(v: Bytes, x: Bytes, w: Bytes, y: Bytes)
    requires |v| < U64_LIMIT && |w| < U64_LIMIT && EncodeBytes(v) + x == EncodeBytes(w) + y
    ensures v == w && x == y
  {
    BytesRoundTrip(v, x);
    BytesRoundTrip(w, y);
  }

  lemma BytesTruncated(v: Bytes, p: Bytes, q: Bytes)
    requires |v| < U64_LIMIT && EncodeBytes(v) == p + q && q != []
    ensures DecodeBytes(p).Malformed?
  {
    BytesCanonical(p);
    var d := DecodeBytes(p);
    if d.Got? {
      Associative(EncodeBytes(d.value), d.rest, q);
      assert EncodeBytes(v) + [] == p + q;
      BytesUnique(v, [], d.value, d.rest + q);
    }
  }

  lemma ModulesThroughWindow(v: ModuleBackups, rest: Bytes)
    requires FitsModules(v)
    ensures var b := EncodeModules(v) + rest;
      Resume(b, DecodeModules(Window(b))) == if |EncodeModules(v)| <= MAX_DECODE_SIZE then Got(v, rest) else Malformed
  {
    var enc := EncodeModules(v);
    if |enc| <= MAX_DECODE_SIZE {
      WindowOf(enc, rest);
      var cut :| Window(enc + rest) == enc + cut && |cut| <= |rest|;
      ModulesRoundTrip(v, cut);
    } else {
      var p, q := enc[..MAX_DECODE_SIZE], enc[MAX_DECODE_SIZE..];
      assert Window(enc + rest) == p;
      ModulesTruncated(v, p, q);
    }
  }

  /** No encoding continues another one. */
  lemma ModulesUnique(v: ModuleBackups, x: Bytes, w: ModuleBackups, y: Bytes)
    requires FitsModules(v) && FitsModules(w) && EncodeModules(v) + x == EncodeModules(w) + y
    ensures v == w && x == y
  {
    ModulesRoundTrip(v, x);
    ModulesRoundTrip(w, y);
  }

  lemma ModulesTruncated(v: ModuleBackups, p: Bytes, q: Bytes)
    requires FitsModules(v) && EncodeModules(v) == p + q && q != []
    ensures DecodeModules(p).Malformed?
  {
    ModulesCanonical(p);
    var d := DecodeModules(p);
    if d.Got? {
      Associative(EncodeModules(d.value), d.rest, q);
      assert EncodeModules(v) + [] == p + q;
      ModulesUnique(v, [], d.value, d.rest + q);
    }
  }

  /** Both variable parts pass the decoding limit. */
  predicate Decodable(b: ClientBackup)
    requires Fits(b)
  {
    |EncodeBytes(b.metadata)| <= MAX_DECODE_SIZE && |EncodeModules(b.modules)| <= MAX_DECODE_SIZE
  }

  /**
   * A backup of an older client, which filled the vector behind the modules:
   * that padding is dropped, and each part must be within the decoding limit.
   */
  lemma OldBackupDecodes(b: ClientBackup, padding: Bytes, rest: Bytes)
    requires Fits(b) && |padding| < U64_LIMIT
    ensures var metadata, modules := EncodeBytes(b.metadata), EncodeModules(b.modules);
      DecodeBackup(EncodeBigSize(b.sessionCount) + (metadata + (modules + (EncodeBytes(padding) + rest)))) ==
        if |metadata| <= 16_000_000 && |modules| <= 16_000_000 && |EncodeBytes(padding)| <= 16_000_000
        then Got(b, rest) else Malformed
  {
    var last := EncodeBytes(padding) + rest;
    var modules := EncodeModules(b.modules) + last;
    var metadata := EncodeBytes(b.metadata) + modules;
    BigSizeRoundTrip(b.sessionCount, metadata);
    BytesThroughWindow(b.metadata, modules);
    ModulesThroughWindow(b.modules, last);
    BytesThroughWindow(padding, rest);
  }

  lemma Regroup(a: Bytes, b: Bytes, c: Bytes, d: Bytes, rest: Bytes)
    ensures a + (b + (c + d)) + rest == a + (b + (c + (d + rest)))
  {
  }

  /** A backup decodes from its encoding and whatever follows it, exactly within the decoding limit. */
  lemma BackupDecodes(b: ClientBackup, rest: Bytes)
    requires Fits(b)
    ensures DecodeBackup(EncodeBackup(b) + rest) == if Decodable(b) then Got(b, rest) else Malformed
  {
    OldBackupDecodes(b, [], rest);
    var empty := EncodeBytes([]);
    assert |empty| == 1;
    Regroup(EncodeBigSize(b.sessionCount), EncodeBytes(b.metadata), EncodeModules(b.modules), empty, rest);
  }

  /** One backup byte by byte: session count, metadata, modules in key order, and the empty old-style padding. */
  lemma BackupBytes()
    ensures var b := ClientBackup(5, [7], map[3 := ModuleBackup(3, [9])]);
      Fits(b) && EncodeBackup(b) == [5, 1, 7, 1, 3, 3, 1, 9, 0]
  {
    var part := ModuleBackup(3, [9]);
    var list: seq<ModuleEntry> := [Entry(3, part)];
    var modules: ModuleBackups := map[3 := part];
    assert modules.Keys == {3} && |modules| == 1;
    assert list[1..] == [] && ToMap(list) == modules;
    EntriesUnique(list);
    assert EncodeList(list) == [3, 3, 1, 9];
    assert EncodeModules(modules) == [1, 3, 3, 1, 9];
  }
}
