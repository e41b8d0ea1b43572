/** Padding and encrypting backups, falling back to older module parts, and runs of backups. */
module Backup {
  import opened Options
  import opened Encoding
  import opened BackupCodec

  const PADDING_ALIGNMENT: nat := 4096
  const PER_MODULE_SIZE_LIMIT_BYTES: nat := 32_768
  const BACKUP_REQUEST_MAX_PAYLOAD_SIZE_BYTES: nat := 131_072

  // ----- padding

  function SaturatingSub(a: nat, b: nat): nat {
    if a < b then 0 else a - b
  }

  /** An encoded size rounded up: the least positive multiple of the alignment that covers it. */
  function AlignmentSize(len: nat): (size: nat)
    ensures size % PADDING_ALIGNMENT == 0 && 0 < size && len <= size
    ensures forall m: nat | 0 < m && len <= m && m % PADDING_ALIGNMENT == 0 :: size <= m
  {
    var size := (SaturatingSub(len, 1) / PADDING_ALIGNMENT + 1) * PADDING_ALIGNMENT;
    assert size % PADDING_ALIGNMENT == 0;
    size
  }

  function Zeros(n: nat): Bytes {
    seq(n, i => 0)
  }

  // ----- encryption

  /** An authenticated cipher under a fixed key; encryption draws a nonce and may fail. */
  datatype Cipher = Cipher(encrypt: (nat, Bytes) -> Option<Bytes>, decrypt: Bytes -> Option<Bytes>)

  ghost predicate Invertible(c: Cipher) {
    forall nonce, plain :: c.encrypt(nonce, plain).Some? ==> c.decrypt(c.encrypt(nonce, plain).value) == Some(plain)
  }

  /** A ciphertext is no shorter than its plaintext. */
  ghost predicate Expanding(c: Cipher) {
    forall nonce, plain :: c.encrypt(nonce, plain).Some? ==> |plain| <= |c.encrypt(nonce, plain).value|
  }

  function Padded(b: ClientBackup): Bytes
    requires Fits(b)
  {
    EncodeBackup(b) + Zeros(AlignmentSize(|EncodeBackup(b)|) - |EncodeBackup(b)|)
  }

  function EncryptTo(b: ClientBackup, c: Cipher, nonce: nat): Option<Bytes>
    requires Fits(b)
  {
    c.encrypt(nonce, Padded(b))
  }

  function DecryptWith(encrypted: Bytes, c: Cipher): Option<ClientBackup> {
    match c.decrypt(encrypted)
    case None => None
    case Some(plain) =>
      match DecodeBackup(plain)
      case Malformed => None
      case Got(b, _) => Some(b)
  }

  /** What is encrypted: the encoding, then zeros up to the least positive multiple of 4096 that covers it. */
  lemma EncryptsPadded(b: ClientBackup, c: Cipher, nonce: nat)
    requires Fits(b) && Invertible(c) && EncryptTo(b, c, nonce).Some?
    ensures var plain, len := c.decrypt(EncryptTo(b, c, nonce).value), |EncodeBackup(b)|;
      && plain.Some? && len <= |plain.value| && plain.value[..len] == EncodeBackup(b)
      && (forall i | len <= i < |plain.value| :: plain.value[i] == 0)
      && |plain.value| % 4096 == 0 && 0 < |plain.value|
      && (len + 4096 <= |plain.value| ==> len == 0)
  {
    var enc := EncodeBackup(b);
    assert AlignmentSize(|enc|) - 4096 > 0 ==> AlignmentSize(|enc|) - 4096 < |enc| by {
      assert (AlignmentSize(|enc|) - 4096) % 4096 == 0;
    }
    assert Padded(b)[..|enc|] == enc;
  }

  /** Decrypting an encrypted backup returns it despite the padding, exactly within the decoding limit. */
  lemma EncryptRoundTrip(b: ClientBackup, c: Cipher, nonce: nat)
    requires Fits(b) && Invertible(c) && EncryptTo(b, c, nonce).Some?
    ensures DecryptWith(EncryptTo(b, c, nonce).value, c) == if Decodable(b) then Some(b) else None
  {
    BackupDecodes(b, Zeros(AlignmentSize(|EncodeBackup(b)|) - |EncodeBackup(b)|));
  }

  // ----- falling back to older module parts

  function Size(mb: ModuleBackup): nat
    requires FitsModule(mb)
  {
    |EncodeModule(mb)|
  }

  predicate Small(mb: ModuleBackup)
    requires FitsModule(mb)
  {
    Size(mb) < PER_MODULE_SIZE_LIMIT_BYTES
  }

  function LastModules(last: Option<ClientBackup>): ModuleBackups {
    if last.Some? then last.value.modules else map[]
  }

  function Find(modules: ModuleBackups, id: nat): Option<ModuleBackup> {
    if id in modules then Some(modules[id]) else None
  }

  /** The part kept for one module id out of the new backup and the previous one. */
  function Chosen(latest: ModuleBackups, last: ModuleBackups, id: nat): Option<ModuleBackup>
    requires FitsModules(latest) && FitsModules(last)
  {
    var candidate := if id in latest then Some(latest[id]) else if id in last then Some(last[id]) else None;
    if candidate.None? then None
    else if Small(candidate.value) then candidate
    else if id in last then Some(last[id])
    else None
  }

  /** The parts kept for all module ids. */
  function Fallback(latest: ModuleBackups, last: ModuleBackups): ModuleBackups
    requires FitsModules(latest) && FitsModules(last)
  {
    map id | id in latest.Keys + last.Keys && Chosen(latest, last, id).Some? :: Chosen(latest, last, id).value
  }

  /** The source's decision for one id of either backup. */
  method KeepPart(latest: ModuleBackups, last: ModuleBackups, id: nat) returns (part: Option<ModuleBackup>)
    requires FitsModules(latest) && FitsModules(last) && (id in latest || id in last)
    ensures part == Chosen(latest, last, id)
    ensures part == Find(Fallback(latest, last), id)
  {
    var candidate := if id in latest then latest[id] else last[id];
    if Size(candidate) < PER_MODULE_SIZE_LIMIT_BYTES {
      part := Some(candidate);
    } else if id in last {
      part := Some(last[id]);
    } else {
      part := None;
    }
  }

  lemma FindsEqual(m: ModuleBackups, m': ModuleBackups, ids: set<nat>)
    requires m.Keys <= ids && m'.Keys <= ids && forall id <- ids :: Find(m, id) == Find(m', id)
    ensures m == m'
  {
  }

  /** The source's loop over the ids of both backups. */
  method FallbackModules(latest: ModuleBackups, last: ModuleBackups) returns (modules: ModuleBackups)
    requires FitsModules(latest) && FitsModules(last)
    ensures modules == Fallback(latest, last)
  {
    var allIds := latest.Keys + last.Keys;
    ghost var wanted := Fallback(latest, last);
    modules := map[];
    var done: set<nat> := {};
    while !(allIds <= done)
      invariant done <= allIds && modules.Keys <= done
      invariant forall id <- done :: Find(modules, id) == Find(wanted, id)
      decreases allIds - done
    {
      var id :| id in allIds && id !in done;
      var part := KeepPart(latest, last, id);
      if part.Some? {
        modules := modules[id := part.value];
      }
      done := done + {id};
    }
    FindsEqual(modules, wanted, allIds);
  }

  method ValidateAndFallback(b: ClientBackup, last: Option<ClientBackup>) returns (r: ClientBackup)
    requires Fits(b) && (last.Some? ==> Fits(last.value))
    ensures r == FallbackBackup(b, last)
    ensures r.sessionCount == b.sessionCount && r.metadata == b.metadata
  {
    var modules := FallbackModules(b.modules, LastModules(last));
    r := ClientBackup(b.sessionCount, b.metadata, modules);
  }

  /** A new part that is small enough is taken; no id of the previous backup is dropped. */
  lemma FallbackKeeps(latest: ModuleBackups, last: ModuleBackups)
    requires FitsModules(latest) && FitsModules(last)
    ensures var kept := Fallback(latest, last);
      && last.Keys <= kept.Keys
      && (forall id <- latest.Keys :: Small(latest[id]) ==> id in kept && kept[id] == latest[id])
      && (forall id <- kept.Keys :: (id in latest && kept[id] == latest[id]) || (id in last && kept[id] == last[id]))
  {
  }

  /** A new part below 32 KiB, else the previous part if there is one, else nothing. */
  ghost predicate Chooses(kept: ModuleBackups, latest: ModuleBackups, last: ModuleBackups, id: nat)
    requires FitsModules(latest)
  {
    if id in latest && |EncodeModule(latest[id])| < 32 * 1024 then id in kept && kept[id] == latest[id]
    else if id in last then id in kept && kept[id] == last[id]
    else id !in kept
  }

  ghost predicate ChoosesAll(kept: ModuleBackups, latest: ModuleBackups, last: ModuleBackups)
    requires FitsModules(latest)
  {
    forall id :: Chooses(kept, latest, last, id)
  }

  lemma FallbackChooses(latest: ModuleBackups, last: ModuleBackups, id: nat)
    requires FitsModules(latest) && FitsModules(last)
    ensures Chooses(Fallback(latest, last), latest, last, id)
  {
  }

  lemma ChoosesOnce(kept: ModuleBackups, kept': ModuleBackups, latest: ModuleBackups, last: ModuleBackups)
    requires FitsModules(latest) && ChoosesAll(kept, latest, last) && ChoosesAll(kept', latest, last)
    ensures kept == kept'
  {
    forall id ensures Find(kept, id) == Find(kept', id) {
      assert Chooses(kept, latest, last, id) && Chooses(kept', latest, last, id);
    }
    FindsEqual(kept, kept', kept.Keys + kept'.Keys);
  }

  /** The fallback is the one map that chooses so for every id. */
  lemma FallbackExactly(kept: ModuleBackups, latest: ModuleBackups, last: ModuleBackups)
    requires FitsModules(latest) && FitsModules(last)
    ensures kept == Fallback(latest, last) <==> ChoosesAll(kept, latest, last)
  {
    forall id ensures Chooses(Fallback(latest, last), latest, last, id) {
      FallbackChooses(latest, last, id);
    }
    if ChoosesAll(kept, latest, last) {
      ChoosesOnce(kept, Fallback(latest, last), latest, last);
    }
  }

  /** An oversized part survives exactly when the previous backup had one and no small new part replaces it. */
  lemma OversizedExactly(latest: ModuleBackups, last: ModuleBackups, id: nat)
    requires FitsModules(latest) && FitsModules(last)
    ensures var kept := Fallback(latest, last);
      && (id in kept ==> FitsModule(kept[id]))
      && ((id in kept && !Small(kept[id])) <==>
          (id in last && !Small(last[id]) && (id in latest ==> !Small(latest[id]))))
  {
    FallbackKeeps(latest, last);
  }

  // ----- runs of backups

  /** One call: what the modules reported, and how the fallible parts around them went. */
  datatype Attempt = Attempt(pendingRecoveries: bool, created: Option<ClientBackup>, nonce: nat, uploaded: bool)

  predicate FitsAttempt(a: Attempt) {
    a.created.Some? ==> Fits(a.created.value)
  }

  ghost predicate AllSmall(stored: Option<ClientBackup>) {
    stored.Some? ==> Fits(stored.value) && forall id <- stored.value.modules.Keys :: Small(stored.value.modules[id])
  }

  /** An oversized part in the stored backup: with nothing new it is kept, and stays oversized. */
  lemma OversizedStays()
    ensures var big := ModuleBackup(0, Zeros(40_000));
      && FitsModule(big) && !Small(big)
      && FitsModules(map[0 := big]) && FitsModules(map[])
      && Fallback(map[], map[0 := big]) == map[0 := big]
  {
    var big := ModuleBackup(0, Zeros(40_000));
    assert Size(big) >= |big.payload|;
    var last: ModuleBackups := map[0 := big];
    assert last.Keys == {0};
    assert Fallback(map[], last).Keys == {0};
  }

  lemma FallbackSmall(latest: ModuleBackups, last: ModuleBackups)
    requires FitsModules(latest) && FitsModules(last)
    requires forall id <- last.Keys :: Small(last[id])
    ensures FitsModules(Fallback(latest, last))
    ensures forall id <- Fallback(latest, last).Keys :: Small(Fallback(latest, last)[id])
  {
    var kept := Fallback(latest, last);
    FallbackKeeps(latest, last);
    forall id <- kept.Keys ensures id < U16_LIMIT && FitsModule(kept[id]) && Small(kept[id]) {
      OversizedExactly(latest, last, id);
    }
    IdsAreFew(kept.Keys, U16_LIMIT);
  }

  function FallbackBackup(created: ClientBackup, stored: Option<ClientBackup>): ClientBackup
    requires Fits(created) && (stored.Some? ==> Fits(stored.value))
  {
    ClientBackup(created.sessionCount, created.metadata, Fallback(created.modules, LastModules(stored)))
  }

  /** Encrypted and within what the federation accepts. */
  predicate Sendable(b: ClientBackup, c: Cipher, nonce: nat) {
    Fits(b) && EncryptTo(b, c, nonce).Some? && |EncryptTo(b, c, nonce).value| <= BACKUP_REQUEST_MAX_PAYLOAD_SIZE_BYTES
  }

  /** The stored backup after a call; it is stored before the upload, which may still fail. */
  function StoredAfter(stored: Option<ClientBackup>, a: Attempt, c: Cipher): Option<ClientBackup>
    requires FitsAttempt(a) && (stored.Some? ==> Fits(stored.value))
  {
    if a.pendingRecoveries || a.created.None? then stored
    else
      var b := FallbackBackup(a.created.value, stored);
      if Sendable(b, c, a.nonce) then Some(b) else stored
  }

  /** A backup with the new session count and metadata and, per module, the new part or the previous one. */
  ghost predicate IsFallback(b: ClientBackup, created: ClientBackup, stored: Option<ClientBackup>)
    requires Fits(created) && (stored.Some? ==> Fits(stored.value))
  {
    && b.sessionCount == created.sessionCount && b.metadata == created.metadata
    && ChoosesAll(b.modules, created.modules, if stored.Some? then stored.value.modules else map[])
  }

  lemma FallbackOnce(b: ClientBackup, created: ClientBackup, stored: Option<ClientBackup>)
    requires AllSmall(stored) && Fits(created) && IsFallback(b, created, stored)
    ensures Fits(b) && b == FallbackBackup(created, stored)
  {
    FallbackExactly(b.modules, created.modules, LastModules(stored));
    FallbackSmall(created.modules, LastModules(stored));
  }

  /**
   * What a call stores: that backup, exactly if no recovery is pending, the
   * modules reported, it encrypts, and it is at most 128 KiB then; whether or not
   * the upload succeeds.
   */
  lemma StoredExactly(stored: Option<ClientBackup>, a: Attempt, c: Cipher, b: ClientBackup)
    requires AllSmall(stored) && FitsAttempt(a) && (a.created.Some? ==> IsFallback(b, a.created.value, stored))
    ensures a.created.Some? ==> Fits(b)
    ensures StoredAfter(stored, a, c) ==
      if !a.pendingRecoveries && a.created.Some? &&
        EncryptTo(b, c, a.nonce).Some? && |EncryptTo(b, c, a.nonce).value| <= 128 * 1024
      then Some(b) else stored
  {
    if a.created.Some? {
      FallbackOnce(b, a.created.value, stored);
    }
  }

  /** One call keeps every stored part small and every stored id present. */
  lemma StoredStep(stored: Option<ClientBackup>, a: Attempt, c: Cipher)
    requires AllSmall(stored) && FitsAttempt(a)
    ensures AllSmall(StoredAfter(stored, a, c))
    ensures LastModules(stored).Keys <= LastModules(StoredAfter(stored, a, c)).Keys
  {
    if a.created.Some? {
      FallbackSmall(a.created.value.modules, LastModules(stored));
      FallbackKeeps(a.created.value.modules, LastModules(stored));
    }
  }

  /** Call number `i` of a series. */
  ghost predicate CallAt(attempts: seq<Attempt>, c: Cipher, stored: seq<Option<ClientBackup>>, i: nat)
    requires i < |attempts| && |stored| == |attempts| + 1
  {
    && FitsAttempt(attempts[i]) && (stored[i].Some? ==> Fits(stored[i].value))
    && stored[i + 1] == StoredAfter(stored[i], attempts[i], c)
  }

  /** What is stored after a series of calls, from nothing. */
  ghost predicate StoredBy(attempts: seq<Attempt>, c: Cipher, stored: seq<Option<ClientBackup>>) {
    && |stored| == |attempts| + 1 && stored[0] == None
    && forall i | 0 <= i < |attempts| :: CallAt(attempts, c, stored, i)
  }

  lemma StoredTurn(attempts: seq<Attempt>, c: Cipher, stored: seq<Option<ClientBackup>>, i: nat)
    requires StoredBy(attempts, c, stored) && i < |attempts| && AllSmall(stored[i])
    ensures AllSmall(stored[i + 1])
    ensures LastModules(stored[i]).Keys <= LastModules(stored[i + 1]).Keys
  {
    assert CallAt(attempts, c, stored, i);
    StoredStep(stored[i], attempts[i], c);
  }

  lemma {:induction false} StoredSmall(attempts: seq<Attempt>, c: Cipher, stored: seq<Option<ClientBackup>>, j: nat)
    requires StoredBy(attempts, c, stored) && j < |stored|
    ensures AllSmall(stored[j])
    decreases j
  {
    if j > 0 {
      StoredSmall(attempts, c, stored, j - 1);
      StoredTurn(attempts, c, stored, j - 1);
    }
  }

  /**
   * Starting with no stored backup, every backup ever stored has each module
   * part below the limit, and keeps every module id stored before it.
   */
  lemma {:induction false} StoredRuns(
      attempts: seq<Attempt>, c: Cipher, stored: seq<Option<ClientBackup>>, i: nat, j: nat)
    requires StoredBy(attempts, c, stored) && i <= j < |stored|
    ensures AllSmall(stored[j])
    ensures LastModules(stored[i]).Keys <= LastModules(stored[j]).Keys
    ensures forall id <- LastModules(stored[j]) ::
      FitsModule(LastModules(stored[j])[id]) && |EncodeModule(LastModules(stored[j])[id])| < 32 * 1024
    decreases j
  {
    StoredSmall(attempts, c, stored, j);
    if i < j {
      StoredRuns(attempts, c, stored, i, j - 1);
      StoredTurn(attempts, c, stored, j - 1);
    }
  }

  /** Whenever a run stores a new backup, what it uploads decrypts to exactly that backup. */
  lemma StoredIsRecoverable(attempts: seq<Attempt>, c: Cipher, stored: seq<Option<ClientBackup>>, k: nat)
    requires StoredBy(attempts, c, stored) && k < |attempts|
    requires Invertible(c) && Expanding(c)
    ensures stored[k + 1] == stored[k] ||
            (stored[k + 1].Some? && Sendable(stored[k + 1].value, c, attempts[k].nonce)
             && DecryptWith(EncryptTo(stored[k + 1].value, c, attempts[k].nonce).value, c) == stored[k + 1])
  {
    assert CallAt(attempts, c, stored, k);
    if stored[k + 1] != stored[k] {
      EncryptRoundTrip(stored[k + 1].value, c, attempts[k].nonce);
      assert |Padded(stored[k + 1].value)| <= BACKUP_REQUEST_MAX_PAYLOAD_SIZE_BYTES;
    }
  }

  lemma {:induction false} IdsAreFew(ids: set<nat>, n: nat)
    requires forall id <- ids :: id < n
    ensures |ids| <= n
    decreases n
  {
    if n == 0 {
      assert forall id :: id !in ids;
      assert ids == {};
    } else {
      var rest := ids - {n - 1};
      assert forall id <- rest :: id in ids;
      IdsAreFew(rest, n - 1);
    }
  }

  class Client {
    var lastBackup: Option<ClientBackup>

    ghost predicate Valid()
      reads this
    {
      AllSmall(lastBackup)
    }

    constructor ()
      ensures lastBackup == None && Valid()
    {
      lastBackup := None;
    }

    /** Prepare a backup, store it, upload it. */
    method BackupToFederation(a: Attempt, c: Cipher) returns (ok: bool)
      requires Valid() && FitsAttempt(a)
      modifies this
      ensures Valid() && lastBackup == StoredAfter(old(lastBackup), a, c)
      ensures ok <==> (!a.pendingRecoveries && a.created.Some? && a.uploaded
                       && Sendable(FallbackBackup(a.created.value, old(lastBackup)), c, a.nonce))
      ensures ok ==> lastBackup.Some? && IsFallback(lastBackup.value, a.created.value, old(lastBackup))
    {
      StoredStep(lastBackup, a, c);
      if a.pendingRecoveries || a.created.None? {
        return false;
      }
      var b := ValidateAndFallback(a.created.value, lastBackup);
      FallbackSmall(a.created.value.modules, LastModules(lastBackup));
      var encrypted := EncryptTo(b, c, a.nonce);
      if encrypted.None? {
        return false;
      }
      if BACKUP_REQUEST_MAX_PAYLOAD_SIZE_BYTES < |encrypted.value| {
        return false;
      }
      FallbackExactly(b.modules, a.created.value.modules, LastModules(lastBackup));
      lastBackup := Some(b);
      ok := a.uploaded;
    }
  }
}
