/** The functions of src/persist_state.c on the mounted flash: a map from record ids to byte strings. */
module PersistStore {
  import opened Bytes
  import opened Results
  import opened Entropy
  import opened Hex
  import opened AppCrypto
  import opened PersistState
  import opened CurveKeys

  class Persist {
    const crypto: Crypto
    var nvs: map<nat, Item>
    var blob: Blob
    var loaded: bool

    ghost predicate Valid()
      reads this, crypto, crypto.aes
    {
      crypto.Valid() && (crypto.IsEnabled() ==> crypto.aes.Valid())
    }

    constructor (crypto: Crypto, nvs: map<nat, Item>)
      requires crypto.Valid()
      ensures Valid() && this.crypto == crypto && this.nvs == nvs && !loaded && blob == Blob(0, 0, 0, 0, 0)
    {
      this.crypto, this.nvs, blob, loaded := crypto, nvs, Blob(0, 0, 0, 0, 0), false;
    }

    /** Whether records are sealed, and with which schedule. */
    function Sealed(): (k: Sealing)
      requires crypto.Valid()
      reads this, crypto, crypto.aes, crypto.aes.roundKeys
      ensures Usable(k)
    {
      if crypto.IsEnabled() then On(crypto.aes.roundKeys[..], crypto.aes.rounds) else Off
    }

    function StateRecord(): Option<seq<Byte>>
      reads this
    {
      if RECORD_ID in nvs then Some(nvs[RECORD_ID]) else None
    }

    function Contents(): Store
      reads this
    {
      Store(StateRecord(), blob)
    }

    function Holding(): Held
      reads this
    {
      Held(Contents(), loaded)
    }

    /** The vector that the next sealing draws. */
    function NextAttempt(ok: bool): Attempt
      requires crypto.Valid()
      reads this, crypto, crypto.aes, crypto.ivSeed
    {
      Attempt(IvOfCall(crypto.ivSeed[..], crypto.prngState, crypto.ivCounter, 0), ok)
    }

    /** `nvs_write`: the number of bytes written, 0 when the record already holds them, negative when the flash refuses. */
    method NvsWrite(id: nat, data: Item, ok: bool) returns (rc: int)
      modifies this`nvs
      ensures nvs == if ok then old(nvs)[id := data] else old(nvs)
      ensures if ok then rc >= 0 else rc == -EIO
    {
      if !ok {
        return -EIO;
      }
      rc := if id in nvs && nvs[id] == data then 0 else |data|;
      nvs := nvs[id := data];
    }

    /** `nvs_read` gives the length of the whole record even when the buffer is shorter. */
    method NvsRead(id: nat) returns (rc: int, data: seq<Byte>)
      ensures id in nvs ==> rc == |nvs[id]| && data == nvs[id]
      ensures id !in nvs ==> rc == -ENOENT && data == []
    {
      if id !in nvs {
        return -ENOENT, [];
      }
      return |nvs[id]|, nvs[id];
    }

    /** `persist_read_encrypted` */
    method ReadEncrypted() returns (rc: int, out: Blob)
      requires Valid() && crypto.IsEnabled()
      ensures var l := ReadSealed(Sealed(), StateRecord());
        if l.Loaded? then rc == 0 && out == l.blob else rc == l.rc && rc != 0
    {
      hide Ctr, DecodeBlob;
      out := DEFAULTS;
      var storage;
      rc, storage := NvsRead(RECORD_ID);
      if rc == 32 {
        var iv := new Byte[12](i requires 0 <= i < 12 => storage[i]);
        var data, plain := new Byte[20](i requires 0 <= i < 20 => storage[12 + i]), new Byte[20];
        assert iv[..] == storage[..12] && data[..20] == storage[12..];
        var plainLen;
        rc, plainLen := crypto.DecryptBuffer(data, 20, iv, plain, 20);
        out := DecodeBlob(plain[..20]);
        return;
      }
      if rc == 20 {
        out := DecodeBlob(storage);
        return 0, out;
      }
    }

    /** `persist_load_blob` */
    method LoadBlob() returns (rc: int, out: Blob)
      requires Valid()
      ensures var l := Load(Sealed(), StateRecord());
        if l.Loaded? then rc == 0 && out == l.blob else rc == l.rc && rc != 0
    {
      hide DecodeBlob, Ctr;
      if crypto.IsEnabled() {
        rc, out := ReadEncrypted();
        if rc == 0 {
          return;
        }
        if rc < 0 && rc != -ENOENT {
          return;
        }
      }
      var storage;
      rc, storage := NvsRead(RECORD_ID);
      if rc < 0 {
        return rc, DEFAULTS;
      }
      if rc == 20 {
        return 0, DecodeBlob(storage);
      }
      return -ENOENT, DEFAULTS;
    }

    /** `persist_store_blob` and `persist_commit_locked` */
    method CommitLocked(ok: bool) returns (rc: int)
      requires Valid()
      modifies this`nvs, crypto`prngState, crypto`ivCounter
      ensures Valid() && Sealed() == old(Sealed())
      ensures Contents() == Commit(old(Sealed()), old(Contents()), old(NextAttempt(ok)))
      ensures rc == if ok then 0 else -EIO
      ensures OthersKept({RECORD_ID}, old(nvs), nvs)
      ensures ok ==> RECORD_ID in nvs && IsSealed(Sealed(), old(NextAttempt(ok)).iv, blob, nvs[RECORD_ID])
    {
      hide Ctr, EncodeBlob, IvOfCall;
      ghost var k, vector := Sealed(), NextAttempt(ok).iv;
      var storage := EncodeBlob(blob);
      SealedAfter(k, vector, blob);
      if crypto.IsEnabled() {
        var plain, data, iv := new Byte[20](i requires 0 <= i < 20 => storage[i]), new Byte[20], new Byte[12];
        assert plain[..20] == storage;
        var cipherLen;
        rc, cipherLen := crypto.EncryptBuffer(plain, 20, data, 20, iv);
        assert data[..] == data[..20];
        storage := iv[..] + data[..];
      }
      rc := NvsWrite(RECORD_ID, storage, ok);
      if rc >= 0 {
        rc := 0;
      }
    }

    /** The retry loop that opening and mounting share. */
    static method TryThrice(answers: Tries) returns (rc: int)
      ensures rc == if 0 in answers then 0 else answers[2]
    {
      rc := 0;
      for attempt := 0 to 3
        invariant attempt > 0 ==> rc == answers[attempt - 1] && rc != 0
        invariant forall k :: 0 <= k < attempt ==> answers[k] != 0
      {
        rc := answers[attempt];
        if rc == 0 {
          return;
        }
      }
    }

    /** The part of `init_fs_if_needed` that brings the file system up. */
    static method BringUp(m: Media) returns (rc: int)
      ensures rc == MountCode(m)
    {
      rc := TryThrice(m.opens);
      if rc != 0 {
        return;
      }
      if !m.ready {
        return -EBUSY;
      }
      if m.pageRc != 0 {
        return m.pageRc;
      }
      rc := TryThrice(m.mounts);
    }

    /** `init_fs_if_needed`; ok tells whether the flash takes the defaults if they have to be written. */
    method InitFsIfNeeded(m: Media, ok: bool) returns (rc: int, ghost a: Attempt)
      requires Valid()
      modifies this`nvs, this`blob, this`loaded, crypto`prngState, crypto`ivCounter
      ensures Valid() && Sealed() == old(Sealed()) && a == old(NextAttempt(ok))
      ensures rc == if old(loaded) then 0 else MountCode(m)
      ensures rc == 0 <==> old(loaded) || (0 in m.opens && m.ready && m.pageRc == 0 && 0 in m.mounts)
      ensures Holding() == Mounted(old(Sealed()), old(Holding()), MountCode(m), a)
      ensures old(loaded) || rc != 0 ==> nvs == old(nvs) && NextAttempt(ok) == a
      ensures OthersKept({RECORD_ID}, old(nvs), nvs)
    {
      hide Load, Record, IsSealed;
      a := NextAttempt(ok);
      if loaded {
        return 0, a;
      }
      rc := BringUp(m);
      if rc != 0 {
        return;
      }
      ghost var flash := StateRecord();
      var tmp;
      rc, tmp := LoadBlob();
      if rc == 0 && tmp.magic == MAGIC {
        blob := tmp;
      } else {
        blob := DEFAULTS;
        var ignored := CommitLocked(ok);
      }
      loaded := true;
      return 0, a;
    }

    static ghost predicate OthersKept(ids: set<nat>, before: map<nat, Item>, after: map<nat, Item>) {
      forall id :: id !in ids ==> (id in after <==> id in before) && (id in after ==> after[id] == before[id])
    }

    /** `persist_state_record_boot` */
    method RecordBootNow(watchdogReset: bool, m: Media, okFirst: bool, ok: bool) returns (ghost first: Attempt, ghost a: Attempt)
      requires Valid()
      modifies this`nvs, this`blob, this`loaded, crypto`prngState, crypto`ivCounter
      ensures Valid() && Sealed() == old(Sealed()) && OthersKept({RECORD_ID}, old(nvs), nvs) && first.ok == okFirst && a.ok == ok
      ensures Holding() == Operate(old(Sealed()), old(Holding()), MountCode(m), first, BootRecorded(watchdogReset, a))
    {
      hide Record, Commit, Mount, IvOfCall, IsSealed;
      var rc;
      rc, first := InitFsIfNeeded(m, okFirst);
      a := NextAttempt(ok);
      if rc != 0 {
        return;
      }
      if watchdogReset {
        blob := blob.(consecutive := (blob.consecutive + 1) % WORD);
        blob := blob.(total := (blob.total + 1) % WORD);
      } else if blob.consecutive != 0 {
        blob := blob.(consecutive := 0);
      }
      var ignored := CommitLocked(ok);
    }

    /** `persist_state_clear_watchdog_counter` */
    method ClearWatchdogCounter(m: Media, okFirst: bool, ok: bool) returns (ghost first: Attempt, ghost a: Attempt)
      requires Valid()
      modifies this`nvs, this`blob, this`loaded, crypto`prngState, crypto`ivCounter
      ensures Valid() && Sealed() == old(Sealed()) && OthersKept({RECORD_ID}, old(nvs), nvs) && first.ok == okFirst && a.ok == ok
      ensures Holding() == Operate(old(Sealed()), old(Holding()), MountCode(m), first, Op.Cleared(a))
    {
      hide Record, Commit, Mount, IvOfCall, IsSealed;
      var rc;
      rc, first := InitFsIfNeeded(m, okFirst);
      a := NextAttempt(ok);
      if rc == 0 && blob.consecutive != 0 {
        blob := blob.(consecutive := 0);
        var ignored := CommitLocked(ok);
      }
    }

    /** `persist_state_set_watchdog_override` */
    method SetWatchdogOverride(timeoutMs: Word, m: Media, okFirst: bool, ok: bool) returns (rc: int, ghost first: Attempt, ghost a: Attempt)
      requires Valid()
      modifies this`nvs, this`blob, this`loaded, crypto`prngState, crypto`ivCounter
      ensures Valid() && Sealed() == old(Sealed()) && OthersKept({RECORD_ID}, old(nvs), nvs) && first.ok == okFirst && a.ok == ok
      ensures old(loaded) ==> a == old(NextAttempt(ok))
      ensures Holding() == Operate(old(Sealed()), old(Holding()), MountCode(m), first, Overridden(timeoutMs, a))
      ensures var h := Mounted(old(Sealed()), old(Holding()), MountCode(m), first);
        rc == if h.mounted && (ok || h.store.ram.overrideMs == timeoutMs) then 0 else -EIO
    {
      hide Record, Commit, Mount, IvOfCall, IsSealed;
      rc, first := InitFsIfNeeded(m, okFirst);
      a := NextAttempt(ok);
      if rc != 0 {
        return -EIO, first, a;
      }
      if blob.overrideMs != timeoutMs {
        blob := blob.(overrideMs := timeoutMs);
        rc := CommitLocked(ok);
      }
    }

    /** `persist_state_next_session_counter` */
    method NextSessionCounter(m: Media, okFirst: bool, ok: bool) returns (value: Word, ghost first: Attempt, ghost a: Attempt)
      requires Valid()
      modifies this`nvs, this`blob, this`loaded, crypto`prngState, crypto`ivCounter
      ensures Valid() && Sealed() == old(Sealed()) && OthersKept({RECORD_ID}, old(nvs), nvs) && first.ok == okFirst && a.ok == ok
      ensures Holding() == Operate(old(Sealed()), old(Holding()), MountCode(m), first, SessionOpened(a))
      ensures value == if loaded then blob.sessionCounter else 0
    {
      hide Record, Commit, Mount, IvOfCall, IsSealed;
      var rc;
      rc, first := InitFsIfNeeded(m, okFirst);
      a := NextAttempt(ok);
      value := 0;
      if rc == 0 {
        blob := blob.(sessionCounter := (blob.sessionCounter + 1) % WORD);
        value := blob.sessionCounter;
        var ignored := CommitLocked(ok);
      }
    }

    predicate IsFallbackActive(threshold: nat)
      reads this
    {
      blob.consecutive >= threshold
    }

    // ---- the Curve25519 records ----

    /** What the setters of the two key records share. */
    method StoreKey(id: nat, record: Item, m: Media, okFirst: bool, ok: bool) returns (rc: int, ghost first: Attempt)
      requires Valid() && id != RECORD_ID
      modifies this`nvs, this`blob, this`loaded, crypto`prngState, crypto`ivCounter
      ensures Valid() && Sealed() == old(Sealed()) && first.ok == okFirst
      ensures Holding() == Mounted(old(Sealed()), old(Holding()), MountCode(m), first)
      ensures rc == if !loaded then MountCode(m) else if ok then 0 else -EIO
      ensures OthersKept(if rc == 0 then {RECORD_ID, id} else {RECORD_ID}, old(nvs), nvs)
      ensures rc == 0 ==> id in nvs && nvs[id] == record
      ensures old(loaded) ==> nvs == if ok then old(nvs)[id := record] else old(nvs)
    {
      hide Mount, IvOfCall;
      rc, first := InitFsIfNeeded(m, okFirst);
      if rc == 0 {
        rc := NvsWrite(id, record, ok);
        rc := if rc < 0 then rc else 0;
      }
    }

    /** `persist_state_curve25519_set_secret`: the clamped scalar behind its magic number. */
    method SetSecret(secret: array<Byte>, m: Media, okFirst: bool, ok: bool) returns (rc: int, ghost first: Attempt)
      requires Valid() && secret.Length == 32
      modifies this`nvs, this`blob, this`loaded, crypto`prngState, crypto`ivCounter
      ensures Valid() && Sealed() == old(Sealed()) && first.ok == okFirst
      ensures Holding() == Mounted(old(Sealed()), old(Holding()), MountCode(m), first)
      ensures rc == if !loaded then MountCode(m) else if ok then 0 else -EIO
      ensures OthersKept(if rc == 0 then {RECORD_ID, SECRET_ID} else {RECORD_ID}, old(nvs), nvs)
      ensures rc == 0 ==> SECRET_ID in nvs && nvs[SECRET_ID] == KeyRecord(SECRET_MAGIC, Clamp(secret[..]))
      ensures old(loaded) ==> nvs == if ok then old(nvs)[SECRET_ID := KeyRecord(SECRET_MAGIC, Clamp(secret[..]))] else old(nvs)
    {
      hide KeyRecord, Mounted, Clamp, IvOfCall, Sealed, NextAttempt, OthersKept;
      var record := new Byte[32](i requires 0 <= i < 32 reads secret => secret[i]);
      assert record[..] == secret[..];
      ghost var k, h, a := Sealed(), Holding(), NextAttempt(okFirst);
      ClampScalar(record);
      assert Sealed() == k && Holding() == h && NextAttempt(okFirst) == a;
      rc, first := StoreKey(SECRET_ID, KeyRecord(SECRET_MAGIC, record[..]), m, okFirst, ok);
    }

    /** `persist_state_curve25519_set_peer` */
    method SetPeer(peer: array<Byte>, m: Media, okFirst: bool, ok: bool) returns (rc: int, ghost first: Attempt)
      requires Valid() && peer.Length == 32
      modifies this`nvs, this`blob, this`loaded, crypto`prngState, crypto`ivCounter
      ensures Valid() && Sealed() == old(Sealed()) && first.ok == okFirst
      ensures Holding() == Mounted(old(Sealed()), old(Holding()), MountCode(m), first)
      ensures rc == if !loaded then MountCode(m) else if ok then 0 else -EIO
      ensures OthersKept(if rc == 0 then {RECORD_ID, PEER_ID} else {RECORD_ID}, old(nvs), nvs)
      ensures rc == 0 ==> PEER_ID in nvs && nvs[PEER_ID] == KeyRecord(PEER_MAGIC, peer[..])
      ensures old(loaded) ==> nvs == if ok then old(nvs)[PEER_ID := KeyRecord(PEER_MAGIC, peer[..])] else old(nvs)
    {
      hide KeyRecord, Mounted, IvOfCall, Sealed, NextAttempt, OthersKept;
      rc, first := StoreKey(PEER_ID, KeyRecord(PEER_MAGIC, peer[..]), m, okFirst, ok);
    }

    /** The lookup that `persist_state_curve25519_get_secret` and `..._get_peer` share. */
    method GetKey(id: nat, magic: Word) returns (key: Option<seq<Byte>>)
      ensures key == if id in nvs then KeyOfRecord(magic, nvs[id]) else None
    {
      var rc, record := NvsRead(id);
      if rc < 0 {
        return None;
      }
      return KeyOfRecord(magic, record);
    }
  }

  /** Sealed, the item is the vector and 20 bytes that counter mode under it turns into the encoded blob; plain, it is the encoded blob. */
  ghost predicate IsSealed(k: Sealing, iv: Iv, b: Blob, item: seq<Byte>)
    requires Usable(k)
  {
    if k.Off? then item == EncodeBlob(b)
    else |item| == 32 && item[..12] == iv && Ctr(k.w, k.rounds, iv, item[12..]) == EncodeBlob(b)
  }

  lemma SealedAfter(k: Sealing, iv: Iv, b: Blob)
    requires Usable(k)
    ensures IsSealed(k, iv, b, Record(k, iv, b))
  {
    hide Ctr, EncodeBlob;
    if k.On? {
      CtrUndone(k.w, k.rounds, iv, EncodeBlob(b));
      var c := Ctr(k.w, k.rounds, iv, EncodeBlob(b));
      assert (iv + c)[..12] == iv && (iv + c)[12..] == c;
    }
  }

  /** The record of a key: four bytes of magic number, the least significant first, and the key. */
  lemma KeyRecordLayout(magic: Word, key: Key)
    ensures var r := KeyRecord(magic, key);
      && FromByte(r[0]) == magic % 0x100 && FromByte(r[1]) == magic / 0x100 % 0x100
      && FromByte(r[2]) == magic / 0x1_0000 % 0x100 && FromByte(r[3]) == magic / 0x100_0000 % 0x100
      && r[4..] == key
  {
    hide FromByte;
    LittleEndianBytes(magic);
    hide LittleEndian;
  }

  function KeyRecord(magic: Word, key: Key): (r: seq<Byte>)
    ensures |r| == 36
  {
    LittleEndian(magic) + key
  }

  function KeyOfRecord(magic: Word, record: seq<Byte>): Option<seq<Byte>> {
    if |record| == 36 && LittleEndianValue(record[..4]) == magic then Some(record[4..]) else None
  }

  /** A record yields a key exactly when it is the record of that key. */
  lemma KeyRecordExactly(magic: Word, record: seq<Byte>, key: Key)
    ensures KeyOfRecord(magic, record) == Some(key) <==> record == KeyRecord(magic, key)
  {
    hide LittleEndian, LittleEndianValue;
    KeyRecordRoundTrip(magic, magic, key);
    if KeyOfRecord(magic, record) == Some(key) {
      LittleEndianValueRoundTrip(record[..4]);
      assert record == record[..4] + record[4..];
    }
  }

  lemma LittleEndianValueRoundTrip(s: seq<Byte>)
    requires |s| == 4
    ensures LittleEndian(LittleEndianValue(s)) == s
  {
    hide BigEndian, BigEndianValue;
    BigEndianValueRoundTrip([s[3], s[2], s[1], s[0]]);
  }

  /** A stored key is found again under its own magic number and under no other. */
  lemma KeyRecordRoundTrip(magic: Word, other: Word, key: Key)
    ensures KeyOfRecord(magic, KeyRecord(magic, key)) == Some(key)
    ensures other != magic ==> KeyOfRecord(other, KeyRecord(magic, key)) == None
  {
    hide LittleEndian, LittleEndianValue;
    LittleEndianRoundTrip(magic);
    var r := KeyRecord(magic, key);
    assert r[..4] == LittleEndian(magic) && r[4..] == key;
  }
}
