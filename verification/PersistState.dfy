/** The persisted records of src/persist_state.c: the state blob, plain or sealed, and the Curve25519 key records. */
module PersistState {
  import opened Bytes
  import opened Results
  import opened Entropy
  import opened Hex
  import opened AppCrypto
  import AesContext

  const MAGIC: Word := 0x4C454453
  const SECRET_MAGIC: Word := 0x43555256
  const PEER_MAGIC: Word := 0x43555250
  const RECORD_ID := 1
  const SECRET_ID := 2
  const PEER_ID := 3

  // ---- the blob and its two stored forms ----

  /** `struct persist_blob` */
  datatype Blob = Blob(magic: Word, consecutive: Word, total: Word, overrideMs: Word, sessionCounter: Word)

  const DEFAULTS := Blob(MAGIC, 0, 0, 0, 0)

  function LittleEndian(n: Word): (s: seq<Byte>)
    ensures |s| == 4
  {
    var b := BigEndian(n);
    [b[3], b[2], b[1], b[0]]
  }

  function LittleEndianValue(s: seq<Byte>): Word
    requires |s| == 4
  {
    BigEndianValue([s[3], s[2], s[1], s[0]])
  }

  lemma LittleEndianRoundTrip(n: Word)
    ensures LittleEndianValue(LittleEndian(n)) == n
  {
    var b := BigEndian(n);
    assert [b[0], b[1], b[2], b[3]] == b;
    BigEndianRoundTrip(n);
    hide BigEndian, BigEndianValue;
  }

  function EncodeBlob(b: Blob): (s: seq<Byte>)
    ensures |s| == 20
  {
    LittleEndian(b.magic) + LittleEndian(b.consecutive) + LittleEndian(b.total) + LittleEndian(b.overrideMs) + LittleEndian(b.sessionCounter)
  }

  function DecodeBlob(s: seq<Byte>): Blob
    requires |s| == 20
  {
    Blob(LittleEndianValue(s[..4]), LittleEndianValue(s[4..8]), LittleEndianValue(s[8..12]), LittleEndianValue(s[12..16]), LittleEndianValue(s[16..]))
  }

  lemma BlobRoundTrip(b: Blob)
    ensures DecodeBlob(EncodeBlob(b)) == b
  {
    hide LittleEndian, LittleEndianValue;
    var s := EncodeBlob(b);
    assert s[..4] == LittleEndian(b.magic) && s[4..8] == LittleEndian(b.consecutive) && s[8..12] == LittleEndian(b.total);
    assert s[12..16] == LittleEndian(b.overrideMs) && s[16..] == LittleEndian(b.sessionCounter);
    LittleEndianRoundTrip(b.magic);
    LittleEndianRoundTrip(b.consecutive);
    LittleEndianRoundTrip(b.total);
    LittleEndianRoundTrip(b.overrideMs);
    LittleEndianRoundTrip(b.sessionCounter);
  }

  /** The five fields in the order in which `struct persist_blob` declares them. */
  function Field(b: Blob, i: nat): Word
    requires i < 5
  {
    if i == 0 then b.magic else if i == 1 then b.consecutive else if i == 2 then b.total else if i == 3 then b.overrideMs else b.sessionCounter
  }

  /** Each field takes four bytes, the least significant first. */
  lemma BlobLayout(b: Blob, i: nat)
    requires i < 5
    ensures var s, n := EncodeBlob(b), Field(b, i);
      && FromByte(s[4 * i]) == n % 0x100 && FromByte(s[4 * i + 1]) == n / 0x100 % 0x100
      && FromByte(s[4 * i + 2]) == n / 0x1_0000 % 0x100 && FromByte(s[4 * i + 3]) == n / 0x100_0000 % 0x100
  {
    hide FromByte;
    LittleEndianBytes(Field(b, i));
    hide LittleEndian;
    assert EncodeBlob(b)[4 * i..4 * i + 4] == LittleEndian(Field(b, i));
    FourBytes(EncodeBlob(b), 4 * i);
  }

  lemma FourBytes(s: seq<Byte>, i: nat)
    requires i + 4 <= |s|
    ensures var t := s[i..i + 4]; s[i] == t[0] && s[i + 1] == t[1] && s[i + 2] == t[2] && s[i + 3] == t[3]
  {}

  lemma LittleEndianBytes(n: Word)
    ensures var s := LittleEndian(n);
      && FromByte(s[0]) == n % 0x100 && FromByte(s[1]) == n / 0x100 % 0x100
      && FromByte(s[2]) == n / 0x1_0000 % 0x100 && FromByte(s[3]) == n / 0x100_0000 % 0x100
  {
    hide FromByte, ToByte;
    FromToByte(n);
    FromToByte(n / 0x100);
    FromToByte(n / 0x1_0000);
    FromToByte(n / 0x100_0000);
  }

  /** Whether sealing is on, and with which expanded key. */
  datatype Sealing = Off | On(w: seq<Byte>, rounds: nat)

  predicate Usable(k: Sealing) {
    k.On? ==> KeyedFor(k.w, k.rounds)
  }

  /** What `persist_store_blob` writes. */
  function Record(k: Sealing, iv: Iv, b: Blob): seq<Byte>
    requires Usable(k)
  {
    match k
    case Off => EncodeBlob(b)
    case On(w, rounds) => iv + Ctr(w, rounds, iv, EncodeBlob(b))
  }

  datatype Loading = Loaded(blob: Blob) | Failed(rc: int)

  /** `persist_read_encrypted`; a record of another length is reported as that (positive) length. */
  function ReadSealed(k: Sealing, record: Option<seq<Byte>>): Loading
    requires Usable(k) && k.On?
  {
    match record
    case None => Failed(-ENOENT)
    case Some(r) =>
      if |r| == 32 then Loaded(DecodeBlob(Ctr(k.w, k.rounds, r[..12], r[12..])))
      else if |r| == 20 then Loaded(DecodeBlob(r))
      else Failed(|r|)
  }

  function ReadPlain(record: Option<seq<Byte>>): Loading {
    match record
    case None => Failed(-ENOENT)
    case Some(r) => if |r| == 20 then Loaded(DecodeBlob(r)) else Failed(-ENOENT)
  }

  /** `persist_load_blob` */
  function Load(k: Sealing, record: Option<seq<Byte>>): Loading
    requires Usable(k)
  {
    if k.On? && (ReadSealed(k, record).Loaded? || (ReadSealed(k, record).rc < 0 && ReadSealed(k, record).rc != -ENOENT)) then ReadSealed(k, record)
    else ReadPlain(record)
  }

  /** The four ways to store with sealing on or off and to load with it on or off. */
  lemma StoreThenLoad(stored: Sealing, loaded: Sealing, iv: Iv, b: Blob)
    requires Usable(stored) && Usable(loaded)
    ensures stored == loaded ==> Load(loaded, Some(Record(stored, iv, b))) == Loaded(b)
    ensures stored.Off? ==> Load(loaded, Some(Record(stored, iv, b))) == Loaded(b)
    ensures stored.On? && loaded.Off? ==> Load(loaded, Some(Record(stored, iv, b))) == Failed(-ENOENT)
  {
    hide Ctr, EncodeBlob, DecodeBlob;
    BlobRoundTrip(b);
    if stored.On? {
      var c := Ctr(stored.w, stored.rounds, iv, EncodeBlob(b));
      CtrUndone(stored.w, stored.rounds, iv, EncodeBlob(b));
      assert (iv + c)[..12] == iv && (iv + c)[12..] == c;
    }
  }

  /** A record loads exactly when it has the length of a plain one, or that of a sealed one and sealing is on. */
  lemma LoadExactly(k: Sealing, record: Option<seq<Byte>>)
    requires Usable(k)
    ensures Load(k, record).Loaded? <==> record.Some? && (|record.value| == 20 || (|record.value| == 32 && k.On?))
    ensures Load(k, record).Failed? ==> Load(k, record).rc == -ENOENT
  {
    hide Ctr, DecodeBlob;
  }

  // ---- the file system ----

  /** An item of the file system, which stores no empty ones (writing one deletes the item). */
  type Item = s: seq<Byte> | s != [] witness [0]

  /** The answers of one attempt to bring the file system up: three tries to open the partition and three to mount. */
  datatype Media = Media(opens: Tries, ready: bool, pageRc: int, mounts: Tries)

  type Tries = s: seq<int> | |s| == 3 witness [0, 0, 0]

  /** The return code of everything up to the mount. */
  function MountCode(m: Media): int {
    if 0 !in m.opens then m.opens[2] else if !m.ready then -EBUSY else if m.pageRc != 0 then m.pageRc
    else if 0 !in m.mounts then m.mounts[2] else 0
  }

  // ---- the operations on flash and RAM ----

  /** The flash record and the copy in RAM. */
  datatype Store = Store(flash: Option<seq<Byte>>, ram: Blob)

  /** One attempt to write: the vector the sealing would draw, and whether the flash takes the write. */
  datatype Attempt = Attempt(iv: Iv, ok: bool)

  function Commit(k: Sealing, s: Store, a: Attempt): Store
    requires Usable(k)
  {
    if a.ok then s.(flash := Some(Record(k, a.iv, s.ram))) else s
  }

  /** The load part of `init_fs_if_needed`. */
  function Mount(k: Sealing, flash: Option<seq<Byte>>, a: Attempt): Store
    requires Usable(k)
  {
    var l := Load(k, flash);
    if l.Loaded? && l.blob.magic == MAGIC then Store(flash, l.blob) else Commit(k, Store(flash, DEFAULTS), a)
  }

  function RecordBoot(k: Sealing, s: Store, watchdogReset: bool, a: Attempt): Store
    requires Usable(k)
  {
    Commit(k, s.(ram := BootBlob(s.ram, watchdogReset)), a)
  }

  function BootBlob(b: Blob, watchdogReset: bool): Blob {
    if watchdogReset then b.(consecutive := (b.consecutive + 1) % WORD, total := (b.total + 1) % WORD) else b.(consecutive := 0)
  }

  function ClearCounter(k: Sealing, s: Store, a: Attempt): Store
    requires Usable(k)
  {
    if s.ram.consecutive != 0 then Commit(k, s.(ram := s.ram.(consecutive := 0)), a) else s
  }

  function SetOverride(k: Sealing, s: Store, timeoutMs: Word, a: Attempt): Store
    requires Usable(k)
  {
    if s.ram.overrideMs != timeoutMs then Commit(k, s.(ram := s.ram.(overrideMs := timeoutMs)), a) else s
  }

  function NextSession(k: Sealing, s: Store, a: Attempt): Store
    requires Usable(k)
  {
    Commit(k, s.(ram := s.ram.(sessionCounter := (s.ram.sessionCounter + 1) % WORD)), a)
  }

  // ---- any operation, on flash that may still have to be mounted ----

  datatype Op =
    | BootRecorded(watchdogReset: bool, a: Attempt)
    | Cleared(a: Attempt)
    | Overridden(timeoutMs: Word, a: Attempt)
    | SessionOpened(a: Attempt)
    | Reloaded(a: Attempt)

  function Apply(k: Sealing, s: Store, op: Op): Store
    requires Usable(k)
  {
    match op
    case BootRecorded(w, a) => RecordBoot(k, s, w, a)
    case Cleared(a) => ClearCounter(k, s, a)
    case Overridden(t, a) => SetOverride(k, s, t, a)
    case SessionOpened(a) => NextSession(k, s, a)
    case Reloaded(a) => Mount(k, s.flash, a)
  }

  datatype Held = Held(store: Store, mounted: bool)

  /** `init_fs_if_needed` when everything up to the mount answers mountRc. */
  function Mounted(k: Sealing, h: Held, mountRc: int, a: Attempt): Held
    requires Usable(k)
  {
    if h.mounted || mountRc != 0 then h else Held(Mount(k, h.store.flash, a), true)
  }

  /** An operation first tries to mount, and does nothing when that fails; a is for the defaults, op.a for the operation itself. */
  function Operate(k: Sealing, h: Held, mountRc: int, a: Attempt, op: Op): Held
    requires Usable(k)
  {
    var h' := Mounted(k, h, mountRc, a);
    if h'.mounted then h'.(store := Apply(k, h'.store, op)) else h'
  }

  // ---- flash always holds the last blob that was committed ----

  function ApplyAll(k: Sealing, s: Store, ops: seq<Op>): Store
    requires Usable(k)
  {
    if ops == [] then s else Apply(k, ApplyAll(k, s, ops[..|ops| - 1]), ops[|ops| - 1])
  }

  /** Whether an operation comes to write the blob at all. */
  predicate Writes(s: Store, op: Op) {
    match op
    case BootRecorded(_, _) => true
    case Cleared(_) => s.ram.consecutive != 0
    case Overridden(t, _) => s.ram.overrideMs != t
    case SessionOpened(_) => true
    case Reloaded(_) => false
  }

  /** The blob of the last write in a run that the flash took, or the one held before the run. */
  function LastCommitted(k: Sealing, s: Store, held: Blob, ops: seq<Op>): Blob
    requires Usable(k)
  {
    if ops == [] then held
    else
      var before, op := ops[..|ops| - 1], ops[|ops| - 1];
      var t := ApplyAll(k, s, before);
      if Writes(t, op) && op.a.ok then Apply(k, t, op).ram else LastCommitted(k, s, held, before)
  }

  ghost predicate FlashHolds(k: Sealing, s: Store, b: Blob)
    requires Usable(k)
  {
    b.magic == MAGIC && Load(k, s.flash) == Loaded(b)
  }

  lemma CommitLands(k: Sealing, s: Store, a: Attempt)
    requires Usable(k) && s.ram.magic == MAGIC
    ensures a.ok ==> FlashHolds(k, Commit(k, s, a), s.ram)
    ensures !a.ok ==> Commit(k, s, a) == s
  {
    StoreThenLoad(k, k, a.iv, s.ram);
    hide Load, Record;
  }

  /** After an operation the flash decodes to RAM if the operation wrote and the flash took it, and to what it did before otherwise. */
  lemma ApplyLands(k: Sealing, s: Store, op: Op, held: Blob)
    requires Usable(k) && s.ram.magic == MAGIC && FlashHolds(k, s, held)
    ensures var s' := Apply(k, s, op);
      && s'.ram.magic == MAGIC
      && FlashHolds(k, s', if Writes(s, op) && op.a.ok then s'.ram else held)
      && (op.Reloaded? ==> s'.ram == held)
      && (!op.Reloaded? && !Writes(s, op) ==> s' == s)
  {
    hide Load, Record;
    match op
    case BootRecorded(w, a) => CommitLands(k, s.(ram := BootBlob(s.ram, w)), a);
    case Cleared(a) => CommitLands(k, s.(ram := s.ram.(consecutive := 0)), a);
    case Overridden(t, a) => CommitLands(k, s.(ram := s.ram.(overrideMs := t)), a);
    case SessionOpened(a) => CommitLands(k, s.(ram := s.ram.(sessionCounter := (s.ram.sessionCounter + 1) % WORD)), a);
    case Reloaded(a) =>
  }

  /**
   * Whatever writes the flash refuses in a run, it decodes to exactly the blob of the last write that it
   * took; and that is the blob in RAM while it has refused none.
   */
  lemma {:induction false} FlashHoldsLastCommitted(k: Sealing, s: Store, held: Blob, ops: seq<Op>)
    requires Usable(k) && s.ram.magic == MAGIC && FlashHolds(k, s, held)
    ensures FlashHolds(k, ApplyAll(k, s, ops), LastCommitted(k, s, held, ops)) && ApplyAll(k, s, ops).ram.magic == MAGIC
    ensures held == s.ram && (forall op :: op in ops ==> op.a.ok) ==> LastCommitted(k, s, held, ops) == ApplyAll(k, s, ops).ram
  {
    hide FlashHolds, Apply, Writes;
    if ops != [] {
      var before, op := ops[..|ops| - 1], ops[|ops| - 1];
      FlashHoldsLastCommitted(k, s, held, before);
      ApplyLands(k, ApplyAll(k, s, before), op, LastCommitted(k, s, held, before));
      assert forall o :: o in before ==> o in ops;
      assert op in ops;
    }
  }

  /** Mounting takes a valid blob as it is and otherwise starts from zeros; it leaves the flash decoding to RAM, unless it was refused the zeros. */
  lemma MountLands(k: Sealing, flash: Option<seq<Byte>>, a: Attempt)
    requires Usable(k)
    ensures var s, l := Mount(k, flash, a), Load(k, flash);
      && s.ram == (if l.Loaded? && l.blob.magic == MAGIC then l.blob else Blob(MAGIC, 0, 0, 0, 0))
      && (l.Loaded? && l.blob.magic == MAGIC ==> s.flash == flash)
      && (a.ok || (l.Loaded? && l.blob.magic == MAGIC) <==> FlashHolds(k, s, s.ram))
  {
    CommitLands(k, Store(flash, DEFAULTS), a);
    hide Load, Record;
  }

  lemma MagicOfHeld(k: Sealing, s: Store, b: Blob)
    requires Usable(k) && FlashHolds(k, s, b)
    ensures b.magic == MAGIC
  {}

  // ---- the blob in RAM is the history of the run ----

  /** The boots after watchdog resets since the last other boot or clearing, counting on from c. */
  function Streak(c: Word, ops: seq<Op>): Word {
    if ops == [] then c
    else
      match ops[|ops| - 1]
      case BootRecorded(w, _) => if w then (Streak(c, ops[..|ops| - 1]) + 1) % WORD else 0
      case Cleared(_) => 0
      case _ => Streak(c, ops[..|ops| - 1])
  }

  /** All boots after watchdog resets. */
  function ResetBoots(ops: seq<Op>): nat {
    if ops == [] then 0
    else ResetBoots(ops[..|ops| - 1]) + (if ops[|ops| - 1].BootRecorded? && ops[|ops| - 1].watchdogReset then 1 else 0)
  }

  /** The override that was set last. */
  function LastOverride(o: Word, ops: seq<Op>): Word {
    if ops == [] then o else if ops[|ops| - 1].Overridden? then ops[|ops| - 1].timeoutMs else LastOverride(o, ops[..|ops| - 1])
  }

  function Sessions(ops: seq<Op>): nat {
    if ops == [] then 0 else Sessions(ops[..|ops| - 1]) + (if ops[|ops| - 1].SessionOpened? then 1 else 0)
  }

  function History(b: Blob, ops: seq<Op>): Blob {
    Blob(MAGIC, Streak(b.consecutive, ops), (b.total + ResetBoots(ops)) % WORD, LastOverride(b.overrideMs, ops), (b.sessionCounter + Sessions(ops)) % WORD)
  }

  /** What an operation other than a reload makes of the blob. */
  function Followed(b: Blob, op: Op): Blob {
    Blob(MAGIC,
         if op.BootRecorded? then (if op.watchdogReset then (b.consecutive + 1) % WORD else 0) else if op.Cleared? then 0 else b.consecutive,
         if op.BootRecorded? && op.watchdogReset then (b.total + 1) % WORD else b.total,
         if op.Overridden? then op.timeoutMs else b.overrideMs,
         if op.SessionOpened? then (b.sessionCounter + 1) % WORD else b.sessionCounter)
  }

  lemma ApplyFollows(k: Sealing, s: Store, op: Op)
    requires Usable(k) && s.ram.magic == MAGIC && !op.Reloaded?
    ensures Apply(k, s, op).ram == Followed(s.ram, op)
  {
    hide Record;
  }

  lemma HistoryGrows(b: Blob, before: seq<Op>, op: Op)
    requires b.magic == MAGIC
    ensures History(b, before + [op]) == if op.Reloaded? then History(b, before) else Followed(History(b, before), op)
    ensures History(b, []) == b
  {
    assert (before + [op])[..|before|] == before;
    OneMore(b.total, ResetBoots(before));
    OneMore(b.sessionCounter, Sessions(before));
  }

  lemma OneMore(b: nat, n: nat)
    ensures ((b + n) % WORD + 1) % WORD == (b + (n + 1)) % WORD
  {}

  /**
   * In a run that loses no write, or never reloads, the blob in RAM tells what happened: the watchdog resets in
   * the running series and in all, the override that was set last, and how many sessions were opened.
   */
  lemma {:induction false} RamFollowsHistory(k: Sealing, s: Store, ops: seq<Op>)
    requires Usable(k) && s.ram.magic == MAGIC && FlashHolds(k, s, s.ram)
    requires (forall op :: op in ops ==> op.a.ok) || (forall op :: op in ops ==> !op.Reloaded?)
    ensures ApplyAll(k, s, ops).ram == History(s.ram, ops)
  {
    hide FlashHolds, Apply, Writes, History, Followed;
    if ops == [] {
      HistoryGrows(s.ram, [], Cleared(Attempt(seq(12, _ => 0), true)));
    } else {
      var before, op := ops[..|ops| - 1], ops[|ops| - 1];
      assert op in ops && forall o :: o in before ==> o in ops;
      RamFollowsHistory(k, s, before);
      assert ops == before + [op];
      HistoryGrows(s.ram, before, op);
      if op.Reloaded? {
        FlashHoldsLastCommitted(k, s, s.ram, before);
        ApplyLands(k, ApplyAll(k, s, before), op, ApplyAll(k, s, before).ram);
      } else {
        FlashHoldsLastCommitted(k, s, s.ram, before);
        ApplyFollows(k, ApplyAll(k, s, before), op);
      }
    }
  }
}
