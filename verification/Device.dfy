/** The boot sequence of src/main.c and runs of the device that span reboots. */
module Device {
  import opened Bytes
  import opened Results
  import opened Hex
  import opened WatchdogCtrl
  import opened Supervisor
  import opened SupervisorRuns
  import opened PersistState
  import opened Entropy
  import PersistStore

  /** The build's numbers beside those of the supervisor; driverTicks is what the driver programs for the boot timeout. */
  datatype Build = Build(p: Params, threshold: nat, bootTimeoutMs: Word, steadyTimeoutMs: Word, retuneDelayMs: Word, driverTicks: nat)

  // ---- booting ----

  /** What the boot does to the persisted state: mount, record the boot, and leave safe mode's count behind. */
  function BootStore(threshold: nat, k: Sealing, flash: Option<seq<Byte>>, watchdogReset: bool,
                     a0: Attempt, a1: Attempt, a2: Attempt): (r: (Store, bool))
    requires Usable(k)
  {
    var recorded := RecordBoot(k, Mount(k, flash, a0), watchdogReset, a1);
    var safeMode := recorded.ram.consecutive >= threshold;
    (if safeMode then ClearCounter(k, recorded, a2) else recorded, safeMode)
  }

  /** The timeout the supervisor is to tune to, and after what delay. */
  function SteadyTimeout(b: Build, overrideMs: Word, safeMode: bool): (Word, Word) {
    var steady := if overrideMs == 0 then b.steadyTimeoutMs else overrideMs;
    if safeMode then (if steady > b.bootTimeoutMs then steady else b.bootTimeoutMs, 0) else (steady, b.retuneDelayMs)
  }

  /** The supervisor as a boot starts it on a watchdog that came up. */
  function BootSupervisor(b: Build, channel: nat, overrideMs: Word, safeMode: bool, ledLast: Word, now: nat): State {
    var (steady, delay) := SteadyTimeout(b, overrideMs, safeMode);
    Start(Watchdog(channel, true, b.bootTimeoutMs, Hardware(b.driverTicks, now)), ledLast, steady, delay, true, now)
  }

  /** How a call into src/persist_state.c fares: what an attempt to mount answers, and the writes of defaults and of the call's own. */
  datatype Call = Call(mountRc: int, first: Attempt, a: Attempt)

  /** The same as it is given to the code. */
  datatype Trial = Trial(m: Media, okFirst: bool, ok: bool)

  ghost predicate Fares(c: Call, t: Trial) {
    c.mountRc == MountCode(t.m) && c.first.ok == t.okFirst && c.a.ok == t.ok
  }

  /** What the three calls of a boot do to flash and RAM, each of them trying again to mount flash that is not. */
  function BootHeld(threshold: nat, k: Sealing, h: Held, watchdogReset: bool, c0: Call, c1: Call, c2: Call): (Held, bool)
    requires Usable(k)
  {
    var h0 := Mounted(k, h, c0.mountRc, c0.first);
    var h1 := Operate(k, h0, c1.mountRc, c1.first, BootRecorded(watchdogReset, c1.a));
    var safeMode := h1.store.ram.consecutive >= threshold;
    (if safeMode then Operate(k, h1, c2.mountRc, c2.first, Op.Cleared(c2.a)) else h1, safeMode)
  }

  /** The part of `main` before the watchdog starts. */
  method BootPersist(threshold: nat, persist: PersistStore.Persist, watchdogReset: bool, t0: Trial, t1: Trial, t2: Trial)
    returns (safeMode: bool, ghost c0: Call, ghost c1: Call, ghost c2: Call)
    requires persist.Valid()
    modifies persist`nvs, persist`blob, persist`loaded, persist.crypto`prngState, persist.crypto`ivCounter
    ensures Fares(c0, t0) && Fares(c1, t1) && Fares(c2, t2)
    ensures (persist.Holding(), safeMode) == BootHeld(threshold, old(persist.Sealed()), old(persist.Holding()), watchdogReset, c0, c1, c2)
  {
    hide Operate, Mounted, MountCode, IvOfCall;
    hide PersistStore.Persist.Sealed, PersistStore.Persist.StateRecord, PersistStore.Persist.OthersKept;
    ghost var unused := persist.NextAttempt(t0.ok);
    var rc;
    ghost var first, a;
    rc, first := persist.InitFsIfNeeded(t0.m, t0.okFirst);
    c0 := Call(MountCode(t0.m), first, unused);
    first, a := persist.RecordBootNow(watchdogReset, t1.m, t1.okFirst, t1.ok);
    c1 := Call(MountCode(t1.m), first, a);
    safeMode := persist.IsFallbackActive(threshold);
    c2 := Call(MountCode(t2.m), unused.(ok := t2.okFirst), unused.(ok := t2.ok));
    if safeMode {
      first, a := persist.ClearWatchdogCounter(t2.m, t2.okFirst, t2.ok);
      c2 := Call(MountCode(t2.m), first, a);
    }
  }

  /** On flash that mounts at the first attempt a boot comes to `BootStore`. */
  lemma BootMountsAtOnce(threshold: nat, k: Sealing, h: Held, w: bool, c0: Call, c1: Call, c2: Call)
    requires Usable(k) && !h.mounted && c0.mountRc == 0
    ensures var (s, safeMode) := BootStore(threshold, k, h.store.flash, w, c0.first, c1.a, c2.a);
      BootHeld(threshold, k, h, w, c0, c1, c2) == (Held(s, true), safeMode)
  {
    hide Mount, RecordBoot, ClearCounter;
  }

  /** A boot on which the flash never mounts leaves the flash alone and, RAM being cleared at reset, does not enter safe mode. */
  lemma UnmountedBootIsNotCounted(threshold: nat, k: Sealing, flash: Option<seq<Byte>>, w: bool, c0: Call, c1: Call, c2: Call)
    requires Usable(k) && threshold > 0 && c0.mountRc != 0 && c1.mountRc != 0
    ensures var h := Held(Store(flash, Blob(0, 0, 0, 0, 0)), false); BootHeld(threshold, k, h, w, c0, c1, c2) == (h, false)
  {
    hide Apply, Mount;
  }

  /** The rest of `main` in a build that is not for provisioning; nothing starts on a watchdog that does not come up. */
  method BootWatchdog(b: Build, overrideMs: Word, safeMode: bool, controller: Controller, thread: Thread,
                      deviceReady: bool, installRc: int, setupRc: int, feedRc: int, now: nat) returns (rc: int)
    requires thread.Valid() && thread.watchdog == controller && controller.State() == Watchdog(-1, true, 0, Hardware(0, 0))
    modifies controller, thread
    ensures rc == if !deviceReady then -ENODEV else if installRc < 0 then installRc else if setupRc != 0 then setupRc else feedRc
    ensures rc == 0 ==> thread.Now() == BootSupervisor(b, installRc, overrideMs, safeMode, old(thread.ledLast), now)
    ensures rc != 0 ==> unchanged(thread)
  {
    hide Reschedule;
    var steady, delay := overrideMs, b.retuneDelayMs;
    if steady == 0 {
      steady := b.steadyTimeoutMs;
    }
    if safeMode {
      steady := if steady > b.bootTimeoutMs then steady else b.bootTimeoutMs;
      delay := 0;
    }
    rc := controller.Init(b.bootTimeoutMs, deviceReady, installRc, setupRc, b.driverTicks, feedRc, now);
    if rc != 0 {
      return;
    }
    thread.Begin(steady, delay, true, now);
  }

  // ---- runs across reboots ----

  /** What leaves a trace in the counting of watchdog resets. */
  datatype Mark = Booted(watchdogReset: bool, safeMode: bool) | Cleared

  datatype Machine = Machine(store: Store, sup: State, log: seq<Mark>)

  datatype Step =
    | Reboot(watchdogReset: bool, channel: nat, ledLast: Word, now: nat, a0: Attempt, a1: Attempt, a2: Attempt)
    | Supervise(e: Event, a: Attempt)
    | Override(timeoutMs: Word, now: nat, a: Attempt)
    | ClearOverride(now: nat, a: Attempt)

  function Advance(b: Build, k: Sealing, m: Machine, step: Step): Machine
    requires Usable(k)
  {
    match step
    case Reboot(w, channel, ledLast, now, a0, a1, a2) =>
      var (store, safeMode) := BootStore(b.threshold, k, m.store.flash, w, a0, a1, a2);
      Machine(store, BootSupervisor(b, channel, store.ram.overrideMs, safeMode, ledLast, now), m.log + [Booted(w, safeMode)])
    case Supervise(e, a) =>
      var sup := Next(b.p, m.sup, e);
      if sup.clears > m.sup.clears then Machine(ClearCounter(k, m.store, a), sup, m.log + [Mark.Cleared]) else m.(sup := sup)
    case Override(timeoutMs, now, a) =>
      if timeoutMs < 100 || timeoutMs > 60000 then m else Retimed(k, m, timeoutMs, timeoutMs, now, a)
    case ClearOverride(now, a) => Retimed(k, m, 0, b.steadyTimeoutMs, now, a)
  }

  /** `apply_timeout` and `clear_override`: nothing is retuned unless the override was stored. */
  function Retimed(k: Sealing, m: Machine, overrideMs: Word, targetMs: Word, now: int, a: Attempt): Machine
    requires Usable(k)
  {
    if !a.ok && m.store.ram.overrideMs != overrideMs then m.(store := SetOverride(k, m.store, overrideMs, a))
    else m.(store := SetOverride(k, m.store, overrideMs, a), sup := RequestTarget(m.sup, targetMs, true, now))
  }

  function AdvanceAll(b: Build, k: Sealing, m: Machine, steps: seq<Step>): Machine
    requires Usable(k)
  {
    if steps == [] then m else Advance(b, k, AdvanceAll(b, k, m, steps[..|steps| - 1]), steps[|steps| - 1])
  }

  predicate WritesSucceed(step: Step) {
    if step.Reboot? then step.a0.ok && step.a1.ok && step.a2.ok else step.a.ok
  }

  // ---- counting watchdog resets ----

  /** Marks that end a series: an ordinary boot, a boot into safe mode, a clearing by the supervisor. */
  predicate EndsSeries(mark: Mark) {
    mark.Cleared? || !mark.watchdogReset || mark.safeMode
  }

  /** The watchdog-reset boots after the last mark that ended a series. */
  function Series(log: seq<Mark>): nat {
    if log == [] || EndsSeries(log[|log| - 1]) then 0 else Series(log[..|log| - 1]) + 1
  }

  function WatchdogBoots(log: seq<Mark>): nat {
    if log == [] then 0
    else WatchdogBoots(log[..|log| - 1]) + (if log[|log| - 1].Booted? && log[|log| - 1].watchdogReset then 1 else 0)
  }

  /** Safe mode was entered at exactly the boots that brought a series to the threshold. */
  ghost predicate SafeModeExactly(threshold: nat, log: seq<Mark>) {
    forall n :: 0 <= n < |log| && log[n].Booted? ==>
      (log[n].safeMode <==> log[n].watchdogReset && Series(log[..n]) + 1 == threshold)
  }

  ghost predicate Counted(b: Build, k: Sealing, m: Machine)
    requires Usable(k)
  {
    && FlashHolds(k, m.store, m.store.ram)
    && m.store.ram.consecutive == Series(m.log) < b.threshold
    && m.store.ram.total == WatchdogBoots(m.log) % WORD
    && SafeModeExactly(b.threshold, m.log)
  }

  lemma OneMoreMark(log: seq<Mark>, mark: Mark)
    ensures Series(log + [mark]) == if EndsSeries(mark) then 0 else Series(log) + 1
    ensures WatchdogBoots(log + [mark]) == WatchdogBoots(log) + (if mark.Booted? && mark.watchdogReset then 1 else 0)
  {
    assert (log + [mark])[..|log|] == log;
  }

  lemma SafeModeOneMore(threshold: nat, log: seq<Mark>, mark: Mark)
    requires SafeModeExactly(threshold, log)
    requires mark.Booted? ==> (mark.safeMode <==> mark.watchdogReset && Series(log) + 1 == threshold)
    ensures SafeModeExactly(threshold, log + [mark])
  {
    var all := log + [mark];
    hide Series;
    forall n | 0 <= n < |all| && all[n].Booted?
      ensures all[n].safeMode <==> all[n].watchdogReset && Series(all[..n]) + 1 == threshold
    {
      assert all[..n] == if n == |log| then log else log[..n];
    }
  }

  lemma MountHolds(k: Sealing, s: Store, a: Attempt)
    requires Usable(k) && FlashHolds(k, s, s.ram)
    ensures Mount(k, s.flash, a) == s
  {
    hide Load, Record;
  }

  lemma RecordBootLands(k: Sealing, s: Store, w: bool, a: Attempt)
    requires Usable(k) && FlashHolds(k, s, s.ram) && a.ok
    ensures var s' := RecordBoot(k, s, w, a);
      && FlashHolds(k, s', s'.ram)
      && s'.ram.consecutive == (if w then (s.ram.consecutive + 1) % WORD else 0)
      && s'.ram.total == (if w then (s.ram.total + 1) % WORD else s.ram.total)
  {
    hide Load, Record, FlashHolds;
    MagicOfHeld(k, s, s.ram);
    ApplyLands(k, s, BootRecorded(w, a), s.ram);
  }

  lemma ClearCounterLands(k: Sealing, s: Store, a: Attempt)
    requires Usable(k) && FlashHolds(k, s, s.ram) && a.ok
    ensures var s' := ClearCounter(k, s, a);
      FlashHolds(k, s', s'.ram) && s'.ram == s.ram.(consecutive := 0)
  {
    hide Load, Record, FlashHolds;
    MagicOfHeld(k, s, s.ram);
    ApplyLands(k, s, Op.Cleared(a), s.ram);
  }

  lemma SetOverrideLands(k: Sealing, s: Store, timeoutMs: Word, a: Attempt)
    requires Usable(k) && FlashHolds(k, s, s.ram) && a.ok
    ensures var s' := SetOverride(k, s, timeoutMs, a);
      FlashHolds(k, s', s'.ram) && s'.ram == s.ram.(overrideMs := timeoutMs)
  {
    hide Load, Record, FlashHolds;
    MagicOfHeld(k, s, s.ram);
    ApplyLands(k, s, Overridden(timeoutMs, a), s.ram);
  }

  /** A boot on flash that holds the blob in RAM, after n marks of the running series and t watchdog boots in all. */
  lemma RebootCounts(b: Build, k: Sealing, s: Store, n: nat, t: nat, w: bool, a0: Attempt, a1: Attempt, a2: Attempt)
    requires Usable(k) && FlashHolds(k, s, s.ram) && s.ram.consecutive == n < b.threshold < WORD && s.ram.total == t % WORD
    requires a1.ok && a2.ok
    ensures var (store, safeMode) := BootStore(b.threshold, k, s.flash, w, a0, a1, a2);
      && (safeMode <==> w && n + 1 == b.threshold)
      && FlashHolds(k, store, store.ram)
      && store.ram.consecutive == (if w && !safeMode then n + 1 else 0)
      && store.ram.total == (if w then t + 1 else t) % WORD
  {
    hide FlashHolds, Mount, RecordBoot, ClearCounter;
    MountHolds(k, s, a0);
    RecordBootLands(k, s, w, a1);
    ClearCounterLands(k, RecordBoot(k, s, w, a1), a2);
    NextTotal(t);
  }

  lemma NextTotal(n: nat)
    ensures (n % WORD + 1) % WORD == (n + 1) % WORD
  {}

  lemma AdvanceCounts(b: Build, k: Sealing, m: Machine, step: Step)
    requires Usable(k) && Counted(b, k, m) && 0 < b.threshold < WORD && WritesSucceed(step)
    ensures Counted(b, k, Advance(b, k, m, step))
  {
    hide Series, WatchdogBoots, SafeModeExactly, FlashHolds, BootStore, BootSupervisor, Next, RequestTarget, ClearCounter, SetOverride;
    match step
    case Reboot(w, channel, ledLast, now, a0, a1, a2) =>
      RebootCounts(b, k, m.store, Series(m.log), WatchdogBoots(m.log), w, a0, a1, a2);
      Marked(b, m.log, Booted(w, BootStore(b.threshold, k, m.store.flash, w, a0, a1, a2).1));
    case Supervise(e, a) =>
      ClearCounterLands(k, m.store, a);
      Marked(b, m.log, Mark.Cleared);
    case Override(t, now, a) => SetOverrideLands(k, m.store, t, a);
    case ClearOverride(now, a) => SetOverrideLands(k, m.store, 0, a);
  }

  lemma Marked(b: Build, log: seq<Mark>, mark: Mark)
    requires SafeModeExactly(b.threshold, log) && (mark.Booted? ==> (mark.safeMode <==> mark.watchdogReset && Series(log) + 1 == b.threshold))
    ensures SafeModeExactly(b.threshold, log + [mark])
    ensures Series(log + [mark]) == if EndsSeries(mark) then 0 else Series(log) + 1
    ensures WatchdogBoots(log + [mark]) == WatchdogBoots(log) + (if mark.Booted? && mark.watchdogReset then 1 else 0)
  {
    hide SafeModeExactly;
    OneMoreMark(log, mark);
    SafeModeOneMore(b.threshold, log, mark);
  }

  /**
   * Over every run that starts in step with its history and loses no write: the persisted count is
   * the number of watchdog-reset boots since the series was last ended, it stays below the threshold
   * once a boot is through, safe mode is entered exactly when a series reaches the threshold, and the
   * total counts all watchdog-reset boots modulo 2^32.
   */
  lemma {:induction false} ResetsAreCounted(b: Build, k: Sealing, m: Machine, steps: seq<Step>)
    requires Usable(k) && 0 < b.threshold < WORD
    requires Counted(b, k, m) && (forall step :: step in steps ==> WritesSucceed(step))
    ensures var m' := AdvanceAll(b, k, m, steps);
      && m'.store.ram.consecutive == Series(m'.log) < b.threshold
      && m'.store.ram.total == WatchdogBoots(m'.log) % WORD
      && SafeModeExactly(b.threshold, m'.log)
      && FlashHolds(k, m'.store, m'.store.ram)
      && (WatchdogBoots(m'.log) < WORD ==> m'.store.ram.total >= m'.store.ram.consecutive)
  {
    hide Series, WatchdogBoots, SafeModeExactly, FlashHolds, AdvanceAll;
    CountedAfter(b, k, m, steps);
    SeriesWithin(AdvanceAll(b, k, m, steps).log);
    SmallTotal(WatchdogBoots(AdvanceAll(b, k, m, steps).log));
  }

  lemma SmallTotal(n: nat)
    ensures n < WORD ==> n % WORD == n
  {}

  lemma {:induction false} CountedAfter(b: Build, k: Sealing, m: Machine, steps: seq<Step>)
    requires Usable(k) && 0 < b.threshold < WORD
    requires Counted(b, k, m) && (forall step :: step in steps ==> WritesSucceed(step))
    ensures Counted(b, k, AdvanceAll(b, k, m, steps))
  {
    hide Counted, Advance;
    if steps != [] {
      var before, last := steps[..|steps| - 1], steps[|steps| - 1];
      assert last in steps;
      assert forall step :: step in before ==> step in steps;
      CountedAfter(b, k, m, before);
      AdvanceCounts(b, k, AdvanceAll(b, k, m, before), last);
    }
  }

  lemma {:induction false} SeriesWithin(log: seq<Mark>)
    ensures Series(log) <= WatchdogBoots(log)
  {
    if log != [] {
      SeriesWithin(log[..|log| - 1]);
    }
  }

  /** The very first boot, on flash that holds no valid blob, begins the count. */
  lemma FreshFlashCounts(b: Build, k: Sealing, flash: Option<seq<Byte>>, w: bool, channel: nat, ledLast: Word, now: nat,
                         a0: Attempt, a1: Attempt, a2: Attempt)
    requires Usable(k) && 0 < b.threshold < WORD && a1.ok && a2.ok
    requires var l := Load(k, flash); l.Failed? || l.blob.magic != MAGIC
    ensures var (store, safeMode) := BootStore(b.threshold, k, flash, w, a0, a1, a2);
      && (safeMode <==> w && b.threshold == 1) && store.ram.overrideMs == 0 && store.ram.sessionCounter == 0
      && Counted(b, k, Machine(store, BootSupervisor(b, channel, store.ram.overrideMs, safeMode, ledLast, now), [Booted(w, safeMode)]))
  {
    hide FlashHolds, Record, SafeModeExactly, BootSupervisor, ClearCounter, Series, WatchdogBoots;
    var s := Mount(k, flash, a0);
    FreshRam(k, flash, a0);
    var recorded := RecordBoot(k, s, w, a1);
    FreshRecorded(k, s, w, a1);
    ClearCounterLands(k, recorded, a2);
    hide Mount, RecordBoot, Load;
    var mark := Booted(w, w && b.threshold == 1);
    NoMarks(b.threshold);
    Marked(b, [], mark);
    assert [] + [mark] == [mark];
  }

  lemma NoMarks(threshold: nat)
    ensures Series([]) == 0 && WatchdogBoots([]) == 0 && SafeModeExactly(threshold, [])
  {}

  lemma FreshRam(k: Sealing, flash: Option<seq<Byte>>, a: Attempt)
    requires Usable(k)
    requires var l := Load(k, flash); l.Failed? || l.blob.magic != MAGIC
    ensures Mount(k, flash, a).ram == DEFAULTS
  {
    hide Load, Record;
  }

  lemma FreshRecorded(k: Sealing, s: Store, w: bool, a: Attempt)
    requires Usable(k) && s.ram == DEFAULTS && a.ok
    ensures var s' := RecordBoot(k, s, w, a);
      FlashHolds(k, s', s'.ram) && s'.ram == (if w then DEFAULTS.(consecutive := 1, total := 1) else DEFAULTS)
  {
    hide Record, FlashHolds;
    var ram := if w then DEFAULTS.(consecutive := 1, total := 1) else DEFAULTS;
    CommitLands(k, s.(ram := ram), a);
  }
}
