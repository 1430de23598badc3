/**
 * From a `wdg` line typed at the console of src/uart_commands.c, or from a boot of src/main.c, to the timeout that the
 * supervisor of src/supervisor.c puts in force and the override that the next boot finds.
 */
module TimeoutRuns {
  import opened Bytes
  import opened Results
  import opened CommandLine
  import opened WatchdogCtrl
  import opened Supervisor
  import opened SupervisorRuns
  import opened RetuneRuns
  import opened PersistState
  import opened Device
  import opened UartCommands

  // ---- after a boot ----

  /** The timeout a boot tunes to and the delay after which it does: in safe mode at once, and to nothing shorter than the boot timeout. */
  predicate BootsTo(b: Build, overrideMs: Word, safeMode: bool, target: Word, delay: Word) {
    var wanted := if overrideMs == 0 then b.steadyTimeoutMs else overrideMs;
    if safeMode then delay == 0 && target >= wanted && target >= b.bootTimeoutMs && (target == wanted || target == b.bootTimeoutMs)
    else delay == b.retuneDelayMs && target == wanted
  }

  predicate CanBeSet(p: Params, w: Watchdog, target: Word) {
    w.channel >= 0 && target != 0 && (target == w.currentTimeoutMs || (p.iwdg && Chosen(Ticks(target, p.lsi)).Some?))
  }

  /** A boot begins with the boot timeout in force, and the one it tunes to is in force by the delay plus gap. */
  lemma BootTargetInForceBy(b: Build, channel: nat, overrideMs: Word, safeMode: bool, ledLast: Word, now: nat,
                            target: Word, delay: Word, events: seq<Event>, gap: nat)
    requires BootsTo(b, overrideMs, safeMode, target, delay)
    ensures var s := BootSupervisor(b, channel, overrideMs, safeMode, ledLast, now);
      s.wd == Watchdog(channel, true, b.bootTimeoutMs, Hardware(b.driverTicks, now)) 
      && s.cfg.monitorLed && s.sysLast == now % WORD && s.ledLast == ledLast && !s.counterCleared && s.clears == 0
    ensures
      && CanBeSet(b.p, BootSupervisor(b, channel, overrideMs, safeMode, ledLast, now).wd, target)
      && Retargets(events) == 0 && ReadyTicks(events) && TicksBefore(events, now + delay)
      ==> Run(b.p, BootSupervisor(b, channel, overrideMs, safeMode, ledLast, now), events).wd.currentTimeoutMs == b.bootTimeoutMs
    ensures
      && CanBeSet(b.p, BootSupervisor(b, channel, overrideMs, safeMode, ledLast, now).wd, target)
      && Retargets(events) == 0 && ReadyTicks(events) && Spaced(now, events, gap)
      && (exists e :: e in events && e.Tick? && e.i.now >= now + delay)
      ==> InForceBy(b.p, BootSupervisor(b, channel, overrideMs, safeMode, ledLast, now), events, target, now + delay + gap + 1)
  {
    hide Chosen, Ticks, Retargets, ReadyTicks, Spaced, InForceBy;
    var wd := Watchdog(channel, true, b.bootTimeoutMs, Hardware(b.driverTicks, now));
    assert SteadyTimeout(b, overrideMs, safeMode) == (target, delay);
    assert BootSupervisor(b, channel, overrideMs, safeMode, ledLast, now) == Start(wd, ledLast, target, delay, true, now);
    hide Start, SteadyTimeout, TicksBefore, Run;
    if CanBeSet(b.p, wd, target) && Retargets(events) == 0 && ReadyTicks(events) && TicksBefore(events, now + delay) {
      BootTimeoutStays(b.p, wd, ledLast, target, delay, true, now, events);
    }
    if CanBeSet(b.p, wd, target) && Retargets(events) == 0 && ReadyTicks(events) && Spaced(now, events, gap)
       && exists e :: e in events && e.Tick? && e.i.now >= now + delay {
      SteadyInForceBy(b.p, wd, ledLast, target, delay, true, now, events, gap);
    }
  }

  lemma GracePassIsClearing(p: Params, s: State, i: Input)
    requires s.failCount < 3 && i.now < s.bootTs + p.graceMs
    ensures var t := Iterate(p, s, i); t.failCount == 0 && t.requests == s.requests && t.bootTs == s.bootTs
  {
    PassCounts(p, s, i);
    RetuneKeepsDriver(p, s, i);
    hide AttemptRetune, SampleHealth;
  }

  /** Until the grace after its start is over the supervisor requests no recovery, whatever the heartbeats and the driver do. */
  lemma {:induction false} NoRequestInGrace(p: Params, s: State, events: seq<Event>)
    requires s.failCount < 3 && TicksBefore(events, s.bootTs + p.graceMs)
    ensures Run(p, s, events).requests == s.requests
    decreases |events|
  {
    if events != [] {
      var e := events[0];
      assert e in events;
      assert forall x :: x in events[1..] ==> x in events;
      if e.Tick? {
        GracePassIsClearing(p, s, e.i);
      }
      hide Iterate;
      NoRequestInGrace(p, Next(p, s, e), events[1..]);
    }
  }

  /** The grace of a boot counts from its start. */
  lemma NoRequestAfterBoot(b: Build, channel: nat, overrideMs: Word, safeMode: bool, ledLast: Word, now: nat, events: seq<Event>)
    requires TicksBefore(events, now + b.p.graceMs)
    ensures Run(b.p, BootSupervisor(b, channel, overrideMs, safeMode, ledLast, now), events).requests == 0
  {
    var s := BootSupervisor(b, channel, overrideMs, safeMode, ledLast, now);
    assert s.bootTs == now && s.requests == 0 && s.failCount == 0;
    hide BootSupervisor, TicksBefore;
    NoRequestInGrace(b.p, s, events);
  }

  // ---- a served line ----

  /** The supervisor has been given a target at the time now, to be put in force at once; all else is as it was. */
  predicate Retargeted(s: State, t: State, target: Word, now: int) {
    && t.cfg.desiredTimeoutMs == target && t.cfg.retuneReadyTs == now
    && (t.cfg.retunePending <==> target != s.wd.currentTimeoutMs) && (t.cfg.retuneDoneOnce <==> !t.cfg.retunePending)
    && t.cfg.monitorLed == s.cfg.monitorLed && !t.counterCleared
    && t.wd == s.wd && t.ledLast == s.ledLast && t.sysLast == s.sysLast && t.bootTs == s.bootTs
    && t.failCount == s.failCount && t.requests == s.requests && t.clears == s.clears
  }

  /**
   * A new override: if the flash takes it, or it is not new, flash and RAM hold it and the supervisor has the target;
   * otherwise the flash holds the old one and the supervisor knows nothing of it.
   */
  ghost predicate TakesEffect(k: Sealing, m: Machine, m': Machine, overrideMs: Word, target: Word, now: int, ok: bool)
    requires Usable(k)
  {
    if ok || m.store.ram.overrideMs == overrideMs then
      && m'.store.ram == m.store.ram.(overrideMs := overrideMs) && FlashHolds(k, m'.store, m'.store.ram)
      && Retargeted(m.sup, m'.sup, target, now)
    else
      m'.sup == m.sup && FlashHolds(k, m'.store, m.store.ram)
  }

  lemma OverrideLands(k: Sealing, s: Store, overrideMs: Word, a: Attempt)
    requires Usable(k) && FlashHolds(k, s, s.ram)
    ensures var s', taken := SetOverride(k, s, overrideMs, a), a.ok || s.ram.overrideMs == overrideMs;
      && (taken ==> s'.ram == s.ram.(overrideMs := overrideMs))
      && FlashHolds(k, s', if taken then s'.ram else s.ram)
  {
    MagicOfHeld(k, s, s.ram);
    CommitLands(k, s.(ram := s.ram.(overrideMs := overrideMs)), a);
    hide Load, Record;
  }

  lemma RetimedTakesEffect(k: Sealing, m: Machine, overrideMs: Word, target: Word, now: int, a: Attempt)
    requires Usable(k) && FlashHolds(k, m.store, m.store.ram)
    ensures TakesEffect(k, m, Retimed(k, m, overrideMs, target, now, a), overrideMs, target, now, a.ok)
  {
    hide FlashHolds, SetOverride;
    OverrideLands(k, m.store, overrideMs, a);
  }

  lemma ShownWord(n: nat)
    requires Acceptable(n)
    ensures ParseTimeout(Show(n)) == Timeout(n)
  {
    hide Parse, ParseTimeout, Show;
    ParseShown(n);
    AfterWdg(Show(n));
  }

  /** A line whose first words are `wdg` and a number of milliseconds in range sets the override and the target. */
  lemma TimeoutLine(b: Build, k: Sealing, m: Machine, line: string, n: nat, now: nat, a: Attempt)
    requires Usable(k) && FlashHolds(k, m.store, m.store.ram) && Acceptable(n)
    requires |Words(line)| >= 2 && Words(line)[0] == "wdg" && Words(line)[1] == Show(n)
    ensures TakesEffect(k, m, Served(b, k, m, Parse(line), now, a), n, n, now, a.ok)
  {
    hide FlashHolds, Retimed, TakesEffect, Words, Parse, ParseTimeout, Show;
    TimeoutWordDecides(line);
    ShownWord(n);
    RetimedTakesEffect(k, m, n, n, now, a);
  }

  /** A line whose first words are `wdg clear` drops the override and goes back to the build's steady timeout. */
  lemma ClearLine(b: Build, k: Sealing, m: Machine, line: string, now: nat, a: Attempt)
    requires Usable(k) && FlashHolds(k, m.store, m.store.ram)
    requires |Words(line)| >= 2 && Words(line)[0] == "wdg" && Words(line)[1] == "clear"
    ensures TakesEffect(k, m, Served(b, k, m, Parse(line), now, a), 0, b.steadyTimeoutMs, now, a.ok)
  {
    hide FlashHolds, Retimed, TakesEffect, Words, Parse, ParseTimeout;
    TimeoutWordDecides(line);
    DocumentedWords();
    RetimedTakesEffect(k, m, 0, b.steadyTimeoutMs, now, a);
  }

  /** A line whose first words are `wdg` and a number out of range does nothing. */
  lemma RefusedLine(b: Build, k: Sealing, m: Machine, line: string, n: nat, now: nat, a: Attempt)
    requires Usable(k) && !Acceptable(n)
    requires |Words(line)| >= 2 && Words(line)[0] == "wdg" && Words(line)[1] == Show(n)
    ensures Served(b, k, m, Parse(line), now, a) == m
  {
    hide Words, Parse, ParseTimeout, Show, Advance;
    TimeoutWordDecides(line);
    ParseShown(n);
    AfterWdg(Show(n));
  }

  // ---- a typed line ----

  lemma {:induction false} NothingServedYet(b: Build, k: Sealing, capacity: nat, m: Machine, h: Hearing, input: seq<Arrival>, attempts: seq<Attempt>)
    requires Usable(k) && |attempts| == |input| && forall i :: 0 <= i < |input| ==> !EndsLine(input[i].ch)
    ensures ServeAll(b, k, capacity, m, h, input, attempts) == m
    decreases |input|
  {
    hide EndsLine, Served;
    if input != [] {
      var n := |input| - 1;
      NothingServedYet(b, k, capacity, m, h, input[..n], attempts[..n]);
    }
  }

  /** A line, then CR LF, on a console on which nothing is typed: what the buffer keeps of it is served once, when the CR comes in. */
  lemma LineIsServed(b: Build, k: Sealing, capacity: nat, m: Machine, h: Hearing, input: seq<Arrival>, attempts: seq<Attempt>, text: string)
    requires Usable(k) && |attempts| == |input| && capacity > 0 && h.pending == "" && Arrives(input, text + "\r\n") && Printable(text)
    ensures ServeAll(b, k, capacity, m, h, input, attempts) == Served(b, k, m, Parse(Cut(capacity, text)), input[|text|].now, attempts[|text|])
  {
    hide Parse, Served, Stored, Cut, Hear, ServeAll, Words;
    var n, kept := |text|, Cut(capacity, text);
    CrLf(text);
    var line := input[..n];
    assert Arrives(line, text);
    LineIsTyped(capacity, h, line, text);
    NothingServedYet(b, k, capacity, m, h, line, attempts[..n]);
    CutIsPrintable(capacity, text);
    AllVisible(kept);
    EmptyLine();
    assert input[..n + 1] == line + [input[n]] && attempts[..n + 1] == attempts[..n] + [attempts[n]];
    assert input == input[..n + 1] + [input[n + 1]] && attempts == attempts[..n + 1] + [attempts[n + 1]];
    OneMoreServed(b, k, capacity, m, h, line, input[n], attempts[..n], attempts[n]);
    OneMoreServed(b, k, capacity, m, h, input[..n + 1], input[n + 1], attempts[..n + 1], attempts[n + 1]);
    AfterLineEnd(capacity, h.(pending := kept), input[n]);
    NothingServed(b, k, Served(b, k, m, Parse(kept), input[n].now, attempts[n]), Ignored, input[n + 1].now, attempts[n + 1]);
  }

  lemma ArrivalLength(input: seq<Arrival>, text: string)
    requires Arrives(input, text)
    ensures |input| == |text|
  {}

  lemma AfterLineEnd(capacity: nat, h: Hearing, a: Arrival)
    requires EndsLine(a.ch)
    ensures Visible(Hear(capacity, h, a).pending) == ""
  {
    hide Parse, Stored;
  }

  /**
   * `wdg` and a number in range, typed on an idle console that holds the line: the flash decodes to the override,
   * and if the registers can be set to it, the supervisor has it in force at most gap after the line end.
   */
  lemma TypedTimeoutInForceBy(b: Build, k: Sealing, capacity: nat, m: Machine, h: Hearing, input: seq<Arrival>, attempts: seq<Attempt>,
                              text: string, n: nat, events: seq<Event>, gap: nat)
    requires Usable(k) && FlashHolds(k, m.store, m.store.ram) && |attempts| == |input|
    requires h.pending == "" && Arrives(input, text + "\r\n") && Printable(text) && |text| < capacity
    requires |Words(text)| >= 2 && Words(text)[0] == "wdg" && Words(text)[1] == Show(n) && Acceptable(n)
    requires attempts[|text|].ok && CanBeSet(b.p, m.sup.wd, n)
    requires Retargets(events) == 0 && ReadyTicks(events) && Spaced(input[|text|].now, events, gap)
    requires exists e :: e in events && e.Tick? && e.i.now >= input[|text|].now
    ensures var m' := ServeAll(b, k, capacity, m, h, input, attempts);
      && FlashHolds(k, m'.store, m.store.ram.(overrideMs := n))
      && InForceBy(b.p, m'.sup, events, n, input[|text|].now + gap + 1)
  {
    hide Words, Show, Printable, Arrives, FlashHolds, ServeAll, Served, Parse, Chosen, Ticks, Retargets, ReadyTicks, Spaced, InForceBy;
    LineIsServed(b, k, capacity, m, h, input, attempts, text);
    CrLf(text);
    ArrivalLength(input, text + "\r\n");
    TimeoutLine(b, k, m, text, n, input[|text|].now, attempts[|text|]);
    ByWaiting(b.p, ServeAll(b, k, capacity, m, h, input, attempts).sup, events, gap, input[|text|].now);
  }

  // ---- forgiving watchdog resets ----

  /** A pass that puts the target in force, or proves the system healthy, takes the persisted count of watchdog resets back to zero. */
  lemma PassForgivesResets(b: Build, k: Sealing, m: Machine, i: Input, a: Attempt)
    requires Usable(k) && FlashHolds(k, m.store, m.store.ram) && a.ok
    requires CanRetune(b.p, m.sup, i) || (!m.sup.counterCleared && ProvenHealthy(b.p, m.sup, i))
    ensures var m' := Advance(b, k, m, Supervise(Tick(i), a));
      && m'.store.ram == m.store.ram.(consecutive := 0) && FlashHolds(k, m'.store, m'.store.ram)
      && m'.log == m.log + [Mark.Cleared] && m'.sup == Iterate(b.p, m.sup, i)
  {
    hide FlashHolds, Iterate, CanRetune, ProvenHealthy, ClearCounter;
    PassClearsExactly(b.p, m.sup, i);
    ClearCounterLands(k, m.store, a);
  }

  // ---- the override over runs that span reboots ----

  /** A boot finds the override and the session counter that the flash holds, whatever becomes of its own writes. */
  lemma BootKeepsSettings(threshold: nat, k: Sealing, s: Store, w: bool, a0: Attempt, a1: Attempt, a2: Attempt)
    requires Usable(k) && FlashHolds(k, s, s.ram)
    ensures var ram := BootStore(threshold, k, s.flash, w, a0, a1, a2).0.ram; ram.overrideMs == s.ram.overrideMs && ram.sessionCounter == s.ram.sessionCounter
  {
    hide FlashHolds, Load, Record;
    MountHolds(k, s, a0);
  }

  /** The override that was set last in a run; a refused number sets none. */
  function LastSet(o: Word, steps: seq<Step>): Word {
    if steps == [] then o
    else
      match steps[|steps| - 1]
      case Override(t, _, _) => if Acceptable(t) then t else LastSet(o, steps[..|steps| - 1])
      case ClearOverride(_, _) => 0
      case _ => LastSet(o, steps[..|steps| - 1])
  }

  lemma AdvanceKeepsOverride(b: Build, k: Sealing, m: Machine, step: Step)
    requires Usable(k) && FlashHolds(k, m.store, m.store.ram) && WritesSucceed(step)
    ensures var m' := Advance(b, k, m, step);
      && FlashHolds(k, m'.store, m'.store.ram)
      && m'.store.ram.overrideMs == (if step.Override? && Acceptable(step.timeoutMs) then step.timeoutMs
                                     else if step.ClearOverride? then 0 else m.store.ram.overrideMs)
  {
    hide FlashHolds, Next, RequestTarget, BootSupervisor, SetOverride, ClearCounter, Mount, RecordBoot;
    match step
    case Reboot(w, channel, ledLast, now, a0, a1, a2) =>
      BootKeepsSettings(b.threshold, k, m.store, w, a0, a1, a2);
      MountHolds(k, m.store, a0);
      RecordBootLands(k, m.store, w, a1);
      ClearCounterLands(k, RecordBoot(k, m.store, w, a1), a2);
    case Supervise(e, a) => ClearCounterLands(k, m.store, a);
    case Override(t, now, a) => SetOverrideLands(k, m.store, t, a);
    case ClearOverride(now, a) => SetOverrideLands(k, m.store, 0, a);
  }

  /** In every run across reboots that loses no write, the override in force for the next boot is the one set last. */
  lemma {:induction false} OverrideFollowsRun(b: Build, k: Sealing, m: Machine, steps: seq<Step>)
    requires Usable(k) && FlashHolds(k, m.store, m.store.ram) && forall step :: step in steps ==> WritesSucceed(step)
    ensures var m' := AdvanceAll(b, k, m, steps);
      FlashHolds(k, m'.store, m'.store.ram) && m'.store.ram.overrideMs == LastSet(m.store.ram.overrideMs, steps)
  {
    hide FlashHolds, Advance, WritesSucceed;
    if steps != [] {
      var before, last := steps[..|steps| - 1], steps[|steps| - 1];
      assert last in steps;
      assert forall step :: step in before ==> step in steps;
      OverrideFollowsRun(b, k, m, before);
      AdvanceKeepsOverride(b, k, AdvanceAll(b, k, m, before), last);
    }
  }
}
