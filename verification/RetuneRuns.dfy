/** How src/supervisor.c brings a wanted timeout into force: when, by when, and what the counter is then set to. */
module RetuneRuns {
  import opened Bytes
  import opened Results
  import opened WatchdogCtrl
  import opened Supervisor
  import opened SupervisorRuns

  // ---- one pass ----

  /** The wanted timeout can be put in force: there is a channel, and it is in force already or the registers can be set to it. */
  predicate Reachable(p: Params, s: State) {
    && s.wd.channel >= 0 && s.cfg.desiredTimeoutMs != 0
    && (s.cfg.desiredTimeoutMs == s.wd.currentTimeoutMs || (p.iwdg && Chosen(Ticks(s.cfg.desiredTimeoutMs, p.lsi)).Some?))
  }

  /** A retune is due, and nothing stands in its way. */
  predicate CanRetune(p: Params, s: State, i: Input) {
    && s.cfg.retunePending && i.now >= s.cfg.retuneReadyTs && Reachable(p, s)
    && (i.ready || s.cfg.desiredTimeoutMs == s.wd.currentTimeoutMs)
  }

  /** Retuning has failed for good: the build has no register block. */
  predicate CannotEver(p: Params, s: State) {
    !p.iwdg && s.wd.channel >= 0 && s.cfg.desiredTimeoutMs != 0 && s.cfg.desiredTimeoutMs != s.wd.currentTimeoutMs
  }

  /** Retuning was over before this pass, the grace is past and both heartbeats are fresh. */
  predicate ProvenHealthy(p: Params, s: State, i: Input) {
    && s.cfg.retuneDoneOnce && !InGrace(p, s, i.now)
    && Healthy(SampleHealth(p, s.cfg.monitorLed, s.ledLast, s.sysLast, i.now % WORD))
  }

  /** What the second half of a pass leaves alone. */
  lemma FeedingKeeps(s: State, grace: bool, healthy: bool, i: Input)
    ensures var t := FeedOrCount(s, grace, healthy, i);
      && t.cfg == s.cfg && t.counterCleared == s.counterCleared && t.clears == s.clears
      && t.wd.currentTimeoutMs == s.wd.currentTimeoutMs && t.wd.hw.period == s.wd.hw.period && t.wd.channel == s.wd.channel
  {
    hide Feed;
    FeedKeepsTimeout(s.wd, i.feedRc, i.now);
  }

  /** A pass is its retune, as far as retuning and clearing go. */
  lemma PassIsRetune(p: Params, s: State, i: Input)
    ensures var a, t := AttemptRetune(p, s, i), Iterate(p, s, i);
      && t.cfg == a.cfg && t.wd.currentTimeoutMs == a.wd.currentTimeoutMs && t.wd.hw.period == a.wd.hw.period && t.wd.channel == a.wd.channel
      && t.counterCleared == (a.counterCleared || ProvenHealthy(p, s, i))
      && t.clears == a.clears + (if !a.counterCleared && ProvenHealthy(p, s, i) then 1 else 0)
  {
    hide AttemptRetune, SampleHealth, FeedOrCount;
    var grace, healthy := InGrace(p, s, i.now), Healthy(SampleHealth(p, s.cfg.monitorLed, s.ledLast, s.sysLast, i.now % WORD));
    FeedingKeeps(ClearIfProven(AttemptRetune(p, s, i), s.cfg.retuneDoneOnce, grace, healthy), grace, healthy, i);
  }

  /** A pass that can retune does so, at once and for good, and takes the persisted count back. */
  lemma PassRetunes(p: Params, s: State, i: Input)
    requires CanRetune(p, s, i)
    ensures var t := Iterate(p, s, i);
      && t.wd.currentTimeoutMs == t.cfg.desiredTimeoutMs == s.cfg.desiredTimeoutMs
      && !t.cfg.retunePending && t.cfg.retuneDoneOnce && !t.cfg.retuneFailedLogged
      && t.counterCleared && t.clears == s.clears + 1
      && (s.cfg.desiredTimeoutMs != s.wd.currentTimeoutMs ==> Fits(t.wd.hw.period, s.cfg.desiredTimeoutMs, p.lsi))
  {
    RetuneMeaning(s.wd, s.cfg.desiredTimeoutMs, p.lsi, p.iwdg, i.ready, i.now);
    hide Retune, Chosen, Ticks, Iterate, Fits, ProvenHealthy;
    PassIsRetune(p, s, i);
  }

  /**
   * Any other pass leaves the timeout in force. Before the time that the schedule names it leaves the schedule alone
   * as well; from then on it gives up in a build without registers, and otherwise puts the retune off by one period.
   */
  lemma PassWaits(p: Params, s: State, i: Input)
    requires !CanRetune(p, s, i)
    ensures var t := Iterate(p, s, i);
      && t.wd.currentTimeoutMs == s.wd.currentTimeoutMs
      && t.cfg == (if !s.cfg.retunePending || i.now < s.cfg.retuneReadyTs then s.cfg
                   else if CannotEver(p, s) then s.cfg.(retunePending := false, retuneDoneOnce := true, retuneFailedLogged := true)
                   else s.cfg.(retuneReadyTs := i.now + p.periodMs))
  {
    RetuneMeaning(s.wd, s.cfg.desiredTimeoutMs, p.lsi, p.iwdg, i.ready, i.now);
    hide Retune, Chosen, Ticks, Iterate, Fits, ProvenHealthy;
    PassIsRetune(p, s, i);
  }

  /** A pass takes the persisted count back exactly when it retunes, or proves the system healthy for the first time since the target was set. */
  lemma PassClearsExactly(p: Params, s: State, i: Input)
    ensures var t, clears := Iterate(p, s, i), CanRetune(p, s, i) || (!s.counterCleared && ProvenHealthy(p, s, i));
      && t.clears == s.clears + (if clears then 1 else 0)
      && t.counterCleared == (s.counterCleared || clears)
  {
    if CanRetune(p, s, i) {
      PassRetunes(p, s, i);
    } else {
      RetuneMeaning(s.wd, s.cfg.desiredTimeoutMs, p.lsi, p.iwdg, i.ready, i.now);
      hide Retune, Chosen, Ticks, Iterate, Fits, ProvenHealthy;
      PassIsRetune(p, s, i);
    }
  }

  // ---- runs ----

  predicate Awaits(p: Params, s: State) {
    s.cfg.retunePending && !s.cfg.retuneDoneOnce && Reachable(p, s)
  }

  predicate InForce(s: State, target: Word) {
    s.wd.currentTimeoutMs == target == s.cfg.desiredTimeoutMs && !s.cfg.retunePending
  }

  predicate ReadyTicks(events: seq<Event>) {
    forall e :: e in events && e.Tick? ==> e.i.ready
  }

  lemma NextStaysInForce(p: Params, s: State, e: Event, target: Word)
    requires InForce(s, target) && !e.Retarget?
    ensures InForce(Next(p, s, e), target)
  {
    hide Feed, Iterate;
    match e
    case Tick(i) => PassWaits(p, s, i);
    case Enable(on, driverRc, at) => FeedKeepsTimeout(s.wd.(enabled := true), driverRc, at);
    case _ =>
  }

  /** A timeout in force stays in force until another is requested. */
  lemma {:induction false} StaysInForce(p: Params, s: State, events: seq<Event>, target: Word)
    requires InForce(s, target) && Retargets(events) == 0
    ensures InForce(Run(p, s, events), target)
    decreases |events|
  {
    hide InForce, Next;
    if events != [] {
      NextStaysInForce(p, s, events[0], target);
      StaysInForce(p, Next(p, s, events[0]), events[1..], target);
    }
  }

  /** While a retune is awaited, an event that is not yet the one to bring it changes nothing about it. */
  lemma NextStillAwaits(p: Params, s: State, e: Event)
    requires Awaits(p, s) && !e.Retarget? && (e.Tick? ==> e.i.ready && e.i.now < s.cfg.retuneReadyTs)
    ensures var t := Next(p, s, e);
      && Awaits(p, t) && t.cfg == s.cfg && t.wd.currentTimeoutMs == s.wd.currentTimeoutMs && t.clears == s.clears
  {
    hide Feed, Iterate, Chosen, Ticks;
    match e
    case Tick(i) =>
      PassWaits(p, s, i);
      PassClearsExactly(p, s, i);
      PassKeepsChannel(p, s, i);
    case Enable(on, driverRc, at) => FeedKeepsTimeout(s.wd.(enabled := true), driverRc, at);
    case _ =>
  }

  lemma PassKeepsChannel(p: Params, s: State, i: Input)
    ensures Iterate(p, s, i).wd.channel == s.wd.channel
  {
    hide AttemptRetune, Iterate, ProvenHealthy;
    PassIsRetune(p, s, i);
    RetuneKeepsDriver(p, s, i);
  }

  /** Before the time that the schedule names no pass touches the timeout in force. */
  lemma {:induction false} TargetNotBefore(p: Params, s: State, events: seq<Event>)
    requires Awaits(p, s) && Retargets(events) == 0 && ReadyTicks(events) && TicksBefore(events, s.cfg.retuneReadyTs)
    ensures var t := Run(p, s, events);
      Awaits(p, t) && t.cfg == s.cfg && t.wd.currentTimeoutMs == s.wd.currentTimeoutMs && t.clears == s.clears
    decreases |events|
  {
    hide Awaits, Next;
    if events != [] {
      assert events[0] in events;
      assert forall x :: x in events[1..] ==> x in events;
      NextStillAwaits(p, s, events[0]);
      TargetNotBefore(p, Next(p, s, events[0]), events[1..]);
    }
  }

  /**
   * The first pass at or after the scheduled time puts the wanted timeout in force. With passes at most gap apart
   * that is by the scheduled time plus gap; the count is taken back with it; and the timeout stays in force for the
   * rest of the run.
   */
  lemma {:induction false} TargetInForceBy(p: Params, s: State, events: seq<Event>, gap: nat, last: int) returns (n: nat)
    requires Awaits(p, s) && Retargets(events) == 0 && ReadyTicks(events)
    requires last <= s.cfg.retuneReadyTs && Spaced(last, events, gap)
    requires exists e :: e in events && e.Tick? && e.i.now >= s.cfg.retuneReadyTs
    ensures 0 < n <= |events| && TicksBefore(events[..n], s.cfg.retuneReadyTs + gap + 1)
    ensures Run(p, s, events[..n]).counterCleared && Run(p, s, events[..n]).clears == s.clears + 1
    ensures forall m :: n <= m <= |events| ==> InForce(Run(p, s, events[..m]), s.cfg.desiredTimeoutMs)
    decreases |events|
  {
    hide Next, Awaits, InForce, TicksBefore, Run, Spaced, ReadyTicks, Retargets;
    var e, rest, ready := events[0], events[1..], s.cfg.retuneReadyTs;
    assert events == [e] + rest;
    SplitWaiting(e, rest, gap, last, ready);
    if e.Tick? && e.i.now >= ready {
      n := 1;
      RetunesNow(p, s, e);
      FirstOnly(p, s, e, rest, ready + gap + 1);
      InForceFrom(p, s, events, 1, s.cfg.desiredTimeoutMs);
    } else {
      NextStillAwaits(p, s, e);
      var k := TargetInForceBy(p, Next(p, s, e), rest, gap, if e.Tick? then e.i.now else last);
      n := k + 1;
      FirstMore(p, s, e, rest, k, ready + gap + 1);
      InForceFrom(p, s, events, n, s.cfg.desiredTimeoutMs);
    }
  }

  lemma RetunesNow(p: Params, s: State, e: Event)
    requires Awaits(p, s) && e.Tick? && e.i.ready && e.i.now >= s.cfg.retuneReadyTs
    ensures var t := Next(p, s, e); InForce(t, s.cfg.desiredTimeoutMs) && t.counterCleared && t.clears == s.clears + 1
  {
    hide Iterate, Chosen, Ticks, Fits;
    PassRetunes(p, s, e.i);
  }

  lemma SplitWaiting(e: Event, rest: seq<Event>, gap: nat, last: int, ready: int)
    requires Retargets([e] + rest) == 0 && ReadyTicks([e] + rest) && Spaced(last, [e] + rest, gap) && last <= ready
    requires exists x :: x in [e] + rest && x.Tick? && x.i.now >= ready
    ensures !e.Retarget? && Retargets(rest) == 0 && ReadyTicks(rest) && (e.Tick? ==> e.i.ready && e.i.now <= ready + gap)
    ensures Spaced(if e.Tick? then e.i.now else last, rest, gap)
    ensures !(e.Tick? && e.i.now >= ready) ==> exists x :: x in rest && x.Tick? && x.i.now >= ready
  {
    var events := [e] + rest;
    assert events[0] == e && events[1..] == rest;
    assert e in events;
    assert forall x :: x in rest ==> x in events;
    assert forall x :: x in events ==> x == e || x in rest;
  }

  lemma InForceFrom(p: Params, s: State, events: seq<Event>, n: nat, target: Word)
    requires n <= |events| && Retargets(events) == 0 && InForce(Run(p, s, events[..n]), target)
    ensures forall m :: n <= m <= |events| ==> InForce(Run(p, s, events[..m]), target)
  {
    hide InForce, Run, Retargets;
    forall m | n <= m <= |events|
      ensures InForce(Run(p, s, events[..m]), target)
    {
      var more := events[..m][n..];
      assert events[..m] == events[..n] + more && events[..m] + events[m..] == events;
      RetargetsSplit(events[..m], events[m..]);
      RetargetsSplit(events[..n], more);
      RunSplit(p, s, events[..n], more);
      StaysInForce(p, Run(p, s, events[..n]), more, target);
    }
  }

  lemma {:induction false} RunSplit(p: Params, s: State, a: seq<Event>, b: seq<Event>)
    ensures Run(p, s, a + b) == Run(p, Run(p, s, a), b)
    decreases |a|
  {
    hide Next;
    if a == [] {
      assert a + b == b;
    } else {
      assert (a + b)[1..] == a[1..] + b;
      RunSplit(p, Next(p, s, a[0]), a[1..], b);
    }
  }

  lemma {:induction false} RetargetsSplit(a: seq<Event>, b: seq<Event>)
    ensures Retargets(a + b) == Retargets(a) + Retargets(b)
    decreases |a|
  {
    if a == [] {
      assert a + b == b;
    } else {
      assert (a + b)[1..] == a[1..] + b;
      RetargetsSplit(a[1..], b);
    }
  }

  // ---- after a start, and after a request ----

  /** A prefix of the run after which, and for the rest of the run, the target is in force; its passes come before limit. */
  ghost predicate InForceBy(p: Params, s: State, events: seq<Event>, target: Word, limit: int) {
    exists n :: 0 <= n <= |events| && InForceAfter(p, s, events, target, n) && TicksBefore(events[..n], limit)
  }

  ghost predicate InForceAfter(p: Params, s: State, events: seq<Event>, target: Word, n: nat)
    requires n <= |events|
  {
    forall m :: n <= m <= |events| ==> InForce(Run(p, s, events[..m]), target)
  }

  lemma ByWaiting(p: Params, s: State, events: seq<Event>, gap: nat, last: int)
    requires Awaits(p, s) || InForce(s, s.cfg.desiredTimeoutMs)
    requires Retargets(events) == 0 && ReadyTicks(events) && last <= s.cfg.retuneReadyTs && Spaced(last, events, gap)
    requires exists e :: e in events && e.Tick? && e.i.now >= s.cfg.retuneReadyTs
    ensures InForceBy(p, s, events, s.cfg.desiredTimeoutMs, s.cfg.retuneReadyTs + gap + 1)
  {
    hide InForce, Run, Retargets, Awaits, ReadyTicks, Spaced;
    if Awaits(p, s) {
      hide TicksBefore;
      var n := TargetInForceBy(p, s, events, gap, last);
      assert InForceAfter(p, s, events, s.cfg.desiredTimeoutMs, n);
    } else {
      assert events[..0] == [];
      NoEvents(p, s);
      InForceFrom(p, s, events, 0, s.cfg.desiredTimeoutMs);
      assert InForceAfter(p, s, events, s.cfg.desiredTimeoutMs, 0);
    }
  }

  lemma NoEvents(p: Params, s: State)
    ensures Run(p, s, []) == s
  {}

  /** After `supervisor_start` a steady timeout that can be programmed is in force by the retune delay plus gap. */
  lemma SteadyInForceBy(p: Params, wd: Watchdog, ledLast: Word, steady: Word, delay: Word, monitorLed: bool, now: nat, events: seq<Event>, gap: nat)
    requires wd.channel >= 0 && steady != 0 && (steady == wd.currentTimeoutMs || (p.iwdg && Chosen(Ticks(steady, p.lsi)).Some?))
    requires Retargets(events) == 0 && ReadyTicks(events) && Spaced(now, events, gap)
    requires exists e :: e in events && e.Tick? && e.i.now >= now + delay
    ensures InForceBy(p, Start(wd, ledLast, steady, delay, monitorLed, now), events, steady, now + delay + gap + 1)
  {
    hide Chosen, Ticks, Retargets, ReadyTicks, Spaced, InForceBy;
    ByWaiting(p, Start(wd, ledLast, steady, delay, monitorLed, now), events, gap, now);
  }

  /** Within the retune delay after `supervisor_start` the boot timeout stays in force. */
  lemma BootTimeoutStays(p: Params, wd: Watchdog, ledLast: Word, steady: Word, delay: Word, monitorLed: bool, now: nat, events: seq<Event>)
    requires wd.channel >= 0 && steady != 0 && (steady == wd.currentTimeoutMs || (p.iwdg && Chosen(Ticks(steady, p.lsi)).Some?))
    requires Retargets(events) == 0 && ReadyTicks(events) && TicksBefore(events, now + delay)
    ensures Run(p, Start(wd, ledLast, steady, delay, monitorLed, now), events).wd.currentTimeoutMs == wd.currentTimeoutMs
  {
    var s := Start(wd, ledLast, steady, delay, monitorLed, now);
    hide Chosen, Ticks, Retargets, ReadyTicks, TicksBefore, Run;
    if steady == wd.currentTimeoutMs {
      StaysInForce(p, s, events, steady);
    } else {
      TargetNotBefore(p, s, events);
    }
  }

  /** After `supervisor_request_watchdog_target` a target that can be programmed is in force by gap, or by the delay of the start plus gap. */
  lemma RequestInForceBy(p: Params, s: State, target: Word, immediately: bool, at: int, events: seq<Event>, gap: nat)
    requires s.wd.channel >= 0 && target != 0 && (target == s.wd.currentTimeoutMs || (p.iwdg && Chosen(Ticks(target, p.lsi)).Some?))
    requires Retargets(events) == 0 && ReadyTicks(events) && Spaced(at, events, gap)
    requires exists e :: e in events && e.Tick? && e.i.now >= at + (if immediately then 0 else s.cfg.retuneDelayMs)
    ensures InForceBy(p, RequestTarget(s, target, immediately, at), events, target,
                      at + (if immediately then 0 else s.cfg.retuneDelayMs) + gap + 1)
  {
    hide Chosen, Ticks, Retargets, ReadyTicks, Spaced, InForceBy;
    ByWaiting(p, RequestTarget(s, target, immediately, at), events, gap, at);
  }

  // ---- the counter fits the timeout in force ----

  /** No pass tries to set registers that do not update in time. */
  predicate NoHalfRetune(p: Params, s: State, events: seq<Event>)
    decreases |events|
  {
    events == [] ||
    var e := events[0];
    && (e.Tick? && s.cfg.retunePending && e.i.now >= s.cfg.retuneReadyTs ==> e.i.ready)
    && NoHalfRetune(p, Next(p, s, e), events[1..])
  }

  /** The counter is still set as the driver set it, for the timeout it was set for; or it fits the timeout in force. */
  ghost predicate Programmed(p: Params, s: State, driverPeriod: nat, bootTimeoutMs: Word) {
    || (s.wd.hw.period == driverPeriod && s.wd.currentTimeoutMs == bootTimeoutMs)
    || Fits(s.wd.hw.period, s.wd.currentTimeoutMs, p.lsi)
  }

  lemma PassKeepsProgrammed(p: Params, s: State, i: Input, driverPeriod: nat, bootTimeoutMs: Word)
    requires Programmed(p, s, driverPeriod, bootTimeoutMs) && (s.cfg.retunePending && i.now >= s.cfg.retuneReadyTs ==> i.ready)
    ensures Programmed(p, Iterate(p, s, i), driverPeriod, bootTimeoutMs)
  {
    RetuneMeaning(s.wd, s.cfg.desiredTimeoutMs, p.lsi, p.iwdg, i.ready, i.now);
    hide Retune, Chosen, Ticks, Iterate, Fits, ProvenHealthy;
    PassIsRetune(p, s, i);
  }

  /** In every run that sets no unready registers the counter's period fits the timeout reported as in force, from the first retune on. */
  lemma {:induction false} PeriodFitsTimeout(p: Params, s: State, events: seq<Event>, driverPeriod: nat, bootTimeoutMs: Word)
    requires Programmed(p, s, driverPeriod, bootTimeoutMs) && NoHalfRetune(p, s, events)
    ensures Programmed(p, Run(p, s, events), driverPeriod, bootTimeoutMs)
    decreases |events|
  {
    hide Programmed, Iterate, Feed;
    if events != [] {
      var e := events[0];
      if e.Tick? {
        PassKeepsProgrammed(p, s, e.i, driverPeriod, bootTimeoutMs);
      } else {
        OthersKeepProgrammed(p, s, e, driverPeriod, bootTimeoutMs);
      }
      PeriodFitsTimeout(p, Next(p, s, e), events[1..], driverPeriod, bootTimeoutMs);
    }
  }

  lemma OthersKeepProgrammed(p: Params, s: State, e: Event, driverPeriod: nat, bootTimeoutMs: Word)
    requires Programmed(p, s, driverPeriod, bootTimeoutMs) && !e.Tick?
    ensures Programmed(p, Next(p, s, e), driverPeriod, bootTimeoutMs)
  {
    hide Fits, Feed;
    if e.Enable? {
      FeedKeepsTimeout(s.wd.(enabled := true), e.driverRc, e.at);
    }
  }

  // ---- feeding switched off ----

  /** While feeding is disabled and no retune is pending, nothing reloads the counter. */
  lemma {:induction false} DisabledLeavesHardware(p: Params, s: State, events: seq<Event>)
    requires !s.wd.enabled && !s.cfg.retunePending && Untouched(events)
    ensures Run(p, s, events).wd == s.wd
    decreases |events|
  {
    hide SampleHealth;
    if events != [] {
      assert events[0] in events;
      assert forall x :: x in events[1..] ==> x in events;
      DisabledPass(p, s, events[0]);
      hide Next;
      DisabledLeavesHardware(p, Next(p, s, events[0]), events[1..]);
    }
  }

  lemma DisabledPass(p: Params, s: State, e: Event)
    requires !s.wd.enabled && !s.cfg.retunePending && !e.Retarget? && !(e.Enable? && e.on)
    ensures var t := Next(p, s, e); t.wd == s.wd && !t.cfg.retunePending
  {
    hide SampleHealth;
  }
}
