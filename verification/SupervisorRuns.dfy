/** Whole runs of the supervisor: passes of its loop between notifications, retargetings and enablings by other threads. */
module SupervisorRuns {
  import opened Bytes
  import opened Results
  import opened WatchdogCtrl
  import opened Supervisor

  datatype Event =
    | Tick(i: Input)
    | LedAlive(now: nat)
    | SystemAlive(now: nat)
    | Retarget(timeoutMs: Word, immediately: bool, at: int)
    | Enable(on: bool, driverRc: int, at: int)

  function Next(p: Params, s: State, e: Event): State {
    match e
    case Tick(i) => Iterate(p, s, i)
    case LedAlive(now) => s.(ledLast := now % WORD)
    case SystemAlive(now) => s.(sysLast := now % WORD)
    case Retarget(timeoutMs, immediately, at) => RequestTarget(s, timeoutMs, immediately, at)
    case Enable(on, driverRc, at) =>
      if on then s.(wd := Feed(s.wd.(enabled := true), driverRc, at).1) else s.(wd := s.wd.(enabled := false))
  }

  function Run(p: Params, s: State, events: seq<Event>): State
    decreases |events|
  {
    if events == [] then s else Run(p, Next(p, s, events[0]), events[1..])
  }

  // ---- the retune bookkeeping ----

  /** Retuning is over exactly when it is not pending; then the wanted timeout is in force, unless the build cannot retune. */
  predicate RetuneSettled(p: Params, s: State) {
    && (s.cfg.retuneDoneOnce <==> !s.cfg.retunePending)
    && (!s.cfg.retunePending ==> s.cfg.desiredTimeoutMs == s.wd.currentTimeoutMs || s.cfg.retuneFailedLogged)
    && (s.cfg.retuneFailedLogged ==> !p.iwdg)
  }

  lemma FeedKeepsTimeout(w: Watchdog, rc: int, now: int)
    ensures var w' := Feed(w, rc, now).1;
      w'.currentTimeoutMs == w.currentTimeoutMs && w'.channel == w.channel && w'.enabled == w.enabled && w'.hw.period == w.hw.period
  {}

  lemma PassKeepsRetune(p: Params, s: State, i: Input)
    requires RetuneSettled(p, s)
    ensures RetuneSettled(p, Iterate(p, s, i))
  {
    hide SampleHealth, Feed, Chosen, Ticks;
    FeedKeepsTimeout(AttemptRetune(p, s, i).wd, i.feedRc, i.now);
  }

  lemma NextKeepsRetune(p: Params, s: State, e: Event)
    requires RetuneSettled(p, s)
    ensures RetuneSettled(p, Next(p, s, e))
  {
    match e
    case Tick(i) => PassKeepsRetune(p, s, i); hide Iterate;
    case _ =>
  }

  /** Every run after `supervisor_start` keeps the retune bookkeeping settled. */
  lemma {:induction false} RetuneStaysSettled(p: Params, s: State, events: seq<Event>)
    requires RetuneSettled(p, s)
    ensures RetuneSettled(p, Run(p, s, events))
    decreases |events|
  {
    if events != [] {
      NextKeepsRetune(p, s, events[0]);
      RetuneStaysSettled(p, Next(p, s, events[0]), events[1..]);
    }
  }

  lemma StartIsSettled(p: Params, wd: Watchdog, ledLast: Word, steady: Word, delay: Word, monitorLed: bool, now: nat)
    ensures ClearSettled(p, Start(wd, ledLast, steady, delay, monitorLed, now))
  {}

  // ---- clearing the persisted count ----

  function Retargets(events: seq<Event>): nat {
    if events == [] then 0 else (if events[0].Retarget? then 1 else 0) + Retargets(events[1..])
  }

  /** 1 while the count may still be cleared for the present target. */
  function Uncleared(s: State): nat {
    if s.counterCleared then 0 else 1
  }

  /** Retuning is settled, and the count is cleared only after retuning is over. */
  predicate ClearSettled(p: Params, s: State) {
    RetuneSettled(p, s) && (s.counterCleared ==> s.cfg.retuneDoneOnce)
  }

  /**
   * A pass clears the count at most once, and only when it has just put the wanted timeout in force, or when
   * retuning was over before, the grace has passed and both heartbeats are fresh.
   */
  lemma PassClears(p: Params, s: State, i: Input)
    requires ClearSettled(p, s)
    ensures var t := Iterate(p, s, i);
      && ClearSettled(p, t) && t.clears + Uncleared(t) == s.clears + Uncleared(s)
      && (t.clears > s.clears ==>
            || (s.cfg.retunePending && t.wd.currentTimeoutMs == t.cfg.desiredTimeoutMs == s.cfg.desiredTimeoutMs)
            || (!s.cfg.retunePending && !InGrace(p, s, i.now) && Healthy(SampleHealth(p, s.cfg.monitorLed, s.ledLast, s.sysLast, i.now % WORD))))
  {
    PassKeepsRetune(p, s, i);
    hide SampleHealth, Feed, Chosen, Ticks;
    FeedKeepsTimeout(AttemptRetune(p, s, i).wd, i.feedRc, i.now);
  }

  lemma NextClears(p: Params, s: State, e: Event)
    requires ClearSettled(p, s)
    ensures var t := Next(p, s, e);
      ClearSettled(p, t) && t.clears + Uncleared(t) <= s.clears + Uncleared(s) + (if e.Retarget? then 1 else 0)
  {
    if e.Tick? {
      PassClears(p, s, e.i);
      hide Iterate, RetuneSettled;
    } else {
      NextKeepsRetune(p, s, e);
    }
  }

  /** In every run the persisted count is cleared at most once for each target: the one of the boot and those requested later. */
  lemma {:induction false} ClearedOncePerTarget(p: Params, s: State, events: seq<Event>)
    requires ClearSettled(p, s)
    ensures Run(p, s, events).clears <= s.clears + Uncleared(s) + Retargets(events)
    decreases |events|
  {
    hide ClearSettled, Next;
    if events != [] {
      NextClears(p, s, events[0]);
      ClearedOncePerTarget(p, Next(p, s, events[0]), events[1..]);
    }
  }

  // ---- timeouts that cannot be programmed ----

  /** The wanted timeout is not in force and no prescaler can make it so. */
  predicate OutOfReach(p: Params, s: State) {
    && p.iwdg && s.cfg.retunePending && !s.cfg.retuneDoneOnce
    && s.cfg.desiredTimeoutMs != s.wd.currentTimeoutMs && Chosen(Ticks(s.cfg.desiredTimeoutMs, p.lsi)) == None
  }

  lemma NextStaysOutOfReach(p: Params, s: State, e: Event)
    requires OutOfReach(p, s) && !e.Retarget?
    ensures var t := Next(p, s, e);
      OutOfReach(p, t) && t.wd.currentTimeoutMs == s.wd.currentTimeoutMs && t.cfg.desiredTimeoutMs == s.cfg.desiredTimeoutMs && t.clears == s.clears
  {
    hide SampleHealth, Chosen, Ticks, Feed;
    match e
    case Tick(i) => FeedKeepsTimeout(AttemptRetune(p, s, i).wd, i.feedRc, i.now);
    case Enable(on, driverRc, at) => FeedKeepsTimeout(s.wd.(enabled := true), driverRc, at);
    case _ =>
  }

  /**
   * A target out of reach is retried for ever: until another is requested the old timeout stays in force
   * and the persisted count is not cleared, however healthy the system is.
   */
  lemma {:induction false} OutOfReachForEver(p: Params, s: State, events: seq<Event>)
    requires OutOfReach(p, s) && Retargets(events) == 0
    ensures var t := Run(p, s, events);
      OutOfReach(p, t) && t.wd.currentTimeoutMs == s.wd.currentTimeoutMs && t.clears == s.clears
    decreases |events|
  {
    hide OutOfReach, Next;
    if events != [] {
      NextStaysOutOfReach(p, s, events[0]);
      OutOfReachForEver(p, Next(p, s, events[0]), events[1..]);
    }
  }

  /** With the 32 kHz clock this befalls exactly the targets of 32768 to 60000 ms among those that the console accepts. */
  lemma LongTargetsAreOutOfReach(p: Params, s: State, timeoutMs: Word, immediately: bool, at: int)
    requires p.lsi == 32000 && p.iwdg && 100 <= timeoutMs <= 60000 && timeoutMs != s.wd.currentTimeoutMs
    ensures OutOfReach(p, RequestTarget(s, timeoutMs, immediately, at)) <==> timeoutMs >= 32768
  {
    Programmable(timeoutMs);
    hide Chosen, Ticks;
  }

  // ---- the failure counter ----

  /** How a pass bears on the failure counter; the counter itself plays no part. */
  datatype Kind = Clearing | Failing | Neutral

  function FeedAnswer(w: Watchdog, i: Input): int {
    Feed(w, i.feedRc, i.now).0
  }

  function KindOf(p: Params, s: State, i: Input): Kind {
    var healthy := Healthy(SampleHealth(p, s.cfg.monitorLed, s.ledLast, s.sysLast, i.now % WORD));
    if InGrace(p, s, i.now) then Clearing
    else if !healthy then Failing
    else if !s.wd.enabled || FeedAnswer(s.wd, i) == 0 then Clearing
    else if FeedAnswer(s.wd, i) == -EBUSY || FeedAnswer(s.wd, i) == -EAGAIN then Neutral
    else Failing
  }

  /** The passes of a run, classified. */
  function Kinds(p: Params, s: State, events: seq<Event>): seq<Kind>
    decreases |events|
  {
    if events == [] then []
    else (if events[0].Tick? then [KindOf(p, s, events[0].i)] else []) + Kinds(p, Next(p, s, events[0]), events[1..])
  }

  /** The failing passes since the last clearing one. */
  function FailingSinceClearing(kinds: seq<Kind>): nat {
    if kinds == [] then 0
    else
      var before, last := FailingSinceClearing(kinds[..|kinds| - 1]), kinds[|kinds| - 1];
      if last.Clearing? then 0 else if last.Failing? then before + 1 else before
  }

  /** How many passes complete a group of three failures. */
  function ThirdFailures(kinds: seq<Kind>): nat {
    if kinds == [] then 0
    else ThirdFailures(kinds[..|kinds| - 1]) + (if kinds[|kinds| - 1].Failing? && FailingSinceClearing(kinds) % 3 == 0 then 1 else 0)
  }

  lemma RetuneKeepsDriver(p: Params, s: State, i: Input)
    ensures var t := AttemptRetune(p, s, i);
      t.wd.channel == s.wd.channel && t.wd.enabled == s.wd.enabled && t.failCount == s.failCount && t.requests == s.requests
      && t.ledLast == s.ledLast && t.sysLast == s.sysLast && t.bootTs == s.bootTs && t.cfg.monitorLed == s.cfg.monitorLed
  {
    hide Chosen, Ticks;
  }

  lemma PassCounts(p: Params, s: State, i: Input)
    requires s.failCount < 3
    ensures var t, k := Iterate(p, s, i), KindOf(p, s, i);
      && t.failCount == (if k.Clearing? then 0 else if k.Neutral? then s.failCount else (s.failCount + 1) % 3)
      && t.requests == s.requests + (if k.Failing? && s.failCount == 2 then 1 else 0)
  {
    RetuneKeepsDriver(p, s, i);
    hide AttemptRetune, SampleHealth;
  }

  /**
   * At the head of the loop the counter is the number of failing passes since the last clearing one,
   * modulo three; and a request was issued exactly at every third failure.
   */
  lemma {:induction false} CounterRefinesHistory(p: Params, s: State, events: seq<Event>, before: seq<Kind>, asked: nat)
    requires s.failCount == FailingSinceClearing(before) % 3 && s.requests == asked + ThirdFailures(before)
    ensures var t, kinds := Run(p, s, events), before + Kinds(p, s, events);
      t.failCount == FailingSinceClearing(kinds) % 3 && t.requests == asked + ThirdFailures(kinds)
    decreases |events|
  {
    hide *;
    RunStep(p, s, events);
    if events == [] {
      assert before + [] == before;
    } else {
      var e, s', rest := events[0], Next(p, s, events[0]), events[1..];
      var kinds := Kinds(p, s', rest);
      if e.Tick? {
        var k := KindOf(p, s, e.i);
        PassCounts(p, s, e.i);
        OneMoreKind(before, k);
        CounterRefinesHistory(p, s', rest, before + [k], asked);
        assert before + [k] + kinds == before + ([k] + kinds);
      } else {
        OthersKeepCounter(p, s, e);
        CounterRefinesHistory(p, s', rest, before, asked);
        assert before + ([] + kinds) == before + kinds;
      }
    }
  }

  lemma RunStep(p: Params, s: State, events: seq<Event>)
    ensures events == [] ==> Run(p, s, events) == s && Kinds(p, s, events) == []
    ensures events != [] ==> Run(p, s, events) == Run(p, Next(p, s, events[0]), events[1..])
    ensures events != [] ==>
      Kinds(p, s, events) == (if events[0].Tick? then [KindOf(p, s, events[0].i)] else []) + Kinds(p, Next(p, s, events[0]), events[1..])
    ensures events != [] && events[0].Tick? ==> Next(p, s, events[0]) == Iterate(p, s, events[0].i)
  {
    hide Iterate, KindOf;
  }

  lemma OthersKeepCounter(p: Params, s: State, e: Event)
    requires !e.Tick?
    ensures Next(p, s, e).failCount == s.failCount && Next(p, s, e).requests == s.requests
  {}

  lemma OneMoreKind(before: seq<Kind>, k: Kind)
    ensures var n := FailingSinceClearing(before); FailingSinceClearing(before + [k]) == if k.Clearing? then 0 else if k.Failing? then n + 1 else n
    ensures ThirdFailures(before + [k]) == ThirdFailures(before) + (if k.Failing? && FailingSinceClearing(before + [k]) % 3 == 0 then 1 else 0)
  {
    assert (before + [k])[..|before|] == before;
  }

  // ---- staleness across the 32-bit clock ----

  /** For real times less than 2^32 ms apart the 32-bit age is the real age. */
  lemma AgeIsReal(now: nat, last: nat)
    requires last <= now < last + WORD
    ensures Since(now % WORD, last % WORD) == now - last
  {
    var d := now - last;
    assert (now % WORD - last % WORD) % WORD == d % WORD;
  }

  /** A stamp of real time last is found fresh exactly when it is not a multiple of 2^32 and at most the limit old. */
  lemma FreshExactly(p: Params, monitorLed: bool, ledLast: Word, now: nat, last: nat)
    requires last <= now < last + WORD
    ensures SampleHealth(p, monitorLed, ledLast, last % WORD, now % WORD).hbOk <==> last % WORD != 0 && now - last <= p.sysStaleMs
    ensures SampleHealth(p, true, last % WORD, ledLast, now % WORD).ledOk <==> last % WORD != 0 && now - last <= p.ledStaleMs
  {
    AgeIsReal(now, last);
    hide Since;
  }

  /** The passes come at most gap apart, the first at most gap after last. */
  predicate Spaced(last: int, events: seq<Event>, gap: nat)
    decreases |events|
  {
    events == [] || (if events[0].Tick? then last <= events[0].i.now <= last + gap && Spaced(events[0].i.now, events[1..], gap)
                     else Spaced(last, events[1..], gap))
  }

  /** One of the two heartbeats, monitored, was last notified at real time t. */
  predicate StoppedAt(s: State, led: bool, t: nat) {
    if led then s.cfg.monitorLed && s.ledLast == t % WORD else s.sysLast == t % WORD
  }

  predicate Silent(events: seq<Event>, led: bool) {
    forall e :: e in events ==> if led then !e.LedAlive? else !e.SystemAlive?
  }

  predicate TicksBefore(events: seq<Event>, limit: int) {
    forall e :: e in events && e.Tick? ==> e.i.now < limit
  }

  lemma StaleFails(p: Params, s: State, i: Input, led: bool, t: nat)
    requires StoppedAt(s, led, t) && t <= i.now < t + WORD
    requires i.now - t > (if led then p.ledStaleMs else p.sysStaleMs) && !InGrace(p, s, i.now)
    ensures KindOf(p, s, i) == Failing
  {
    FreshExactly(p, s.cfg.monitorLed, s.ledLast, i.now, t);
    FreshExactly(p, s.cfg.monitorLed, s.sysLast, i.now, t);
    hide Since;
  }

  lemma NextKeepsStopped(p: Params, s: State, e: Event, led: bool, t: nat)
    requires StoppedAt(s, led, t) && s.failCount < 3
    requires if led then !e.LedAlive? else !e.SystemAlive?
    ensures var s' := Next(p, s, e);
      StoppedAt(s', led, t) && s'.failCount < 3 && s'.bootTs == s.bootTs && s'.requests >= s.requests
    ensures !e.Tick? ==> Next(p, s, e).failCount == s.failCount && Next(p, s, e).requests == s.requests
  {
    if e.Tick? {
      PassCounts(p, s, e.i);
      RetuneKeepsDriver(p, s, e.i);
      hide AttemptRetune, SampleHealth, KindOf, Feed;
    }
  }

  /** When a heartbeat that stops at time t has to be taken for stale. */
  function DueAt(p: Params, bootTs: int, led: bool, t: nat): int {
    var stale, grace := t + (if led then p.ledStaleMs else p.sysStaleMs), bootTs + p.graceMs;
    if stale > grace then stale else grace
  }

  /**
   * Detection: a monitored heartbeat last notified at time t and silent since makes a recovery request
   * within three gaps of the later of its staleness limit and the end of the boot grace, also when the
   * 32-bit clock wraps in between, provided the passes go on that long. n counts the events up to the request.
   */
  lemma Detected(p: Params, s: State, events: seq<Event>, led: bool, t: nat, gap: nat, last: int) returns (n: nat)
    requires StoppedAt(s, led, t) && Silent(events, led) && s.failCount < 3
    requires Spaced(last, events, gap) && last <= DueAt(p, s.bootTs, led, t) && TicksBefore(events, t + WORD)
    requires exists e :: e in events && e.Tick? && e.i.now > DueAt(p, s.bootTs, led, t) + 2 * gap
    ensures 0 < n <= |events| && TicksBefore(events[..n], DueAt(p, s.bootTs, led, t) + 3 * gap + 1)
    ensures Run(p, s, events[..n]).requests > s.requests
  {
    hide StoppedAt, Silent, TicksBefore, Spaced, Run;
    n := DetectedAfter(p, s, events, led, t, DueAt(p, s.bootTs, led, t), gap, last, s.requests, 0);
  }

  /** The same with k failing passes behind. */
  lemma {:induction false} DetectedAfter(p: Params, s: State, events: seq<Event>, led: bool, t: nat,
                                         due: int, gap: nat, last: int, asked: nat, k: nat)
    returns (n: nat)
    requires StoppedAt(s, led, t) && Silent(events, led) && s.failCount < 3
    requires due >= t + (if led then p.ledStaleMs else p.sysStaleMs) && due >= s.bootTs + p.graceMs
    requires Spaced(last, events, gap) && TicksBefore(events, t + WORD)
    requires exists e :: e in events && e.Tick? && e.i.now > due + 2 * gap
    requires k < 3 && last <= due + k * gap && (k > 0 ==> last > due)
    requires s.requests >= asked && 3 * s.requests + s.failCount >= 3 * asked + k
    ensures 0 < n <= |events| && TicksBefore(events[..n], due + 3 * gap + 1)
    ensures Run(p, s, events[..n]).requests > asked
    decreases |events|
  {
    hide Next, StoppedAt, TicksBefore, Silent;
    var e, rest := events[0], events[1..];
    var s' := Next(p, s, e);
    assert events == [e] + rest;
    SplitRun(e, rest, led, t + WORD, due + 2 * gap);
    NextKeepsStopped(p, s, e, led, t);
    var late := e.Tick? && e.i.now > due;
    if late {
      StaleFails(p, s, e.i, led, t);
      PassIsNext(p, s, e.i);
    }
    var k' := if late then k + 1 else k;
    if k' == 3 {
      n := 1;
      FirstOnly(p, s, e, rest, due + 3 * gap + 1);
    } else {
      var last' := if e.Tick? then e.i.now else last;
      Products(k, gap);
      var m := DetectedAfter(p, s', rest, led, t, due, gap, last', asked, k');
      n := m + 1;
      FirstMore(p, s, e, rest, m, due + 3 * gap + 1);
    }
  }

  lemma PassIsNext(p: Params, s: State, i: Input)
    requires s.failCount < 3 && KindOf(p, s, i).Failing?
    ensures var t := Next(p, s, Tick(i)); 3 * t.requests + t.failCount == 3 * s.requests + s.failCount + 1
  {
    PassCounts(p, s, i);
    hide Iterate, KindOf;
  }

  lemma SplitRun(e: Event, rest: seq<Event>, led: bool, limit: int, floor: int)
    requires Silent([e] + rest, led) && TicksBefore([e] + rest, limit)
    requires exists x :: x in [e] + rest && x.Tick? && x.i.now > floor
    ensures Silent(rest, led) && TicksBefore(rest, limit)
    ensures (if led then !e.LedAlive? else !e.SystemAlive?) && (e.Tick? ==> e.i.now < limit)
    ensures !(e.Tick? && e.i.now > floor) ==> exists x :: x in rest && x.Tick? && x.i.now > floor
  {
    assert e in [e] + rest;
    assert forall x :: x in rest ==> x in [e] + rest;
    assert forall x :: x in [e] + rest ==> x == e || x in rest;
  }

  lemma FirstOnly(p: Params, s: State, e: Event, rest: seq<Event>, limit: int)
    requires e.Tick? ==> e.i.now < limit
    ensures ([e] + rest)[..1] == [e] && Run(p, s, [e]) == Next(p, s, e) && TicksBefore([e], limit)
  {
    hide Next;
    assert Run(p, Next(p, s, e), []) == Next(p, s, e);
  }

  lemma FirstMore(p: Params, s: State, e: Event, rest: seq<Event>, m: nat, limit: int)
    requires m <= |rest| && TicksBefore(rest[..m], limit) && (e.Tick? ==> e.i.now < limit)
    ensures TicksBefore(([e] + rest)[..m + 1], limit)
    ensures Run(p, s, ([e] + rest)[..m + 1]) == Run(p, Next(p, s, e), rest[..m])
  {
    hide Next;
    var all := ([e] + rest)[..m + 1];
    assert all == [e] + rest[..m] && all[1..] == rest[..m];
  }

  lemma Products(k: nat, gap: nat)
    requires k < 3
    ensures (k + 1) * gap == k * gap + gap && k * gap <= 2 * gap
  {}

  // ---- no false alarms ----

  /** A pass in the boot grace, or one that finds both stamps (of real times led and sys) fresh and is not refused by the driver. */
  predicate CalmPass(p: Params, s: State, i: Input, led: nat, sys: nat) {
    || InGrace(p, s, i.now)
    || ( && sys <= i.now <= sys + p.sysStaleMs && sys % WORD != 0
         && (s.cfg.monitorLed ==> led <= i.now <= led + p.ledStaleMs && led % WORD != 0)
         && (s.wd.enabled ==> FeedAnswer(s.wd, i) == 0 || FeedAnswer(s.wd, i) == -EBUSY || FeedAnswer(s.wd, i) == -EAGAIN))
  }

  predicate Calm(p: Params, s: State, events: seq<Event>, led: nat, sys: nat)
    decreases |events|
  {
    events == [] ||
    var e := events[0];
    && (e.Tick? ==> CalmPass(p, s, e.i, led, sys))
    && Calm(p, Next(p, s, e), events[1..], if e.LedAlive? then e.now else led, if e.SystemAlive? then e.now else sys)
  }

  lemma CalmPassDoesNotFail(p: Params, s: State, i: Input, led: nat, sys: nat)
    requires s.ledLast == led % WORD && s.sysLast == sys % WORD && CalmPass(p, s, i, led, sys)
    ensures !KindOf(p, s, i).Failing?
  {
    if !InGrace(p, s, i.now) {
      FreshExactly(p, s.cfg.monitorLed, s.ledLast, i.now, sys);
      if s.cfg.monitorLed {
        FreshExactly(p, true, s.sysLast, i.now, led);
      }
    }
    hide Since, Feed;
  }

  lemma NextKeepsCalm(p: Params, s: State, e: Event, led: nat, sys: nat)
    requires s.ledLast == led % WORD && s.sysLast == sys % WORD && s.failCount < 3
    requires e.Tick? ==> CalmPass(p, s, e.i, led, sys)
    ensures var s' := Next(p, s, e);
      && s'.requests == s.requests && s'.failCount < 3
      && s'.ledLast == (if e.LedAlive? then e.now else led) % WORD && s'.sysLast == (if e.SystemAlive? then e.now else sys) % WORD
  {
    if e.Tick? {
      CalmPassDoesNotFail(p, s, e.i, led, sys);
      PassCounts(p, s, e.i);
      RetuneKeepsDriver(p, s, e.i);
      hide AttemptRetune, SampleHealth, KindOf, Feed, CalmPass;
    }
  }

  /** While every pass after the grace finds both heartbeats fresh and feeds are not refused, no recovery is ever requested. */
  lemma {:induction false} NoFalseAlarm(p: Params, s: State, events: seq<Event>, led: nat, sys: nat)
    requires s.ledLast == led % WORD && s.sysLast == sys % WORD && s.failCount < 3 && Calm(p, s, events, led, sys)
    ensures Run(p, s, events).requests == s.requests
    decreases |events|
  {
    hide Next, CalmPass;
    if events != [] {
      var e := events[0];
      NextKeepsCalm(p, s, e, led, sys);
      NoFalseAlarm(p, Next(p, s, e), events[1..], if e.LedAlive? then e.now else led, if e.SystemAlive? then e.now else sys);
    }
  }

  // ---- the hardware counter ----

  /** Programming the timeout, if it can be programmed, gives the counter more than gap milliseconds. */
  predicate Outlasts(p: Params, timeoutMs: Word, gap: nat) {
    var c := Chosen(Ticks(timeoutMs, p.lsi));
    c.Some? ==> gap * p.lsi < c.value.Period() * 1000
  }

  /**
   * No event disables feeding or asks for a timeout that the gap exceeds, and every pass is calm with a
   * feed that succeeds; last is the time of the last pass, which an enabling does not precede.
   */
  predicate Serviced(p: Params, s: State, events: seq<Event>, led: nat, sys: nat, gap: nat, last: int)
    decreases |events|
  {
    events == [] ||
    var e := events[0];
    && (e.Tick? ==> CalmPass(p, s, e.i, led, sys) && e.i.feedRc == 0)
    && (e.Retarget? ==> Outlasts(p, e.timeoutMs, gap))
    && (e.Enable? ==> e.on && last <= e.at)
    && Serviced(p, Next(p, s, e), events[1..], if e.LedAlive? then e.now else led, if e.SystemAlive? then e.now else sys, gap,
                if e.Tick? then e.i.now else last)
  }

  /** At no pass has the counter already run down (so it has not in between either). */
  predicate NeverExpires(p: Params, s: State, events: seq<Event>)
    decreases |events|
  {
    events == [] ||
    ((events[0].Tick? ==> !Expired(s.wd.hw, p.lsi, events[0].i.now)) && NeverExpires(p, Next(p, s, events[0]), events[1..]))
  }

  ghost predicate Fed(p: Params, s: State, led: nat, sys: nat, gap: nat, last: int) {
    && s.ledLast == led % WORD && s.sysLast == sys % WORD
    && s.wd.channel >= 0 && s.wd.enabled && s.wd.hw.lastReload >= last
    && gap * p.lsi < s.wd.hw.period * 1000 && Outlasts(p, s.cfg.desiredTimeoutMs, gap)
  }

  lemma RetuneKeepsMargin(p: Params, s: State, i: Input, gap: nat)
    requires gap * p.lsi < s.wd.hw.period * 1000 && Outlasts(p, s.cfg.desiredTimeoutMs, gap)
    ensures var t := AttemptRetune(p, s, i); gap * p.lsi < t.wd.hw.period * 1000 && t.cfg.desiredTimeoutMs == s.cfg.desiredTimeoutMs
  {
    hide Chosen, Ticks;
  }

  lemma PassFeeds(p: Params, s: State, i: Input, led: nat, sys: nat, gap: nat, last: int)
    requires Fed(p, s, led, sys, gap, last) && CalmPass(p, s, i, led, sys) && i.feedRc == 0
    ensures Fed(p, Iterate(p, s, i), led, sys, gap, i.now)
  {
    CalmPassDoesNotFail(p, s, i, led, sys);
    RetuneKeepsMargin(p, s, i, gap);
    RetuneKeepsDriver(p, s, i);
    hide AttemptRetune, SampleHealth, Outlasts, CalmPass;
  }

  lemma NotYetExpired(hw: Hardware, lsi: Word, last: int, now: int, gap: nat)
    requires hw.lastReload >= last && last <= now <= last + gap && gap * lsi < hw.period * 1000
    ensures !Expired(hw, lsi, now)
  {
    Monotone(now - hw.lastReload, gap, lsi);
  }

  lemma Monotone(x: int, y: int, n: nat)
    requires x <= y
    ensures x * n <= y * n
  {}

  /**
   * While heartbeats stay fresh, feeds succeed and the passes come closer together than every programmed
   * timeout lasts, the hardware counter never runs down, through retunings, retargetings and renewed enablings.
   */
  lemma {:induction false} HardwareNeverExpires(p: Params, s: State, events: seq<Event>, led: nat, sys: nat, gap: nat, last: int)
    requires Fed(p, s, led, sys, gap, last) && Spaced(last, events, gap) && Serviced(p, s, events, led, sys, gap, last)
    ensures NeverExpires(p, s, events)
    decreases |events|
  {
    hide Iterate, CalmPass, Outlasts, Expired;
    if events != [] {
      var e := events[0];
      if e.Tick? {
        NotYetExpired(s.wd.hw, p.lsi, last, e.i.now, gap);
        PassFeeds(p, s, e.i, led, sys, gap, last);
        HardwareNeverExpires(p, Next(p, s, e), events[1..], led, sys, gap, e.i.now);
      } else {
        HardwareNeverExpires(p, Next(p, s, e), events[1..], if e.LedAlive? then e.now else led, if e.SystemAlive? then e.now else sys, gap, last);
      }
    }
  }

  /** Nothing but passes, notifications and disablings. */
  predicate Untouched(events: seq<Event>) {
    forall e :: e in events ==> !e.Retarget? && !(e.Enable? && e.on)
  }

  lemma StalePassLeavesHardware(p: Params, s: State, i: Input, led: bool, t: nat)
    requires StoppedAt(s, led, t) && !s.cfg.retunePending && s.failCount < 3
    requires t + (if led then p.ledStaleMs else p.sysStaleMs) < i.now < t + WORD && i.now - s.bootTs >= p.graceMs
    ensures Iterate(p, s, i).wd == s.wd && !Iterate(p, s, i).cfg.retunePending
  {
    StaleFails(p, s, i, led, t);
    hide SampleHealth;
  }

  /** Every pass comes after the grace and after the stopped heartbeat's limit. */
  predicate AllLate(p: Params, bootTs: int, events: seq<Event>, led: bool, t: nat) {
    forall e :: e in events && e.Tick? ==> DueAt(p, bootTs, led, t) < e.i.now < t + WORD
  }

  /** Once a monitored heartbeat is overdue for good and no retune is pending, nothing reloads the counter any more. */
  lemma {:induction false} OverdueRunLeavesHardware(p: Params, s: State, events: seq<Event>, led: bool, t: nat)
    requires StoppedAt(s, led, t) && Silent(events, led) && !s.cfg.retunePending && s.failCount < 3
    requires Untouched(events) && AllLate(p, s.bootTs, events, led, t)
    ensures Run(p, s, events).wd.hw == s.wd.hw
    decreases |events|
  {
    if events != [] {
      var e, rest := events[0], events[1..];
      assert e in events;
      assert forall x :: x in rest ==> x in events;
      NextKeepsStopped(p, s, e, led, t);
      if e.Tick? {
        StalePassLeavesHardware(p, s, e.i, led, t);
      }
      hide Iterate, StoppedAt;
      OverdueRunLeavesHardware(p, Next(p, s, e), rest, led, t);
    }
  }

  /** The later of two times. */
  function Later(a: int, b: int): int {
    if a > b then a else b
  }

  /** A pass after a heartbeat stopped reloads the counter only while the heartbeat is not yet due. */
  lemma StoppedPassReloads(p: Params, s: State, i: Input, led: bool, t: nat)
    requires StoppedAt(s, led, t) && !s.cfg.retunePending && s.failCount < 3 && i.now < t + WORD
    ensures var s' := Iterate(p, s, i);
      && !s'.cfg.retunePending && s'.wd.hw.period == s.wd.hw.period
      && (s'.wd.hw.lastReload == s.wd.hw.lastReload || s'.wd.hw.lastReload == i.now <= DueAt(p, s.bootTs, led, t))
  {
    if i.now > DueAt(p, s.bootTs, led, t) {
      StalePassLeavesHardware(p, s, i, led, t);
    }
    hide SampleHealth, StoppedAt;
  }

  /**
   * When a monitored heartbeat stops and no retune is pending, the counter is last reloaded when the heartbeat
   * falls due, at the latest; so at every time from then plus one programmed timeout it has run down.
   */
  lemma HardwareExpires(p: Params, s: State, events: seq<Event>, led: bool, t: nat)
    requires StoppedAt(s, led, t) && Silent(events, led) && !s.cfg.retunePending && s.failCount < 3
    requires Untouched(events) && TicksBefore(events, t + WORD)
    ensures var hw, latest := Run(p, s, events).wd.hw, Later(s.wd.hw.lastReload, DueAt(p, s.bootTs, led, t));
      && hw.period == s.wd.hw.period && hw.lastReload <= latest
      && forall now :: (now - latest) * p.lsi >= hw.period * 1000 ==> Expired(hw, p.lsi, now)
  {
    hide Iterate, StoppedAt, DueAt, Next, Expired, Silent, Untouched, TicksBefore, Later;
    LastReload(p, s, events, led, t);
    ExpiryFollows(p, Run(p, s, events).wd.hw, Later(s.wd.hw.lastReload, DueAt(p, s.bootTs, led, t)));
  }

  lemma ExpiryFollows(p: Params, hw: Hardware, latest: int)
    requires hw.lastReload <= latest
    ensures forall now :: (now - latest) * p.lsi >= hw.period * 1000 ==> Expired(hw, p.lsi, now)
  {
    forall now | (now - latest) * p.lsi >= hw.period * 1000
      ensures Expired(hw, p.lsi, now)
    {
      Monotone(now - latest, now - hw.lastReload, p.lsi);
    }
  }

  lemma {:induction false} LastReload(p: Params, s: State, events: seq<Event>, led: bool, t: nat)
    requires StoppedAt(s, led, t) && Silent(events, led) && !s.cfg.retunePending && s.failCount < 3
    requires Untouched(events) && TicksBefore(events, t + WORD)
    ensures var hw := Run(p, s, events).wd.hw;
      hw.period == s.wd.hw.period && hw.lastReload <= Later(s.wd.hw.lastReload, DueAt(p, s.bootTs, led, t))
    decreases |events|
  {
    hide StoppedAt, DueAt, Iterate;
    if events != [] {
      var e, rest := events[0], events[1..];
      var s' := Next(p, s, e);
      assert e in events;
      assert forall x :: x in rest ==> x in events;
      NextKeepsStopped(p, s, e, led, t);
      if e.Tick? {
        StoppedPassReloads(p, s, e.i, led, t);
      }
      assert s'.wd.hw.period == s.wd.hw.period && !s'.cfg.retunePending;
      assert s'.wd.hw.lastReload <= Later(s.wd.hw.lastReload, DueAt(p, s.bootTs, led, t));
      hide Next;
      LastReload(p, s', rest, led, t);
    }
  }
}
