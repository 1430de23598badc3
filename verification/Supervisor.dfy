/** The watchdog supervisor of src/supervisor.c: one iteration of its thread, as a function and as a method on the statics. */
module Supervisor {
  import opened Bytes
  import opened Results
  import opened WatchdogCtrl

  const MAX_FAILURES: nat := 3

  /** The build's numbers: loop period, boot grace, staleness limits, clock of the hardware watchdog. */
  datatype Params = Params(periodMs: nat, graceMs: nat, ledStaleMs: Word, sysStaleMs: Word, lsi: Word, iwdg: bool)

  /** `struct watchdog_cfg` */
  datatype Config = Config(desiredTimeoutMs: Word, retuneDelayMs: Word, retuneReadyTs: int, monitorLed: bool,
                           retunePending: bool, retuneDoneOnce: bool, retuneFailedLogged: bool)

  datatype Health = Health(ledOk: bool, hbOk: bool, ledAge: Word, hbAge: Word)

  /** `sample_health`: ages are 32-bit differences, and a stamp of zero means never seen. */
  function SampleHealth(p: Params, monitorLed: bool, ledLast: Word, sysLast: Word, now32: Word): Health {
    var hbAge := if sysLast == 0 then WORD - 1 else Since(now32, sysLast);
    var ledAge := if !monitorLed then 0 else if ledLast == 0 then WORD - 1 else Since(now32, ledLast);
    Health(!monitorLed || (ledLast != 0 && ledAge <= p.ledStaleMs), sysLast != 0 && hbAge <= p.sysStaleMs, ledAge, hbAge)
  }

  /** 32-bit subtraction. */
  function Since(now32: Word, last: Word): Word {
    (now32 - last) % WORD
  }

  /** The statics of the file, the loop's failure counter, the watchdog it drives and the requests and clearings it has issued. */
  datatype State = State(cfg: Config, ledLast: Word, sysLast: Word, bootTs: int, counterCleared: bool, failCount: nat,
                         wd: Watchdog, requests: nat, clears: nat)

  /** What one iteration meets: the time, whether the watchdog registers update, what the driver answers to a feed. */
  datatype Input = Input(now: nat, ready: bool, feedRc: int)

  function InGrace(p: Params, s: State, now: int): bool {
    now - s.bootTs < p.graceMs
  }

  predicate Healthy(h: Health) {
    h.ledOk && h.hbOk
  }

  /** `attempt_watchdog_retune` */
  function AttemptRetune(p: Params, s: State, i: Input): State {
    if !s.cfg.retunePending || i.now < s.cfg.retuneReadyTs then s
    else
      var (rc, wd) := Retune(s.wd, s.cfg.desiredTimeoutMs, p.lsi, p.iwdg, i.ready, i.now);
      if rc == 0 then
        s.(wd := wd, cfg := s.cfg.(retunePending := false, retuneDoneOnce := true, retuneFailedLogged := false),
           clears := s.clears + 1, counterCleared := true)
      else if rc == -ENOTSUP || rc == -ENOTTY then
        s.(wd := wd, cfg := s.cfg.(retunePending := false, retuneDoneOnce := true, retuneFailedLogged := true))
      else s.(wd := wd, cfg := s.cfg.(retuneReadyTs := i.now + p.periodMs))
  }

  /** The clearing of the persisted counter; done is the retune flag as it was before this iteration's retune. */
  function ClearIfProven(s: State, done: bool, grace: bool, healthy: bool): State {
    if !s.counterCleared && done && !grace && healthy then s.(clears := s.clears + 1, counterCleared := true) else s
  }

  /** The feeding branch of the loop. */
  function FeedOrCount(s: State, grace: bool, healthy: bool, i: Input): State {
    if grace then
      s.(wd := if s.wd.enabled then Feed(s.wd, i.feedRc, i.now).1 else s.wd, failCount := 0)
    else if healthy then
      if !s.wd.enabled then s.(failCount := 0)
      else
        var (rc, wd) := Feed(s.wd, i.feedRc, i.now);
        if rc == 0 then s.(wd := wd, failCount := 0)
        else
          var n := if rc == -EBUSY || rc == -EAGAIN then s.failCount else s.failCount + 1;
          Escalate(s.(wd := wd), n)
    else Escalate(s, s.failCount + 1)
  }

  /** Three failures in a row make a recovery request. */
  function Escalate(s: State, n: nat): State {
    if n >= MAX_FAILURES then s.(requests := s.requests + 1, failCount := 0) else s.(failCount := n)
  }

  /** One pass of the loop in `supervisor_thread`. */
  function Iterate(p: Params, s: State, i: Input): State {
    var h := SampleHealth(p, s.cfg.monitorLed, s.ledLast, s.sysLast, i.now % WORD);
    var grace := InGrace(p, s, i.now);
    FeedOrCount(ClearIfProven(AttemptRetune(p, s, i), s.cfg.retuneDoneOnce, grace, Healthy(h)), grace, Healthy(h), i)
  }

  /** `update_retune_schedule_locked` */
  function Reschedule(cfg: Config, currentTimeoutMs: Word, now: int, immediately: bool): Config {
    var pending := cfg.desiredTimeoutMs != currentTimeoutMs;
    cfg.(retuneReadyTs := now + (if immediately then 0 else cfg.retuneDelayMs), retunePending := pending,
         retuneDoneOnce := cfg.retuneDoneOnce || !pending, retuneFailedLogged := false)
  }

  /** `supervisor_request_watchdog_target` */
  function RequestTarget(s: State, timeoutMs: Word, immediately: bool, now: int): State {
    s.(cfg := Reschedule(s.cfg.(desiredTimeoutMs := timeoutMs, retuneDoneOnce := false), s.wd.currentTimeoutMs, now, immediately),
       counterCleared := false)
  }

  /** `supervisor_start`, from the stamps left by an earlier notification and the watchdog as `watchdog_ctrl_init` left it. */
  function Start(wd: Watchdog, ledLast: Word, steadyTimeoutMs: Word, retuneDelayMs: Word, monitorLed: bool, now: nat): State {
    State(Reschedule(Config(steadyTimeoutMs, retuneDelayMs, 0, monitorLed, true, false, false), wd.currentTimeoutMs, now, false),
          if monitorLed then ledLast else now % WORD, now % WORD, now, false, 0, wd, 0, 0)
  }

  /** The file's statics with the calls it makes. */
  class Thread {
    const p: Params
    const watchdog: Controller
    var cfg: Config
    var ledLast: Word
    var sysLast: Word
    var bootTs: int
    var counterCleared: bool
    var failCount: nat
    var requests: nat
    var clears: nat

    ghost predicate Valid()
      reads this
    {
      watchdog.lsi == p.lsi && watchdog.iwdg == p.iwdg
    }

    function Now(): State
      reads this, watchdog
    {
      State(cfg, ledLast, sysLast, bootTs, counterCleared, failCount, watchdog.State(), requests, clears)
    }

    constructor (p: Params, watchdog: Controller)
      requires watchdog.lsi == p.lsi && watchdog.iwdg == p.iwdg
      ensures Valid() && this.p == p && this.watchdog == watchdog && ledLast == 0 && sysLast == 0
    {
      this.p, this.watchdog := p, watchdog;
      cfg := Config(0, 0, 0, false, false, false, false);
      ledLast, sysLast, bootTs, counterCleared, failCount, requests, clears := 0, 0, 0, false, 0, 0, 0;
    }

    method NotifyLedAlive(now: nat)
      modifies this`ledLast
      ensures ledLast == now % WORD
    {
      ledLast := now % WORD;
    }

    method NotifySystemAlive(now: nat)
      modifies this`sysLast
      ensures sysLast == now % WORD
    {
      sysLast := now % WORD;
    }

    method UpdateRetuneSchedule(immediately: bool, now: int)
      modifies this`cfg
      ensures cfg == Reschedule(old(cfg), watchdog.currentTimeoutMs, now, immediately)
    {
      cfg := cfg.(retuneReadyTs := now + (if immediately then 0 else cfg.retuneDelayMs));
      cfg := cfg.(retunePending := cfg.desiredTimeoutMs != watchdog.currentTimeoutMs);
      if !cfg.retunePending {
        cfg := cfg.(retuneDoneOnce := true);
      }
      cfg := cfg.(retuneFailedLogged := false);
    }

    method Begin(steadyTimeoutMs: Word, retuneDelayMs: Word, monitorLed: bool, now: nat)
      requires Valid()
      modifies this
      ensures Valid() && Now() == Start(watchdog.State(), old(ledLast), steadyTimeoutMs, retuneDelayMs, monitorLed, now)
    {
      bootTs := now;
      counterCleared := false;
      NotifySystemAlive(now);
      if !monitorLed {
        NotifyLedAlive(now);
      }
      cfg := Config(steadyTimeoutMs, retuneDelayMs, 0, monitorLed, true, false, false);
      UpdateRetuneSchedule(false, now);
      failCount, requests, clears := 0, 0, 0;
    }

    method Request(timeoutMs: Word, immediately: bool, now: int)
      requires Valid()
      modifies this
      ensures Valid() && Now() == RequestTarget(old(Now()), timeoutMs, immediately, now)
    {
      cfg := cfg.(desiredTimeoutMs := timeoutMs, retuneDoneOnce := false);
      counterCleared := false;
      UpdateRetuneSchedule(immediately, now);
    }

    method TryRetune(snapshot: Config, i: Input)
      requires Valid() && snapshot == cfg
      modifies this, watchdog
      ensures Valid() && Now() == AttemptRetune(p, old(Now()), i)
    {
      hide Retune;
      if !snapshot.retunePending || i.now < snapshot.retuneReadyTs {
        return;
      }
      var rc := watchdog.RetuneTo(snapshot.desiredTimeoutMs, i.ready, i.now);
      if rc == 0 {
        cfg := cfg.(retunePending := false, retuneDoneOnce := true, retuneFailedLogged := false);
        clears := clears + 1;
        counterCleared := true;
        return;
      }
      if rc == -ENOTSUP || rc == -ENOTTY {
        cfg := cfg.(retunePending := false, retuneDoneOnce := true, retuneFailedLogged := true);
        return;
      }
      cfg := cfg.(retuneReadyTs := i.now + p.periodMs);
    }

    /** `feed_watchdog` with the address of the failure counter. */
    method FeedCounting(i: Input) returns (fed: bool)
      requires Valid()
      modifies this`failCount, watchdog
      ensures var (rc, wd) := Feed(old(watchdog.State()), i.feedRc, i.now);
        && watchdog.State() == wd && fed == (rc == 0)
        && failCount == if rc == 0 || rc == -EBUSY || rc == -EAGAIN then old(failCount) else old(failCount) + 1
    {
      var ret := watchdog.FeedNow(i.feedRc, i.now);
      if ret == 0 {
        return true;
      }
      if ret == -EBUSY || ret == -EAGAIN {
        return false;
      }
      failCount := failCount + 1;
      return false;
    }

    method RequestRecoveryIfExhausted()
      modifies this`failCount, this`requests
      ensures Now() == Escalate(old(Now()), old(failCount))
    {
      if failCount >= MAX_FAILURES {
        requests := requests + 1;
        failCount := 0;
      }
    }

    /** The loop body. */
    method Pass(i: Input)
      requires Valid()
      modifies this, watchdog
      ensures Valid() && Now() == Iterate(p, old(Now()), i)
    {
      hide AttemptRetune, FeedOrCount, SampleHealth;
      var snapshot := cfg;
      var now32 := i.now % WORD;
      var h := SampleHealth(p, snapshot.monitorLed, ledLast, sysLast, now32);
      var inBootGrace := i.now - bootTs < p.graceMs;
      TryRetune(snapshot, i);
      if !counterCleared && snapshot.retuneDoneOnce && !inBootGrace && h.ledOk && h.hbOk {
        clears := clears + 1;
        counterCleared := true;
      }
      FeedStep(inBootGrace, h.ledOk && h.hbOk, i);
    }

    /** The second half of the loop body. */
    method FeedStep(inBootGrace: bool, healthy: bool, i: Input)
      requires Valid()
      modifies this, watchdog
      ensures Valid() && Now() == FeedOrCount(old(Now()), inBootGrace, healthy, i)
    {
      hide Feed;
      if inBootGrace {
        if watchdog.feedEnabled {
          var rc := watchdog.FeedNow(i.feedRc, i.now);
        }
        failCount := 0;
      } else if healthy {
        if watchdog.feedEnabled {
          var fed := FeedCounting(i);
          if fed {
            failCount := 0;
          } else {
            RequestRecoveryIfExhausted();
          }
        } else {
          failCount := 0;
        }
      } else {
        failCount := failCount + 1;
        RequestRecoveryIfExhausted();
      }
    }
  }
}
