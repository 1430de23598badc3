/** The hardware watchdog of src/watchdog_ctrl.c: prescaler arithmetic, and the driver state behind feeding and retuning. */
module WatchdogCtrl {
  import opened Bytes
  import opened Results

  const RELOAD_MAX: nat := 0x0FFF
  const PRESCALER_MIN: nat := 4
  const PRESCALER_MAX: nat := 256

  /** A prescaler code and a reload value; together they stand for a number of clock ticks. */
  datatype Setting = Setting(prescaler: nat, reload: nat) {
    function Period(): nat {
      (reload + 1) * Divider(prescaler)
    }
  }

  /** 4 << code */
  function Divider(code: nat): (d: nat)
    ensures d >= 4
  {
    if code == 0 then PRESCALER_MIN else 2 * Divider(code - 1)
  }

  /** The ticks asked for, through the 64-bit product and the 32-bit variable that receives the quotient. */
  function Ticks(timeoutMs: Word, lsi: Word): Word {
    timeoutMs * 1000 * lsi % 0x1_0000_0000_0000_0000 / 1000000 % WORD
  }

  /** The least workable prescaler for a number of ticks, and the largest reload that does not exceed it. */
  function Chosen(ticks: nat): Option<Setting> {
    if ticks < 4 || ticks >= 0x10_0000 then None
    else Some(Setting(Code(ticks), ticks / Divider(Code(ticks)) - 1))
  }

  /** How often 4 has to be doubled until the quotient fits in the reload register. */
  function Code(ticks: nat): (c: nat)
    ensures ticks >= 4 ==> ticks >= Divider(c)
  {
    Dividers();
    if ticks < 0x4000 then 0 else if ticks < 0x8000 then 1 else if ticks < 0x1_0000 then 2
    else if ticks < 0x2_0000 then 3 else if ticks < 0x4_0000 then 4 else if ticks < 0x8_0000 then 5 else 6
  }

  lemma Dividers()
    ensures Divider(0) == 4 && Divider(1) == 8 && Divider(2) == 16 && Divider(3) == 32
    ensures Divider(4) == 64 && Divider(5) == 128 && Divider(6) == 256 && Divider(7) == 512
  {}

  function Quotient(ticks: nat, divider: nat): nat
    requires divider > 0
  {
    ticks / divider
  }

  /** The least shift that fits is what `Chosen` picks, and there is none beyond 6. */
  lemma LeastShiftIsChosen(ticks: Word, shift: nat, q: nat)
    requires shift <= 6 && q == Quotient(ticks, Divider(shift)) && q <= RELOAD_MAX
    requires forall c :: 0 <= c < shift ==> Quotient(ticks, Divider(c)) > RELOAD_MAX
    ensures Chosen(ticks) == if q == 0 then None else Some(Setting(shift, q - 1))
  {
    Dividers();
    hide Divider;
    if shift > 0 {
      assert Quotient(ticks, Divider(shift - 1)) > RELOAD_MAX;
    }
  }

  lemma TooManyTicks(ticks: Word)
    requires Quotient(ticks, Divider(6)) > RELOAD_MAX
    ensures Chosen(ticks) == None
  {
    Dividers();
    hide Divider;
  }

  /** `stm32_iwdg_compute`: the loop ends, and finds `Chosen`. The clamp of the reload value is never taken. */
  method Compute(timeoutMs: Word, lsi: Word) returns (rc: int, prescaler: nat, reload: nat)
    ensures rc == if Chosen(Ticks(timeoutMs, lsi)).None? then -EINVAL else 0
    ensures rc == 0 ==> Chosen(Ticks(timeoutMs, lsi)) == Some(Setting(prescaler, reload))
  {
    hide Ticks, Chosen, Divider, Quotient;
    Dividers();
    var ticks := Ticks(timeoutMs, lsi);
    prescaler, reload := 0, 0;
    var divider, shift := PRESCALER_MIN, 0;
    while Quotient(ticks, divider) > RELOAD_MAX
      invariant shift <= 6 && divider == Divider(shift)
      invariant forall c :: 0 <= c < shift ==> Quotient(ticks, Divider(c)) > RELOAD_MAX
      decreases 7 - shift
    {
      DoubledDivider(shift);
      shift := shift + 1;
      divider := 2 * divider;
      if divider > PRESCALER_MAX {
        TooManyTicks(ticks);
        return -EINVAL, 0, 0;
      }
    }
    var value := Quotient(ticks, divider);
    LeastShiftIsChosen(ticks, shift, value);
    if value == 0 {
      return -EINVAL, 0, 0;
    }
    value := value - 1;
    assert value < RELOAD_MAX;
    if value > RELOAD_MAX {
      value := RELOAD_MAX;
    }
    return 0, shift, value;
  }

  lemma DoubledDivider(shift: nat)
    requires shift <= 6
    ensures Divider(shift + 1) == 2 * Divider(shift) && (2 * Divider(shift) > PRESCALER_MAX <==> shift == 6)
  {
    Dividers();
  }

  /**
   * A chosen setting never lasts longer than asked and falls short by less than one divider; no smaller
   * prescaler would fit, and with any but the smallest the reload register is at least half full.
   */
  lemma ChosenIsTight(ticks: nat)
    requires Chosen(ticks).Some?
    ensures var s := Chosen(ticks).value;
      && s.prescaler <= 6 && s.reload < RELOAD_MAX
      && s.Period() <= ticks < s.Period() + Divider(s.prescaler)
      && (forall c :: 0 <= c < s.prescaler ==> ticks / Divider(c) > RELOAD_MAX)
      && (s.prescaler > 0 ==> s.reload + 1 >= 2048)
  {
    Dividers();
  }

  /**
   * With the 32 kHz clock the tick count wraps exactly from 2^27 ms on, and exactly the timeouts of 1 to
   * 32767 ms modulo 2^27 can be programmed.
   */
  lemma Programmable(timeoutMs: Word)
    ensures Ticks(timeoutMs, 32000) == 32 * (timeoutMs % 0x800_0000)
    ensures Ticks(timeoutMs, 32000) == 32 * timeoutMs <==> timeoutMs < 0x800_0000
    ensures Chosen(Ticks(timeoutMs, 32000)).Some? <==> 1 <= timeoutMs % 0x800_0000 <= 32767
  {
    var t := timeoutMs;
    assert t * 1000 * 32000 < 0x1_0000_0000_0000_0000;
    assert t * 1000 * 32000 / 1000000 == 32 * t;
    assert 32 * t % WORD == 32 * (t % 0x800_0000);
    hide Ticks;
    assert t % 0x800_0000 == t <==> t < 0x800_0000;
  }

  /** The tick count is the timeout times the clock, in whole ticks, exactly while that fits in 32 bits. */
  lemma TicksOfTimeout(timeoutMs: Word, lsi: Word)
    ensures Ticks(timeoutMs, lsi) == timeoutMs * lsi / 1000 <==> timeoutMs * lsi / 1000 < WORD
  {
    var n := timeoutMs * lsi;
    hide Ticks;
    if n / 1000 < WORD {
      TicksOfProduct(timeoutMs, lsi, n);
    }
  }

  lemma TicksOfProduct(timeoutMs: Word, lsi: Word, n: nat)
    requires n == timeoutMs * lsi && n / 1000 < WORD
    ensures Ticks(timeoutMs, lsi) == n / 1000
  {
    Reordered(timeoutMs, lsi);
    InTicks(timeoutMs * 1000 * lsi, n);
  }

  lemma InTicks(product: nat, n: nat)
    requires product == 1000 * n && n / 1000 < WORD
    ensures product % 0x1_0000_0000_0000_0000 / 1000000 % WORD == n / 1000
  {
    assert product < 0x1_0000_0000_0000_0000;
    assert product / 1000000 == n / 1000;
  }

  lemma Reordered(a: nat, b: nat)
    ensures a * 1000 * b == 1000 * (a * b)
  {}

  /** The steady timeout of the default build, 2000 ms at 32 kHz: prescaler code 2, a divider of 16, and reload value 3999. */
  lemma SteadyDefault()
    ensures Chosen(Ticks(2000, 32000)) == Some(Setting(2, 3999)) && Setting(2, 3999).Period() == 64000
  {
    Dividers();
    assert Ticks(2000, 32000) == 64000;
  }

  /** Above 2^27 ms the tick count wraps: a day and a half is accepted and programmed as one millisecond. */
  lemma LongTimeoutWraps()
    ensures Chosen(Ticks(0x800_0001, 32000)) == Some(Setting(0, 7))
  {
    assert Ticks(0x800_0001, 32000) == 32;
  }

  // ---- the driver ----

  /** The running counter: how many ticks it was last set to, and when (in milliseconds) it was last reloaded. */
  datatype Hardware = Hardware(period: nat, lastReload: int)

  /** At time now the counter has run down. */
  predicate Expired(hw: Hardware, lsi: Word, now: int) {
    (now - hw.lastReload) * lsi >= hw.period * 1000
  }

  datatype Watchdog = Watchdog(channel: int, enabled: bool, currentTimeoutMs: Word, hw: Hardware)

  /** `watchdog_ctrl_feed`; driverRc is what `wdt_feed` would answer. */
  function Feed(w: Watchdog, driverRc: int, now: int): (int, Watchdog) {
    if w.channel < 0 then (-EAGAIN, w)
    else if !w.enabled then (-EBUSY, w)
    else (driverRc, if driverRc == 0 then w.(hw := w.hw.(lastReload := now)) else w)
  }

  /** `watchdog_ctrl_retune`; iwdg tells the build with the hardware register block, ready whether the registers update in time. */
  function Retune(w: Watchdog, timeoutMs: Word, lsi: Word, iwdg: bool, ready: bool, now: int): (int, Watchdog) {
    if w.channel < 0 then (-EAGAIN, w)
    else if timeoutMs == 0 then (-EINVAL, w)
    else if timeoutMs == w.currentTimeoutMs then (0, w)
    else if !iwdg then (-ENOTSUP, w)
    else
      match Chosen(Ticks(timeoutMs, lsi))
      case None => (-EINVAL, w)
      case Some(s) =>
        if !ready then (-EAGAIN, w.(hw := w.hw.(period := s.Period())))
        else (0, w.(currentTimeoutMs := timeoutMs, hw := Hardware(s.Period(), now)))
  }

  /** The counter's period is one that prescaler and reload register can be set to, does not exceed the timeout, and falls short of it by less than one count. */
  ghost predicate Fits(period: nat, timeoutMs: Word, lsi: Word) {
    exists code: nat, reload: nat :: code <= 6 && reload < RELOAD_MAX && IsSetTo(period, code, reload, Ticks(timeoutMs, lsi))
  }

  /** 4 << code clock ticks make a count, and one count more would be too many. */
  predicate IsSetTo(period: nat, code: nat, reload: nat, ticks: nat) {
    period == (reload + 1) * Divider(code) && period <= ticks < period + Divider(code)
  }

  lemma ChosenFits(timeoutMs: Word, lsi: Word)
    requires Chosen(Ticks(timeoutMs, lsi)).Some?
    ensures Fits(Chosen(Ticks(timeoutMs, lsi)).value.Period(), timeoutMs, lsi)
  {
    hide Chosen, Ticks;
    var s := Chosen(Ticks(timeoutMs, lsi)).value;
    ChosenIsTight(Ticks(timeoutMs, lsi));
    assert IsSetTo(s.Period(), s.prescaler, s.reload, Ticks(timeoutMs, lsi));
  }

  /** The answer of a retuning, by the first thing that stands in its way. */
  function RetuneCode(w: Watchdog, timeoutMs: Word, lsi: Word, iwdg: bool, ready: bool): int {
    if w.channel < 0 then -EAGAIN
    else if timeoutMs == 0 then -EINVAL
    else if timeoutMs == w.currentTimeoutMs then 0
    else if !iwdg then -ENOTSUP
    else if Chosen(Ticks(timeoutMs, lsi)).None? then -EINVAL
    else if !ready then -EAGAIN else 0
  }

  /**
   * What a retuning comes to: the timeout reported as in force is the one asked for exactly after an answer of
   * 0, and when it changed, the counter fits it and has been reloaded; any other answer leaves the counter
   * running as it was, except that registers which did not update in time have already been given the new period.
   */
  lemma RetuneMeaning(w: Watchdog, timeoutMs: Word, lsi: Word, iwdg: bool, ready: bool, now: int)
    ensures var (rc, w') := Retune(w, timeoutMs, lsi, iwdg, ready, now);
      && rc == RetuneCode(w, timeoutMs, lsi, iwdg, ready) && w'.channel == w.channel && w'.enabled == w.enabled
      && w'.currentTimeoutMs == (if rc == 0 then timeoutMs else w.currentTimeoutMs)
      && w'.hw.lastReload == (if rc == 0 && timeoutMs != w.currentTimeoutMs then now else w.hw.lastReload)
      && (if timeoutMs != w.currentTimeoutMs && RetuneCode(w, timeoutMs, lsi, iwdg, true) == 0 then Fits(w'.hw.period, timeoutMs, lsi)
          else w'.hw.period == w.hw.period)
  {
    hide Chosen, Ticks, Fits;
    if Chosen(Ticks(timeoutMs, lsi)).Some? {
      ChosenFits(timeoutMs, lsi);
    }
  }

  /** The statics of the file and the registers they drive. */
  class Controller {
    const lsi: Word
    const iwdg: bool
    var channel: int
    var feedEnabled: bool
    var currentTimeoutMs: Word
    var hw: Hardware

    constructor (lsi: Word, iwdg: bool)
      ensures this.lsi == lsi && this.iwdg == iwdg
      ensures State() == Watchdog(-1, true, 0, Hardware(0, 0))
    {
      this.lsi, this.iwdg := lsi, iwdg;
      channel, feedEnabled, currentTimeoutMs, hw := -1, true, 0, Hardware(0, 0);
    }

    function State(): Watchdog
      reads this
    {
      Watchdog(channel, feedEnabled, currentTimeoutMs, hw)
    }

    /** `watchdog_ctrl_init`; the driver answers and the ticks it programs for the timeout are given. */
    method Init(timeoutMs: Word, deviceReady: bool, installRc: int, setupRc: int, driverTicks: nat, feedRc: int, now: int) returns (rc: int)
      modifies this
      ensures !deviceReady ==> rc == -ENODEV && State() == old(State())
      ensures deviceReady && old(channel) < 0 && installRc < 0 ==> rc == installRc && State() == old(State())
      ensures deviceReady && !(old(channel) < 0 && installRc < 0) ==>
        var installed := old(State()).(channel := if old(channel) < 0 then installRc else old(channel));
        if setupRc != 0 then rc == setupRc && State() == installed
        else (rc, State()) == Feed(installed.(currentTimeoutMs := timeoutMs, hw := Hardware(driverTicks, now)), feedRc, now)
    {
      if !deviceReady {
        return -ENODEV;
      }
      if channel < 0 {
        if installRc < 0 {
          return installRc;
        }
        channel := installRc;
      }
      if setupRc != 0 {
        return setupRc;
      }
      hw := Hardware(driverTicks, now);
      currentTimeoutMs := timeoutMs;
      rc := FeedNow(feedRc, now);
    }

    method FeedNow(driverRc: int, now: int) returns (rc: int)
      modifies this
      ensures (rc, State()) == Feed(old(State()), driverRc, now)
      ensures rc == if channel < 0 then -EAGAIN else if !feedEnabled then -EBUSY else driverRc
      ensures rc == 0 && channel >= 0 && feedEnabled ==> hw == old(hw).(lastReload := now)
      ensures rc != 0 ==> hw == old(hw)
    {
      if channel < 0 {
        return -EAGAIN;
      }
      if !feedEnabled {
        return -EBUSY;
      }
      if driverRc == 0 {
        hw := hw.(lastReload := now);
      }
      return driverRc;
    }

    method SetEnabled(enable: bool, driverRc: int, now: int)
      modifies this
      ensures State() == if enable then Feed(old(State()).(enabled := true), driverRc, now).1 else old(State()).(enabled := false)
    {
      feedEnabled := enable;
      if enable {
        var rc := FeedNow(driverRc, now);
      }
    }

    /** `watchdog_ctrl_retune` with `stm32_iwdg_retune_hw` */
    method RetuneTo(timeoutMs: Word, ready: bool, now: int) returns (rc: int)
      modifies this
      ensures (rc, State()) == Retune(old(State()), timeoutMs, lsi, iwdg, ready, now)
      ensures rc == RetuneCode(old(State()), timeoutMs, lsi, iwdg, ready)
      ensures rc == 0 ==> currentTimeoutMs == timeoutMs
      ensures rc == 0 && timeoutMs != old(currentTimeoutMs) ==> hw.lastReload == now && Fits(hw.period, timeoutMs, lsi)
      ensures rc == 0 && timeoutMs == old(currentTimeoutMs) ==> hw == old(hw)
      ensures rc != 0 ==> currentTimeoutMs == old(currentTimeoutMs) && hw.lastReload == old(hw.lastReload)
    {
      hide Fits;
      RetuneMeaning(State(), timeoutMs, lsi, iwdg, ready, now);
      if channel < 0 {
        return -EAGAIN;
      }
      if timeoutMs == 0 {
        return -EINVAL;
      }
      if timeoutMs == currentTimeoutMs {
        return 0;
      }
      if !iwdg {
        return -ENOTSUP;
      }
      var prescaler, reload;
      rc, prescaler, reload := Compute(timeoutMs, lsi);
      if rc != 0 {
        return rc;
      }
      hw := hw.(period := Setting(prescaler, reload).Period());
      if !ready {
        return -EAGAIN;
      }
      hw := hw.(lastReload := now);
      currentTimeoutMs := timeoutMs;
      return 0;
    }
  }
}
