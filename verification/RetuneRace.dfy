/**
 * The supervisor's pass in its four atomic steps, with other threads acting in between: src/supervisor.c takes a snapshot
 * of the configuration, retunes without the lock, and then writes the outcome into whatever the configuration has become.
 */
module RetuneRace {
  import opened Bytes
  import opened Results
  import opened WatchdogCtrl
  import opened Supervisor
  import opened SupervisorRuns
  import opened RetuneRuns

  /** Where the thread stands in its loop, with its snapshot, what the pass meets, and the answer of the retune. */
  datatype Phase = AtHead | Holding(snapshot: Config, i: Input) | Answered(snapshot: Config, i: Input, rc: int) | Updated(snapshot: Config, i: Input)

  datatype System = System(s: State, phase: Phase)

  /** The four steps of the thread, and an event of another thread. */
  datatype Action = Snap(i: Input) | Call | WriteBack | Finish | Other(e: Event)

  predicate Due(snapshot: Config, i: Input) {
    snapshot.retunePending && i.now >= snapshot.retuneReadyTs
  }

  /** The locked update at the end of `attempt_watchdog_retune`. */
  function Update(p: Params, s: State, i: Input, rc: int): State {
    if rc == 0 then
      s.(cfg := s.cfg.(retunePending := false, retuneDoneOnce := true, retuneFailedLogged := false), clears := s.clears + 1, counterCleared := true)
    else if rc == -ENOTSUP || rc == -ENOTTY then s.(cfg := s.cfg.(retunePending := false, retuneDoneOnce := true, retuneFailedLogged := true))
    else s.(cfg := s.cfg.(retuneReadyTs := i.now + p.periodMs))
  }

  /** The rest of the loop body, which goes on using the snapshot. */
  function RestOfPass(p: Params, s: State, snapshot: Config, i: Input): State {
    var h := SampleHealth(p, snapshot.monitorLed, s.ledLast, s.sysLast, i.now % WORD);
    var grace := InGrace(p, s, i.now);
    FeedOrCount(ClearIfProven(s, snapshot.retuneDoneOnce, grace, Healthy(h)), grace, Healthy(h), i)
  }

  /** An action its thread is not ready for changes nothing. */
  function Act(p: Params, y: System, a: Action): System {
    match (a, y.phase)
    case (Snap(i), AtHead) => y.(phase := Holding(y.s.cfg, i))
    case (Call, Holding(c, i)) =>
      if !Due(c, i) then y.(phase := Updated(c, i))
      else
        var (rc, wd) := Retune(y.s.wd, c.desiredTimeoutMs, p.lsi, p.iwdg, i.ready, i.now);
        System(y.s.(wd := wd), Answered(c, i, rc))
    case (WriteBack, Answered(c, i, rc)) => System(Update(p, y.s, i, rc), Updated(c, i))
    case (Finish, Updated(c, i)) => System(RestOfPass(p, y.s, c, i), AtHead)
    case (Other(e), _) => if e.Tick? then y else y.(s := Next(p, y.s, e))
    case _ => y
  }

  function ActAll(p: Params, y: System, actions: seq<Action>): System
    decreases |actions|
  {
    if actions == [] then y else ActAll(p, Act(p, y, actions[0]), actions[1..])
  }

  // ---- a pass that nobody overtakes ----

  /** The four steps in a row are the pass of `supervisor_thread` as one step. */
  lemma UndisturbedPass(p: Params, s: State, i: Input)
    ensures Act(p, Act(p, Act(p, Act(p, System(s, AtHead), Snap(i)), Call), WriteBack), Finish) == System(Iterate(p, s, i), AtHead)
  {
    hide Retune, SampleHealth, FeedOrCount, ClearIfProven;
    RetuneInSteps(p, s, i);
    SamePlace(p, s, i);
    hide AttemptRetune, Update;
  }

  lemma RetuneInSteps(p: Params, s: State, i: Input)
    ensures AttemptRetune(p, s, i) ==
      if !Due(s.cfg, i) then s
      else
        var (rc, wd) := Retune(s.wd, s.cfg.desiredTimeoutMs, p.lsi, p.iwdg, i.ready, i.now);
        Update(p, s.(wd := wd), i, rc)
  {
    hide Retune;
  }

  lemma SamePlace(p: Params, s: State, i: Input)
    ensures var t := AttemptRetune(p, s, i);
      t.ledLast == s.ledLast && t.sysLast == s.sysLast && t.bootTs == s.bootTs
  {
    hide Retune;
  }

  // ---- what a write-back may lose ----

  /** The bookkeeping between the actions: settled but while the answer 0 of a retune waits to be written back. */
  ghost predicate Kept(p: Params, y: System) {
    && (y.s.cfg.retuneDoneOnce <==> !y.s.cfg.retunePending)
    && (y.s.cfg.retuneFailedLogged ==> !p.iwdg)
    && (if y.phase.Answered? && y.phase.rc == 0 then y.s.wd.currentTimeoutMs == y.phase.snapshot.desiredTimeoutMs
        else RetuneSettled(p, y.s))
    && (y.phase.Answered? && (y.phase.rc == -ENOTSUP || y.phase.rc == -ENOTTY) ==> !p.iwdg)
  }

  /** The action writes the answer 0 back over a target that is not the one the answer is for. */
  predicate Overtaken(y: System, a: Action) {
    a.WriteBack? && y.phase.Answered? && y.phase.rc == 0 && y.s.cfg.desiredTimeoutMs != y.phase.snapshot.desiredTimeoutMs
  }

  lemma OtherKeepsTimeout(p: Params, s: State, e: Event)
    requires !e.Tick?
    ensures var t := Next(p, s, e);
      && t.wd.currentTimeoutMs == s.wd.currentTimeoutMs && t.wd.channel == s.wd.channel
      && t.cfg.desiredTimeoutMs == (if e.Retarget? then e.timeoutMs else s.cfg.desiredTimeoutMs)
      && (!e.Retarget? ==> t.cfg == s.cfg)
  {
    hide Feed;
    if e.Enable? {
      FeedKeepsTimeout(s.wd.(enabled := true), e.driverRc, e.at);
    }
  }

  lemma RestKeepsRetune(p: Params, s: State, snapshot: Config, i: Input)
    ensures var t := RestOfPass(p, s, snapshot, i); t.cfg == s.cfg && t.wd.currentTimeoutMs == s.wd.currentTimeoutMs
  {
    hide SampleHealth, FeedOrCount;
    var grace, healthy := InGrace(p, s, i.now), Healthy(SampleHealth(p, snapshot.monitorLed, s.ledLast, s.sysLast, i.now % WORD));
    FeedingKeeps(ClearIfProven(s, snapshot.retuneDoneOnce, grace, healthy), grace, healthy, i);
  }

  /** Every action of any thread keeps the bookkeeping, exactly unless it writes back over another target. */
  lemma ActKeeps(p: Params, y: System, a: Action)
    requires Kept(p, y)
    ensures Kept(p, Act(p, y, a)) <==> !Overtaken(y, a)
  {
    hide RestOfPass, Next, Retune;
    match (a, y.phase)
    case (Call, Holding(c, i)) =>
      RetuneMeaning(y.s.wd, c.desiredTimeoutMs, p.lsi, p.iwdg, i.ready, i.now);
      hide Chosen, Ticks, Fits;
    case (Finish, Updated(c, i)) => RestKeepsRetune(p, y.s, c, i);
    case (Other(e), _) =>
      if !e.Tick? {
        OtherKeepsTimeout(p, y.s, e);
        OtherKeepsBookkeeping(p, y.s, e);
      }
    case _ =>
  }

  lemma OtherKeepsBookkeeping(p: Params, s: State, e: Event)
    requires !e.Tick? && (s.cfg.retuneDoneOnce <==> !s.cfg.retunePending) && (s.cfg.retuneFailedLogged ==> !p.iwdg)
    ensures var t := Next(p, s, e);
      && (t.cfg.retuneDoneOnce <==> !t.cfg.retunePending) && (t.cfg.retuneFailedLogged ==> !p.iwdg)
      && (RetuneSettled(p, s) ==> RetuneSettled(p, t))
  {
    hide Feed;
    if e.Enable? {
      FeedKeepsTimeout(s.wd.(enabled := true), e.driverRc, e.at);
    }
  }

  /** No action of the run writes back over another target. */
  predicate NeverOvertaken(p: Params, y: System, actions: seq<Action>)
    decreases |actions|
  {
    actions == [] || (!Overtaken(y, actions[0]) && NeverOvertaken(p, Act(p, y, actions[0]), actions[1..]))
  }

  /** In every interleaving in which no request overtakes a retune, retuning is over only when the wanted timeout is in force or cannot be. */
  lemma {:induction false} SettledUnlessOvertaken(p: Params, y: System, actions: seq<Action>)
    requires Kept(p, y) && NeverOvertaken(p, y, actions)
    ensures Kept(p, ActAll(p, y, actions))
    ensures !ActAll(p, y, actions).phase.Answered? ==> RetuneSettled(p, ActAll(p, y, actions).s)
    decreases |actions|
  {
    hide Act, Overtaken, RetuneSettled;
    if actions != [] {
      ActKeeps(p, y, actions[0]);
      SettledUnlessOvertaken(p, Act(p, y, actions[0]), actions[1..]);
    }
  }

  // ---- the request that is lost ----

  /** The wanted timeout is not in force, and nothing is pending that would put it in force. */
  predicate Lost(s: State) {
    !s.cfg.retunePending && s.cfg.desiredTimeoutMs != s.wd.currentTimeoutMs
  }

  /** Lost, with no retune on its way. */
  predicate Forgotten(y: System) {
    Lost(y.s) && !y.phase.Answered? && (y.phase.Holding? ==> !Due(y.phase.snapshot, y.phase.i))
  }

  /**
   * A target requested between the retune of a pass and its write-back is forgotten, unless it is the one just put in
   * force: the write-back declares retuning over, and the persisted count is taken back for a target never reached.
   */
  lemma RequestIsLost(p: Params, s: State, i: Input, target: Word, immediately: bool, at: int)
    requires CanRetune(p, s, i)
    ensures var y := Act(p, Act(p, Act(p, Act(p, System(s, AtHead), Snap(i)), Call), Other(Retarget(target, immediately, at))), WriteBack);
      && y.s.cfg.desiredTimeoutMs == target && y.s.wd.currentTimeoutMs == s.cfg.desiredTimeoutMs && y.s.counterCleared
      && (Forgotten(y) <==> target != s.cfg.desiredTimeoutMs)
  {
    RetuneMeaning(s.wd, s.cfg.desiredTimeoutMs, p.lsi, p.iwdg, i.ready, i.now);
    hide Retune, Chosen, Ticks, Fits;
  }

  predicate NoRequest(actions: seq<Action>) {
    forall a :: a in actions ==> !(a.Other? && a.e.Retarget?)
  }

  lemma ActKeepsForgotten(p: Params, y: System, a: Action)
    requires Forgotten(y) && !(a.Other? && a.e.Retarget?)
    ensures var y' := Act(p, y, a); Forgotten(y') && y'.s.cfg.desiredTimeoutMs == y.s.cfg.desiredTimeoutMs
  {
    hide RestOfPass, Next, Retune;
    match (a, y.phase)
    case (Finish, Updated(c, i)) => RestKeepsRetune(p, y.s, c, i);
    case (Other(e), _) =>
      if !e.Tick? {
        OtherKeepsTimeout(p, y.s, e);
      }
    case _ =>
  }

  /** A forgotten target does not come into force, however many passes follow, until another request is made. */
  lemma {:induction false} LostForEver(p: Params, y: System, actions: seq<Action>)
    requires Forgotten(y) && NoRequest(actions)
    ensures var y' := ActAll(p, y, actions);
      y'.s.cfg.desiredTimeoutMs == y.s.cfg.desiredTimeoutMs && y'.s.wd.currentTimeoutMs != y.s.cfg.desiredTimeoutMs
    decreases |actions|
  {
    hide Act;
    if actions != [] {
      assert actions[0] in actions;
      assert forall a :: a in actions[1..] ==> a in actions;
      ActKeepsForgotten(p, y, actions[0]);
      LostForEver(p, Act(p, y, actions[0]), actions[1..]);
    }
  }
}
