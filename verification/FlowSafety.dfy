/** What every history of runs and of people's work between them keeps. */
module FlowSafety {
  import opened FlowModel

  ghost predicate IsPromotion(e: Event) {
    e.Merged? && (e.into == Staging || e.into == Release)
  }

  /** CI passed on `release` with contents `what` and nothing was promoted since. */
  ghost predicate Tested(log: seq<Event>, what: Commits) {
    exists j :: 0 <= j < |log| && log[j] == CiPassed(Release, what)
                && forall k :: j < k < |log| ==> !IsPromotion(log[k])
  }

  /** Only tested release contents ever entered main, and where a push was wanted the state was cleared
      only straight after pushing exactly the branches it was cleared with. */
  ghost predicate Safe(log: seq<Event>) {
    && (forall i :: 0 <= i < |log| && log[i].Merged? && log[i].into == Main ==>
          log[i].from == Release && Tested(log[..i], log[i].what))
    && (forall i :: 0 <= i < |log| && log[i].Cleared? && log[i].pushWanted ==>
          i > 0 && log[i - 1] == Pushed(log[i].tips))
  }

  ghost predicate AtPhase(w: World, p: Phase) {
    w.saved.Present? && w.saved.phase == p
  }

  ghost predicate Inv(w: World) {
    && Safe(w.log)
    && (AtPhase(w, CiGate) ==> w.head == Release && w.pending == Settled)
    && (AtPhase(w, Finishing) ==> Tested(w.log, w.tips.release))
    && (w.pending.Conflicted? ==>
          || (AtPhase(w, Promoting) && w.head == Staging && w.pending.from == Develop)
          || (AtPhase(w, Promoting) && w.head == Release && w.pending.from == Staging)
          || (AtPhase(w, Finishing) && w.head == Main && w.pending == Conflicted(Release, w.tips.release))
          || (AtPhase(w, Finishing) && w.head == Develop && w.pending.from == Main))
  }

  /** What holds besides `Inv` when a run that is not a dry run is about to make effect `pc`. */
  ghost predicate AtPlace(pc: nat, w: World, cfg: Config) {
    && (1 <= pc <= 1 ==> w.pending == Settled)
    && (2 <= pc <= 6 ==> AtPhase(w, Promoting))
    && (3 <= pc <= 6 ==> w.pending == Settled)
    && (pc == 3 ==> w.head == Staging)
    && (5 <= pc <= 6 ==> w.head == Release)
    && (7 <= pc <= 8 ==> AtPhase(w, CiGate))
    && (pc == 8 ==> Tested(w.log, w.tips.release))
    && (9 <= pc <= 14 ==> AtPhase(w, Finishing))
    && (10 <= pc ==> w.pending == Settled)
    && (pc == 10 ==> w.head == Main)
    && (12 <= pc ==> w.head == Develop)
    && (pc == 14 && cfg.push ==> |w.log| > 0 && w.log[|w.log| - 1] == Pushed(w.tips))
  }

  lemma TestedStays(log: seq<Event>, e: Event, what: Commits)
    requires Tested(log, what) && !IsPromotion(e)
    ensures Tested(log + [e], what)
  {
    var j :| 0 <= j < |log| && log[j] == CiPassed(Release, what) && forall k :: j < k < |log| ==> !IsPromotion(log[k]);
    assert (log + [e])[j] == CiPassed(Release, what);
  }

  lemma PassIsTested(log: seq<Event>, what: Commits)
    ensures Tested(log + [CiPassed(Release, what)], what)
  {
    assert (log + [CiPassed(Release, what)])[|log|] == CiPassed(Release, what);
  }

  lemma SafeStays(log: seq<Event>, e: Event)
    requires Safe(log)
    requires e.Merged? && e.into == Main ==> e.from == Release && Tested(log, e.what)
    requires e.Cleared? && e.pushWanted ==> |log| > 0 && log[|log| - 1] == Pushed(e.tips)
    ensures Safe(log + [e])
  {
    var longer := log + [e];
    forall i | 0 <= i < |longer| && longer[i].Merged? && longer[i].into == Main
      ensures longer[i].from == Release && Tested(longer[..i], longer[i].what)
    {
      if i < |log| {
        assert longer[i] == log[i] && longer[..i] == log[..i];
      } else {
        assert longer[..i] == log;
      }
    }
  }

  lemma LogKeeps(w: World, e: Event)
    requires Safe(w.log) && (e.Merged? ==> e.into != Main || (e.from == Release && Tested(w.log, e.what)))
    requires e.Cleared? && e.pushWanted ==> |w.log| > 0 && w.log[|w.log| - 1] == Pushed(e.tips)
    ensures Safe(w.log + [e])
    ensures Tested(w.log, w.tips.release) && !IsPromotion(e) ==> Tested(w.log + [e], w.tips.release)
    ensures e == CiPassed(Release, w.tips.release) ==> Tested(w.log + [e], w.tips.release)
  {
    SafeStays(w.log, e);
    if Tested(w.log, w.tips.release) && !IsPromotion(e) {
      TestedStays(w.log, e, w.tips.release);
    }
    PassIsTested(w.log, w.tips.release);
  }

  /** One effect, whatever becomes of it, keeps the invariant and leads to the next place. */
  lemma PromotingEffectKeeps(pc: nat, w: World, cfg: Config, o: Outcome)
    requires pc < 7 && !cfg.dryRun && Inv(w) && AtPlace(pc, w, cfg)
    ensures var (w', goesOn) := Effect(PROGRAM[pc], w, cfg, o);
            Inv(w') && (goesOn ==> AtPlace(pc + 1, w', cfg))
  {
    var (w', _) := Effect(PROGRAM[pc], w, cfg, o);
    if |w'.log| > |w.log| {
      LogKeeps(w, w'.log[|w.log|]);
    }
  }

  lemma FinishingEffectKeeps(pc: nat, w: World, cfg: Config, o: Outcome)
    requires 7 <= pc < END && !cfg.dryRun && Inv(w) && AtPlace(pc, w, cfg)
    requires pc == GATE ==> !w.dirty && !o.CiPassesEditing?
    ensures var (w', goesOn) := Effect(PROGRAM[pc], w, cfg, o);
            Inv(w') && (goesOn ==> AtPlace(pc + 1, w', cfg))
  {
    var (w', _) := Effect(PROGRAM[pc], w, cfg, o);
    if |w'.log| > |w.log| {
      LogKeeps(w, w'.log[|w.log|]);
    }
  }

  lemma EffectKeeps(pc: nat, w: World, cfg: Config, o: Outcome)
    requires pc < END && !cfg.dryRun && Inv(w) && AtPlace(pc, w, cfg)
    requires pc == GATE ==> !w.dirty && !o.CiPassesEditing?
    ensures var (w', goesOn) := Effect(PROGRAM[pc], w, cfg, o);
            Inv(w') && (goesOn ==> AtPlace(pc + 1, w', cfg))
  {
    if pc < 7 {
      PromotingEffectKeeps(pc, w, cfg, o);
    } else {
      FinishingEffectKeeps(pc, w, cfg, o);
    }
  }

  /** From place `pc` on, CI would read the commit and nothing else. */
  ghost predicate CiReadsCommit(pc: nat, w: World, env: Env) {
    && (1 <= pc <= GATE ==> !w.dirty)
    && (pc <= GATE ==> !env.outcome(GATE).CiPassesEditing?)
  }

  lemma CleanStays(pc: nat, w: World, cfg: Config, env: Env)
    requires pc < END && !cfg.dryRun && CiReadsCommit(pc, w, env)
    ensures var (w', goesOn) := Effect(PROGRAM[pc], w, cfg, env.outcome(pc));
            goesOn ==> CiReadsCommit(pc + 1, w', env)
  {
  }

  lemma {:induction false} RunKeeps(pc: nat, w: World, cfg: Config, env: Env)
    requires !cfg.dryRun && Inv(w) && AtPlace(pc, w, cfg) && CiReadsCommit(pc, w, env)
    ensures Inv(RunFrom(pc, w, cfg, env).0)
    decreases END - pc
  {
    if pc < END {
      CleanStays(pc, w, cfg, env);
      EffectKeeps(pc, w, cfg, env.outcome(pc));
      var (w', goesOn) := Effect(PROGRAM[pc], w, cfg, env.outcome(pc));
      if goesOn {
        RunKeeps(pc + 1, w', cfg, env);
      }
    }
  }

  lemma EffectLogs(pc: nat, w: World, cfg: Config, o: Outcome)
    requires pc < END
    ensures w.log <= Effect(PROGRAM[pc], w, cfg, o).0.log
  {
  }

  lemma {:induction false} RunLogs(pc: nat, w: World, cfg: Config, env: Env)
    ensures w.log <= RunFrom(pc, w, cfg, env).0.log
    decreases END - pc
  {
    if pc < END {
      EffectLogs(pc, w, cfg, env.outcome(pc));
      var (w', goesOn) := Effect(PROGRAM[pc], w, cfg, env.outcome(pc));
      if goesOn {
        RunLogs(pc + 1, w', cfg, env);
      }
    }
  }

  /** A dry run changes nothing. In particular no CI passes in it: it only prints the commands. */
  lemma {:induction false} DryRunKeeps(pc: nat, w: World, cfg: Config, env: Env)
    requires cfg.dryRun
    ensures RunFrom(pc, w, cfg, env).0 == w
    decreases END - pc
  {
    if pc < END && Effect(PROGRAM[pc], w, cfg, env.outcome(pc)).1 {
      DryRunKeeps(pc + 1, w, cfg, env);
    }
  }

  /** What people must not do: leave release while its CI is pending, change it once CI has passed, or
      resume a run that has yet to pass CI with uncommitted edits. CI must not pass on files it rewrote. */
  ghost predicate Allowed(w: World, a: Action) {
    match a
    case Switch(b) => AtPhase(w, CiGate) ==> b == Release
    case Commit(b, _) => AtPhase(w, Finishing) ==> b != Release
    case Auto(cfg, env) => cfg.dryRun || CiReadsCommit(StartOf(Loaded(w, env)), w, env)
    case _ => true
  }

  ghost predicate AllAllowed(w: World, actions: seq<Action>) {
    forall i :: 0 <= i < |actions| ==> Allowed(After(w, actions[..i]), actions[i])
  }

  lemma AllowedRunKeeps(w: World, cfg: Config, env: Env)
    ensures Inv(w) && Allowed(w, Auto(cfg, env)) ==> Inv(Run(w, cfg, env).0)
  {
    if Inv(w) && Allowed(w, Auto(cfg, env)) {
      ActionKeeps(w, Auto(cfg, env));
    }
  }

  lemma ActionKeeps(w: World, a: Action)
    requires Inv(w) && Allowed(w, a)
    ensures Inv(Act(w, a))
  {
    if a.Auto? {
      if a.cfg.dryRun {
        DryRunKeeps(StartOf(Loaded(w, a.env)), w, a.cfg, a.env);
      } else {
        RunKeeps(StartOf(Loaded(w, a.env)), w, a.cfg, a.env);
      }
    } else if a.ConcludeMerge? && w.pending.Conflicted? {
      LogKeeps(w, Merged(w.head, w.pending.from, w.pending.what));
    }
  }

  ghost predicate Untouched(w: World) {
    w.log == [] && w.saved == Absent && w.pending == Settled
  }

  /** Over any number of runs, each cut off anywhere, with people working in between: main only ever
      received release contents that CI had passed since the last promotion; a saved Finishing means
      such a pass; a saved CiGate means release is checked out; and a wanted push went before the state
      was cleared. */
  lemma {:induction false} EveryHistoryIsSafe(w: World, actions: seq<Action>)
    requires Untouched(w) && AllAllowed(w, actions)
    ensures Inv(After(w, actions))
  {
    if actions != [] {
      var front := actions[..|actions| - 1];
      forall i | 0 <= i < |front| ensures Allowed(After(w, front[..i]), front[i]) {
        assert front[..i] == actions[..i];
      }
      EveryHistoryIsSafe(w, front);
      ActionKeeps(After(w, front), actions[|actions| - 1]);
    }
  }

  ghost predicate EndedOnFailedCi(w: World, failed: seq<string>, recorded: bool) {
    && w.head == Release && w.pending == Settled
    && (if recorded then w.saved == Present(CiGate, failed) else AtPhase(w, CiGate))
  }

  ghost predicate MainAndDevelopKept(w: World, w': World) {
    w'.tips.main == w.tips.main && w'.tips.develop == w.tips.develop && w.log <= w'.log
  }

  ghost predicate EndsWithFailedCi(w: World, w': World) {
    |w'.log| > |w.log| && w'.log[|w'.log| - 1].CiFailed?
  }

  lemma BeforeTheGate(pc: nat, w: World, cfg: Config, o: Outcome)
    requires pc < GATE && !cfg.dryRun && AtPlace(pc, w, cfg)
    ensures var w' := Effect(PROGRAM[pc], w, cfg, o).0;
            MainAndDevelopKept(w, w') && !EndsWithFailedCi(w, w')
  {
  }

  /** Main and develop are left alone; and if CI ran and failed, release stays checked out at the gate. */
  ghost predicate LeftForInvestigation(w: World, w': World, o: Outcome) {
    && MainAndDevelopKept(w, w')
    && (EndsWithFailedCi(w, w') ==> o.CiFails? && EndedOnFailedCi(w', o.failed, o.recorded))
  }

  lemma NoFailureYet(w: World, w': World, w'': World, o: Outcome)
    requires MainAndDevelopKept(w, w') && !EndsWithFailedCi(w, w') && LeftForInvestigation(w', w'', o)
    ensures LeftForInvestigation(w, w'', o)
  {
    if |w''.log| == |w'.log| {
      assert w''.log == w'.log;
    }
  }

  lemma AtTheGate(w: World, cfg: Config, o: Outcome)
    requires !cfg.dryRun && Inv(w) && AtPlace(GATE, w, cfg) && o.CiFails?
    ensures var (w', goesOn) := Effect(PROGRAM[GATE], w, cfg, o);
            !goesOn && EndsWithFailedCi(w, w') && LeftForInvestigation(w, w', o)
  {
  }

  lemma {:induction false} FailedCiIsAnError(pc: nat, w: World, cfg: Config, env: Env)
    requires pc <= GATE && !cfg.dryRun && env.outcome(GATE).CiFails?
    ensures !RunFrom(pc, w, cfg, env).1
    decreases END - pc
  {
    var (w', goesOn) := Effect(PROGRAM[pc], w, cfg, env.outcome(pc));
    if pc < GATE && goesOn {
      FailedCiIsAnError(pc + 1, w', cfg, env);
    }
  }

  lemma GateLeaves(pc: nat, w: World, cfg: Config, env: Env)
    requires pc == GATE && !cfg.dryRun && Inv(w) && AtPlace(pc, w, cfg) && env.outcome(pc).CiFails?
    ensures LeftForInvestigation(w, RunFrom(pc, w, cfg, env).0, env.outcome(pc))
  {
    AtTheGate(w, cfg, env.outcome(pc));
    assert RunFrom(pc, w, cfg, env).0 == Effect(PROGRAM[pc], w, cfg, env.outcome(pc)).0;
  }

  lemma {:induction false} FailedCiLeaves(pc: nat, w: World, cfg: Config, env: Env)
    requires pc <= GATE && !cfg.dryRun && Inv(w) && AtPlace(pc, w, cfg) && env.outcome(GATE).CiFails?
    ensures LeftForInvestigation(w, RunFrom(pc, w, cfg, env).0, env.outcome(GATE))
    decreases END - pc
  {
    if pc == GATE {
      GateLeaves(pc, w, cfg, env);
    } else {
      var (w', goesOn) := Effect(PROGRAM[pc], w, cfg, env.outcome(pc));
      BeforeTheGate(pc, w, cfg, env.outcome(pc));
      EffectKeeps(pc, w, cfg, env.outcome(pc));
      if goesOn {
        FailedCiLeaves(pc + 1, w', cfg, env);
        NoFailureYet(w, w', RunFrom(pc + 1, w', cfg, env).0, env.outcome(GATE));
      }
    }
  }

  /** When CI fails the run ends with an error and leaves main and develop alone. If it got as far as CI,
      it stays on release, and the saved phase is the gate, with the failed steps once they are
      recorded. */
  lemma FailedCiEndsTheRun(pc: nat, w: World, cfg: Config, env: Env)
    requires pc <= GATE && !cfg.dryRun && Inv(w) && AtPlace(pc, w, cfg) && env.outcome(GATE).CiFails?
    ensures var (w', ok) := RunFrom(pc, w, cfg, env);
            !ok && LeftForInvestigation(w, w', env.outcome(GATE))
  {
    FailedCiIsAnError(pc, w, cfg, env);
    FailedCiLeaves(pc, w, cfg, env);
  }
}
