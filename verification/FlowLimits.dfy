/** How far the promises of `flow auto` reach: exactly when the next run is safe, the three things people
    must not do between runs, and the removal failure nobody hears of. */
module FlowLimits {
  import opened FlowModel
  import opened FlowSafety
  import opened FlowContents

  lemma SafePrefix(log: seq<Event>, longer: seq<Event>)
    requires log <= longer && Safe(longer)
    ensures Safe(log)
  {
    forall i | 0 <= i < |log| && log[i].Merged? && log[i].into == Main
      ensures log[i].from == Release && Tested(log[..i], log[i].what)
    {
      assert log[i] == longer[i] && log[..i] == longer[..i];
    }
  }

  predicate GoesOn(pc: nat, o: Outcome) {
    o.Works? || (pc == GATE && o.CiPassesEditing?)
  }

  /** The run gets from place `from` as far as the merge into main. */
  ghost predicate GetsToMain(from: nat, w: World, env: Env) {
    && w.pending == Settled
    && (from == BEGIN ==> w.head == Develop && !w.dirty)
    && forall pc :: from <= pc <= 10 ==> GoesOn(pc, env.outcome(pc))
  }

  /** What the run would merge into main has been passed by CI, or will be. */
  ghost predicate CiCovers(from: nat, w: World, env: Env) {
    if from < GATE then !w.dirty && !env.outcome(GATE).CiPassesEditing?
    else
      || Tested(w.log, w.tips.release)
      || (from == GATE && w.head == Release && !w.dirty && !env.outcome(GATE).CiPassesEditing?)
  }

  lemma StepTowardsMain(pc: nat, w: World, w': World, env: Env)
    requires pc < 10 && w.pending == w'.pending && GoesOn(pc, env.outcome(pc))
    requires pc == BEGIN ==> w.head == Develop && !w.dirty
    ensures GetsToMain(pc, w, env) <==> GetsToMain(pc + 1, w', env)
  {
    if GetsToMain(pc + 1, w', env) {
      forall k: nat | pc <= k <= 10 ensures GoesOn(k, env.outcome(k)) {
        assert k == pc || pc + 1 <= k;
      }
    }
  }

  lemma FinishMergesOrStops(pc: nat, w: World, cfg: Config, env: Env)
    requires pc == FINISH && !cfg.dryRun
    ensures var log := RunFrom(pc, w, cfg, env).0.log;
            if GetsToMain(pc, w, env) then w.log + [Merged(Main, Release, w.tips.release)] <= log else log == w.log
  {
    var (w1, goesOn) := Effect(PROGRAM[pc], w, cfg, env.outcome(pc));
    if goesOn {
      var (w2, merged) := Effect(PROGRAM[pc + 1], w1, cfg, env.outcome(pc + 1));
      if merged {
        RunLogs(pc + 2, w2, cfg, env);
        assert RunFrom(pc, w, cfg, env) == RunFrom(pc + 2, w2, cfg, env);
      } else {
        assert RunFrom(pc, w, cfg, env) == (w2, false);
      }
    }
  }

  /** The merge into main is the only effect of the finish that can break safety. */
  lemma FinishIsSafeExactly(pc: nat, w: World, cfg: Config, env: Env)
    requires pc == FINISH && !cfg.dryRun && AtPhase(w, Finishing) && Safe(w.log)
    ensures Safe(RunFrom(pc, w, cfg, env).0.log) <==> !GetsToMain(pc, w, env) || CiCovers(pc, w, env)
  {
    FinishMergesOrStops(pc, w, cfg, env);
    if GetsToMain(pc, w, env) {
      if Tested(w.log, w.tips.release) {
        RunKeeps(pc, w, cfg, env);
      } else {
        var merged := w.log + [Merged(Main, Release, w.tips.release)];
        assert merged[|w.log|] == Merged(Main, Release, w.tips.release) && merged[..|w.log|] == w.log;
        if Safe(RunFrom(pc, w, cfg, env).0.log) {
          SafePrefix(merged, RunFrom(pc, w, cfg, env).0.log);
        }
      }
    }
  }

  /** The world once CI passed and that was recorded. */
  function GatePassed(w: World, o: Outcome): World {
    w.(dirty := w.dirty || o.CiPassesEditing?, saved := Present(Finishing, []), log := w.log + [PassOf(w, o)])
  }

  function PassOf(w: World, o: Outcome): Event {
    if o.CiPassesEditing? then CiPassedOnEdits(w.head) else Pass(w)
  }

  lemma GatePassesOrStops(pc: nat, w: World, cfg: Config, env: Env)
    requires pc == GATE && !cfg.dryRun
    ensures if GoesOn(pc, env.outcome(pc)) && GoesOn(pc + 1, env.outcome(pc + 1))
            then RunFrom(pc, w, cfg, env) == RunFrom(pc + 2, GatePassed(w, env.outcome(pc)), cfg, env)
            else RunFrom(pc, w, cfg, env).0.log in
                   {w.log, w.log + [CiFailed(w.head)], w.log + [PassOf(w, env.outcome(pc))]}
  {
    var (w1, passed) := Effect(PROGRAM[pc], w, cfg, env.outcome(pc));
    if passed {
      var (w2, goesOn) := Effect(PROGRAM[pc + 1], w1, cfg, env.outcome(pc + 1));
      if goesOn {
        assert RunFrom(pc, w, cfg, env) == RunFrom(pc + 2, w2, cfg, env);
      } else {
        assert RunFrom(pc, w, cfg, env) == (w2, false);
      }
    }
  }

  lemma PastTheGate(pc: nat, w: World, w': World, env: Env)
    requires pc == GATE && w.pending == w'.pending
    requires GoesOn(pc, env.outcome(pc)) && GoesOn(pc + 1, env.outcome(pc + 1))
    ensures GetsToMain(pc, w, env) <==> GetsToMain(pc + 2, w', env)
  {
    StepTowardsMain(pc, w, w', env);
    StepTowardsMain(pc + 1, w, w', env);
  }

  /** A pass counts for release if CI ran there, on the commit and nothing else. */
  lemma PassTestsExactly(w: World, o: Outcome)
    ensures Tested(w.log + [PassOf(w, o)], w.tips.release) <==>
            Tested(w.log, w.tips.release) || (w.head == Release && !w.dirty && !o.CiPassesEditing?)
  {
    var pass := PassOf(w, o);
    if pass == CiPassed(Release, w.tips.release) {
      PassIsTested(w.log, w.tips.release);
    }
    if w.head == Release && !w.dirty && !o.CiPassesEditing? {
      assert pass == CiPassed(Release, w.tips.release);
    } else {
      OtherPassTestsNothing(w.log, pass, w.tips.release);
    }
  }

  lemma OtherPassTestsNothing(log: seq<Event>, e: Event, what: Commits)
    requires e.CiPassedOnEdits? || (e.CiPassed? && e.on != Release)
    ensures Tested(log + [e], what) <==> Tested(log, what)
  {
    if Tested(log, what) {
      TestedStays(log, e, what);
    }
    if Tested(log + [e], what) {
      var longer := log + [e];
      var j :| 0 <= j < |longer| && longer[j] == CiPassed(Release, what)
               && forall k :: j < k < |longer| ==> !IsPromotion(longer[k]);
      assert log[j] == CiPassed(Release, what);
      forall k | j < k < |log| ensures !IsPromotion(log[k]) {
        assert longer[k] == log[k];
      }
    }
  }

  lemma GateIsSafeExactly(pc: nat, w: World, cfg: Config, env: Env)
    requires pc == GATE && !cfg.dryRun && Safe(w.log)
    ensures Safe(RunFrom(pc, w, cfg, env).0.log) <==> !GetsToMain(pc, w, env) || CiCovers(pc, w, env)
  {
    var o := env.outcome(pc);
    SafeStays(w.log, PassOf(w, o));
    SafeStays(w.log, CiFailed(w.head));
    GatePassesOrStops(pc, w, cfg, env);
    if GoesOn(pc, o) && GoesOn(pc + 1, env.outcome(pc + 1)) {
      PassTestsExactly(w, o);
      FinishIsSafeExactly(pc + 2, GatePassed(w, o), cfg, env);
      PastTheGate(pc, w, GatePassed(w, o), env);
    }
  }

  ghost predicate EndsInPromotion(log: seq<Event>) {
    |log| > 0 && IsPromotion(log[|log| - 1])
  }

  /** What holds on the way from place `pc` to the gate. */
  ghost predicate OnTheWayToGate(pc: nat, w: World) {
    && Safe(w.log)
    && (pc == 3 ==> w.head == Staging)
    && (5 <= pc ==> w.head == Release)
    && (6 <= pc ==> EndsInPromotion(w.log))
  }

  lemma PromotionStep(pc: nat, w: World, cfg: Config, o: Outcome)
    requires pc < GATE && !cfg.dryRun && OnTheWayToGate(pc, w)
    ensures var (w', goesOn) := Effect(PROGRAM[pc], w, cfg, o);
            && (goesOn ==> GoesOn(pc, o) && OnTheWayToGate(pc + 1, w'))
            && (goesOn ==> w'.dirty == w.dirty && w'.pending == w.pending)
            && (goesOn && pc == BEGIN ==> w.head == Develop && !w.dirty && w.pending == Settled)
            && (!goesOn ==> w'.log == w.log)
            && (!goesOn && w.pending == Settled && (pc == BEGIN ==> w.head == Develop && !w.dirty) ==> !GoesOn(pc, o))
  {
    var w' := Effect(PROGRAM[pc], w, cfg, o).0;
    if |w'.log| > |w.log| {
      SafeStays(w.log, w'.log[|w.log|]);
      assert w'.log == w.log + [w'.log[|w.log|]];
    }
  }

  lemma {:induction false} PromotionIsSafeExactly(pc: nat, w: World, cfg: Config, env: Env)
    requires pc <= GATE && !cfg.dryRun && OnTheWayToGate(pc, w)
    ensures Safe(RunFrom(pc, w, cfg, env).0.log) <==>
            !GetsToMain(pc, w, env) || (!w.dirty && !env.outcome(GATE).CiPassesEditing?)
    decreases GATE - pc
  {
    if pc == GATE {
      GateIsSafeExactly(pc, w, cfg, env);
    } else {
      PromotionStep(pc, w, cfg, env.outcome(pc));
      var (w', goesOn) := Effect(PROGRAM[pc], w, cfg, env.outcome(pc));
      if goesOn {
        PromotionIsSafeExactly(pc + 1, w', cfg, env);
        StepTowardsMain(pc, w, w', env);
      }
    }
  }

  /** From any world with a safe past, whatever people did to it: the next run is safe exactly if it is a
      dry one, does not get as far as the merge into main, or CI covers what it merges. */
  lemma RunIsSafeExactly(w: World, cfg: Config, env: Env)
    requires Safe(w.log)
    ensures var pc := StartOf(Loaded(w, env));
            Safe(Run(w, cfg, env).0.log) <==> cfg.dryRun || !GetsToMain(pc, w, env) || CiCovers(pc, w, env)
  {
    var pc := StartOf(Loaded(w, env));
    if cfg.dryRun {
      DryRunKeeps(pc, w, cfg, env);
    } else if pc == FINISH {
      FinishIsSafeExactly(pc, w, cfg, env);
    } else if pc == GATE {
      GateIsSafeExactly(pc, w, cfg, env);
    } else {
      PromotionIsSafeExactly(pc, w, cfg, env);
    }
  }

  lemma TwoActions(w: World, a: Action, b: Action)
    ensures After(w, [a, b]) == Act(Act(w, a), b)
  {
    assert [a, b][..1] == [a] && [a][..0] == [];
    assert After(w, [a]) == Act(After(w, []), a);
  }

  // The three things people must not do.

  /** Leaving release while its CI is pending makes the next run test another branch. */
  lemma SwitchingAwayAtCiGateExactly(w: World, b: Branch, cfg: Config, env: Env)
    requires Inv(w) && AtPhase(w, CiGate) && b != Release
    ensures var u := Act(w, Switch(b));
            Safe(After(w, [Switch(b), Auto(cfg, env)]).log) <==>
            || cfg.dryRun || !GetsToMain(StartOf(Loaded(u, env)), u, env)
            || (if env.readable then Tested(w.log, w.tips.release) else !env.outcome(GATE).CiPassesEditing?)
  {
    TwoActions(w, Switch(b), Auto(cfg, env));
    RunIsSafeExactly(Act(w, Switch(b)), cfg, env);
  }

  /** Changing release once CI has passed. */
  lemma ChangingReleaseAtFinishingExactly(w: World, c: Commits, cfg: Config, env: Env)
    requires Inv(w) && AtPhase(w, Finishing)
    ensures var u := Act(w, Commit(Release, c));
            Safe(After(w, [Commit(Release, c), Auto(cfg, env)]).log) <==>
            || cfg.dryRun || !GetsToMain(StartOf(Loaded(u, env)), u, env)
            || (if env.readable then Tested(w.log, w.tips.release + c) else !env.outcome(GATE).CiPassesEditing?)
  {
    TwoActions(w, Commit(Release, c), Auto(cfg, env));
    RunIsSafeExactly(Act(w, Commit(Release, c)), cfg, env);
  }

  /** Resuming with uncommitted edits before CI has passed makes CI pass on what main will not receive. */
  lemma EditingBeforeCiExactly(w: World, cfg: Config, env: Env)
    requires Inv(w) && (AtPhase(w, Promoting) || AtPhase(w, CiGate))
    ensures var u := Act(w, Edit);
            Safe(After(w, [Edit, Auto(cfg, env)]).log) <==>
            || cfg.dryRun || !GetsToMain(StartOf(Loaded(u, env)), u, env)
            || (AtPhase(w, CiGate) && Tested(w.log, w.tips.release))
  {
    TwoActions(w, Edit, Auto(cfg, env));
    RunIsSafeExactly(Act(w, Edit), cfg, env);
  }

  /** An input: CI failed on what develop added, somebody edits and resumes, and CI passes on the edits. */
  lemma EditedFixIsNotMerged(w: World, cfg: Config, env: Env)
    requires !cfg.dryRun && AllWorks(env)
    requires w.tips == Tips({1}, {1}, {1}, {}) && w.head == Release && w.pending == Settled && !w.dirty
    requires w.saved == Present(CiGate, ["test"]) && w.log == [CiFailed(Release)]
    ensures !Safe(After(w, [Edit, Auto(cfg, env)]).log)
  {
    assert Inv(w) && AtPhase(w, CiGate) && !Tested(w.log, w.tips.release);
    EditingBeforeCiExactly(w, cfg, env);
    var u := Act(w, Edit);
    assert GetsToMain(StartOf(Loaded(u, env)), u, env);
  }

  /** Everything works except that the state file is not removed. */
  function RemovalFailing(env: Env): Env {
    Env(true, (pc: nat) => if pc == 14 then RemovalFails else env.outcome(pc))
  }

  lemma {:induction false} RemovalFailsQuietly(pc: nat, w: World, cfg: Config, calm: Env)
    requires !cfg.dryRun && w.pending == Settled && !w.dirty && (pc == 0 ==> w.head == Develop)
    requires AllWorks(calm) && (9 <= pc ==> AtPhase(w, Finishing))
    ensures var (w', ok) := RunFrom(pc, w, cfg, RemovalFailing(calm));
            ok && AtPhase(w', Finishing) && w'.pending == Settled
    decreases END - pc
  {
    if pc < END {
      var o := RemovalFailing(calm).outcome(pc);
      assert o == if pc == 14 then RemovalFails else calm.outcome(pc);
      var (w', goesOn) := Effect(PROGRAM[pc], w, cfg, o);
      RemovalFailsQuietly(pc + 1, w', cfg, calm);
    }
  }

  lemma FinishingPromotesNothing(t: Tips, c: Commits)
    ensures AfterRelease(AfterDevelop(t).Add(Develop, c)).main == AfterDevelop(t).main
  {
  }

  /** When the state file cannot be removed the run still returns without error, and the next run, on new
      commits to develop, also returns without error and promotes none of them. */
  lemma QuietRemovalFailureSkipsPromotion(w: World, c: Commits, cfg: Config, calm: Env)
    requires !cfg.dryRun && w.saved == Absent && w.pending == Settled && !w.dirty && w.head == Develop
    requires AllWorks(calm) && !(c <= AfterDevelop(w.tips).main)
    ensures var u := Act(Run(w, cfg, RemovalFailing(calm)).0, Commit(Develop, c));
            && Run(w, cfg, RemovalFailing(calm)).1
            && Run(u, cfg, calm).1
            && !(c <= Run(u, cfg, calm).0.tips.main)
  {
    RemovalFailsQuietly(BEGIN, w, cfg, calm);
    OkRunContents(w, cfg, RemovalFailing(calm));
    var u := Act(Run(w, cfg, RemovalFailing(calm)).0, Commit(Develop, c));
    CalmRunCompletesExactly(u, cfg, calm);
    OkRunContents(u, cfg, calm);
    FinishingPromotesNothing(w.tips, c);
  }
}
