/** What a run of `flow auto` answers and does, told by its outcomes alone: when it returns without error,
    when it pushes, what it leaves in the state file, and how many conflicts it reports. */
module FlowAnswers {
  import opened FlowModel
  import FlowSafety
  import FlowContents

  /** The place a run starts at. */
  function Start(w: World, env: Env): nat {
    if !env.readable || w.saved == Absent then 0
    else if w.saved.phase == Promoting then 2
    else if w.saved.phase == CiGate then 7
    else 9
  }

  // When the run returns without error.

  /** The outcome lets a real run pass this place: CI may pass on its own edits, the push may be off, and a
      failed removal of the state file goes unnoticed. */
  predicate Passes(pc: nat, cfg: Config, o: Outcome) {
    if pc == 7 then o.Works? || o.CiPassesEditing?
    else if pc == 13 then if cfg.push then o.Works? else !o.Stops?
    else if pc == 14 then o.Works? || o.RemovalFails?
    else if pc == 15 then !o.Stops?
    else o.Works?
  }

  /** A dry run checks that develop is ready and runs the checks of CI that are no commands. */
  predicate PassesDry(pc: nat, o: Outcome) {
    if pc == 0 || pc == 7 then o.Works? else !o.Stops?
  }

  ghost predicate AllPass(from: nat, cfg: Config, env: Env) {
    forall k :: from <= k < END ==> Passes(k, cfg, env.outcome(k))
  }

  lemma AllPassFrom(from: nat, cfg: Config, env: Env)
    requires from < END
    ensures AllPass(from, cfg, env) <==> Passes(from, cfg, env.outcome(from)) && AllPass(from + 1, cfg, env)
  {
    if Passes(from, cfg, env.outcome(from)) && AllPass(from + 1, cfg, env) {
      forall k: nat | from <= k < END ensures Passes(k, cfg, env.outcome(k)) {
        assert k == from || from + 1 <= k;
      }
    }
  }

  predicate ReadyToStart(w: World) {
    w.head == Develop && w.pending == Settled && !w.dirty
  }

  lemma OneEffectPasses(pc: nat, w: World, cfg: Config, o: Outcome)
    requires pc < END && !cfg.dryRun && (pc == 0 || w.pending == Settled)
    ensures var (w', goesOn) := Effect(PROGRAM[pc], w, cfg, o);
            && (goesOn <==> Passes(pc, cfg, o) && (pc == 0 ==> ReadyToStart(w)))
            && (goesOn ==> w'.pending == Settled)
  {
  }

  lemma {:induction false} RealRunPasses(pc: nat, w: World, cfg: Config, env: Env)
    requires pc <= END && !cfg.dryRun && (pc == 0 || w.pending == Settled)
    ensures RunFrom(pc, w, cfg, env).1 <==> (pc == 0 ==> ReadyToStart(w)) && AllPass(pc, cfg, env)
    decreases END - pc
  {
    if pc < END {
      OneEffectPasses(pc, w, cfg, env.outcome(pc));
      AllPassFrom(pc, cfg, env);
      var (w', goesOn) := Effect(PROGRAM[pc], w, cfg, env.outcome(pc));
      if goesOn {
        RealRunPasses(pc + 1, w', cfg, env);
      }
    }
  }

  lemma {:induction false} DryRunPasses(pc: nat, w: World, cfg: Config, env: Env)
    requires pc <= END && cfg.dryRun
    ensures RunFrom(pc, w, cfg, env).1 <==>
            (pc == 0 ==> ReadyToStart(w)) && forall k :: pc <= k < END ==> PassesDry(k, env.outcome(k))
    decreases END - pc
  {
    if pc < END {
      var (w', goesOn) := Effect(PROGRAM[pc], w, cfg, env.outcome(pc));
      assert goesOn <==> PassesDry(pc, env.outcome(pc)) && (pc == 0 ==> ReadyToStart(w));
      if goesOn {
        DryRunPasses(pc + 1, w', cfg, env);
      }
    }
  }

  lemma {:induction false} ConflictStops(pc: nat, w: World, cfg: Config, env: Env)
    requires pc <= 9 && !cfg.dryRun && w.pending.Conflicted?
    ensures !RunFrom(pc, w, cfg, env).1
  {
    FlowContents.StuckOnMerge(pc, w, cfg, env);
  }

  /** A run returns without error exactly if every place from its start on lets it pass, no merge is half
      done, and, starting afresh, develop is checked out with nothing uncommitted. */
  lemma RunReturnsExactly(w: World, cfg: Config, env: Env)
    ensures var start := Start(w, env);
            Run(w, cfg, env).1 <==>
            && (start == 0 ==> w.head == Develop && w.pending == Settled && !w.dirty)
            && (if cfg.dryRun then forall k :: start <= k < 16 ==> PassesDry(k, env.outcome(k))
                else w.pending == Settled && forall k :: start <= k < 16 ==> Passes(k, cfg, env.outcome(k)))
  {
    var start := Start(w, env);
    if cfg.dryRun {
      DryRunPasses(start, w, cfg, env);
    } else if w.pending == Settled {
      RealRunPasses(start, w, cfg, env);
    } else {
      ConflictStops(start, w, cfg, env);
    }
  }

  // When it pushes.

  ghost predicate PushedSince(log: seq<Event>, n: nat) {
    exists i :: n <= i < |log| && log[i].Pushed?
  }

  lemma {:induction false} NothingPushed(pc: nat, w: World, cfg: Config, env: Env, n: nat)
    requires !cfg.push && n <= |w.log| && !PushedSince(w.log, n)
    ensures !PushedSince(RunFrom(pc, w, cfg, env).0.log, n)
    decreases END - pc
  {
    if pc < END {
      var (w', goesOn) := Effect(PROGRAM[pc], w, cfg, env.outcome(pc));
      PushesOnlyAtItsPlace(pc, w, cfg, env.outcome(pc), n);
      FlowSafety.EffectLogs(pc, w, cfg, env.outcome(pc));
      if goesOn {
        NothingPushed(pc + 1, w', cfg, env, n);
      }
    }
  }

  lemma PushesOnlyAtItsPlace(pc: nat, w: World, cfg: Config, o: Outcome, n: nat)
    requires pc < END && n <= |w.log| && !PushedSince(w.log, n)
    requires !cfg.push
    ensures !PushedSince(Effect(PROGRAM[pc], w, cfg, o).0.log, n)
  {
    var log := Effect(PROGRAM[pc], w, cfg, o).0.log;
    forall i | n <= i < |log| ensures !log[i].Pushed? {
      if i < |w.log| {
        assert log[i] == w.log[i];
      }
    }
  }

  lemma {:induction false} WantedIsPushed(pc: nat, w: World, cfg: Config, env: Env, n: nat)
    requires pc <= 13 && !cfg.dryRun && cfg.push && n <= |w.log|
    requires RunFrom(pc, w, cfg, env).1
    ensures var w' := RunFrom(pc, w, cfg, env).0;
            exists i :: n <= i < |w'.log| && w'.log[i] == Pushed(w'.tips)
    decreases END - pc
  {
    var w1 := Effect(PROGRAM[pc], w, cfg, env.outcome(pc)).0;
    FlowSafety.EffectLogs(pc, w, cfg, env.outcome(pc));
    if pc < 13 {
      WantedIsPushed(pc + 1, w1, cfg, env, n);
    } else {
      PushedLast(pc, w, cfg, env);
      assert w1.log[|w.log|] == Pushed(w.tips);
    }
  }

  lemma PushedLast(pc: nat, w: World, cfg: Config, env: Env)
    requires pc == 13 && !cfg.dryRun && cfg.push && RunFrom(pc, w, cfg, env).1
    ensures RunFrom(pc, w, cfg, env).0.tips == w.tips
    ensures w.log + [Pushed(w.tips)] <= RunFrom(pc, w, cfg, env).0.log
  {
    var w1 := Effect(PROGRAM[pc], w, cfg, env.outcome(pc)).0;
    var w2 := Effect(PROGRAM[pc + 1], w1, cfg, env.outcome(pc + 1)).0;
    assert RunFrom(pc + 2, w2, cfg, env).0 == w2;
    assert RunFrom(pc + 1, w1, cfg, env) == RunFrom(pc + 2, w2, cfg, env);
  }

  /** With the push off no run pushes, whatever happens to it. A real run that returns without error pushed
      exactly if that was on, and then what the branches hold at its end. */
  lemma RunPushesExactly(w: World, cfg: Config, env: Env)
    ensures var (w', ok) := Run(w, cfg, env);
            && (!cfg.push || cfg.dryRun ==> forall i :: |w.log| <= i < |w'.log| ==> !w'.log[i].Pushed?)
            && (ok && !cfg.dryRun ==>
                  (cfg.push <==> exists i :: |w.log| <= i < |w'.log| && w'.log[i] == Pushed(w'.tips)))
  {
    var pc := StartOf(Loaded(w, env));
    if cfg.dryRun {
      FlowSafety.DryRunKeeps(pc, w, cfg, env);
    } else if !cfg.push {
      NothingPushed(pc, w, cfg, env, |w.log|);
    } else if Run(w, cfg, env).1 {
      WantedIsPushed(pc, w, cfg, env, |w.log|);
    }
  }

  lemma ActionPushes(w: World, a: Action, n: nat)
    requires n <= |w.log| && !PushedSince(w.log, n) && (a.Auto? ==> !a.cfg.push || a.cfg.dryRun)
    ensures n <= |Act(w, a).log| && !PushedSince(Act(w, a).log, n)
  {
    FlowContents.ActionLogs(w, a);
    var log := Act(w, a).log;
    if a.Auto? {
      RunPushesExactly(w, a.cfg, a.env);
    }
    forall i | n <= i < |log| ensures !log[i].Pushed? {
      if i < |w.log| {
        assert log[i] == w.log[i];
      }
    }
  }

  /** So nothing is ever pushed in a history whose real runs all have the push off. */
  lemma {:induction false} HistoryPushesOnlyWhenAsked(w: World, actions: seq<Action>)
    requires forall i :: 0 <= i < |actions| && actions[i].Auto? ==> !actions[i].cfg.push || actions[i].cfg.dryRun
    ensures |w.log| <= |After(w, actions).log|
    ensures forall i :: |w.log| <= i < |After(w, actions).log| ==> !After(w, actions).log[i].Pushed?
  {
    if actions != [] {
      HistoryPushesOnlyWhenAsked(w, actions[..|actions| - 1]);
      ActionPushes(After(w, actions[..|actions| - 1]), actions[|actions| - 1], |w.log|);
    }
  }

  // What it leaves in the state file.

  /** One of the four phases recorded without failed steps, or the steps CI named. */
  ghost predicate MayBeLeft(before: Saved, after: Saved, o: Outcome) {
    || after == before || after == Absent
    || (exists p :: after == Present(p, []))
    || (o.CiFails? && o.recorded && after == Present(CiGate, o.failed))
  }

  lemma EffectLeaves(pc: nat, before: Saved, w: World, cfg: Config, o: Outcome, ci: Outcome)
    requires pc < END && MayBeLeft(before, w.saved, ci) && (pc == 7 ==> o == ci)
    ensures MayBeLeft(before, Effect(PROGRAM[pc], w, cfg, o).0.saved, ci)
  {
  }

  lemma {:induction false} LeftFrom(pc: nat, before: Saved, w: World, cfg: Config, env: Env)
    requires MayBeLeft(before, w.saved, env.outcome(7))
    ensures MayBeLeft(before, RunFrom(pc, w, cfg, env).0.saved, env.outcome(7))
    decreases END - pc
  {
    if pc < END {
      var (w', goesOn) := Effect(PROGRAM[pc], w, cfg, env.outcome(pc));
      EffectLeaves(pc, before, w, cfg, env.outcome(pc), env.outcome(7));
      if goesOn {
        LeftFrom(pc + 1, before, w', cfg, env);
      }
    }
  }

  /** The state file names failed steps only if this run's CI failed on them, or nothing was written. */
  lemma FailedStepsAreCisOwn(w: World, cfg: Config, env: Env)
    ensures var s := Run(w, cfg, env).0.saved;
            || s == w.saved || s == Absent || s.failedSteps == []
            || (env.outcome(7).CiFails? && env.outcome(7).recorded && s == Present(CiGate, env.outcome(7).failed))
  {
    LeftFrom(StartOf(Loaded(w, env)), w.saved, w, cfg, env);
  }

  // How many conflicts it reports.

  /** The conflicts met by the merges a completed run makes from place `pc` on. */
  function ConflictsFrom(pc: nat, env: Env): nat
    decreases END - pc
  {
    if pc >= END then 0
    else
      (if PROGRAM[pc].Merge? && env.outcome(pc).Works? then env.outcome(pc).conflicts else 0)
      + ConflictsFrom(pc + 1, env)
  }

  lemma {:induction false} NoMergesLeft(pc: nat, env: Env)
    requires pc >= FINISH + 4
    ensures ConflictsFrom(pc, env) == 0
    decreases END - pc
  {
    if pc < END {
      NoMergesLeft(pc + 1, env);
    }
  }

  function ConflictsAt(env: Env, pc: nat): nat {
    if env.outcome(pc).Works? then env.outcome(pc).conflicts else 0
  }

  lemma {:induction false} NoMergeBetween(pc: nat, next: nat, env: Env)
    requires pc <= next <= END && forall k :: pc <= k < next ==> !PROGRAM[k].Merge?
    ensures ConflictsFrom(pc, env) == ConflictsFrom(next, env)
    decreases next - pc
  {
    if pc < next {
      NoMergeBetween(pc + 1, next, env);
    }
  }

  /** The conflicts counted are those of the merges at or behind the start: of develop into staging, of
      staging into release, of release into main, and of main into develop. */
  lemma ConflictsAreSummed(env: Env, start: nat)
    requires start == 0 || start == 2 || start == 7 || start == 9
    ensures ConflictsFrom(start, env) ==
            (if start <= 2 then ConflictsAt(env, 3) + ConflictsAt(env, 5) else 0)
            + ConflictsAt(env, 10) + ConflictsAt(env, 12)
  {
    var merges: seq<nat> := [3, 5, 10, 12];
    LastTwoMerges(merges[2], merges[3], env);
    if start <= 2 {
      NoMergeBetween(start, merges[0], env);
      NoMergeBetween(merges[0] + 1, merges[1], env);
      NoMergeBetween(merges[1] + 1, merges[2], env);
    } else {
      NoMergeBetween(start, merges[2], env);
    }
  }

  lemma LastTwoMerges(a: nat, b: nat, env: Env)
    requires a == 10 && b == 12
    ensures ConflictsFrom(a, env) == ConflictsAt(env, a) + ConflictsAt(env, b)
  {
    NoMergeBetween(a + 1, b, env);
    NoMergeBetween(b + 1, END, env);
  }
}
