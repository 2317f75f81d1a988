/** What a run that returns without error leaves on the branches, when it can be completed, and what
    its guarantees cost. */
module FlowContents {
  import opened FlowModel
  import opened FlowSafety

  // The branch contents once the merges from a given point on are done.

  function AfterMain(t: Tips): Tips {
    t.Add(Develop, t.main)
  }

  function AfterRelease(t: Tips): Tips {
    AfterMain(t.Add(Main, t.release))
  }

  function AfterStaging(t: Tips): Tips {
    AfterRelease(t.Add(Release, t.staging))
  }

  function AfterDevelop(t: Tips): Tips {
    AfterStaging(t.Add(Staging, t.develop))
  }

  /** What was on develop went all the way round. */
  ghost predicate Chain(start: Commits, t: Tips) {
    start <= t.staging <= t.release <= t.main <= t.develop
  }

  function Remaining(pc: nat, t: Tips): Tips {
    if pc <= 3 then AfterDevelop(t)
    else if pc <= 5 then AfterStaging(t)
    else if pc <= 10 then AfterRelease(t)
    else if pc <= 12 then AfterMain(t)
    else t
  }

  ghost predicate HeadInPlace(pc: nat, w: World) {
    && (pc == 3 ==> w.head == Staging)
    && (pc == 5 ==> w.head == Release)
    && (pc == 10 ==> w.head == Main)
    && (pc >= 12 ==> w.head == Develop)
  }

  lemma {:induction false} OkFrom(pc: nat, w: World, cfg: Config, env: Env)
    requires !cfg.dryRun && HeadInPlace(pc, w) && (pc >= 10 ==> w.pending == Settled)
    ensures var (w', ok) := RunFrom(pc, w, cfg, env);
            ok ==> w'.tips == Remaining(pc, w.tips) && w'.head == Develop && w'.pending == Settled
    decreases END - pc
  {
    if pc < END {
      var (w', goesOn) := Effect(PROGRAM[pc], w, cfg, env.outcome(pc));
      if goesOn {
        assert Remaining(pc + 1, w'.tips) == Remaining(pc, w.tips);
        OkFrom(pc + 1, w', cfg, env);
      }
    }
  }

  /** A run that returns without error, from any world whatever: the contents follow from the starting
      contents and the phase it resumed at. */
  lemma OkRunContents(w: World, cfg: Config, env: Env)
    requires !cfg.dryRun && Run(w, cfg, env).1
    ensures var w', t := Run(w, cfg, env).0, w.tips;
            && w'.tips == Remaining(StartOf(Loaded(w, env)), t)
            && w'.tips == (if !env.readable || w.saved == Absent || w.saved.phase == Promoting
                           then Tips(t.develop + t.staging + t.release + t.main, t.staging + t.develop,
                                     t.release + t.staging + t.develop, t.develop + t.staging + t.release + t.main)
                           else Tips(t.develop + t.main + t.release, t.staging, t.release, t.main + t.release))
            && w'.head == Develop
            && w'.tips.release <= w'.tips.main <= w'.tips.develop
  {
    OkFrom(StartOf(Loaded(w, env)), w, cfg, env);
    SecondRound(w.tips);
    FinishingContents(w.tips);
  }

  lemma FinishingContents(t: Tips)
    ensures AfterRelease(t) == Tips(t.develop + t.main + t.release, t.staging, t.release, t.main + t.release)
  {
  }

  /** Such a run brings everything on develop into main exactly when it began at the promotion, or there
      was nothing on develop that main and release lacked. */
  lemma OkRunPromotesExactly(w: World, cfg: Config, env: Env)
    requires !cfg.dryRun && Run(w, cfg, env).1
    ensures var start := Loaded(w, env);
            w.tips.develop <= Run(w, cfg, env).0.tips.main <==>
            (start.Present? ==> start.phase == Promoting) || w.tips.develop <= w.tips.release + w.tips.main
  {
    OkFrom(StartOf(Loaded(w, env)), w, cfg, env);
  }

  // One cycle: from the state file's appearance to its removal, however many runs that takes.

  /** `goal` is still what the merges to come lead to, from where the saved state would resume. */
  ghost predicate OnTheWay(goal: Tips, w: World) {
    && w.saved.Present?
    && Remaining(StartOf(w.saved), w.tips) == goal
    && (w.pending.Conflicted? ==>
          && w.pending.what == w.tips.At(w.pending.from)
          && (|| (w.saved.phase == Promoting && w.head == Staging && w.pending.from == Develop)
              || (w.saved.phase == Promoting && w.head == Release && w.pending.from == Staging
                  && w.tips.develop <= w.tips.staging)
              || (w.saved.phase == Finishing && w.head == Main && w.pending.from == Release)
              || (w.saved.phase == Finishing && w.head == Develop && w.pending.from == Main
                  && w.tips.release <= w.tips.main)))
  }

  ghost predicate InCyclePlace(pc: nat, goal: Tips, w: World) {
    && Remaining(pc, w.tips) == goal && HeadInPlace(pc, w)
    && (2 <= pc <= 14 ==> OnTheWay(goal, w))
    && (2 <= pc <= 6 ==> w.saved.phase == Promoting)
    && (7 <= pc <= 8 ==> w.saved.phase == CiGate)
    && (9 <= pc <= 14 ==> w.saved.phase == Finishing)
    && (pc == 15 ==> w.saved.Present? ==> OnTheWay(goal, w))
    && (10 <= pc ==> w.pending == Settled)
    && (4 <= pc <= 6 ==> w.tips.develop <= w.tips.staging)
    && (pc == 6 ==> w.tips.staging <= w.tips.release)
    && (11 <= pc ==> w.tips.release <= w.tips.main)
    && (13 <= pc ==> w.tips == goal)
  }

  /** In a round that began at `b` and leads to `goal`: it is done, or a new one begun here leads to the
      same and develop is as it was. */
  ghost predicate WithinRound(b: Tips, goal: Tips, t: Tips) {
    t == goal || (AfterDevelop(t) == goal && t.develop == b.develop)
  }

  ghost predicate InRound(b: Tips, goal: Tips, w: World) {
    && (if w.saved.Present? then OnTheWay(goal, w) else w.pending == Settled)
    && WithinRound(b, goal, w.tips)
  }

  lemma CycleEffect(pc: nat, goal: Tips, w: World, cfg: Config, o: Outcome)
    requires PROMOTE <= pc < 15 && !cfg.dryRun && InCyclePlace(pc, goal, w) && w.pending == Settled
    ensures var (w', goesOn) := Effect(PROGRAM[pc], w, cfg, o);
            && (goesOn ==> InCyclePlace(pc + 1, goal, w') && w'.pending == Settled)
            && (if w'.saved.Present? then OnTheWay(goal, w') else w'.pending == Settled)
  {
  }

  lemma EffectWithinRound(pc: nat, b: Tips, goal: Tips, w: World, cfg: Config, o: Outcome)
    requires PROMOTE <= pc < 15 && !cfg.dryRun && InCyclePlace(pc, goal, w) && w.pending == Settled
    requires WithinRound(b, goal, w.tips)
    ensures WithinRound(b, goal, Effect(PROGRAM[pc], w, cfg, o).0.tips)
  {
  }

  lemma {:induction false} CycleRun(pc: nat, b: Tips, goal: Tips, w: World, cfg: Config, env: Env)
    requires PROMOTE <= pc < 15 && !cfg.dryRun && InCyclePlace(pc, goal, w) && w.pending == Settled
    requires WithinRound(b, goal, w.tips)
    ensures InRound(b, goal, RunFrom(pc, w, cfg, env).0)
    decreases END - pc
  {
    CycleEffect(pc, goal, w, cfg, env.outcome(pc));
    EffectWithinRound(pc, b, goal, w, cfg, env.outcome(pc));
    var (w', goesOn) := Effect(PROGRAM[pc], w, cfg, env.outcome(pc));
    if goesOn {
      if pc == 14 {
        assert RunFrom(15, w', cfg, env).0 == w';
      } else {
        CycleRun(pc + 1, b, goal, w', cfg, env);
      }
    }
  }

  /** The contents at which the last round began, `t` if none has begun since the log had `n` events. */
  function LastBegun(log: seq<Event>, n: nat, t: Tips): Tips {
    if |log| <= n then t
    else if log[|log| - 1].Begun? then log[|log| - 1].tips
    else LastBegun(log[..|log| - 1], n, t)
  }

  lemma LastBegunOf(log: seq<Event>, e: Event, n: nat, t: Tips)
    requires n <= |log|
    ensures LastBegun(log + [e], n, t) == if e.Begun? then e.tips else LastBegun(log, n, t)
  {
    assert (log + [e])[..|log|] == log;
  }

  lemma NothingBegins(pc: nat, w: World, cfg: Config, o: Outcome, n: nat, t: Tips)
    requires PROMOTE <= pc < END && n <= |w.log|
    ensures var log := Effect(PROGRAM[pc], w, cfg, o).0.log;
            n <= |log| && LastBegun(log, n, t) == LastBegun(w.log, n, t)
  {
    var log := Effect(PROGRAM[pc], w, cfg, o).0.log;
    if |log| > |w.log| {
      LastBegunOf(w.log, log[|w.log|], n, t);
      assert log == w.log + [log[|w.log|]];
    }
  }

  lemma {:induction false} NothingBeginsFrom(pc: nat, w: World, cfg: Config, env: Env, n: nat, t: Tips)
    requires PROMOTE <= pc && n <= |w.log|
    ensures var log := RunFrom(pc, w, cfg, env).0.log;
            n <= |log| && LastBegun(log, n, t) == LastBegun(w.log, n, t)
    decreases END - pc
  {
    if pc < END {
      NothingBegins(pc, w, cfg, env.outcome(pc), n, t);
      var (w', goesOn) := Effect(PROGRAM[pc], w, cfg, env.outcome(pc));
      if goesOn {
        NothingBeginsFrom(pc + 1, w', cfg, env, n, t);
      }
    }
  }

  /** The world once a fresh run has recorded its first phase. */
  function Started(w: World): World {
    w.(saved := Present(Promoting, []), log := w.log + [Begun(w.tips)])
  }

  lemma StartsOrNot(pc: nat, w: World, cfg: Config, env: Env)
    requires pc == BEGIN && !cfg.dryRun
    ensures RunFrom(pc, w, cfg, env) == (w, false)
            || (w.pending == Settled && RunFrom(pc, w, cfg, env) == RunFrom(pc + 2, Started(w), cfg, env))
  {
    if Effect(PROGRAM[pc], w, cfg, env.outcome(pc)).1 {
      var (w1, goesOn) := Effect(PROGRAM[pc + 1], w, cfg, env.outcome(pc + 1));
      if goesOn {
        assert w1 == Started(w);
        assert RunFrom(pc + 1, w, cfg, env) == RunFrom(pc + 2, w1, cfg, env);
      } else {
        assert RunFrom(pc + 1, w, cfg, env) == (w1, false);
      }
    }
  }

  /** How one run leaves the round it found, and the contents its round began at. */
  ghost predicate RunEnds(b: Tips, w: World, w': World, ok: bool, n: nat, t: Tips) {
    && n <= |w'.log| && b == LastBegun(w'.log, n, t) && InRound(b, AfterDevelop(b), w')
    && (ok ==> w'.tips == AfterDevelop(b) && w'.head == Develop)
  }

  lemma FreshRunEnds(pc: nat, b: Tips, w: World, cfg: Config, env: Env, n: nat, t: Tips) returns (b': Tips)
    requires pc == BEGIN && !cfg.dryRun && n <= |w.log|
    requires b == LastBegun(w.log, n, t) && InRound(b, AfterDevelop(b), w)
    ensures RunEnds(b', w, RunFrom(pc, w, cfg, env).0, RunFrom(pc, w, cfg, env).1, n, t)
    ensures b' == b || b' == w.tips
  {
    b' := b;
    StartsOrNot(pc, w, cfg, env);
    if RunFrom(pc, w, cfg, env) != (w, false) {
      b' := w.tips;
      LastBegunOf(w.log, Begun(w.tips), n, t);
      StartedRunEnds(pc + 2, Started(w), cfg, env, n, t);
    }
  }

  lemma StartedRunEnds(pc: nat, w: World, cfg: Config, env: Env, n: nat, t: Tips)
    requires pc == PROMOTE && !cfg.dryRun && w.saved == Present(Promoting, []) && w.pending == Settled
    requires n <= |w.log| && w.tips == LastBegun(w.log, n, t)
    ensures RunEnds(w.tips, w, RunFrom(pc, w, cfg, env).0, RunFrom(pc, w, cfg, env).1, n, t)
  {
    NothingBeginsFrom(pc, w, cfg, env, n, t);
    CycleRun(pc, w.tips, AfterDevelop(w.tips), w, cfg, env);
    OkFrom(pc, w, cfg, env);
  }

  lemma ResumedRunEnds(b: Tips, w: World, cfg: Config, env: Env, n: nat, t: Tips)
    requires w.saved.Present? && !cfg.dryRun && n <= |w.log|
    requires b == LastBegun(w.log, n, t) && InRound(b, AfterDevelop(b), w)
    ensures var (w', ok) := RunFrom(StartOf(w.saved), w, cfg, env);
            RunEnds(b, w, w', ok, n, t)
  {
    var pc := StartOf(w.saved);
    NothingBeginsFrom(pc, w, cfg, env, n, t);
    OkFrom(pc, w, cfg, env);
    if w.pending == Settled {
      CycleRun(pc, b, AfterDevelop(b), w, cfg, env);
    } else {
      ConflictsStop(pc, w, cfg, env);
    }
  }

  lemma ConflictsStop(pc: nat, w: World, cfg: Config, env: Env)
    requires !cfg.dryRun && w.pending.Conflicted? && (pc == PROMOTE || pc == FINISH)
    ensures RunFrom(pc, w, cfg, env) == (HalfWritten(w, env.outcome(pc)), false)
  {
  }

  lemma AnyRunEnds(b: Tips, w: World, cfg: Config, env: Env, n: nat, t: Tips) returns (b': Tips)
    requires !cfg.dryRun && n <= |w.log| && b == LastBegun(w.log, n, t) && InRound(b, AfterDevelop(b), w)
    ensures RunEnds(b', w, Run(w, cfg, env).0, Run(w, cfg, env).1, n, t)
    ensures b' == b || b' == w.tips
  {
    if Loaded(w, env) == Absent {
      b' := FreshRunEnds(BEGIN, b, w, cfg, env, n, t);
    } else {
      b' := b;
      ResumedRunEnds(b, w, cfg, env, n, t);
    }
  }

  /** What the comparison with one run allows: everything but new commits. */
  ghost predicate Undisturbed(a: Action) {
    !a.Commit?
  }

  ghost predicate AllUndisturbed(actions: seq<Action>) {
    forall i :: 0 <= i < |actions| ==> Undisturbed(actions[i])
  }

  lemma PeopleStayInRound(b: Tips, goal: Tips, w: World, a: Action)
    requires InRound(b, goal, w) && !a.Auto? && !a.Commit?
    ensures InRound(b, goal, Act(w, a))
  {
  }

  lemma PeopleBeginNothing(w: World, a: Action, n: nat, t: Tips)
    requires !a.Auto? && n <= |w.log|
    ensures n <= |Act(w, a).log| && LastBegun(Act(w, a).log, n, t) == LastBegun(w.log, n, t)
  {
    if a.ConcludeMerge? && w.pending.Conflicted? {
      LastBegunOf(w.log, Merged(w.head, w.pending.from, w.pending.what), n, t);
    }
  }

  /** From contents `t` a round begins at the same develop and leads to the same, or it is a second one. */
  ghost predicate Reached(t: Tips, b: Tips) {
    || (AfterDevelop(b) == AfterDevelop(t) && b.develop == t.develop)
    || (AfterDevelop(b) == AfterDevelop(AfterDevelop(t)) && b.develop == AfterDevelop(t).develop)
  }

  lemma ReachedOn(t: Tips, b: Tips, b': Tips)
    requires Reached(t, b) && WithinRound(b, AfterDevelop(b), b')
    ensures Reached(t, b')
  {
    SecondRound(t);
  }

  lemma {:induction false} HistoryGoesRound(w: World, actions: seq<Action>) returns (b: Tips)
    requires w.saved == Absent && w.pending == Settled && AllUndisturbed(actions)
    ensures |w.log| <= |After(w, actions).log| && b == LastBegun(After(w, actions).log, |w.log|, w.tips)
    ensures InRound(b, AfterDevelop(b), After(w, actions)) && Reached(w.tips, b)
  {
    if actions == [] {
      return w.tips;
    }
    var front, last := actions[..|actions| - 1], actions[|actions| - 1];
    b := HistoryGoesRound(w, front);
    var w1 := After(w, front);
    if !last.Auto? {
      PeopleStayInRound(b, AfterDevelop(b), w1, last);
      PeopleBeginNothing(w1, last, |w.log|, w.tips);
    } else if last.cfg.dryRun {
      DryRunKeeps(StartOf(Loaded(w1, last.env)), w1, last.cfg, last.env);
    } else {
      var b' := AnyRunEnds(b, w1, last.cfg, last.env, |w.log|, w.tips);
      if b' != b {
        ReachedOn(w.tips, b, b');
      }
      b := b';
    }
  }

  /** However many runs there were, wherever each was cut off, whether or not they could read the state, and
      whoever finished their merges, a run that returns without error leaves the branches as one
      uninterrupted run would from the contents at which the last round began. */
  lemma InterruptedRunsGoRound(w: World, actions: seq<Action>, cfg: Config, env: Env) returns (b: Tips)
    requires w.saved == Absent && w.pending == Settled && AllUndisturbed(actions)
    requires !cfg.dryRun && Run(After(w, actions), cfg, env).1
    ensures b == LastBegun(Run(After(w, actions), cfg, env).0.log, |w.log|, w.tips) && Reached(w.tips, b)
    ensures Run(After(w, actions), cfg, env).0.tips == AfterDevelop(b)
    ensures Run(After(w, actions), cfg, env).0.head == Develop
  {
    var b0 := HistoryGoesRound(w, actions);
    b := AnyRunEnds(b0, After(w, actions), cfg, env, |w.log|, w.tips);
    if b != b0 {
      ReachedOn(w.tips, b0, b);
    }
  }

  ghost predicate NothingOnlyDownstream(t: Tips) {
    t.main + t.release <= t.staging + t.develop
  }

  /** The second round carries what only main or release had to staging; the third changes nothing. */
  lemma SecondRound(t: Tips)
    ensures var all := t.develop + t.staging + t.release + t.main;
            && AfterDevelop(t) == Tips(all, t.staging + t.develop, t.release + t.staging + t.develop, all)
            && AfterDevelop(AfterDevelop(t)) == Tips(all, all, all, all)
            && AfterDevelop(Tips(all, all, all, all)) == Tips(all, all, all, all)
  {
  }

  /** That is what one uninterrupted run leaves if and only if develop was, when the last round began, still
      what it had been, or main and release held nothing that staging and develop lacked. Either way develop
      went all the way round. */
  lemma InterruptedEqualsUninterruptedExactly(w: World, actions: seq<Action>, cfg: Config, env: Env, calm: Env)
    requires w.saved == Absent && w.pending == Settled && AllUndisturbed(actions) && AllWorks(calm)
    requires !cfg.dryRun && Run(After(w, actions), cfg, env).1
    ensures var after := Run(After(w, actions), cfg, env).0;
            var uninterrupted := Run(w.(head := Develop, dirty := false), cfg, calm);
            && uninterrupted.1
            && (after.tips == uninterrupted.0.tips <==>
                  || LastBegun(after.log, |w.log|, w.tips).develop == w.tips.develop
                  || NothingOnlyDownstream(w.tips))
            && Chain(w.tips.develop, after.tips) && after.head == Develop
  {
    var b := InterruptedRunsGoRound(w, actions, cfg, env);
    SecondRound(w.tips);
    CalmRunCompletesExactly(w.(head := Develop, dirty := false), cfg, calm);
    OkRunContents(w.(head := Develop, dirty := false), cfg, calm);
  }

  ghost predicate ClearedSince(log: seq<Event>, n: nat) {
    exists i :: n <= i < |log| && log[i].Cleared?
  }

  lemma ClearedStays(log: seq<Event>, longer: seq<Event>, n: nat)
    requires log <= longer && ClearedSince(log, n)
    ensures ClearedSince(longer, n)
  {
    var i :| n <= i < |log| && log[i].Cleared?;
    assert longer[i] == log[i];
  }

  lemma EffectStaysSaved(pc: nat, w: World, cfg: Config, o: Outcome, n: nat)
    requires pc < END && !cfg.dryRun && w.saved.Present? && n <= |w.log|
    ensures var w' := Effect(PROGRAM[pc], w, cfg, o).0;
            w'.saved.Present? || ClearedSince(w'.log, n)
  {
    var w' := Effect(PROGRAM[pc], w, cfg, o).0;
    if w'.saved == Absent {
      assert w'.log[|w.log|].Cleared?;
    }
  }

  lemma {:induction false} StaysSaved(pc: nat, w: World, cfg: Config, env: Env, n: nat)
    requires !cfg.dryRun && w.saved.Present? && n <= |w.log|
    ensures var w' := RunFrom(pc, w, cfg, env).0;
            w'.saved.Present? || ClearedSince(w'.log, n)
    decreases END - pc
  {
    if pc < END {
      EffectStaysSaved(pc, w, cfg, env.outcome(pc), n);
      EffectLogs(pc, w, cfg, env.outcome(pc));
      var (w', goesOn) := Effect(PROGRAM[pc], w, cfg, env.outcome(pc));
      if goesOn {
        if w'.saved.Present? {
          StaysSaved(pc + 1, w', cfg, env, n);
        } else {
          RunLogs(pc + 1, w', cfg, env);
          ClearedStays(w'.log, RunFrom(pc + 1, w', cfg, env).0.log, n);
        }
      }
    }
  }

  /** The first round is still under way, or has not begun. */
  ghost predicate FirstRound(t: Tips, n: nat, w: World) {
    n <= |w.log| && LastBegun(w.log, n, t) == t && (w.saved == Absent ==> w.tips == t)
  }

  lemma RunInFirstRound(t: Tips, n: nat, w: World, cfg: Config, env: Env)
    requires FirstRound(t, n, w) && !cfg.dryRun && env.readable
    ensures var w' := Run(w, cfg, env).0;
            && n <= |w'.log| && LastBegun(w'.log, n, t) == t
            && (FirstRound(t, n, w') || ClearedSince(w'.log, n))
  {
    if w.saved == Absent {
      StartsOrNot(BEGIN, w, cfg, env);
      if Run(w, cfg, env) != (w, false) {
        LastBegunOf(w.log, Begun(w.tips), n, t);
        NothingBeginsFrom(PROMOTE, Started(w), cfg, env, n, t);
        StaysSaved(PROMOTE, Started(w), cfg, env, n);
      }
    } else {
      NothingBeginsFrom(StartOf(w.saved), w, cfg, env, n, t);
      StaysSaved(StartOf(w.saved), w, cfg, env, n);
    }
  }

  ghost predicate AllReadable(actions: seq<Action>) {
    forall i :: 0 <= i < |actions| && actions[i].Auto? ==> actions[i].env.readable
  }

  lemma ActionLogs(w: World, a: Action)
    ensures w.log <= Act(w, a).log
  {
    if a.Auto? {
      RunLogs(StartOf(Loaded(w, a.env)), w, a.cfg, a.env);
    }
  }

  lemma {:induction false} UnclearedIsFirstRound(w: World, actions: seq<Action>)
    requires w.saved == Absent && w.pending == Settled && AllUndisturbed(actions) && AllReadable(actions)
    requires !ClearedSince(After(w, actions).log, |w.log|)
    ensures FirstRound(w.tips, |w.log|, After(w, actions))
  {
    if actions != [] {
      var front, last := actions[..|actions| - 1], actions[|actions| - 1];
      var w1 := After(w, front);
      ActionLogs(w1, last);
      if ClearedSince(w1.log, |w.log|) {
        ClearedStays(w1.log, After(w, actions).log, |w.log|);
      }
      UnclearedIsFirstRound(w, front);
      if !last.Auto? {
        var b := HistoryGoesRound(w, front);
        PeopleBeginNothing(w1, last, |w.log|, w.tips);
      } else if last.cfg.dryRun {
        DryRunKeeps(StartOf(Loaded(w1, last.env)), w1, last.cfg, last.env);
      } else {
        RunInFirstRound(w.tips, |w.log|, w1, last.cfg, last.env);
      }
    }
  }

  /** In particular it is what one uninterrupted run leaves as long as the state was readable throughout and
      had not been cleared before. */
  lemma FirstRoundEqualsUninterrupted(w: World, actions: seq<Action>, cfg: Config, env: Env, calm: Env)
    requires w.saved == Absent && w.pending == Settled && AllUndisturbed(actions) && AllReadable(actions)
    requires !ClearedSince(After(w, actions).log, |w.log|) && AllWorks(calm)
    requires !cfg.dryRun && env.readable && Run(After(w, actions), cfg, env).1
    ensures Run(After(w, actions), cfg, env).0.tips == Run(w.(head := Develop, dirty := false), cfg, calm).0.tips
  {
    UnclearedIsFirstRound(w, actions);
    RunInFirstRound(w.tips, |w.log|, After(w, actions), cfg, env);
    InterruptedEqualsUninterruptedExactly(w, actions, cfg, env, calm);
  }

  /** The run dies after the state file was removed. */
  function DyingAtTheEnd(env: Env): Env {
    Env(true, (pc: nat) => if pc == 15 then Stops(false, false) else env.outcome(pc))
  }

  /** A run that dies between the removal of the state file and its return: the next run goes round again,
      which shows exactly when main or release held something staging and develop lacked. */
  lemma DyingAfterRemovalExactly(w: World, cfg: Config, calm: Env)
    requires !cfg.dryRun && AllWorks(calm)
    requires w.saved == Absent && w.pending == Settled && !w.dirty && w.head == Develop
    ensures var (cut, ok) := Run(w, cfg, DyingAtTheEnd(calm));
            && !ok && Run(cut, cfg, calm).1
            && (Run(cut, cfg, calm).0.tips == Run(w, cfg, calm).0.tips <==> NothingOnlyDownstream(w.tips))
  {
    DyingClears(BEGIN, w, cfg, calm);
    var cut := Run(w, cfg, DyingAtTheEnd(calm)).0;
    CalmRunCompletesExactly(w, cfg, calm);
    OkRunContents(w, cfg, calm);
    CalmRunCompletesExactly(cut, cfg, calm);
    OkRunContents(cut, cfg, calm);
    SecondRound(w.tips);
  }

  /** An input: one commit that only main has. */
  lemma DyingAfterRemovalShows(w: World, cfg: Config, calm: Env)
    requires !cfg.dryRun && AllWorks(calm)
    requires w == World(Tips({}, {}, {}, {1}), Develop, Settled, false, Absent, [])
    ensures var again := Run(Run(w, cfg, DyingAtTheEnd(calm)).0, cfg, calm);
            again.1 && again.0.tips != Run(w, cfg, calm).0.tips
  {
    DyingAfterRemovalExactly(w, cfg, calm);
    assert 1 in w.tips.main + w.tips.release;
  }

  lemma {:induction false} DyingClears(pc: nat, w: World, cfg: Config, calm: Env)
    requires pc <= 15 && !cfg.dryRun && w.pending == Settled && !w.dirty && AllWorks(calm)
    requires HeadInPlace(pc, w) && (pc == 0 ==> w.head == Develop)
    ensures var (w', ok) := RunFrom(pc, w, cfg, DyingAtTheEnd(calm));
            && !ok && w'.pending == Settled && !w'.dirty && w'.head == Develop && w'.tips == Remaining(pc, w.tips)
            && w'.saved == if pc <= 14 then Absent else w.saved
    decreases END - pc
  {
    var o := DyingAtTheEnd(calm).outcome(pc);
    if pc < 15 {
      assert o == calm.outcome(pc) && o.Works?;
      var w' := Effect(PROGRAM[pc], w, cfg, o).0;
      assert Remaining(pc + 1, w'.tips) == Remaining(pc, w.tips);
      DyingClears(pc + 1, w', cfg, calm);
    } else {
      assert o == Stops(false, false);
    }
  }

  /** Everything works and CI passes; merges may meet conflicts, which are resolved. */
  ghost predicate AllWorks(env: Env) {
    env.readable && forall pc :: env.outcome(pc).Works?
  }

  lemma {:induction false} CalmGoesOn(pc: nat, w: World, cfg: Config, env: Env)
    requires !cfg.dryRun && w.pending == Settled && AllWorks(env)
    requires pc == 0 ==> w.head == Develop && !w.dirty
    ensures RunFrom(pc, w, cfg, env).1
    ensures RunFrom(pc, w, cfg, env).0.saved == if pc <= 14 then Absent else w.saved
    decreases END - pc
  {
    if pc < END {
      assert env.outcome(pc).Works?;
      CalmGoesOn(pc + 1, Effect(PROGRAM[pc], w, cfg, env.outcome(pc)).0, cfg, env);
    }
  }

  /** A run in which everything works and CI passes completes, and clears the state, exactly when no
      merge is left half done and, if it starts afresh, develop is checked out with nothing uncommitted. */
  lemma CalmRunCompletesExactly(w: World, cfg: Config, env: Env)
    requires !cfg.dryRun && AllWorks(env)
    ensures var (w', ok) := Run(w, cfg, env);
            && (ok <==> w.pending == Settled && (w.saved == Absent ==> w.head == Develop && !w.dirty))
            && (ok ==> w'.saved == Absent)
  {
    if w.pending == Settled {
      if w.saved.Present? || (w.head == Develop && !w.dirty) {
        CalmGoesOn(StartOf(w.saved), w, cfg, env);
      }
    } else {
      StuckOnMerge(StartOf(w.saved), w, cfg, env);
    }
  }

  /** No run gets past a half-done merge, whatever its outcomes. */
  lemma {:induction false} StuckOnMerge(pc: nat, w: World, cfg: Config, env: Env)
    requires !cfg.dryRun && w.pending.Conflicted? && pc <= 9
    ensures !RunFrom(pc, w, cfg, env).1
    decreases END - pc
  {
    if pc < 9 {
      var (w', goesOn) := Effect(PROGRAM[pc], w, cfg, env.outcome(pc));
      if goesOn {
        StuckOnMerge(pc + 1, w', cfg, env);
      }
    }
  }
}
