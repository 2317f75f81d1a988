/** `flow auto` as it runs: one object for the repository and its state file, effects that change it in
    place, and early returns. */
module FlowAuto {
  import opened FlowModel
  import opened FlowAnswers
  import FlowSafety

  class Workspace {
    const cfg: Config
    var tips: Tips
    var head: Branch
    var pending: Pending
    var dirty: bool
    var saved: Saved
    ghost var log: seq<Event>

    ghost function View(): World
      reads this
    {
      World(tips, head, pending, dirty, saved, log)
    }

    constructor (cfg: Config, tips: Tips, head: Branch)
      ensures this.cfg == cfg && View() == World(tips, head, Settled, false, Absent, [])
    {
      this.cfg, this.tips, this.head := cfg, tips, head;
      pending, dirty, saved, log := Settled, false, Absent, [];
    }

    method RequireDevelopReady(o: Outcome) returns (ok: bool)
      ensures (View(), ok) == Effect(Preflight, View(), cfg, o)
    {
      ok := head == Develop && pending == Settled && !dirty && o.Works?;
    }

    method SaveState(phase: Phase, o: Outcome) returns (ok: bool)
      modifies this
      ensures (View(), ok) == Effect(Save(phase), old(View()), cfg, o)
    {
      if cfg.dryRun {
        return !o.Stops?;
      }
      if !o.Works? {
        return false;
      }
      saved := Present(phase, []);
      log := Noted(log, phase, tips);
      return true;
    }

    method LeaveHalfWritten(o: Outcome)
      modifies this
      ensures View() == HalfWritten(old(View()), o)
    {
      if o.Stops? && o.leavesEdits {
        dirty := true;
      }
    }

    method CheckoutBranch(branch: Branch, o: Outcome) returns (ok: bool)
      modifies this
      ensures (View(), ok) == Effect(Checkout(branch), old(View()), cfg, o)
    {
      if cfg.dryRun {
        return !o.Stops?;
      }
      if !o.Works? || pending != Settled {
        LeaveHalfWritten(o);
        return false;
      }
      head := branch;
      return true;
    }

    method MergeWithResolution(from: Branch, o: Outcome) returns (ok: bool, conflicts: nat)
      modifies this
      ensures (View(), ok) == Effect(Merge(from), old(View()), cfg, o)
      ensures conflicts == if ok && !cfg.dryRun then o.conflicts else 0
    {
      if cfg.dryRun {
        return !o.Stops?, 0;
      }
      if pending != Settled {
        return false, 0;
      }
      match o
      case Works(n) =>
        var what := tips.At(from);
        tips := tips.Add(head, what);
        log := log + [Merged(head, from, what)];
        return true, n;
      case Stops(leavesConflicts, _) =>
        if leavesConflicts {
          pending := Conflicted(from, tips.At(from));
        }
        LeaveHalfWritten(o);
        return false, 0;
      case _ =>
        return false, 0;
    }

    method RunCiHere(o: Outcome) returns (passed: bool)
      modifies this
      ensures (View(), passed) == Effect(RunCi, old(View()), cfg, o)
    {
      if cfg.dryRun {
        return o.Works?;
      }
      match o
      case Works(_) =>
        log := log + [Pass(View())];
        return true;
      case CiPassesEditing =>
        log := log + [CiPassedOnEdits(head)];
        dirty := true;
        return true;
      case CiFails(failed, recorded, edits) =>
        log := log + [CiFailed(head)];
        dirty := dirty || edits;
        if recorded {
          saved := Present(CiGate, failed);
        }
        return false;
      case _ =>
        LeaveHalfWritten(o);
        return false;
    }

    /** Nothing is pushed unless a push is wanted; then it is pushed, or the run stops. */
    method PushBranches(o: Outcome) returns (ok: bool)
      modifies this
      ensures log == if cfg.push && !cfg.dryRun && ok then old(log) + [Pushed(tips)] else old(log)
      ensures cfg.push && !cfg.dryRun ==> (ok <==> o.Works?)
      ensures (View(), ok) == Effect(Push, old(View()), cfg, o)
    {
      if !cfg.push || cfg.dryRun {
        return !o.Stops?;
      }
      if !o.Works? {
        return false;
      }
      log := log + [Pushed(tips)];
      return true;
    }

    method ClearState(o: Outcome) returns (ok: bool)
      modifies this
      ensures (View(), ok) == Effect(Clear, old(View()), cfg, o)
    {
      if cfg.dryRun {
        return !o.Stops?;
      }
      if o.Works? {
        saved := Absent;
        log := log + [Cleared(tips, cfg.push)];
        return true;
      }
      return o == RemovalFails;
    }

    /** Check out one branch and merge another into it: the effects at `pc` and the place after. */
    method MergeInto(branch: Branch, from: Branch, pc: nat, env: Env) returns (ok: bool, conflicts: nat)
      requires pc + 1 < END && PROGRAM[pc] == Checkout(branch) && PROGRAM[pc + 1] == Merge(from)
      modifies this
      ensures RunFrom(pc, old(View()), cfg, env) == if ok then RunFrom(pc + 2, View(), cfg, env) else (View(), false)
      ensures ok && !cfg.dryRun ==> conflicts + ConflictsFrom(pc + 2, env) == ConflictsFrom(pc, env)
      ensures cfg.dryRun ==> conflicts == 0
    {
      conflicts := 0;
      ok := CheckoutBranch(branch, env.outcome(pc));
      if !ok { return; }
      ok, conflicts := MergeWithResolution(from, env.outcome(pc + 1));
    }

    /** A run that resumes nothing checks that develop is ready and records that it began. */
    method Begin(pc: nat, env: Env) returns (ok: bool)
      requires pc == BEGIN
      modifies this
      ensures RunFrom(pc, old(View()), cfg, env) == if ok then RunFrom(pc + 2, View(), cfg, env) else (View(), false)
      ensures ConflictsFrom(pc, env) == ConflictsFrom(pc + 2, env)
    {
      ok := RequireDevelopReady(env.outcome(pc));
      if !ok { return; }
      ok := SaveState(Promoting, env.outcome(pc + 1));
    }

    method Promote(pc: nat, env: Env) returns (ok: bool, conflicts: nat)
      requires pc == PROMOTE
      modifies this
      ensures RunFrom(pc, old(View()), cfg, env) == if ok then RunFrom(pc + 5, View(), cfg, env) else (View(), false)
      ensures ok && !cfg.dryRun ==> conflicts + ConflictsFrom(pc + 5, env) == ConflictsFrom(pc, env)
      ensures cfg.dryRun ==> conflicts == 0
    {
      var n: nat;
      ok, conflicts := MergeInto(Staging, Develop, pc, env);
      if !ok { return; }
      ok, n := MergeInto(Release, Staging, pc + 2, env);
      if !ok { return; }
      conflicts := conflicts + n;
      ok := SaveState(CiGate, env.outcome(pc + 4));
    }

    method PassCi(pc: nat, env: Env) returns (ok: bool)
      requires pc == GATE
      modifies this
      ensures RunFrom(pc, old(View()), cfg, env) == if ok then RunFrom(pc + 2, View(), cfg, env) else (View(), false)
      ensures ConflictsFrom(pc, env) == ConflictsFrom(pc + 2, env)
    {
      ok := RunCiHere(env.outcome(pc));
      if !ok { return; }
      ok := SaveState(Finishing, env.outcome(pc + 1));
    }

    method Finish(pc: nat, env: Env) returns (ok: bool, conflicts: nat)
      requires pc == FINISH
      modifies this
      ensures RunFrom(pc, old(View()), cfg, env) == (View(), ok)
      ensures ok ==> conflicts == if cfg.dryRun then 0 else ConflictsFrom(pc, env)
    {
      var n: nat;
      ok, conflicts := MergeInto(Main, Release, pc, env);
      if !ok { return; }
      ok, n := MergeInto(Develop, Main, pc + 2, env);
      if !ok { return; }
      conflicts := conflicts + n;
      ok := PushAndClear(pc + 4, env);
    }

    /** The push comes first, so that a failed push leaves the state to resume from. */
    method PushAndClear(pc: nat, env: Env) returns (ok: bool)
      requires pc == FINISH + 4
      modifies this
      ensures RunFrom(pc, old(View()), cfg, env) == (View(), ok)
      ensures ConflictsFrom(pc, env) == 0
    {
      NoMergesLeft(pc, env);
      ok := PushBranches(env.outcome(pc));
      if !ok { return; }
      assert RunFrom(pc, old(View()), cfg, env) == RunFrom(pc + 1, View(), cfg, env);
      ok := ClearState(env.outcome(pc + 1));
      if !ok { return; }
      assert RunFrom(pc, old(View()), cfg, env) == RunFrom(pc + 2, View(), cfg, env);
      assert RunFrom(pc + 3, View(), cfg, env) == (View(), true);
      ok := !env.outcome(pc + 2).Stops?;
    }

    /** The whole run: what it computes, when it returns without error, what it pushes, and the conflicts it
        reports. */
    method AutoWithCi(env: Env) returns (ok: bool, conflicts: nat)
      modifies this
      ensures Run(old(View()), cfg, env) == (View(), ok)
      ensures FlowSafety.Inv(old(View())) && FlowSafety.Allowed(old(View()), Auto(cfg, env)) ==>
                FlowSafety.Inv(View())
      ensures var start := Start(old(View()), env);
              ok <==>
              && (start == 0 ==> old(head) == Develop && old(pending) == Settled && !old(dirty))
              && (if cfg.dryRun then forall k :: start <= k < 16 ==> PassesDry(k, env.outcome(k))
                  else old(pending) == Settled && forall k :: start <= k < 16 ==> Passes(k, cfg, env.outcome(k)))
      ensures !cfg.push || cfg.dryRun ==> forall i :: |old(log)| <= i < |log| ==> !log[i].Pushed?
      ensures ok && !cfg.dryRun ==> (cfg.push <==> exists i :: |old(log)| <= i < |log| && log[i] == Pushed(tips))
      ensures ok && !cfg.dryRun ==>
                conflicts == (if Start(old(View()), env) <= 2 then ConflictsAt(env, 3) + ConflictsAt(env, 5) else 0)
                             + ConflictsAt(env, 10) + ConflictsAt(env, 12)
      ensures ok && cfg.dryRun ==> conflicts == 0
    {
      FlowSafety.AllowedRunKeeps(View(), cfg, env);
      RunReturnsExactly(View(), cfg, env);
      RunPushesExactly(View(), cfg, env);
      ConflictsAreSummed(env, Start(View(), env));
      var resumed := if env.readable then saved else Absent;
      ok, conflicts := RunPhases(resumed, env);
    }

    /** The phases from the resumed one on. */
    method RunPhases(resumed: Saved, env: Env) returns (ok: bool, conflicts: nat)
      modifies this
      ensures RunFrom(StartOf(resumed), old(View()), cfg, env) == (View(), ok)
      ensures ok ==> conflicts == if cfg.dryRun then 0 else ConflictsFrom(StartOf(resumed), env)
    {
      var pc := StartOf(resumed);
      conflicts := 0;
      if resumed == Absent || resumed.phase == Promoting {
        if resumed == Absent {
          ok := Begin(pc, env);
          if !ok { return; }
          pc := pc + 2;
        }
        ok, conflicts := Promote(pc, env);
        if !ok { return; }
        pc := pc + 5;
      }
      var n: nat;
      ok, n := RunFromGate(pc, env);
      conflicts := conflicts + n;
    }

    method RunFromGate(pc: nat, env: Env) returns (ok: bool, conflicts: nat)
      requires pc == GATE || pc == FINISH
      modifies this
      ensures RunFrom(pc, old(View()), cfg, env) == (View(), ok)
      ensures ok ==> conflicts == if cfg.dryRun then 0 else ConflictsFrom(pc, env)
    {
      if pc == GATE {
        ok := PassCi(pc, env);
        if !ok { return false, 0; }
        ok, conflicts := Finish(pc + 2, env);
      } else {
        ok, conflicts := Finish(pc, env);
      }
    }
  }
}
