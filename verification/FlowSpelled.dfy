/** The world a run of `flow auto` leaves, written out by the place it stops at: one formula for the contents
    of each branch, the checked-out branch, the saved state, a half-done merge and the working tree. */
module FlowSpelled {
  import opened FlowModel
  import opened FlowAnswers

  // A run from `start` that passes every place before `n`. Place 3 merges develop into staging, 5 staging into
  // release, 10 release into main and 12 main into develop.

  function StagingAt(start: nat, n: nat, t: Tips): Commits {
    if start <= 3 < n then t.staging + t.develop else t.staging
  }

  function ReleaseAt(start: nat, n: nat, t: Tips): Commits {
    if start <= 5 < n then t.release + StagingAt(start, n, t) else t.release
  }

  function MainAt(start: nat, n: nat, t: Tips): Commits {
    if start <= 10 < n then t.main + ReleaseAt(start, n, t) else t.main
  }

  function DevelopAt(start: nat, n: nat, t: Tips): Commits {
    if start <= 12 < n then t.develop + MainAt(start, n, t) else t.develop
  }

  function HeadAt(start: nat, n: nat, head: Branch): Branch {
    if start <= 11 < n then Develop
    else if start <= 9 < n then Main
    else if start <= 4 < n then Release
    else if start <= 2 < n then Staging
    else head
  }

  function SavedAt(start: nat, n: nat, saved: Saved, env: Env): Saved {
    if start <= 14 < n && env.outcome(14).Works? then Absent
    else if start <= 8 < n then Present(Finishing, [])
    else if start <= 6 < n then Present(CiGate, [])
    else if start <= 1 < n then Present(Promoting, [])
    else saved
  }

  /** The world in front of place `n`, its log left out. */
  function Before(start: nat, n: nat, w: World, env: Env): World {
    World(Tips(DevelopAt(start, n, w.tips), StagingAt(start, n, w.tips), ReleaseAt(start, n, w.tips),
               MainAt(start, n, w.tips)),
          HeadAt(start, n, w.head), Settled, w.dirty || (start <= 7 < n && env.outcome(7).CiPassesEditing?),
          SavedAt(start, n, w.saved, env), w.log)
  }

  function IsMerge(n: nat): bool {
    n == 3 || n == 5 || n == 10 || n == 12
  }

  function IsCheckout(n: nat): bool {
    n == 2 || n == 4 || n == 9 || n == 11
  }

  /** What a merge that stops at place `n` leaves half done. */
  function HalfDone(n: nat, t: Tips, o: Outcome): Pending {
    if !IsMerge(n) || !o.Stops? || !o.leavesConflicts then Settled
    else if n == 3 then Conflicted(Develop, t.develop)
    else if n == 5 then Conflicted(Staging, t.staging)
    else if n == 10 then Conflicted(Release, t.release)
    else Conflicted(Main, t.main)
  }

  /** The world after stopping at place `n`, its log left out. */
  function StoppedAt(start: nat, n: nat, w: World, env: Env): World {
    var b, o := Before(start, n, w, env), env.outcome(n);
    b.(pending := HalfDone(n, b.tips, o),
       dirty := b.dirty || ((IsCheckout(n) || IsMerge(n) || n == 7) && o.Stops? && o.leavesEdits)
                || (n == 7 && o.CiFails? && o.edits),
       saved := if n == 7 && o.CiFails? && o.recorded then Present(CiGate, o.failed) else b.saved)
  }

  predicate SameButLog(a: World, b: World) {
    a == b.(log := a.log)
  }

  lemma OnePlaceFurther(start: nat, n: nat, w: World, w1: World, cfg: Config, env: Env)
    requires start <= n < 16 && !cfg.dryRun && (start == 0 || start == 2 || start == 7 || start == 9)
    requires SameButLog(w1, Before(start, n, w, env)) && Passes(n, cfg, env.outcome(n)) && (n == 0 ==> ReadyToStart(w))
    requires start == 7 ==> w.saved.Present? && w.saved.phase == CiGate
    requires start == 9 ==> w.saved.Present? && w.saved.phase == Finishing
    ensures var (w2, goesOn) := Effect(PROGRAM[n], w1, cfg, env.outcome(n));
            goesOn && SameButLog(w2, Before(start, n + 1, w, env))
  {
  }

  lemma StopsHere(start: nat, n: nat, w: World, w1: World, cfg: Config, env: Env)
    requires start <= n < 16 && !cfg.dryRun
    requires SameButLog(w1, Before(start, n, w, env)) && !Passes(n, cfg, env.outcome(n))
    ensures var (w2, goesOn) := Effect(PROGRAM[n], w1, cfg, env.outcome(n));
            !goesOn && SameButLog(w2, StoppedAt(start, n, w, env))
  {
  }

  /** `n` is the first place from `k` on that does not let the run pass, 16 if there is none. */
  ghost predicate FirstStop(k: nat, n: nat, cfg: Config, env: Env) {
    && k <= n <= 16
    && (forall i :: k <= i < n ==> Passes(i, cfg, env.outcome(i)))
    && (n < 16 ==> !Passes(n, cfg, env.outcome(n)))
  }

  lemma {:induction false} FromPlace(start: nat, k: nat, n: nat, w: World, w1: World, cfg: Config, env: Env)
    requires start <= k && FirstStop(k, n, cfg, env) && !cfg.dryRun
    requires (start == 0 && ReadyToStart(w)) || start == 2 || start == 7 || start == 9
    requires start == 7 ==> w.saved.Present? && w.saved.phase == CiGate
    requires start == 9 ==> w.saved.Present? && w.saved.phase == Finishing
    requires SameButLog(w1, Before(start, k, w, env))
    ensures var (w2, ok) := RunFrom(k, w1, cfg, env);
            && ok == (n == 16)
            && SameButLog(w2, if n == 16 then Before(start, n, w, env) else StoppedAt(start, n, w, env))
    decreases n - k
  {
    if k < n {
      OnePlaceFurther(start, k, w, w1, cfg, env);
      FromPlace(start, k + 1, n, w, Effect(PROGRAM[k], w1, cfg, env.outcome(k)).0, cfg, env);
    } else if n < 16 {
      StopsHere(start, n, w, w1, cfg, env);
    }
  }

  /** A real run, with no merge half done and, starting afresh, develop ready: it returns without error exactly
      if no place stops it, and the world it leaves is the one written out for the first place that does. */
  lemma RunIsSpelled(w: World, cfg: Config, env: Env, n: nat)
    requires !cfg.dryRun && w.pending == Settled && (Start(w, env) == 0 ==> ReadyToStart(w))
    requires FirstStop(Start(w, env), n, cfg, env)
    ensures var (w', ok) := Run(w, cfg, env);
            && ok == (n == 16)
            && SameButLog(w', if n == 16 then Before(Start(w, env), n, w, env) else StoppedAt(Start(w, env), n, w, env))
  {
    FromPlace(Start(w, env), Start(w, env), n, w, w, cfg, env);
  }

  /** Starting afresh where develop is not ready changes nothing. */
  lemma UnreadyRunIsIdle(w: World, cfg: Config, env: Env)
    requires Start(w, env) == 0 && !ReadyToStart(w)
    ensures Run(w, cfg, env) == (w, false)
  {
  }
}
