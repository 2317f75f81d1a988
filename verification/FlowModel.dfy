/** The resumable `flow auto` run as a fixed program of effects, each of which may stop the run. */
module FlowModel {

  datatype Branch = Develop | Staging | Release | Main

  type Commits = set<nat>

  /** What each branch contains, merge commits aside. */
  datatype Tips = Tips(develop: Commits, staging: Commits, release: Commits, main: Commits) {
    function At(b: Branch): Commits {
      match b
      case Develop => develop
      case Staging => staging
      case Release => release
      case Main => main
    }

    function Add(b: Branch, c: Commits): Tips {
      match b
      case Develop => this.(develop := develop + c)
      case Staging => this.(staging := staging + c)
      case Release => this.(release := release + c)
      case Main => this.(main := main + c)
    }
  }

  datatype Phase = Promoting | CiGate | Finishing

  datatype Saved = Absent | Present(phase: Phase, failedSteps: seq<string>)

  /** A merge that stopped on conflicts and waits for somebody to finish it. */
  datatype Pending = Settled | Conflicted(from: Branch, what: Commits)

  datatype Event =
    | Merged(into: Branch, from: Branch, what: Commits)
    | Begun(tips: Tips)
    | CiPassed(on: Branch, what: Commits)
    | CiPassedOnEdits(on: Branch)
    | CiFailed(on: Branch)
    | Pushed(tips: Tips)
    | Cleared(tips: Tips, pushWanted: bool)

  /** `dirty`: the working tree differs from the commit that is checked out. */
  datatype World = World(tips: Tips, head: Branch, pending: Pending, dirty: bool, saved: Saved, log: seq<Event>)

  datatype Config = Config(dryRun: bool, push: bool)

  datatype Step =
    | Preflight
    | Save(phase: Phase)
    | Checkout(branch: Branch)
    | Merge(from: Branch)
    | RunCi
    | Push
    | Clear
    | Report

  /** The effects of one run, in order. */
  const PROGRAM: seq<Step> := [
    Preflight, Save(Promoting),
    Checkout(Staging), Merge(Develop), Checkout(Release), Merge(Staging), Save(CiGate),
    RunCi, Save(Finishing),
    Checkout(Main), Merge(Release), Checkout(Develop), Merge(Main), Push, Clear, Report]

  // The places in the program where a run may start, and its end.
  const BEGIN := 0
  const PROMOTE := 2
  const GATE := 7
  const FINISH := 9
  const END := 16

  /** What the outside makes of one effect. `Stops` covers both an error and the process dying; a checkout,
      a merge or CI that stops may leave files half written, and a merge its conflicts. CI may itself rewrite
      files, as formatting does, and pass or fail on what it wrote. A failed removal of the state file is
      not reported as an error. */
  datatype Outcome =
    | Works(conflicts: nat)
    | Stops(leavesConflicts: bool, leavesEdits: bool)
    | CiFails(failed: seq<string>, recorded: bool, edits: bool)
    | CiPassesEditing
    | RemovalFails

  /** Whether the state file can be read, and the outcome of the effect at each place. */
  datatype Env = Env(readable: bool, outcome: nat -> Outcome)

  function StartOf(saved: Saved): nat {
    match saved
    case Absent => BEGIN
    case Present(Promoting, _) => PROMOTE
    case Present(CiGate, _) => GATE
    case Present(Finishing, _) => FINISH
  }

  /** An unreadable state file counts as none. */
  function Loaded(w: World, env: Env): Saved {
    if env.readable then w.saved else Absent
  }

  /** The world after one effect, and whether the run goes on. */
  function Effect(step: Step, w: World, cfg: Config, o: Outcome): (World, bool) {
    match step
    case Preflight => (w, o.Works? && w.head == Develop && w.pending == Settled && !w.dirty)
    case Save(phase) =>
      if cfg.dryRun then (w, !o.Stops?)
      else if o.Works? then (w.(saved := Present(phase, []), log := Noted(w.log, phase, w.tips)), true)
      else (w, false)
    case Checkout(b) =>
      if cfg.dryRun then (w, !o.Stops?)
      else if o.Works? && w.pending == Settled then (w.(head := b), true)
      else (HalfWritten(w, o), false)
    case Merge(from) =>
      if cfg.dryRun then (w, !o.Stops?)
      else if w.pending != Settled then (w, false)
      else if o.Works? then (Absorb(w, from, w.tips.At(from)), true)
      else if o.Stops? && o.leavesConflicts then
        (HalfWritten(w, o).(pending := Conflicted(from, w.tips.At(from))), false)
      else (HalfWritten(w, o), false)
    case RunCi =>
      if cfg.dryRun then (w, o.Works?)
      else (match o
       case Works(_) => (w.(log := w.log + [Pass(w)]), true)
       case CiPassesEditing => (w.(log := w.log + [CiPassedOnEdits(w.head)], dirty := true), true)
       case CiFails(failed, recorded, edits) =>
         (w.(log := w.log + [CiFailed(w.head)], dirty := w.dirty || edits,
             saved := if recorded then Present(CiGate, failed) else w.saved), false)
       case _ => (HalfWritten(w, o), false))
    case Push =>
      if !cfg.push || cfg.dryRun then (w, !o.Stops?)
      else if o.Works? then (w.(log := w.log + [Pushed(w.tips)]), true)
      else (w, false)
    case Clear =>
      if cfg.dryRun then (w, !o.Stops?)
      else if o.Works? then (w.(saved := Absent, log := w.log + [Cleared(w.tips, cfg.push)]), true)
      else (w, o == RemovalFails)
    case Report => (w, !o.Stops?)
  }

  /** CI reads the working tree. Only on a clean one does a pass say something about the commit. */
  function Pass(w: World): Event {
    if w.dirty then CiPassedOnEdits(w.head) else CiPassed(w.head, w.tips.At(w.head))
  }

  /** Recording the first phase begins a round. */
  function Noted(log: seq<Event>, phase: Phase, tips: Tips): seq<Event> {
    if phase == Promoting then log + [Begun(tips)] else log
  }

  function HalfWritten(w: World, o: Outcome): World {
    w.(dirty := w.dirty || (o.Stops? && o.leavesEdits))
  }

  /** The merge is committed on the current branch. */
  function Absorb(w: World, from: Branch, what: Commits): World {
    w.(tips := w.tips.Add(w.head, what), pending := Settled, log := w.log + [Merged(w.head, from, what)])
  }

  /** Run the effects from place `pc` on; the flag says whether the run returned without error. */
  function RunFrom(pc: nat, w: World, cfg: Config, env: Env): (World, bool)
    decreases END - pc
  {
    if pc >= END then (w, true)
    else
      var (w', goesOn) := Effect(PROGRAM[pc], w, cfg, env.outcome(pc));
      if goesOn then RunFrom(pc + 1, w', cfg, env) else (w', false)
  }

  function Run(w: World, cfg: Config, env: Env): (World, bool) {
    RunFrom(StartOf(Loaded(w, env)), w, cfg, env)
  }

  /** What may happen to the repository: runs, and people working between them. Committing one's edits is a
      commit and, if nothing is left over, a discard. */
  datatype Action =
    | Auto(cfg: Config, env: Env)
    | Commit(branch: Branch, commits: Commits)
    | Switch(branch: Branch)
    | Edit
    | Discard
    | AbortMerge
    | ConcludeMerge

  function Act(w: World, a: Action): World {
    match a
    case Auto(cfg, env) => Run(w, cfg, env).0
    case Commit(b, c) => w.(tips := w.tips.Add(b, c))
    case Switch(b) => if w.pending == Settled then w.(head := b) else w
    case Edit => w.(dirty := true)
    case Discard => w.(dirty := false)
    case AbortMerge => w.(pending := Settled)
    case ConcludeMerge => if w.pending == Settled then w else Absorb(w, w.pending.from, w.pending.what)
  }

  function After(w: World, actions: seq<Action>): World {
    if actions == [] then w else Act(After(w, actions[..|actions| - 1]), actions[|actions| - 1])
  }
}
