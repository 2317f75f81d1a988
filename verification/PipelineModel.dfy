/** What running a list of steps amounts to, step by step. */
module PipelineModel {
  import opened Bytes

  datatype CommandRecord = CommandRecord(command: string, success: Option<bool>, exitCode: Option<int>)

  /** The commands a step records and the error it ends with, which may depend on what was recorded
      before it. */
  datatype Effect = Effect(commands: seq<CommandRecord>, error: Option<string>)

  type Body = seq<CommandRecord> -> Effect

  datatype Context = Context(reproduction: Option<string>, commands: seq<CommandRecord>)

  const NO_CONTEXT := Context(None, [])

  datatype Status = Pass | Fail | Skipped

  datatype StepResult = StepResult(name: string, status: Status, error: Option<string>, gate: bool, context: Context)

  /** A step as it is wired when the run begins; `captured` steps have a sink that starts out holding
      `context`. */
  datatype Wired = Wired(name: string, gate: bool, body: Body, captured: bool, context: Context)

  datatype Progress = Progress(log: seq<CommandRecord>, results: seq<StepResult>, gateFailed: bool, anyFailed: bool)

  function Advance(p: Progress, w: Wired, failFast: bool): Progress {
    var context := if w.captured then w.context else NO_CONTEXT;
    if p.gateFailed || (failFast && p.anyFailed) then
      p.(results := p.results + [StepResult(w.name, Skipped, None, w.gate, context)])
    else
      var e := w.body(p.log);
      var filled := if w.captured then context.(commands := e.commands) else context;
      var failed := e.error.Some?;
      Progress(
        p.log + e.commands,
        p.results + [StepResult(w.name, if failed then Fail else Pass, e.error, w.gate, filled)],
        p.gateFailed || (failed && w.gate),
        p.anyFailed || failed)
  }

  function After(log: seq<CommandRecord>, steps: seq<Wired>, failFast: bool): Progress {
    if steps == [] then Progress(log, [], false, false)
    else Advance(After(log, steps[..|steps| - 1], failFast), steps[|steps| - 1], failFast)
  }

  /** A failure that stops what comes after it. */
  predicate Stops(r: StepResult, failFast: bool) {
    r.status == Fail && (r.gate || failFast)
  }

  /** A step is skipped exactly when a step before it failed as a gate or under fail-fast, and nothing
      failed exactly when no result is a failure. */
  ghost predicate Accounted(p: Progress, failFast: bool) {
    && (p.gateFailed || (failFast && p.anyFailed) <==>
        exists j :: 0 <= j < |p.results| && Stops(p.results[j], failFast))
    && (p.anyFailed <==> exists j :: 0 <= j < |p.results| && p.results[j].status == Fail)
    && (forall i :: 0 <= i < |p.results| ==>
          (p.results[i].status == Skipped <==> exists j :: 0 <= j < i && Stops(p.results[j], failFast)))
  }

  lemma OneMoreResult(p: Progress, w: Wired, failFast: bool)
    requires Accounted(p, failFast)
    ensures Accounted(Advance(p, w, failFast), failFast)
  {
    var q := Advance(p, w, failFast);
    var n := |p.results|;
    assert forall j :: 0 <= j < n ==> q.results[j] == p.results[j];
    assert q.gateFailed ==> p.gateFailed || Stops(q.results[n], failFast);
    assert q.anyFailed ==> p.anyFailed || q.results[n].status == Fail;
  }

  lemma {:induction false} ResultsAreAccounted(log: seq<CommandRecord>, steps: seq<Wired>, failFast: bool)
    ensures Accounted(After(log, steps, failFast), failFast)
  {
    if steps != [] {
      var front := steps[..|steps| - 1];
      ResultsAreAccounted(log, front, failFast);
      OneMoreResult(After(log, front, failFast), steps[|steps| - 1], failFast);
    }
  }

  /** Every step has exactly one result, in the order of the steps. */
  lemma {:induction false} OneResultPerStep(log: seq<CommandRecord>, steps: seq<Wired>, failFast: bool)
    ensures var p := After(log, steps, failFast);
            |p.results| == |steps| &&
            forall i :: 0 <= i < |steps| ==> p.results[i].name == steps[i].name && p.results[i].gate == steps[i].gate
  {
    if steps != [] {
      OneResultPerStep(log, steps[..|steps| - 1], failFast);
    }
  }

  /** What one result says. A step that ran did so on the log its predecessors left, and its error, status and
      commands are its body's; a skipped one has no error and leaves the log alone. */
  ghost predicate Tells(r: StepResult, w: Wired, before: seq<CommandRecord>, after: seq<CommandRecord>) {
    var e := w.body(before);
    if r.status == Skipped then
      r.error.None? && after == before && r.context == if w.captured then w.context else Context(None, [])
    else
      && r.error == e.error && (r.status == Fail <==> e.error.Some?) && after == before + e.commands
      && r.context == if w.captured then w.context.(commands := e.commands) else Context(None, [])
  }

  lemma {:induction false} ResultTells(log: seq<CommandRecord>, steps: seq<Wired>, failFast: bool, i: nat)
    requires i < |steps| && |After(log, steps, failFast).results| == |steps|
    ensures Tells(After(log, steps, failFast).results[i], steps[i], After(log, steps[..i], failFast).log,
                  After(log, steps[..i + 1], failFast).log)
  {
    var n := |steps| - 1;
    var front := steps[..n];
    OneResultPerStep(log, front, failFast);
    if i < n {
      ResultTells(log, front, failFast, i);
      assert front[..i] == steps[..i] && front[..i + 1] == steps[..i + 1];
    } else {
      assert steps[..i + 1] == steps;
    }
  }

  /** The steps that run form a prefix. */
  lemma RunStepsFormPrefix(log: seq<CommandRecord>, steps: seq<Wired>, failFast: bool, i: nat, j: nat)
    requires i < j < |After(log, steps, failFast).results|
    requires After(log, steps, failFast).results[i].status == Skipped
    ensures After(log, steps, failFast).results[j].status == Skipped
  {
    ResultsAreAccounted(log, steps, failFast);
    var results := After(log, steps, failFast).results;
    var k :| 0 <= k < i && Stops(results[k], failFast);
    assert 0 <= k < j && Stops(results[k], failFast);
  }

  function AllCommands(results: seq<StepResult>): seq<CommandRecord> {
    if results == [] then []
    else AllCommands(results[..|results| - 1]) + results[|results| - 1].context.commands
  }

  /** When every step is captured into a sink that starts without commands, the slices handed out with
      the results are, end to end, exactly what the run added to the command log. */
  lemma {:induction false} SlicesMakeUpLog(log: seq<CommandRecord>, steps: seq<Wired>, failFast: bool)
    requires forall w :: w in steps ==> w.captured && w.context.commands == []
    ensures var p := After(log, steps, failFast);
            p.log == log + AllCommands(p.results)
  {
    if steps == [] {
      assert log + [] == log;
    } else {
      var front, last := steps[..|steps| - 1], steps[|steps| - 1];
      assert last in steps && forall w :: w in front ==> w in steps;
      SlicesMakeUpLog(log, front, failFast);
      OneMoreSlice(log, After(log, front, failFast), last, failFast);
    }
  }

  lemma OneMoreSlice(log: seq<CommandRecord>, p: Progress, w: Wired, failFast: bool)
    requires p.log == log + AllCommands(p.results) && w.captured && w.context.commands == []
    ensures var q := Advance(p, w, failFast);
            q.log == log + AllCommands(q.results)
  {
    var q := Advance(p, w, failFast);
    var last := q.results[|p.results|];
    assert q.results[..|p.results|] == p.results;
    assert q.log == p.log + last.context.commands;
    assert log + AllCommands(p.results) + last.context.commands ==
           log + (AllCommands(p.results) + last.context.commands);
  }
}
