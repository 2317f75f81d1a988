/** The pipeline as it runs: a command log that steps append to, sinks that are filled and drained, and
    the loop over the steps. */
module Pipeline {
  import opened Bytes
  import opened PipelineModel

  class Ctx {
    var commandLog: seq<CommandRecord>

    constructor ()
      ensures commandLog == []
    {
      commandLog := [];
    }

    method RecordCommand(record: CommandRecord)
      modifies this
      ensures commandLog == old(commandLog) + [record]
    {
      commandLog := commandLog + [record];
    }

    method CommandCaptureStart() returns (n: nat)
      ensures n == |commandLog|
    {
      n := |commandLog|;
    }

    method CommandCaptureFinish(start: nat) returns (records: seq<CommandRecord>)
      ensures forall before, added :: commandLog == before + added && |before| == start ==> records == added
      ensures |commandLog| < start ==> records == []
    {
      records := if start <= |commandLog| then commandLog[start..] else [];
    }

    /** Run a step body: it records its commands one by one and ends with or without an error. */
    method Perform(body: Body) returns (error: Option<string>)
      modifies this
      ensures commandLog == old(commandLog) + body(old(commandLog)).commands
      ensures error == body(old(commandLog)).error
    {
      var e := body(commandLog);
      ghost var before := commandLog;
      assert before + e.commands[..0] == before;
      for i := 0 to |e.commands|
        invariant commandLog == before + e.commands[..i]
      {
        RecordCommand(e.commands[i]);
        assert before + e.commands[..i] + [e.commands[i]] == before + e.commands[..i + 1];
      }
      assert e.commands[..|e.commands|] == e.commands;
      error := e.error;
    }
  }

  class Sink {
    var context: Context

    constructor (reproduction: Option<string>)
      ensures context == Context(reproduction, [])
    {
      context := Context(reproduction, []);
    }

    /** Hand the context out and leave nothing behind. */
    method Drain() returns (taken: Context)
      modifies this
      ensures taken == old(context) && context == NO_CONTEXT
    {
      taken := context;
      context := NO_CONTEXT;
    }
  }

  /** A step with a sink is wrapped: its commands are captured into the sink. */
  datatype Step = Step(name: string, gate: bool, body: Body, sink: Sink?)

  datatype Outcome = Outcome(results: seq<StepResult>, passed: bool)

  ghost predicate SinksDiffer(steps: seq<Step>) {
    forall i, j :: 0 <= i < j < |steps| && steps[i].sink != null ==> steps[i].sink != steps[j].sink
  }

  ghost function SinksOf(steps: seq<Step>): set<object> {
    set s | s in steps && s.sink != null :: s.sink
  }

  ghost function Wire(s: Step): Wired
    reads if s.sink != null then {s.sink} else {}
  {
    Wired(s.name, s.gate, s.body, s.sink != null, if s.sink != null then s.sink.context else NO_CONTEXT)
  }

  ghost function WireAll(steps: seq<Step>): (r: seq<Wired>)
    reads SinksOf(steps)
    ensures |r| == |steps| && forall i :: 0 <= i < |steps| ==> r[i] == Wire(steps[i])
  {
    seq(|steps|, i requires 0 <= i < |steps| reads SinksOf(steps) => Wire(steps[i]))
  }

  method RunBody(ctx: Ctx, s: Step) returns (error: Option<string>)
    modifies ctx, if s.sink != null then {s.sink} else {}
    ensures var e := s.body(old(ctx.commandLog));
            && ctx.commandLog == old(ctx.commandLog) + e.commands && error == e.error
            && (s.sink != null ==> s.sink.context == old(s.sink.context).(commands := e.commands))
  {
    if s.sink == null {
      error := ctx.Perform(s.body);
    } else {
      var start := ctx.CommandCaptureStart();
      error := ctx.Perform(s.body);
      var commands := ctx.CommandCaptureFinish(start);
      s.sink.context := s.sink.context.(commands := commands);
    }
  }

  method DrainStepContext(s: Step) returns (context: Context)
    modifies if s.sink != null then {s.sink} else {}
    ensures context == if s.sink != null then old(s.sink.context) else NO_CONTEXT
    ensures s.sink != null ==> s.sink.context == NO_CONTEXT
  {
    if s.sink == null {
      context := NO_CONTEXT;
    } else {
      context := s.sink.Drain();
    }
  }

  method SkipStep(s: Step) returns (result: StepResult)
    modifies if s.sink != null then {s.sink} else {}
    ensures result == StepResult(s.name, Skipped, None, s.gate, old(Wire(s).context))
  {
    var context := DrainStepContext(s);
    result := StepResult(s.name, Skipped, None, s.gate, context);
  }

  method RunStep(ctx: Ctx, s: Step) returns (result: StepResult)
    modifies ctx, if s.sink != null then {s.sink} else {}
    ensures var e, w := s.body(old(ctx.commandLog)), old(Wire(s));
            && ctx.commandLog == old(ctx.commandLog) + e.commands
            && result == StepResult(s.name, if e.error.Some? then Fail else Pass, e.error, s.gate,
                                    if w.captured then w.context.(commands := e.commands) else w.context)
  {
    var error := RunBody(ctx, s);
    var context := DrainStepContext(s);
    result := StepResult(s.name, if error.Some? then Fail else Pass, error, s.gate, context);
  }

  method Run(ctx: Ctx, steps: seq<Step>, failFast: bool) returns (outcome: Outcome)
    requires SinksDiffer(steps)
    modifies ctx, SinksOf(steps)
    ensures var p := After(old(ctx.commandLog), old(WireAll(steps)), failFast);
            && ctx.commandLog == p.log
            && outcome == Outcome(p.results, !p.anyFailed)
  {
    var results: seq<StepResult> := [];
    var gateFailed, anyFailed := false, false;
    ghost var wired, log := WireAll(steps), ctx.commandLog;
    for i := 0 to |steps|
      invariant Progress(ctx.commandLog, results, gateFailed, anyFailed) == After(log, wired[..i], failFast)
      invariant forall k :: i <= k < |steps| ==> Wire(steps[k]) == wired[k]
    {
      var s := steps[i];
      assert Wire(s) == wired[i];
      NextStep(log, wired, i, failFast);
      var result;
      if gateFailed || (failFast && anyFailed) {
        result := SkipStep(s);
      } else {
        result := RunStep(ctx, s);
        if result.status == Fail {
          anyFailed := true;
          if s.gate {
            gateFailed := true;
          }
        }
      }
      results := results + [result];
    }
    assert wired[..|steps|] == wired;
    outcome := Outcome(results, !anyFailed);
  }

  lemma NextStep(log: seq<CommandRecord>, wired: seq<Wired>, i: nat, failFast: bool)
    requires i < |wired|
    ensures After(log, wired[..i + 1], failFast) == Advance(After(log, wired[..i], failFast), wired[i], failFast)
  {
    assert wired[..i + 1][..i] == wired[..i];
  }

  datatype ConfigStep = ConfigStep(name: string, cmd: string, gate: bool)

  /** What each configured command does, its arguments included. */
  type Bodies = string -> Body

  const COMMANDS := {
    "fmt", "lint", "compile-tests", "test", "coverage", "check-deps", "check-protocol-drift", "self-check",
    "health", "health-gate"}

  function FirstWord(s: string): string {
    if s == "" then "" else if IsSpaceCode(s[0] as int) then FirstWord(s[1..]) else WordAtFront(s)
  }

  function WordAtFront(s: string): string {
    if s == "" || IsSpaceCode(s[0] as int) then "" else [s[0]] + WordAtFront(s[1..])
  }

  /** Only the first word decides. */
  predicate Known(cmd: string) {
    FirstWord(cmd) in COMMANDS
  }

  predicate AllSpace(s: string) {
    forall c :: c in s ==> IsSpaceCode(c as int)
  }

  /** The command is white space, the word, and nothing or white space and anything. */
  ghost predicate IsSpelled(cmd: string, spaces: string, word: string, rest: string) {
    cmd == spaces + (word + rest) && AllSpace(spaces) && (rest == "" || IsSpaceCode(rest[0] as int))
  }

  lemma {:induction false} WordIsTaken(word: string, rest: string)
    requires (forall c :: c in word ==> !IsSpaceCode(c as int)) && (rest == "" || IsSpaceCode(rest[0] as int))
    ensures WordAtFront(word + rest) == word
  {
    if word == "" {
      assert word + rest == rest;
    } else {
      assert word[0] in word && (word + rest)[1..] == word[1..] + rest;
      assert forall c :: c in word[1..] ==> c in word;
      WordIsTaken(word[1..], rest);
    }
  }

  lemma {:induction false} SpacesAreSkipped(spaces: string, rest: string)
    requires AllSpace(spaces)
    ensures FirstWord(spaces + rest) == FirstWord(rest)
  {
    if spaces == "" {
      assert spaces + rest == rest;
    } else {
      assert spaces[0] in spaces && (spaces + rest)[1..] == spaces[1..] + rest;
      assert forall c :: c in spaces[1..] ==> c in spaces;
      SpacesAreSkipped(spaces[1..], rest);
    }
  }

  lemma FirstWordIs(cmd: string, spaces: string, word: string, rest: string)
    requires IsSpelled(cmd, spaces, word, rest) && word != "" && forall c :: c in word ==> !IsSpaceCode(c as int)
    ensures FirstWord(cmd) == word
  {
    SpacesAreSkipped(spaces, word + rest);
    assert word[0] in word;
    WordIsTaken(word, rest);
  }

  lemma {:induction false} WordSplits(s: string) returns (rest: string)
    ensures s == WordAtFront(s) + rest && (rest == "" || IsSpaceCode(rest[0] as int))
  {
    if s == "" || IsSpaceCode(s[0] as int) {
      rest := s;
    } else {
      rest := WordSplits(s[1..]);
    }
  }

  lemma {:induction false} CommandSplits(cmd: string) returns (spaces: string, rest: string)
    ensures IsSpelled(cmd, spaces, FirstWord(cmd), rest)
  {
    if cmd != "" && IsSpaceCode(cmd[0] as int) {
      spaces, rest := CommandSplits(cmd[1..]);
      spaces := [cmd[0]] + spaces;
    } else {
      spaces := "";
      rest := WordSplits(cmd);
    }
  }

  lemma CommandWordsAreWords(word: string)
    requires word in COMMANDS
    ensures word != "" && forall c :: c in word ==> !IsSpaceCode(c as int)
  {
  }

  /** A command is known exactly if its first word is one of the ten. */
  lemma KnownExactly(cmd: string)
    ensures Known(cmd) <==>
            exists spaces, word, rest ::
              && IsSpelled(cmd, spaces, word, rest)
              && word in {"fmt", "lint", "compile-tests", "test", "coverage", "check-deps", "check-protocol-drift",
                          "self-check", "health", "health-gate"}
  {
    if Known(cmd) {
      var spaces, rest := CommandSplits(cmd);
      assert IsSpelled(cmd, spaces, FirstWord(cmd), rest);
    }
    if spaces, word, rest :| IsSpelled(cmd, spaces, word, rest) && word in COMMANDS {
      CommandWordsAreWords(word);
      FirstWordIs(cmd, spaces, word, rest);
    }
  }

  function DispatchCmd(cmd: string, bodies: Bodies): Option<Body> {
    if Known(cmd) then Some(bodies(cmd)) else None
  }

  function WiredFrom(step: ConfigStep, bodies: Bodies): Wired {
    Wired(step.name, step.gate, bodies(step.cmd), true, Context(Some("taskit " + step.cmd), []))
  }

  function AllWiredFrom(steps: seq<ConfigStep>, bodies: Bodies): seq<Wired> {
    seq(|steps|, i requires 0 <= i < |steps| => WiredFrom(steps[i], bodies))
  }

  /** The first step whose command is unknown. */
  function FirstUnknown(steps: seq<ConfigStep>): (r: Option<ConfigStep>)
    ensures r.None? <==> forall s :: s in steps ==> Known(s.cmd)
    ensures r.Some? ==> exists i :: 0 <= i < |steps| && steps[i] == r.value && !Known(steps[i].cmd)
                                    && forall j :: 0 <= j < i ==> Known(steps[j].cmd)
  {
    if steps == [] then None
    else if !Known(steps[0].cmd) then Some(steps[0])
    else
      assert steps == [steps[0]] + steps[1..];
      assert forall j :: 0 < j < |steps| ==> steps[j] == steps[1..][j - 1];
      FirstUnknown(steps[1..])
  }

  lemma UnknownStep(steps: seq<ConfigStep>, i: nat)
    requires i < |steps|
    ensures FirstUnknown(steps[i..]) == if !Known(steps[i].cmd) then Some(steps[i]) else FirstUnknown(steps[i + 1..])
  {
    assert steps[i..][1..] == steps[i + 1..];
  }

  lemma OneMoreWired(steps: seq<ConfigStep>, i: nat, bodies: Bodies)
    requires i < |steps|
    ensures AllWiredFrom(steps[..i + 1], bodies) == AllWiredFrom(steps[..i], bodies) + [WiredFrom(steps[i], bodies)]
  {
  }

  /** Every step of the pipeline has a sink of its own and is wired as listed. */
  ghost predicate WiredAs(pipeline: seq<Step>, wired: seq<Wired>)
    reads SinksOf(pipeline)
  {
    && |pipeline| == |wired| && SinksDiffer(pipeline)
    && forall k :: 0 <= k < |pipeline| ==> pipeline[k].sink != null && Wire(pipeline[k]) == wired[k]
  }

  method AddStep(pipeline: seq<Step>, ghost wired: seq<Wired>, step: ConfigStep, body: Body) returns (longer: seq<Step>)
    requires WiredAs(pipeline, wired)
    ensures WiredAs(longer, wired + [Wired(step.name, step.gate, body, true, Context(Some("taskit " + step.cmd), []))])
    ensures |longer| == |pipeline| + 1 && longer[..|pipeline|] == pipeline
    ensures longer[|pipeline|].sink != null && fresh(longer[|pipeline|].sink)
  {
    var s := Configure(step, body);
    longer := pipeline + [s];
  }

  method Build(steps: seq<ConfigStep>, bodies: Bodies)
      returns (unknown: Option<ConfigStep>, pipeline: seq<Step>, ghost wired: seq<Wired>)
    ensures unknown == FirstUnknown(steps)
    ensures WiredAs(pipeline, wired) && forall k :: 0 <= k < |pipeline| ==> fresh(pipeline[k].sink)
    ensures unknown.None? ==> wired == AllWiredFrom(steps, bodies)
  {
    pipeline, wired := [], [];
    assert steps[0..] == steps;
    for i := 0 to |steps|
      invariant i == |wired| && WiredAs(pipeline, wired) && forall k :: 0 <= k < |pipeline| ==> fresh(pipeline[k].sink)
      invariant wired == AllWiredFrom(steps[..i], bodies)
      invariant FirstUnknown(steps) == FirstUnknown(steps[i..])
    {
      UnknownStep(steps, i);
      OneMoreWired(steps, i, bodies);
      var body := DispatchCmd(steps[i].cmd, bodies);
      if body.None? {
        unknown := Some(steps[i]);
        return;
      }
      pipeline := AddStep(pipeline, wired, steps[i], body.value);
      wired := wired + [WiredFrom(steps[i], bodies)];
    }
    assert steps[..|steps|] == steps;
    unknown := None;
  }

  /** Wrap a body so that its commands are captured into a sink of its own. */
  method Configure(step: ConfigStep, body: Body) returns (s: Step)
    ensures s.sink != null && fresh(s.sink)
    ensures Wire(s) == Wired(step.name, step.gate, body, true, Context(Some("taskit " + step.cmd), []))
  {
    var sink := new Sink(Some("taskit " + step.cmd));
    s := Step(step.name, step.gate, body, sink);
  }

  /** One result for each configured step, telling its name, its gate and how to repeat it. A step is skipped
      exactly if one before it failed as a gate or under fail-fast; the run passed exactly if none failed. */
  ghost predicate Accounts(outcome: Outcome, steps: seq<ConfigStep>, failFast: bool) {
    && |outcome.results| == |steps|
    && (forall i :: 0 <= i < |steps| ==>
          var r := outcome.results[i];
          && r.name == steps[i].name && r.gate == steps[i].gate
          && r.context.reproduction == Some("taskit " + steps[i].cmd)
          && (r.status == Skipped <==>
                exists j :: 0 <= j < i && outcome.results[j].status == Fail && (steps[j].gate || failFast)))
    && (outcome.passed <==> forall i :: 0 <= i < |steps| ==> outcome.results[i].status != Fail)
  }

  lemma ConfiguredResults(log: seq<CommandRecord>, steps: seq<ConfigStep>, bodies: Bodies, failFast: bool)
    ensures var p := After(log, AllWiredFrom(steps, bodies), failFast);
            Accounts(Outcome(p.results, !p.anyFailed), steps, failFast)
  {
    var wired := AllWiredFrom(steps, bodies);
    var results := After(log, wired, failFast).results;
    OneResultPerStep(log, wired, failFast);
    ResultsAreAccounted(log, wired, failFast);
    forall i | 0 <= i < |steps|
      ensures results[i].name == steps[i].name && results[i].gate == steps[i].gate
      ensures results[i].context.reproduction == Some("taskit " + steps[i].cmd)
      ensures results[i].status == Skipped <==>
              exists j :: 0 <= j < i && results[j].status == Fail && (steps[j].gate || failFast)
    {
      assert wired[i] == WiredFrom(steps[i], bodies);
      ResultTells(log, wired, failFast, i);
      forall j | 0 <= j < i
        ensures Stops(results[j], failFast) <==> results[j].status == Fail && (steps[j].gate || failFast)
      {
        assert results[j].gate == wired[j].gate;
      }
    }
  }

  /** Build the whole pipeline before running any of it: one unknown command, wherever it stands, and
      nothing runs. */
  method RunFromConfig(ctx: Ctx, steps: seq<ConfigStep>, bodies: Bodies, failFast: bool) returns (outcome: Outcome)
    modifies ctx
    ensures (exists s :: s in steps && !Known(s.cmd)) ==>
              && ctx.commandLog == old(ctx.commandLog)
              && exists i :: 0 <= i < |steps| && !Known(steps[i].cmd)
                   && (forall j :: 0 <= j < i ==> Known(steps[j].cmd))
                   && outcome == Outcome([StepResult(steps[i].name, Fail, Some("unknown ci step command: " +
                                                     Quoted(FirstWord(steps[i].cmd))), steps[i].gate,
                                                     Context(None, []))], false)
    ensures (forall s :: s in steps ==> Known(s.cmd)) ==>
              var p := After(old(ctx.commandLog), AllWiredFrom(steps, bodies), failFast);
              ctx.commandLog == p.log && outcome == Outcome(p.results, !p.anyFailed)
    ensures (forall s :: s in steps ==> Known(s.cmd)) ==> Accounts(outcome, steps, failFast)
  {
    if forall s :: s in steps ==> Known(s.cmd) {
      ConfiguredResults(ctx.commandLog, steps, bodies, failFast);
    }
    var unknown, pipeline, wired := Build(steps, bodies);
    if unknown.Some? {
      outcome := UnknownCommand(unknown.value);
    } else {
      assert WireAll(pipeline) == wired;
      outcome := Run(ctx, pipeline, failFast);
    }
  }

  /** A word between double quotes with the characters escaped that would be misread. */
  function Quoted(word: string): string {
    "\"" + Escaped(word) + "\""
  }

  function Escaped(word: string): string {
    if word == "" then "" else EscapedChar(word[0]) + Escaped(word[1..])
  }

  function EscapedChar(c: char): string {
    if c == '"' then "\\\""
    else if c == '\\' then "\\\\"
    else if c == '\0' then "\\0"
    else if c as int < 0x20 || c as int == 0x7F then "\\u{" + Hex(c as int) + "}"
    else [c]
  }

  function Hex(n: nat): string {
    (if n < 16 then "" else Hex(n / 16)) + ["0123456789abcdef"[n % 16]]
  }

  /** Quoting changes nothing inside a word without quotes, backslashes and control characters. */
  lemma {:induction false} PlainWordIsQuoted(word: string)
    requires forall c :: c in word ==> c != '"' && c != '\\' && c as int >= 0x20 && c as int != 0x7F
    ensures Quoted(word) == "\"" + word + "\""
  {
    PlainWordIsKept(word);
  }

  lemma {:induction false} PlainWordIsKept(word: string)
    requires forall c :: c in word ==> c != '"' && c != '\\' && c as int >= 0x20 && c as int != 0x7F
    ensures Escaped(word) == word
  {
    if word != "" {
      assert word[0] in word && forall c :: c in word[1..] ==> c in word;
      PlainWordIsKept(word[1..]);
      assert word == [word[0]] + word[1..];
    }
  }

  function UnknownCommand(step: ConfigStep): Outcome {
    var message := "unknown ci step command: " + Quoted(FirstWord(step.cmd));
    Outcome([StepResult(step.name, Fail, Some(message), step.gate, NO_CONTEXT)], false)
  }
}
