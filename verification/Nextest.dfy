/** Reading the test counts out of a test runner's output. */
module Nextest {
  import opened Bytes
  import opened Ansi

  predicate IsSpace(c: char) {
    IsSpaceCode(c as int)
  }

  function TrimStart(s: string): (r: string)
    ensures |r| <= |s|
  {
    if s != "" && IsSpace(s[0]) then TrimStart(s[1..]) else s
  }

  function TrimEnd(s: string): (r: string)
    ensures |r| <= |s|
  {
    if s != "" && IsSpace(s[|s| - 1]) then TrimEnd(s[..|s| - 1]) else s
  }

  function Trim(s: string): string {
    TrimEnd(TrimStart(s))
  }

  /** The last run of characters that are not white space. */
  function LastWord(s: string): Option<string> {
    var t := TrimEnd(s);
    if t == "" then None else Some(WordAtEnd(t))
  }

  function WordAtEnd(s: string): string {
    if s == "" || IsSpace(s[|s| - 1]) then "" else WordAtEnd(s[..|s| - 1]) + [s[|s| - 1]]
  }

  /** The place of the first white space at or after `i`, the length if there is none. */
  function SpaceFrom(s: string, i: nat): (r: nat)
    requires i <= |s|
    ensures i <= r <= |s|
    decreases |s| - i
  {
    if i == |s| || IsSpace(s[i]) then i else SpaceFrom(s, i + 1)
  }

  const MAX_COUNT := 0xFFFF_FFFF_FFFF_FFFF

  predicate IsDigit(c: char) {
    '0' <= c <= '9'
  }

  function Value(digits: string): nat
    requires forall c :: c in digits ==> IsDigit(c)
  {
    if digits == "" then 0
    else
      var last := digits[|digits| - 1];
      assert last in digits && IsDigit(last);
      10 * Value(digits[..|digits| - 1]) + (last as int - '0' as int)
  }

  /** A machine count: digits, perhaps behind a plus sign, of a value that fits. */
  function ParseCount(s: string): Option<nat> {
    var digits := if s != "" && s[0] == '+' then s[1..] else s;
    if digits == "" || exists c :: c in digits && !IsDigit(c) then None
    else if Value(digits) <= MAX_COUNT then Some(Value(digits))
    else None
  }

  function SplitCommas(s: string): (r: seq<string>)
    ensures r != []
  {
    var comma := FindFrom(s, ",", 0);
    if comma.None? then [s]
    else [s[..comma.value]] + SplitCommas(s[comma.value + 1..])
  }

  datatype Tally = Tally(passed: Option<nat>, failed: Option<nat>, skipped: Option<nat>)

  datatype TestCounts = TestCounts(total: nat, passed: nat, failed: nat, skipped: nat)

  /** One comma-separated part, filed under its kind. */
  function Count(t: Tally, part: string): Tally {
    var p := Trim(part);
    var space := SpaceFrom(p, 0);
    if space == |p| then t
    else
      var value := ParseCount(Trim(p[..space]));
      if value.None? then t
      else Filed(t, Trim(p[space + 1..]), value.value)
  }

  function Filed(t: Tally, kind: string, value: nat): Tally {
    match kind
    case "passed" => t.(passed := Some(value))
    case "failed" => t.(failed := Some(value))
    case "skipped" => t.(skipped := Some(value))
    case _ => t
  }

  function CountAll(t: Tally, parts: seq<string>): Tally {
    if parts == [] then t else Count(CountAll(t, parts[..|parts| - 1]), parts[|parts| - 1])
  }

  const TESTS_RUN := "tests run:"
  const NOTHING := Tally(None, None, None)

  function GetOr(o: Option<nat>, default: nat): nat {
    if o.Some? then o.value else default
  }

  /** What a line says, if it is a summary line. */
  function SummaryOf(line: string): Option<TestCounts> {
    var at := FindFrom(line, TESTS_RUN, 0);
    if at.None? then None
    else
      var word := LastWord(line[..at.value]);
      if word.None? then None
      else
        var total := ParseCount(word.value);
        var t := CountAll(NOTHING, SplitCommas(line[at.value + |TESTS_RUN|..]));
        if total.None? || t.passed.None? then None
        else Some(TestCounts(total.value, t.passed.value, GetOr(t.failed, 0), GetOr(t.skipped, 0)))
  }

  method TryParseSummaryLine(line: string) returns (r: Option<TestCounts>)
    ensures r == SummaryOf(line)
  {
    var at := FindFrom(line, TESTS_RUN, 0);
    if at.None? {
      return None;
    }
    var word := LastWord(line[..at.value]);
    if word.None? {
      return None;
    }
    var total := ParseCount(word.value);
    if total.None? {
      return None;
    }
    var parts := SplitCommas(line[at.value + |TESTS_RUN|..]);
    var t := NOTHING;
    for i := 0 to |parts|
      invariant t == CountAll(NOTHING, parts[..i])
    {
      assert parts[..i + 1][..i] == parts[..i];
      t := Count(t, parts[i]);
    }
    assert parts[..|parts|] == parts;
    if t.passed.None? {
      return None;
    }
    return Some(TestCounts(total.value, t.passed.value, GetOr(t.failed, 0), GetOr(t.skipped, 0)));
  }

  function DropCr(s: string): string {
    if s != "" && s[|s| - 1] == '\r' then s[..|s| - 1] else s
  }

  function Lines(s: string): seq<string> {
    if s == "" then []
    else
      var end := FindFrom(s, "\n", 0);
      if end.None? then [s] else [DropCr(s[..end.value])] + Lines(s[end.value + 1..])
  }

  function LastSummary(lines: seq<string>): Option<TestCounts> {
    if lines == [] then None
    else
      var r := SummaryOf(Trim(lines[|lines| - 1]));
      if r.Some? then r else LastSummary(lines[..|lines| - 1])
  }

  /** How often `pat` occurs from `i` on, occurrences not overlapping. */
  function Matches(s: string, pat: string, i: nat): nat
    requires pat != ""
    decreases |s| - i
  {
    var at := FindFrom(s, pat, i);
    if at.None? then 0 else 1 + Matches(s, pat, at.value + |pat|)
  }

  function Parsed(output: string): TestCounts {
    var clean := Strip(output);
    var summary := LastSummary(Lines(clean));
    if summary.Some? then summary.value
    else
      var passed, failed := Matches(clean, "PASS [", 0), Matches(clean, "FAIL [", 0);
      var skipped := Matches(clean, "SKIP [", 0);
      TestCounts(passed + failed + skipped, passed, failed, skipped)
  }

  method ParseNextestSummary(output: string) returns (counts: TestCounts)
    ensures counts == Parsed(output)
  {
    var clean := StripAnsi(output);
    var lines := Lines(clean);
    var i := |lines|;
    assert lines[..i] == lines;
    while i > 0
      invariant i <= |lines| && LastSummary(lines) == LastSummary(lines[..i])
    {
      i := i - 1;
      assert lines[..i + 1][..i] == lines[..i];
      var r := TryParseSummaryLine(Trim(lines[i]));
      if r.Some? {
        return r.value;
      }
    }
    var passed, failed := Matches(clean, "PASS [", 0), Matches(clean, "FAIL [", 0);
    var skipped := Matches(clean, "SKIP [", 0);
    return TestCounts(passed + failed + skipped, passed, failed, skipped);
  }
}
