/** A printed summary parses back to the counts it was printed from. */
module NextestRoundTrip {
  import opened Bytes
  import opened Ansi
  import opened Nextest

  function Digit(d: nat): char
    requires d < 10
  {
    ('0' as int + d) as char
  }

  function Decimal(n: nat): (r: string)
    ensures r != "" && forall i :: 0 <= i < |r| ==> IsDigit(r[i])
  {
    if n < 10 then [Digit(n)] else Decimal(n / 10) + [Digit(n % 10)]
  }

  lemma {:induction false} DecimalValue(n: nat)
    ensures Value(Decimal(n)) == n
  {
    if n >= 10 {
      DecimalValue(n / 10);
      var r := Decimal(n);
      assert r[..|r| - 1] == Decimal(n / 10) && r[|r| - 1] == Digit(n % 10);
    } else {
      assert [Digit(n)][..0] == "";
      assert Value("") == 0;
    }
  }

  lemma DecimalParses(n: nat)
    requires n <= MAX_COUNT
    ensures ParseCount(Decimal(n)) == Some(n)
  {
    DecimalValue(n);
    assert IsDigit(Decimal(n)[0]);
  }

  datatype Segment = Segment(kind: string, value: nat)

  predicate KnownKind(kind: string) {
    kind == "passed" || kind == "failed" || kind == "skipped"
  }

  predicate Printable(segments: seq<Segment>) {
    forall s :: s in segments ==> KnownKind(s.kind) && s.value <= MAX_COUNT
  }

  function Part(s: Segment): string {
    " " + Decimal(s.value) + " " + s.kind
  }

  function Printed(segments: seq<Segment>): string
    requires segments != []
  {
    if |segments| == 1 then Part(segments[0]) else Part(segments[0]) + "," + Printed(segments[1..])
  }

  function SummaryLine(prefix: string, total: nat, segments: seq<Segment>): string
    requires segments != []
  {
    prefix + Decimal(total) + " tests run:" + Printed(segments)
  }

  function LastOf(segments: seq<Segment>, kind: string): Option<nat> {
    if segments == [] then None
    else if segments[|segments| - 1].kind == kind then Some(segments[|segments| - 1].value)
    else LastOf(segments[..|segments| - 1], kind)
  }

  /** The counts a list of segments stands for. */
  function CountsOf(total: nat, segments: seq<Segment>): TestCounts
    requires LastOf(segments, "passed").Some?
  {
    TestCounts(total, LastOf(segments, "passed").value, GetOr(LastOf(segments, "failed"), 0),
               GetOr(LastOf(segments, "skipped"), 0))
  }

  lemma TrimEndIsIdle(s: string)
    requires s != "" ==> !IsSpace(s[|s| - 1])
    ensures TrimEnd(s) == s
  {
  }

  lemma {:induction false} SpaceAfter(a: string, b: string, i: nat)
    requires i <= |a| && forall j :: i <= j < |a| ==> !IsSpace(a[j])
    ensures SpaceFrom(a + " " + b, i) == |a|
    decreases |a| - i
  {
    if i < |a| {
      SpaceAfter(a, b, i + 1);
    }
  }

  lemma TrimIsIdle(s: string)
    requires s != "" ==> !IsSpace(s[0]) && !IsSpace(s[|s| - 1])
    ensures Trim(s) == s && Trim(" " + s) == s
  {
    assert (" " + s)[1..] == s;
    TrimEndIsIdle(s);
  }

  lemma CountWords(t: Tally, d: string, kind: string, value: nat)
    requires d != "" && (forall i :: 0 <= i < |d| ==> !IsSpace(d[i])) && ParseCount(d) == Some(value)
    requires kind != "" && !IsSpace(kind[0]) && !IsSpace(kind[|kind| - 1])
    ensures Count(t, " " + (d + " " + kind)) == Filed(t, kind, value)
  {
    var p := d + " " + kind;
    TrimIsIdle(p);
    SpaceAfter(d, kind, 0);
    assert p[..|d|] == d && p[|d| + 1..] == kind;
    TrimIsIdle(d);
    TrimIsIdle(kind);
  }

  lemma CountPart(t: Tally, s: Segment)
    requires KnownKind(s.kind) && s.value <= MAX_COUNT
    ensures Count(t, Part(s)) == Filed(t, s.kind, s.value)
  {
    DecimalParses(s.value);
    CountWords(t, Decimal(s.value), s.kind, s.value);
    assert Part(s) == " " + (Decimal(s.value) + " " + s.kind);
  }

  lemma CommaAt(a: string, b: string)
    requires ',' !in a
    ensures FindFrom(a + "," + b, ",", 0) == Some(|a|)
  {
    var s := a + "," + b;
    assert s[|a|..|a| + 1] == ",";
    forall j | 0 <= j < |a| ensures !MatchesAt(s, ",", j) {
      assert s[j..j + 1] == [a[j]];
    }
    assert MatchesAt(s, ",", |a|);
  }

  lemma NoComma(a: string)
    requires ',' !in a
    ensures FindFrom(a, ",", 0) == None
  {
    forall j: nat | j < |a| ensures !MatchesAt(a, ",", j) {
      assert a[j..j + 1] == [a[j]];
    }
  }

  lemma PartHasNoComma(s: Segment)
    requires KnownKind(s.kind)
    ensures ',' !in Part(s)
  {
    forall i | 0 <= i < |Decimal(s.value)| ensures Decimal(s.value)[i] != ',' {
      assert IsDigit(Decimal(s.value)[i]);
    }
  }

  lemma {:induction false} SplitPrinted(segments: seq<Segment>)
    requires segments != [] && Printable(segments)
    ensures SplitCommas(Printed(segments)) == seq(|segments|, i requires 0 <= i < |segments| => Part(segments[i]))
  {
    PartHasNoComma(segments[0]);
    if |segments| == 1 {
      NoComma(Part(segments[0]));
    } else {
      var rest := segments[1..];
      CommaAt(Part(segments[0]), Printed(rest));
      SplitPrinted(rest);
      var s := Printed(segments);
      assert s[..|Part(segments[0])|] == Part(segments[0]) && s[|Part(segments[0])| + 1..] == Printed(rest);
    }
  }

  lemma {:induction false} TallyOf(segments: seq<Segment>, parts: seq<string>)
    requires Printable(segments) && |parts| == |segments|
    requires forall i :: 0 <= i < |parts| ==> parts[i] == Part(segments[i])
    ensures CountAll(NOTHING, parts) ==
            Tally(LastOf(segments, "passed"), LastOf(segments, "failed"), LastOf(segments, "skipped"))
  {
    if segments != [] {
      TallyOf(segments[..|segments| - 1], parts[..|parts| - 1]);
      CountPart(CountAll(NOTHING, parts[..|parts| - 1]), segments[|segments| - 1]);
    }
  }

  lemma {:induction false} WordBehind(a: string, w: string)
    requires forall i :: 0 <= i < |w| ==> !IsSpace(w[i])
    ensures WordAtEnd(a + w) == WordAtEnd(a) + w
  {
    if w == "" {
      assert a + w == a;
    } else {
      assert (a + w)[..|a + w| - 1] == a + w[..|w| - 1];
      WordBehind(a, w[..|w| - 1]);
    }
  }

  lemma TotalInLastWord(prefix: string, total: nat)
    ensures LastWord(prefix + Decimal(total) + " ") == Some(WordAtEnd(prefix) + Decimal(total))
  {
    var s := prefix + Decimal(total);
    assert (s + " ")[..|s|] == s;
    assert IsDigit(s[|s| - 1]);
    TrimEndIsIdle(s);
    WordBehind(prefix, Decimal(total));
  }

  predicate AllZeros(s: string) {
    forall c :: c in s ==> c == '0'
  }

  /** What stands directly before the total does not change its value: nothing, or zeros, perhaps behind a
      plus sign. */
  predicate AddsNothing(prefix: string) {
    var w := WordAtEnd(prefix);
    AllZeros(if w != "" && w[0] == '+' then w[1..] else w)
  }

  ghost predicate AllDigits(s: string) {
    forall c :: c in s ==> IsDigit(c)
  }

  lemma {:induction false} ZerosHaveNoValue(x: string)
    requires AllDigits(x)
    ensures Value(x) == 0 <==> AllZeros(x)
  {
    if x != "" {
      var front, last := x[..|x| - 1], x[|x| - 1];
      assert x == front + [last] && last in x;
      assert forall c :: c in x <==> c in front || c == last;
      ZerosHaveNoValue(front);
    }
  }

  /** Leading digits raise the value unless they are all zeros. */
  lemma {:induction false} ValueBehind(x: string, d: string)
    requires AllDigits(x) && AllDigits(d)
    ensures AllDigits(x + d) && Value(x + d) >= Value(d)
    ensures Value(x + d) == Value(d) <==> AllZeros(x)
  {
    if d == "" {
      assert x + d == x;
      ZerosHaveNoValue(x);
    } else {
      var front, last := d[..|d| - 1], d[|d| - 1];
      assert last in d && (x + d)[..|x + d| - 1] == x + front;
      ValueBehind(x, front);
    }
  }

  lemma ParsesToTotalExactly(w: string, total: nat)
    requires total <= MAX_COUNT
    ensures ParseCount(w + Decimal(total)) == Some(total) <==>
            AllZeros(if w != "" && w[0] == '+' then w[1..] else w)
  {
    var d := Decimal(total);
    var x := if w != "" && w[0] == '+' then w[1..] else w;
    assert d[0] in d && IsDigit(d[0]);
    assert (w + d)[0] == if w == "" then d[0] else w[0];
    var digits := if (w + d)[0] == '+' then (w + d)[1..] else w + d;
    assert digits == x + d;
    DecimalValue(total);
    if AllDigits(x) {
      ValueBehind(x, d);
    } else {
      var c :| c in x && !IsDigit(c);
      assert c in digits;
    }
  }

  ghost predicate NoMarkerIn(s: string) {
    forall j: nat :: !MatchesAt(s, "tests run:", j)
  }

  lemma MarkerIsFirst(prefix: string, total: nat, rest: string)
    requires NoMarkerIn(prefix)
    ensures FindFrom(prefix + Decimal(total) + " " + TESTS_RUN + rest, TESTS_RUN, 0) ==
            Some(|prefix| + |Decimal(total)| + 1)
  {
    var line := prefix + Decimal(total) + " " + TESTS_RUN + rest;
    var at := |prefix| + |Decimal(total)| + 1;
    assert line[at..at + |TESTS_RUN|] == TESTS_RUN;
    assert MatchesAt(line, TESTS_RUN, at);
    forall j: nat | j < at ensures !MatchesAt(line, TESTS_RUN, j) {
      NoEarlierMarker(prefix, total, rest, j);
    }
  }

  lemma NoEarlierMarker(prefix: string, total: nat, rest: string, j: nat)
    requires NoMarkerIn(prefix) && j < |prefix| + |Decimal(total)| + 1
    ensures !MatchesAt(prefix + Decimal(total) + " " + TESTS_RUN + rest, TESTS_RUN, j)
  {
    var line := prefix + Decimal(total) + " " + TESTS_RUN + rest;
    var e := j + 9;
    assert e < |line|;
    if e < |prefix| {
      assert line[j..j + 10] == prefix[j..j + 10];
      assert !MatchesAt(prefix, TESTS_RUN, j);
    } else {
      NoColonBefore(prefix, total, rest, e);
      assert line[j..j + 10][9] == line[e];
    }
  }

  lemma NoColonBefore(prefix: string, total: nat, rest: string, e: nat)
    requires |prefix| <= e < |prefix| + |Decimal(total)| + 10
    ensures (prefix + Decimal(total) + " " + TESTS_RUN + rest)[e] != ':'
  {
    var d := Decimal(total);
    var line := prefix + d + " " + TESTS_RUN + rest;
    if e < |prefix| + |d| {
      assert line[e] == d[e - |prefix|];
    } else if e > |prefix| + |d| {
      assert line[e] == TESTS_RUN[e - |prefix| - |d| - 1];
    }
  }

  lemma LineIs(prefix: string, total: nat, segments: seq<Segment>)
    requires segments != []
    ensures SummaryLine(prefix, total, segments) == prefix + Decimal(total) + " " + TESTS_RUN + Printed(segments)
  {
    assert " tests run:" == " " + TESTS_RUN;
    RegroupThree(prefix + Decimal(total), " ", TESTS_RUN);
  }

  lemma LineIsCut(prefix: string, total: nat, segments: seq<Segment>, line: string) returns (at: nat)
    requires NoMarkerIn(prefix) && segments != [] && line == SummaryLine(prefix, total, segments)
    ensures FindFrom(line, TESTS_RUN, 0) == Some(at) && at + |TESTS_RUN| <= |line|
    ensures LastWord(line[..at]) == Some(WordAtEnd(prefix) + Decimal(total))
    ensures line[at + |TESTS_RUN|..] == Printed(segments)
  {
    LineIs(prefix, total, segments);
    MarkerIsFirst(prefix, total, Printed(segments));
    at := |prefix| + |Decimal(total)| + 1;
    TotalInLastWord(prefix, total);
    assert line[..at] == prefix + Decimal(total) + " ";
  }

  lemma SummaryOfParts(line: string, at: nat, word: string, tail: string, t: Tally)
    requires FindFrom(line, TESTS_RUN, 0) == Some(at) && at + |TESTS_RUN| <= |line|
    requires LastWord(line[..at]) == Some(word) && line[at + |TESTS_RUN|..] == tail
    requires t == CountAll(NOTHING, SplitCommas(tail))
    ensures SummaryOf(line) ==
            if ParseCount(word).None? || t.passed.None? then None
            else Some(TestCounts(ParseCount(word).value, t.passed.value, GetOr(t.failed, 0), GetOr(t.skipped, 0)))
  {
  }

  /** A printed line parses back to its counts exactly when the prefix leaves the total its value. */
  lemma LineRoundTrips(prefix: string, total: nat, segments: seq<Segment>)
    requires NoMarkerIn(prefix)
    requires total <= MAX_COUNT && Printable(segments) && LastOf(segments, "passed").Some?
    ensures SummaryOf(SummaryLine(prefix, total, segments)) == Some(CountsOf(total, segments)) <==> AddsNothing(prefix)
  {
    var line := SummaryLine(prefix, total, segments);
    var at := LineIsCut(prefix, total, segments, line);
    ParsesToTotalExactly(WordAtEnd(prefix), total);
    SplitPrinted(segments);
    TallyOf(segments, SplitCommas(Printed(segments)));
    var word := WordAtEnd(prefix) + Decimal(total);
    SummaryOfParts(line, at, word, Printed(segments),
                   Tally(LastOf(segments, "passed"), LastOf(segments, "failed"), LastOf(segments, "skipped")));
  }

  /** A line that counts no passed tests is no summary. */
  lemma NoPassedNoSummary(prefix: string, total: nat, segments: seq<Segment>)
    requires NoMarkerIn(prefix) && segments != [] && Printable(segments)
    requires forall s :: s in segments ==> s.kind != "passed"
    ensures SummaryOf(SummaryLine(prefix, total, segments)) == None
  {
    var line := SummaryLine(prefix, total, segments);
    var at := LineIsCut(prefix, total, segments, line);
    SplitPrinted(segments);
    TallyOf(segments, SplitCommas(Printed(segments)));
    NoneOfKind(segments, "passed");
    SummaryOfParts(line, at, WordAtEnd(prefix) + Decimal(total), Printed(segments),
                   Tally(None, LastOf(segments, "failed"), LastOf(segments, "skipped")));
  }

  lemma {:induction false} NoneOfKind(segments: seq<Segment>, kind: string)
    requires forall s :: s in segments ==> s.kind != kind
    ensures LastOf(segments, kind) == None
  {
    if segments != [] {
      assert segments[|segments| - 1] in segments;
      assert forall s :: s in segments[..|segments| - 1] ==> s in segments;
      NoneOfKind(segments[..|segments| - 1], kind);
    }
  }

  /** Printed counts parse exactly as far as they fit into 64 bits. */
  lemma CountsUpTo64Bits(n: nat)
    ensures ParseCount(Decimal(n)) == if n <= 0xFFFF_FFFF_FFFF_FFFF then Some(n) else None
  {
    DecimalValue(n);
    assert IsDigit(Decimal(n)[0]);
  }

  // The whole output: other lines around the summary, control sequences anywhere.

  lemma NewlineAt(a: string, b: string)
    requires '\n' !in a
    ensures FindFrom(a + "\n" + b, "\n", 0) == Some(|a|)
  {
    var s := a + "\n" + b;
    assert s[|a|..|a| + 1] == "\n";
    forall j | 0 <= j < |a| ensures !MatchesAt(s, "\n", j) {
      assert s[j..j + 1] == [a[j]];
    }
    assert MatchesAt(s, "\n", |a|);
  }

  lemma NoNewline(a: string)
    requires '\n' !in a
    ensures FindFrom(a, "\n", 0) == None
  {
    forall j: nat | j < |a| ensures !MatchesAt(a, "\n", j) {
      assert a[j..j + 1] == [a[j]];
    }
  }

  /** Text that is empty or ends its last line. */
  predicate WholeLines(s: string) {
    s == "" || s[|s| - 1] == '\n'
  }

  lemma {:induction false} LinesInFront(a: string, b: string)
    requires WholeLines(a)
    ensures Lines(a + b) == Lines(a) + Lines(b)
    decreases |a|
  {
    if a == "" {
      assert a + b == b;
    } else {
      FirstNewline(a, b);
      var e := FindFrom(a, "\n", 0).value;
      CutInFront(a, b, e);
      LinesInFront(a[e + 1..], b);
      Regroup([DropCr(a[..e])], Lines(a[e + 1..]), Lines(b));
    }
  }

  lemma CutInFront(a: string, b: string, e: nat)
    requires e < |a|
    ensures (a + b)[..e] == a[..e] && (a + b)[e + 1..] == a[e + 1..] + b
  {
  }

  lemma Regroup<T>(a: seq<T>, b: seq<T>, c: seq<T>)
    ensures a + (b + c) == a + b + c
  {
  }

  lemma FirstNewline(a: string, b: string)
    requires a != "" && WholeLines(a)
    ensures FindFrom(a, "\n", 0).Some? && FindFrom(a + b, "\n", 0) == FindFrom(a, "\n", 0)
  {
    assert a[|a| - 1..|a|] == "\n";
    assert MatchesAt(a, "\n", |a| - 1);
    var e := FindFrom(a, "\n", 0).value;
    forall j: nat | j <= e ensures MatchesAt(a + b, "\n", j) <==> MatchesAt(a, "\n", j) {
      assert (a + b)[j..j + 1] == a[j..j + 1];
    }
  }

  lemma SummaryLineShape(prefix: string, total: nat, segments: seq<Segment>)
    requires segments != [] && Printable(segments) && '\n' !in prefix
    ensures var line := SummaryLine(prefix, total, segments);
            '\n' !in line && line != "" && !IsSpace(line[|line| - 1])
  {
    forall i | 0 <= i < |Decimal(total)| ensures Decimal(total)[i] != '\n' {
      assert IsDigit(Decimal(total)[i]);
    }
    PrintedShape(segments);
  }

  lemma PartShape(s: Segment)
    requires KnownKind(s.kind)
    ensures '\n' !in Part(s) && Part(s) != "" && !IsSpace(Part(s)[|Part(s)| - 1])
  {
    var d := Decimal(s.value);
    forall i | 0 <= i < |d| ensures d[i] != '\n' {
      assert IsDigit(d[i]);
    }
  }

  lemma {:induction false} PrintedShape(segments: seq<Segment>)
    requires segments != [] && Printable(segments)
    ensures '\n' !in Printed(segments) && Printed(segments) != ""
    ensures !IsSpace(Printed(segments)[|Printed(segments)| - 1])
  {
    PartShape(segments[0]);
    if |segments| > 1 {
      PrintedShape(segments[1..]);
    }
  }

  lemma {:induction false} SpaceInFront(c: char, s: string)
    requires IsSpace(c)
    ensures WordAtEnd([c] + s) == WordAtEnd(s)
  {
    if s != "" && !IsSpace(s[|s| - 1]) {
      assert ([c] + s)[..|s|] == [c] + s[..|s| - 1];
      SpaceInFront(c, s[..|s| - 1]);
    }
  }

  /** Trimming the line only shortens its decoration. */
  lemma {:induction false} TrimmedPrefix(prefix: string, total: nat, rest: string)
    requires NoMarkerIn(prefix)
    ensures var p := TrimStart(prefix);
            && TrimStart(prefix + Decimal(total) + rest) == p + Decimal(total) + rest
            && NoMarkerIn(p) && WordAtEnd(p) == WordAtEnd(prefix)
    decreases |prefix|
  {
    var all := prefix + Decimal(total) + rest;
    if prefix == "" {
      assert IsDigit(all[0]);
    } else if IsSpace(prefix[0]) {
      forall j: nat ensures !MatchesAt(prefix[1..], TESTS_RUN, j) {
        if j + 10 <= |prefix[1..]| {
          assert prefix[1..][j..j + 10] == prefix[j + 1..j + 11];
          assert !MatchesAt(prefix, TESTS_RUN, j + 1);
        }
      }
      assert all[1..] == prefix[1..] + Decimal(total) + rest;
      TrimmedPrefix(prefix[1..], total, rest);
      assert prefix == [prefix[0]] + prefix[1..];
      SpaceInFront(prefix[0], prefix[1..]);
    }
  }

  lemma RegroupThree<T>(a: seq<T>, b: seq<T>, c: seq<T>)
    ensures a + b + c == a + (b + c)
  {
  }

  lemma RegroupFour<T>(a: seq<T>, b: seq<T>, c: seq<T>, d: seq<T>)
    ensures a + b + c + d == a + (b + c + d)
  {
  }

  lemma EndsLike<T>(a: seq<T>, b: seq<T>)
    requires b != []
    ensures a + b != [] && (a + b)[|a + b| - 1] == b[|b| - 1]
  {
  }

  lemma LineIsUntrimmedAtEnd(prefix: string, total: nat, segments: seq<Segment>)
    requires segments != [] && Printable(segments)
    ensures TrimEnd(SummaryLine(prefix, total, segments)) == SummaryLine(prefix, total, segments)
  {
    PrintedShape(segments);
    EndsLike(prefix + Decimal(total) + " " + TESTS_RUN, Printed(segments));
    TrimEndIsIdle(SummaryLine(prefix, total, segments));
  }

  lemma LineBehindTotal(prefix: string, total: nat, segments: seq<Segment>)
    requires segments != []
    ensures SummaryLine(prefix, total, segments) == prefix + Decimal(total) + (" " + TESTS_RUN + Printed(segments))
  {
    LineIs(prefix, total, segments);
    RegroupFour(prefix + Decimal(total), " ", TESTS_RUN, Printed(segments));
  }

  lemma TrimmedLineIs(prefix: string, total: nat, segments: seq<Segment>)
    requires NoMarkerIn(prefix)
    requires segments != [] && Printable(segments)
    ensures Trim(SummaryLine(prefix, total, segments)) == SummaryLine(TrimStart(prefix), total, segments)
  {
    TrimmedPrefix(prefix, total, " " + TESTS_RUN + Printed(segments));
    LineBehindTotal(prefix, total, segments);
    LineBehindTotal(TrimStart(prefix), total, segments);
    LineIsUntrimmedAtEnd(TrimStart(prefix), total, segments);
  }

  lemma TrimmedLineRoundTrips(prefix: string, total: nat, segments: seq<Segment>)
    requires NoMarkerIn(prefix) && AddsNothing(prefix)
    requires total <= MAX_COUNT && Printable(segments) && LastOf(segments, "passed").Some?
    ensures SummaryOf(Trim(SummaryLine(prefix, total, segments))) == Some(CountsOf(total, segments))
  {
    TrimmedLineIs(prefix, total, segments);
    TrimmedPrefix(prefix, total, "");
    LineRoundTrips(TrimStart(prefix), total, segments);
  }

  lemma {:induction false} SummaryBeforeOthers(front: seq<string>, line: string, others: seq<string>)
    requires SummaryOf(Trim(line)).Some?
    requires forall i :: 0 <= i < |others| ==> SummaryOf(Trim(others[i])).None?
    ensures LastSummary(front + [line] + others) == SummaryOf(Trim(line))
  {
    var all := front + [line] + others;
    if others == [] {
      assert all == front + [line];
    } else {
      assert all[..|all| - 1] == front + [line] + others[..|others| - 1];
      SummaryBeforeOthers(front, line, others[..|others| - 1]);
    }
  }

  /** What follows the summary line: nothing, or a line end and more lines. */
  function LinesAfter(tail: string): seq<string> {
    if tail == "" then [] else Lines(tail[1..])
  }

  /** Counts printed as a summary line come back from the whole output: behind any earlier lines, before
      any later lines that are no summaries, and with control sequences put in anywhere. */
  lemma OutputRoundTrips(before: string, prefix: string, total: nat, segments: seq<Segment>, tail: string,
                         noisy: string)
    requires WholeLines(before) && (tail == "" || tail[0] == '\n')
    requires NoMarkerIn(prefix) && AddsNothing(prefix) && '\n' !in prefix
    requires total <= MAX_COUNT && Printable(segments) && LastOf(segments, "passed").Some?
    requires forall i :: 0 <= i < |LinesAfter(tail)| ==> SummaryOf(Trim(LinesAfter(tail)[i])).None?
    requires var clean := before + SummaryLine(prefix, total, segments) + tail;
             ESC !in clean && Decorated(clean, noisy)
    ensures Parsed(noisy) == CountsOf(total, segments)
  {
    var line := SummaryLine(prefix, total, segments);
    StripUndoesDecoration(before + line + tail, noisy);
    SummaryLineShape(prefix, total, segments);
    LinesAround(before, line, tail);
    TrimmedLineRoundTrips(prefix, total, segments);
    SummaryBeforeOthers(Lines(before), line, LinesAfter(tail));
  }

  lemma LinesAround(before: string, line: string, tail: string)
    requires WholeLines(before) && '\n' !in line && line != "" && !IsSpace(line[|line| - 1])
    requires tail == "" || tail[0] == '\n'
    ensures Lines(before + line + tail) == Lines(before) + [line] + LinesAfter(tail)
  {
    RegroupThree(before, line, tail);
    LinesInFront(before, line + tail);
    FirstLine(line, tail);
    RegroupThree(Lines(before), [line], LinesAfter(tail));
  }

  lemma FirstLine(line: string, tail: string)
    requires '\n' !in line && line != "" && !IsSpace(line[|line| - 1])
    requires tail == "" || tail[0] == '\n'
    ensures Lines(line + tail) == [line] + LinesAfter(tail)
  {
    if tail == "" {
      NoNewline(line);
      assert line + tail == line;
    } else {
      var after := tail[1..];
      assert line + tail == line + "\n" + after;
      NewlineAt(line, after);
      assert (line + tail)[..|line|] == line && (line + tail)[|line| + 1..] == after;
    }
  }
}
