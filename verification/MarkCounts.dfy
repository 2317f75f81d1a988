/** Test output without a summary line: the counts come from the marks before each test. */
module MarkCounts {
  import opened Bytes
  import opened Ansi
  import opened Nextest
  import NextestRoundTrip

  predicate IsMark(s: string) {
    s == "PASS [" || s == "FAIL [" || s == "SKIP ["
  }

  /** A text with one of the marks behind it. */
  datatype Piece = Piece(text: string, mark: string)

  function Spelled(pieces: seq<Piece>, tail: string): string {
    if pieces == [] then tail else pieces[0].text + pieces[0].mark + Spelled(pieces[1..], tail)
  }

  ghost predicate Lacks(s: string, pat: string) {
    forall i: nat :: !MatchesAt(s, pat, i)
  }

  ghost predicate HasNoMark(s: string) {
    Lacks(s, "PASS [") && Lacks(s, "FAIL [") && Lacks(s, "SKIP [")
  }

  ghost predicate AllMarked(pieces: seq<Piece>) {
    forall p :: p in pieces ==> IsMark(p.mark) && HasNoMark(p.text)
  }

  function Marks(pieces: seq<Piece>): seq<string> {
    seq(|pieces|, i requires 0 <= i < |pieces| => pieces[i].mark)
  }

  /** How many of the pieces end in the mark. */
  function HowMany(pieces: seq<Piece>, mark: string): nat {
    multiset(Marks(pieces))[mark]
  }

  lemma HowManyMore(pieces: seq<Piece>, mark: string)
    requires pieces != []
    ensures HowMany(pieces, mark) == HowMany(pieces[1..], mark) + if pieces[0].mark == mark then 1 else 0
  {
    assert Marks(pieces) == [pieces[0].mark] + Marks(pieces[1..]);
  }

  // Where a mark may stand in a text followed by a mark.

  /** No part of a mark that starts late in one starts another, so none straddles the end of a text or of a
      mark. */
  lemma NoOverlap(a: string, b: string, k: nat)
    requires IsMark(a) && IsMark(b) && 0 < k < 6
    ensures a[k..] != b[..6 - k]
  {
    assert a[5] == '[' && a[4] == ' ' && b[0] in {'P', 'F', 'S'};
    if k == 1 {
      assert a[k..][0] == 'A' || a[k..][0] == 'K';
    } else if k == 2 {
      assert a[k..][0] == 'S' || a[k..][0] == 'I';
      assert a[k..][1] == 'S' || a[k..][1] == 'L' || a[k..][1] == 'P';
      assert b[..6 - k][1] == 'A' || b[..6 - k][1] == 'K';
    } else if k == 3 {
      assert a[k..][1] == ' ' && b[..6 - k][1] != ' ';
    } else {
      assert a[k..][0] == ' ' || a[k..][0] == '[';
      assert b[..6 - k][0] == b[0];
    }
  }

  lemma StraddlesText(text: string, mark: string, rest: string, pat: string, i: nat)
    requires IsMark(mark) && IsMark(pat) && i < |text| < i + 6
    ensures (text + mark + rest)[i..i + 6] != pat
  {
    var s := text + mark + rest;
    var k := |text| - i;
    Inner(s, i, 6, k, 6 - k);
    assert s[|text|..i + 6] == mark[..6 - k];
    NoOverlap(pat, mark, k);
  }

  /** Before the end of the mark the pattern is found only where the mark is. */
  lemma FoundWhere(text: string, mark: string, rest: string, pat: string, i: nat)
    requires IsMark(mark) && IsMark(pat) && Lacks(text, pat) && i < |text| + 6
    ensures MatchesAt(text + mark + rest, pat, i) <==> i == |text| && pat == mark
  {
    var s := text + mark + rest;
    assert s[|text|..|text| + 6] == mark;
    if i + 6 <= |text| {
      assert s[i..i + 6] == text[i..i + 6] && !MatchesAt(text, pat, i);
    } else if i < |text| {
      StraddlesText(text, mark, rest, pat, i);
    } else if i > |text| && i + 6 <= |s| {
      var k := i - |text|;
      StraddlesMark(mark, rest, pat, k);
      assert s[i..i + 6] == (mark + rest)[k..k + 6];
    }
  }

  lemma StraddlesMark(mark: string, rest: string, pat: string, k: nat)
    requires IsMark(mark) && IsMark(pat) && 0 < k < 6 && k + 6 <= |mark + rest|
    ensures (mark + rest)[k..k + 6] != pat
  {
    var t := (mark + rest)[k..k + 6];
    Inner(mark + rest, k, 6, 0, 6 - k);
    assert (mark + rest)[k..6] == mark[k..];
    NoOverlap(mark, pat, k);
  }

  /** Counting from the middle is counting in the rest. */
  lemma {:induction false} CountsInRest(s: string, pat: string, k: nat, i: nat)
    requires pat != "" && k + i <= |s|
    ensures Matches(s, pat, k + i) == Matches(s[k..], pat, i)
    decreases |s| - i
  {
    FindInRest(s, pat, k, i);
    var at := FindFrom(s[k..], pat, i);
    if at.Some? {
      var next := at.value + |pat|;
      CountsInRest(s, pat, k, next);
      assert Matches(s, pat, k + i) == 1 + Matches(s, pat, k + next);
    }
  }

  lemma FindInRest(s: string, pat: string, k: nat, i: nat)
    requires k + i <= |s|
    ensures var at := FindFrom(s[k..], pat, i);
            FindFrom(s, pat, k + i) == if at.None? then None else Some(k + at.value)
  {
    forall j: nat ensures MatchesAt(s[k..], pat, j) <==> MatchesAt(s, pat, k + j) {
      if k + j + |pat| <= |s| {
        assert s[k..][j..j + |pat|] == s[k + j..k + j + |pat|];
      }
    }
    var at, found := FindFrom(s[k..], pat, i), FindFrom(s, pat, k + i);
    if found.Some? {
      assert MatchesAt(s[k..], pat, found.value - k);
    }
  }

  lemma OnePiece(text: string, mark: string, rest: string, pat: string)
    requires IsMark(mark) && IsMark(pat) && Lacks(text, pat)
    ensures Matches(text + mark + rest, pat, 0) == Matches(rest, pat, 0) + if mark == pat then 1 else 0
  {
    forall i: nat | i < |text| + 6 ensures MatchesAt(text + mark + rest, pat, i) <==> i == |text| && pat == mark {
      FoundWhere(text, mark, rest, pat, i);
    }
    Behind(text, mark, rest);
    CountsBehind(text + mark + rest, pat, |text|, mark == pat);
  }

  lemma Behind(text: string, mark: string, rest: string)
    requires |mark| == 6
    ensures (text + mark + rest)[|text| + 6..] == rest
  {
  }

  lemma CountsBehind(s: string, pat: string, k: nat, there: bool)
    requires |pat| == 6 && k + 6 <= |s| && forall i: nat :: i < k + 6 ==> (MatchesAt(s, pat, i) <==> i == k && there)
    ensures Matches(s, pat, 0) == Matches(s[k + 6..], pat, 0) + if there then 1 else 0
  {
    CountsInRest(s, pat, k + 6, 0);
    if there {
      FirstFind(s, pat, k);
    } else {
      SkipsAhead(s, pat, 0, k + 6);
    }
  }

  lemma FirstFind(s: string, pat: string, k: nat)
    requires pat != "" && MatchesAt(s, pat, k) && forall i: nat :: i < k ==> !MatchesAt(s, pat, i)
    ensures Matches(s, pat, 0) == 1 + Matches(s, pat, k + |pat|)
  {
    var at := FindFrom(s, pat, 0);
    assert at.Some? && at.value == k;
  }

  lemma SkipsAhead(s: string, pat: string, i: nat, n: nat)
    requires pat != "" && i <= n && forall j: nat :: i <= j < n ==> !MatchesAt(s, pat, j)
    ensures Matches(s, pat, i) == Matches(s, pat, n)
  {
    var a, b := FindFrom(s, pat, i), FindFrom(s, pat, n);
    if a.Some? {
      assert a.value >= n && MatchesAt(s, pat, a.value);
    }
  }

  lemma NotFound(s: string, pat: string)
    requires Lacks(s, pat)
    ensures FindFrom(s, pat, 0).None?
  {
  }

  lemma NothingFound(s: string, pat: string)
    requires pat != "" && Lacks(s, pat)
    ensures Matches(s, pat, 0) == 0
  {
    NotFound(s, pat);
  }

  lemma {:induction false} MarksCounted(pieces: seq<Piece>, tail: string, pat: string)
    requires AllMarked(pieces) && HasNoMark(tail) && IsMark(pat)
    ensures Matches(Spelled(pieces, tail), pat, 0) == HowMany(pieces, pat)
  {
    if pieces == [] {
      NothingFound(tail, pat);
      assert (set i: nat | i < |pieces| && pieces[i].mark == pat) == {};
    } else {
      var p, rest := pieces[0], pieces[1..];
      assert p in pieces && forall q :: q in rest ==> q in pieces;
      MarksCounted(rest, tail, pat);
      HowManyMore(pieces, pat);
      OnePiece(p.text, p.mark, Spelled(rest, tail), pat);
    }
  }

  // No line of an output without the words of a summary is a summary line.

  lemma LacksIn(s: string, part: string, pat: string, k: nat)
    requires Lacks(s, pat) && k + |part| <= |s| && s[k..k + |part|] == part
    ensures Lacks(part, pat)
  {
    forall i: nat ensures !MatchesAt(part, pat, i) {
      if i + |pat| <= |part| {
        Inner(s, k, |part|, i, |pat|);
        assert !MatchesAt(s, pat, k + i);
      }
    }
  }

  lemma NoSummaryWithout(line: string)
    requires Lacks(line, "tests run:")
    ensures SummaryOf(line).None?
  {
    assert TESTS_RUN == "tests run:";
    NotFound(line, TESTS_RUN);
  }

  lemma {:induction false} TrimStartIsEnd(s: string) returns (k: nat)
    ensures k <= |s| && TrimStart(s) == s[k..]
    decreases |s|
  {
    if s != "" && IsSpace(s[0]) {
      k := TrimStartIsEnd(s[1..]);
      k := k + 1;
    } else {
      k := 0;
    }
  }

  lemma {:induction false} TrimEndIsFront(s: string) returns (k: nat)
    ensures k <= |s| && TrimEnd(s) == s[..k]
    decreases |s|
  {
    if s != "" && IsSpace(s[|s| - 1]) {
      k := TrimEndIsFront(s[..|s| - 1]);
    } else {
      k := |s|;
    }
  }

  lemma TrimmedLacks(s: string, pat: string)
    requires Lacks(s, pat)
    ensures Lacks(Trim(s), pat)
  {
    var k := TrimStartIsEnd(s);
    var n := TrimEndIsFront(s[k..]);
    assert s[k..k + n] == s[k..][..n];
    LacksIn(s, Trim(s), pat, k);
  }

  lemma DroppedLacks(s: string, pat: string)
    requires Lacks(s, pat)
    ensures Lacks(DropCr(s), pat)
  {
    LacksIn(s, DropCr(s), pat, 0);
  }

  lemma {:induction false} LinesLack(s: string, pat: string)
    requires Lacks(s, pat)
    ensures forall l :: l in Lines(s) ==> Lacks(l, pat)
    decreases |s|
  {
    if s != "" {
      var end := FindFrom(s, "\n", 0);
      if end.Some? {
        LacksIn(s, s[..end.value], pat, 0);
        DroppedLacks(s[..end.value], pat);
        LacksIn(s, s[end.value + 1..], pat, end.value + 1);
        LinesLack(s[end.value + 1..], pat);
      }
    }
  }

  lemma {:induction false} NoSummaryAmong(lines: seq<string>)
    requires forall l :: l in lines ==> Lacks(l, "tests run:")
    ensures LastSummary(lines).None?
  {
    if lines != [] {
      var last := lines[|lines| - 1];
      assert last in lines && forall l :: l in lines[..|lines| - 1] ==> l in lines;
      TrimmedLacks(last, "tests run:");
      NoSummaryWithout(Trim(last));
      NoSummaryAmong(lines[..|lines| - 1]);
    }
  }

  /** Without the words of a summary line the marks are counted, each under its kind, with control sequences
      put in anywhere. */
  lemma MarksAreCounted(pieces: seq<Piece>, tail: string, noisy: string)
    requires AllMarked(pieces) && HasNoMark(tail)
    requires var clean := Spelled(pieces, tail);
             Lacks(clean, "tests run:") && ESC !in clean && Decorated(clean, noisy)
    ensures var passed, failed := HowMany(pieces, "PASS ["), HowMany(pieces, "FAIL [");
            var skipped := HowMany(pieces, "SKIP [");
            Parsed(noisy) == TestCounts(passed + failed + skipped, passed, failed, skipped)
  {
    var clean := Spelled(pieces, tail);
    StripUndoesDecoration(clean, noisy);
    LinesLack(clean, "tests run:");
    NoSummaryAmong(Lines(clean));
    MarksCounted(pieces, tail, "PASS [");
    MarksCounted(pieces, tail, "FAIL [");
    MarksCounted(pieces, tail, "SKIP [");
  }
}
