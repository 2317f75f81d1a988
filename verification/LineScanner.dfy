/** The two line scanners that carry a block-comment flag from line to line, against one reader that
    takes a line byte by byte. */
module LineScanner {
  import opened Bytes
  import opened CommentScanner
  import opened TodoMarkers
  import Utf8

  datatype Place = InCode(mode: Mode) | InBlock | InBlockStar | InLine

  function NextPlace(p: Place, c: Byte): Place {
    match p
    case InCode(m) =>
      (match Next(m, c)
       case LineComment => InLine
       case BlockComment => InBlock
       case m' => InCode(m'))
    case InBlock => if c == '*' then InBlockStar else InBlock
    case InBlockStar => if c == '/' then InCode(Code) else if c == '*' then InBlockStar else InBlock
    case InLine => InLine
  }

  function StartPlace(inBlock: bool): Place {
    if inBlock then InBlock else InCode(Code)
  }

  /** The place after the line's bytes from `i` on. */
  function EndPlace(b: Text, i: nat, p: Place): Place
    decreases |b| - i
  {
    if i >= |b| then p else EndPlace(b, i + 1, NextPlace(p, b[i]))
  }

  predicate LeftOpen(p: Place) {
    p == InBlock || p == InBlockStar
  }

  /** The bytes read as code. The slash that turns out to open a comment is taken back. */
  function CodeBytes(b: Text, i: nat, p: Place, out: Text): Text
    decreases |b| - i
  {
    if i >= |b| then out
    else
      var p' := NextPlace(p, b[i]);
      if p.InCode? && p'.InCode? then CodeBytes(b, i + 1, p', out + [b[i]])
      else if p.InCode? then CodeBytes(b, i + 1, p', if out == [] then [] else out[..|out| - 1])
      else CodeBytes(b, i + 1, p', out)
  }

  datatype Comment = Comment(text: Text, closed: bool)

  /** The comments of the line in order; only a block comment that ends on the line is closed. */
  function Comments(b: Text, i: nat, p: Place, current: Text): seq<Comment>
    decreases |b| - i
  {
    if i >= |b| then (if p.InCode? then [] else [Comment(current, false)])
    else
      var p' := NextPlace(p, b[i]);
      if p.InCode? then Comments(b, i + 1, p', [])
      else if p'.InCode? then
        [Comment(if current == [] then [] else current[..|current| - 1], true)] + Comments(b, i + 1, p', [])
      else Comments(b, i + 1, p', current + [b[i]])
  }

  const CLOSE: Text := "*/"

  // From inside a block comment: the substring search finds where the reader leaves it.

  lemma {:induction false} BlockUntil(b: Text, i: nat, p: Place, stop: nat, out: Text, current: Text)
    requires i <= stop <= |b| && LeftOpen(p)
    requires forall j :: i <= j < stop ==> !MatchesAt(b, CLOSE, j)
    requires p == InBlockStar && i < stop ==> b[i] != '/'
    ensures var p' := if i == stop then p else if b[stop - 1] == '*' then InBlockStar else InBlock;
            && EndPlace(b, i, p) == EndPlace(b, stop, p')
            && CodeBytes(b, i, p, out) == CodeBytes(b, stop, p', out)
            && Comments(b, i, p, current) == Comments(b, stop, p', current + b[i..stop])
    decreases stop - i
  {
    if i == stop {
      assert current + b[i..stop] == current;
    } else {
      var q := NextPlace(p, b[i]);
      if i + 1 < stop && b[i] == '*' {
        NoCloseHere(b, i);
      }
      BlockUntil(b, i + 1, q, stop, out, current + [b[i]]);
      assert current + [b[i]] + b[i + 1..stop] == current + b[i..stop];
    }
  }

  lemma NoCloseHere(b: Text, i: nat)
    requires i + 1 < |b| && !MatchesAt(b, CLOSE, i) && b[i] == '*'
    ensures b[i + 1] != '/'
  {
    assert b[i..i + 2] == [b[i], b[i + 1]];
  }

  lemma BlockCloses(b: Text)
    ensures var close := FindFrom(b, CLOSE, 0);
            if close.None? then
              && LeftOpen(EndPlace(b, 0, InBlock))
              && CodeBytes(b, 0, InBlock, []) == []
              && Comments(b, 0, InBlock, []) == [Comment(b, false)]
            else
              var p := close.value;
              && EndPlace(b, 0, InBlock) == EndPlace(b[p + 2..], 0, InCode(Code))
              && CodeBytes(b, 0, InBlock, []) == CodeBytes(b[p + 2..], 0, InCode(Code), [])
              && Comments(b, 0, InBlock, []) == [Comment(b[..p], true)] + Comments(b[p + 2..], 0, InCode(Code), [])
  {
    var close := FindFrom(b, CLOSE, 0);
    if close.None? {
      BlockUntil(b, 0, InBlock, |b|, [], []);
      assert [] + b[0..|b|] == b;
    } else {
      var p := close.value;
      BlockUntil(b, 0, InBlock, p, [], []);
      assert [] + b[0..p] == b[..p];
      var q := if p == 0 then InBlock else if b[p - 1] == '*' then InBlockStar else InBlock;
      ClosingBytes(b, p, q, b[..p]);
      Suffix(b, p + 2, 0, InCode(Code), [], []);
    }
  }

  lemma ClosingBytes(b: Text, p: nat, q: Place, current: Text)
    requires MatchesAt(b, CLOSE, p) && LeftOpen(q)
    ensures EndPlace(b, p, q) == EndPlace(b, p + 2, InCode(Code))
    ensures CodeBytes(b, p, q, []) == CodeBytes(b, p + 2, InCode(Code), [])
    ensures Comments(b, p, q, current) == [Comment(current, true)] + Comments(b, p + 2, InCode(Code), [])
  {
    assert b[p] == b[p..p + 2][0] && b[p + 1] == b[p..p + 2][1];
    assert (current + [b[p]])[..|current|] == current;
    assert Comments(b, p, q, current) == Comments(b, p + 1, InBlockStar, current + [b[p]]);
  }

  /** Reading from the middle is reading the rest. */
  lemma {:induction false} Suffix(b: Text, k: nat, i: nat, p: Place, out: Text, current: Text)
    requires k + i <= |b|
    ensures EndPlace(b, k + i, p) == EndPlace(b[k..], i, p)
    ensures CodeBytes(b, k + i, p, out) == CodeBytes(b[k..], i, p, out)
    ensures Comments(b, k + i, p, current) == Comments(b[k..], i, p, current)
    decreases |b| - i
  {
    if k + i < |b| {
      var p' := NextPlace(p, b[k + i]);
      assert b[k..][i] == b[k + i];
      var out' := if !p.InCode? then out else if p'.InCode? then out + [b[k + i]]
                  else if out == [] then [] else out[..|out| - 1];
      var current' := if p.InCode? || p'.InCode? then [] else current + [b[k + i]];
      Suffix(b, k, i + 1, p', out', current');
    }
  }

  // From code: the marker search finds where the reader leaves it.

  /** The byte just read may be the first of a marker. */
  predicate MayOpen(m: Mode) {
    m == Slash || m == QuoteThen('/')
  }

  lemma OnlyMayOpenOpens(m: Mode, c: Byte)
    requires !m.LineComment? && !m.BlockComment?
    ensures Next(m, c).LineComment? || Next(m, c).BlockComment? ==> MayOpen(m)
  {
    if m.QuoteThen? && c != '\'' {
      assert Next(m, c) == Next(FromCode(m.c), c);
    }
  }

  /** The reader leaves code at marker `f` having read `total`, the slash included. */
  ghost predicate LeavesAt(b: Text, i: nat, m: Mode, out: Text, f: Marker, total: Text)
    requires f != NoMarker
  {
    var place := if f.LineAt? then InLine else InBlock;
    && f.pos + 2 <= |b| && i - 1 <= f.pos && total != []
    && EndPlace(b, i, InCode(m)) == EndPlace(b, f.pos + 2, place)
    && CodeBytes(b, i, InCode(m), out) == CodeBytes(b, f.pos + 2, place, total[..|total| - 1])
    && Comments(b, i, InCode(m), []) == Comments(b, f.pos + 2, place, [])
  }

  ghost predicate NeverLeaves(b: Text, i: nat, m: Mode, out: Text)
    requires i <= |b|
  {
    && EndPlace(b, i, InCode(m)).InCode?
    && CodeBytes(b, i, InCode(m), out) == out + b[i..]
    && Comments(b, i, InCode(m), []) == []
  }

  lemma {:induction false} CodeUntil(b: Text, i: nat, m: Mode, out: Text)
    requires i <= |b| && !m.LineComment? && !m.BlockComment? && (MayOpen(m) ==> out != [])
    ensures var f := FirstMarker(b, i, m);
            if f == NoMarker then NeverLeaves(b, i, m, out)
            else i - 1 <= f.pos < |b| && LeavesAt(b, i, m, out, f, out + b[i..f.pos + 1])
    decreases |b| - i
  {
    if i == |b| {
      assert out + b[i..] == out;
    } else {
      var m', f := Next(m, b[i]), FirstMarker(b, i, m);
      OnlyMayOpenOpens(m, b[i]);
      if m'.LineComment? || m'.BlockComment? {
        LeavesHere(b, i, m, out);
      } else {
        CodeUntil(b, i + 1, m', out + [b[i]]);
        if f == NoMarker {
          NeverLeavesOn(b, i, m, out);
        } else {
          LeavesOn(b, i, m, out, f);
        }
      }
    }
  }

  lemma LeavesHere(b: Text, i: nat, m: Mode, out: Text)
    requires i < |b| && out != [] && (Next(m, b[i]).LineComment? || Next(m, b[i]).BlockComment?)
    ensures LeavesAt(b, i, m, out, FirstMarker(b, i, m), out + b[i..i])
  {
    assert out + b[i..i] == out;
  }

  lemma NeverLeavesOn(b: Text, i: nat, m: Mode, out: Text)
    requires i < |b| && !Next(m, b[i]).LineComment? && !Next(m, b[i]).BlockComment?
    requires NeverLeaves(b, i + 1, Next(m, b[i]), out + [b[i]])
    ensures NeverLeaves(b, i, m, out)
  {
    assert out + [b[i]] + b[i + 1..] == out + b[i..];
  }

  lemma LeavesOn(b: Text, i: nat, m: Mode, out: Text, f: Marker)
    requires i < |b| && !Next(m, b[i]).LineComment? && !Next(m, b[i]).BlockComment?
    requires f != NoMarker && i <= f.pos < |b|
    requires LeavesAt(b, i + 1, Next(m, b[i]), out + [b[i]], f, out + [b[i]] + b[i + 1..f.pos + 1])
    ensures LeavesAt(b, i, m, out, f, out + b[i..f.pos + 1])
  {
    assert out + [b[i]] + b[i + 1..f.pos + 1] == out + b[i..f.pos + 1];
  }

  lemma {:induction false} LineCommentRuns(b: Text, i: nat, out: Text, current: Text)
    requires i <= |b|
    ensures EndPlace(b, i, InLine) == InLine && CodeBytes(b, i, InLine, out) == out
    ensures Comments(b, i, InLine, current) == [Comment(current + b[i..], false)]
    decreases |b| - i
  {
    if i < |b| {
      LineCommentRuns(b, i + 1, out, current + [b[i]]);
      assert current + [b[i]] + b[i + 1..] == current + b[i..];
    } else {
      assert current + b[i..] == current;
    }
  }

  /** Code already read stays in front. */
  lemma {:induction false} PrefixStays(b: Text, i: nat, p: Place, front: Text, out: Text)
    requires p.InCode? && MayOpen(p.mode) ==> out != []
    requires p.InCode? ==> !p.mode.LineComment? && !p.mode.BlockComment?
    ensures CodeBytes(b, i, p, front + out) == front + CodeBytes(b, i, p, out)
    decreases |b| - i
  {
    if i < |b| {
      var p' := NextPlace(p, b[i]);
      if p.InCode? && p'.InCode? {
        assert front + out + [b[i]] == front + (out + [b[i]]);
        PrefixStays(b, i + 1, p', front, out + [b[i]]);
      } else if p.InCode? {
        OnlyMayOpenOpens(p.mode, b[i]);
        assert (front + out)[..|front + out| - 1] == front + out[..|out| - 1];
        PrefixStays(b, i + 1, p', front, out[..|out| - 1]);
      } else {
        PrefixStays(b, i + 1, p', front, out);
      }
    }
  }

  // What one marker search decides about the rest of a line read as code.

  lemma NoMarkerStep(b: Text)
    requires FirstMarker(b, 0, Code) == NoMarker
    ensures EndPlace(b, 0, InCode(Code)).InCode?
    ensures CodeBytes(b, 0, InCode(Code), []) == b
    ensures Comments(b, 0, InCode(Code), []) == []
  {
    CodeUntil(b, 0, Code, []);
    assert [] + b[0..] == b;
  }

  lemma LineMarkerStep(b: Text, p: int)
    requires FirstMarker(b, 0, Code) == LineAt(p)
    ensures 0 <= p && p + 2 <= |b|
    ensures EndPlace(b, 0, InCode(Code)) == InLine
    ensures CodeBytes(b, 0, InCode(Code), []) == b[..p]
    ensures Comments(b, 0, InCode(Code), []) == [Comment(b[p + 2..], false)]
  {
    CodeUntil(b, 0, Code, []);
    StartsInside(b, p);
    LineCommentRuns(b, p + 2, b[..p], []);
    assert [] + b[p + 2..] == b[p + 2..];
  }

  lemma BlockMarkerStep(b: Text, p: int)
    requires FirstMarker(b, 0, Code) == BlockAt(p)
    ensures 0 <= p && p + 2 <= |b|
    ensures EndPlace(b, 0, InCode(Code)) == EndPlace(b[p + 2..], 0, InBlock)
    ensures CodeBytes(b, 0, InCode(Code), []) == b[..p] + CodeBytes(b[p + 2..], 0, InBlock, [])
    ensures Comments(b, 0, InCode(Code), []) == Comments(b[p + 2..], 0, InBlock, [])
  {
    CodeUntil(b, 0, Code, []);
    StartsInside(b, p);
    Suffix(b, p + 2, 0, InBlock, b[..p], []);
    assert b[..p] + [] == b[..p];
    PrefixStays(b[p + 2..], 0, InBlock, b[..p], []);
  }

  lemma StartsInside(b: Text, p: int)
    requires -1 <= p < |b| && [] + b[0..p + 1] != []
    ensures 0 <= p && ([] + b[0..p + 1])[..|[] + b[0..p + 1]| - 1] == b[..p]
  {
  }

  /** Whether the reader ends the line inside a block comment. */
  predicate ReaderFlag(line: Text, inBlock: bool) {
    LeftOpen(EndPlace(line, 0, StartPlace(inBlock)))
  }

  /** The code of a line, and the flag for the next one. */
  method CodePortion(line: Text, inBlock: bool) returns (code: Text, inBlock': bool)
    ensures code == CodeBytes(line, 0, StartPlace(inBlock), [])
    ensures inBlock' == ReaderFlag(line, inBlock)
    decreases |line|, 2
  {
    if inBlock {
      code, inBlock' := AfterBlock(line);
    } else {
      code, inBlock' := FromCodeOn(line);
    }
  }

  method FromCodeOn(line: Text) returns (code: Text, inBlock': bool)
    ensures code == CodeBytes(line, 0, InCode(Code), [])
    ensures inBlock' == LeftOpen(EndPlace(line, 0, InCode(Code)))
    decreases |line|, 1
  {
    var lineComment, blockComment := FindCommentMarkers(line);
    if lineComment.Some? {
      LineMarkerStep(line, lineComment.value);
      return line[..lineComment.value], false;
    }
    if blockComment.None? {
      NoMarkerStep(line);
      return line, false;
    }
    BlockMarkerStep(line, blockComment.value);
    var tail;
    tail, inBlock' := AfterBlock(line[blockComment.value + 2..]);
    code := line[..blockComment.value] + tail;
  }

  /** The code behind the end of the block comment that `line` begins in. */
  method AfterBlock(line: Text) returns (code: Text, inBlock': bool)
    ensures code == CodeBytes(line, 0, InBlock, [])
    ensures inBlock' == LeftOpen(EndPlace(line, 0, InBlock))
    decreases |line|, 0
  {
    BlockCloses(line);
    var end := FindFrom(line, CLOSE, 0);
    if end.None? {
      return [], true;
    }
    code, inBlock' := CodePortion(line[end.value + 2..], false);
  }

  /** Finds the marker text in a comment body, if it has one. */
  type MarkerIn = Text -> Option<Text>

  function FirstHit(comments: seq<Comment>, marker: MarkerIn): Option<Text> {
    if comments == [] then None
    else if marker(comments[0].text).Some? then marker(comments[0].text)
    else FirstHit(comments[1..], marker)
  }

  predicate HitInClosed(comments: seq<Comment>, marker: MarkerIn) {
    exists i :: 0 <= i < |comments| && comments[i].closed && marker(comments[i].text).Some?
  }

  lemma HitsOneByOne(c: Comment, rest: seq<Comment>, marker: MarkerIn)
    ensures FirstHit([c] + rest, marker) ==
            if marker(c.text).Some? then marker(c.text) else FirstHit(rest, marker)
    ensures HitInClosed([c] + rest, marker) <==> (c.closed && marker(c.text).Some?) || HitInClosed(rest, marker)
  {
    var all := [c] + rest;
    assert all[1..] == rest;
    if i :| 0 <= i < |rest| && rest[i].closed && marker(rest[i].text).Some? {
      assert all[i + 1] == rest[i];
    }
    if i :| 0 <= i < |all| && all[i].closed && marker(all[i].text).Some? {
      if i > 0 {
        assert rest[i - 1] == all[i];
      }
    }
    if c.closed && marker(c.text).Some? {
      assert all[0] == c;
    }
  }

  /** The flag the marker scan leaves. */
  predicate ScannerFlag(line: Text, inBlock: bool, marker: MarkerIn) {
    ReaderFlag(line, inBlock) && !HitInClosed(Comments(line, 0, StartPlace(inBlock), []), marker)
  }

  function Scan(line: Text, inBlock: bool, marker: MarkerIn): (Option<Text>, bool) {
    (FirstHit(Comments(line, 0, StartPlace(inBlock), []), marker), ScannerFlag(line, inBlock, marker))
  }

  /** What one search for the end of a block comment decides about the scan. */
  lemma BlockScan(b: Text, marker: MarkerIn)
    ensures var close := FindFrom(b, CLOSE, 0);
            if close.None? then Scan(b, true, marker) == (marker(b), true)
            else
              var body := marker(b[..close.value]);
              Scan(b, true, marker) == if body.Some? then (body, false) else Scan(b[close.value + 2..], false, marker)
  {
    BlockCloses(b);
    var close := FindFrom(b, CLOSE, 0);
    if close.None? {
      assert [Comment(b, false)] + [] == [Comment(b, false)];
      HitsOneByOne(Comment(b, false), [], marker);
    } else {
      HitsOneByOne(Comment(b[..close.value], true), Comments(b[close.value + 2..], 0, InCode(Code), []), marker);
    }
  }

  // What one marker search decides about the scan.

  lemma NoMarkerScan(b: Text, marker: MarkerIn)
    requires FirstMarker(b, 0, Code) == NoMarker
    ensures Scan(b, false, marker) == (None, false)
  {
    NoMarkerStep(b);
  }

  lemma LineMarkerScan(b: Text, p: int, marker: MarkerIn)
    requires FirstMarker(b, 0, Code) == LineAt(p)
    ensures 0 <= p && p + 2 <= |b| && Scan(b, false, marker) == (marker(b[p + 2..]), false)
  {
    LineMarkerStep(b, p);
    assert [Comment(b[p + 2..], false)] + [] == [Comment(b[p + 2..], false)];
    HitsOneByOne(Comment(b[p + 2..], false), [], marker);
  }

  lemma BlockMarkerScan(b: Text, p: int, marker: MarkerIn)
    requires FirstMarker(b, 0, Code) == BlockAt(p)
    ensures 0 <= p && p + 2 <= |b| && Scan(b, false, marker) == Scan(b[p + 2..], true, marker)
  {
    BlockMarkerStep(b, p);
  }

  /** The first marker of a line. The scan stops at a hit, so the flag it leaves is the reader's unless the
      hit was in a comment that closes on the line: then the rest of the line goes unread and the flag is
      down. */
  method ScanComments(line: Text, inBlock: bool, marker: MarkerIn) returns (found: Option<Text>, inBlock': bool)
    ensures found == FirstHit(Comments(line, 0, StartPlace(inBlock), []), marker)
    ensures inBlock' == ScannerFlag(line, inBlock, marker)
  {
    var rest := line;
    inBlock' := inBlock;
    while true
      invariant Scan(rest, inBlock', marker) == Scan(line, inBlock, marker)
      decreases |rest|
    {
      if inBlock' {
        BlockScan(rest, marker);
        var end := FindFrom(rest, CLOSE, 0);
        if end.None? {
          return marker(rest), true;
        }
        found := marker(rest[..end.value]);
        inBlock' := false;
        if found.Some? {
          return;
        }
        rest := rest[end.value + 2..];
        continue;
      }
      var lineComment, blockComment := FindCommentMarkers(rest);
      if lineComment.Some? {
        LineMarkerScan(rest, lineComment.value, marker);
        return marker(rest[lineComment.value + 2..]), false;
      }
      if blockComment.None? {
        NoMarkerScan(rest, marker);
        return None, false;
      }
      BlockMarkerScan(rest, blockComment.value, marker);
      var comment := rest[blockComment.value + 2..];
      BlockScan(comment, marker);
      var end := FindFrom(comment, CLOSE, 0);
      if end.None? {
        return marker(comment), true;
      }
      found := marker(comment[..end.value]);
      if found.Some? {
        return;
      }
      rest := comment[end.value + 2..];
    }
  }

  method ExtractTodoFixmeComment(line: Text, inBlock: bool) returns (found: Option<Text>, inBlock': bool)
    ensures found == FirstHit(Comments(line, 0, StartPlace(inBlock), []), ExtractTodoFixmeMarker)
    ensures inBlock' == (ReaderFlag(line, inBlock)
                         && !HitInClosed(Comments(line, 0, StartPlace(inBlock), []), ExtractTodoFixmeMarker))
  {
    found, inBlock' := ScanComments(line, inBlock, ExtractTodoFixmeMarker);
  }

  lemma TodoIsAMarker(text: Text)
    requires text == TODO
    ensures ExtractTodoFixmeMarker(text) == Some(TODO)
  {
    assert text == [] + [] + [] + (TODO + []);
    EndsPlainExactly(TODO);
    MarkerFound(text, TODO, [], [], [], []);
  }

  /** A comment that closes with a marker, followed by one that stays open. */
  lemma FlagIsLost(line: Text, body: Text, marker: MarkerIn)
    requires line == "/*" + body + "*/" + "/*" && !MatchesInside(body) && marker(body).Some?
    ensures ReaderFlag(line, false) && !ScannerFlag(line, false, marker)
  {
    var rest := body + CLOSE + "/*";
    assert FirstMarker(line, 0, Code) == BlockAt(0);
    assert line[2..] == rest;
    ClosesAfter(body, "/*");
    assert rest[|body| + 2..] == "/*" && rest[..|body|] == body;
    BlockMarkerStep(line, 0);
    BlockCloses(rest);
    assert EndPlace("/*", 0, InCode(Code)) == InBlock;
    BlockMarkerScan(line, 0, marker);
    BlockScan(rest, marker);
  }

  /** Some part of `body`, or its end with a slash behind it, closes a comment. */
  predicate MatchesInside(body: Text) {
    exists i :: 0 <= i < |body| && MatchesAt(body + CLOSE, CLOSE, i)
  }

  lemma ClosesAfter(body: Text, tail: Text)
    requires !MatchesInside(body)
    ensures FindFrom(body + CLOSE + tail, CLOSE, 0) == Some(|body|)
  {
    var b := body + CLOSE + tail;
    assert b[|body|..|body| + 2] == CLOSE && MatchesAt(b, CLOSE, |body|);
    forall i | 0 <= i < |body| ensures !MatchesAt(b, CLOSE, i) {
      assert !MatchesAt(body + CLOSE, CLOSE, i);
      assert b[i..i + 2] == (body + CLOSE)[i..i + 2];
    }
  }

  lemma NothingClosesInside(body: Text)
    requires '*' !in body
    ensures !MatchesInside(body)
  {
    forall i | 0 <= i < |body| ensures !MatchesAt(body + CLOSE, CLOSE, i) {
      assert body[i] in body && (body + CLOSE)[i..i + 2][0] == body[i] != CLOSE[0];
    }
  }

  /** The exception is real: after a closed comment with a marker an opened comment goes unnoticed, so the
      two scanners leave different flags. */
  lemma EarlyReturnLosesFlag(line: Text)
    requires line == "/*" + TODO + "*/" + "/*"
    ensures ReaderFlag(line, false) && !ScannerFlag(line, false, ExtractTodoFixmeMarker)
  {
    NothingClosesInside(TODO);
    TodoIsAMarker(TODO);
    FlagIsLost(line, TODO, ExtractTodoFixmeMarker);
  }

  lemma {:induction false} MarkerBytes(b: Text, i: nat, m: Mode)
    requires !m.LineComment? && !m.BlockComment? && (MayOpen(m) ==> 0 < i <= |b| && b[i - 1] == '/')
    ensures var f := FirstMarker(b, i, m);
            f != NoMarker ==> && 0 <= f.pos && f.pos + 1 < |b| && b[f.pos] == '/'
                              && b[f.pos + 1] == if f.LineAt? then '/' else '*'
    decreases |b| - i
  {
    if i < |b| {
      var m' := Next(m, b[i]);
      OnlyMayOpenOpens(m, b[i]);
      if m'.LineComment? || m'.BlockComment? {
        OpeningByte(m, b[i]);
      } else {
        OnSlash(m, b[i]);
        MarkerBytes(b, i + 1, m');
      }
    }
  }

  lemma OpeningByte(m: Mode, c: Byte)
    requires MayOpen(m)
    ensures Next(m, c).LineComment? ==> c == '/'
    ensures Next(m, c).BlockComment? ==> c == '*'
  {
    if m.QuoteThen? && c != '\'' {
      assert Next(m, c) == Next(Slash, c);
    }
  }

  lemma OnSlash(m: Mode, c: Byte)
    ensures MayOpen(Next(m, c)) ==> c == '/'
  {
    if m.QuoteThen? && c != '\'' {
      assert Next(m, c) == Next(FromCode(m.c), c);
    }
  }

  /** Every cut the scanners make in a line of valid text falls between characters: at a comment marker, at
      the end of a block comment, and after the quote that opens a raw string. */
  lemma CutsAreBetweenCharacters(b: Text, p: nat)
    requires Utf8.Valid(b) && p < |b|
    ensures FirstMarker(b, 0, Code) == LineAt(p) || FirstMarker(b, 0, Code) == BlockAt(p) || MatchesAt(b, CLOSE, p) ==>
            p + 2 <= |b| && Utf8.Valid(b[..p]) && Utf8.Valid(b[p + 2..])
    ensures b[p] == '"' ==> Utf8.Valid(b[p + 1..])
  {
    if b[p] == '"' {
      Utf8.CutAtAscii(b, p);
    }
    MarkerBytes(b, 0, Code);
    if FirstMarker(b, 0, Code) == LineAt(p) || FirstMarker(b, 0, Code) == BlockAt(p) || MatchesAt(b, CLOSE, p) {
      TwoByteCut(b, p);
    }
  }

  lemma TwoByteCut(b: Text, p: nat)
    requires Utf8.Valid(b)
    requires FirstMarker(b, 0, Code) == LineAt(p) || FirstMarker(b, 0, Code) == BlockAt(p) || MatchesAt(b, CLOSE, p)
    ensures p + 2 <= |b| && Utf8.Valid(b[..p]) && Utf8.Valid(b[p + 2..])
  {
    MarkerBytes(b, 0, Code);
    if MatchesAt(b, CLOSE, p) {
      assert b[p] == b[p..p + 2][0] && b[p + 1] == b[p..p + 2][1];
    }
    Utf8.CutAtAscii(b, p);
    Utf8.CutAtAscii(b, p + 1);
    assert b[p + 1 + 1..] == b[p + 2..];
  }
}
