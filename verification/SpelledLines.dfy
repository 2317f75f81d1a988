/** Lines spelled as code and comments in turn, and what the two line scanners make of them. */
module SpelledLines {
  import opened Bytes
  import opened SpelledCode
  import CommentScanner
  import opened LineScanner

  /** Code, and a block comment that ends on the line. */
  datatype Part = Part(code: seq<Token>, body: Text)

  /** How the line ends: in code, in a line comment, or in a block comment that stays open. */
  datatype LineEnd =
    | InPlainCode(code: seq<Token>)
    | InLineComment(code: seq<Token>, comment: Text)
    | InOpenComment(code: seq<Token>, comment: Text)

  function SpelledEnd(end: LineEnd): Text {
    match end
    case InPlainCode(code) => Spelled(code)
    case InLineComment(code, comment) => Spelled(code) + ("//" + comment)
    case InOpenComment(code, comment) => Spelled(code) + ("/*" + comment)
  }

  function SpelledLine(parts: seq<Part>, end: LineEnd): Text {
    if parts == [] then SpelledEnd(end)
    else Spelled(parts[0].code) + ("/*" + (parts[0].body + "*/" + SpelledLine(parts[1..], end)))
  }

  /** The body holds no end of a comment, not even with its last byte. */
  ghost predicate IsBody(body: Text) {
    forall i: nat :: i < |body| ==> !MatchesAt(body + "*/", "*/", i)
  }

  ghost predicate ProperEnd(end: LineEnd) {
    match end
    case InPlainCode(code) => WellSeparated(code, [])
    case InLineComment(code, comment) => WellSeparated(code, "//" + comment)
    case InOpenComment(code, comment) =>
      WellSeparated(code, "/*" + comment) && forall i: nat :: !MatchesAt(comment, "*/", i)
  }

  ghost predicate ProperLine(parts: seq<Part>, end: LineEnd) {
    if parts == [] then ProperEnd(end)
    else
      && WellSeparated(parts[0].code, "/*" + (parts[0].body + "*/" + SpelledLine(parts[1..], end)))
      && IsBody(parts[0].body)
      && ProperLine(parts[1..], end)
  }

  /** The code alone. */
  function CodeOf(parts: seq<Part>, end: LineEnd): Text {
    if parts == [] then Spelled(end.code) else Spelled(parts[0].code) + CodeOf(parts[1..], end)
  }

  /** The comments in turn. */
  function CommentsIn(parts: seq<Part>, end: LineEnd): seq<Comment> {
    if parts == [] then (if end.InPlainCode? then [] else [Comment(end.comment, false)])
    else [Comment(parts[0].body, true)] + CommentsIn(parts[1..], end)
  }

  /** What a reader that starts in code makes of a line. */
  ghost predicate ReadAs(line: Text, start: Place, code: Text, comments: seq<Comment>, open: bool) {
    && CodeBytes(line, 0, start, []) == code
    && Comments(line, 0, start, []) == comments
    && LeftOpen(EndPlace(line, 0, start)) == open
  }

  lemma CutBehind(a: Text, mark: Text, rest: Text)
    requires |mark| == 2
    ensures (a + (mark + rest))[..|a|] == a && (a + (mark + rest))[|a| + 2..] == rest
  {
  }

  lemma ClosedBody(body: Text, rest: Text, code: Text, comments: seq<Comment>, open: bool)
    requires IsBody(body) && ReadAs(rest, InCode(CommentScanner.Code), code, comments, open)
    ensures ReadAs(body + "*/" + rest, InBlock, code, [Comment(body, true)] + comments, open)
  {
    var line := body + "*/" + rest;
    forall i | 0 <= i < |body| ensures !MatchesAt(body + CLOSE, CLOSE, i) {
      assert !MatchesAt(body + "*/", "*/", i);
    }
    ClosesAfter(body, rest);
    BlockCloses(line);
    assert line[..|body|] == body && line[|body| + 2..] == rest;
  }

  lemma OpenBody(comment: Text)
    requires forall i: nat :: !MatchesAt(comment, "*/", i)
    ensures ReadAs(comment, InBlock, [], [Comment(comment, false)], true)
  {
    forall i: nat ensures !MatchesAt(comment, CLOSE, i) {
      assert !MatchesAt(comment, "*/", i);
    }
    BlockCloses(comment);
  }

  lemma BlockReadAs(line: Text, p: nat, front: Text, rest: Text, code: Text, comments: seq<Comment>, open: bool)
    requires CommentScanner.FirstMarker(line, 0, CommentScanner.Code) == CommentScanner.BlockAt(p)
    requires p + 2 <= |line| && line[..p] == front && line[p + 2..] == rest
    requires ReadAs(rest, InBlock, code, comments, open)
    ensures ReadAs(line, InCode(CommentScanner.Code), front + code, comments, open)
  {
    BlockMarkerStep(line, p);
  }

  lemma CodeThenBlock(tokens: seq<Token>, rest: Text, code: Text, comments: seq<Comment>, open: bool)
    requires WellSeparated(tokens, "/*" + rest) && ReadAs(rest, InBlock, code, comments, open)
    ensures ReadAs(Spelled(tokens) + ("/*" + rest), InCode(CommentScanner.Code), Spelled(tokens) + code, comments, open)
  {
    BlockCommentIsFound(tokens, rest);
    CutBehind(Spelled(tokens), "/*", rest);
    BlockReadAs(Spelled(tokens) + ("/*" + rest), |Spelled(tokens)|, Spelled(tokens), rest, code, comments, open);
  }

  lemma LineReadAs(line: Text, p: nat, front: Text, comment: Text)
    requires CommentScanner.FirstMarker(line, 0, CommentScanner.Code) == CommentScanner.LineAt(p)
    requires p + 2 <= |line| && line[..p] == front && line[p + 2..] == comment
    ensures ReadAs(line, InCode(CommentScanner.Code), front, [Comment(comment, false)], false)
  {
    LineMarkerStep(line, p);
  }

  lemma CodeThenLine(tokens: seq<Token>, comment: Text)
    requires WellSeparated(tokens, "//" + comment)
    ensures ReadAs(Spelled(tokens) + ("//" + comment), InCode(CommentScanner.Code), Spelled(tokens),
                   [Comment(comment, false)], false)
  {
    LineCommentIsFound(tokens, comment);
    CutBehind(Spelled(tokens), "//", comment);
    LineReadAs(Spelled(tokens) + ("//" + comment), |Spelled(tokens)|, Spelled(tokens), comment);
  }

  lemma EndIsRead(end: LineEnd)
    requires ProperEnd(end)
    ensures ReadAs(SpelledEnd(end), InCode(CommentScanner.Code), Spelled(end.code), CommentsIn([], end),
                   end.InOpenComment?)
  {
    match end
    case InPlainCode(code) =>
      NoCommentIsFound(code);
      NoMarkerStep(Spelled(code));
    case InLineComment(code, comment) => CodeThenLine(code, comment);
    case InOpenComment(code, comment) =>
      OpenBody(comment);
      CodeThenBlock(code, comment, [], [Comment(comment, false)], true);
      assert Spelled(code) + [] == Spelled(code);
  }

  /** A spelled line gives its code, its comments, and the flag of its end. */
  lemma {:induction false} LineIsRead(parts: seq<Part>, end: LineEnd)
    requires ProperLine(parts, end)
    ensures ReadAs(SpelledLine(parts, end), InCode(CommentScanner.Code), CodeOf(parts, end), CommentsIn(parts, end),
                   end.InOpenComment?)
    decreases |parts|
  {
    if parts == [] {
      EndIsRead(end);
    } else {
      var p, rest := parts[0], SpelledLine(parts[1..], end);
      LineIsRead(parts[1..], end);
      ClosedBody(p.body, rest, CodeOf(parts[1..], end), CommentsIn(parts[1..], end), end.InOpenComment?);
      CodeThenBlock(p.code, p.body + "*/" + rest, CodeOf(parts[1..], end),
                    [Comment(p.body, true)] + CommentsIn(parts[1..], end), end.InOpenComment?);
    }
  }

  /** A line that begins in a comment: the comment closes and a spelled line follows, or it stays open. */
  lemma ContinuedLineIsRead(body: Text, parts: seq<Part>, end: LineEnd)
    requires IsBody(body) && ProperLine(parts, end)
    ensures ReadAs(body + "*/" + SpelledLine(parts, end), InBlock, CodeOf(parts, end),
                   [Comment(body, true)] + CommentsIn(parts, end), end.InOpenComment?)
  {
    LineIsRead(parts, end);
    ClosedBody(body, SpelledLine(parts, end), CodeOf(parts, end), CommentsIn(parts, end), end.InOpenComment?);
  }

  // The marker found is that of the first comment that has one.

  lemma {:induction false} FirstHitExactly(comments: seq<Comment>, marker: MarkerIn, m: Text)
    ensures FirstHit(comments, marker) == Some(m) <==>
            exists i :: 0 <= i < |comments| && marker(comments[i].text) == Some(m)
                        && forall j :: 0 <= j < i ==> marker(comments[j].text) == None
  {
    if comments != [] {
      var rest := comments[1..];
      FirstHitExactly(rest, marker, m);
      if marker(comments[0].text).None? {
        if i :| 0 <= i < |rest| && marker(rest[i].text) == Some(m)
                && forall j :: 0 <= j < i ==> marker(rest[j].text) == None {
          assert comments[i + 1] == rest[i];
          assert forall j :: 0 <= j < i + 1 ==> marker(comments[j].text) == None by {
            assert forall j :: 0 < j < i + 1 ==> comments[j] == rest[j - 1];
          }
        }
        if i :| 0 <= i < |comments| && marker(comments[i].text) == Some(m)
                && forall j :: 0 <= j < i ==> marker(comments[j].text) == None {
          assert i > 0 && rest[i - 1] == comments[i];
          assert forall j :: 0 <= j < i - 1 ==> rest[j] == comments[j + 1];
        }
      }
    }
  }

  /** The marker of the first comment that has one. */
  function FirstMarked(parts: seq<Part>, end: LineEnd, marker: MarkerIn): Option<Text> {
    if parts == [] then (if end.InPlainCode? then None else marker(end.comment))
    else if marker(parts[0].body).Some? then marker(parts[0].body)
    else FirstMarked(parts[1..], end, marker)
  }

  lemma {:induction false} HitsAreMarks(parts: seq<Part>, end: LineEnd, marker: MarkerIn)
    ensures FirstHit(CommentsIn(parts, end), marker) == FirstMarked(parts, end, marker)
    ensures HitInClosed(CommentsIn(parts, end), marker) <==> exists p :: p in parts && marker(p.body).Some?
  {
    if parts == [] {
      if !end.InPlainCode? {
        assert [Comment(end.comment, false)] + [] == [Comment(end.comment, false)];
        HitsOneByOne(Comment(end.comment, false), [], marker);
      }
    } else {
      HitsAreMarks(parts[1..], end, marker);
      HitsOneByOne(Comment(parts[0].body, true), CommentsIn(parts[1..], end), marker);
      assert parts == [parts[0]] + parts[1..];
      assert forall p :: p in parts <==> p == parts[0] || p in parts[1..];
    }
  }

  /** What the marker scan finds on a spelled line, and the flag it leaves: up exactly if the line ends in an
      open comment and no closed comment had a marker. */
  lemma SpelledLineIsScanned(parts: seq<Part>, end: LineEnd, marker: MarkerIn)
    requires ProperLine(parts, end)
    ensures Scan(SpelledLine(parts, end), false, marker) ==
            (FirstMarked(parts, end, marker), end.InOpenComment? && forall p :: p in parts ==> marker(p.body).None?)
  {
    LineIsRead(parts, end);
    HitsAreMarks(parts, end, marker);
  }
}
