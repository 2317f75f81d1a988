/** The marker at the front of a comment body: what stays once white space and comment decoration are
    trimmed away, if it starts with one of the two keywords. */
module TodoMarkers {
  import opened Bytes
  import Utf8

  /** One white-space character in UTF-8. */
  predicate IsSpaceChar(c: Text) {
    || (|c| == 1 && (9 <= c[0] as int <= 13 || c[0] == ' '))
    || (|c| == 2 && c[0] as int == 0xC2 && (c[1] as int == 0x85 || c[1] as int == 0xA0))
    || (|c| == 3 && IsWideSpace(c[0] as int, c[1] as int, c[2] as int))
  }

  predicate IsWideSpace(x: int, y: int, z: int) {
    || (x == 0xE1 && y == 0x9A && z == 0x80)
    || (x == 0xE2 && y == 0x80 && (0x80 <= z <= 0x8A || z == 0xA8 || z == 0xA9 || z == 0xAF))
    || (x == 0xE2 && y == 0x81 && z == 0x9F)
    || (x == 0xE3 && y == 0x80 && z == 0x80)
  }

  /** The code point of one well-formed character. */
  function CodePoint(c: Text): int
    requires Utf8.CharLen(c) == |c| > 0
  {
    if |c| == 1 then c[0] as int
    else if |c| == 2 then (c[0] as int - 0xC0) * 0x40 + (c[1] as int - 0x80)
    else if |c| == 3 then (c[0] as int - 0xE0) * 0x1000 + (c[1] as int - 0x80) * 0x40 + (c[2] as int - 0x80)
    else (c[0] as int - 0xF0) * 0x40000 + (c[1] as int - 0x80) * 0x1000 + (c[2] as int - 0x80) * 0x40
         + (c[3] as int - 0x80)
  }

  /** These are the well-formed characters whose code point is Unicode white space. */
  lemma SpaceCharsAreUnicode(c: Text)
    ensures IsSpaceChar(c) <==>
            && |c| > 0 && Utf8.CharLen(c) == |c|
            && CodePoint(c) in {0x9, 0xA, 0xB, 0xC, 0xD, 0x20, 0x85, 0xA0, 0x1680, 0x2000, 0x2001, 0x2002, 0x2003,
                                0x2004, 0x2005, 0x2006, 0x2007, 0x2008, 0x2009, 0x200A, 0x2028, 0x2029, 0x202F,
                                0x205F, 0x3000}
  {
  }

  /** The length of the white-space character at the front, 0 if there is none. */
  function SpaceAtFront(b: Text): (n: nat)
    ensures n <= |b| && (n > 0 ==> IsSpaceChar(b[..n]))
  {
    if |b| >= 1 && IsSpaceChar(b[..1]) then 1
    else if |b| >= 2 && IsSpaceChar(b[..2]) then 2
    else if |b| >= 3 && IsSpaceChar(b[..3]) then 3
    else 0
  }

  /** The length of the white-space character at the end, 0 if there is none. */
  function SpaceAtEnd(b: Text): (n: nat)
    ensures n <= |b| && (n > 0 ==> EndsInSpace(b, n))
  {
    if EndsInSpace(b, 1) then 1
    else if EndsInSpace(b, 2) then 2
    else if EndsInSpace(b, 3) then 3
    else 0
  }

  /** The last `n` bytes are a white-space character. */
  predicate EndsInSpace(b: Text, n: nat) {
    |b| >= n && IsSpaceChar(b[|b| - n..])
  }

  function TrimStart(b: Text): (r: Text) {
    if SpaceAtFront(b) > 0 then TrimStart(b[SpaceAtFront(b)..]) else b
  }

  function TrimEnd(b: Text): (r: Text) {
    if SpaceAtEnd(b) > 0 then TrimEnd(b[..|b| - SpaceAtEnd(b)]) else b
  }

  predicate IsDecoration(c: Byte) {
    c == '/' || c == '*' || c == '!'
  }

  function TrimDecoration(b: Text): (r: Text) {
    if b != [] && IsDecoration(b[0]) then TrimDecoration(b[1..]) else b
  }

  const TODO: Text := "TODO"
  const FIXME: Text := "FIXME"

  predicate StartsWithKeyword(b: Text) {
    TODO <= b || FIXME <= b
  }

  function ExtractTodoFixmeMarker(text: Text): Option<Text> {
    var trimmed := TrimStart(TrimDecoration(TrimStart(text)));
    if StartsWithKeyword(trimmed) then Some(TrimEnd(trimmed)) else None
  }

  // What the trimming means.

  /** A run of white-space characters. */
  predicate Spaces(b: Text) {
    b == [] || (SpaceAtFront(b) > 0 && Spaces(b[SpaceAtFront(b)..]))
  }

  predicate Decorations(b: Text) {
    forall c :: c in b ==> IsDecoration(c)
  }

  lemma Split(b: Text, n: nat)
    requires n <= |b|
    ensures b == b[..n] + b[n..]
  {
  }

  lemma FourParts(a: Text, b: Text, c: Text, d: Text)
    ensures a + b + c + d == a + (b + (c + d))
  {
  }

  lemma Assoc(a: Text, b: Text, c: Text)
    ensures a + b + c == a + (b + c)
  {
  }

  lemma SpaceCharInFront(c: Text, rest: Text)
    requires IsSpaceChar(c)
    ensures SpaceAtFront(c + rest) == |c| && (c + rest)[..|c|] == c && (c + rest)[|c|..] == rest
  {
    var b := c + rest;
    assert b[..|c|] == c;
    assert |b| >= 1 && b[..1][0] == c[0];
    assert |b| >= 2 ==> b[..2][0] == c[0];
  }

  lemma SpacesCons(c: Text, rest: Text)
    requires IsSpaceChar(c) && Spaces(rest)
    ensures Spaces(c + rest)
  {
    SpaceCharInFront(c, rest);
  }

  lemma SpacesUncons(b: Text) returns (c: Text, rest: Text)
    requires Spaces(b) && b != []
    ensures b == c + rest && IsSpaceChar(c) && Spaces(rest) && |rest| < |b|
  {
    var n := SpaceAtFront(b);
    c, rest := b[..n], b[n..];
  }

  lemma {:induction false} TrimStartDrops(lead: Text, rest: Text)
    requires Spaces(lead) && SpaceAtFront(rest) == 0
    ensures TrimStart(lead + rest) == rest
    decreases |lead|
  {
    if lead == [] {
      assert lead + rest == rest;
    } else {
      var c, more := SpacesUncons(lead);
      SpaceCharInFront(c, more + rest);
      Assoc(c, more, rest);
      TrimStartDrops(more, rest);
    }
  }

  lemma {:induction false} TrimStartSplits(b: Text) returns (lead: Text)
    ensures b == lead + TrimStart(b) && Spaces(lead) && SpaceAtFront(TrimStart(b)) == 0
    decreases |b|
  {
    var n := SpaceAtFront(b);
    if n == 0 {
      lead := [];
    } else {
      var more := TrimStartSplits(b[n..]);
      lead := b[..n] + more;
      SpacesCons(b[..n], more);
      Assoc(b[..n], more, TrimStart(b[n..]));
      Split(b, n);
    }
  }

  lemma {:induction false} TrimDecorationDrops(marks: Text, rest: Text)
    requires Decorations(marks) && (rest != [] ==> !IsDecoration(rest[0]))
    ensures TrimDecoration(marks + rest) == rest
    decreases |marks|
  {
    if marks == [] {
      assert marks + rest == rest;
    } else {
      assert marks[0] in marks && (marks + rest)[1..] == marks[1..] + rest;
      TrimDecorationDrops(marks[1..], rest);
    }
  }

  lemma {:induction false} TrimDecorationSplits(b: Text) returns (marks: Text)
    ensures b == marks + TrimDecoration(b) && Decorations(marks)
    ensures TrimDecoration(b) != [] ==> !IsDecoration(TrimDecoration(b)[0])
    decreases |b|
  {
    if b != [] && IsDecoration(b[0]) {
      var more := TrimDecorationSplits(b[1..]);
      marks := [b[0]] + more;
    } else {
      marks := [];
    }
  }

  lemma SpaceCharAtEnd(b: Text, c: Text)
    requires IsSpaceChar(c)
    ensures SpaceAtEnd(b + c) == |c| && (b + c)[..|b + c| - |c|] == b
  {
    var all := b + c;
    assert all[|all| - |c|..] == c;
    assert all[|all| - 1..] == [c[|c| - 1]];
    assert |c| >= 2 ==> all[|all| - 2..] == [c[|c| - 2], c[|c| - 1]];
  }

  lemma {:induction false} LastSpace(b: Text) returns (front: Text, c: Text)
    requires Spaces(b) && b != []
    ensures b == front + c && Spaces(front) && IsSpaceChar(c) && |front| < |b|
    decreases |b|
  {
    var first, rest := SpacesUncons(b);
    if rest == [] {
      front, c := [], first;
    } else {
      var more;
      more, c := LastSpace(rest);
      front := first + more;
      SpacesCons(first, more);
      Assoc(first, more, c);
    }
  }

  lemma {:induction false} SpacesThenSpace(b: Text, c: Text)
    requires Spaces(b) && IsSpaceChar(c)
    ensures Spaces(b + c)
    decreases |b|
  {
    if b == [] {
      assert b + c == c + [];
      SpacesCons(c, []);
    } else {
      var first, rest := SpacesUncons(b);
      SpacesThenSpace(rest, c);
      SpacesCons(first, rest + c);
      Assoc(first, rest, c);
    }
  }

  lemma {:induction false} SpacesJoin(a: Text, b: Text)
    requires Spaces(a) && Spaces(b)
    ensures Spaces(a + b)
    decreases |a|
  {
    if a == [] {
      assert a + b == b;
    } else {
      var first, rest := SpacesUncons(a);
      SpacesJoin(rest, b);
      SpacesCons(first, rest + b);
      Assoc(first, rest, b);
    }
  }

  lemma {:induction false} TrimEndDrops(b: Text, tail: Text)
    requires Spaces(tail) && SpaceAtEnd(b) == 0
    ensures TrimEnd(b + tail) == b
    decreases |tail|
  {
    if tail == [] {
      assert b + tail == b;
    } else {
      var front, c := LastSpace(tail);
      Assoc(b, front, c);
      SpaceCharAtEnd(b + front, c);
      TrimEndDrops(b, front);
    }
  }

  lemma {:induction false} TrimEndSplits(b: Text) returns (tail: Text)
    ensures b == TrimEnd(b) + tail && Spaces(tail) && SpaceAtEnd(TrimEnd(b)) == 0
    decreases |b|
  {
    var n := SpaceAtEnd(b);
    if n == 0 {
      tail := [];
    } else {
      var more := TrimEndSplits(b[..|b| - n]);
      tail := more + b[|b| - n..];
      SpacesThenSpace(more, b[|b| - n..]);
      Split(b, |b| - n);
      Assoc(TrimEnd(b), more, b[|b| - n..]);
    }
  }

  ghost predicate EndsPlain(m: Text) {
    forall front, c :: m == front + c ==> !IsSpaceChar(c)
  }

  lemma EndsPlainExactly(m: Text)
    ensures EndsPlain(m) <==> SpaceAtEnd(m) == 0
  {
    var n := SpaceAtEnd(m);
    if n > 0 {
      assert m == m[..|m| - n] + m[|m| - n..];
    } else {
      forall front, c | m == front + c ensures !IsSpaceChar(c) {
        if IsSpaceChar(c) {
          SpaceCharAtEnd(front, c);
        }
      }
    }
  }

  /** A comment body taken apart: white space, decoration, white space, the marker, white space. */
  ghost predicate MarkerIs(text: Text, m: Text, lead: Text, marks: Text, gap: Text, tail: Text) {
    && text == lead + marks + gap + (m + tail)
    && Spaces(lead) && Spaces(gap) && Spaces(tail)
    && (forall c :: c in marks ==> c == '/' || c == '*' || c == '!')
    && ("TODO" <= m || "FIXME" <= m)
    && EndsPlain(m)
  }

  lemma KeywordIsPlain(b: Text)
    requires StartsWithKeyword(b)
    ensures b != [] && !IsDecoration(b[0]) && SpaceAtFront(b) == 0
  {
    assert b[0] == 'T' || b[0] == 'F';
  }

  lemma DecorationIsNoSpace(b: Text)
    requires b != [] && IsDecoration(b[0])
    ensures SpaceAtFront(b) == 0
  {
  }

  lemma SpacesStartPlain(gap: Text, rest: Text)
    requires Spaces(gap) && (rest != [] ==> !IsDecoration(rest[0]))
    ensures gap + rest != [] ==> !IsDecoration((gap + rest)[0])
  {
    if gap != [] && IsDecoration(gap[0]) {
      DecorationIsNoSpace(gap);
    }
  }

  lemma TrimmedBare(lead: Text, gap: Text, body: Text)
    requires Spaces(lead) && Spaces(gap) && StartsWithKeyword(body)
    ensures TrimStart(TrimDecoration(TrimStart(lead + gap + body))) == body
  {
    KeywordIsPlain(body);
    SpacesJoin(lead, gap);
    TrimStartDrops(lead + gap, body);
  }

  lemma TrimmedDecorated(lead: Text, marks: Text, gap: Text, body: Text)
    requires Spaces(lead) && Decorations(marks) && marks != [] && Spaces(gap) && StartsWithKeyword(body)
    ensures TrimStart(TrimDecoration(TrimStart(lead + (marks + (gap + body))))) == body
  {
    KeywordIsPlain(body);
    SpacesStartPlain(gap, body);
    var inner := marks + (gap + body);
    assert marks[0] in marks && inner[0] == marks[0];
    DecorationIsNoSpace(inner);
    TrimStartDrops(lead, inner);
    TrimDecorationDrops(marks, gap + body);
    TrimStartDrops(gap, body);
  }

  lemma MarkerFound(text: Text, m: Text, lead: Text, marks: Text, gap: Text, tail: Text)
    requires MarkerIs(text, m, lead, marks, gap, tail)
    ensures ExtractTodoFixmeMarker(text) == Some(m)
  {
    EndsPlainExactly(m);
    assert Decorations(marks) && StartsWithKeyword(m);
    FourParts(lead, marks, gap, m + tail);
    if marks == [] {
      assert lead + marks == lead;
      TrimmedBare(lead, gap, m + tail);
    } else {
      TrimmedDecorated(lead, marks, gap, m + tail);
    }
    TrimEndDrops(m, tail);
  }

  /** Cutting white space off the end does not reach into a keyword. */
  lemma KeywordSurvives(m: Text, tail: Text)
    requires StartsWithKeyword(m + tail) && Spaces(tail)
    ensures StartsWithKeyword(m)
  {
    if tail != [] {
      assert (m + tail)[|m|] == tail[0];
      assert SpaceAtFront(tail) > 0 && tail[0] == tail[..SpaceAtFront(tail)][0];
    }
  }

  lemma TakenApart(text: Text, m: Text) returns (lead: Text, marks: Text, gap: Text, tail: Text)
    requires ExtractTodoFixmeMarker(text) == Some(m)
    ensures MarkerIs(text, m, lead, marks, gap, tail)
  {
    lead := TrimStartSplits(text);
    marks := TrimDecorationSplits(TrimStart(text));
    gap := TrimStartSplits(TrimDecoration(TrimStart(text)));
    var trimmed := TrimStart(TrimDecoration(TrimStart(text)));
    tail := TrimEndSplits(trimmed);
    KeywordSurvives(m, tail);
    EndsPlainExactly(m);
    assert forall c :: c in marks ==> IsDecoration(c);
    FourParts(lead, marks, gap, trimmed);
  }

  /** The marker of a body is `m` exactly when the body is `m` between white space and decoration. */
  lemma MarkerExactly(text: Text, m: Text)
    ensures ExtractTodoFixmeMarker(text) == Some(m) <==>
            exists lead, marks, gap, tail :: MarkerIs(text, m, lead, marks, gap, tail)
  {
    if lead, marks, gap, tail :| MarkerIs(text, m, lead, marks, gap, tail) {
      MarkerFound(text, m, lead, marks, gap, tail);
    }
    if ExtractTodoFixmeMarker(text) == Some(m) {
      var lead, marks, gap, tail := TakenApart(text, m);
    }
  }
}
