/** Rust code spelled token by token, and what the comment scanner makes of it. The spelling knows nothing of
    how the scanner reads. */
module SpelledCode {
  import opened Bytes
  import opened CommentScanner

  /** What stands in a string: a byte as it is, or an escape. */
  datatype StringPart = Char(c: Byte) | Escape(c: Byte)

  datatype Token =
    | CodeByte(c: Byte)                         // any other byte of code
    | StringLiteral(parts: seq<StringPart>)  // "..." with escapes
    | RawString(hashes: nat, body: Text)     // r##"..."##
    | CharLiteral(c: Byte)                   // 'c', for every c but a backslash
    | EscapedChar(c: Byte)                   // '\n'
    | UnicodeChar(digits: Text)              // '\u{..}'
    | LifetimeQuote                          // the quote of 'a

  function SpelledParts(parts: seq<StringPart>): Text {
    if parts == [] then []
    else (match parts[0]
          case Char(c) => [c]
          case Escape(c) => ['\\', c]) + SpelledParts(parts[1..])
  }

  function Hashes(n: nat): Text {
    seq(n, _ => '#')
  }

  function SpelledToken(t: Token): Text {
    match t
    case CodeByte(c) => [c]
    case StringLiteral(parts) => ['"'] + SpelledParts(parts) + ['"']
    case RawString(n, body) => ['r'] + Hashes(n) + ['"'] + body + ['"'] + Hashes(n)
    case CharLiteral(c) => ['\'', c, '\'']
    case EscapedChar(c) => ['\'', '\\', c, '\'']
    case UnicodeChar(digits) => ['\'', '\\', 'u', '{'] + digits + ['}', '\'']
    case LifetimeQuote => ['\'']
  }

  function Spelled(tokens: seq<Token>): Text {
    if tokens == [] then [] else SpelledToken(tokens[0]) + Spelled(tokens[1..])
  }

  /** The text goes on with hashes and a quote, as behind the r of a raw string. */
  ghost predicate GoesOnRaw(rest: Text) {
    exists n: nat, more: Text :: rest == Hashes(n) + ['"'] + more
  }

  /** The token can stand in front of `rest` and be told apart from it. */
  ghost predicate Fits(t: Token, rest: Text) {
    match t
    case CodeByte(c) =>
      && c != '"' && c != '\''
      && (c == '/' ==> rest == [] || (rest[0] != '/' && rest[0] != '*'))
      && (c == 'r' ==> !GoesOnRaw(rest))
    case StringLiteral(parts) => forall p :: p in parts && p.Char? ==> p.c != '"' && p.c != '\\'
    case RawString(n, body) =>
      forall i: nat :: i < |body| ==> !MatchesAt(body + ['"'] + Hashes(n), ['"'] + Hashes(n), i)
    case CharLiteral(c) => c != '\\'
    case EscapedChar(_) => true
    case UnicodeChar(digits) => '}' !in digits
    case LifetimeQuote => rest == [] || (rest[0] != '\\' && (|rest| == 1 || rest[1] != '\''))
  }

  /** Every token fits what follows it, `tail` being behind the last. */
  ghost predicate WellSeparated(tokens: seq<Token>, tail: Text) {
    tokens == [] || (Fits(tokens[0], Spelled(tokens[1..]) + tail) && WellSeparated(tokens[1..], tail))
  }

  // One token after the other is read as code.

  /** Reading `b` from place `i` in code goes on in code at place `j`. */
  ghost predicate ReadsTo(b: Text, i: nat, j: nat) {
    FirstMarker(b, i, Code) == FirstMarker(b, j, Code)
  }

  /** `part` stands in `b` at place `i`. */
  predicate StandsAt(b: Text, i: nat, part: Text) {
    i + |part| <= |b| && b[i..i + |part|] == part
  }

  lemma ByteAt(b: Text, i: nat, part: Text, k: nat)
    requires StandsAt(b, i, part) && k < |part|
    ensures b[i + k] == part[k]
  {
    assert b[i..i + |part|][k] == b[i + k];
  }

  lemma PartAt(b: Text, i: nat, front: Text, part: Text, back: Text)
    requires StandsAt(b, i, front + part + back)
    ensures StandsAt(b, i, front) && StandsAt(b, i + |front|, part) && StandsAt(b, i + |front| + |part|, back)
  {
    var all := front + part + back;
    var n := |front| + |part|;
    Inner(b, i, |all|, 0, |front|);
    Inner(b, i, |all|, |front|, |part|);
    Inner(b, i, |all|, n, |back|);
    assert all[0..|front|] == front && all[|front|..n] == part && all[n..n + |back|] == back;
  }

  lemma {:induction false} PartsRead(b: Text, i: nat, parts: seq<StringPart>)
    requires StandsAt(b, i, SpelledParts(parts)) && i + |SpelledParts(parts)| < |b|
    requires forall p :: p in parts && p.Char? ==> p.c != '"' && p.c != '\\'
    ensures FirstMarker(b, i, Str) == FirstMarker(b, i + |SpelledParts(parts)|, Str)
    decreases |parts|
  {
    if parts != [] {
      var all := SpelledParts(parts);
      var n := if parts[0].Char? then 1 else 2;
      assert parts[0] in parts && forall p :: p in parts[1..] ==> p in parts;
      ByteAt(b, i, all, 0);
      if parts[0].Escape? {
        ByteAt(b, i, all, 1);
        assert Next(Str, b[i]) == StrEscape;
      }
      assert b[i + n..i + |all|] == b[i..i + |all|][n..] == SpelledParts(parts[1..]);
      PartsRead(b, i + n, parts[1..]);
    }
  }

  lemma StringReads(b: Text, i: nat, parts: seq<StringPart>)
    requires StandsAt(b, i, SpelledToken(StringLiteral(parts))) && Fits(StringLiteral(parts), [])
    ensures ReadsTo(b, i, i + |SpelledToken(StringLiteral(parts))|)
  {
    PartAt(b, i, ['"'], SpelledParts(parts), ['"']);
    ByteAt(b, i, ['"'], 0);
    ByteAt(b, i + 1 + |SpelledParts(parts)|, ['"'], 0);
    PartsRead(b, i + 1, parts);
  }

  lemma CloserIsSpelled(n: nat)
    ensures CommentScanner.Closer(n) == ['"'] + Hashes(n)
  {
  }

  lemma HashesRun(b: Text, i: nat, n: nat)
    requires StandsAt(b, i, Hashes(n))
    ensures forall j :: i <= j < i + n ==> b[j] == '#'
  {
    forall j | i <= j < i + n ensures b[j] == '#' {
      ByteAt(b, i, Hashes(n), j - i);
    }
  }

  lemma ClosesAt(b: Text, start: nat, body: Text, closer: Text)
    requires StandsAt(b, start, body + closer)
    requires forall j: nat :: j < |body| ==> !MatchesAt(body + closer, closer, j)
    ensures FindFrom(b, closer, start) == Some(start + |body|)
  {
    var all := body + closer;
    assert all[|body|..] == closer;
    forall j: nat | j <= |body| ensures MatchesAt(b, closer, start + j) <==> MatchesAt(all, closer, j) {
      Inner(b, start, |all|, j, |closer|);
    }
    assert MatchesAt(b, closer, start + |body|);
    forall k: nat | start <= k < start + |body| ensures !MatchesAt(b, closer, k) {
      assert !MatchesAt(all, closer, k - start);
    }
  }

  lemma RawOpensHere(b: Text, i: nat, n: nat)
    requires StandsAt(b, i, ['r']) && StandsAt(b, i + 1, Hashes(n)) && StandsAt(b, i + 1 + n, ['"'])
    ensures FirstMarker(b, i, Code) == FirstMarker(b, i + 2 + n, Raw(n))
  {
    ByteAt(b, i, ['r'], 0);
    HashesRun(b, i + 1, n);
    ByteAt(b, i + 1 + n, ['"'], 0);
    CommentScanner.RawOpens(b, i, n);
  }

  lemma RawClosesHere(b: Text, start: nat, n: nat, body: Text)
    requires StandsAt(b, start, body + Closer(n))
    requires forall j: nat :: j < |body| ==> !MatchesAt(body + Closer(n), Closer(n), j)
    ensures FirstMarker(b, start, Raw(n)) == FirstMarker(b, start + |body| + n + 1, Code)
  {
    ClosesAt(b, start, body, Closer(n));
    CommentScanner.RawCloses(b, start, n);
    var p := FindFrom(b, Closer(n), start);
    assert p.value == start + |body|;
  }

  lemma RawInParts(n: nat, body: Text)
    ensures SpelledToken(RawString(n, body)) == ['r'] + Hashes(n) + (['"'] + (body + (['"'] + Hashes(n))))
  {
  }

  lemma PairAt(b: Text, i: nat, front: Text, back: Text)
    requires StandsAt(b, i, front + back)
    ensures StandsAt(b, i, front) && StandsAt(b, i + |front|, back)
  {
    assert front + back == front + back + [];
    PartAt(b, i, front, back, []);
  }

  lemma RawReads(b: Text, i: nat, n: nat, body: Text)
    requires StandsAt(b, i, SpelledToken(RawString(n, body))) && Fits(RawString(n, body), [])
    ensures ReadsTo(b, i, i + |SpelledToken(RawString(n, body))|)
  {
    RawStandsAt(b, i, n, body);
    RawOpensHere(b, i, n);
    NoCloserInside(n, body, Closer(n));
    RawClosesHere(b, i + 2 + n, n, body);
  }

  lemma RawStandsAt(b: Text, i: nat, n: nat, body: Text)
    requires StandsAt(b, i, SpelledToken(RawString(n, body)))
    ensures StandsAt(b, i, ['r']) && StandsAt(b, i + 1, Hashes(n)) && StandsAt(b, i + 1 + n, ['"'])
    ensures StandsAt(b, i + 2 + n, body + Closer(n))
    ensures |SpelledToken(RawString(n, body))| == 3 + 2 * n + |body|
  {
    CloserIsSpelled(n);
    RawInParts(n, body);
    PartAt(b, i, ['r'], Hashes(n), ['"'] + (body + Closer(n)));
    PairAt(b, i + 1 + n, ['"'], body + Closer(n));
  }

  lemma NoCloserInside(n: nat, body: Text, closer: Text)
    requires closer == Closer(n) && Fits(RawString(n, body), [])
    ensures forall j: nat :: j < |body| ==> !MatchesAt(body + closer, closer, j)
  {
    CloserIsSpelled(n);
    assert body + ['"'] + Hashes(n) == body + closer;
    forall j: nat | j < |body| ensures !MatchesAt(body + closer, closer, j) {
      assert !MatchesAt(body + ['"'] + Hashes(n), ['"'] + Hashes(n), j);
    }
  }

  lemma CharReads(b: Text, i: nat, c: Byte)
    requires StandsAt(b, i, ['\'', c, '\'']) && c != '\\'
    ensures ReadsTo(b, i, i + 3)
  {
    var t: Text := ['\'', c, '\''];
    ByteAt(b, i, t, 0);
    ByteAt(b, i, t, 1);
    ByteAt(b, i, t, 2);
    assert FirstMarker(b, i, Code) == FirstMarker(b, i + 1, Quote) == FirstMarker(b, i + 2, QuoteThen(c));
  }

  lemma EscapedReads(b: Text, i: nat, c: Byte)
    requires StandsAt(b, i, ['\'', '\\', c, '\''])
    ensures ReadsTo(b, i, i + 4)
  {
    var t: Text := ['\'', '\\', c, '\''];
    ByteAt(b, i, t, 0);
    ByteAt(b, i, t, 1);
    ByteAt(b, i, t, 2);
    ByteAt(b, i, t, 3);
    assert FirstMarker(b, i, Code) == FirstMarker(b, i + 1, Quote) == FirstMarker(b, i + 2, CommentScanner.Escape);
    assert FirstMarker(b, i + 2, CommentScanner.Escape) == FirstMarker(b, i + 3, Next(CommentScanner.Escape, c));
  }

  lemma {:induction false} DigitsRead(b: Text, i: nat, n: nat)
    requires i + n < |b| && forall j :: i <= j < i + n ==> b[j] != '}'
    ensures FirstMarker(b, i, EscapeBraces) == FirstMarker(b, i + n, EscapeBraces)
    decreases n
  {
    if n > 0 {
      DigitsRead(b, i + 1, n - 1);
    }
  }

  lemma UnicodeOpens(b: Text, i: nat)
    requires StandsAt(b, i, ['\'', '\\', 'u', '{'])
    ensures FirstMarker(b, i, Code) == FirstMarker(b, i + 4, EscapeBraces)
  {
    var front: Text := ['\'', '\\', 'u', '{'];
    ByteAt(b, i, front, 0);
    ByteAt(b, i, front, 1);
    ByteAt(b, i, front, 2);
    ByteAt(b, i, front, 3);
    assert FirstMarker(b, i, Code) == FirstMarker(b, i + 1, Quote) == FirstMarker(b, i + 2, CommentScanner.Escape);
    assert FirstMarker(b, i + 2, CommentScanner.Escape) == FirstMarker(b, i + 3, EscapeU);
  }

  lemma UnicodeCloses(b: Text, i: nat)
    requires StandsAt(b, i, ['}', '\''])
    ensures FirstMarker(b, i, EscapeBraces) == FirstMarker(b, i + 2, Code)
  {
    ByteAt(b, i, ['}', '\''], 0);
    ByteAt(b, i, ['}', '\''], 1);
    assert FirstMarker(b, i, EscapeBraces) == FirstMarker(b, i + 1, EscapeDone);
  }

  lemma UnicodePartsRead(b: Text, i: nat, digits: Text)
    requires StandsAt(b, i, ['\'', '\\', 'u', '{']) && StandsAt(b, i + 4, digits)
    requires StandsAt(b, i + 4 + |digits|, ['}', '\'']) && '}' !in digits
    ensures ReadsTo(b, i, i + 6 + |digits|)
  {
    var n := |digits|;
    UnicodeOpens(b, i);
    forall j | i + 4 <= j < i + 4 + n ensures b[j] != '}' {
      ByteAt(b, i + 4, digits, j - i - 4);
      assert digits[j - i - 4] in digits;
    }
    DigitsRead(b, i + 4, n);
    UnicodeCloses(b, i + 4 + n);
  }

  lemma UnicodeReads(b: Text, i: nat, digits: Text)
    requires StandsAt(b, i, SpelledToken(UnicodeChar(digits))) && '}' !in digits
    ensures ReadsTo(b, i, i + |SpelledToken(UnicodeChar(digits))|)
  {
    PartAt(b, i, ['\'', '\\', 'u', '{'], digits, ['}', '\'']);
    UnicodePartsRead(b, i, digits);
  }

  lemma HashesAhead(b: Text, i: nat) returns (n: nat)
    requires i <= |b|
    ensures i + n <= |b| && (forall j :: i <= j < i + n ==> b[j] == '#') && (i + n < |b| ==> b[i + n] != '#')
    decreases |b| - i
  {
    if i < |b| && b[i] == '#' {
      n := HashesAhead(b, i + 1);
      n := n + 1;
    } else {
      n := 0;
    }
  }

  lemma LetterRReads(b: Text, i: nat)
    requires i < |b| && b[i] == 'r' && !GoesOnRaw(b[i + 1..])
    ensures ReadsTo(b, i, i + 1)
  {
    var n := HashesAhead(b, i + 1);
    if i + 1 + n < |b| && b[i + 1 + n] == '"' {
      RawAhead(b, i + 1, n);
    }
    CommentScanner.RawOpens(b, i, n);
  }

  lemma RawAhead(b: Text, i: nat, n: nat)
    requires i + n < |b| && b[i + n] == '"' && forall j :: i <= j < i + n ==> b[j] == '#'
    ensures GoesOnRaw(b[i..])
  {
    assert b[i..] == Hashes(n) + ['"'] + b[i + n + 1..];
  }

  lemma PlainReads(b: Text, i: nat, c: Byte)
    requires i < |b| && b[i] == c && Fits(CodeByte(c), b[i + 1..])
    ensures ReadsTo(b, i, i + 1)
  {
    if c == 'r' {
      LetterRReads(b, i);
    } else if c == '/' && i + 1 < |b| {
      assert b[i + 1] == b[i + 1..][0];
      assert FirstMarker(b, i, Code) == FirstMarker(b, i + 1, Slash);
    }
  }

  lemma LifetimeQuoteReads(b: Text, i: nat)
    requires i < |b| && b[i] == '\'' && Fits(LifetimeQuote, b[i + 1..])
    ensures ReadsTo(b, i, i + 1)
  {
    var rest := b[i + 1..];
    assert i + 1 < |b| ==> b[i + 1] == rest[0];
    assert i + 2 < |b| ==> b[i + 2] == rest[1];
    CommentScanner.LifetimeReads(b, i + 1);
    assert FirstMarker(b, i, Code) == FirstMarker(b, i + 1, Quote);
  }

  lemma TokenReads(b: Text, i: nat, t: Token)
    requires StandsAt(b, i, SpelledToken(t)) && Fits(t, b[i + |SpelledToken(t)|..])
    ensures ReadsTo(b, i, i + |SpelledToken(t)|)
  {
    match t
    case CodeByte(c) =>
      ByteAt(b, i, [c], 0);
      PlainReads(b, i, c);
    case StringLiteral(parts) => StringReads(b, i, parts);
    case RawString(n, body) => RawReads(b, i, n, body);
    case CharLiteral(c) => CharReads(b, i, c);
    case EscapedChar(c) => EscapedReads(b, i, c);
    case UnicodeChar(digits) => UnicodeReads(b, i, digits);
    case LifetimeQuote =>
      ByteAt(b, i, ['\''], 0);
      LifetimeQuoteReads(b, i);
  }

  lemma InFront(front: Text, part: Text, rest: Text, tail: Text)
    ensures var b := front + part + rest + tail;
            StandsAt(b, |front|, part) && b[|front| + |part|..] == rest + tail
  {
    var b := front + part + rest + tail;
    assert b[|front|..|front| + |part|] == part;
    assert b[|front| + |part|..] == rest + tail;
  }

  lemma TokenInFront(front: Text, t: Token, rest: Text, tail: Text)
    requires Fits(t, rest + tail)
    ensures ReadsTo(front + SpelledToken(t) + rest + tail, |front|, |front + SpelledToken(t)|)
  {
    InFront(front, SpelledToken(t), rest, tail);
    TokenReads(front + SpelledToken(t) + rest + tail, |front|, t);
  }

  lemma {:induction false} TokensRead(front: Text, tokens: seq<Token>, tail: Text)
    requires WellSeparated(tokens, tail)
    ensures ReadsTo(front + Spelled(tokens) + tail, |front|, |front + Spelled(tokens)|)
    decreases |tokens|
  {
    if tokens == [] {
      assert front + Spelled(tokens) == front;
    } else {
      var first, rest := SpelledToken(tokens[0]), Spelled(tokens[1..]);
      FourParts(front, first, rest, tail);
      TokenInFront(front, tokens[0], rest, tail);
      TokensRead(front + first, tokens[1..], tail);
    }
  }

  lemma FourParts(a: Text, b: Text, c: Text, d: Text)
    ensures a + (b + c) + d == a + b + c + d
    ensures a + b + c + d == a + (b + (c + d))
  {
  }

  // What the scanner finds behind the tokens.

  /** Code, then a line comment: its marker is found where the code ends. */
  lemma LineCommentIsFound(tokens: seq<Token>, comment: Text)
    requires WellSeparated(tokens, "//" + comment)
    ensures FirstMarker(Spelled(tokens) + ("//" + comment), 0, Code) == CommentScanner.LineAt(|Spelled(tokens)|)
  {
    var b := Spelled(tokens) + ("//" + comment);
    MarkerBehind(tokens, "//" + comment);
    assert b[|Spelled(tokens)|] == '/' && b[|Spelled(tokens)| + 1] == '/';
    assert FirstMarker(b, |Spelled(tokens)|, Code) == FirstMarker(b, |Spelled(tokens)| + 1, Slash);
  }

  lemma BlockCommentIsFound(tokens: seq<Token>, comment: Text)
    requires WellSeparated(tokens, "/*" + comment)
    ensures FirstMarker(Spelled(tokens) + ("/*" + comment), 0, Code) == CommentScanner.BlockAt(|Spelled(tokens)|)
  {
    var b := Spelled(tokens) + ("/*" + comment);
    MarkerBehind(tokens, "/*" + comment);
    assert b[|Spelled(tokens)|] == '/' && b[|Spelled(tokens)| + 1] == '*';
    assert FirstMarker(b, |Spelled(tokens)|, Code) == FirstMarker(b, |Spelled(tokens)| + 1, Slash);
  }

  lemma NoCommentIsFound(tokens: seq<Token>)
    requires WellSeparated(tokens, [])
    ensures FirstMarker(Spelled(tokens), 0, Code) == CommentScanner.NoMarker
  {
    MarkerBehind(tokens, []);
    assert Spelled(tokens) + [] == Spelled(tokens);
  }

  lemma MarkerBehind(tokens: seq<Token>, tail: Text)
    requires WellSeparated(tokens, tail)
    ensures FirstMarker(Spelled(tokens) + tail, 0, Code) == FirstMarker(Spelled(tokens) + tail, |Spelled(tokens)|, Code)
  {
    TokensRead([], tokens, tail);
    assert [] + Spelled(tokens) == Spelled(tokens);
  }
}
