/** Blanking out the double-quoted literals of a line. */
module MaskLiterals {
  import opened Bytes
  import Utf8

  datatype State = Plain | Literal | LiteralEscape

  function After(s: State, c: Byte): State {
    match s
    case Plain => if c == '"' then Literal else Plain
    case Literal => if c == '\\' then LiteralEscape else if c == '"' then Plain else Literal
    case LiteralEscape => Literal
  }

  /** Both quotes belong to the literal. */
  predicate Outside(s: State, c: Byte) {
    s == Plain && c != '"'
  }

  function Masked(b: Text, s: State): (r: Text)
    ensures |r| == |b|
  {
    if b == [] then []
    else [if Outside(s, b[0]) then b[0] else ' '] + Masked(b[1..], After(s, b[0]))
  }

  function StateAfter(b: Text, s: State): State {
    if b == [] then s else StateAfter(b[1..], After(s, b[0]))
  }

  /** Byte by byte: kept outside the literals, blank inside. */
  lemma {:induction false} MaskedByte(b: Text, s: State, i: nat)
    requires i < |b|
    ensures Masked(b, s)[i] == if Outside(StateAfter(b[..i], s), b[i]) then b[i] else ' '
  {
    if i > 0 {
      MaskedByte(b[1..], After(s, b[0]), i - 1);
      assert b[..i][1..] == b[1..][..i - 1];
    }
  }

  lemma {:induction false} NoQuoteLeft(b: Text, s: State)
    ensures '"' !in Masked(b, s)
  {
    if b != [] {
      NoQuoteLeft(b[1..], After(s, b[0]));
    }
  }

  lemma {:induction false} WithoutQuotesUnchanged(b: Text)
    requires '"' !in b
    ensures Masked(b, Plain) == b
  {
    if b != [] {
      WithoutQuotesUnchanged(b[1..]);
    }
  }

  lemma MaskingTwice(b: Text)
    ensures Masked(Masked(b, Plain), Plain) == Masked(b, Plain)
  {
    NoQuoteLeft(b, Plain);
    WithoutQuotesUnchanged(Masked(b, Plain));
  }

  function Blanks(n: nat): (r: Text)
    ensures |r| == n && forall i :: 0 <= i < n ==> r[i] == ' '
  {
    seq(n, i => ' ')
  }

  /** Valid UTF-8 stays valid although an escape may jump into the middle of a character. */
  lemma {:induction false} MaskedIsValid(b: Text, s: State)
    requires Utf8.Valid(b)
    ensures Utf8.Valid(Masked(b, s))
    decreases |b|
  {
    if b != [] {
      var n := Utf8.CharLen(b);
      var s' := CharMasked(b, s, n);
      MaskedIsValid(b[n..], s');
      if Outside(s, b[0]) {
        Utf8.FirstCharThen(b, n, Masked(b[n..], s'));
      } else {
        BlanksThenValid(n, Masked(b[n..], s'));
      }
    }
  }

  lemma {:induction false} BlanksThenValid(n: nat, rest: Text)
    requires Utf8.Valid(rest)
    ensures Utf8.Valid(Blanks(n) + rest)
  {
    if n == 0 {
      assert Blanks(0) + rest == rest;
    } else {
      BlanksThenValid(n - 1, rest);
      Utf8.CharThenValid([' '], Blanks(n - 1) + rest);
      assert Blanks(n) + rest == [' '] + (Blanks(n - 1) + rest);
    }
  }

  /** A character is masked as a whole. */
  lemma CharMasked(b: Text, s: State, n: nat) returns (s': State)
    requires n == Utf8.CharLen(b) > 0
    ensures Masked(b, s) == (if Outside(s, b[0]) then b[..n] else Blanks(n)) + Masked(b[n..], s')
  {
    Utf8.CharBytes(b);
    s' := After(s, b[0]);
    if n == 1 {
      assert b[..1] == [b[0]] && Blanks(1) == [' '];
      return;
    }
    TailsMasked(b[1..], s', n - 1);
    assert b[1..][n - 1..] == b[n..];
    if Outside(s, b[0]) {
      PrependByte(b, n, Masked(b[n..], s'));
    } else {
      PrependBlank(n, Masked(b[n..], s'));
    }
  }

  lemma {:induction false} TailsMasked(b: Text, s: State, n: nat)
    requires n <= |b| && s != LiteralEscape && forall i :: 0 <= i < n ==> b[i] as int >= 0x80
    ensures Masked(b, s) == (if s == Plain then b[..n] else Blanks(n)) + Masked(b[n..], s)
  {
    if n == 0 {
      assert b[0..] == b;
    } else {
      TailsMasked(b[1..], s, n - 1);
      assert b[1..][n - 1..] == b[n..];
      if s == Plain {
        PrependByte(b, n, Masked(b[n..], s));
      } else {
        PrependBlank(n, Masked(b[n..], s));
      }
    }
  }

  lemma PrependByte(b: Text, n: nat, rest: Text)
    requires 0 < n <= |b|
    ensures [b[0]] + (b[1..][..n - 1] + rest) == b[..n] + rest
  {
  }

  lemma PrependBlank(n: nat, rest: Text)
    requires n > 0
    ensures [' '] + (Blanks(n - 1) + rest) == Blanks(n) + rest
  {
  }

  /** The masker's view while `done` bytes have been dealt with. */
  ghost predicate MaskedSoFar(b: Text, out: Text, done: nat, s: State) {
    && done <= |b| == |out|
    && out[done..] == b[done..]
    && Masked(b, Plain) == out[..done] + Masked(b[done..], s)
  }

  lemma OneMoreByte(b: Text, i: nat, s: State)
    requires i < |b|
    ensures Masked(b[i..], s) == [if Outside(s, b[i]) then b[i] else ' '] + Masked(b[i + 1..], After(s, b[i]))
  {
    assert b[i..][1..] == b[i + 1..];
  }

  /** Reading from `start`, everything up to `end` is blanked. */
  ghost predicate BlankedTo(b: Text, start: nat, end: nat, s: State) {
    start <= end <= |b| && Masked(b[start..], Plain) == Blanks(end - start) + Masked(b[end..], s)
  }

  lemma BlankOne(b: Text, start: nat, i: nat, s: State)
    requires i < |b| && BlankedTo(b, start, i, s) && !Outside(s, b[i])
    ensures BlankedTo(b, start, i + 1, After(s, b[i]))
  {
    OneMoreByte(b, i, s);
    var rest := Masked(b[i + 1..], After(s, b[i]));
    assert Blanks(i - start) + ([' '] + rest) == Blanks(i + 1 - start) + rest;
  }

  function AtMostLength(b: Text, i: nat): nat {
    if i < |b| then i else |b|
  }

  /** Everything from `start` to `i`, or to the end of `b` if that comes first, is blanked. */
  ghost predicate BlankedUpTo(b: Text, start: nat, i: nat, s: State) {
    if i < |b| then BlankedTo(b, start, i, s)
    else BlankedTo(b, start, |b|, s) || BlankedTo(b, start, |b|, LiteralEscape)
  }

  lemma BlankEscape(b: Text, start: nat, i: nat)
    requires i < |b| && b[i] == '\\' && BlankedTo(b, start, i, Literal)
    ensures BlankedUpTo(b, start, i + 2, Literal)
  {
    BlankOne(b, start, i, Literal);
    if i + 1 < |b| {
      BlankOne(b, start, i + 1, LiteralEscape);
    }
  }

  /** The place past the literal that opens at `start`, possibly one past the end. */
  method LiteralEnd(b: Text, start: nat) returns (i: nat)
    requires start < |b| && b[start] == '"'
    ensures start < i && BlankedTo(b, start, AtMostLength(b, i), Plain)
  {
    i := start + 1;
    QuoteBlanked(b, start);
    while i < |b|
      invariant start < i && BlankedUpTo(b, start, i, Literal)
      decreases |b| - i
    {
      if b[i] == '\\' {
        BlankEscape(b, start, i);
        i := i + 2;
      } else {
        BlankOne(b, start, i, Literal);
        i := i + 1;
        if b[i - 1] == '"' {
          return;
        }
      }
    }
    EndIgnoresState(b, start);
  }

  lemma QuoteBlanked(b: Text, start: nat)
    requires start < |b| && b[start] == '"'
    ensures BlankedTo(b, start, start + 1, Literal)
  {
    assert Blanks(0) + Masked(b[start..], Plain) == Masked(b[start..], Plain);
    BlankOne(b, start, start, Plain);
  }

  lemma EndIgnoresState(b: Text, start: nat)
    requires BlankedTo(b, start, |b|, Literal) || BlankedTo(b, start, |b|, LiteralEscape)
    ensures BlankedTo(b, start, |b|, Plain)
  {
    assert b[|b|..] == [];
  }

  method MaskStringLiterals(b: Text) returns (r: Text)
    ensures r == if Utf8.Valid(Masked(b, Plain)) then Masked(b, Plain) else []
    ensures Utf8.Valid(b) ==> r == Masked(b, Plain)
  {
    var out := new Byte[|b|](i requires 0 <= i < |b| => b[i]);
    var i: nat := 0;
    assert out[..] == b && b[0..] == b;
    while i < |b|
      invariant MaskedSoFar(b, out[..], AtMostLength(b, i), Plain)
      decreases |b| - i
    {
      ghost var before := out[..];
      if b[i] == '"' {
        var start := i;
        i := LiteralEnd(b, start);
        var end := AtMostLength(b, i);
        forall k | start <= k < end {
          out[k] := ' ';
        }
        LiteralDone(b, before, out[..], start, end);
      } else {
        OneMoreByte(b, i, Plain);
        PlainDone(b, before, i);
        i := i + 1;
      }
    }
    AllDone(b, out[..]);
    r := if Utf8.Valid(out[..]) then out[..] else [];
    if Utf8.Valid(b) {
      MaskedIsValid(b, Plain);
    }
  }

  lemma AllDone(b: Text, out: Text)
    requires MaskedSoFar(b, out, |b|, Plain)
    ensures out == Masked(b, Plain)
  {
    assert out[..|b|] == out && b[|b|..] == [];
  }

  lemma LiteralDone(b: Text, before: Text, out: Text, start: nat, end: nat)
    requires start < end && MaskedSoFar(b, before, start, Plain) && BlankedTo(b, start, end, Plain)
    requires |out| == |b| && forall k :: 0 <= k < |b| ==> out[k] == if start <= k < end then ' ' else before[k]
    ensures MaskedSoFar(b, out, end, Plain)
  {
    assert out[..end] == before[..start] + Blanks(end - start);
    assert before[end..] == before[start..][end - start..] && b[end..] == b[start..][end - start..];
  }

  lemma PlainDone(b: Text, before: Text, i: nat)
    requires i < |b| && MaskedSoFar(b, before, i, Plain)
    requires Masked(b[i..], Plain) == [b[i]] + Masked(b[i + 1..], Plain)
    ensures MaskedSoFar(b, before, i + 1, Plain)
  {
    assert before[i] == before[i..][0] == b[i..][0];
    assert before[..i + 1] == before[..i] + [b[i]];
    assert before[i + 1..] == before[i..][1..] && b[i + 1..] == b[i..][1..];
  }
}
