/** When the masker of string literals blanks exactly what the comment reader takes as string literals. */
module MaskedStrings {
  import opened Bytes
  import Reader = CommentScanner
  import Masker = MaskLiterals

  /** The reader's place before byte `i`. */
  function ModeAt(b: Text, i: nat): Reader.Mode
    requires i <= |b|
  {
    if i == 0 then Reader.Code else Reader.Next(ModeAt(b, i - 1), b[i - 1])
  }

  /** The masker's place before byte `i`. */
  function StateAt(b: Text, i: nat): Masker.State
    requires i <= |b|
  {
    Masker.StateAfter(b[..i], Masker.Plain)
  }

  predicate ClosesQuote(rest: Text) {
    rest != [] && rest[0] == '\''
  }

  /** The reader takes byte `c`, with `rest` behind it, as part of a plain string or as its quote. A double
      quote behind a single one opens a string unless another single quote makes it a character. */
  predicate IsStringByte(m: Reader.Mode, c: Byte, rest: Text)
    decreases m.QuoteThen?
  {
    match m
    case Str => true
    case StrEscape => true
    case Quote => c == '"' && !ClosesQuote(rest)
    case QuoteThen(c0) => c != '\'' && IsStringByte(Reader.FromCode(c0), c, rest)
    case _ => Reader.Next(m, c) == Reader.Str
  }

  predicate InString(b: Text, i: nat)
    requires i < |b|
  {
    IsStringByte(ModeAt(b, i), b[i], b[i + 1..])
  }

  predicate Blanked(b: Text, i: nat)
    requires i < |b|
  {
    !Masker.Outside(StateAt(b, i), b[i])
  }

  predicate InStep(m: Reader.Mode, s: Masker.State, rest: Text) {
    && (s == Masker.Literal <==> m == Reader.Str || m == Reader.QuoteThen('"'))
    && (s == Masker.LiteralEscape <==> m == Reader.StrEscape)
    && (m == Reader.QuoteThen('"') ==> !ClosesQuote(rest))
  }

  lemma OneByteInStep(m: Reader.Mode, s: Masker.State, c: Byte, rest: Text)
    requires InStep(m, s, [c] + rest) && (c == '"' ==> IsStringByte(m, c, rest))
    ensures InStep(Reader.Next(m, c), Masker.After(s, c), rest)
    ensures IsStringByte(m, c, rest) <==> !Masker.Outside(s, c)
  {
    assert m.QuoteThen? && c != '\'' ==> Reader.Next(m, c) == Reader.Next(Reader.FromCode(m.c), c);
  }

  lemma {:induction false} OneMoreState(b: Text, s: Masker.State, i: nat)
    requires i < |b|
    ensures Masker.StateAfter(b[..i + 1], s) == Masker.After(Masker.StateAfter(b[..i], s), b[i])
  {
    if i > 0 {
      OneMoreState(b[1..], Masker.After(s, b[0]), i - 1);
      assert b[..i + 1][1..] == b[1..][..i] && b[..i][1..] == b[1..][..i - 1];
    }
  }

  lemma {:induction false} StaysInStep(b: Text, i: nat)
    requires i <= |b| && forall j :: 0 <= j < i && b[j] == '"' ==> InString(b, j)
    ensures InStep(ModeAt(b, i), StateAt(b, i), b[i..])
  {
    if i > 0 {
      StaysInStep(b, i - 1);
      assert b[i - 1..] == [b[i - 1]] + b[i..];
      assert b[i - 1] == '"' ==> InString(b, i - 1);
      OneByteInStep(ModeAt(b, i - 1), StateAt(b, i - 1), b[i - 1], b[i..]);
      OneMoreState(b, Masker.Plain, i - 1);
    }
  }

  /** The blanked bytes are the reader's string bytes if and only if the reader takes every double quote as
      part of a plain string: none in a raw string or a character literal. */
  lemma MasksStringsExactly(b: Text)
    ensures (forall i :: 0 <= i < |b| ==> (Blanked(b, i) <==> InString(b, i))) <==>
            (forall i :: 0 <= i < |b| && b[i] == '"' ==> InString(b, i))
  {
    if forall i :: 0 <= i < |b| && b[i] == '"' ==> InString(b, i) {
      forall i | 0 <= i < |b| ensures Blanked(b, i) <==> InString(b, i) {
        StaysInStep(b, i);
        assert b[i..] == [b[i]] + b[i + 1..];
        OneByteInStep(ModeAt(b, i), StateAt(b, i), b[i], b[i + 1..]);
      }
    } else {
      var i :| 0 <= i < |b| && b[i] == '"' && !InString(b, i);
      assert Blanked(b, i);
    }
  }

  /** Then the masked text keeps the other bytes and blanks these. */
  lemma MaskedTextExactly(b: Text, i: nat)
    requires i < |b| && forall j :: 0 <= j < |b| && b[j] == '"' ==> InString(b, j)
    ensures Masker.Masked(b, Masker.Plain)[i] == if InString(b, i) then ' ' else b[i]
  {
    Masker.MaskedByte(b, Masker.Plain, i);
    MasksStringsExactly(b);
    assert Blanked(b, i) <==> InString(b, i);
  }

  lemma {:induction false} RawNeedsQuote(b: Text, i: nat) returns (j: nat)
    requires i <= |b| && (ModeAt(b, i).Raw? || ModeAt(b, i).RawEnd?)
    ensures j < i && b[j] == '"' && !InString(b, j)
  {
    var m := ModeAt(b, i - 1);
    if m.Raw? || m.RawEnd? {
      j := RawNeedsQuote(b, i - 1);
    } else {
      j := i - 1;
      OpensRaw(m, b[j], b[j + 1..]);
    }
  }

  lemma OpensRaw(m: Reader.Mode, c: Byte, rest: Text)
    requires !m.Raw? && !m.RawEnd? && (Reader.Next(m, c).Raw? || Reader.Next(m, c).RawEnd?)
    ensures c == '"' && !IsStringByte(m, c, rest)
  {
    assert m.QuoteThen? && c != '\'' ==> Reader.Next(m, c) == Reader.Next(Reader.FromCode(m.c), c);
  }

  /** A raw string always puts the masker out of step. */
  lemma RawStringIsMasked(b: Text, i: nat)
    requires i <= |b| && (ModeAt(b, i).Raw? || ModeAt(b, i).RawEnd?)
    ensures !(forall i :: 0 <= i < |b| ==> (Blanked(b, i) <==> InString(b, i)))
  {
    MasksStringsExactly(b);
    var j := RawNeedsQuote(b, i);
  }
}
