/** Removing terminal control sequences from captured output. */
module Ansi {

  const ESC := '\U{1B}'

  predicate IsFinal(c: char) {
    0x40 <= c as int <= 0x7E
  }

  /** What is left after the final byte of a control sequence. */
  function AfterFinal(s: string): (r: string)
    ensures |r| <= |s|
  {
    if s == "" then "" else if IsFinal(s[0]) then s[1..] else AfterFinal(s[1..])
  }

  function Strip(s: string): string
    decreases |s|
  {
    if s == "" then ""
    else if s[0] != ESC then [s[0]] + Strip(s[1..])
    else if |s| > 1 && s[1] == '[' then Strip(AfterFinal(s[2..]))
    else Strip(s[1..])
  }

  method StripAnsi(input: string) returns (out: string)
    ensures out == Strip(input)
  {
    out := "";
    var i := 0;
    while i < |input|
      invariant i <= |input| && Strip(input) == out + Strip(input[i..])
    {
      assert input[i..][1..] == input[i + 1..];
      var c := input[i];
      i := i + 1;
      if c != ESC {
        out := out + [c];
        continue;
      }
      if i < |input| && input[i] == '[' {
        ghost var before := i;
        assert input[before - 1..][2..] == input[before + 1..];
        i := i + 1;
        while i < |input|
          invariant before < i <= |input| && AfterFinal(input[before + 1..]) == AfterFinal(input[i..])
        {
          assert input[i..][1..] == input[i + 1..];
          i := i + 1;
          if IsFinal(input[i - 1]) {
            break;
          }
        }
      }
    }
  }

  lemma {:induction false} NoEscapeLeft(s: string)
    ensures forall c :: c in Strip(s) ==> c as int != 0x1B
    decreases |s|
  {
    if s != "" {
      if s[0] == ESC && |s| > 1 && s[1] == '[' {
        NoEscapeLeft(AfterFinal(s[2..]));
      } else {
        NoEscapeLeft(s[1..]);
      }
    }
  }

  lemma {:induction false} PlainTextUnchanged(s: string)
    requires ESC !in s
    ensures Strip(s) == s
  {
    if s != "" {
      PlainTextUnchanged(s[1..]);
    }
  }

  lemma StrippingTwice(s: string)
    ensures Strip(Strip(s)) == Strip(s)
  {
    NoEscapeLeft(s);
    assert ESC !in Strip(s);
    PlainTextUnchanged(Strip(s));
  }

  ghost predicate AllBetween(q: string, from: int, to: int, lo: int, hi: int) {
    0 <= from <= to <= |q| && forall i :: from <= i < to ==> lo <= q[i] as int <= hi
  }

  /** A control sequence of section 5.4 of ECMA-48: parameter bytes, then intermediate bytes, then a
      final byte. */
  ghost predicate IsControlSequence(q: string) {
    && |q| >= 3 && q[0] as int == 0x1B && q[1] == '[' && 0x40 <= q[|q| - 1] as int <= 0x7E
    && exists k :: AllBetween(q, 2, k, 0x30, 0x3F) && AllBetween(q, k, |q| - 1, 0x20, 0x2F)
  }

  /** `noisy` is `clean` with control sequences put in anywhere. */
  ghost predicate Decorated(clean: string, noisy: string)
    decreases |noisy|
  {
    || (clean == "" && noisy == "")
    || (clean != "" && noisy != "" && clean[0] == noisy[0] && Decorated(clean[1..], noisy[1..]))
    || (exists n :: 0 < n <= |noisy| && IsControlSequence(noisy[..n]) && Decorated(clean, noisy[n..]))
  }

  lemma {:induction false} SequenceSkipped(q: string, rest: string)
    requires q != "" && IsFinal(q[|q| - 1]) && forall i :: 0 <= i < |q| - 1 ==> !IsFinal(q[i])
    ensures AfterFinal(q + rest) == rest
  {
    if |q| > 1 {
      SequenceSkipped(q[1..], rest);
      assert (q + rest)[1..] == q[1..] + rest;
    } else {
      assert (q + rest)[1..] == rest;
    }
  }

  /** Stripping undoes any decoration of text that has no escapes of its own. */
  lemma {:induction false} StripUndoesDecoration(clean: string, noisy: string)
    requires ESC !in clean && Decorated(clean, noisy)
    ensures Strip(noisy) == clean
    decreases |noisy|
  {
    if n :| 0 < n <= |noisy| && IsControlSequence(noisy[..n]) && Decorated(clean, noisy[n..]) {
      var q := noisy[..n];
      SequenceSkipped(q[2..], noisy[n..]);
      assert q[2..] + noisy[n..] == noisy[2..];
      assert noisy[0] == q[0] && noisy[1] == q[1];
      StripUndoesDecoration(clean, noisy[n..]);
    } else if clean != "" {
      StripUndoesDecoration(clean[1..], noisy[1..]);
      assert clean == [clean[0]] + clean[1..];
    }
  }

  lemma {:induction false} PlainFrontStays(front: string, rest: string)
    requires ESC !in front
    ensures Strip(front + rest) == front + Strip(rest)
    decreases |front|
  {
    if front == "" {
      assert front + rest == rest;
    } else {
      assert (front + rest)[1..] == front[1..] + rest;
      PlainFrontStays(front[1..], rest);
    }
  }

  /** An escape that begins no control sequence is dropped alone. */
  lemma LoneEscapeDropped(front: string, rest: string)
    requires ESC !in front && (rest == "" || rest[0] != '[')
    ensures Strip(front + ("\U{1B}" + rest)) == front + Strip(rest)
  {
    PlainFrontStays(front, "\U{1B}" + rest);
    assert ("\U{1B}" + rest)[1..] == rest;
  }

  /** A control sequence without a final byte takes the rest of the text with it. */
  lemma UnfinishedSequenceDropped(front: string, rest: string)
    requires ESC !in front && forall c :: c in rest ==> !(0x40 <= c as int <= 0x7E)
    ensures Strip(front + ("\U{1B}[" + rest)) == front
  {
    PlainFrontStays(front, "\U{1B}[" + rest);
    assert ("\U{1B}[" + rest)[2..] == rest;
    NeverFinal(rest);
    assert front + "" == front;
  }

  lemma {:induction false} NeverFinal(s: string)
    requires forall c :: c in s ==> !IsFinal(c)
    ensures AfterFinal(s) == ""
  {
    if s != "" {
      assert s[0] in s && forall c :: c in s[1..] ==> c in s;
      NeverFinal(s[1..]);
    }
  }
}
