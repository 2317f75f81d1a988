/** Well-formed UTF-8, as in section 4 of RFC 3629. */
module Utf8 {
  import opened Bytes

  predicate InRange(c: Byte, lo: int, hi: int) {
    lo <= c as int <= hi
  }

  predicate Tails(b: Text, from: nat, n: nat) {
    from + n <= |b| && forall i :: from <= i < from + n ==> InRange(b[i], 0x80, 0xBF)
  }

  /** The length of the well-formed character at the front, 0 if there is none. */
  function CharLen(b: Text): (n: nat)
    ensures n <= |b|
  {
    if b == [] then 0
    else if InRange(b[0], 0x00, 0x7F) then 1
    else if InRange(b[0], 0xC2, 0xDF) then (if Tails(b, 1, 1) then 2 else 0)
    else if InRange(b[0], 0xE0, 0xEF) then
      if !Tails(b, 1, 2) then 0
      else if b[0] as int == 0xE0 && !InRange(b[1], 0xA0, 0xBF) then 0
      else if b[0] as int == 0xED && !InRange(b[1], 0x80, 0x9F) then 0
      else 3
    else if InRange(b[0], 0xF0, 0xF4) then
      if !Tails(b, 1, 3) then 0
      else if b[0] as int == 0xF0 && !InRange(b[1], 0x90, 0xBF) then 0
      else if b[0] as int == 0xF4 && !InRange(b[1], 0x80, 0x8F) then 0
      else 4
    else 0
  }

  predicate Valid(b: Text) {
    b == [] || (CharLen(b) > 0 && Valid(b[CharLen(b)..]))
  }

  /** A multi-byte character holds no ASCII byte. */
  lemma CharBytes(b: Text)
    requires CharLen(b) > 0
    ensures CharLen(b) == 1 || forall i :: 0 <= i < CharLen(b) ==> b[i] as int >= 0x80
  {
  }

  /** Whether a character stands at the front is settled by its own bytes. */
  lemma CharIsLocal(b: Text, c: Text)
    requires CharLen(b) > 0 && CharLen(b) <= |c| && c[..CharLen(b)] == b[..CharLen(b)]
    ensures CharLen(c) == CharLen(b)
  {
    var n := CharLen(b);
    forall i | 0 <= i < n ensures c[i] == b[i] {
      assert c[i] == c[..n][i] && b[i] == b[..n][i];
    }
  }

  lemma CharThenValid(c: Text, rest: Text)
    requires CharLen(c) == |c| > 0 && Valid(rest)
    ensures Valid(c + rest)
  {
    assert (c + rest)[..|c|] == c[..|c|];
    CharIsLocal(c, c + rest);
    assert (c + rest)[|c|..] == rest;
  }

  /** Cutting valid text before or after an ASCII byte leaves valid text on both sides. */
  lemma {:induction false} CutAtAscii(b: Text, p: nat)
    requires Valid(b) && p < |b| && b[p] as int < 0x80
    ensures Valid(b[..p]) && Valid(b[p..]) && Valid(b[p + 1..])
    decreases |b|
  {
    AsciiAt(b, p);
    if p > 0 {
      var n := CharLen(b);
      SplitTwice(b, n, p);
      CutAtAscii(b[n..], p - n);
      FirstCharThen(b, n, b[n..][..p - n]);
    } else {
      assert b[0..] == b && b[..0] == [];
    }
  }

  lemma AsciiAt(b: Text, p: nat)
    requires CharLen(b) > 0 && p < |b| && b[p] as int < 0x80
    ensures if p == 0 then CharLen(b) == 1 else CharLen(b) <= p
  {
    CharBytes(b);
  }

  lemma FirstCharThen(b: Text, n: nat, rest: Text)
    requires n == CharLen(b) > 0 && Valid(rest)
    ensures Valid(b[..n] + rest)
  {
    CharIsLocal(b, b[..n]);
    CharThenValid(b[..n], rest);
  }

  lemma SplitTwice(b: Text, n: nat, p: nat)
    requires n <= p < |b|
    ensures b[n..][p - n] == b[p] && b[..n] + b[n..][..p - n] == b[..p]
    ensures b[n..][p - n..] == b[p..] && b[n..][p - n + 1..] == b[p + 1..]
  {
  }
}
