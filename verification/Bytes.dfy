/** Byte strings and substring search. A byte is written as the character with its code. */
module Bytes {

  type Byte = c: char | c as int < 256 witness 'a'

  type Text = seq<Byte>

  datatype Option<+T> = None | Some(value: T)

  predicate MatchesAt<T(==)>(s: seq<T>, pat: seq<T>, i: nat) {
    i + |pat| <= |s| && s[i..i + |pat|] == pat
  }

  /** The code points of Unicode white space. */
  predicate IsSpaceCode(u: int) {
    9 <= u <= 13 || u == 0x20 || u == 0x85 || u == 0xA0 || u == 0x1680 || 0x2000 <= u <= 0x200A
    || u == 0x2028 || u == 0x2029 || u == 0x202F || u == 0x205F || u == 0x3000
  }

  /** The first match of `pat` at or after `i`. */
  function FindFrom<T(==)>(s: seq<T>, pat: seq<T>, i: nat): (r: Option<nat>)
    ensures r.Some? ==> i <= r.value && MatchesAt(s, pat, r.value)
                        && forall j :: i <= j < r.value ==> !MatchesAt(s, pat, j)
    ensures r.None? ==> forall j :: i <= j ==> !MatchesAt(s, pat, j)
    decreases |s| - i
  {
    if i + |pat| > |s| then None
    else if s[i..i + |pat|] == pat then Some(i)
    else FindFrom(s, pat, i + 1)
  }

  /** A slice of a slice is a slice. */
  lemma Inner<T>(s: seq<T>, k: nat, n: nat, i: nat, m: nat)
    requires k + n <= |s| && i + m <= n
    ensures s[k..k + n][i..i + m] == s[k + i..k + i + m]
  {
    var part := s[k..k + n];
    var x, y := part[i..i + m], s[k + i..k + i + m];
    forall j | 0 <= j < m ensures x[j] == y[j] {
      assert part[i + j] == s[k + i + j];
    }
    assert x == y;
  }
}
