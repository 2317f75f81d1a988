/** Names in dictionary order. Names compare character by character, which for UTF-8 text is the same
    order as comparing bytes. */
module Names {

  predicate Less(a: string, b: string) {
    if a == "" || b == "" then a == "" && b != ""
    else a[0] < b[0] || (a[0] == b[0] && Less(a[1..], b[1..]))
  }

  predicate AtMost(a: string, b: string) {
    a == b || Less(a, b)
  }

  /** The strings differ first at place `k`, where `a` ends or has the smaller character. */
  predicate FirstDifference(a: string, b: string, k: nat) {
    k <= |a| && k < |b| && a[..k] == b[..k] && (k < |a| ==> a[k] < b[k])
  }

  lemma {:induction false} LessExactly(a: string, b: string)
    ensures Less(a, b) <==> exists k :: FirstDifference(a, b, k)
  {
    if a == "" && b != "" {
      assert FirstDifference(a, b, 0);
    } else if a != "" && b != "" {
      LessExactly(a[1..], b[1..]);
      if a[0] < b[0] {
        assert FirstDifference(a, b, 0);
      }
      if k: nat :| FirstDifference(a[1..], b[1..], k) && a[0] == b[0] {
        assert a[..k + 1] == [a[0]] + a[1..][..k] && b[..k + 1] == [b[0]] + b[1..][..k];
        assert FirstDifference(a, b, k + 1);
      }
      if k: nat :| FirstDifference(a, b, k) && k > 0 {
        assert a[0] == a[..k][0] == b[..k][0] == b[0];
        assert a[1..][..k - 1] == a[..k][1..] && b[1..][..k - 1] == b[..k][1..];
        assert FirstDifference(a[1..], b[1..], k - 1);
      }
    }
  }

  lemma {:induction false} LessIsTransitive(a: string, b: string, c: string)
    requires Less(a, b) && Less(b, c)
    ensures Less(a, c)
  {
    if a != "" && a[0] == b[0] == c[0] {
      LessIsTransitive(a[1..], b[1..], c[1..]);
    }
  }

  lemma {:induction false} Trichotomy(a: string, b: string)
    ensures AtMost(a, b) || Less(b, a)
    ensures !(Less(a, b) && AtMost(b, a))
  {
    if a != "" && b != "" && a[0] == b[0] {
      Trichotomy(a[1..], b[1..]);
      assert a == [a[0]] + a[1..] && b == [b[0]] + b[1..];
    }
  }

  ghost predicate Ascending(s: seq<string>) {
    forall i, j :: 0 <= i < j < |s| ==> AtMost(s[i], s[j])
  }

  ghost predicate StrictlyAscending(s: seq<string>) {
    forall i, j :: 0 <= i < j < |s| ==> Less(s[i], s[j])
  }

  ghost predicate NoRepeats<T>(s: seq<T>) {
    forall i, j :: 0 <= i < j < |s| ==> s[i] != s[j]
  }

  ghost function Elements<T>(s: seq<T>): set<T> {
    set x | x in s
  }

  lemma AppendAscends(s: seq<string>, x: string)
    requires Ascending(s) && (s == [] || AtMost(s[|s| - 1], x))
    ensures Ascending(s + [x])
  {
    forall i | 0 <= i < |s| ensures AtMost(s[i], x) {
      if i < |s| - 1 && s[i] != s[|s| - 1] && s[|s| - 1] != x {
        LessIsTransitive(s[i], s[|s| - 1], x);
      }
    }
  }

  lemma LastBoundsAll(r: seq<string>, s: seq<string>, x: string)
    requires s != [] && Ascending(s) && !AtMost(s[|s| - 1], x)
    requires multiset(r) == multiset(s[..|s| - 1]) + multiset{x}
    ensures r == [] || AtMost(r[|r| - 1], s[|s| - 1])
  {
    if r != [] {
      var y := r[|r| - 1];
      assert y in multiset(r);
      assert y == x || y in s[..|s| - 1];
      Trichotomy(s[|s| - 1], x);
    }
  }

  /** Put `x` behind everything at most as large. */
  function Insert(x: string, s: seq<string>): (r: seq<string>)
    requires Ascending(s)
    ensures Ascending(r) && multiset(r) == multiset(s) + multiset{x}
  {
    if s == [] || AtMost(s[|s| - 1], x) then
      AppendAscends(s, x);
      s + [x]
    else
      assert s == s[..|s| - 1] + [s[|s| - 1]];
      var r := Insert(x, s[..|s| - 1]);
      LastBoundsAll(r, s, x);
      AppendAscends(r, s[|s| - 1]);
      r + [s[|s| - 1]]
  }

  /** Sorting a list of names. */
  function Sorted(s: seq<string>): (r: seq<string>)
    ensures Ascending(r) && multiset(r) == multiset(s)
  {
    if s == [] then []
    else
      assert s == s[..|s| - 1] + [s[|s| - 1]];
      Insert(s[|s| - 1], Sorted(s[..|s| - 1]))
  }

  lemma ElementsAppend<T>(s: seq<T>, x: T)
    ensures Elements(s + [x]) == Elements(s) + {x}
  {
  }

  lemma NoRepeatsAppend<T>(s: seq<T>, x: T)
    requires NoRepeats(s) && x !in s
    ensures NoRepeats(s + [x]) && forall y :: y in s + [x] <==> y in s || y == x
  {
  }

  lemma HeadAndTail<T>(a: seq<T>)
    requires a != []
    ensures a[0] in multiset(a) && multiset(a[1..]) == multiset(a) - multiset{a[0]}
  {
    assert a == [a[0]] + a[1..];
  }

  lemma HeadIsLeast(a: seq<string>, x: string)
    requires Ascending(a) && x in multiset(a)
    ensures a != [] && AtMost(a[0], x)
  {
    var i :| 0 <= i < |a| && a[i] == x;
  }

  /** An ascending list is fixed by its contents. */
  lemma {:induction false} AscendingIsUnique(a: seq<string>, b: seq<string>)
    requires Ascending(a) && Ascending(b) && multiset(a) == multiset(b)
    ensures a == b
  {
    if a == [] {
      assert |multiset(b)| == 0;
    } else {
      HeadAndTail(a);
      HeadIsLeast(b, a[0]);
      HeadAndTail(b);
      HeadIsLeast(a, b[0]);
      Trichotomy(a[0], b[0]);
      AscendingIsUnique(a[1..], b[1..]);
      assert a == [a[0]] + a[1..] && b == [b[0]] + b[1..];
    }
  }

  /** The members of a set in dictionary order. */
  ghost function InOrder(s: set<string>): (r: seq<string>)
    ensures Ascending(r) && multiset(r) == multiset(s)
  {
    if s == {} then []
    else
      var x :| x in s;
      assert s == (s - {x}) + {x};
      Insert(x, InOrder(s - {x}))
  }

  lemma InOrderMembers(s: set<string>)
    ensures NoRepeats(InOrder(s)) && Elements(InOrder(s)) == s
    ensures forall x :: x in InOrder(s) <==> x in s
  {
    var r := InOrder(s);
    forall x | x in r ensures x in s {
      assert x in multiset(r);
    }
    forall x | x in s ensures x in r {
      assert x in multiset(r);
    }
    forall i, j | 0 <= i < j < |r| ensures r[i] != r[j] {
      CountedTwice(r, i, j);
    }
  }

  lemma CountedTwice<T>(r: seq<T>, i: nat, j: nat)
    requires i < j < |r| && multiset(r)[r[i]] <= 1
    ensures r[i] != r[j]
  {
    assert r == r[..j] + r[j..];
    assert r[i] in multiset(r[..j]) && r[j] in multiset(r[j..]);
  }

  /** Sorting any repeat-free listing of a set gives the same list. */
  lemma SortedListing(s: seq<string>, elements: set<string>)
    requires NoRepeats(s) && Elements(s) == elements
    ensures Sorted(s) == InOrder(elements)
  {
    RepeatFreeMultiset(s);
    AscendingIsUnique(Sorted(s), InOrder(elements));
  }

  lemma {:induction false} RepeatFreeMultiset(s: seq<string>)
    requires NoRepeats(s)
    ensures multiset(s) == multiset(Elements(s))
  {
    if s != [] {
      var front, last := s[..|s| - 1], s[|s| - 1];
      RepeatFreeMultiset(front);
      assert s == front + [last];
      assert Elements(s) == Elements(front) + {last};
      assert last !in Elements(front);
    }
  }

  /** The members of a set in some order: sets, hash maps and directories promise none. */
  method Unordered<T(==)>(s: set<T>) returns (r: seq<T>)
    ensures NoRepeats(r) && Elements(r) == s && forall x :: x in r <==> x in s
  {
    r := [];
    var left := s;
    while left != {}
      invariant left <= s && NoRepeats(r) && Elements(r) == s - left
    {
      var x :| x in left;
      assert Elements(r + [x]) == Elements(r) + {x} && x !in Elements(r);
      left := left - {x};
      r := r + [x];
    }
    assert forall x :: x in r <==> x in Elements(r);
  }
}
