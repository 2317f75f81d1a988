/** The affected-crate relation: building its rules from dependencies, and applying them to the crates
    a change touches directly. */
module Propagation {
  import opened Names
  import opened Graphs

  datatype Entry = Entry(source: string, dependents: seq<string>)

  /** (s, d): some rule says that a change to s affects d. */
  ghost function Rules(table: seq<Entry>): Graph<string> {
    set e, d | e in table && d in e.dependents :: (e.source, d)
  }

  ghost function OneStep(g: Graph<string>, s: set<string>): set<string> {
    s + set e | e in g && e.0 in s :: e.1
  }

  /** Everything a rule chain leads to from `s`. */
  ghost predicate Affected(g: Graph<string>, s: set<string>, x: string) {
    exists a :: a in s && ReachesOrIs(g, a, x)
  }

  ghost predicate ClosedUnder(g: Graph<string>, s: set<string>) {
    forall e :: e in g && e.0 in s ==> e.1 in s
  }

  /** `Affected` is the least closed set that holds the starting crates. */
  lemma AffectedIsLeast(g: Graph<string>, s: set<string>)
    ensures forall x :: x in s ==> Affected(g, s, x)
    ensures forall e :: e in g && Affected(g, s, e.0) ==> Affected(g, s, e.1)
    ensures forall t, x :: s <= t && ClosedUnder(g, t) && Affected(g, s, x) ==> x in t
  {
    forall x | x in s ensures Affected(g, s, x) {
      assert ReachesOrIs(g, x, x);
    }
    forall e | e in g && Affected(g, s, e.0) ensures Affected(g, s, e.1) {
      var a :| a in s && ReachesOrIs(g, a, e.0);
      EdgeReaches(g, e.0, e.1);
      if a != e.0 {
        Transitive(g, a, e.0, e.1);
      }
      assert ReachesOrIs(g, a, e.1);
    }
    forall t, x | s <= t && ClosedUnder(g, t) && Affected(g, s, x) ensures x in t {
      var a :| a in s && ReachesOrIs(g, a, x);
      if a != x {
        ClosedKeeps(g, t, a, x);
      }
    }
  }

  lemma OneMoreEntry(table: seq<Entry>, j: nat, s: string, x: string)
    requires j < |table|
    ensures (s, x) in Rules(table[..j + 1]) <==>
            (s, x) in Rules(table[..j]) || (table[j].source == s && x in table[j].dependents)
  {
    assert table[..j + 1] == table[..j] + [table[j]];
  }

  method ApplyPropagation(start: set<string>, table: seq<Entry>) returns (affected: set<string>)
    ensures affected == OneStep(Rules(table), start)
    ensures forall x :: x in affected <==>
              x in start || exists e :: e in table && e.source in start && x in e.dependents
  {
    affected := start;
    var direct := Unordered(start);
    for i := 0 to |direct|
      invariant forall x :: x in affected <==> x in start || exists s :: s in direct[..i] && (s, x) in Rules(table)
    {
      ghost var before := affected;
      assert direct[..i + 1] == direct[..i] + [direct[i]];
      for j := 0 to |table|
        invariant forall x :: x in affected <==> x in before || (direct[i], x) in Rules(table[..j])
      {
        ghost var mid := affected;
        if direct[i] == table[j].source {
          for k := 0 to |table[j].dependents|
            invariant forall x :: x in affected <==> x in mid || x in table[j].dependents[..k]
          {
            affected := affected + {table[j].dependents[k]};
          }
        }
        forall x ensures x in affected <==> x in before || (direct[i], x) in Rules(table[..j + 1]) {
          OneMoreEntry(table, j, direct[i], x);
        }
      }
      assert table[..|table|] == table;
    }
    assert Elements(direct) == start;
    forall x ensures x in affected <==> x in start || exists e :: e in table && e.source in start && x in e.dependents {
      if e :| e in table && e.source in start && x in e.dependents {
        assert (e.source, x) in Rules(table);
      }
      if s :| s in direct && (s, x) in Rules(table) {
        var e :| e in table && x in e.dependents && e.source == s;
      }
    }
  }

  /** One pass is exact from every starting set precisely when two chained rules are always matched by a
      single one (or lead back to where they began). */
  lemma OnePassExactly(g: Graph<string>)
    ensures (forall s, x :: x in OneStep(g, s) <==> Affected(g, s, x)) <==> Chained(g)
  {
    if Chained(g) {
      forall s, x ensures x in OneStep(g, s) <==> Affected(g, s, x) {
        OnePassReaches(g, s, x);
      }
    } else {
      var e, f :| e in g && f in g && e.1 == f.0 && e.0 != f.1 && (e.0, f.1) !in g;
      var s := {e.0};
      EdgeReaches(g, e.0, e.1);
      EdgeReaches(g, f.0, f.1);
      Transitive(g, e.0, e.1, f.1);
      assert ReachesOrIs(g, e.0, f.1);
      assert Affected(g, s, f.1);
      assert f.1 !in OneStep(g, s);
    }
  }

  ghost predicate Chained(g: Graph<string>) {
    forall e, f :: e in g && f in g && e.1 == f.0 ==> e.0 == f.1 || (e.0, f.1) in g
  }

  lemma OnePassReaches(g: Graph<string>, s: set<string>, x: string)
    requires Chained(g)
    ensures x in OneStep(g, s) <==> Affected(g, s, x)
  {
    if x in OneStep(g, s) {
      if x !in s {
        var e :| e in g && e.0 in s && e.1 == x;
        assert e == (e.0, x);
        EdgeReaches(g, e.0, x);
        assert ReachesOrIs(g, e.0, x);
      } else {
        assert ReachesOrIs(g, x, x);
      }
    }
    if Affected(g, s, x) {
      var a :| a in s && ReachesOrIs(g, a, x);
      if a != x {
        var p :| PathFromTo(g, p, a, x);
        ChainedPathIsOneEdge(g, p);
        assert (a, x) in g;
        assert (a, x).0 in s && (a, x).1 == x;
      }
    }
  }

  lemma {:induction false} ChainedPathIsOneEdge(g: Graph<string>, p: seq<string>)
    requires Chained(g) && IsPath(g, p)
    ensures p[0] == p[|p| - 1] || (p[0], p[|p| - 1]) in g
  {
    if |p| > 1 {
      var q := p[1..];
      ChainedPathIsOneEdge(g, q);
      assert (p[0], p[1]) in g;
      if q[0] != q[|q| - 1] {
        var e, f := (p[0], p[1]), (q[0], q[|q| - 1]);
        assert e in g && f in g && e.1 == f.0;
      }
    }
  }

  /** The condition the code asks of its users: no source is also a dependent. It is enough, and then
      a second pass adds nothing. */
  lemma NoSourceIsDependent(g: Graph<string>, s: set<string>)
    requires forall e, f :: e in g && f in g ==> e.1 != f.0
    ensures Chained(g) && OneStep(g, OneStep(g, s)) == OneStep(g, s)
  {
  }

  /** Passes over two starting sets can be merged, whatever the rules. */
  lemma OneStepDistributes(g: Graph<string>, s: set<string>, t: set<string>)
    ensures OneStep(g, s + t) == OneStep(g, s) + OneStep(g, t)
  {
  }

  /** A chain of two rules is enough to miss a crate. */
  lemma OnePassMissesChain()
    ensures var g := Rules([Entry("a", ["b"]), Entry("b", ["c"])]);
            Affected(g, {"a"}, "c") && "c" !in OneStep(g, {"a"})
  {
    var table := [Entry("a", ["b"]), Entry("b", ["c"])];
    var g := Rules(table);
    assert table[0] in table && table[1] in table;
    assert "b" in table[0].dependents && "c" in table[1].dependents;
    assert g == {("a", "b"), ("b", "c")};
    EdgeReaches(g, "a", "b");
    EdgeReaches(g, "b", "c");
    Transitive(g, "a", "b", "c");
    assert ReachesOrIs(g, "a", "c");
  }
}
