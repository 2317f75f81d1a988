/** What the dependency report's edge filter does to a graph: it drops an edge when its head is also
    reached by a walk that sets out through another neighbour. */
module TransitiveReduction {
  import opened Graphs

  /** `x` is met by some walk from `src` whose first step is not to `skip`. */
  ghost predicate MetWithout<V(!new)>(g: Graph<V>, src: V, skip: V, x: V) {
    exists n :: n != skip && (src, n) in g && ReachesOrIs(g, n, x)
  }

  ghost function Kept<V(!new)>(g: Graph<V>): Graph<V> {
    set e | e in g && !MetWithout(g, e.0, e.1, e.1)
  }

  ghost predicate SameReachability<V(!new)>(g: Graph<V>, h: Graph<V>) {
    forall u, v :: Reaches(g, u, v) <==> Reaches(h, u, v)
  }

  /** No vertex on a cycle has two ways on. */
  ghost predicate CyclesDoNotBranch<V(!new)>(g: Graph<V>) {
    forall u, a, b :: Reaches(g, u, u) && (u, a) in g && (u, b) in g ==> a == b
  }

  ghost predicate HasNeighbourAbove<V(!new)>(g: Graph<V>, u: V, a: V) {
    exists m :: (u, m) in g && Reaches(g, m, a) && !Reaches(g, a, m)
  }

  /** A vertex that points at two vertices of one cycle also points at one strictly above them. */
  ghost predicate TwinsAreTopped<V(!new)>(g: Graph<V>) {
    forall u, a, b ::
      (u, a) in g && (u, b) in g && a != b && Reaches(g, a, b) && Reaches(g, b, a) ==> HasNeighbourAbove(g, u, a)
  }

  /** Where cycles do not branch, whatever lies below a cycle is that cycle, and no edge on it is dropped. */
  lemma {:induction false} CyclePathIsKept<V(!new)>(g: Graph<V>, p: seq<V>)
    requires CyclesDoNotBranch(g) && IsPath(g, p) && Reaches(g, p[0], p[0])
    ensures IsPath(Kept(g), p)
  {
    if |p| > 1 {
      var u, a := p[0], p[1];
      assert (u, a) in g;
      var n := FirstStep(g, u, u);
      assert n == a;
      EdgeReaches(g, u, a);
      if a != u {
        Transitive(g, a, u, a);
      }
      CyclePathIsKept(g, p[1..]);
      forall i | 0 <= i < |p| - 1 ensures (p[i], p[i + 1]) in Kept(g) {
        if i > 0 {
          assert p[1..][i - 1] == p[i] && p[1..][i] == p[i + 1];
        }
      }
    }
  }

  ghost function BelowOrIs<V(!new)>(g: Graph<V>, vs: set<V>, u: V): set<V> {
    set x | x in vs && ReachesOrIs(g, u, x)
  }

  /** From any neighbour on the way to `v`, climbing to neighbours that reach more ends at a kept edge. */
  lemma KeptFirstEdge<V(!new)>(g: Graph<V>, vs: set<V>, u: V, n: V, v: V) returns (m: V)
    requires Within(g, vs) && TwinsAreTopped(g) && (u, n) in g && ReachesOrIs(g, n, v)
    ensures (u, m) in Kept(g) && ReachesOrIs(g, m, v)
    decreases vs - BelowOrIs(g, vs, n)
  {
    if (u, n) in Kept(g) {
      return n;
    }
    var k :| k != n && (u, k) in g && ReachesOrIs(g, k, n);
    if Reaches(g, n, k) {
      Transitive(g, n, k, n);
      assert HasNeighbourAbove(g, u, n);
      k :| (u, k) in g && Reaches(g, k, n) && !Reaches(g, n, k);
    }
    forall x | x in vs && ReachesOrIs(g, n, x) ensures ReachesOrIs(g, k, x) {
      if x != n {
        Transitive(g, k, n, x);
      }
    }
    assert k in BelowOrIs(g, vs, k) && k !in BelowOrIs(g, vs, n);
    if n != v {
      Transitive(g, k, n, v);
    }
    m := KeptFirstEdge(g, vs, u, k, v);
  }

  lemma {:induction false} KeptStillReaches<V(!new)>(g: Graph<V>, vs: set<V>, u: V, v: V)
    requires Within(g, vs) && CyclesDoNotBranch(g) && TwinsAreTopped(g) && Reaches(g, u, v)
    ensures Reaches(Kept(g), u, v)
    decreases Below(g, vs, u)
  {
    if Reaches(g, u, u) {
      var p :| PathFromTo(g, p, u, v);
      CyclePathIsKept(g, p);
      assert PathFromTo(Kept(g), p, u, v);
    } else {
      var n := FirstStep(g, u, v);
      n := KeptFirstEdge(g, vs, u, n, v);
      EdgeReaches(Kept(g), u, n);
      if n != v {
        if Reaches(g, n, n) {
          var p :| PathFromTo(g, p, n, v);
          CyclePathIsKept(g, p);
          assert PathFromTo(Kept(g), p, n, v);
        } else {
          EdgeReaches(g, u, n);
          forall x | x in Below(g, vs, n) ensures x in Below(g, vs, u) {
            Transitive(g, u, n, x);
          }
          assert n in Below(g, vs, u) && n !in Below(g, vs, n);
          KeptStillReaches(g, vs, n, v);
        }
        Transitive(Kept(g), u, n, v);
      }
    }
  }

  /** A kept edge never leaves a cycle: going round once more is a detour. */
  lemma KeptEdgeStaysOnCycle<V(!new)>(g: Graph<V>, u: V, x: V, y: V)
    requires Reaches(g, u, x) && Reaches(g, x, u) && (x, y) in Kept(g)
    ensures Reaches(g, u, y) && Reaches(g, y, u)
  {
    EdgeReaches(g, x, y);
    Transitive(g, u, x, y);
    Transitive(g, x, u, x);
    var n := FirstStep(g, x, x);
    if n != x {
      Transitive(g, n, x, y);
    }
    assert n == y;
    if y != x {
      Transitive(g, y, x, u);
    }
  }

  lemma CyclesCannotBranch<V(!new)>(g: Graph<V>, vs: set<V>, u: V, a: V, b: V)
    requires Within(g, vs) && SameReachability(Kept(g), g)
    requires Reaches(g, u, u) && (u, a) in g && (u, b) in g
    ensures a == b
  {
    var cycle := set x | x in vs && Reaches(g, u, x) && Reaches(g, x, u);
    forall e | e in Kept(g) && e.0 in cycle ensures e.1 in cycle {
      KeptEdgeStaysOnCycle(g, u, e.0, e.1);
    }
    var n := FirstStep(Kept(g), u, u);
    forall m | (u, m) in g ensures m == n {
      EdgeReaches(g, u, m);
      ClosedKeeps(Kept(g), cycle, u, m);
      EdgeReaches(g, u, n);
      Transitive(g, m, u, n);
    }
  }

  lemma TwinsNeedTop<V(!new)>(g: Graph<V>, u: V, a: V, b: V)
    requires SameReachability(Kept(g), g)
    requires (u, a) in g && (u, b) in g && a != b && Reaches(g, a, b) && Reaches(g, b, a)
    ensures HasNeighbourAbove(g, u, a)
  {
    EdgeReaches(g, u, a);
    var m := FirstStep(Kept(g), u, a);
    assert m != a;
    Monotone(Kept(g), g, m, a);
    assert Reaches(g, a, m) ==> MetWithout(g, u, m, m);
  }

  /** The kept edges reach exactly what all the edges reach if and only if no cycle branches and a vertex
      that points at two vertices of one cycle also points at one strictly above them. */
  lemma KeepsReachabilityExactly<V(!new)>(g: Graph<V>, vs: set<V>)
    requires Within(g, vs)
    ensures SameReachability(Kept(g), g) <==> CyclesDoNotBranch(g) && TwinsAreTopped(g)
  {
    if CyclesDoNotBranch(g) && TwinsAreTopped(g) {
      forall u, v ensures Reaches(Kept(g), u, v) <==> Reaches(g, u, v) {
        if Reaches(g, u, v) {
          KeptStillReaches(g, vs, u, v);
        }
        if Reaches(Kept(g), u, v) {
          Monotone(Kept(g), g, u, v);
        }
      }
    }
    if SameReachability(Kept(g), g) {
      forall u, a, b | Reaches(g, u, u) && (u, a) in g && (u, b) in g ensures a == b {
        CyclesCannotBranch(g, vs, u, a, b);
      }
      forall u, a, b | (u, a) in g && (u, b) in g && a != b && Reaches(g, a, b) && Reaches(g, b, a)
        ensures HasNeighbourAbove(g, u, a)
      {
        TwinsNeedTop(g, u, a, b);
      }
    }
  }

  /** In particular an acyclic graph keeps its reachability. */
  lemma ReductionKeepsReachability<V(!new)>(g: Graph<V>, vs: set<V>)
    requires Within(g, vs) && Acyclic(g)
    ensures SameReachability(Kept(g), g)
  {
    forall a, b | Reaches(g, a, b) ensures !Reaches(g, b, a) {
      if Reaches(g, b, a) {
        Transitive(g, a, b, a);
      }
    }
    KeepsReachabilityExactly(g, vs);
  }

  /** On every graph, cyclic or not, a kept edge is the only way from its tail to its head among the
      kept edges: dropping it loses that pair. */
  lemma ReductionIsMinimal<V(!new)>(g: Graph<V>, a: V, b: V)
    requires (a, b) in Kept(g)
    ensures !Reaches(Kept(g) - {(a, b)}, a, b)
  {
    var h := Kept(g) - {(a, b)};
    if Reaches(h, a, b) {
      var n := FirstStep(h, a, b);
      assert n != b && (a, n) in g;
      Monotone(h, g, n, b);
      assert false;
    }
  }

  /** Any graph at all with the reachability of an acyclic graph contains its kept edges. Together
      with the two lemmas above: the kept edges are the least such graph, hence the unique
      transitive reduction. */
  lemma ReductionIsLeast<V(!new)>(g: Graph<V>, h: Graph<V>)
    requires Acyclic(g) && SameReachability(h, g)
    ensures Kept(g) <= h
  {
    forall e | e in Kept(g) ensures e in h {
      var (a, b) := e;
      EdgeReaches(g, a, b);
      assert Reaches(h, a, b);
      var n := FirstStep(h, a, b);
      if n != b {
        EdgeReaches(h, a, n);
        assert Reaches(g, a, n) && Reaches(g, n, b);
        WalkThroughMeets(g, a, n, b);
      }
    }
  }

  lemma WalkThroughMeets<V(!new)>(g: Graph<V>, a: V, n: V, b: V)
    requires Acyclic(g) && Reaches(g, a, n) && Reaches(g, n, b)
    ensures MetWithout(g, a, b, b)
  {
    var m := FirstStep(g, a, n);
    if m != n {
      Transitive(g, m, n, b);
    }
    assert Reaches(g, m, b);
    assert m != b;
  }

  /** A graph that fails the condition: on three vertices that all point at each other every edge has a
      detour, so every edge is dropped. */
  lemma CyclicGraphLosesEverything()
    ensures var g := {(0, 1), (1, 0), (0, 2), (2, 0), (1, 2), (2, 1)};
            Kept(g) == {} && !SameReachability(Kept(g), g)
  {
    var g := {(0, 1), (1, 0), (0, 2), (2, 0), (1, 2), (2, 1)};
    forall e | e in g ensures MetWithout(g, e.0, e.1, e.1) {
      var n := 3 - e.0 - e.1;
      EdgeReaches(g, n, e.1);
      assert n != e.1 && (e.0, n) in g;
    }
    assert Kept(g) == {};
    EdgeReaches(g, 0, 1);
    if Reaches(Kept(g), 0, 1) {
      var n := FirstStep(Kept(g), 0, 1);
    }
  }
}
