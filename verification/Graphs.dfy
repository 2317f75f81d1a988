/** Finite directed graphs: paths, reachability and cycles.

    A graph is its set of edges. `Reaches` always means a path with at least one edge, so a
    vertex reaches itself exactly when it lies on a cycle. */
module Graphs {

  type Graph<V(==)> = set<(V, V)>

  /** `p` lists the vertices of a path: at least one vertex, each joined to the next by an edge. */
  ghost predicate IsPath<V(!new)>(g: Graph<V>, p: seq<V>) {
    && |p| > 0
    && forall i :: 0 <= i < |p| - 1 ==> (p[i], p[i + 1]) in g
  }

  ghost predicate PathFromTo<V(!new)>(g: Graph<V>, p: seq<V>, u: V, v: V) {
    IsPath(g, p) && |p| >= 2 && p[0] == u && p[|p| - 1] == v
  }

  ghost predicate Reaches<V(!new)>(g: Graph<V>, u: V, v: V) {
    exists p :: PathFromTo(g, p, u, v)
  }

  ghost predicate ReachesOrIs<V(!new)>(g: Graph<V>, u: V, v: V) {
    u == v || Reaches(g, u, v)
  }

  ghost predicate Acyclic<V(!new)>(g: Graph<V>) {
    forall v :: !Reaches(g, v, v)
  }

  ghost predicate ReachesCycle<V(!new)>(g: Graph<V>, u: V) {
    exists c :: ReachesOrIs(g, u, c) && Reaches(g, c, c)
  }

  /** Every edge joins two vertices of `vs`. */
  ghost predicate Within<V(!new)>(g: Graph<V>, vs: set<V>) {
    forall e :: e in g ==> e.0 in vs && e.1 in vs
  }

  /** The edges that leave `s` come back to it. */
  ghost predicate Closed<V(!new)>(g: Graph<V>, s: set<V>) {
    forall e :: e in g && e.0 in s ==> e.1 in s
  }

  lemma EdgeReaches<V(!new)>(g: Graph<V>, u: V, v: V)
    requires (u, v) in g
    ensures Reaches(g, u, v)
  {
    assert PathFromTo(g, [u, v], u, v);
  }

  lemma Transitive<V(!new)>(g: Graph<V>, u: V, v: V, w: V)
    requires Reaches(g, u, v) && Reaches(g, v, w)
    ensures Reaches(g, u, w)
  {
    var p :| PathFromTo(g, p, u, v);
    var q :| PathFromTo(g, q, v, w);
    var r := p + q[1..];
    forall i | 0 <= i < |r| - 1 ensures (r[i], r[i + 1]) in g {
      if i >= |p| - 1 {
        assert r[i] == q[i - (|p| - 1)];
        assert r[i + 1] == q[i + 1 - (|p| - 1)];
      }
    }
    assert PathFromTo(g, r, u, w);
  }

  /** The first edge of a path, and what is left of it. */
  lemma FirstStep<V(!new)>(g: Graph<V>, u: V, v: V) returns (n: V)
    requires Reaches(g, u, v)
    ensures (u, n) in g && ReachesOrIs(g, n, v)
  {
    var p :| PathFromTo(g, p, u, v);
    n := p[1];
    if |p| > 2 {
      assert PathFromTo(g, p[1..], n, v);
    }
  }

  lemma Monotone<V(!new)>(g: Graph<V>, h: Graph<V>, u: V, v: V)
    requires g <= h && Reaches(g, u, v)
    ensures Reaches(h, u, v)
  {
    var p :| PathFromTo(g, p, u, v);
    assert PathFromTo(h, p, u, v);
  }

  lemma {:induction false} ClosedPath<V(!new)>(g: Graph<V>, s: set<V>, p: seq<V>)
    requires Closed(g, s) && IsPath(g, p) && p[0] in s
    ensures p[|p| - 1] in s
  {
    if |p| > 1 {
      assert (p[0], p[1]) in g;
      ClosedPath(g, s, p[1..]);
    }
  }

  /** A closed set keeps whatever its members reach. */
  lemma ClosedKeeps<V(!new)>(g: Graph<V>, s: set<V>, u: V, v: V)
    requires Closed(g, s) && u in s && Reaches(g, u, v)
    ensures v in s
  {
    var p :| PathFromTo(g, p, u, v);
    ClosedPath(g, s, p);
  }

  /** What `u` reaches, as a finite set. */
  ghost function Below<V(!new)>(g: Graph<V>, vs: set<V>, u: V): set<V> {
    set x | x in vs && Reaches(g, u, x)
  }

  ghost predicate HasEdgeInto<V(!new)>(g: Graph<V>, s: set<V>, x: V) {
    exists y :: y in s && (x, y) in g
  }

  /** In a finite set where every vertex has an edge back into the set, following edges runs into a
      cycle. */
  lemma EndlessWalkFindsCycle<V(!new)>(g: Graph<V>, vs: set<V>, s: set<V>, u: V)
    requires Within(g, vs) && u in s
    requires forall x :: x in s ==> HasEdgeInto(g, s, x)
    ensures ReachesCycle(g, u)
    decreases Below(g, vs, u)
  {
    assert HasEdgeInto(g, s, u);
    var w :| w in s && (u, w) in g;
    EdgeReaches(g, u, w);
    if Reaches(g, w, w) {
      assert ReachesOrIs(g, u, w);
    } else {
      forall x | x in Below(g, vs, w) ensures x in Below(g, vs, u) {
        Transitive(g, u, w, x);
      }
      assert w in Below(g, vs, u) && w !in Below(g, vs, w);
      EndlessWalkFindsCycle(g, vs, s, w);
      var c :| ReachesOrIs(g, w, c) && Reaches(g, c, c);
      if w != c {
        Transitive(g, u, w, c);
      }
      assert ReachesOrIs(g, u, c);
    }
  }

  /** A rank that falls along every edge out of a closed set keeps that set away from cycles. */
  lemma FallingRankHasNoCycle<V(!new)>(g: Graph<V>, s: set<V>, rank: map<V, nat>, u: V)
    requires Closed(g, s) && s <= rank.Keys && u in s
    requires forall e :: e in g && e.0 in s ==> rank[e.1] < rank[e.0]
    ensures !ReachesCycle(g, u)
  {
    if ReachesCycle(g, u) {
      var c :| ReachesOrIs(g, u, c) && Reaches(g, c, c);
      if u != c {
        ClosedKeeps(g, s, u, c);
      }
      var p :| PathFromTo(g, p, c, c);
      RankFallsAlong(g, s, rank, p);
      assert false;
    }
  }

  lemma {:induction false} RankFallsAlong<V(!new)>(g: Graph<V>, s: set<V>, rank: map<V, nat>, p: seq<V>)
    requires Closed(g, s) && s <= rank.Keys
    requires forall e :: e in g && e.0 in s ==> rank[e.1] < rank[e.0]
    requires IsPath(g, p) && p[0] in s
    ensures p[|p| - 1] in s && rank[p[|p| - 1]] + |p| - 1 <= rank[p[0]]
  {
    if |p| > 1 {
      assert (p[0], p[1]) in g;
      RankFallsAlong(g, s, rank, p[1..]);
    }
  }
}
