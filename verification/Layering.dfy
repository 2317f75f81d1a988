/** Peeling a graph from its leaves, and what the layer numbers mean. */
module Layering {
  import opened Graphs
  import opened TransitiveReduction

  /** What the peeling loop leaves behind. A layered vertex points only at lower layers and, unless it
      is a leaf, at the layer just below; an unlayered vertex still points at an unlayered one. */
  ghost predicate IsLayering<V(!new)>(g: Graph<V>, vs: set<V>, layers: map<V, nat>) {
    && layers.Keys <= vs
    && Closed(g, layers.Keys)
    && (forall e :: e in g && e.0 in layers ==> layers[e.1] < layers[e.0])
    && (forall n :: n in layers && layers[n] > 0 ==> HasEdgeToLayer(g, layers, n, layers[n] - 1))
    && (forall n :: n in vs - layers.Keys ==> HasEdgeInto(g, vs - layers.Keys, n))
  }

  ghost predicate HasEdgeToLayer<V(!new)>(g: Graph<V>, layers: map<V, nat>, n: V, k: int) {
    exists m :: (n, m) in g && m in layers && layers[m] == k
  }

  /** The unlayered vertices are exactly the ones that reach a cycle. */
  lemma UnlayeredReachCycle<V(!new)>(g: Graph<V>, vs: set<V>, layers: map<V, nat>, n: V)
    requires Within(g, vs) && IsLayering(g, vs, layers) && n in vs
    ensures n !in layers <==> ReachesCycle(g, n)
  {
    if n in layers {
      FallingRankHasNoCycle(g, layers.Keys, layers, n);
    } else {
      EndlessWalkFindsCycle(g, vs, vs - layers.Keys, n);
    }
  }

  /** Some path from `n` has `k` edges and none has more. */
  ghost predicate IsLongestPathLength<V(!new)>(g: Graph<V>, n: V, k: nat) {
    && (exists p :: IsPath(g, p) && p[0] == n && |p| - 1 == k)
    && (forall p :: IsPath(g, p) && p[0] == n ==> |p| - 1 <= k)
  }

  lemma {:induction false} PathDownTheLayers<V(!new)>(g: Graph<V>, vs: set<V>, layers: map<V, nat>, n: V)
      returns (p: seq<V>)
    requires IsLayering(g, vs, layers) && n in layers
    ensures IsPath(g, p) && p[0] == n && |p| - 1 == layers[n]
    decreases layers[n]
  {
    if layers[n] == 0 {
      p := [n];
    } else {
      assert HasEdgeToLayer(g, layers, n, layers[n] - 1);
      var m :| (n, m) in g && m in layers && layers[m] == layers[n] - 1;
      var q := PathDownTheLayers(g, vs, layers, m);
      p := [n] + q;
      assert forall i :: 0 < i < |p| ==> p[i] == q[i - 1];
    }
  }

  /** A layer number is the length of the longest path from the vertex. */
  lemma LayerIsLongestPath<V(!new)>(g: Graph<V>, vs: set<V>, layers: map<V, nat>, n: V)
    requires IsLayering(g, vs, layers) && n in layers
    ensures IsLongestPathLength(g, n, layers[n])
  {
    var q := PathDownTheLayers(g, vs, layers, n);
    forall p | IsPath(g, p) && p[0] == n ensures |p| - 1 <= layers[n] {
      RankFallsAlong(g, layers.Keys, layers, p);
    }
  }

  lemma {:induction false} ReducedPathIsNoShorter<V(!new)>(g: Graph<V>, vs: set<V>, p: seq<V>) returns (q: seq<V>)
    requires Within(g, vs) && Acyclic(g) && IsPath(g, p)
    ensures IsPath(Kept(g), q) && q[0] == p[0] && q[|q| - 1] == p[|p| - 1] && |q| >= |p|
  {
    if |p| == 1 {
      q := p;
    } else {
      assert (p[0], p[1]) in g;
      EdgeReaches(g, p[0], p[1]);
      ReductionKeepsReachability(g, vs);
      var a :| PathFromTo(Kept(g), a, p[0], p[1]);
      var b := ReducedPathIsNoShorter(g, vs, p[1..]);
      q := a + b[1..];
      forall i | 0 <= i < |q| - 1 ensures (q[i], q[i + 1]) in Kept(g) {
        if i >= |a| - 1 {
          assert q[i] == b[i - (|a| - 1)];
          assert q[i + 1] == b[i + 1 - (|a| - 1)];
        }
      }
    }
  }

  /** On an acyclic graph every vertex gets a layer, and the layer peeled from the reduced graph is the
      longest-path length in the original one. */
  lemma LayerSurvivesReduction<V(!new)>(g: Graph<V>, vs: set<V>, layers: map<V, nat>, n: V)
    requires Within(g, vs) && Acyclic(g) && IsLayering(Kept(g), vs, layers) && n in vs
    ensures n in layers && IsLongestPathLength(g, n, layers[n])
  {
    KeptIsAcyclic(g);
    UnlayeredReachCycle(Kept(g), vs, layers, n);
    LayerIsLongestPath(Kept(g), vs, layers, n);
    var q :| IsPath(Kept(g), q) && q[0] == n && |q| - 1 == layers[n];
    assert IsPath(g, q);
    forall p | IsPath(g, p) && p[0] == n ensures |p| - 1 <= layers[n] {
      var r := ReducedPathIsNoShorter(g, vs, p);
    }
  }

  lemma KeptIsAcyclic<V(!new)>(g: Graph<V>)
    requires Acyclic(g)
    ensures Acyclic(Kept(g))
  {
    forall v ensures !Reaches(Kept(g), v, v) {
      if Reaches(Kept(g), v, v) {
        Monotone(Kept(g), g, v, v);
      }
    }
  }
}
