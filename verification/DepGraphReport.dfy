/** The dependency report: adjacency, transitive reduction, layers, rings and edge verdicts. */
module DepGraphReport {
  import opened Bytes
  import opened Graphs
  import opened Names
  import opened TransitiveReduction
  import opened Layering

  datatype DepEdge = DepEdge(src: nat, dst: nat, style: string)

  ghost function EdgesOf(edges: seq<DepEdge>): Graph<nat> {
    set e | e in edges :: (e.src, e.dst)
  }

  ghost function GraphOf(adj: map<nat, set<nat>>): Graph<nat> {
    set s, d | s in adj && d in adj[s] :: (s, d)
  }

  predicate TailsKnown(nodes: set<nat>, edges: seq<DepEdge>) {
    forall e :: e in edges ==> e.src in nodes
  }

  predicate EndsKnown(nodes: set<nat>, edges: seq<DepEdge>) {
    forall e :: e in edges ==> e.src in nodes && e.dst in nodes
  }

  function Neighbours(adj: map<nat, set<nat>>, n: nat): set<nat> {
    if n in adj then adj[n] else {}
  }

  /** An undeclared tail is a key error. */
  method BuildAdjacency(nodes: set<nat>, edges: seq<DepEdge>) returns (built: Option<map<nat, set<nat>>>)
    ensures built.Some? <==> TailsKnown(nodes, edges)
    ensures built.Some? ==> built.value.Keys == nodes && GraphOf(built.value) == EdgesOf(edges)
  {
    var adj: map<nat, set<nat>> := map n | n in nodes :: {};
    for i := 0 to |edges|
      invariant adj.Keys == nodes && TailsKnown(nodes, edges[..i])
      invariant forall s, d :: s in nodes ==> (d in adj[s] <==> (s, d) in EdgesOf(edges[..i]))
    {
      var e := edges[i];
      if e.src !in nodes {
        return None;
      }
      assert edges[..i + 1] == edges[..i] + [e];
      assert EdgesOf(edges[..i + 1]) == EdgesOf(edges[..i]) + {(e.src, e.dst)};
      adj := adj[e.src := adj[e.src] + {e.dst}];
    }
    assert edges[..|edges|] == edges;
    built := Some(adj);
  }

  /** The breadth-first walk. A vertex may sit in the queue many times; the walk still ends because
      each turn either drops a repeat or visits one more vertex. */
  method ReachableWithout(adj: map<nat, set<nat>>, src: nat, skip: nat) returns (visited: set<nat>)
    ensures forall x :: x in visited <==> MetWithout(GraphOf(adj), src, skip, x)
  {
    ghost var g := GraphOf(adj);
    ghost var heads := set e | e in g :: e.1;
    visited := {};
    var q := Unordered(Neighbours(adj, src) - {skip});
    while q != []
      invariant forall x :: x in q || x in visited ==> MetWithout(g, src, skip, x)
      invariant forall n :: (src, n) in g && n != skip ==> n in visited || n in q
      invariant forall e :: e in g && e.0 in visited ==> e.1 in visited || e.1 in q
      invariant visited <= heads && forall x :: x in q ==> x in heads
      decreases heads - visited, |q|
    {
      var n := q[0];
      ghost var rest := q[1..];
      q := q[1..];
      if n in visited {
        continue;
      }
      visited := visited + {n};
      var more := Unordered(Neighbours(adj, n) - visited);
      q := q + more;
      forall m | m in more ensures MetWithout(g, src, skip, m) && m in heads {
        assert (n, m) in g;
        MetFurther(g, src, skip, n, m);
      }
    }
    forall x | MetWithout(g, src, skip, x) ensures x in visited {
      var n :| n != skip && (src, n) in g && ReachesOrIs(g, n, x);
      if n != x {
        ClosedKeeps(g, visited, n, x);
      }
    }
  }

  lemma MetFurther(g: Graph<nat>, src: nat, skip: nat, n: nat, m: nat)
    requires MetWithout(g, src, skip, n) && (n, m) in g
    ensures MetWithout(g, src, skip, m)
  {
    var k :| k != skip && (src, k) in g && ReachesOrIs(g, k, n);
    EdgeReaches(g, n, m);
    if k != n {
      Transitive(g, k, n, m);
    }
    assert ReachesOrIs(g, k, m);
  }

  /** The listed edges whose end points are joined in `g`, in their listed order. */
  ghost function Surviving(edges: seq<DepEdge>, g: Graph<nat>): seq<DepEdge> {
    if edges == [] then []
    else
      var last := edges[|edges| - 1];
      Surviving(edges[..|edges| - 1], g) + if (last.src, last.dst) in g then [last] else []
  }

  lemma {:induction false} SurvivingEdges(edges: seq<DepEdge>, g: Graph<nat>)
    ensures EdgesOf(Surviving(edges, g)) == EdgesOf(edges) * g
    ensures forall e :: e in Surviving(edges, g) ==> e in edges
  {
    if edges != [] {
      var front, last := edges[..|edges| - 1], edges[|edges| - 1];
      SurvivingEdges(front, g);
      assert edges == front + [last];
      assert EdgesOf(edges) == EdgesOf(front) + {(last.src, last.dst)};
      var tail := if (last.src, last.dst) in g then [last] else [];
      assert Surviving(edges, g) == Surviving(front, g) + tail;
      assert EdgesOf(Surviving(edges, g)) == EdgesOf(Surviving(front, g)) + EdgesOf(tail);
    }
  }

  method Reduce(nodes: set<nat>, edges: seq<DepEdge>) returns (r: Option<seq<DepEdge>>)
    ensures r.Some? <==> TailsKnown(nodes, edges)
    ensures r.Some? ==> r.value == Surviving(edges, Kept(EdgesOf(edges))) && EdgesOf(r.value) == Kept(EdgesOf(edges))
  {
    var built := BuildAdjacency(nodes, edges);
    if built.None? {
      return None;
    }
    ghost var g := EdgesOf(edges);
    var reduced := [];
    for i := 0 to |edges|
      invariant reduced == Surviving(edges[..i], Kept(g))
    {
      var e := edges[i];
      var met := ReachableWithout(built.value, e.src, e.dst);
      assert edges[..i + 1][..i] == edges[..i];
      assert (e.src, e.dst) in g;
      if e.dst !in met {
        reduced := reduced + [e];
      }
    }
    assert edges[..|edges|] == edges;
    SurvivingEdges(edges, Kept(g));
    assert g * Kept(g) == Kept(g);
    r := Some(reduced);
  }

  /** The state of the peeling loop on entry to turn `layer`. */
  ghost predicate Peeling(g: Graph<nat>, nodes: set<nat>, layers: map<nat, nat>, layer: nat) {
    && layers.Keys <= nodes
    && Closed(g, layers.Keys)
    && (forall n :: n in layers ==> layers[n] < layer)
    && (forall e :: e in g && e.0 in layers ==> layers[e.1] < layers[e.0])
    && (forall n :: n in layers && layers[n] > 0 ==> HasEdgeToLayer(g, layers, n, layers[n] - 1))
    && (layer > 0 ==> forall n :: n in nodes - layers.Keys ==>
          HasEdgeInto(g, nodes - layers.Keys, n) || HasEdgeToLayer(g, layers, n, layer - 1))
  }

  function Assigned(layers: map<nat, nat>, ready: set<nat>, layer: nat): (r: map<nat, nat>)
    ensures r.Keys == layers.Keys + ready
    ensures forall n :: n in r ==> r[n] == if n in ready then layer else layers[n]
  {
    layers + map n | n in ready :: layer
  }

  lemma PeelOneLayer(g: Graph<nat>, nodes: set<nat>, before: map<nat, nat>, ready: set<nat>, after: map<nat, nat>,
                     layer: nat)
    requires Within(g, nodes) && Peeling(g, nodes, before, layer)
    requires ready <= nodes - before.Keys
    requires forall n :: n in nodes - before.Keys ==> (n in ready <==> !HasEdgeInto(g, nodes - before.Keys, n))
    requires after == Assigned(before, ready, layer)
    ensures Peeling(g, nodes, after, layer + 1) && nodes - after.Keys == nodes - before.Keys - ready
  {
    ReadyPointDown(g, nodes, before, ready, after, layer);
    LinksStay(g, before, after);
    forall n | n in nodes - after.Keys
      ensures HasEdgeInto(g, nodes - after.Keys, n) || HasEdgeToLayer(g, after, n, layer)
    {
      assert HasEdgeInto(g, nodes - before.Keys, n);
      var m :| m in nodes - before.Keys && (n, m) in g;
      if m in ready {
        assert after[m] == layer;
      }
    }
  }

  lemma ReadyPointDown(g: Graph<nat>, nodes: set<nat>, before: map<nat, nat>, ready: set<nat>, after: map<nat, nat>,
                       layer: nat)
    requires Within(g, nodes) && Closed(g, before.Keys) && (forall n :: n in before ==> before[n] < layer)
    requires forall e :: e in g && e.0 in before ==> before[e.1] < before[e.0]
    requires ready <= nodes - before.Keys && after == Assigned(before, ready, layer)
    requires forall n :: n in ready ==> !HasEdgeInto(g, nodes - before.Keys, n)
    ensures Closed(g, after.Keys) && forall e :: e in g && e.0 in after ==> after[e.1] < after[e.0]
  {
    forall e | e in g && e.0 in after ensures e.1 in after && after[e.1] < after[e.0] {
      if e.0 in ready {
        assert !HasEdgeInto(g, nodes - before.Keys, e.0);
        assert (e.0, e.1) in g;
      }
    }
  }

  lemma LinksStay(g: Graph<nat>, before: map<nat, nat>, after: map<nat, nat>)
    requires forall n :: n in before ==> n in after && after[n] == before[n]
    ensures forall n: nat, k: int :: HasEdgeToLayer(g, before, n, k) ==> HasEdgeToLayer(g, after, n, k)
  {
    forall n: nat, k: int | HasEdgeToLayer(g, before, n, k) ensures HasEdgeToLayer(g, after, n, k) {
      var m :| (n, m) in g && m in before && before[m] == k;
      assert after[m] == k;
    }
  }

  method ReadyIn(outgoing: map<nat, set<nat>>, remaining: set<nat>, ghost g: Graph<nat>) returns (ready: set<nat>)
    requires GraphOf(outgoing) == g && remaining <= outgoing.Keys
    ensures ready <= remaining
    ensures forall n :: n in remaining ==> (n in ready <==> !HasEdgeInto(g, remaining, n))
  {
    ready := set n | n in remaining && outgoing[n] * remaining == {};
    forall n | n in remaining ensures n in ready <==> !HasEdgeInto(g, remaining, n) {
      if m :| m in outgoing[n] * remaining {
        assert (n, m) in g;
      }
      if m :| m in remaining && (n, m) in g {
        assert m in outgoing[n] * remaining;
      }
    }
  }

  lemma PeelingEnds(g: Graph<nat>, nodes: set<nat>, layers: map<nat, nat>, layer: nat)
    requires Peeling(g, nodes, layers, layer)
    requires forall n :: n in nodes - layers.Keys ==> HasEdgeInto(g, nodes - layers.Keys, n)
    ensures IsLayering(g, nodes, layers)
  {
  }

  /** Peel the vertices that point at nothing left, layer by layer, until none is ready. */
  method Peel(nodes: set<nat>, outgoing: map<nat, set<nat>>, ghost g: Graph<nat>) returns (layers: map<nat, nat>)
    requires outgoing.Keys == nodes && GraphOf(outgoing) == g && Within(g, nodes)
    ensures IsLayering(g, nodes, layers)
  {
    layers := map[];
    var remaining := nodes;
    var layer := 0;
    while remaining != {}
      invariant remaining == nodes - layers.Keys
      invariant Peeling(g, nodes, layers, layer)
      decreases remaining
    {
      var ready := ReadyIn(outgoing, remaining, g);
      if ready == {} {
        break;
      }
      PeelOneLayer(g, nodes, layers, ready, Assigned(layers, ready, layer), layer);
      layers := Assigned(layers, ready, layer);
      remaining := remaining - ready;
      layer := layer + 1;
    }
    PeelingEnds(g, nodes, layers, layer);
  }

  /** The layers of the kept edges. An undeclared end of one is a key error. */
  method PeelLayers(nodes: set<nat>, reduced: seq<DepEdge>) returns (peeled: Option<map<nat, nat>>)
    ensures peeled.Some? <==> EndsKnown(nodes, reduced)
    ensures peeled.Some? ==> IsLayering(EdgesOf(reduced), nodes, peeled.value)
  {
    var outgoing := BuildAdjacency(nodes, reduced);
    if outgoing.None? || !EndsKnown(nodes, reduced) {
      return None;
    }
    var layers := Peel(nodes, outgoing.value, EdgesOf(reduced));
    peeled := Some(layers);
  }
}
