/** Layers folded onto four rings, the verdict on each kept edge, and the health score. Quotients are
    exact here; the script computes them in floating point. */
module Rings {
  import opened Bytes
  import opened Names
  import opened Graphs
  import opened TransitiveReduction
  import opened Layering
  import opened DepGraphReport

  const LAST_RING := 3

  /** Round p/q to the nearest integer, ties to the even one. */
  function RoundHalfEven(p: nat, q: nat): nat
    requires q > 0
  {
    var f, r := p / q, p % q;
    if 2 * r < q || (2 * r == q && f % 2 == 0) then f else f + 1
  }

  lemma RoundIsNearest(p: nat, q: nat)
    requires q > 0
    ensures var k := RoundHalfEven(p, q);
            && 2 * (k * q) <= 2 * p + q && 2 * p <= 2 * (k * q) + q
            && (2 * (k * q) == 2 * p + q || 2 * p == 2 * (k * q) + q ==> k % 2 == 0)
  {
    var f, r := p / q, p % q;
    assert p == f * q + r;
    Spread(f, 1, q);
  }

  lemma RoundIsMonotone(p: nat, p': nat, q: nat)
    requires q > 0 && p <= p'
    ensures RoundHalfEven(p, q) <= RoundHalfEven(p', q)
  {
    RoundIsNearest(p, q);
    RoundIsNearest(p', q);
    var k, k' := RoundHalfEven(p, q), RoundHalfEven(p', q);
    if k > k' {
      Spread(k', k - k', q);
      assert false;
    }
  }

  lemma Spread(f: nat, j: nat, q: nat)
    ensures (f + j) * q == f * q + j * q
    ensures j > 0 ==> j * q >= q
  {
  }

  function RingOf(layer: nat, maxLayer: nat): nat {
    if maxLayer == 0 then 0
    else
      var k := RoundHalfEven(layer * LAST_RING, maxLayer);
      if k < LAST_RING then k else LAST_RING
  }

  /** Rings run from 0 at the leaves to the last ring at the top, and never fall as layers rise. */
  lemma RingsFollowLayers(l: nat, l': nat, maxLayer: nat)
    requires l <= l' <= maxLayer
    ensures RingOf(l, maxLayer) <= RingOf(l', maxLayer) <= 3
    ensures RingOf(0, maxLayer) == 0
    ensures maxLayer > 0 ==> RingOf(maxLayer, maxLayer) == 3
  {
    if maxLayer > 0 {
      RoundIsMonotone(l * LAST_RING, l' * LAST_RING, maxLayer);
      QuotientIs(0, maxLayer, 0, 0);
      QuotientIs(maxLayer * LAST_RING, maxLayer, LAST_RING, 0);
    }
  }

  /** The ring is the one nearest to the layer's share of the three steps from core to applications, and the
      even one of two that are equally near. */
  lemma RingIsNearest(l: nat, maxLayer: nat)
    requires l <= maxLayer && maxLayer > 0
    ensures var r := RingOf(l, maxLayer);
            && 2 * (r * maxLayer) <= 2 * (3 * l) + maxLayer && 2 * (3 * l) <= 2 * (r * maxLayer) + maxLayer
            && (2 * (r * maxLayer) == 2 * (3 * l) + maxLayer || 2 * (3 * l) == 2 * (r * maxLayer) + maxLayer ==>
                  r % 2 == 0)
  {
    RoundIsNearest(l * LAST_RING, maxLayer);
    RoundIsMonotone(l * LAST_RING, maxLayer * LAST_RING, maxLayer);
    QuotientIs(maxLayer * LAST_RING, maxLayer, LAST_RING, 0);
  }

  ghost predicate IsMaxLayer(layers: map<nat, nat>, m: nat) {
    && (forall n :: n in layers ==> layers[n] <= m)
    && (m > 0 ==> exists n :: n in layers && layers[n] == m)
  }

  method MaxLayer(layers: map<nat, nat>) returns (m: nat)
    ensures IsMaxLayer(layers, m)
  {
    var ids := Unordered(layers.Keys);
    m := 0;
    for i := 0 to |ids|
      invariant forall j :: 0 <= j < i ==> ids[j] in layers && layers[ids[j]] <= m
      invariant m > 0 ==> exists n :: n in layers && layers[n] == m
    {
      assert ids[i] in layers.Keys;
      if layers[ids[i]] > m {
        m := layers[ids[i]];
      }
    }
  }

  /** A vertex without a layer is drawn in the innermost ring. */
  function Ring(layers: map<nat, nat>, maxLayer: nat, n: nat): nat {
    if n in layers then RingOf(layers[n], maxLayer) else 0
  }

  datatype Verdict = Good | Low | Medium | High | Critical

  function VerdictOf(gap: int): Verdict {
    if gap == 1 then Good
    else if gap == 0 then Low
    else if gap > 1 then (if gap - 1 >= 2 then High else Medium)
    else Critical
  }

  function EdgeVerdict(layers: map<nat, nat>, maxLayer: nat, e: DepEdge): Verdict {
    VerdictOf(Ring(layers, maxLayer, e.src) - Ring(layers, maxLayer, e.dst))
  }

  /** The worst verdict, an inner crate depending on an outer one, is passed on an edge exactly when
      its tail can reach a cycle of the kept edges, its head cannot, and its head is not innermost. */
  lemma CriticalExactly(g: Graph<nat>, vs: set<nat>, layers: map<nat, nat>, maxLayer: nat, e: DepEdge)
    requires Within(g, vs) && IsLayering(g, vs, layers) && IsMaxLayer(layers, maxLayer)
    requires (e.src, e.dst) in g
    ensures EdgeVerdict(layers, maxLayer, e) == Critical <==>
            ReachesCycle(g, e.src) && !ReachesCycle(g, e.dst) && Ring(layers, maxLayer, e.dst) > 0
  {
    assert e.src in vs && e.dst in vs by {
      assert (e.src, e.dst).0 in vs;
    }
    UnlayeredReachCycle(g, vs, layers, e.src);
    UnlayeredReachCycle(g, vs, layers, e.dst);
    if e.src in layers {
      assert layers[(e.src, e.dst).1] < layers[(e.src, e.dst).0];
      RingsFollowLayers(layers[e.dst], layers[e.src], maxLayer);
    }
  }

  /** The verdicts in terms of the rings: an edge is good when it leads to the next ring inwards, and the
      only edges called high lead from the outermost ring to the innermost. */
  lemma VerdictsByRing(layers: map<nat, nat>, maxLayer: nat, e: DepEdge)
    requires IsMaxLayer(layers, maxLayer)
    ensures var s, d := Ring(layers, maxLayer, e.src), Ring(layers, maxLayer, e.dst);
            var v := EdgeVerdict(layers, maxLayer, e);
            && s <= 3 && d <= 3
            && (v == Good <==> s == d + 1)
            && (v == Low <==> s == d)
            && (v == High <==> s == d + 3)
            && (v == Medium <==> s == d + 2)
            && (v == Critical <==> s < d)
  {
    RingsFollowLayers(0, if e.src in layers then layers[e.src] else 0, maxLayer);
    RingsFollowLayers(0, if e.dst in layers then layers[e.dst] else 0, maxLayer);
  }

  /** On an acyclic dependency graph no kept edge is ever called an inverted dependency. */
  lemma AcyclicHasNoCritical(g: Graph<nat>, vs: set<nat>, layers: map<nat, nat>, maxLayer: nat, e: DepEdge)
    requires Within(Kept(g), vs) && Acyclic(g) && IsLayering(Kept(g), vs, layers) && IsMaxLayer(layers, maxLayer)
    requires (e.src, e.dst) in Kept(g)
    ensures EdgeVerdict(layers, maxLayer, e) != Critical
  {
    KeptIsAcyclic(g);
    CriticalExactly(Kept(g), vs, layers, maxLayer, e);
  }

  function GoodCount(layers: map<nat, nat>, maxLayer: nat, edges: seq<DepEdge>): nat {
    if edges == [] then 0
    else
      GoodCount(layers, maxLayer, edges[..|edges| - 1]) +
      if EdgeVerdict(layers, maxLayer, edges[|edges| - 1]) == Good then 1 else 0
  }

  /** The edges from one ring to the next ring inwards, by their places in the list. */
  function InwardEdges(layers: map<nat, nat>, maxLayer: nat, edges: seq<DepEdge>): set<nat> {
    set i: nat | i < |edges| && Ring(layers, maxLayer, edges[i].src) == Ring(layers, maxLayer, edges[i].dst) + 1
  }

  lemma {:induction false} GoodCounted(layers: map<nat, nat>, maxLayer: nat, edges: seq<DepEdge>)
    ensures GoodCount(layers, maxLayer, edges) == |InwardEdges(layers, maxLayer, edges)|
  {
    var all := InwardEdges(layers, maxLayer, edges);
    if edges == [] {
      assert all == {};
    } else {
      var n := |edges| - 1;
      var e := edges[n];
      GoodCounted(layers, maxLayer, edges[..n]);
      var front := InwardEdges(layers, maxLayer, edges[..n]);
      if Ring(layers, maxLayer, e.src) == Ring(layers, maxLayer, e.dst) + 1 {
        assert all == front + {n};
      } else {
        assert all == front;
      }
    }
  }

  lemma ScoreIsNearest(good: nat, total: nat)
    ensures var score, t := HealthScore(good, total), if total > 1 then total else 1;
            && 2 * (score * t) <= 2 * (100 * good) + t && 2 * (100 * good) <= 2 * (score * t) + t
            && (2 * (score * t) == 2 * (100 * good) + t || 2 * (100 * good) == 2 * (score * t) + t ==>
                  score % 2 == 0)
  {
    RoundIsNearest(100 * good, if total > 1 then total else 1);
  }

  lemma VerdictOfEdge(layers: map<nat, nat>, maxLayer: nat, e: DepEdge)
    requires IsMaxLayer(layers, maxLayer)
    ensures Told(Ring(layers, maxLayer, e.src), Ring(layers, maxLayer, e.dst), EdgeVerdict(layers, maxLayer, e))
  {
    VerdictsByRing(layers, maxLayer, e);
  }

  /** The verdict on an edge between two rings. */
  ghost predicate Told(src: int, dst: int, v: Verdict) {
    && (v == Good <==> src == dst + 1)
    && (v == Low <==> src == dst)
    && (v == Medium <==> src == dst + 2)
    && (v == High <==> src == dst + 3)
    && (v == Critical <==> src < dst)
  }

  method Judge(layers: map<nat, nat>, maxLayer: nat, reduced: seq<DepEdge>)
      returns (verdicts: seq<Verdict>, score: nat)
    ensures |verdicts| == |reduced|
    ensures forall i :: 0 <= i < |reduced| ==> verdicts[i] == EdgeVerdict(layers, maxLayer, reduced[i])
    ensures score == HealthScore(GoodCount(layers, maxLayer, reduced), |reduced|)
  {
    verdicts := [];
    var good, bad := 0, 0;
    for i := 0 to |reduced|
      invariant |verdicts| == i == good + bad
      invariant forall j :: 0 <= j < i ==> verdicts[j] == EdgeVerdict(layers, maxLayer, reduced[j])
      invariant good == GoodCount(layers, maxLayer, reduced[..i])
    {
      var v := EdgeVerdict(layers, maxLayer, reduced[i]);
      assert reduced[..i + 1][..i] == reduced[..i];
      if v == Good {
        good := good + 1;
      } else {
        bad := bad + 1;
      }
      verdicts := verdicts + [v];
    }
    assert reduced[..|reduced|] == reduced;
    score := HealthScore(good, good + bad);
  }

  lemma NoCriticalAmong(nodes: set<nat>, edges: seq<DepEdge>, reduced: seq<DepEdge>, layers: map<nat, nat>,
                        maxLayer: nat)
    requires EndsKnown(nodes, reduced) && Acyclic(EdgesOf(edges)) && EdgesOf(reduced) == Kept(EdgesOf(edges))
    requires IsLayering(Kept(EdgesOf(edges)), nodes, layers) && IsMaxLayer(layers, maxLayer)
    ensures forall e :: e in reduced ==> EdgeVerdict(layers, maxLayer, e) != Critical
  {
    forall e | e in reduced ensures EdgeVerdict(layers, maxLayer, e) != Critical {
      assert (e.src, e.dst) in EdgesOf(reduced);
      AcyclicHasNoCritical(EdgesOf(edges), nodes, layers, maxLayer, e);
    }
  }

  datatype Report =
    Report(reduced: seq<DepEdge>, layers: map<nat, nat>, maxLayer: nat, verdicts: seq<Verdict>, score: nat)

  /** The whole report: the edges kept, their layers, the verdict on each by the rings of its ends, and the
      score: a hundred times the share of the edges that lead to the next ring inwards, to the nearest whole
      number, the even one on a tie. There is no report exactly when the tail of an edge or the head of a kept
      edge was not declared. */
  method MakeReport(nodes: set<nat>, edges: seq<DepEdge>) returns (report: Option<Report>)
    ensures report.None? <==>
            !TailsKnown(nodes, edges) || !EndsKnown(nodes, Surviving(edges, Kept(EdgesOf(edges))))
    ensures report.Some? ==>
              var r, kept := report.value, Kept(EdgesOf(edges));
              && r.reduced == Surviving(edges, kept) && EdgesOf(r.reduced) == kept
              && IsLayering(kept, nodes, r.layers) && IsMaxLayer(r.layers, r.maxLayer)
              && |r.verdicts| == |r.reduced|
              && (forall i :: 0 <= i < |r.reduced| ==>
                    var e := r.reduced[i];
                    Told(Ring(r.layers, r.maxLayer, e.src), Ring(r.layers, r.maxLayer, e.dst), r.verdicts[i]))
              && (Acyclic(EdgesOf(edges)) ==> Critical !in r.verdicts)
    ensures report.Some? ==>
              var r := report.value;
              var g := |set i: nat | i < |r.reduced|
                                     && Ring(r.layers, r.maxLayer, r.reduced[i].src) ==
                                        Ring(r.layers, r.maxLayer, r.reduced[i].dst) + 1|;
              var t := if |r.reduced| > 1 then |r.reduced| else 1;
              && 2 * (r.score * t) <= 2 * (100 * g) + t && 2 * (100 * g) <= 2 * (r.score * t) + t
              && (2 * (r.score * t) == 2 * (100 * g) + t || 2 * (100 * g) == 2 * (r.score * t) + t ==>
                    r.score % 2 == 0)
  {
    var reduced := Reduce(nodes, edges);
    if reduced.None? {
      return None;
    }
    var layers := PeelLayers(nodes, reduced.value);
    if layers.None? {
      return None;
    }
    var maxLayer := MaxLayer(layers.value);
    var verdicts, score := Judge(layers.value, maxLayer, reduced.value);
    if Acyclic(EdgesOf(edges)) {
      NoCriticalAmong(nodes, edges, reduced.value, layers.value, maxLayer);
    }
    GoodCounted(layers.value, maxLayer, reduced.value);
    ScoreIsNearest(GoodCount(layers.value, maxLayer, reduced.value), |reduced.value|);
    forall i | 0 <= i < |reduced.value|
      ensures var e := reduced.value[i];
              Told(Ring(layers.value, maxLayer, e.src), Ring(layers.value, maxLayer, e.dst), verdicts[i])
    {
      VerdictOfEdge(layers.value, maxLayer, reduced.value[i]);
    }
    report := Some(Report(reduced.value, layers.value, maxLayer, verdicts, score));
  }

  function HealthScore(good: nat, total: nat): nat {
    RoundHalfEven(100 * good, if total > 1 then total else 1)
  }

  /** A perfect score does not mean no violations: it is given exactly when there is a good edge and at
      most one edge in two hundred is bad. A graph without kept edges scores 0. */
  lemma PerfectScoreExactly(good: nat, bad: nat)
    ensures HealthScore(good, good + bad) == 100 <==> good > 0 && 200 * bad <= good + bad
  {
    var t := good + bad;
    if t > 0 {
      if 200 * bad <= t {
        QuotientIs(100 * good, t, if bad == 0 then 100 else 99, if bad == 0 then 0 else t - 100 * bad);
      } else {
        RoundIsNearest(100 * good, t);
      }
    }
  }

  lemma QuotientIs(p: nat, q: nat, f: nat, r: nat)
    requires q > r && p == f * q + r
    ensures p / q == f && p % q == r
  {
    assert p == (p / q) * q + p % q;
    if p / q < f {
      Spread(p / q, f - p / q, q);
    } else if p / q > f {
      Spread(f, p / q - f, q);
    }
  }
}
