/** The order Kahn's algorithm gives when every released batch is sorted, as a function of the set of
    names and the set of dependency edges alone. An edge (x, d) says that x depends on d. */
module KahnOrder {
  import opened Names
  import opened Graphs

  ghost predicate Ready(g: Graph<string>, x: string, placed: set<string>) {
    forall d :: (x, d) in g ==> d in placed
  }

  /** `placed` is already in the result and `queue` is waiting: together the names that are ready. */
  ghost predicate InProgress(g: Graph<string>, names: set<string>, placed: seq<string>, queue: seq<string>) {
    && NoRepeats(placed + queue)
    && (forall x :: x in placed + queue <==> x in names && Ready(g, x, Elements(placed)))
  }

  ghost function Released(g: Graph<string>, names: set<string>, placed: set<string>, n: string): set<string> {
    set x | x in names && Ready(g, x, placed + {n}) && !Ready(g, x, placed)
  }

  ghost function Place(g: Graph<string>, names: set<string>, placed: seq<string>, queue: seq<string>): seq<string>
    requires InProgress(g, names, placed, queue)
    decreases names - Elements(placed)
  {
    if queue == [] then placed
    else
      var n := queue[0];
      OneMorePlaced(g, names, placed, queue);
      Place(g, names, placed + [n], queue[1..] + InOrder(Released(g, names, Elements(placed), n)))
  }

  lemma OneMorePlaced(g: Graph<string>, names: set<string>, placed: seq<string>, queue: seq<string>)
    requires InProgress(g, names, placed, queue) && queue != []
    ensures var n := queue[0];
            InProgress(g, names, placed + [n], queue[1..] + InOrder(Released(g, names, Elements(placed), n)))
    ensures names - Elements(placed + [queue[0]]) < names - Elements(placed)
  {
    var b := InOrder(Released(g, names, Elements(placed), queue[0]));
    InOrderMembers(Released(g, names, Elements(placed), queue[0]));
    PlacedSoFar(g, names, placed, queue, b);
    BatchIsNew(g, names, placed, queue, b);
    Appended(placed + queue, b);
    Regrouped(placed, queue, b);
    FrontIsNew(names, placed, queue);
  }

  lemma Regrouped(placed: seq<string>, queue: seq<string>, b: seq<string>)
    requires queue != []
    ensures placed + [queue[0]] + (queue[1..] + b) == placed + queue + b
  {
  }

  lemma FrontIsNew(names: set<string>, placed: seq<string>, queue: seq<string>)
    requires NoRepeats(placed + queue) && queue != [] && forall x :: x in placed + queue ==> x in names
    ensures names - Elements(placed + [queue[0]]) < names - Elements(placed)
  {
    var n := queue[0];
    assert (placed + queue)[|placed|] == n;
    forall i | 0 <= i < |placed| ensures placed[i] != n {
      assert (placed + queue)[i] == placed[i];
    }
    assert Elements(placed + [n]) == Elements(placed) + {n};
    assert n in names - Elements(placed);
  }

  lemma BatchIsNew(g: Graph<string>, names: set<string>, placed: seq<string>, queue: seq<string>, b: seq<string>)
    requires InProgress(g, names, placed, queue) && queue != []
    requires forall x :: x in b <==> x in Released(g, names, Elements(placed), queue[0])
    ensures forall x :: x in b ==> x !in placed + queue
  {
  }

  lemma PlacedSoFar(g: Graph<string>, names: set<string>, placed: seq<string>, queue: seq<string>, b: seq<string>)
    requires InProgress(g, names, placed, queue) && queue != []
    requires forall x :: x in b <==> x in Released(g, names, Elements(placed), queue[0])
    ensures forall x :: x in placed + queue + b <==> x in names && Ready(g, x, Elements(placed + [queue[0]]))
  {
    assert Elements(placed + [queue[0]]) == Elements(placed) + {queue[0]};
    forall x ensures x in placed + queue + b <==> x in placed + queue || x in b {
    }
  }

  lemma Appended(a: seq<string>, b: seq<string>)
    requires NoRepeats(a) && NoRepeats(b) && forall x :: x in b ==> x !in a
    ensures NoRepeats(a + b)
  {
    forall i, j | 0 <= i < j < |a + b| ensures (a + b)[i] != (a + b)[j] {
      if i < |a| <= j {
        assert b[j - |a|] in b;
      }
    }
  }

  ghost function Order(g: Graph<string>, names: set<string>): seq<string> {
    var start := set x | x in names && Ready(g, x, {});
    Started(g, names);
    Place(g, names, [], InOrder(start))
  }

  lemma Started(g: Graph<string>, names: set<string>)
    ensures InProgress(g, names, [], InOrder(set x | x in names && Ready(g, x, {})))
  {
    var start := set x | x in names && Ready(g, x, {});
    InOrderMembers(start);
    assert [] + InOrder(start) == InOrder(start);
    assert Elements<string>([]) == {};
  }

  /** `x` became ready before `y`, or both did at the same time and `x` is the smaller name: told by the first
      `k` names placed. */
  ghost predicate ServedBefore(g: Graph<string>, s: seq<string>, k: nat, x: string, y: string) {
    && k <= |s| && Ready(g, x, Elements(s[..k]))
    && (Ready(g, y, Elements(s[..k])) ==>
          && Less(x, y)
          && (k > 0 ==> !Ready(g, x, Elements(s[..k - 1])) && !Ready(g, y, Elements(s[..k - 1]))))
  }

  /** Of any two names in `all` the one that became ready earlier comes first; those that became ready
      together are in the order of their names. */
  ghost predicate FirstComeFirstServed(g: Graph<string>, placed: seq<string>, all: seq<string>) {
    forall i, j :: 0 <= i < j < |all| ==> Served(g, placed, all[i], all[j])
  }

  ghost predicate Served(g: Graph<string>, s: seq<string>, x: string, y: string) {
    exists k :: ServedBefore(g, s, k, x, y)
  }

  lemma StaysServed(g: Graph<string>, placed: seq<string>, n: string, x: string, y: string)
    requires Served(g, placed, x, y)
    ensures Served(g, placed + [n], x, y)
  {
    var k: nat :| ServedBefore(g, placed, k, x, y);
    assert (placed + [n])[..k] == placed[..k] && (k > 0 ==> (placed + [n])[..k - 1] == placed[..k - 1]);
    assert ServedBefore(g, placed + [n], k, x, y);
  }

  lemma ServedEarlier(g: Graph<string>, placed: seq<string>, n: string, x: string, y: string)
    requires Ready(g, x, Elements(placed)) && !Ready(g, y, Elements(placed))
    ensures Served(g, placed + [n], x, y)
  {
    assert (placed + [n])[..|placed|] == placed;
    assert ServedBefore(g, placed + [n], |placed|, x, y);
  }

  lemma ServedTogether(g: Graph<string>, placed: seq<string>, n: string, x: string, y: string)
    requires Ready(g, x, Elements(placed + [n])) && Less(x, y)
    requires !Ready(g, x, Elements(placed)) && !Ready(g, y, Elements(placed))
    ensures Served(g, placed + [n], x, y)
  {
    var now := placed + [n];
    assert now[..|placed|] == placed && now[..|now|] == now;
    assert ServedBefore(g, now, |now|, x, y);
  }

  lemma PairIsServed(g: Graph<string>, placed: seq<string>, queue: seq<string>, n: string, b: seq<string>, i: nat,
                     j: nat)
    requires i < j < |placed + queue + b|
    requires FirstComeFirstServed(g, placed, placed + queue)
    requires forall x :: x in placed + queue ==> Ready(g, x, Elements(placed))
    requires forall x :: x in b ==> Ready(g, x, Elements(placed + [n])) && !Ready(g, x, Elements(placed))
    requires Ascending(b) && NoRepeats(b)
    ensures Served(g, placed + [n], (placed + queue + b)[i], (placed + queue + b)[j])
  {
    var before, all := placed + queue, placed + queue + b;
    if j < |before| {
      assert all[i] == before[i] && all[j] == before[j];
      StaysServed(g, placed, n, all[i], all[j]);
    } else {
      assert all[j] == b[j - |before|] && b[j - |before|] in b;
      if i < |before| {
        assert all[i] == before[i] && before[i] in before;
        ServedEarlier(g, placed, n, all[i], all[j]);
      } else {
        assert all[i] == b[i - |before|] && b[i - |before|] in b && AtMost(b[i - |before|], b[j - |before|]);
        ServedTogether(g, placed, n, all[i], all[j]);
      }
    }
  }

  lemma BatchIsServed(g: Graph<string>, names: set<string>, placed: seq<string>, queue: seq<string>)
    requires InProgress(g, names, placed, queue) && queue != []
    requires FirstComeFirstServed(g, placed, placed + queue)
    ensures var n := queue[0];
            var b := InOrder(Released(g, names, Elements(placed), n));
            FirstComeFirstServed(g, placed + [n], placed + queue + b)
  {
    var n := queue[0];
    var released := Released(g, names, Elements(placed), n);
    var b := InOrder(released);
    InOrderMembers(released);
    assert Elements(placed + [n]) == Elements(placed) + {n};
    assert forall x :: x in b ==> x in released;
    forall i, j | 0 <= i < j < |placed + queue + b|
      ensures Served(g, placed + [n], (placed + queue + b)[i], (placed + queue + b)[j])
    {
      PairIsServed(g, placed, queue, n, b, i, j);
    }
  }

  lemma {:induction false} PlaceIsServed(g: Graph<string>, names: set<string>, placed: seq<string>, queue: seq<string>)
    requires InProgress(g, names, placed, queue) && FirstComeFirstServed(g, placed, placed + queue)
    ensures var r := Place(g, names, placed, queue);
            FirstComeFirstServed(g, r, r)
    decreases names - Elements(placed)
  {
    if queue != [] {
      var n := queue[0];
      var b := InOrder(Released(g, names, Elements(placed), n));
      OneMorePlaced(g, names, placed, queue);
      BatchIsServed(g, names, placed, queue);
      Regrouped(placed, queue, b);
      PlaceIsServed(g, names, placed + [n], queue[1..] + b);
    } else {
      assert placed + queue == placed;
    }
  }

  lemma StartIsServed(g: Graph<string>, queue: seq<string>)
    requires Ascending(queue) && NoRepeats(queue) && forall x :: x in queue ==> Ready(g, x, {})
    ensures FirstComeFirstServed(g, [], queue)
  {
    assert Elements<string>([]) == {};
    forall i, j | 0 <= i < j < |queue| ensures Served(g, [], queue[i], queue[j]) {
      assert queue[i] in queue && queue[j] in queue && AtMost(queue[i], queue[j]);
      assert ServedBefore(g, [], 0, queue[i], queue[j]);
    }
  }

  /** The order serves names in the order in which they become ready. */
  lemma OrderIsFirstCome(g: Graph<string>, names: set<string>)
    ensures FirstComeFirstServed(g, Order(g, names), Order(g, names))
  {
    var start := set x | x in names && Ready(g, x, {});
    Started(g, names);
    InOrderMembers(start);
    StartIsServed(g, InOrder(start));
    assert [] + InOrder(start) == InOrder(start);
    PlaceIsServed(g, names, [], InOrder(start));
  }

  /** Everything in `s` comes after all it depends on. */
  ghost predicate DependenciesFirst(g: Graph<string>, s: seq<string>) {
    forall i :: 0 <= i < |s| ==> Ready(g, s[i], Elements(s[..i]))
  }

  lemma {:induction false} PlaceIsSound(g: Graph<string>, names: set<string>, placed: seq<string>, queue: seq<string>)
    requires InProgress(g, names, placed, queue) && DependenciesFirst(g, placed)
    ensures var r := Place(g, names, placed, queue);
            InProgress(g, names, r, []) && DependenciesFirst(g, r)
    decreases names - Elements(placed)
  {
    if queue != [] {
      var n := queue[0];
      OneMorePlaced(g, names, placed, queue);
      assert n in placed + queue by {
        assert (placed + queue)[|placed|] == n;
      }
      forall i | 0 <= i < |placed + [n]| ensures Ready(g, (placed + [n])[i], Elements((placed + [n])[..i])) {
        if i < |placed| {
          assert (placed + [n])[..i] == placed[..i];
        } else {
          assert (placed + [n])[..i] == placed;
        }
      }
      PlaceIsSound(g, names, placed + [n], queue[1..] + InOrder(Released(g, names, Elements(placed), n)));
    } else {
      assert placed + queue == placed + [];
    }
  }

  /** The order repeats no name, puts every name behind what it depends on, and holds exactly the names
      that cannot reach a dependency cycle. */
  lemma OrderIsTopological(g: Graph<string>, names: set<string>)
    requires Within(g, names)
    ensures var r := Order(g, names);
            && NoRepeats(r)
            && DependenciesFirst(g, r)
            && forall x :: x in r <==> x in names && !ReachesCycle(g, x)
  {
    Started(g, names);
    PlaceIsSound(g, names, [], InOrder(set x | x in names && Ready(g, x, {})));
    var r := Order(g, names);
    assert r + [] == r;
    forall x | x in names ensures x in r <==> !ReachesCycle(g, x) {
      if x in r {
        PlacedReachNoCycle(g, r, x);
      } else {
        LeftOverReachesCycle(g, names, r, x);
      }
    }
  }

  lemma LeftOverReachesCycle(g: Graph<string>, names: set<string>, r: seq<string>, x: string)
    requires Within(g, names) && InProgress(g, names, r, []) && x in names && x !in r
    ensures ReachesCycle(g, x)
  {
    var rest := names - Elements(r);
    assert r + [] == r;
    forall y | y in rest ensures HasEdgeInto(g, rest, y) {
      assert y !in r + [];
      var d :| (y, d) in g && d !in Elements(r);
      assert (y, d).1 in names;
    }
    EndlessWalkFindsCycle(g, names, rest, x);
  }

  lemma PlacedReachNoCycle(g: Graph<string>, r: seq<string>, x: string)
    requires NoRepeats(r) && DependenciesFirst(g, r) && x in r
    ensures !ReachesCycle(g, x)
  {
    var rank := Positions(r);
    forall e | e in g && e.0 in Elements(r) ensures e.1 in r && rank[e.1] < rank[e.0] {
      var i := rank[e.0];
      assert (r[i], e.1) in g;
      assert Ready(g, r[i], Elements(r[..i]));
      var j :| 0 <= j < i && r[..i][j] == e.1;
      assert r[j] == e.1;
    }
    FallingRankHasNoCycle(g, Elements(r), rank, x);
  }

  ghost function Positions(r: seq<string>): (m: map<string, nat>)
    requires NoRepeats(r)
    ensures m.Keys == Elements(r)
    ensures forall i :: 0 <= i < |r| ==> r[i] in m && m[r[i]] == i
    ensures forall x :: x in m ==> m[x] < |r| && r[m[x]] == x
  {
    if r == [] then map[]
    else
      var front, last := r[..|r| - 1], r[|r| - 1];
      assert r == front + [last];
      Positions(front)[last := |r| - 1]
  }

  /** On an acyclic workspace the order is a permutation of the names. */
  lemma AcyclicOrdersEverything(g: Graph<string>, names: set<string>)
    requires Within(g, names) && Acyclic(g)
    ensures multiset(Order(g, names)) == multiset(names)
  {
    OrderIsTopological(g, names);
    var r := Order(g, names);
    RepeatFreeMultiset(r);
    assert Elements(r) == names;
  }
}
