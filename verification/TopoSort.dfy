/** Ordering the workspace members so that dependencies come first. */
module TopoSort {
  import opened Names
  import opened Graphs
  import opened KahnOrder

  datatype Member = Member(dir: string, pkg: string, deps: seq<string>)

  ghost function PackageNames(members: seq<Member>): set<string> {
    set m | m in members :: m.pkg
  }

  /** (x, d): some member named x lists d, and d is a member too. */
  ghost function WorkspaceEdges(members: seq<Member>): Graph<string> {
    set m, d | m in members && d in m.deps && d in PackageNames(members) :: (m.pkg, d)
  }

  /** One (package, dependency) pair per listed dependency, in the order they are met. */
  type Links = seq<(string, string)>

  /** How many links out of `x` lead to something not placed yet. */
  ghost function Waiting(links: Links, x: string, placed: set<string>): nat {
    if links == [] then 0
    else
      var (y, d) := links[|links| - 1];
      Waiting(links[..|links| - 1], x, placed) + if y == x && d !in placed then 1 else 0
  }

  ghost function LinksTo(links: Links, d: string): seq<string> {
    if links == [] then []
    else
      var (y, e) := links[|links| - 1];
      LinksTo(links[..|links| - 1], d) + if e == d then [y] else []
  }

  lemma {:induction false} WaitingIsZero(links: Links, x: string, placed: set<string>)
    ensures Waiting(links, x, placed) == 0 <==> forall d :: (x, d) in links ==> d in placed
  {
    if links != [] {
      var front, last := links[..|links| - 1], links[|links| - 1];
      assert links == front + [last];
      assert forall d :: (x, d) in links <==> (x, d) in front || (x, d) == last;
      WaitingIsZero(front, x, placed);
    }
  }

  /** Placing `n` takes off as many waiting links of `x` as `x` has links to `n`. */
  lemma {:induction false} PlacingReleases(links: Links, x: string, placed: set<string>, n: string)
    requires n !in placed
    ensures Waiting(links, x, placed) == Waiting(links, x, placed + {n}) + multiset(LinksTo(links, n))[x]
  {
    if links != [] {
      PlacingReleases(links[..|links| - 1], x, placed, n);
    }
  }

  lemma {:induction false} LinksToMembers(links: Links, d: string, x: string)
    ensures x in LinksTo(links, d) <==> (x, d) in links
  {
    if links != [] {
      var front, last := links[..|links| - 1], links[|links| - 1];
      assert links == front + [last];
      assert (x, d) in links <==> (x, d) in front || (x, d) == last;
      LinksToMembers(front, d, x);
    }
  }

  function Listed(m: map<string, seq<string>>, d: string): seq<string> {
    if d in m then m[d] else []
  }

  ghost predicate DegreesCount(links: Links, inDegree: map<string, nat>) {
    forall x :: x in inDegree ==> inDegree[x] == Waiting(links, x, {})
  }

  ghost predicate DependentsList(links: Links, dependents: map<string, seq<string>>) {
    forall d :: Listed(dependents, d) == LinksTo(links, d)
  }

  ghost predicate LinksStartIn(links: Links, names: set<string>) {
    forall l :: l in links ==> l.0 in names
  }

  lemma OneMoreDegree(links: Links, inDegree: map<string, nat>, x: string, d: string)
    requires DegreesCount(links, inDegree) && x in inDegree
    ensures DegreesCount(links + [(x, d)], inDegree[x := inDegree[x] + 1])
  {
    assert (links + [(x, d)])[..|links|] == links;
  }

  lemma OneMoreDependent(links: Links, dependents: map<string, seq<string>>, x: string, d: string)
    requires DependentsList(links, dependents)
    ensures DependentsList(links + [(x, d)], dependents[d := Listed(dependents, d) + [x]])
  {
    assert (links + [(x, d)])[..|links|] == links;
    forall e ensures LinksTo(links + [(x, d)], e) == if e == d then LinksTo(links, d) + [x] else LinksTo(links, e) {
    }
  }

  lemma OneMoreLink(links: Links, names: set<string>, x: string, d: string)
    requires LinksStartIn(links, names) && x in names
    ensures LinksStartIn(links + [(x, d)], names)
    ensures forall l :: l in links + [(x, d)] <==> l in links || l == (x, d)
  {
  }

  lemma {:induction false} NoLinksYet(links: Links, x: string)
    requires forall l :: l in links ==> l.0 != x
    ensures Waiting(links, x, {}) == 0
  {
    if links != [] {
      assert links == links[..|links| - 1] + [links[|links| - 1]];
      NoLinksYet(links[..|links| - 1], x);
    }
  }

  /** The links of the members up to `i`, and of the next one up to its dependency `j`. */
  ghost predicate LinksSoFar(links: Links, members: seq<Member>, names: set<string>, i: nat, j: nat)
    requires i <= |members| && (i == |members| ==> j == 0) && (i < |members| ==> j <= |members[i].deps|)
  {
    forall x, d :: (x, d) in links <==>
      || (exists m :: m in members[..i] && m.pkg == x && d in m.deps && d in names)
      || (j > 0 && x == members[i].pkg && d in members[i].deps[..j] && d in names)
  }

  lemma NextDependency(links: Links, members: seq<Member>, names: set<string>, i: nat, j: nat)
    requires i < |members| && j < |members[i].deps| && LinksSoFar(links, members, names, i, j)
    ensures var m := members[i];
            LinksSoFar(if m.deps[j] in names then links + [(m.pkg, m.deps[j])] else links, members, names, i, j + 1)
  {
    var m := members[i];
    assert m.deps[..j + 1] == m.deps[..j] + [m.deps[j]];
    if m.deps[j] in names {
      OneMoreLink(links, {m.pkg} + set l | l in links :: l.0, m.pkg, m.deps[j]);
    }
  }

  lemma NextMember(links: Links, members: seq<Member>, names: set<string>, i: nat)
    requires i < |members| && LinksSoFar(links, members, names, i, |members[i].deps|)
    ensures LinksSoFar(links, members, names, i + 1, 0)
  {
    var m := members[i];
    assert members[..i + 1] == members[..i] + [m];
    assert m.deps[..|m.deps|] == m.deps;
  }

  method CountLinks(members: seq<Member>, names: set<string>)
      returns (inDegree: map<string, nat>, dependents: map<string, seq<string>>, ghost links: Links)
    requires names == PackageNames(members)
    ensures DegreesCount(links, inDegree) && DependentsList(links, dependents) && inDegree.Keys == names
    ensures (set l | l in links) == WorkspaceEdges(members)
  {
    inDegree, dependents, links := map[], map[], [];
    for i := 0 to |members|
      invariant DegreesCount(links, inDegree) && DependentsList(links, dependents)
      invariant LinksStartIn(links, inDegree.Keys) && inDegree.Keys == PackageNames(members[..i])
      invariant LinksSoFar(links, members, names, i, 0)
    {
      var m := members[i];
      NextName(members, i);
      if m.pkg !in inDegree {
        NoLinksYet(links, m.pkg);
        inDegree := inDegree[m.pkg := 0];
      }
      for j := 0 to |m.deps|
        invariant DegreesCount(links, inDegree) && DependentsList(links, dependents)
        invariant LinksStartIn(links, inDegree.Keys) && inDegree.Keys == PackageNames(members[..i + 1])
        invariant m.pkg in inDegree && LinksSoFar(links, members, names, i, j)
      {
        var dep := m.deps[j];
        NextDependency(links, members, names, i, j);
        if dep in names {
          OneMoreDegree(links, inDegree, m.pkg, dep);
          OneMoreDependent(links, dependents, m.pkg, dep);
          OneMoreLink(links, inDegree.Keys, m.pkg, dep);
          inDegree := inDegree[m.pkg := inDegree[m.pkg] + 1];
          dependents := dependents[dep := Listed(dependents, dep) + [m.pkg]];
          links := links + [(m.pkg, dep)];
        }
      }
      NextMember(links, members, names, i);
    }
    AllLinks(links, members, names);
  }

  lemma NextName(members: seq<Member>, i: nat)
    requires i < |members|
    ensures PackageNames(members[..i + 1]) == PackageNames(members[..i]) + {members[i].pkg}
  {
    assert members[..i + 1] == members[..i] + [members[i]];
  }

  lemma AllLinks(links: Links, members: seq<Member>, names: set<string>)
    requires names == PackageNames(members) && LinksSoFar(links, members, names, |members|, 0)
    ensures (set l | l in links) == WorkspaceEdges(members)
    ensures PackageNames(members[..|members|]) == names
  {
    assert members[..|members|] == members;
    forall e ensures e in links <==> e in WorkspaceEdges(members) {
      assert e == (e.0, e.1);
    }
  }

  lemma SplitAt(deps: seq<string>, j: nat)
    requires j < |deps|
    ensures forall x :: x in deps[..j + 1] <==> x in deps[..j] || x == deps[j]
    ensures forall x :: x in deps[j..] <==> x in deps[j + 1..] || x == deps[j]
    ensures forall x :: multiset(deps[j..])[x] == multiset(deps[j + 1..])[x] + if x == deps[j] then 1 else 0
  {
    assert deps[..j + 1] == deps[..j] + [deps[j]];
    assert deps[j..] == [deps[j]] + deps[j + 1..];
  }

  /** What is still to be taken off after the first `j` packages of `deps`. */
  ghost predicate StillOwed(degrees: map<string, nat>, left: map<string, nat>, deps: seq<string>, j: nat)
    requires j <= |deps|
  {
    degrees.Keys == left.Keys && forall x :: x in left ==> degrees[x] == left[x] + multiset(deps[j..])[x]
  }

  ghost predicate ReleasedSoFar(next: seq<string>, left: map<string, nat>, deps: seq<string>, j: nat)
    requires j <= |deps|
  {
    NoRepeats(next) && forall x :: x in next <==> x in deps[..j] && x !in deps[j..] && x in left && left[x] == 0
  }

  lemma OneTakenOff(degrees: map<string, nat>, left: map<string, nat>, deps: seq<string>, j: nat)
    requires j < |deps| && deps[j] in left && StillOwed(degrees, left, deps, j)
    ensures degrees[deps[j]] > 0 && StillOwed(degrees[deps[j] := degrees[deps[j]] - 1], left, deps, j + 1)
  {
    SplitAt(deps, j);
  }

  lemma OneReleased(degrees: map<string, nat>, left: map<string, nat>, next: seq<string>, deps: seq<string>, j: nat)
    requires j < |deps| && deps[j] in left
    requires StillOwed(degrees, left, deps, j + 1) && ReleasedSoFar(next, left, deps, j)
    ensures ReleasedSoFar(if degrees[deps[j]] == 0 then next + [deps[j]] else next, left, deps, j + 1)
  {
    SplitAt(deps, j);
    assert deps[j] !in next;
    NoRepeatsAppend(next, deps[j]);
    assert deps[j] in deps[j + 1..] <==> multiset(deps[j + 1..])[deps[j]] > 0;
  }

  /** Take one waiting link off every package in `deps`; the packages left with none are released. */
  method Release(inDegree: map<string, nat>, deps: seq<string>, ghost left: map<string, nat>)
      returns (after: map<string, nat>, next: seq<string>)
    requires StillOwed(inDegree, left, deps, 0) && forall x :: x in deps ==> x in inDegree
    ensures after == left
    ensures NoRepeats(next) && forall x :: x in next <==> x in deps && left[x] == 0
  {
    after, next := inDegree, [];
    for j := 0 to |deps|
      invariant StillOwed(after, left, deps, j) && ReleasedSoFar(next, left, deps, j)
    {
      var dep := deps[j];
      if dep in after {
        OneTakenOff(after, left, deps, j);
        after := after[dep := after[dep] - 1];
        OneReleased(after, left, next, deps, j);
        if after[dep] == 0 {
          next := next + [dep];
        }
      }
    }
    assert deps[..|deps|] == deps && deps[|deps|..] == [];
  }

  ghost function LeftAfter(links: Links, names: set<string>, placed: set<string>): map<string, nat> {
    map x | x in names :: Waiting(links, x, placed)
  }

  lemma StartingDegrees(links: Links, inDegree: map<string, nat>)
    requires DegreesCount(links, inDegree)
    ensures inDegree == LeftAfter(links, inDegree.Keys, Elements([]))
  {
    assert Elements<string>([]) == {};
  }

  lemma ReadyMeansNoneWaiting(links: Links, g: Graph<string>, placed: set<string>)
    requires g == set l | l in links
    ensures forall x :: Ready(g, x, placed) <==> Waiting(links, x, placed) == 0
  {
    forall x ensures Ready(g, x, placed) <==> Waiting(links, x, placed) == 0 {
      WaitingIsZero(links, x, placed);
    }
  }

  /** The packages whose last waiting link was to `n` are the ones the order releases. */
  lemma ReleasedByLinks(links: Links, g: Graph<string>, names: set<string>, placed: set<string>, n: string)
    requires g == (set l | l in links) && Within(g, names) && n !in placed
    ensures forall x :: x in Released(g, names, placed, n) <==>
                          x in LinksTo(links, n) && Waiting(links, x, placed + {n}) == 0
  {
    ReadyMeansNoneWaiting(links, g, placed + {n});
    forall x ensures x in Released(g, names, placed, n) <==>
                       x in LinksTo(links, n) && Waiting(links, x, placed + {n}) == 0
    {
      LinksToMembers(links, n, x);
      if (x, n) in links {
        assert (x, n) in g;
        assert (x, n).0 in names;
      }
    }
  }

  lemma BatchSorted(next: seq<string>, batch: set<string>)
    requires NoRepeats(next) && forall x :: x in next <==> x in batch
    ensures Sorted(next) == InOrder(batch)
  {
    SortedListing(next, batch);
  }

  lemma EdgesJoinMembers(members: seq<Member>)
    ensures Within(WorkspaceEdges(members), PackageNames(members))
  {
  }

  method TopoSortMembers(members: seq<Member>) returns (result: seq<string>)
    ensures result == Order(WorkspaceEdges(members), PackageNames(members))
    ensures NoRepeats(result) && DependenciesFirst(WorkspaceEdges(members), result)
    ensures FirstComeFirstServed(WorkspaceEdges(members), result, result)
    ensures forall x :: x in result <==> x in PackageNames(members) && !ReachesCycle(WorkspaceEdges(members), x)
  {
    ghost var g := WorkspaceEdges(members);
    var names := set m | m in members :: m.pkg;
    var inDegree, dependents, links := CountLinks(members, names);
    EdgesJoinMembers(members);
    OrderIsTopological(g, names);
    OrderIsFirstCome(g, names);
    ReadyMeansNoneWaiting(links, g, {});
    var free := Unordered(set x | x in inDegree && inDegree[x] == 0);
    var queue := Sorted(free);
    SortedListing(free, set x | x in names && Ready(g, x, {}));
    Started(g, names);
    StartingDegrees(links, inDegree);
    result := [];
    while queue != []
      invariant InProgress(g, names, result, queue)
      invariant Place(g, names, result, queue) == Order(g, names)
      invariant inDegree == LeftAfter(links, names, Elements(result))
      decreases names - Elements(result)
    {
      var name := queue[0];
      OneMorePlaced(g, names, result, queue);
      ghost var placed := Elements(result);
      NotYetPlaced(result, queue);
      ElementsAppend(result, name);
      var next;
      inDegree, next := Unblock(inDegree, dependents, name, links, g, names, placed);
      queue := queue[1..] + Sorted(next);
      result := result + [name];
    }
  }

  lemma NotYetPlaced(placed: seq<string>, queue: seq<string>)
    requires NoRepeats(placed + queue) && queue != []
    ensures queue[0] !in Elements(placed)
  {
    forall i | 0 <= i < |placed| ensures placed[i] != queue[0] {
      assert (placed + queue)[i] == placed[i] && (placed + queue)[|placed|] == queue[0];
    }
  }

  method Unblock(inDegree: map<string, nat>, dependents: map<string, seq<string>>, name: string,
                 ghost links: Links, ghost g: Graph<string>, ghost names: set<string>, ghost placed: set<string>)
      returns (after: map<string, nat>, next: seq<string>)
    requires inDegree == LeftAfter(links, names, placed) && Listed(dependents, name) == LinksTo(links, name)
    requires g == (set l | l in links) && Within(g, names) && name !in placed
    ensures after == LeftAfter(links, names, placed + {name})
    ensures Sorted(next) == InOrder(Released(g, names, placed, name))
  {
    ghost var left := LeftAfter(links, names, placed + {name});
    assert LinksTo(links, name)[0..] == LinksTo(links, name);
    forall x | x in names ensures inDegree[x] == left[x] + multiset(LinksTo(links, name))[x] {
      PlacingReleases(links, x, placed, name);
    }
    forall x | x in LinksTo(links, name) ensures x in names {
      LinksToMembers(links, name, x);
      assert (x, name) in g;
      assert (x, name).0 in names;
    }
    after, next := Release(inDegree, Listed(dependents, name), left);
    ReleasedByLinks(links, g, names, placed, name);
    BatchSorted(next, Released(g, names, placed, name));
  }

  /** Any rearrangement of the member list gives the same order, whatever order the hash maps use. */
  lemma OrderIgnoresArrangement(members: seq<Member>, others: seq<Member>)
    requires multiset(members) == multiset(others)
    ensures Order(WorkspaceEdges(members), PackageNames(members)) == Order(WorkspaceEdges(others), PackageNames(others))
  {
    forall m ensures m in members <==> m in others {
      assert m in multiset(members) <==> m in multiset(others);
    }
    assert PackageNames(members) == PackageNames(others);
    assert WorkspaceEdges(members) == WorkspaceEdges(others);
  }
}
