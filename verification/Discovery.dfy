/** Two ways to build the propagation table: from discovered dependency edges, and from the members'
    own dependency lists. */
module Discovery {
  import opened Names
  import opened Graphs
  import opened TopoSort
  import opened Propagation

  type Grouped = map<string, seq<string>>

  ghost function Pairs(m: Grouped): Graph<string> {
    set s, d | s in m && d in m[s] :: (s, d)
  }

  ghost predicate NoneEmpty(m: Grouped) {
    forall s :: s in m ==> m[s] != []
  }

  function Push(m: Grouped, s: string, d: string): (r: Grouped)
    ensures Pairs(r) == Pairs(m) + {(s, d)} && r == m[s := Listed(m, s) + [d]]
    ensures NoneEmpty(m) ==> NoneEmpty(r)
  {
    var r := m[s := Listed(m, s) + [d]];
    assert forall t, e :: (t, e) in Pairs(r) <==> (t, e) in Pairs(m) || (t, e) == (s, d);
    r
  }

  ghost predicate SourcesAscend(table: seq<Entry>) {
    forall i, j :: 0 <= i < j < |table| ==> Less(table[i].source, table[j].source)
  }

  /** Keep the first of each run of equal names. */
  function Dedup(s: seq<string>): (r: seq<string>)
    requires Ascending(s)
    ensures StrictlyAscending(r) && Elements(r) == Elements(s)
    ensures r == [] <==> s == []
  {
    if |s| <= 1 then s
    else
      var last, front := s[|s| - 1], s[..|s| - 1];
      assert s == front + [last];
      var r := Dedup(front);
      ElementsAppend(front, last);
      if front[|front| - 1] == last then r
      else
        LastIsNew(front, r, last);
        ElementsAppend(r, last);
        r + [last]
  }

  lemma LastIsNew(front: seq<string>, r: seq<string>, last: string)
    requires Ascending(front + [last]) && front != [] && front[|front| - 1] != last
    requires StrictlyAscending(r) && Elements(r) == Elements(front)
    ensures StrictlyAscending(r + [last])
  {
    var s := front + [last];
    forall i | 0 <= i < |r| ensures Less(r[i], last) {
      assert r[i] in Elements(front);
      var k :| 0 <= k < |front| && front[k] == r[i];
      assert AtMost(s[k], s[|front| - 1]) || k == |front| - 1;
      assert AtMost(s[|front| - 1], s[|front|]);
      if front[k] != front[|front| - 1] {
        LessIsTransitive(front[k], front[|front| - 1], last);
      }
    }
  }

  function Tidy(sortList: bool, s: seq<string>): (r: seq<string>)
    ensures Elements(r) == Elements(s) && (s == [] <==> r == [])
    ensures sortList ==> StrictlyAscending(r)
  {
    SortedElements(s);
    assert multiset(s) == multiset(Sorted(s));
    if sortList then Dedup(Sorted(s)) else s
  }

  /** A map read out in the order of its keys. */
  method Tabulate(m: Grouped, sortLists: bool) returns (table: seq<Entry>)
    ensures SourcesAscend(table) && Rules(table) == Pairs(m)
    ensures !sortLists ==> forall e :: e in table ==> e.source in m && e.dependents == m[e.source]
    ensures NoneEmpty(m) ==> forall e :: e in table ==> e.dependents != []
    ensures sortLists ==> forall e :: e in table ==> StrictlyAscending(e.dependents)
  {
    var keys := KeysInOrder(m);
    table := seq(|keys|, k requires 0 <= k < |keys| && keys[k] in m => Entry(keys[k], Tidy(sortLists, m[keys[k]])));
    TableOfMap(m, keys, table, sortLists);
  }

  method KeysInOrder(m: Grouped) returns (keys: seq<string>)
    ensures Ascending(keys) && NoRepeats(keys) && Elements(keys) == m.Keys
    ensures forall k :: 0 <= k < |keys| ==> keys[k] in m
  {
    keys := Unordered(m.Keys);
    SortedListing(keys, m.Keys);
    InOrderMembers(m.Keys);
    keys := Sorted(keys);
    forall k | 0 <= k < |keys| ensures keys[k] in m {
      assert keys[k] in Elements(keys);
    }
  }

  lemma SortedElements(s: seq<string>)
    ensures Elements(Sorted(s)) == Elements(s)
  {
    forall x ensures x in Sorted(s) <==> x in s {
      assert x in multiset(Sorted(s)) <==> x in multiset(s);
    }
  }

  lemma TableOfMap(m: Grouped, keys: seq<string>, table: seq<Entry>, sortLists: bool)
    requires Ascending(keys) && NoRepeats(keys) && Elements(keys) == m.Keys && |table| == |keys|
    requires forall k :: 0 <= k < |keys| ==> keys[k] in m && table[k] == Entry(keys[k], Tidy(sortLists, m[keys[k]]))
    ensures SourcesAscend(table) && Rules(table) == Pairs(m)
    ensures !sortLists ==> forall e :: e in table ==> e.source in m && e.dependents == m[e.source]
    ensures NoneEmpty(m) ==> forall e :: e in table ==> e.dependents != []
    ensures sortLists ==> forall e :: e in table ==> StrictlyAscending(e.dependents)
  {
    forall s, d ensures (s, d) in Rules(table) <==> (s, d) in Pairs(m) {
      if (s, d) in Rules(table) {
        var e :| e in table && d in e.dependents && e.source == s;
        var k :| 0 <= k < |table| && table[k] == e;
        assert d in Elements(table[k].dependents);
      }
      if (s, d) in Pairs(m) {
        assert s in Elements(keys);
        var k :| 0 <= k < |keys| && keys[k] == s;
        assert d in Elements(m[keys[k]]);
        assert table[k] in table && d in table[k].dependents;
      }
    }
  }

  /** Dependency edges (dependency, dependent) between known crates, grouped and sorted. The contract
      leaves only one possible table. */
  method DerivePropagation(deps: seq<(string, string)>, known: seq<string>) returns (table: seq<Entry>)
    ensures SourcesAscend(table)
    ensures forall e :: e in table ==> StrictlyAscending(e.dependents) && e.dependents != []
    ensures Rules(table) == set p | p in deps && p.0 in known && p.1 in known
    ensures forall s, d :: HasRule(table, s, d) <==> (s, d) in deps && s in known && d in known
  {
    var grouped: Grouped := map[];
    for i := 0 to |deps|
      invariant Pairs(grouped) == set p | p in deps[..i] && p.0 in known && p.1 in known
      invariant NoneEmpty(grouped)
    {
      assert deps[..i + 1] == deps[..i] + [deps[i]];
      var (s, d) := deps[i];
      if s in known && d in known {
        grouped := Push(grouped, s, d);
      }
    }
    table := Tabulate(grouped, true);
    assert deps[..|deps|] == deps;
    forall s, d ensures HasRule(table, s, d) <==> (s, d) in deps && s in known && d in known {
      RulesTell(table, s, d);
      assert (s, d) in Pairs(grouped) <==> (s, d) in deps && s in known && d in known;
    }
  }

  /** Some entry of the table says that a change to `s` affects `d`. */
  ghost predicate HasRule(table: seq<Entry>, s: string, d: string) {
    exists e :: e in table && e.source == s && d in e.dependents
  }

  lemma RulesTell(table: seq<Entry>, s: string, d: string)
    ensures (s, d) in Rules(table) <==> HasRule(table, s, d)
  {
    if e :| e in table && e.source == s && d in e.dependents {
      assert (e.source, d) in Rules(table);
    }
  }

  /** (d, x): the member named x lists the dependency d. */
  ghost function ListedPairs(members: seq<Member>): Graph<string> {
    set m, d | m in members && d in m.deps :: (d, m.pkg)
  }

  /** Every listed dependency, member by member, as (member, dependency). */
  ghost function ListedLinks(members: seq<Member>): Links {
    if members == [] then []
    else
      var last := members[|members| - 1];
      ListedLinks(members[..|members| - 1]) + LinksFrom(last.pkg, last.deps)
  }

  ghost function LinksFrom(pkg: string, deps: seq<string>): (r: Links)
    ensures |r| == |deps|
  {
    seq(|deps|, i requires 0 <= i < |deps| => (pkg, deps[i]))
  }

  lemma OneMoreMember(members: seq<Member>, i: nat)
    requires i < |members|
    ensures ListedLinks(members[..i + 1]) == ListedLinks(members[..i]) + LinksFrom(members[i].pkg, members[i].deps)
  {
    assert members[..i + 1][..i] == members[..i];
  }

  lemma OneMoreDep(links: Links, pkg: string, deps: seq<string>, j: nat)
    requires j < |deps|
    ensures links + LinksFrom(pkg, deps[..j + 1]) == links + LinksFrom(pkg, deps[..j]) + [(pkg, deps[j])]
  {
  }

  lemma {:induction false} ListedLinksArePairs(members: seq<Member>, x: string, d: string)
    ensures (x, d) in ListedLinks(members) <==> (d, x) in ListedPairs(members)
  {
    if members != [] {
      var front, last := members[..|members| - 1], members[|members| - 1];
      ListedLinksArePairs(front, x, d);
      assert members == front + [last];
      LinksFromOne(last, x, d);
    }
  }

  lemma LinksFromOne(m: Member, x: string, d: string)
    ensures (x, d) in LinksFrom(m.pkg, m.deps) <==> m.pkg == x && d in m.deps
  {
    if m.pkg == x && d in m.deps {
      var i :| 0 <= i < |m.deps| && m.deps[i] == d;
      assert LinksFrom(m.pkg, m.deps)[i] == (x, d);
    }
  }

  lemma PairsAreLinks(members: seq<Member>, m: Grouped)
    requires DependentsList(ListedLinks(members), m)
    ensures Pairs(m) == ListedPairs(members)
  {
    forall d, x ensures (d, x) in Pairs(m) <==> (d, x) in ListedPairs(members) {
      LinksToMembers(ListedLinks(members), d, x);
      ListedLinksArePairs(members, x, d);
      assert x in Listed(m, d) <==> (d, x) in Pairs(m);
    }
  }

  /** `xs` names the members that list `d`, each as often as it lists it, in the order of the members; `at`
      gives their places. */
  ghost predicate Listing(members: seq<Member>, d: string, xs: seq<string>, at: seq<nat>) {
    && |at| == |xs|
    && (forall k :: 0 <= k < |at| ==> at[k] < |members| && xs[k] == members[at[k]].pkg)
    && (forall k, l :: 0 <= k < l < |at| ==> at[k] <= at[l])
    && (forall i: nat :: i < |members| ==> multiset(at)[i] == multiset(members[i].deps)[d])
  }

  function Copies<T>(n: nat, x: T): (r: seq<T>)
    ensures |r| == n && forall i :: 0 <= i < n ==> r[i] == x
  {
    seq(n, _ => x)
  }

  lemma {:induction false} CopiesCount<T>(n: nat, x: T)
    ensures multiset(Copies(n, x)) == multiset{}[x := n]
  {
    if n > 0 {
      CopiesCount(n - 1, x);
      assert Copies(n, x) == Copies(n - 1, x) + [x];
    }
  }

  lemma LinksToOneMore(links: Links, x: string, e: string, d: string)
    ensures LinksTo(links + [(x, e)], d) == LinksTo(links, d) + if e == d then [x] else []
  {
    assert (links + [(x, e)])[..|links|] == links;
  }

  lemma OneMoreCopy<T>(xs: seq<T>, n: nat, x: T)
    ensures xs + Copies(n, x) + [x] == xs + Copies(n + 1, x)
  {
  }

  lemma {:induction false} LinksOfOne(links: Links, pkg: string, deps: seq<string>, d: string)
    ensures LinksTo(links + LinksFrom(pkg, deps), d) == LinksTo(links, d) + Copies(multiset(deps)[d], pkg)
  {
    if deps == [] {
      assert links + LinksFrom(pkg, deps) == links;
      assert LinksTo(links, d) + Copies(0, pkg) == LinksTo(links, d);
    } else {
      var front, last := deps[..|deps| - 1], deps[|deps| - 1];
      LinksOfOne(links, pkg, front, d);
      assert deps == front + [last];
      OneMoreDep(links, pkg, deps, |deps| - 1);
      assert deps[..|deps|] == deps;
      LinksToOneMore(links + LinksFrom(pkg, front), pkg, last, d);
      OneMoreCopy(LinksTo(links, d), multiset(front)[d], pkg);
      assert LinksTo(links, d) + Copies(multiset(front)[d], pkg) + [] ==
             LinksTo(links, d) + Copies(multiset(front)[d], pkg);
    }
  }

  lemma ListingGrows(members: seq<Member>, d: string, xs: seq<string>, at: seq<nat>, n: nat)
    requires n + 1 == |members| && Listing(members[..n], d, xs, at)
    ensures var k := multiset(members[n].deps)[d];
            Listing(members, d, xs + Copies(k, members[n].pkg), at + Copies(k, n))
  {
    var k := multiset(members[n].deps)[d];
    var more: seq<nat> := Copies(k, n);
    CopiesCount(k, n);
    assert n !in at;
    forall i: nat | i < |members| ensures multiset(at + more)[i] == multiset(members[i].deps)[d] {
      assert multiset(at + more) == multiset(at) + multiset(more);
    }
  }

  lemma {:induction false} LinksAreListed(members: seq<Member>, d: string) returns (at: seq<nat>)
    ensures Listing(members, d, LinksTo(ListedLinks(members), d), at)
  {
    if members == [] {
      at := [];
    } else {
      var n: nat := |members| - 1;
      var before := LinksAreListed(members[..n], d);
      LinksOfOne(ListedLinks(members[..n]), members[n].pkg, members[n].deps, d);
      ListingGrows(members, d, LinksTo(ListedLinks(members[..n]), d), before, n);
      at := before + Copies(multiset(members[n].deps)[d], n);
    }
  }

  /** The dependents keep the order of the members, and one that lists the source twice is there twice. */
  method InferPropagation(members: seq<Member>) returns (table: seq<Entry>)
    ensures SourcesAscend(table)
    ensures forall e :: e in table ==> e.dependents != [] && e.dependents == LinksTo(ListedLinks(members), e.source)
    ensures Rules(table) == ListedPairs(members)
    ensures forall e :: e in table ==> exists at :: Listing(members, e.source, e.dependents, at)
    ensures forall d, x :: HasRule(table, d, x) <==> exists m :: m in members && m.pkg == x && d in m.deps
  {
    var grouped: Grouped := map[];
    ghost var links: Links := [];
    for i := 0 to |members|
      invariant NoneEmpty(grouped) && DependentsList(links, grouped) && links == ListedLinks(members[..i])
    {
      var m := members[i];
      ghost var before := links;
      for j := 0 to |m.deps|
        invariant NoneEmpty(grouped) && DependentsList(links, grouped)
        invariant links == before + LinksFrom(m.pkg, m.deps[..j])
      {
        OneMoreDependent(links, grouped, m.pkg, m.deps[j]);
        OneMoreDep(before, m.pkg, m.deps, j);
        grouped := Push(grouped, m.deps[j], m.pkg);
        links := links + [(m.pkg, m.deps[j])];
      }
      assert m.deps[..|m.deps|] == m.deps;
      OneMoreMember(members, i);
    }
    assert members[..|members|] == members;
    PairsAreLinks(members, grouped);
    table := Tabulate(grouped, false);
    InferredTable(members, grouped, table);
  }

  lemma InferredTable(members: seq<Member>, grouped: Grouped, table: seq<Entry>)
    requires DependentsList(ListedLinks(members), grouped) && Rules(table) == ListedPairs(members)
    requires forall e :: e in table ==> e.source in grouped && e.dependents == grouped[e.source]
    ensures forall e :: e in table ==> e.dependents == LinksTo(ListedLinks(members), e.source)
    ensures forall e :: e in table ==> exists at :: Listing(members, e.source, e.dependents, at)
    ensures forall d, x :: HasRule(table, d, x) <==> exists m :: m in members && m.pkg == x && d in m.deps
  {
    forall e | e in table
      ensures e.dependents == LinksTo(ListedLinks(members), e.source)
      ensures exists at :: Listing(members, e.source, e.dependents, at)
    {
      assert e.dependents == Listed(grouped, e.source);
      var at := LinksAreListed(members, e.source);
    }
    forall d, x ensures HasRule(table, d, x) <==> exists m :: m in members && m.pkg == x && d in m.deps {
      RulesTell(table, d, x);
      PairTells(members, d, x);
    }
  }

  lemma PairTells(members: seq<Member>, d: string, x: string)
    ensures (d, x) in ListedPairs(members) <==> exists m :: m in members && m.pkg == x && d in m.deps
  {
    if m :| m in members && m.pkg == x && d in m.deps {
      assert (d, m.pkg) in ListedPairs(members);
    }
  }

  /** Both tables hold the same pairs exactly when every listed dependency is itself a member, which is
      how the member list is read from the package metadata. */
  lemma BothTablesAgreeExactly(members: seq<Member>, deps: seq<(string, string)>, known: seq<string>)
    requires forall p :: p in deps <==> p in ListedPairs(members)
    requires Elements(known) == PackageNames(members)
    ensures (set p | p in deps && p.0 in known && p.1 in known) == ListedPairs(members) <==>
            forall m, d :: m in members && d in m.deps ==> d in PackageNames(members)
  {
    var kept := set p | p in deps && p.0 in known && p.1 in known;
    if kept == ListedPairs(members) {
      forall m, d | m in members && d in m.deps ensures d in PackageNames(members) {
        assert (d, m.pkg) in kept;
        assert (d, m.pkg).0 in Elements(known);
      }
    }
    if forall m, d :: m in members && d in m.deps ==> d in PackageNames(members) {
      forall p | p in ListedPairs(members) ensures p in kept {
        assert p.0 in Elements(known) && p.1 in Elements(known);
      }
    }
  }
}
