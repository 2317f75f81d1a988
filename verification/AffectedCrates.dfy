/** From changed files to affected crates, with rules derived from the packages' dependencies: changes are
    told by directory, rules by package name. */
module AffectedCrates {
  import opened Names
  import opened Graphs
  import opened Propagation
  import Discovery

  datatype Crate = Crate(dir: string, pkg: string)

  predicate Contains(c: Crate, file: string) {
    c.dir + "/" <= file
  }

  /** Some path, with slashes or without, leads from the directory to the file. */
  ghost predicate LiesBelow(dir: string, file: string) {
    exists rest :: file == dir + "/" + rest
  }

  lemma ContainsExactly(c: Crate, file: string)
    ensures Contains(c, file) <==> LiesBelow(c.dir, file)
  {
    if Contains(c, file) {
      assert file == c.dir + "/" + file[|c.dir| + 1..];
    }
    if rest :| file == c.dir + "/" + rest {
      assert file[..|c.dir| + 1] == c.dir + "/";
    }
  }

  /** The crates a change touches directly, by directory. */
  ghost function Touched(files: seq<string>, crates: seq<Crate>): set<string> {
    set f, c | f in files && c in crates && LiesBelow(c.dir, f) :: c.dir
  }

  /** A crate directory is affected if some changed file lies anywhere below it; any name is if it is a
      dependent of an entry whose source is such a directory. */
  method Detect(files: seq<string>, crates: seq<Crate>, table: seq<Entry>) returns (affected: set<string>)
    ensures affected == OneStep(Rules(table), Touched(files, crates))
    ensures forall x :: x in affected <==>
              exists c, rest :: c in crates && c.dir + "/" + rest in files
                && (x == c.dir || exists e :: e in table && e.source == c.dir && x in e.dependents)
  {
    var direct: set<string> := {};
    for i := 0 to |files|
      invariant direct == Touched(files[..i], crates)
    {
      ghost var before := direct;
      assert files[..i + 1] == files[..i] + [files[i]];
      for j := 0 to |crates|
        invariant forall d :: d in direct <==>
                  d in before || exists k :: 0 <= k < j && LiesBelow(crates[k].dir, files[i]) && crates[k].dir == d
      {
        ContainsExactly(crates[j], files[i]);
        if Contains(crates[j], files[i]) {
          direct := direct + {crates[j].dir};
        }
      }
      OneMoreFile(files[..i], files[i], crates, before, direct);
    }
    assert files[..|files|] == files;
    affected := ApplyPropagation(direct, table);
    forall x ensures x in affected <==> IsAffected(x, files, crates, table) {
      AffectedExactly(x, files, crates, table);
    }
  }

  ghost predicate IsAffected(x: string, files: seq<string>, crates: seq<Crate>, table: seq<Entry>) {
    exists c, rest :: c in crates && c.dir + "/" + rest in files
      && (x == c.dir || exists e :: e in table && e.source == c.dir && x in e.dependents)
  }

  lemma TouchedExactly(d: string, files: seq<string>, crates: seq<Crate>)
    ensures d in Touched(files, crates) <==> exists c, rest :: c in crates && c.dir + "/" + rest in files && c.dir == d
  {
    if d in Touched(files, crates) {
      var f, c :| f in files && c in crates && LiesBelow(c.dir, f) && c.dir == d;
      var rest :| f == c.dir + "/" + rest;
      assert c.dir + "/" + rest in files;
    }
    if c, rest :| c in crates && c.dir + "/" + rest in files && c.dir == d {
      assert LiesBelow(c.dir, c.dir + "/" + rest);
    }
  }

  lemma AffectedExactly(x: string, files: seq<string>, crates: seq<Crate>, table: seq<Entry>)
    ensures x in OneStep(Rules(table), Touched(files, crates)) <==> IsAffected(x, files, crates, table)
  {
    var touched := Touched(files, crates);
    if x in OneStep(Rules(table), touched) {
      if x in touched {
        TouchedExactly(x, files, crates);
      } else {
        var r :| r in Rules(table) && r.0 in touched && r.1 == x;
        TouchedExactly(r.0, files, crates);
        var c, rest :| c in crates && c.dir + "/" + rest in files && c.dir == r.0;
        var e :| e in table && e.source == r.0 && r.1 in e.dependents;
      }
    }
    if c, rest :| c in crates && c.dir + "/" + rest in files
                  && (x == c.dir || exists e :: e in table && e.source == c.dir && x in e.dependents) {
      TouchedExactly(c.dir, files, crates);
      if x != c.dir {
        var e :| e in table && e.source == c.dir && x in e.dependents;
        assert (c.dir, x) in Rules(table) && (c.dir, x).0 in touched;
      }
    }
  }

  lemma OneMoreFile(files: seq<string>, f: string, crates: seq<Crate>, before: set<string>, after: set<string>)
    requires before == Touched(files, crates)
    requires forall d :: d in after <==>
             d in before || exists k :: 0 <= k < |crates| && LiesBelow(crates[k].dir, f) && crates[k].dir == d
    ensures after == Touched(files + [f], crates)
  {
    forall d ensures d in after <==> d in Touched(files + [f], crates) {
      if d in Touched(files + [f], crates) {
        var g, c :| g in files + [f] && c in crates && LiesBelow(c.dir, g) && c.dir == d;
        var k :| 0 <= k < |crates| && crates[k] == c;
        assert g == f || g in files;
      }
      if d in after && d !in before {
        var k :| 0 <= k < |crates| && LiesBelow(crates[k].dir, f) && crates[k].dir == d;
        assert f in files + [f] && crates[k] in crates;
      }
      if d in before {
        var g, c :| g in files && c in crates && LiesBelow(c.dir, g) && c.dir == d;
        assert g in files + [f];
      }
    }
  }

  function Packages(crates: seq<Crate>): seq<string> {
    seq(|crates|, i requires 0 <= i < |crates| => crates[i].pkg)
  }

  /** The dependency edges between workspace packages, from the dependency to what depends on it. */
  ghost function KnownEdges(deps: seq<(string, string)>, crates: seq<Crate>): Graph<string> {
    set p | p in deps && p.0 in Packages(crates) && p.1 in Packages(crates)
  }

  /** The whole way, from discovered dependencies and changed files. */
  method DetectDerived(files: seq<string>, crates: seq<Crate>, deps: seq<(string, string)>)
      returns (affected: set<string>)
    ensures affected == OneStep(KnownEdges(deps, crates), Touched(files, crates))
    ensures forall x :: x in affected <==>
              exists c, rest :: c in crates && c.dir + "/" + rest in files
                && (x == c.dir || ((c.dir, x) in deps && c.dir in Packages(crates) && x in Packages(crates)))
  {
    var table := Discovery.DerivePropagation(deps, Packages(crates));
    affected := Detect(files, crates, table);
    forall c: Crate, x | c.dir in Touched(files, crates)
      ensures (exists e :: e in table && e.source == c.dir && x in e.dependents) <==>
              ((c.dir, x) in deps && c.dir in Packages(crates) && x in Packages(crates))
    {
      RuleOfEdge(table, deps, crates, c.dir, x);
    }
    forall c, rest | c in crates && c.dir + "/" + rest in files ensures c.dir in Touched(files, crates) {
      TouchedExactly(c.dir, files, crates);
    }
  }

  lemma RuleOfEdge(table: seq<Entry>, deps: seq<(string, string)>, crates: seq<Crate>, s: string, x: string)
    requires Rules(table) == KnownEdges(deps, crates)
    ensures (exists e :: e in table && e.source == s && x in e.dependents) <==>
            ((s, x) in deps && s in Packages(crates) && x in Packages(crates))
  {
    assert (s, x) in Rules(table) <==> exists e :: e in table && e.source == s && x in e.dependents;
    assert (s, x) in KnownEdges(deps, crates) <==>
           (s, x) in deps && s in Packages(crates) && x in Packages(crates);
  }

  /** The package of the first crate in that directory; any other name stands for itself. */
  function PkgName(name: string, crates: seq<Crate>): string {
    if crates == [] then name
    else if crates[0].dir == name then crates[0].pkg
    else PkgName(name, crates[1..])
  }

  /** The packages a command runs on. */
  ghost function MarkedPackages(g: Graph<string>, crates: seq<Crate>, files: seq<string>): set<string> {
    set x | x in OneStep(g, Touched(files, crates)) :: PkgName(x, crates)
  }

  method DetectPackages(files: seq<string>, crates: seq<Crate>, deps: seq<(string, string)>)
      returns (packages: set<string>)
    ensures packages == MarkedPackages(KnownEdges(deps, crates), crates, files)
  {
    var affected := DetectDerived(files, crates, deps);
    packages := set x | x in affected :: PkgName(x, crates);
  }

  ghost predicate IsTouched(c: Crate, files: seq<string>) {
    exists f :: f in files && LiesBelow(c.dir, f)
  }

  ghost function TouchedPackages(crates: seq<Crate>, files: seq<string>): set<string> {
    set c | c in crates && IsTouched(c, files) :: c.pkg
  }

  /** The packages it should run on: the touched ones, and those that depend directly on one of them. */
  ghost function WantedPackages(g: Graph<string>, crates: seq<Crate>, files: seq<string>): set<string> {
    OneStep(g, TouchedPackages(crates, files))
  }

  /** Changed files are named relative to the workspace root. */
  predicate AllRelative(files: seq<string>) {
    forall f :: f in files ==> f != "" && f[0] != '/'
  }

  /** No two crates share a directory or a package name, and package names have no slash. */
  ghost predicate Proper(crates: seq<Crate>) {
    && (forall c, d :: c in crates && d in crates && c != d ==> c.dir != d.dir && c.pkg != d.pkg)
    && (forall c :: c in crates ==> c.pkg != "" && '/' !in c.pkg)
  }

  /** A file of this crate and none of a crate below it. */
  function OwnFile(c: Crate): string {
    c.dir + "/x"
  }

  /** A relative file can touch the crate, and some file of it leaves another crate untouched. */
  ghost predicate StandsApart(c: Crate, all: seq<Crate>) {
    c.dir != "" && c.dir[0] != '/' && exists d :: d in all && !LiesBelow(d.dir, OwnFile(c))
  }

  ghost predicate Between(g: Graph<string>, crates: seq<Crate>) {
    forall e :: e in g ==> e.0 in Packages(crates) && e.1 in Packages(crates)
  }

  lemma {:induction false} PkgNameIs(name: string, crates: seq<Crate>)
    ensures || (PkgName(name, crates) == name && forall c :: c in crates ==> c.dir != name)
            || (exists c :: c in crates && c.dir == name && c.pkg == PkgName(name, crates))
  {
    if crates != [] {
      PkgNameIs(name, crates[1..]);
      assert crates == [crates[0]] + crates[1..];
      assert crates[0] in crates;
      if c :| c in crates[1..] && c.dir == name && c.pkg == PkgName(name, crates[1..]) {
        assert c in crates;
      }
    }
  }

  lemma PkgNameOfDir(c: Crate, all: seq<Crate>)
    requires Proper(all) && c in all
    ensures PkgName(c.dir, all) == c.pkg
  {
    PkgNameIs(c.dir, all);
  }

  lemma PackageOf(crates: seq<Crate>, p: string) returns (c: Crate)
    requires p in Packages(crates)
    ensures c in crates && c.pkg == p
  {
    var i :| 0 <= i < |crates| && Packages(crates)[i] == p;
    c := crates[i];
  }

  lemma PackageIn(crates: seq<Crate>, c: Crate)
    requires c in crates
    ensures c.pkg in Packages(crates)
  {
    var i :| 0 <= i < |crates| && crates[i] == c;
    assert Packages(crates)[i] == c.pkg;
  }

  /** Crates that hold a crate's own file hold all its files. */
  lemma HoldsAllFiles(d: Crate, c: Crate, f: string)
    requires LiesBelow(d.dir, OwnFile(c))
    ensures d.dir + "/" <= c.dir + "/"
    ensures LiesBelow(c.dir, f) ==> LiesBelow(d.dir, f)
  {
    ContainsExactly(d, OwnFile(c));
    ContainsExactly(d, f);
    ContainsExactly(c, f);
    var p := d.dir + "/";
    assert p[|d.dir|] == '/' && OwnFile(c)[|c.dir| + 1] == 'x';
    assert OwnFile(c)[..|c.dir| + 1] == c.dir + "/";
  }

  lemma ShorterOrSame(a: string, b: string)
    requires a + "/" <= b + "/"
    ensures |a| < |b| || a == b
  {
    assert a == (a + "/")[..|a|] == (b + "/")[..|a|];
  }

  /** A directory without a slash lies in no other crate. */
  lemma TopLevel(d: Crate, c: Crate)
    requires LiesBelow(d.dir, OwnFile(c)) && '/' !in c.dir
    ensures d.dir == c.dir
  {
    HoldsAllFiles(d, c, "");
    var p, q := d.dir + "/", c.dir + "/";
    assert p[|d.dir|] == q[|d.dir|] == '/';
    forall i | 0 <= i < |c.dir| ensures q[i] != '/' {
      assert q[i] == c.dir[i] && c.dir[i] in c.dir;
    }
    assert p[..|d.dir|] == q[..|d.dir|];
  }

  /** A package that is also the name of a directory is the package there. */
  lemma DependentNamesItself(all: seq<Crate>, p: string)
    requires Proper(all) && p in Packages(all)
    requires forall c :: c in all && StandsApart(c, all) ==> c.dir == c.pkg
    ensures PkgName(p, all) == p
  {
    PkgNameIs(p, all);
    if c :| c in all && c.dir == p && c.pkg == PkgName(p, all) {
      var d := PackageOf(all, p);
      if !StandsApart(c, all) {
        assert p[0] in p;
        assert LiesBelow(d.dir, OwnFile(c));
        TopLevel(d, c);
      }
    }
  }

  /** Where one touched crate does not stand apart, every crate is touched. */
  lemma AllTouched(all: seq<Crate>, files: seq<string>, c: Crate)
    requires AllRelative(files) && c in all && IsTouched(c, files) && !StandsApart(c, all)
    ensures forall d :: d in all ==> IsTouched(d, files)
  {
    var f :| f in files && LiesBelow(c.dir, f);
    assert (c.dir + "/")[0] == f[0];
    forall d | d in all ensures IsTouched(d, files) {
      HoldsAllFiles(d, c, f);
    }
  }

  lemma TouchedNames(all: seq<Crate>, files: seq<string>, x: string)
    ensures x in Touched(files, all) <==> exists c :: c in all && IsTouched(c, files) && c.dir == x
  {
    if x in Touched(files, all) {
      var f, c :| f in files && c in all && LiesBelow(c.dir, f) && c.dir == x;
      assert IsTouched(c, files);
    }
  }

  lemma MarkedAreWanted(g: Graph<string>, all: seq<Crate>, files: seq<string>, x: string)
    requires Proper(all) && Between(g, all) && AllRelative(files)
    requires forall c :: c in all && StandsApart(c, all) ==> c.dir == c.pkg
    requires x in OneStep(g, Touched(files, all))
    ensures PkgName(x, all) in WantedPackages(g, all, files)
  {
    if x in Touched(files, all) {
      TouchedNames(all, files, x);
      var c :| c in all && IsTouched(c, files) && c.dir == x;
      PkgNameOfDir(c, all);
      assert c.pkg in TouchedPackages(all, files);
    } else {
      var e :| e in g && e.0 in Touched(files, all) && e.1 == x;
      TouchedNames(all, files, e.0);
      var c :| c in all && IsTouched(c, files) && c.dir == e.0;
      DependentNamesItself(all, x);
      if StandsApart(c, all) {
        assert c.pkg in TouchedPackages(all, files);
      } else {
        AllTouched(all, files, c);
        var d := PackageOf(all, x);
        assert d.pkg in TouchedPackages(all, files);
      }
    }
  }

  lemma WantedAreMarked(g: Graph<string>, all: seq<Crate>, files: seq<string>, p: string)
    requires Proper(all) && Between(g, all) && AllRelative(files)
    requires forall c :: c in all && StandsApart(c, all) ==> c.dir == c.pkg
    requires p in WantedPackages(g, all, files)
    ensures p in MarkedPackages(g, all, files)
  {
    if p in TouchedPackages(all, files) {
      var c :| c in all && IsTouched(c, files) && c.pkg == p;
      TouchedIsMarked(g, all, files, c);
    } else {
      var e :| e in g && e.0 in TouchedPackages(all, files) && e.1 == p;
      var c :| c in all && IsTouched(c, files) && c.pkg == e.0;
      if StandsApart(c, all) {
        TouchedNames(all, files, c.dir);
        DependentNamesItself(all, p);
        assert p in OneStep(g, Touched(files, all));
      } else {
        AllTouched(all, files, c);
        var d := PackageOf(all, p);
        TouchedIsMarked(g, all, files, d);
      }
    }
  }

  lemma TouchedIsMarked(g: Graph<string>, all: seq<Crate>, files: seq<string>, c: Crate)
    requires Proper(all) && c in all && IsTouched(c, files)
    ensures c.pkg in MarkedPackages(g, all, files)
  {
    TouchedNames(all, files, c.dir);
    PkgNameOfDir(c, all);
    assert c.dir in OneStep(g, Touched(files, all));
  }

  /** A crate that stands apart and is named apart from its directory: some change to it, or to a crate it
      lies in, misses a dependent. */
  lemma {:induction false} NamedApartIsMissed(all: seq<Crate>, c: Crate)
      returns (files: seq<string>, deps: seq<(string, string)>)
    requires Proper(all) && c in all && StandsApart(c, all) && c.dir != c.pkg
    ensures AllRelative(files) && MissesDependent(all, files, KnownEdges(deps, all))
    decreases |c.dir|
  {
    var d :| d in all && !LiesBelow(d.dir, OwnFile(c));
    if e :| e in all && LiesBelow(e.dir, OwnFile(c)) && e.dir == c.pkg {
      HoldsAllFiles(e, c, OwnFile(c));
      ShorterOrSame(e.dir, c.dir);
      if LiesBelow(d.dir, OwnFile(e)) {
        HoldsAllFiles(d, e, OwnFile(c));
      }
      assert c.pkg[0] in c.pkg;
      files, deps := NamedApartIsMissed(all, e);
    } else {
      files, deps := [OwnFile(c)], [(c.pkg, d.pkg)];
      OneRuleMissed(all, c, d);
    }
  }

  ghost predicate MissesDependent(all: seq<Crate>, files: seq<string>, g: Graph<string>) {
    exists p :: p in WantedPackages(g, all, files) && p !in MarkedPackages(g, all, files)
  }

  lemma OneRuleMissed(all: seq<Crate>, c: Crate, d: Crate)
    requires Proper(all) && c in all && d in all && !LiesBelow(d.dir, OwnFile(c))
    requires forall e :: e in all && LiesBelow(e.dir, OwnFile(c)) ==> e.dir != c.pkg
    ensures MissesDependent(all, [OwnFile(c)], KnownEdges([(c.pkg, d.pkg)], all))
  {
    var files, g := [OwnFile(c)], KnownEdges([(c.pkg, d.pkg)], all);
    PackageIn(all, c);
    PackageIn(all, d);
    assert (c.pkg, d.pkg) in [(c.pkg, d.pkg)];
    assert g == {(c.pkg, d.pkg)};
    assert OwnFile(c) == c.dir + "/" + "x" && OwnFile(c) in files;
    assert IsTouched(c, files);
    assert c.pkg in TouchedPackages(all, files);
    assert (c.pkg, d.pkg).0 in TouchedPackages(all, files);
    assert d.pkg in WantedPackages(g, all, files);
    forall x | x in OneStep(g, Touched(files, all)) ensures PkgName(x, all) != d.pkg {
      TouchedNames(all, files, c.pkg);
      assert x in Touched(files, all);
      TouchedNames(all, files, x);
      var e :| e in all && IsTouched(e, files) && e.dir == x;
      PkgNameOfDir(e, all);
    }
  }

  /** Whatever files change and whatever the dependencies are, commands run on exactly the touched packages
      and their direct dependents if and only if every crate that stands apart is named like its
      directory. */
  lemma NamesDecide(all: seq<Crate>)
    requires Proper(all)
    ensures (forall files, deps :: AllRelative(files) ==>
               var g := KnownEdges(deps, all); MarkedPackages(g, all, files) == WantedPackages(g, all, files)) <==>
            (forall c :: c in all && StandsApart(c, all) ==> c.dir == c.pkg)
  {
    if forall c :: c in all && StandsApart(c, all) ==> c.dir == c.pkg {
      forall files, deps: seq<(string, string)> | AllRelative(files)
        ensures MarkedPackages(KnownEdges(deps, all), all, files) == WantedPackages(KnownEdges(deps, all), all, files)
      {
        var g := KnownEdges(deps, all);
        forall x | x in OneStep(g, Touched(files, all)) ensures PkgName(x, all) in WantedPackages(g, all, files) {
          MarkedAreWanted(g, all, files, x);
        }
        forall p | p in WantedPackages(g, all, files) ensures p in MarkedPackages(g, all, files) {
          WantedAreMarked(g, all, files, p);
        }
      }
    } else {
      var c :| c in all && StandsApart(c, all) && c.dir != c.pkg;
      var files, deps := NamedApartIsMissed(all, c);
      var g := KnownEdges(deps, all);
      assert MarkedPackages(g, all, files) != WantedPackages(g, all, files);
    }
  }

  /** One pass over the derived rules finds every indirect dependent, from every change, if and only if
      whoever depends on a package also lists what that package depends on. */
  lemma DerivedPassExactly(deps: seq<(string, string)>, crates: seq<Crate>)
    ensures var g := KnownEdges(deps, crates);
            (forall s, x :: x in OneStep(g, s) <==> Affected(g, s, x)) <==>
            (forall a, b, c :: (a, b) in g && (b, c) in g && a != c ==> (a, c) in deps)
  {
    var g := KnownEdges(deps, crates);
    OnePassExactly(g);
    if forall a, b, c :: (a, b) in g && (b, c) in g && a != c ==> (a, c) in deps {
      forall e, f | e in g && f in g && e.1 == f.0 ensures e.0 == f.1 || (e.0, f.1) in g {
        assert e == (e.0, e.1) && f == (e.1, f.1);
      }
    }
    if Chained(g) {
      forall a, b, c | (a, b) in g && (b, c) in g && a != c ensures (a, c) in deps {
        assert (a, b).1 == (b, c).0;
      }
    }
  }
}
