/** Choosing which packages to download: everything needed, and nothing else. */
module Packages {

  datatype Package = Package(needsDownload: bool, requirements: seq<string>)

  type Catalog = map<string, Package>

  // A chain of requirements through known packages.
  ghost predicate Chain(packages: Catalog, path: seq<string>) {
    && path != [] && (forall i :: 0 <= i < |path| ==> path[i] in packages)
    && forall i :: 0 <= i < |path| - 1 ==> path[i + 1] in packages[path[i]].requirements
  }

  ghost predicate Reaches(packages: Catalog, a: string, b: string) {
    exists path :: Chain(packages, path) && path[0] == a && path[|path| - 1] == b
  }

  ghost function Flagged(packages: Catalog): set<string> {
    set n | n in packages && packages[n].needsDownload
  }

  // The known packages that some initially flagged package needs.
  ghost predicate Needed(packages: Catalog, n: string) {
    exists root :: root in Flagged(packages) && Reaches(packages, root, n)
  }

  // Both catalogs list the same packages with the same requirements.
  ghost predicate SameGraph(p: Catalog, q: Catalog) {
    p.Keys == q.Keys && forall n :: n in p ==> p[n].requirements == q[n].requirements
  }

  // Every known requirement of a member of s is in t.
  ghost predicate ClosedInto(packages: Catalog, s: set<string>, t: set<string>) {
    forall n, d :: n in s && n in packages && d in packages[n].requirements && d in packages ==> d in t
  }

  lemma SameGraphReaches(p: Catalog, q: Catalog, a: string, b: string)
    requires SameGraph(p, q) && Reaches(p, a, b)
    ensures Reaches(q, a, b)
  {
    var path :| Chain(p, path) && path[0] == a && path[|path| - 1] == b;
    assert Chain(q, path);
  }

  lemma ReachesSelf(packages: Catalog, a: string)
    requires a in packages
    ensures Reaches(packages, a, a)
  {
    assert Chain(packages, [a]);
  }

  lemma ReachesVia(packages: Catalog, a: string, b: string, c: string)
    requires a in packages && b in packages[a].requirements && Reaches(packages, b, c)
    ensures Reaches(packages, a, c)
  {
    var path :| Chain(packages, path) && path[0] == b && path[|path| - 1] == c;
    assert Chain(packages, [a] + path);
  }

  // A closed set keeps every chain that starts in it.
  lemma {:induction false} ChainStaysInside(packages: Catalog, s: set<string>, path: seq<string>)
    requires Chain(packages, path) && path[0] in s && ClosedInto(packages, s, s)
    ensures path[|path| - 1] in s
    decreases |path|
  {
    if |path| > 1 {
      assert path[1] in packages[path[0]].requirements;
      ChainStaysInside(packages, s, path[1..]);
    }
  }

  // From (p, names) to (q, marked): only marks were added, a flag was raised for each, and the
  // requirements of every new mark outside open are marked too.
  ghost predicate Marks(p: Catalog, names: set<string>, q: Catalog, marked: set<string>, open: set<string>) {
    && names <= marked <= q.Keys && SameGraph(p, q)
    && (forall n :: n in q ==> q[n].needsDownload == (p[n].needsDownload || n in marked - names))
    && ClosedInto(q, marked - names - open, marked)
  }

  ghost predicate AllReached(packages: Catalog, name: string, s: set<string>) {
    forall n :: n in s ==> Reaches(packages, name, n)
  }

  lemma MarksCompose(p: Catalog, a: set<string>, q: Catalog, b: set<string>, r: Catalog, c: set<string>, open: set<string>)
    requires Marks(p, a, q, b, open) && Marks(q, b, r, c, {})
    ensures Marks(p, a, r, c, open)
  {
  }

  lemma ReachedCompose(q: Catalog, r: Catalog, name: string, dep: string, a: set<string>, b: set<string>, c: set<string>)
    requires SameGraph(q, r) && name in r && dep in r[name].requirements
    requires AllReached(q, name, b - a) && AllReached(r, dep, c - b)
    ensures AllReached(r, name, c - a)
  {
    forall n | n in c - a ensures Reaches(r, name, n) {
      if n in b { SameGraphReaches(q, r, name, n); } else { ReachesVia(r, name, dep, n); }
    }
  }

  // The known ones among the first n names are marked.
  ghost predicate Covered(list: seq<string>, n: nat, known: set<string>, marked: set<string>) {
    n <= |list| && forall j :: 0 <= j < n && list[j] in known ==> list[j] in marked
  }

  lemma CoveredStep(list: seq<string>, n: nat, known: set<string>, marked: set<string>, more: set<string>)
    requires Covered(list, n, known, marked) && n < |list| && marked <= more && (list[n] in known ==> list[n] in more)
    ensures Covered(list, n + 1, known, more)
  {
  }

  class Downloader {
    var packages: Catalog
    var namesToDownload: set<string>

    constructor (catalog: Catalog)
      ensures packages == catalog && namesToDownload == {}
    {
      packages, namesToDownload := catalog, {};
    }

    /** Marks a package and everything it needs that is not marked yet. */
    method AddPackageAndDependencies(name: string)
      requires namesToDownload <= packages.Keys
      modifies this
      ensures Marks(old(packages), old(namesToDownload), packages, namesToDownload, {})
      ensures name in packages ==> name in namesToDownload
      ensures AllReached(packages, name, namesToDownload - old(namesToDownload))
      decreases |packages.Keys - namesToDownload|
    {
      if name in namesToDownload { return; }
      if name !in packages { return; }
      ghost var names, before, missing := namesToDownload, packages, packages.Keys - namesToDownload;
      packages := packages[name := packages[name].(needsDownload := true)];
      namesToDownload := namesToDownload + {name};
      ReachesSelf(packages, name);
      var deps := packages[name].requirements;
      for i := 0 to |deps|
        invariant Marks(before, names, packages, namesToDownload, {name}) && name in namesToDownload
        invariant packages.Keys == before.Keys && packages[name].requirements == deps
        invariant Covered(deps, i, before.Keys, namesToDownload)
        invariant AllReached(packages, name, namesToDownload - names)
      {
        ghost var marked, graph := namesToDownload, packages;
        Fewer(packages.Keys - namesToDownload, missing, name);
        AddPackageAndDependencies(deps[i]);
        MarksCompose(before, names, graph, marked, packages, namesToDownload, {name});
        CoveredStep(deps, i, before.Keys, marked, namesToDownload);
        ReachedCompose(graph, packages, name, deps[i], names, marked, namesToDownload);
      }
    }
  
    /** The driver loop over the flagged packages. */
    method SelectPackages(packageNames: seq<string>)
      requires namesToDownload == {} && forall n :: n in packageNames <==> n in packages
      modifies this
      ensures SameGraph(old(packages), packages)
      ensures forall n :: n in namesToDownload <==> Needed(old(packages), n)
      ensures Flagged(packages) == namesToDownload
    {
      ghost var before := packages;
      for i := 0 to |packageNames|
        invariant Marks(before, {}, packages, namesToDownload, {})
        invariant Covered(packageNames, i, Flagged(before), namesToDownload)
        invariant forall n :: n in namesToDownload ==> Needed(before, n)
      {
        var name := packageNames[i];
        ghost var marked, graph := namesToDownload, packages;
        if packages[name].needsDownload {
          AddPackageAndDependencies(name);
          MarksCompose(before, {}, graph, marked, packages, namesToDownload, {});
          NeededGrows(before, graph, marked, packages, namesToDownload, name);
        }
        CoveredStep(packageNames, i, Flagged(before), marked, namesToDownload);
      }
      ClosedIsNeeded(before, packages, namesToDownload, packageNames);
    }
  }

  // What a flagged or already needed package reaches is needed.
  lemma NeededGrows(before: Catalog, q: Catalog, marked: set<string>, r: Catalog, more: set<string>, name: string)
    requires Marks(before, {}, q, marked, {}) && Marks(q, marked, r, more, {}) && AllReached(r, name, more - marked)
    requires forall n :: n in marked ==> Needed(before, n)
    requires name in q && q[name].needsDownload
    ensures forall n :: n in more ==> Needed(before, n)
  {
    forall n | n in more - marked ensures Needed(before, n) {
      SameGraphReaches(r, before, name, n);
      if before[name].needsDownload {
        assert name in Flagged(before);
      } else {
        assert Needed(before, name);
        var root :| root in Flagged(before) && Reaches(before, root, name);
        ReachesTransitive(before, root, name, n);
      }
    }
  }

  lemma ReachesTransitive(packages: Catalog, a: string, b: string, c: string)
    requires Reaches(packages, a, b) && Reaches(packages, b, c)
    ensures Reaches(packages, a, c)
  {
    var p :| Chain(packages, p) && p[0] == a && p[|p| - 1] == b;
    var q :| Chain(packages, q) && q[0] == b && q[|q| - 1] == c;
    var r := p + q[1..];
    assert forall i :: 0 <= i < |r| ==> r[i] == if i < |p| then p[i] else q[i - |p| + 1];
    assert Chain(packages, r);
  }

  lemma ClosedIsNeeded(before: Catalog, packages: Catalog, marked: set<string>, packageNames: seq<string>)
    requires Marks(before, {}, packages, marked, {}) && (forall n :: n in packageNames <==> n in before)
    requires Covered(packageNames, |packageNames|, Flagged(before), marked)
    requires forall n :: n in marked ==> Needed(before, n)
    ensures forall n :: n in marked <==> Needed(before, n)
    ensures Flagged(packages) == marked
  {
    RootsMarked(before, marked, packageNames);
    ClosedBefore(before, packages, marked);
    forall n | Needed(before, n) ensures n in marked { NeededMarked(before, marked, n); }
  }

  lemma RootsMarked(before: Catalog, marked: set<string>, packageNames: seq<string>)
    requires (forall n :: n in packageNames <==> n in before) && Covered(packageNames, |packageNames|, Flagged(before), marked)
    ensures Flagged(before) <= marked
  {
    forall n | n in Flagged(before) ensures n in marked { assert n in packageNames; }
  }

  lemma ClosedBefore(before: Catalog, packages: Catalog, marked: set<string>)
    requires Marks(before, {}, packages, marked, {})
    ensures ClosedInto(before, marked, marked)
  {
    assert marked - {} - {} == marked;
  }

  lemma NeededMarked(before: Catalog, marked: set<string>, n: string)
    requires Flagged(before) <= marked && ClosedInto(before, marked, marked) && Needed(before, n)
    ensures n in marked
  {
    var root :| root in Flagged(before) && Reaches(before, root, n);
    var path :| Chain(before, path) && path[0] == root && path[|path| - 1] == n;
    ChainStaysInside(before, marked, path);
  }

  /** Counts the downloads as they are announced: one per flagged package, in list order. */
  method CountDownloads(packages: Catalog, packageNames: seq<string>) returns (downloaded: seq<string>)
    requires forall n :: n in packageNames <==> n in packages
    requires Distinct(packageNames)
    ensures forall n :: n in downloaded <==> n in Flagged(packages)
    ensures |downloaded| == |Flagged(packages)| && InOrder(downloaded, packageNames)
  {
    downloaded := [];
    for i := 0 to |packageNames|
      invariant Announced(packages, packageNames, i, downloaded)
    {
      AnnouncedNext(packages, packageNames, i, downloaded);
      if packages[packageNames[i]].needsDownload {
        downloaded := downloaded + [packageNames[i]];
      }
    }
    AllFlagged(packages, packageNames);
  }

  // The flagged ones among the first i names have been announced, in order.
  ghost predicate Announced(packages: Catalog, names: seq<string>, i: nat, downloaded: seq<string>) {
    && i <= |names| && InOrder(downloaded, names) && |downloaded| == |FlaggedAmong(packages, names[..i])|
    && forall n :: n in downloaded <==> n in FlaggedAmong(packages, names[..i])
  }

  lemma AnnouncedNext(packages: Catalog, names: seq<string>, i: nat, downloaded: seq<string>)
    requires i < |names| && names[i] in packages && Announced(packages, names, i, downloaded)
    requires Distinct(names)
    ensures Announced(packages, names, i + 1, downloaded + if packages[names[i]].needsDownload then [names[i]] else [])
  {
    assert names[i] !in names[..i];
    FlaggedNext(packages, names, i);
    if packages[names[i]].needsDownload { OrderedNext(downloaded, names, i); } else { assert downloaded + [] == downloaded; }
  }

  ghost predicate Distinct(names: seq<string>) {
    forall i, j :: 0 <= i < j < |names| ==> names[i] != names[j]
  }

  // Wherever the two names stand in the list, x stands before y.
  ghost predicate Before(names: seq<string>, x: string, y: string) {
    forall a, b :: 0 <= a < |names| && 0 <= b < |names| && names[a] == x && names[b] == y ==> a < b
  }

  ghost predicate InOrder(some: seq<string>, names: seq<string>) {
    forall i, j {:trigger Before(names, some[i], some[j])} :: 0 <= i < j < |some| ==> Before(names, some[i], some[j])
  }

  lemma StandsBefore(names: seq<string>, x: string, i: nat)
    requires i < |names| && Distinct(names) && x in names[..i]
    ensures Before(names, x, names[i])
  {
    var a :| 0 <= a < i && names[a] == x;
  }

  lemma OrderedNext(some: seq<string>, names: seq<string>, i: nat)
    requires i < |names| && Distinct(names) && InOrder(some, names) && forall n :: n in some ==> n in names[..i]
    ensures InOrder(some + [names[i]], names)
  {
    var more := some + [names[i]];
    forall j, k | 0 <= j < k < |more| ensures Before(names, more[j], more[k]) {
      if k < |some| { assert Before(names, some[j], some[k]); } else { StandsBefore(names, some[j], i); }
    }
  }

  lemma AllFlagged(packages: Catalog, names: seq<string>)
    requires forall n :: n in names <==> n in packages
    ensures FlaggedAmong(packages, names[..|names|]) == Flagged(packages)
  {
    assert names[..|names|] == names;
  }

  ghost function FlaggedAmong(packages: Catalog, names: seq<string>): set<string> {
    set n | n in names && n in packages && packages[n].needsDownload
  }

  lemma FlaggedNext(packages: Catalog, names: seq<string>, i: nat)
    requires i < |names| && names[i] in packages && names[i] !in names[..i]
    ensures names[i] !in FlaggedAmong(packages, names[..i])
    ensures FlaggedAmong(packages, names[..i + 1]) ==
      FlaggedAmong(packages, names[..i]) + if packages[names[i]].needsDownload then {names[i]} else {}
  {
    assert names[..i + 1] == names[..i] + [names[i]];
  }

  lemma Fewer(a: set<string>, b: set<string>, x: string)
    requires a <= b && x in b && x !in a
    ensures |a| < |b|
  {
    assert b == a + (b - a) && x in b - a;
  }

  /** Selection and announcement together: exactly the needed packages are downloaded, once each,
      and the announced total is their number. */
  method DownloadAll(catalog: Catalog, packageNames: seq<string>) returns (downloaded: seq<string>, total: nat)
    requires forall n :: n in packageNames <==> n in catalog
    requires Distinct(packageNames)
    ensures forall n :: n in downloaded <==> Needed(catalog, n)
    ensures |downloaded| == total == |(set n | n in catalog && Needed(catalog, n))|
    ensures InOrder(downloaded, packageNames)
  {
    var d := new Downloader(catalog);
    d.SelectPackages(packageNames);
    assert d.namesToDownload == set n | n in catalog && Needed(catalog, n);
    downloaded := CountDownloads(d.packages, packageNames);
    total := |d.namesToDownload|;
  }
}
