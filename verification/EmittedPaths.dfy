/** Which lock paths stand behind the listed URLs: emission follows package URLs, not paths. */
module EmittedPaths {
  import opened Sequences
  import opened Text
  import opened Graphs
  import opened LockPaths
  import opened SupplyChain
  import opened DependencyClosure
  import opened Sbom

  /** The external entries that resolution reaches from an internal package. */
  ghost function ReachedPaths(l: Lockfile): set<string> {
    set p | p in ToSet(ExternalPaths(l)) && Reaches(PathGraph(l), RootPaths(l), p)
  }

  ghost function ReachedRefs(l: Lockfile, encode: string -> string): set<string> {
    RefsOf(l, encode, ReachedPaths(l))
  }

  /** An unreached entry that shares its URL with a reached one resolves only to URLs of reached entries. */
  ghost predicate SharedUrlsAgree(l: Lockfile, encode: string -> string) {
    forall p, t | p in ToSet(ExternalPaths(l)) && t in Targets(l, p) ::
      p !in ReachedPaths(l) && RefOf(l, encode, p) in ReachedRefs(l, encode) ==>
        RefOf(l, encode, t) in ReachedRefs(l, encode)
  }

  lemma ReachedStep(l: Lockfile, p: string, t: string)
    requires p in ReachedPaths(l) && t in Targets(l, p)
    ensures t in ReachedPaths(l)
  {
    TargetsAreExternal(l, p);
    ReachesNext(PathGraph(l), RootPaths(l), p, t);
  }

  lemma RootRefsAreReached(l: Lockfile, encode: string -> string)
    ensures RootRefs(l, encode) <= ReachedRefs(l, encode)
  {
    forall x | x in RootRefs(l, encode) ensures x in ReachedRefs(l, encode) {
      RootRefsExact(l, encode, l.paths, x);
      var p :| p in l.paths && IsInternal(l, p) && x in TargetRefs(l, encode, p);
      var q :| q in Targets(l, p) && RefOf(l, encode, q) == x;
      TargetsAreExternal(l, p);
      assert p in ToSet(l.paths) && q in RootPaths(l);
      ReachesRoot(PathGraph(l), RootPaths(l), q);
    }
  }

  lemma ReachedRefsAreClosed(l: Lockfile, encode: string -> string)
    requires SharedUrlsAgree(l, encode)
    ensures ClosedUnder(RefGraph(l, encode), ReachedRefs(l, encode))
  {
    var g, reached := RefGraph(l, encode), ReachedRefs(l, encode);
    forall ref, x | ref in reached && x in Next(g, ref) ensures x in reached {
      DependencyRefsExact(l, encode, ExternalPaths(l), ref, x);
      var p :| p in ExternalPaths(l) && RefOf(l, encode, p) == ref && x in TargetRefs(l, encode, p);
      var t :| t in Targets(l, p) && RefOf(l, encode, t) == x;
      assert p in ToSet(ExternalPaths(l));
      if p in ReachedPaths(l) { ReachedStep(l, p, t); }
    }
  }

  lemma ListedDependency(l: Lockfile, encode: string -> string, p: string, t: string)
    requires p in ToSet(ExternalPaths(l)) && t in Targets(l, p)
    requires Reaches(RefGraph(l, encode), RootRefs(l, encode), RefOf(l, encode, p))
    ensures Reaches(RefGraph(l, encode), RootRefs(l, encode), RefOf(l, encode, t))
  {
    assert t in Next(PathGraph(l), p);
    StepOfRefs(l, encode, p, t);
    if RefOf(l, encode, t) != RefOf(l, encode, p) {
      ReachesNext(RefGraph(l, encode), RootRefs(l, encode), RefOf(l, encode, p), RefOf(l, encode, t));
    }
  }

  /** The listed URLs are those of the reached lock paths exactly when shared URLs agree in this way. */
  lemma ListedByPathExactly(l: Lockfile, encode: string -> string, inventory: Inventory)
    requires Describes(l, encode, inventory)
    ensures Purls(inventory.components) == ReachedRefs(l, encode) <==> SharedUrlsAgree(l, encode)
  {
    forall ref | ref in ReachedRefs(l, encode) ensures ref in Purls(inventory.components) {
      var p :| p in ReachedPaths(l) && RefOf(l, encode, p) == ref;
      ReachablePathsAreListed(l, encode, inventory, p);
    }
    if SharedUrlsAgree(l, encode) {
      RootRefsAreReached(l, encode);
      ReachedRefsAreClosed(l, encode);
      ListedIsLeastClosedSet(l, encode, inventory, ReachedRefs(l, encode));
    }
    if Purls(inventory.components) == ReachedRefs(l, encode) {
      forall p, t | p in ToSet(ExternalPaths(l)) && t in Targets(l, p) && RefOf(l, encode, p) in ReachedRefs(l, encode)
        ensures RefOf(l, encode, t) in ReachedRefs(l, encode)
      {
        ListedDependency(l, encode, p, t);
      }
    }
  }

  // ----- a lockfile whose shared URLs do not agree

  const TOP := "node_modules/a"
  const OUTER := "node_modules/b"
  const INNER := "node_modules/b/node_modules/a"
  const ONLY := "node_modules/b/node_modules/c"

  function Plain(dependencies: seq<string>): PackageEntry {
    PackageEntry(false, false, false, "1", "M", true, Some("d"), dependencies, [])
  }

  /** Two copies of `a`; only the one below the unused `b` finds its dependency `c`. */
  function SharedUrlLockfile(): Lockfile {
    LockfileData(3, ["", TOP, OUTER, INNER, ONLY],
      map["" := Plain(["a"]), TOP := Plain(["c"]), OUTER := Plain([]), INNER := Plain(["c"]), ONLY := Plain([])])
  }

  function Identity(): string -> string {
    (s: string) => s
  }

  function PurlOfOne(name: string): string {
    "pkg:npm/" + name + "@1"
  }

  predicate IsLetter(name: string) {
    name == "a" || name == "b" || name == "c"
  }

  lemma NameOfOne(cursor: string, name: string)
    requires IsLetter(name)
    ensures PackageNameFromLockPath(Candidate(cursor, name)) == Some(name)
  {
    SplitPlain(name, '/');
    NameReadBackExact(cursor, name);
  }

  lemma MetadataOfOne(dependencies: seq<string>)
    ensures MetadataText(Plain(dependencies).version) == Some("1") &&
      MetadataText(Plain(dependencies).license) == Some("M")
  {
    TrimPlain("1");
    TrimPlain("M");
  }

  lemma PurlOfLetter(name: string)
    requires IsLetter(name)
    ensures NpmPurl(Identity(), name, "1") == PurlOfOne(name)
  {
    assert name[0] != '@' && "@"[0] == '@';
    assert Identity()(name) == name && Identity()("1") == "1";
  }

  /** The entry of a letter at a cursor has that letter's metadata and URL. */
  lemma EntryOfOne(cursor: string, name: string, dependencies: seq<string>)
    requires IsLetter(name)
    requires var l := SharedUrlLockfile();
      Candidate(cursor, name) in l.packages && l.packages[Candidate(cursor, name)] == Plain(dependencies)
    ensures var l := SharedUrlLockfile();
      Meta(l, Candidate(cursor, name)) == Some(Coordinates(name, "1", "M", "d")) &&
      RefOf(l, Identity(), Candidate(cursor, name)) == PurlOfOne(name)
  {
    NameOfOne(cursor, name);
    MetadataOfOne(dependencies);
    PurlOfLetter(name);
  }

  lemma Entries()
    ensures var l := SharedUrlLockfile();
      Meta(l, TOP) == Some(Coordinates("a", "1", "M", "d")) && RefOf(l, Identity(), TOP) == PurlOfOne("a") &&
      Meta(l, OUTER) == Some(Coordinates("b", "1", "M", "d")) && RefOf(l, Identity(), OUTER) == PurlOfOne("b") &&
      Meta(l, INNER) == Some(Coordinates("a", "1", "M", "d")) && RefOf(l, Identity(), INNER) == PurlOfOne("a") &&
      Meta(l, ONLY) == Some(Coordinates("c", "1", "M", "d")) && RefOf(l, Identity(), ONLY) == PurlOfOne("c")
  {
    assert TOP == Candidate("", "a") && OUTER == Candidate("", "b");
    assert INNER == Candidate(OUTER, "a") && ONLY == Candidate(OUTER, "c");
    EntryOfOne("", "a", ["c"]);
    EntryOfOne("", "b", []);
    EntryOfOne(OUTER, "a", ["c"]);
    EntryOfOne(OUTER, "c", []);
  }

  lemma PurlsDiffer(a: string, b: string)
    requires IsLetter(a) && IsLetter(b) && a != b
    ensures PurlOfOne(a) != PurlOfOne(b)
  {
    assert PurlOfOne(a)[8] == a[0] && PurlOfOne(b)[8] == b[0];
  }

  lemma ParentOfTop(path: string)
    requires path == TOP || path == OUTER || path == "node_modules/c"
    ensures ParentCursor(path) == ""
  {
    var at := LastIndexOf(path, NESTED_MARKER);
    if at >= 0 { assert path[at] == '/' && at == 0; }
  }

  lemma ParentOfInner()
    ensures ParentCursor(INNER) == OUTER
  {
    assert OccursAt(INNER, NESTED_MARKER, |OUTER|);
    OccurrenceChar(INNER, NESTED_MARKER, |OUTER| + 1, 0);
    assert INNER[|OUTER| + 1] == 'n' && NESTED_MARKER[0] == '/';
    assert LastIndexOf(INNER, NESTED_MARKER) == |OUTER|;
    assert INNER[..|OUTER|] == OUTER;
  }

  predicate IsExamplePath(p: string) {
    p == TOP || p == OUTER || p == INNER || p == ONLY
  }

  lemma StartOfExample(p: string)
    requires IsExamplePath(p)
    ensures StartsWith(p, MARKER) && p != ""
  {
    assert p == MARKER + p[|MARKER|..];
  }

  lemma PackagesOfExample(p: string)
    ensures var l := SharedUrlLockfile();
      (p in l.packages <==> p == "" || IsExamplePath(p)) && (p in l.packages ==>
        !l.packages[p].dev && !l.packages[p].link)
  {
  }

  lemma ExternalOfExample(p: string)
    ensures IsExternal(SharedUrlLockfile(), p) <==> IsExamplePath(p)
    ensures p in ExternalPaths(SharedUrlLockfile()) <==> IsExamplePath(p)
    ensures p in Installed(SharedUrlLockfile()) <==> p == "" || IsExamplePath(p)
  {
    PackagesOfExample(p);
    ExternalPathsExact(SharedUrlLockfile(), p);
    if IsExamplePath(p) { StartOfExample(p); }
    assert !StartsWith("", MARKER);
  }

  lemma NotAmong(p: string)
    requires |p| > 13 && p[|p| - 1] == 'c' && (|p| != |ONLY| || p[13] != 'b')
    ensures !IsExamplePath(p)
  {
    assert TOP[|TOP| - 1] == 'a' && OUTER[|OUTER| - 1] == 'b' && INNER[|INNER| - 1] == 'a' && ONLY[13] == 'b';
  }

  lemma NotBelowRoot()
    ensures Candidate("", "c") !in Installed(SharedUrlLockfile())
  {
    assert Candidate("", "c") == "node_modules/c" && |ONLY| == 29;
    NotAmong("node_modules/c");
    ExternalOfExample("node_modules/c");
  }

  lemma NotBelowTop()
    ensures Candidate(TOP, "c") !in Installed(SharedUrlLockfile())
  {
    var p := "node_modules/a/node_modules/c";
    assert Candidate(TOP, "c") == p;
    NotAmong(p);
    ExternalOfExample(p);
  }

  lemma NotBelowInner()
    ensures Candidate(INNER, "c") !in Installed(SharedUrlLockfile())
  {
    var p := INNER + "/node_modules/c";
    assert Candidate(INNER, "c") == p;
    assert |p| == 44 && |ONLY| == 29 && p[43] == 'c';
    NotAmong(p);
    ExternalOfExample(p);
  }

  lemma LookupFromRoot()
    ensures Resolve(Installed(SharedUrlLockfile()), "", "a") == Some(TOP)
  {
    assert Candidate("", "a") == TOP;
    ExternalOfExample(TOP);
  }

  lemma LookupFromTop()
    ensures Resolve(Installed(SharedUrlLockfile()), TOP, "c") == None
  {
    var installed := Installed(SharedUrlLockfile());
    NotBelowTop();
    NotBelowRoot();
    ParentOfTop(TOP);
    assert Resolve(installed, "", "c") == None;
  }

  lemma LookupFromInner()
    ensures Resolve(Installed(SharedUrlLockfile()), INNER, "c") == Some(ONLY)
  {
    var installed := Installed(SharedUrlLockfile());
    NotBelowInner();
    ParentOfInner();
    assert Candidate(OUTER, "c") == ONLY;
    ExternalOfExample(ONLY);
    assert Resolve(installed, OUTER, "c") == Some(ONLY);
  }

  /** The targets of an entry with one dependency. */
  lemma TargetsOfSingle(l: Lockfile, path: string, name: string, q: string)
    requires path in l.packages && l.packages[path].dependencies == [name] &&
      l.packages[path].optionalDependencies == []
    ensures q in Targets(l, path) <==> IsExternal(l, q) && Resolve(Installed(l), path, name) == Some(q)
  {
    var names := DependencyNames(l.packages[path]);
    assert [name] + [] == [name];
    assert forall n :: n in names <==> n in ToSet(names);
    TargetsOfExact(l, path, names, q);
  }

  lemma DependenciesOfExample()
    ensures var l := SharedUrlLockfile();
      "" in l.packages && TOP in l.packages && INNER in l.packages &&
      l.packages[""] == Plain(["a"]) && l.packages[TOP] == Plain(["c"]) && l.packages[INNER] == Plain(["c"])
  {
  }

  lemma TargetsOfRoot(q: string)
    ensures q in Targets(SharedUrlLockfile(), "") <==> q == TOP
  {
    LookupFromRoot();
    ExternalOfExample(TOP);
    DependenciesOfExample();
    TargetsOfSingle(SharedUrlLockfile(), "", "a", q);
  }

  lemma TargetsOfTop(q: string)
    ensures q !in Targets(SharedUrlLockfile(), TOP)
  {
    LookupFromTop();
    DependenciesOfExample();
    TargetsOfSingle(SharedUrlLockfile(), TOP, "c", q);
  }

  lemma TargetsOfInner(q: string)
    ensures q in Targets(SharedUrlLockfile(), INNER) <==> q == ONLY
  {
    LookupFromInner();
    ExternalOfExample(ONLY);
    DependenciesOfExample();
    TargetsOfSingle(SharedUrlLockfile(), INNER, "c", q);
  }

  lemma RefsOfOne(l: Lockfile, encode: string -> string, top: string)
    ensures RefsOf(l, encode, {top}) == {RefOf(l, encode, top)}
  {
    assert top in {top};
  }

  /** One entry is reached and leads nowhere; an unreached twin of it resolves to something of another URL. */
  ghost predicate Twins(l: Lockfile, encode: string -> string, top: string, twin: string, only: string) {
    ReachedPaths(l) == {top} && twin != top && twin in ToSet(ExternalPaths(l)) && only in Targets(l, twin) &&
    RefOf(l, encode, twin) == RefOf(l, encode, top) && RefOf(l, encode, only) != RefOf(l, encode, top)
  }

  lemma TwinsDisagree(l: Lockfile, encode: string -> string, top: string, twin: string, only: string)
    requires Twins(l, encode, top, twin, only)
    ensures RefOf(l, encode, only) !in ReachedRefs(l, encode) && !SharedUrlsAgree(l, encode)
  {
    RefsOfOne(l, encode, top);
    assert twin !in ReachedPaths(l);
    assert RefOf(l, encode, only) !in ReachedRefs(l, encode);
  }

  /** What the twin resolves to is listed, although no reached lock path stands for it. */
  lemma TwinsListUnreached(l: Lockfile, encode: string -> string, inventory: Inventory, top: string, twin: string,
                           only: string)
    requires Twins(l, encode, top, twin, only) && Describes(l, encode, inventory)
    ensures RefOf(l, encode, only) in Purls(inventory.components) && RefOf(l, encode, only) !in ReachedRefs(l, encode)
  {
    TwinsDisagree(l, encode, top, twin, only);
    assert top in ReachedPaths(l);
    ReachablePathsAreListed(l, encode, inventory, top);
    ListedDependency(l, encode, twin, only);
  }

  lemma RootPathsOfExample()
    ensures RootPaths(SharedUrlLockfile()) == {TOP}
  {
    var l := SharedUrlLockfile();
    forall i ensures i in ToSet(l.paths) && IsInternal(l, i) <==> i == "" {
      PackagesOfExample(i);
      if IsExamplePath(i) { StartOfExample(i); }
    }
    forall p ensures p in RootPaths(l) <==> p == TOP { TargetsOfRoot(p); }
  }

  /** What is reached from one root that leads nowhere. */
  lemma DeadEndReaches(l: Lockfile, top: string)
    requires RootPaths(l) == {top} && top in ToSet(ExternalPaths(l)) && forall q :: q !in Targets(l, top)
    ensures ReachedPaths(l) == {top}
  {
    ClosedContainsReachable(PathGraph(l), RootPaths(l), {top});
    ReachesRoot(PathGraph(l), RootPaths(l), top);
  }

  lemma OnlyTopIsReached()
    ensures ReachedPaths(SharedUrlLockfile()) == {TOP}
  {
    RootPathsOfExample();
    ExternalOfExample(TOP);
    forall q ensures q !in Targets(SharedUrlLockfile(), TOP) { TargetsOfTop(q); }
    DeadEndReaches(SharedUrlLockfile(), TOP);
  }

  /** The letter that a path of the example ends in. */
  function LetterOf(p: string): string {
    if p == OUTER then "b" else if p == ONLY then "c" else "a"
  }

  lemma EntryOfExample(p: string)
    requires IsExamplePath(p)
    ensures Meta(SharedUrlLockfile(), p) == Some(Coordinates(LetterOf(p), "1", "M", "d"))
    ensures RefOf(SharedUrlLockfile(), Identity(), p) == PurlOfOne(LetterOf(p)) && IsLetter(LetterOf(p))
  {
    Entries();
  }

  lemma ExampleIsConsistent()
    ensures MetadataConsistent(SharedUrlLockfile(), Identity(), ExternalPaths(SharedUrlLockfile()))
  {
    var l := SharedUrlLockfile();
    forall p | p in ExternalPaths(l) ensures Meta(l, p).Some? {
      ExternalOfExample(p);
      EntryOfExample(p);
    }
    forall p, q | p in ExternalPaths(l) && q in ExternalPaths(l) && RefOf(l, Identity(), p) == RefOf(l, Identity(), q)
      ensures Meta(l, p) == Meta(l, q)
    {
      ExternalOfExample(p);
      ExternalOfExample(q);
      EntryOfExample(p);
      EntryOfExample(q);
      if LetterOf(p) != LetterOf(q) { PurlsDiffer(LetterOf(p), LetterOf(q)); }
    }
  }

  lemma ExampleIsOfficial()
    ensures OfficialOnly(SharedUrlLockfile())
  {
    forall p | p in SharedUrlLockfile().packages ensures SharedUrlLockfile().packages[p].officialUrl {
      PackagesOfExample(p);
    }
  }

  lemma TwinOfExample()
    ensures var l := SharedUrlLockfile(); INNER in ToSet(ExternalPaths(l)) && INNER != TOP && ONLY in Targets(l, INNER)
  {
    TargetsOfInner(ONLY);
    ExternalOfExample(INNER);
    assert |INNER| != |TOP|;
  }

  /**
   * An accepted lockfile with such twins: two copies of `a`, of which only the one below the unused `b` finds
   * its dependency `c`.
   */
  lemma SharedUrlExample() returns (l: Lockfile, encode: string -> string, top: string, twin: string, only: string)
    ensures Accepted(l, encode) && Twins(l, encode, top, twin, only)
  {
    l, encode, top, twin, only := SharedUrlLockfile(), Identity(), TOP, INNER, ONLY;
    ExampleIsConsistent();
    ExampleIsOfficial();
    DependenciesOfExample();
    OnlyTopIsReached();
    TwinOfExample();
    Entries();
    PurlsDiffer("a", "c");
  }

  /** Every inventory of the lockfile lists the URL, but no reached lock path stands for it. */
  ghost predicate ListsUnreached(l: Lockfile, encode: string -> string, ref: string) {
    ref !in ReachedRefs(l, encode) &&
    forall inventory | Describes(l, encode, inventory) :: ref in Purls(inventory.components)
  }

  lemma TwinsMakeUnreached(l: Lockfile, encode: string -> string, top: string, twin: string, only: string)
    requires Twins(l, encode, top, twin, only)
    ensures ListsUnreached(l, encode, RefOf(l, encode, only))
  {
    TwinsDisagree(l, encode, top, twin, only);
    forall inventory | Describes(l, encode, inventory) ensures RefOf(l, encode, only) in Purls(inventory.components) {
      TwinsListUnreached(l, encode, inventory, top, twin, only);
    }
  }

  /** There are accepted lockfiles that list such a URL. */
  lemma SharedUrlListsUnreached() returns (l: Lockfile, encode: string -> string, ref: string)
    ensures Accepted(l, encode) && ListsUnreached(l, encode, ref)
  {
    var top, twin, only;
    l, encode, top, twin, only := SharedUrlExample();
    ref := RefOf(l, encode, only);
    TwinsMakeUnreached(l, encode, top, twin, only);
  }
}
