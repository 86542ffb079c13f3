/** The inventory of a lockfile, what it promises, and the SBOM built from it. */
module Sbom {
  import opened Sequences
  import opened Text
  import opened Graphs
  import opened LockPaths
  import opened SupplyChain
  import opened DependencyClosure

  predicate OfficialOnly(l: Lockfile) {
    forall p | p in l.packages && StartsWith(p, MARKER) && !l.packages[p].link :: l.packages[p].officialUrl
  }

  /** The lockfiles from which an inventory is produced at all. */
  predicate Accepted(l: Lockfile, encode: string -> string) {
    l.lockfileVersion == 3 && "" in l.packages && OfficialOnly(l) && MetadataConsistent(l, encode, ExternalPaths(l))
  }

  /** The dependency graph between the package URLs of the external entries. */
  function RefGraph(l: Lockfile, encode: string -> string): Graph {
    map ref | ref in RefsOf(l, encode, ToSet(ExternalPaths(l))) :: DependencyRefs(l, encode, ExternalPaths(l), ref)
  }

  function RootRefs(l: Lockfile, encode: string -> string): set<string> {
    RootRefsOf(l, encode, l.paths)
  }

  /** The resolution steps between external entries. */
  function PathGraph(l: Lockfile): Graph {
    map p | p in ToSet(ExternalPaths(l)) :: Targets(l, p)
  }

  /** The external entries that some internal package resolves a dependency to. */
  function RootPaths(l: Lockfile): set<string> {
    set p, q | p in ToSet(l.paths) && IsInternal(l, p) && q in Targets(l, p) :: q
  }

  function Purls(components: seq<Component>): set<string> {
    set c | c in components :: c.purl
  }

  /**
   * The components are exactly those reachable from the root dependencies, in the order of their
   * URLs, each standing for all lock paths of its URL and for all their dependencies.
   */
  ghost predicate Describes(l: Lockfile, encode: string -> string, inventory: Inventory) {
    ToSet(inventory.rootDependencies) == RootRefs(l, encode) &&
    (forall i, j | 0 <= i < j < |inventory.components| ::
       inventory.components[i].purl != inventory.components[j].purl &&
       Leq(inventory.components[i].purl, inventory.components[j].purl)) &&
    (forall ref :: ref in Purls(inventory.components) <==> Reaches(RefGraph(l, encode), RootRefs(l, encode), ref)) &&
    forall c | c in inventory.components ::
      Merges(l, encode, ExternalPaths(l), c.purl, c) &&
      ToSet(c.dependencies) == DependencyRefs(l, encode, ExternalPaths(l), c.purl)
  }

  /** Closed under what the root and the URLs depend on. */
  ghost predicate HoldsDependencies(l: Lockfile, encode: string -> string, s: set<string>) {
    (forall x | RootDependsOn(l, encode, x) :: x in s) &&
    forall ref, x | ref in s && UrlDependsOn(l, encode, ref, x) :: x in s
  }

  /**
   * What an inventory says in terms of the lockfile alone: the root dependencies and those of each component are
   * the ones that entries name and the lookup finds, and the listed URLs are the least set that holds them.
   */
  ghost predicate FollowsLockfile(l: Lockfile, encode: string -> string, inventory: Inventory) {
    (forall x :: x in inventory.rootDependencies <==> RootDependsOn(l, encode, x)) &&
    (forall c, x | c in inventory.components :: x in c.dependencies <==> UrlDependsOn(l, encode, c.purl, x)) &&
    HoldsDependencies(l, encode, Purls(inventory.components)) &&
    forall s | HoldsDependencies(l, encode, s) :: Purls(inventory.components) <= s
  }

  lemma DescribedFollowsLockfile(l: Lockfile, encode: string -> string, inventory: Inventory)
    requires Describes(l, encode, inventory)
    ensures FollowsLockfile(l, encode, inventory)
  {
    forall x ensures x in inventory.rootDependencies <==> RootDependsOn(l, encode, x) {
      RootDependsExactly(l, encode, x);
      assert x in inventory.rootDependencies <==> x in ToSet(inventory.rootDependencies);
    }
    forall c, x | c in inventory.components ensures x in c.dependencies <==> UrlDependsOn(l, encode, c.purl, x) {
      UrlDependsExactly(l, encode, c.purl, x);
      assert x in c.dependencies <==> x in ToSet(c.dependencies);
    }
    ListedHolds(l, encode, inventory);
    forall s | HoldsDependencies(l, encode, s) ensures Purls(inventory.components) <= s {
      HoldsIsClosed(l, encode, s);
      ClosedContainsReachable(RefGraph(l, encode), RootRefs(l, encode), s);
    }
  }

  lemma HoldsIsClosed(l: Lockfile, encode: string -> string, s: set<string>)
    requires HoldsDependencies(l, encode, s)
    ensures RootRefs(l, encode) <= s && ClosedUnder(RefGraph(l, encode), s)
  {
    forall x | x in RootRefs(l, encode) ensures x in s { RootDependsExactly(l, encode, x); }
    forall ref, x | ref in s && x in Next(RefGraph(l, encode), ref) ensures x in s {
      UrlDependsExactly(l, encode, ref, x);
    }
  }

  lemma ListedHolds(l: Lockfile, encode: string -> string, inventory: Inventory)
    requires Describes(l, encode, inventory)
    ensures HoldsDependencies(l, encode, Purls(inventory.components))
  {
    var g, roots := RefGraph(l, encode), RootRefs(l, encode);
    forall x | RootDependsOn(l, encode, x) ensures x in Purls(inventory.components) {
      RootDependsExactly(l, encode, x);
      ReachesRoot(g, roots, x);
    }
    RefGraphIsClosed(l, encode);
    forall ref, x | ref in Purls(inventory.components) && UrlDependsOn(l, encode, ref, x)
      ensures x in Purls(inventory.components)
    {
      UrlDependsExactly(l, encode, ref, x);
      ReachesNext(g, roots, ref, x);
    }
  }

  method CheckRegistry(l: Lockfile) returns (ok: bool)
    ensures ok <==> OfficialOnly(l)
  {
    for i := 0 to |l.paths|
      invariant forall p | p in l.paths[..i] && StartsWith(p, MARKER) && !l.packages[p].link ::
        l.packages[p].officialUrl
    {
      assert l.paths[i] in ToSet(l.paths);
      if StartsWith(l.paths[i], MARKER) && !l.packages[l.paths[i]].link && !l.packages[l.paths[i]].officialUrl {
        return false;
      }
    }
    assert forall p | p in l.packages :: p in ToSet(l.paths) && p in l.paths[..|l.paths|];
    return true;
  }

  /** The components of the given package URLs, in that order. */
  function Select(components: map<string, Component>, refs: seq<string>): seq<Component>
    requires forall ref | ref in refs :: ref in components
  {
    seq(|refs|, i requires 0 <= i < |refs| => components[refs[i]])
  }

  method SelectReachable(components: map<string, Component>, reachable: set<string>) returns (r: seq<Component>)
    requires forall ref | ref in components :: components[ref].purl == ref
    requires reachable <= components.Keys
    ensures Purls(r) == reachable
    ensures forall c | c in r :: c.purl in components && c == components[c.purl]
    ensures forall i, j | 0 <= i < j < |r| :: r[i].purl != r[j].purl && Leq(r[i].purl, r[j].purl)
  {
    var refs := SortedElements(reachable);
    r := Select(components, refs);
    forall ref ensures ref in Purls(r) <==> ref in reachable {
      if ref in reachable {
        assert ref in ToSet(refs);
        var i :| 0 <= i < |refs| && refs[i] == ref;
        assert r[i] in r && r[i].purl == ref;
      }
    }
  }

  method SortedElements(s: set<string>) returns (r: seq<string>)
    ensures StrictlySorted(r) && ToSet(r) == s
  {
    var rest, listed := s, [];
    while rest != {}
      invariant rest + ToSet(listed) == s
      decreases rest
    {
      var x :| x in rest;
      assert ToSet(listed + [x]) == ToSet(listed) + {x};
      rest, listed := rest - {x}, listed + [x];
    }
    r := SortUnique(listed);
  }

  lemma LinkedGraph(l: Lockfile, encode: string -> string, components: map<string, Component>)
    requires components.Keys == RefsOf(l, encode, ToSet(ExternalPaths(l)))
    requires forall ref | ref in components ::
      ToSet(components[ref].dependencies) == DependencyRefs(l, encode, ExternalPaths(l), ref)
    ensures ComponentGraph(components) == RefGraph(l, encode)
  {
  }

  lemma LinkedMerges(l: Lockfile, encode: string -> string, t: Table, components: map<string, Component>)
    requires Tabulates(l, encode, ExternalPaths(l), t) && Linked(l, encode, ExternalPaths(l), t.components, components)
    ensures forall ref | ref in components ::
      components[ref].purl == ref && Merges(l, encode, ExternalPaths(l), ref, components[ref]) &&
      ToSet(components[ref].dependencies) == DependencyRefs(l, encode, ExternalPaths(l), ref)
  {
    forall ref | ref in components
      ensures components[ref].purl == ref && Merges(l, encode, ExternalPaths(l), ref, components[ref])
    {
      assert Merges(l, encode, ExternalPaths(l), ref, t.components[ref]);
      assert SameExceptDependencies(components[ref], t.components[ref]);
    }
  }

  lemma TargetsAreExternal(l: Lockfile, path: string)
    ensures Targets(l, path) <= ToSet(ExternalPaths(l))
  {
    forall q | q in Targets(l, path) ensures q in ToSet(ExternalPaths(l)) {
      TargetsOfExact(l, path, DependencyNames(l.packages[path]), q);
      ExternalPathsExact(l, q);
    }
  }

  lemma TargetRefsAreRefs(l: Lockfile, encode: string -> string, path: string)
    ensures TargetRefs(l, encode, path) <= RefsOf(l, encode, ToSet(ExternalPaths(l)))
  {
    TargetsAreExternal(l, path);
  }

  /** The graph never leaves the URLs of external entries. */
  lemma RefGraphIsClosed(l: Lockfile, encode: string -> string)
    ensures RootRefs(l, encode) <= RefGraph(l, encode).Keys
    ensures ClosedUnder(RefGraph(l, encode), RefGraph(l, encode).Keys)
    ensures forall ref | Reaches(RefGraph(l, encode), RootRefs(l, encode), ref) :: ref in RefGraph(l, encode)
  {
    var g := RefGraph(l, encode);
    forall x | x in RootRefs(l, encode) ensures x in g {
      RootRefsExact(l, encode, l.paths, x);
      var p :| p in l.paths && IsInternal(l, p) && x in TargetRefs(l, encode, p);
      TargetRefsAreRefs(l, encode, p);
    }
    forall ref, x | ref in g && x in g[ref] ensures x in g {
      DependencyRefsExact(l, encode, ExternalPaths(l), ref, x);
      var p :| p in ExternalPaths(l) && RefOf(l, encode, p) == ref && x in TargetRefs(l, encode, p);
      TargetRefsAreRefs(l, encode, p);
    }
    ClosedContainsReachable(g, RootRefs(l, encode), g.Keys);
  }

  /** From the merged components to the inventory: dependencies, root dependencies, and what these reach. */
  method InventoryOf(l: Lockfile, encode: string -> string, paths: seq<string>, t: Table)
    returns (inventory: Inventory)
    requires paths == ExternalPaths(l) && Tabulates(l, encode, paths, t) && WithoutDependencies(t)
    ensures Describes(l, encode, inventory) && FollowsLockfile(l, encode, inventory)
  {
    TableRefs(l, encode, t);
    var components := LinkComponents(l, encode, paths, t);
    LinkedMerges(l, encode, t, components);
    LinkedGraph(l, encode, components);
    var rootDependencies := RootDependencies(l, encode, t.refs);
    var reachable := InventoryRootRefs(rootDependencies, components);
    RefGraphIsClosed(l, encode);
    var selected := SelectReachable(components, reachable);
    inventory := Inventory(selected, rootDependencies);
    DescribedFollowsLockfile(l, encode, inventory);
  }

  /** From a parsed lockfile to the sorted components that its root dependencies reach. */
  method NormalizeLockfile(l: Lockfile, encode: string -> string) returns (r: Result<Inventory>)
    ensures r.Ok? <==> Accepted(l, encode)
    ensures r.Ok? ==> Describes(l, encode, r.value) && FollowsLockfile(l, encode, r.value)
    ensures r == Err(NotPackageLockV3) <==> l.lockfileVersion != 3 || "" !in l.packages
    ensures r == Err(UnofficialRegistry) <==> l.lockfileVersion == 3 && "" in l.packages && !OfficialOnly(l)
    ensures l.lockfileVersion == 3 && "" in l.packages && OfficialOnly(l) ==>
      (r == Err(InvalidMetadata) <==> StopsFor(l, encode, ExternalPaths(l), true)) &&
      (r == Err(ConflictingMetadata) <==> StopsFor(l, encode, ExternalPaths(l), false))
  {
    if l.lockfileVersion != 3 || "" !in l.packages { return Err(NotPackageLockV3); }
    var official := CheckRegistry(l);
    if !official { return Err(UnofficialRegistry); }
    var paths := ExternalPaths(l);
    forall p | p in paths ensures p in l.packages { ExternalPathsExact(l, p); }
    var collected := CollectComponents(l, encode, paths);
    if collected.Err? { return Err(collected.error); }
    var inventory := InventoryOf(l, encode, paths, collected.value);
    return Ok(inventory);
  }

  // ----- what the inventory promises

  /** Every dependency of the root or of a listed component is itself listed. */
  lemma DependenciesAreListed(l: Lockfile, encode: string -> string, inventory: Inventory)
    requires Describes(l, encode, inventory)
    ensures ToSet(inventory.rootDependencies) <= Purls(inventory.components)
    ensures forall c | c in inventory.components :: ToSet(c.dependencies) <= Purls(inventory.components)
  {
    var g, roots := RefGraph(l, encode), RootRefs(l, encode);
    forall ref | ref in roots ensures ref in Purls(inventory.components) { ReachesRoot(g, roots, ref); }
    RefGraphIsClosed(l, encode);
    forall c, d | c in inventory.components && d in ToSet(c.dependencies) ensures d in Purls(inventory.components) {
      assert c.purl in Purls(inventory.components);
      ReachesNext(g, roots, c.purl, d);
    }
  }

  /** The listed URLs are the least set that holds the root dependencies and is closed under dependencies. */
  lemma ListedIsLeastClosedSet(l: Lockfile, encode: string -> string, inventory: Inventory, s: set<string>)
    requires Describes(l, encode, inventory)
    requires RootRefs(l, encode) <= s && ClosedUnder(RefGraph(l, encode), s)
    ensures Purls(inventory.components) <= s
  {
    ClosedContainsReachable(RefGraph(l, encode), RootRefs(l, encode), s);
  }

  /** The URL of every external entry that resolution reaches from an internal package is listed. */
  lemma ReachablePathsAreListed(l: Lockfile, encode: string -> string, inventory: Inventory, path: string)
    requires Describes(l, encode, inventory) && Reaches(PathGraph(l), RootPaths(l), path)
    ensures RefOf(l, encode, path) in Purls(inventory.components)
  {
    var w :| WalkTo(PathGraph(l), RootPaths(l), w, path);
    WalkIsListed(l, encode, inventory, w);
  }

  lemma {:induction false} WalkIsListed(l: Lockfile, encode: string -> string, inventory: Inventory, w: seq<string>)
    requires Describes(l, encode, inventory) && Walk(PathGraph(l), w) && w[0] in RootPaths(l)
    ensures RefOf(l, encode, w[|w| - 1]) in Purls(inventory.components)
  {
    var g, roots := RefGraph(l, encode), RootRefs(l, encode);
    var last := |w| - 1;
    if last == 0 {
      var p :| p in ToSet(l.paths) && IsInternal(l, p) && w[0] in Targets(l, p);
      RootRefsExact(l, encode, l.paths, RefOf(l, encode, w[0]));
      assert RefOf(l, encode, w[0]) in TargetRefs(l, encode, p);
      ReachesRoot(g, roots, RefOf(l, encode, w[0]));
    } else {
      WalkIsListed(l, encode, inventory, w[..last]);
      var p, q := w[last - 1], w[last];
      assert q in Next(PathGraph(l), p);
      StepOfRefs(l, encode, p, q);
      if RefOf(l, encode, q) != RefOf(l, encode, p) {
        ReachesNext(g, roots, RefOf(l, encode, p), RefOf(l, encode, q));
      }
    }
  }

  lemma StepOfRefs(l: Lockfile, encode: string -> string, p: string, q: string)
    requires q in Next(PathGraph(l), p)
    ensures RefOf(l, encode, q) == RefOf(l, encode, p) ||
      RefOf(l, encode, q) in Next(RefGraph(l, encode), RefOf(l, encode, p))
  {
    var ref, x := RefOf(l, encode, p), RefOf(l, encode, q);
    assert p in ToSet(ExternalPaths(l)) && q in Targets(l, p);
    DependencyRefsExact(l, encode, ExternalPaths(l), ref, x);
    assert x in TargetRefs(l, encode, p);
    assert ref in RefsOf(l, encode, ToSet(ExternalPaths(l)));
  }

  /** A listed component is optional exactly when every external entry of its URL is. */
  lemma OptionalExact(l: Lockfile, encode: string -> string, inventory: Inventory, c: Component)
    requires Describes(l, encode, inventory) && c in inventory.components
    ensures c.optional <==> forall p | IsExternal(l, p) && RefOf(l, encode, p) == c.purl :: l.packages[p].optional
    ensures forall p :: p in c.lockPaths <==> IsExternal(l, p) && RefOf(l, encode, p) == c.purl
  {
    var paths := ExternalPaths(l);
    assert Merges(l, encode, paths, c.purl, c);
    forall p ensures p in paths <==> IsExternal(l, p) { ExternalPathsExact(l, p); }
    forall p ensures p in c.lockPaths <==> IsExternal(l, p) && RefOf(l, encode, p) == c.purl {
      FilterMembers(paths, HasRef(l, encode, c.purl), p);
    }
  }

  // ----- the SBOM

  datatype DependencyEntry = DependencyEntry(ref: string, dependsOn: seq<string>)

  datatype Scope = Required | OptionalScope

  datatype SbomComponent = SbomComponent(bomRef: string, version: string, scope: Scope, digest: string, license: string)

  datatype Document = Document(rootRef: string, components: seq<SbomComponent>, dependencies: seq<DependencyEntry>)

  function RefKey(): DependencyEntry -> string {
    (d: DependencyEntry) => d.ref
  }

  function CyclonedxComponent(c: Component): SbomComponent {
    SbomComponent(c.purl, c.coordinates.version, if c.optional then OptionalScope else Required,
                  c.coordinates.digest, c.coordinates.license)
  }

  function CyclonedxComponents(components: seq<Component>): seq<SbomComponent> {
    seq(|components|, i requires 0 <= i < |components| => CyclonedxComponent(components[i]))
  }

  function DependencyEntries(rootRef: string, inventory: Inventory): seq<DependencyEntry> {
    [DependencyEntry(rootRef, SortUnique(inventory.rootDependencies))] +
    seq(|inventory.components|, i requires 0 <= i < |inventory.components| =>
      DependencyEntry(inventory.components[i].purl, SortUnique(inventory.components[i].dependencies)))
  }

  function BuildSbom(rootRef: string, inventory: Inventory): Document {
    Document(rootRef, CyclonedxComponents(inventory.components),
         SortByKey(DependencyEntries(rootRef, inventory), RefKey()))
  }

  function EntryRefs(entries: seq<DependencyEntry>): set<string> {
    set d | d in entries :: d.ref
  }

  function BomRefs(components: seq<SbomComponent>): set<string> {
    set c | c in components :: c.bomRef
  }

  /**
   * In the document every dependency names a listed component, the root and the components are the
   * ones that have an entry, and the entries stand in the order of their refs.
   */
  lemma DocumentIsClosed(l: Lockfile, encode: string -> string, inventory: Inventory, rootRef: string)
    requires Describes(l, encode, inventory)
    ensures var bom := BuildSbom(rootRef, inventory);
            SortedByKey(bom.dependencies, RefKey()) &&
            EntryRefs(bom.dependencies) == {rootRef} + BomRefs(bom.components) &&
            forall d | d in bom.dependencies :: ToSet(d.dependsOn) <= BomRefs(bom.components)
  {
    var bom := BuildSbom(rootRef, inventory);
    var entries := DependencyEntries(rootRef, inventory);
    SortByKeySorted(entries, RefKey());
    DependenciesAreListed(l, encode, inventory);
    ListedRefs(inventory);
    RefsOfEntries(rootRef, inventory);
    forall d ensures d in bom.dependencies <==> d in entries {
      SameMultisetSameMembers(bom.dependencies, entries, d);
    }
    EntriesNameListed(inventory, rootRef);
  }

  lemma EntriesNameListed(inventory: Inventory, rootRef: string)
    requires ToSet(inventory.rootDependencies) <= Purls(inventory.components)
    requires forall c | c in inventory.components :: ToSet(c.dependencies) <= Purls(inventory.components)
    ensures forall d | d in DependencyEntries(rootRef, inventory) :: ToSet(d.dependsOn) <= Purls(inventory.components)
  {
    var entries := DependencyEntries(rootRef, inventory);
    forall d | d in entries ensures ToSet(d.dependsOn) <= Purls(inventory.components) {
      var i :| 0 <= i < |entries| && entries[i] == d;
      if i > 0 { assert inventory.components[i - 1] in inventory.components; }
    }
  }

  lemma EntryOf(rootRef: string, inventory: Inventory, d: DependencyEntry)
    requires d in BuildSbom(rootRef, inventory).dependencies
    ensures d == DependencyEntry(rootRef, SortUnique(inventory.rootDependencies)) ||
            exists c | c in inventory.components :: d == DependencyEntry(c.purl, SortUnique(c.dependencies))
  {
    var entries := DependencyEntries(rootRef, inventory);
    SameMultisetSameMembers(BuildSbom(rootRef, inventory).dependencies, entries, d);
    var i :| 0 <= i < |entries| && entries[i] == d;
    if i > 0 { assert inventory.components[i - 1] in inventory.components; }
  }

  lemma SortedMembers(names: seq<string>)
    ensures forall x :: x in SortUnique(names) <==> x in names
  {
    forall x ensures x in SortUnique(names) <==> x in names {
      assert x in SortUnique(names) <==> x in ToSet(SortUnique(names));
    }
  }

  /** Each entry of the document spells out, sorted, exactly what the root or its component depends on. */
  lemma DocumentEdgesExact(l: Lockfile, encode: string -> string, inventory: Inventory, rootRef: string,
                           d: DependencyEntry)
    requires Describes(l, encode, inventory) && d in BuildSbom(rootRef, inventory).dependencies
    ensures StrictlySorted(d.dependsOn)
    ensures (d.ref == rootRef && forall x :: x in d.dependsOn <==> RootDependsOn(l, encode, x)) ||
            (d.ref in Purls(inventory.components) &&
             forall x :: x in d.dependsOn <==> UrlDependsOn(l, encode, d.ref, x))
  {
    EntryOf(rootRef, inventory, d);
    DescribedFollowsLockfile(l, encode, inventory);
    if d == DependencyEntry(rootRef, SortUnique(inventory.rootDependencies)) {
      SortedMembers(inventory.rootDependencies);
    } else {
      var c :| c in inventory.components && d == DependencyEntry(c.purl, SortUnique(c.dependencies));
      SortedMembers(c.dependencies);
      assert c.purl in Purls(inventory.components);
    }
  }

  /** A component is listed as optional exactly when every external entry of its URL is optional. */
  lemma DocumentScopeExact(l: Lockfile, encode: string -> string, inventory: Inventory, rootRef: string,
                           c: SbomComponent)
    requires Describes(l, encode, inventory) && c in BuildSbom(rootRef, inventory).components
    ensures c.scope == OptionalScope <==> forall p | IsExternal(l, p) && RefOf(l, encode, p) == c.bomRef ::
      l.packages[p].optional
    ensures forall p | IsExternal(l, p) && RefOf(l, encode, p) == c.bomRef ::
      Meta(l, p).Some? && Meta(l, p).value.version == c.version &&
      Meta(l, p).value.digest == c.digest && Meta(l, p).value.license == c.license
  {
    var i :| 0 <= i < |inventory.components| && CyclonedxComponents(inventory.components)[i] == c;
    var component := inventory.components[i];
    assert component in inventory.components;
    OptionalExact(l, encode, inventory, component);
    forall p | IsExternal(l, p) && RefOf(l, encode, p) == c.bomRef ensures Meta(l, p) == Some(component.coordinates) {
      ExternalPathsExact(l, p);
    }
  }

  lemma ListedRefs(inventory: Inventory)
    ensures BomRefs(CyclonedxComponents(inventory.components)) == Purls(inventory.components)
  {
    var listed := CyclonedxComponents(inventory.components);
    forall ref ensures ref in BomRefs(listed) <==> ref in Purls(inventory.components) {
      if ref in Purls(inventory.components) {
        var i :| 0 <= i < |inventory.components| && inventory.components[i].purl == ref;
        assert listed[i] in listed;
      }
      if ref in BomRefs(listed) {
        var i :| 0 <= i < |listed| && listed[i].bomRef == ref;
        assert inventory.components[i] in inventory.components;
      }
    }
  }

  lemma RefsOfEntries(rootRef: string, inventory: Inventory)
    ensures EntryRefs(DependencyEntries(rootRef, inventory)) == {rootRef} + Purls(inventory.components)
  {
    var entries := DependencyEntries(rootRef, inventory);
    forall ref ensures ref in EntryRefs(entries) <==> ref == rootRef || ref in Purls(inventory.components) {
      assert entries[0] in entries;
      if ref in Purls(inventory.components) {
        var i :| 0 <= i < |inventory.components| && inventory.components[i].purl == ref;
        assert entries[i + 1] in entries && entries[i + 1].ref == ref;
      }
      if ref in EntryRefs(entries) {
        var i :| 0 <= i < |entries| && entries[i].ref == ref;
        if i > 0 { assert inventory.components[i - 1] in inventory.components; }
      }
    }
  }
}
