/** From a package lock to the inventory of external production components and its SBOM. */
module SupplyChain {
  import opened Sequences
  import opened Text
  import opened LockPaths

  /**
   * A lockfile entry. `officialUrl` says that its resolved URL is an absolute URL of the official
   * registry without credentials, query or fragment; `digest` is its first supported integrity digest.
   */
  datatype PackageEntry = PackageEntry(
    dev: bool,
    link: bool,
    optional: bool,
    version: string,
    license: string,
    officialUrl: bool,
    digest: Option<string>,
    dependencies: seq<string>,
    optionalDependencies: seq<string>)

  /** The entries by path, and the paths in the order in which the file lists them. */
  datatype LockfileData = LockfileData(lockfileVersion: int, paths: seq<string>, packages: map<string, PackageEntry>)

  type Lockfile = l: LockfileData | Distinct(l.paths) && ToSet(l.paths) == l.packages.Keys
    witness LockfileData(3, [], map[])

  datatype Error = NotPackageLockV3 | UnofficialRegistry | InvalidMetadata | ConflictingMetadata

  datatype Result<+T> = Ok(value: T) | Err(error: Error)

  // ----- what one entry contributes

  predicate IsControl(c: char) {
    c as int <= 0x1F || c as int == 0x7F
  }

  function MetadataText(s: string): Option<string> {
    var t := Trim(s);
    if t == "" || |t| > 512 || exists c | c in t :: IsControl(c) then None else Some(t)
  }

  function NpmPurl(encode: string -> string, packageName: string, version: string): string {
    var slash := IndexOf(packageName, '/');
    var scoped := StartsWith(packageName, "@");
    var group := if !scoped then "" else if slash < 0 then packageName[..|packageName| - 1] else packageName[..slash];
    var name := if scoped then packageName[slash + 1..] else packageName;
    "pkg:npm/" + (if group != "" then encode(group) + "/" else "") + encode(name) + "@" + encode(version)
  }

  datatype Coordinates = Coordinates(packageName: string, version: string, license: string, digest: string)

  function CoordinatesOf(path: string, e: PackageEntry): Option<Coordinates> {
    match (PackageNameFromLockPath(path), MetadataText(e.version), MetadataText(e.license), e.digest)
    case (Some(n), Some(v), Some(l), Some(d)) => Some(Coordinates(n, v, l, d))
    case _ => None
  }

  function DependencyNames(e: PackageEntry): seq<string> {
    SortUnique(e.dependencies + e.optionalDependencies)
  }

  predicate IsExternal(l: Lockfile, path: string) {
    path in l.packages && StartsWith(path, MARKER) && !l.packages[path].dev && !l.packages[path].link
  }

  predicate IsInternal(l: Lockfile, path: string) {
    path in l.packages && (path == "" || (!StartsWith(path, MARKER) && !l.packages[path].link))
  }

  function External(l: Lockfile): string -> bool {
    path => IsExternal(l, path)
  }

  function ExternalPaths(l: Lockfile): seq<string> {
    SortUnique(Filter(l.paths, External(l)))
  }

  lemma ExternalPathsExact(l: Lockfile, path: string)
    ensures path in ExternalPaths(l) <==> IsExternal(l, path)
  {
    FilterMembers(l.paths, External(l), path);
    assert path in ExternalPaths(l) <==> path in ToSet(ExternalPaths(l));
    assert path in l.packages <==> path in ToSet(l.paths);
  }

  /** The entries a lookup may return. */
  function Installed(l: Lockfile): set<string> {
    set p | p in l.packages && !l.packages[p].dev && !l.packages[p].link
  }

  function Meta(l: Lockfile, path: string): Option<Coordinates> {
    if path in l.packages then CoordinatesOf(path, l.packages[path]) else None
  }

  predicate IsOptional(l: Lockfile, path: string) {
    path in l.packages && l.packages[path].optional
  }

  /** The package URL of the entry at `path`. */
  function RefOf(l: Lockfile, encode: string -> string, path: string): string {
    match Meta(l, path)
    case None => ""
    case Some(c) => NpmPurl(encode, c.packageName, c.version)
  }

  function RefsOf(l: Lockfile, encode: string -> string, paths: set<string>): set<string> {
    set p | p in paths :: RefOf(l, encode, p)
  }

  // ----- what metadata and URL are, in terms of the entry

  /** The text without surrounding white space, not empty, not too long and free of control characters. */
  predicate IsMetadata(raw: string, t: string) {
    t == Trim(raw) && 1 <= |t| <= 512 && forall c | c in t :: c as int > 31 && c as int != 127
  }

  lemma MetadataTextExact(raw: string, t: string)
    ensures MetadataText(raw) == Some(t) <==> IsMetadata(raw, t)
  {
  }

  /**
   * An entry has metadata exactly when the text behind the last marker of its path is a well-formed name, its
   * version and license are usable texts and it has a digest; and these four are the metadata.
   */
  lemma MetaExact(l: Lockfile, path: string, c: Coordinates)
    ensures Meta(l, path) == Some(c) <==>
      path in l.packages && LastIndexOf(path, MARKER) >= 0 &&
      c.packageName == path[LastIndexOf(path, MARKER) + |MARKER|..] && WellFormedName(c.packageName) &&
      IsMetadata(l.packages[path].version, c.version) && IsMetadata(l.packages[path].license, c.license) &&
      l.packages[path].digest == Some(c.digest)
  {
    ParsedNameIsSuffix(path);
    if path in l.packages {
      MetadataTextExact(l.packages[path].version, c.version);
      MetadataTextExact(l.packages[path].license, c.license);
    }
  }

  lemma SinglePiece(s: string)
    requires |Split(s, '/')| == 1
    ensures '/' !in s && Split(s, '/') == [s]
  {
    JoinSplit(s, '/');
    SplitPieces(s, '/');
    assert Split(s, '/')[0] in Split(s, '/');
  }

  /** A well-formed name with a slash is a scope, which starts with `@`, and one more piece. */
  lemma ScopedName(name: string, scope: string, rest: string)
    requires WellFormedName(name) && name == scope + ['/'] + rest
    ensures '/' !in scope && '/' !in rest && StartsWith(name, "@") && IndexOf(name, '/') == |scope|
  {
    SplitConcat(scope, rest, '/');
    SinglePiece(scope);
    SinglePiece(rest);
    assert Split(name, '/')[0] == scope;
    assert name[|scope|] == '/';
  }

  /** The URL of a package is its name and version, both encoded; a scope is encoded apart from the rest. */
  lemma UrlExact(l: Lockfile, encode: string -> string, path: string)
    requires Meta(l, path).Some?
    ensures var c := Meta(l, path).value;
      ('/' !in c.packageName ==>
         RefOf(l, encode, path) == "pkg:npm/" + encode(c.packageName) + "@" + encode(c.version)) &&
      forall scope, rest | c.packageName == scope + ['/'] + rest ::
        RefOf(l, encode, path) == "pkg:npm/" + (encode(scope) + "/") + encode(rest) + "@" + encode(c.version)
  {
    var c := Meta(l, path).value;
    MetaExact(l, path, c);
    var name := c.packageName;
    if '/' !in name {
      SplitPlain(name, '/');
    }
    forall scope, rest | name == scope + ['/'] + rest
      ensures NpmPurl(encode, name, c.version) ==
              "pkg:npm/" + (encode(scope) + "/") + encode(rest) + "@" + encode(c.version)
    {
      ScopedName(name, scope, rest);
      ScopedUrl(encode, name, scope, rest, c.version);
    }
  }

  lemma ScopedUrl(encode: string -> string, name: string, scope: string, rest: string, version: string)
    requires name == scope + ['/'] + rest && StartsWith(name, "@") && IndexOf(name, '/') == |scope|
    ensures NpmPurl(encode, name, version) ==
            "pkg:npm/" + (encode(scope) + "/") + encode(rest) + "@" + encode(version)
  {
    assert name[0] == '@' && scope != "";
    assert name[..|scope|] == scope && name[|scope| + 1..] == rest;
  }

  // ----- the merged inventory

  datatype Component = Component(
    coordinates: Coordinates,
    purl: string,
    optional: bool,
    lockPaths: seq<string>,
    dependencies: seq<string>)

  datatype Table = Table(refs: map<string, string>, components: map<string, Component>)

  datatype Inventory = Inventory(components: seq<Component>, rootDependencies: seq<string>)

  function HasRef(l: Lockfile, encode: string -> string, ref: string): string -> bool {
    path => RefOf(l, encode, path) == ref
  }

  /** The component stands for exactly the lock paths of its URL and agrees with the metadata of each. */
  predicate Merges(l: Lockfile, encode: string -> string, paths: seq<string>, ref: string, c: Component) {
    c.purl == ref && c.lockPaths == Filter(paths, HasRef(l, encode, ref)) &&
    (c.optional <==> forall p | p in paths && RefOf(l, encode, p) == ref :: IsOptional(l, p)) &&
    forall p | p in paths && RefOf(l, encode, p) == ref :: Meta(l, p) == Some(c.coordinates)
  }

  function RefMap(l: Lockfile, encode: string -> string, paths: seq<string>): map<string, string> {
    map p | p in paths :: RefOf(l, encode, p)
  }

  ghost predicate Tabulates(l: Lockfile, encode: string -> string, paths: seq<string>, t: Table) {
    t.refs == RefMap(l, encode, paths) && t.components.Keys == RefsOf(l, encode, ToSet(paths)) &&
    ComponentsMerge(l, encode, paths, t.components)
  }

  ghost predicate ComponentsMerge(l: Lockfile, encode: string -> string, paths: seq<string>, components: map<string,
                                  Component>) {
    forall ref | ref in components :: Merges(l, encode, paths, ref, components[ref])
  }

  /** Every entry has usable metadata, and entries that share a package URL share all of it. */
  predicate MetadataConsistent(l: Lockfile, encode: string -> string, paths: seq<string>) {
    (forall p | p in paths :: Meta(l, p).Some?) &&
    forall p, q | p in paths && q in paths && RefOf(l, encode, p) == RefOf(l, encode, q) :: Meta(l, p) == Meta(l, q)
  }

  /** The component after one more lock path of the same URL. */
  function Absorb(l: Lockfile, path: string, c: Component): Component {
    c.(optional := c.optional && IsOptional(l, path), lockPaths := c.lockPaths + [path])
  }

  function Introduce(l: Lockfile, encode: string -> string, path: string): Component
    requires Meta(l, path).Some?
  {
    Component(Meta(l, path).value, RefOf(l, encode, path), IsOptional(l, path), [path], [])
  }

  /** One more external entry: merged into the component of its URL, or the first of a new one. */
  method AddEntry(l: Lockfile, encode: string -> string, ghost before: seq<string>, path: string, t: Table)
    returns (r: Result<Table>)
    requires path in l.packages && Tabulates(l, encode, before, t) && MetadataConsistent(l, encode, before)
    ensures r.Ok? <==> MetadataConsistent(l, encode, before + [path])
    ensures r.Ok? ==> Tabulates(l, encode, before + [path], r.value)
    ensures r.Ok? && WithoutDependencies(t) ==> WithoutDependencies(r.value)
    ensures r.Err? ==> r.error == if Meta(l, path).None? then InvalidMetadata else ConflictingMetadata
  {
    AddEntryExact(l, encode, before, path, t);
    var coordinates := CoordinatesOf(path, l.packages[path]);
    assert coordinates == Meta(l, path);
    if coordinates.None? { return Err(InvalidMetadata); }
    var purl := NpmPurl(encode, coordinates.value.packageName, coordinates.value.version);
    assert purl == RefOf(l, encode, path);
    var component;
    if purl in t.components {
      if t.components[purl].coordinates != coordinates.value { return Err(ConflictingMetadata); }
      component := Absorb(l, path, t.components[purl]);
    } else {
      component := Introduce(l, encode, path);
    }
    return Ok(Table(t.refs[path := purl], t.components[purl := component]));
  }

  lemma AddEntryExact(l: Lockfile, encode: string -> string, before: seq<string>, path: string, t: Table)
    requires Tabulates(l, encode, before, t) && MetadataConsistent(l, encode, before)
    ensures MetadataConsistent(l, encode, before + [path]) <==> Agrees(l, encode, path, t.components)
    ensures Agrees(l, encode, path, t.components) ==>
              var ref := RefOf(l, encode, path);
              Tabulates(l, encode, before + [path],
                        Table(t.refs[path := ref], t.components[ref := NextComponent(l, encode, path, t.components)]))
  {
    if Agrees(l, encode, path, t.components) {
      ConsistentStep(l, encode, before, path, t);
      TabulatesStep(l, encode, before, path, t);
    } else if Meta(l, path).Some? {
      ConflictWitness(l, encode, before, path, t);
    } else {
      assert path in before + [path];
    }
  }

  predicate WithoutDependencies(t: Table) {
    forall ref | ref in t.components :: t.components[ref].dependencies == []
  }

  /** The entries before number `i` are consistent, and with it they are not: the merge ends there. */
  predicate StopsAt(l: Lockfile, encode: string -> string, paths: seq<string>, i: nat)
    requires i < |paths|
  {
    MetadataConsistent(l, encode, paths[..i]) && !MetadataConsistent(l, encode, paths[..i + 1])
  }

  /** It ends at an entry without usable metadata, or at one that disagrees with an earlier one. */
  predicate StopsFor(l: Lockfile, encode: string -> string, paths: seq<string>, missing: bool) {
    exists i: nat | i < |paths| && StopsAt(l, encode, paths, i) :: Meta(l, paths[i]).None? == missing
  }

  lemma StopsOnce(l: Lockfile, encode: string -> string, paths: seq<string>, i: nat)
    requires i < |paths| && StopsAt(l, encode, paths, i)
    ensures !MetadataConsistent(l, encode, paths)
    ensures forall missing :: StopsFor(l, encode, paths, missing) <==> Meta(l, paths[i]).None? == missing
  {
    if MetadataConsistent(l, encode, paths) { ConsistentPrefix(l, encode, paths, i + 1); }
    forall j: nat | j < |paths| && StopsAt(l, encode, paths, j) ensures i == j {
      if i < j { StopsEarlier(l, encode, paths, i, j); }
      if j < i { StopsEarlier(l, encode, paths, j, i); }
    }
  }

  lemma StopsEarlier(l: Lockfile, encode: string -> string, paths: seq<string>, i: nat, j: nat)
    requires i < j <= |paths| && StopsAt(l, encode, paths, i)
    ensures !MetadataConsistent(l, encode, paths[..j])
  {
    assert paths[..j][..i + 1] == paths[..i + 1];
    if MetadataConsistent(l, encode, paths[..j]) { ConsistentPrefix(l, encode, paths[..j], i + 1); }
  }

  lemma NeverStops(l: Lockfile, encode: string -> string, paths: seq<string>)
    requires MetadataConsistent(l, encode, paths)
    ensures forall missing :: !StopsFor(l, encode, paths, missing)
  {
    forall i: nat | i < |paths| ensures !StopsAt(l, encode, paths, i) { ConsistentPrefix(l, encode, paths, i + 1); }
  }

  method CollectComponents(l: Lockfile, encode: string -> string, paths: seq<string>) returns (r: Result<Table>)
    requires forall p | p in paths :: p in l.packages
    ensures r.Ok? <==> MetadataConsistent(l, encode, paths)
    ensures r.Ok? ==> Tabulates(l, encode, paths, r.value) && WithoutDependencies(r.value)
    ensures r.Err? ==> r.error.InvalidMetadata? || r.error.ConflictingMetadata?
    ensures r == Err(InvalidMetadata) <==> StopsFor(l, encode, paths, true)
    ensures r == Err(ConflictingMetadata) <==> StopsFor(l, encode, paths, false)
  {
    var t := Table(map[], map[]);
    for i := 0 to |paths|
      invariant Tabulates(l, encode, paths[..i], t) && WithoutDependencies(t)
      invariant MetadataConsistent(l, encode, paths[..i])
    {
      assert paths[..i + 1] == paths[..i] + [paths[i]];
      var added := AddEntry(l, encode, paths[..i], paths[i], t);
      if added.Err? {
        StopsOnce(l, encode, paths, i);
        return Err(added.error);
      }
      t := added.value;
    }
    assert paths[..|paths|] == paths;
    NeverStops(l, encode, paths);
    return Ok(t);
  }

  lemma ConsistentPrefix(l: Lockfile, encode: string -> string, paths: seq<string>, i: nat)
    requires i <= |paths| && MetadataConsistent(l, encode, paths)
    ensures MetadataConsistent(l, encode, paths[..i])
  {
  }

  lemma RefInTable(l: Lockfile, encode: string -> string, paths: seq<string>, t: Table, ref: string)
    requires Tabulates(l, encode, paths, t)
    ensures ref in t.components <==> exists p | p in paths :: RefOf(l, encode, p) == ref
  {
    if ref in t.components {
      var p :| p in ToSet(paths) && RefOf(l, encode, p) == ref;
    }
    if p :| p in paths && RefOf(l, encode, p) == ref {
      assert p in ToSet(paths);
    }
  }

  lemma ConflictWitness(l: Lockfile, encode: string -> string, before: seq<string>, path: string, t: Table)
    requires Tabulates(l, encode, before, t)
    requires var ref := RefOf(l, encode, path);
             ref in t.components && Meta(l, path) != Some(t.components[ref].coordinates)
    ensures !MetadataConsistent(l, encode, before + [path])
  {
    RefInTable(l, encode, before, t, RefOf(l, encode, path));
    var q :| q in before && RefOf(l, encode, q) == RefOf(l, encode, path);
    assert q in before + [path] && path in before + [path];
  }

  lemma ConsistentStep(l: Lockfile, encode: string -> string, before: seq<string>, path: string, t: Table)
    requires Tabulates(l, encode, before, t) && MetadataConsistent(l, encode, before)
    requires Agrees(l, encode, path, t.components)
    ensures MetadataConsistent(l, encode, before + [path])
  {
    RefInTable(l, encode, before, t, RefOf(l, encode, path));
    forall p | p in before && RefOf(l, encode, p) == RefOf(l, encode, path) ensures Meta(l, p) == Meta(l, path) {
      assert Merges(l, encode, before, RefOf(l, encode, path), t.components[RefOf(l, encode, path)]);
    }
  }

  lemma FilterAppend<T>(s: seq<T>, x: T, p: T -> bool)
    ensures Filter(s + [x], p) == Filter(s, p) + if p(x) then [x] else []
  {
    assert (s + [x])[..|s|] == s;
  }

  lemma EmptyFilter<T>(s: seq<T>, p: T -> bool)
    requires forall x | x in s :: !p(x)
    ensures Filter(s, p) == []
  {
    if Filter(s, p) != [] { FilterMembers(s, p, Filter(s, p)[0]); }
  }

  lemma MergesOther(l: Lockfile, encode: string -> string, before: seq<string>, path: string, ref: string, c: Component)
    requires Merges(l, encode, before, ref, c) && RefOf(l, encode, path) != ref
    ensures Merges(l, encode, before + [path], ref, c)
  {
    FilterAppend(before, path, HasRef(l, encode, ref));
  }

  lemma MergesAbsorbed(l: Lockfile, encode: string -> string, before: seq<string>, path: string, c: Component)
    requires Merges(l, encode, before, RefOf(l, encode, path), c) && Meta(l, path) == Some(c.coordinates)
    ensures Merges(l, encode, before + [path], RefOf(l, encode, path), Absorb(l, path, c))
  {
    FilterAppend(before, path, HasRef(l, encode, RefOf(l, encode, path)));
    assert path in before + [path];
  }

  lemma MergesIntroduced(l: Lockfile, encode: string -> string, before: seq<string>, path: string)
    requires Meta(l, path).Some? && forall p | p in before :: RefOf(l, encode, p) != RefOf(l, encode, path)
    ensures Merges(l, encode, before + [path], RefOf(l, encode, path), Introduce(l, encode, path))
  {
    FilterAppend(before, path, HasRef(l, encode, RefOf(l, encode, path)));
    EmptyFilter(before, HasRef(l, encode, RefOf(l, encode, path)));
    assert path in before + [path];
  }

  /** What the table holds for the URL of `path` once that entry is added. */
  function NextComponent(l: Lockfile, encode: string -> string, path: string, components: map<string,
                         Component>): Component
    requires Meta(l, path).Some?
  {
    var ref := RefOf(l, encode, path);
    if ref in components then Absorb(l, path, components[ref]) else Introduce(l, encode, path)
  }

  /** The entry at `path` has metadata, and the same as the component of its URL if there is one. */
  predicate Agrees(l: Lockfile, encode: string -> string, path: string, components: map<string, Component>) {
    var ref := RefOf(l, encode, path);
    Meta(l, path).Some? && (ref in components ==> Meta(l, path) == Some(components[ref].coordinates))
  }

  /** Adding one entry to a table, whether or not its package URL is new. */
  lemma TabulatesStep(l: Lockfile, encode: string -> string, before: seq<string>, path: string, t: Table)
    requires Tabulates(l, encode, before, t) && Agrees(l, encode, path, t.components)
    ensures var ref := RefOf(l, encode, path);
            Tabulates(l, encode, before + [path],
                      Table(t.refs[path := ref], t.components[ref := NextComponent(l, encode, path, t.components)]))
  {
    RefMapStep(l, encode, before, path);
    ComponentsStep(l, encode, before, path, t);
  }

  lemma ComponentsStep(l: Lockfile, encode: string -> string, before: seq<string>, path: string, t: Table)
    requires Tabulates(l, encode, before, t) && Agrees(l, encode, path, t.components)
    ensures ComponentsMerge(l, encode, before + [path],
              t.components[RefOf(l, encode, path) := NextComponent(l, encode, path, t.components)])
  {
    var ref := RefOf(l, encode, path);
    var components := t.components[ref := NextComponent(l, encode, path, t.components)];
    forall r | r in components ensures Merges(l, encode, before + [path], r, components[r]) {
      if r != ref {
        MergesOther(l, encode, before, path, r, t.components[r]);
      } else if ref in t.components {
        MergesAbsorbed(l, encode, before, path, t.components[ref]);
      } else {
        RefInTable(l, encode, before, t, ref);
        MergesIntroduced(l, encode, before, path);
      }
    }
  }

  lemma RefMapStep(l: Lockfile, encode: string -> string, before: seq<string>, path: string)
    ensures RefMap(l, encode, before + [path]) == RefMap(l, encode, before)[path := RefOf(l, encode, path)]
    ensures RefsOf(l, encode, ToSet(before + [path])) == RefsOf(l, encode, ToSet(before)) + {RefOf(l, encode, path)}
  {
    assert ToSet(before + [path]) == ToSet(before) + {path};
  }
}
