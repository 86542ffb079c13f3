/** The dependency closure that decides which components the SBOM lists. */
module DependencyClosure {
  import opened Sequences
  import opened Text
  import opened Graphs
  import opened LockPaths
  import opened SupplyChain

  method ResolveDependencyPath(l: Lockfile, fromPath: string, name: string) returns (r: Option<string>)
    ensures r == Resolve(Installed(l), fromPath, name)
  {
    var cursor := fromPath;
    while true
      invariant Resolve(Installed(l), cursor, name) == Resolve(Installed(l), fromPath, name)
      decreases |cursor|
    {
      var candidate := Candidate(cursor, name);
      if candidate in l.packages && !l.packages[candidate].dev && !l.packages[candidate].link {
        return Some(candidate);
      }
      if cursor == "" { return None; }
      var nested := LastIndexOf(cursor, NESTED_MARKER);
      if nested >= 0 {
        cursor := cursor[..nested];
        continue;
      }
      if StartsWith(cursor, MARKER) {
        cursor := "";
        continue;
      }
      var separator := LastIndexOf(cursor, "/");
      cursor := if separator >= 0 then cursor[..separator] else "";
    }
  }

  function ResolvedExternally(l: Lockfile, path: string, name: string): set<string> {
    match Resolve(Installed(l), path, name)
    case None => {}
    case Some(q) => if IsExternal(l, q) then {q} else {}
  }

  function TargetsOf(l: Lockfile, path: string, names: seq<string>): set<string> {
    if names == [] then {}
    else TargetsOf(l, path, names[..|names| - 1]) + ResolvedExternally(l, path, names[|names| - 1])
  }

  /** The external entries that the dependencies of the entry at `path` resolve to. */
  function Targets(l: Lockfile, path: string): set<string> {
    if path in l.packages then TargetsOf(l, path, DependencyNames(l.packages[path])) else {}
  }

  lemma {:induction false} TargetsOfExact(l: Lockfile, path: string, names: seq<string>, q: string)
    ensures q in TargetsOf(l, path, names) <==>
            IsExternal(l, q) && exists n | n in names :: Resolve(Installed(l), path, n) == Some(q)
  {
    if names != [] {
      var last := |names| - 1;
      TargetsOfExact(l, path, names[..last], q);
      assert names == names[..last] + [names[last]];
    }
  }

  function TargetRefs(l: Lockfile, encode: string -> string, path: string): set<string> {
    RefsOf(l, encode, Targets(l, path))
  }

  ghost predicate RefsExternal(l: Lockfile, encode: string -> string, refs: map<string, string>) {
    forall q :: (q in refs <==> IsExternal(l, q)) && (q in refs ==> refs[q] == RefOf(l, encode, q))
  }

  function AsSet<T(==)>(o: Option<T>): set<T> {
    match o
    case None => {}
    case Some(x) => {x}
  }

  method ResolveRef(l: Lockfile, encode: string -> string, refs: map<string, string>, path: string, name: string)
    returns (ref: Option<string>)
    requires RefsExternal(l, encode, refs)
    ensures AsSet(ref) == RefsOf(l, encode, ResolvedExternally(l, path, name))
  {
    var dependencyPath := ResolveDependencyPath(l, path, name);
    ref := if dependencyPath.Some? && dependencyPath.value in refs then Some(refs[dependencyPath.value]) else None;
  }

  lemma TargetRefsStep(l: Lockfile, encode: string -> string, path: string, names: seq<string>, i: nat)
    requires i < |names|
    ensures RefsOf(l, encode, TargetsOf(l, path, names[..i + 1])) ==
            RefsOf(l, encode, TargetsOf(l, path, names[..i])) +
            RefsOf(l, encode, ResolvedExternally(l, path, names[i]))
  {
    assert names[..i + 1][..i] == names[..i];
    RefsOfUnion(l, encode, TargetsOf(l, path, names[..i]), ResolvedExternally(l, path, names[i]));
  }

  lemma ToSetAppend<T>(s: seq<T>, x: T)
    ensures ToSet(s + [x]) == ToSet(s) + {x}
  {
  }

  /** One resolved package URL, unless it is excluded or already there. */
  method AddRef(found: seq<string>, ref: Option<string>, self: Option<string>) returns (r: seq<string>)
    requires Distinct(found)
    ensures Distinct(r) && ToSet(r) == ToSet(found) + (AsSet(ref) - AsSet(self))
  {
    r := found;
    if ref.Some? && ref != self && ref.value !in r {
      ToSetAppend(r, ref.value);
      r := r + [ref.value];
    }
  }

  /** The package URLs that the dependencies of one entry resolve to, added in order to a set. */
  method AddTargets(l: Lockfile, encode: string -> string, refs: map<string, string>, path: string,
                    names: seq<string>, found: seq<string>, self: Option<string>)
    returns (r: seq<string>)
    requires RefsExternal(l, encode, refs) && Distinct(found)
    ensures Distinct(r)
    ensures ToSet(r) == ToSet(found) + (RefsOf(l, encode, TargetsOf(l, path, names)) - AsSet(self))
  {
    r := found;
    ghost var added: set<string> := {};
    for i := 0 to |names|
      invariant Distinct(r) && added == RefsOf(l, encode, TargetsOf(l, path, names[..i]))
      invariant ToSet(r) == ToSet(found) + (added - AsSet(self))
    {
      TargetRefsStep(l, encode, path, names, i);
      var ref := ResolveRef(l, encode, refs, path, names[i]);
      added := added + AsSet(ref);
      r := AddRef(r, ref, self);
    }
    assert names[..|names|] == names;
  }

  lemma RefsOfUnion(l: Lockfile, encode: string -> string, a: set<string>, b: set<string>)
    ensures RefsOf(l, encode, a + b) == RefsOf(l, encode, a) + RefsOf(l, encode, b)
    ensures RefsOf(l, encode, {}) == {}
  {
  }

  /** What the component of `ref` depends on, over the given lock paths, itself excluded. */
  function DependencyRefs(l: Lockfile, encode: string -> string, paths: seq<string>, ref: string): set<string> {
    if paths == [] then {}
    else
      var p := paths[|paths| - 1];
      DependencyRefs(l, encode, paths[..|paths| - 1], ref) +
      if RefOf(l, encode, p) == ref then TargetRefs(l, encode, p) - {ref} else {}
  }

  lemma {:induction false} DependencyRefsExact(l: Lockfile, encode: string -> string, paths: seq<string>,
                                               ref: string, x: string)
    ensures x in DependencyRefs(l, encode, paths, ref) <==> x != ref && SomeOwner(l, encode, paths, ref, x)
  {
    if paths != [] {
      var last := |paths| - 1;
      DependencyRefsExact(l, encode, paths[..last], ref, x);
      SomeOwnerStep(l, encode, paths, ref, x);
    }
  }

  /** Some lock path of the URL resolves a dependency to `x`. */
  predicate SomeOwner(l: Lockfile, encode: string -> string, paths: seq<string>, ref: string, x: string) {
    exists p | p in paths && RefOf(l, encode, p) == ref :: x in TargetRefs(l, encode, p)
  }

  lemma SomeOwnerStep(l: Lockfile, encode: string -> string, paths: seq<string>, ref: string, x: string)
    requires paths != []
    ensures var last := |paths| - 1;
      SomeOwner(l, encode, paths, ref, x) <==>
      SomeOwner(l, encode, paths[..last], ref, x) ||
      (RefOf(l, encode, paths[last]) == ref && x in TargetRefs(l, encode, paths[last]))
  {
    var last := |paths| - 1;
    assert paths == paths[..last] + [paths[last]];
    assert forall p :: p in paths <==> p in paths[..last] || p == paths[last];
  }

  predicate SameExceptDependencies(a: Component, b: Component) {
    a == b.(dependencies := a.dependencies)
  }

  ghost predicate Linked(l: Lockfile, encode: string -> string, paths: seq<string>,
                         before: map<string, Component>, after: map<string, Component>) {
    after.Keys == before.Keys &&
    forall ref | ref in after ::
      SameExceptDependencies(after[ref], before[ref]) && Distinct(after[ref].dependencies) &&
      ToSet(after[ref].dependencies) == DependencyRefs(l, encode, paths, ref)
  }

  method LinkComponents(l: Lockfile, encode: string -> string, paths: seq<string>, t: Table)
    returns (components: map<string, Component>)
    requires RefsExternal(l, encode, t.refs) && WithoutDependencies(t)
    requires forall p | p in paths :: p in t.refs && t.refs[p] in t.components
    ensures Linked(l, encode, paths, t.components, components)
    ensures paths == ExternalPaths(l) ==>
      forall ref, x | ref in components :: x in components[ref].dependencies <==> UrlDependsOn(l, encode, ref, x)
  {
    components := t.components;
    for i := 0 to |paths|
      invariant Linked(l, encode, paths[..i], t.components, components)
    {
      var ref, names := t.refs[paths[i]], DependencyNames(l.packages[paths[i]]);
      var c := components[ref];
      var dependencies := AddTargets(l, encode, t.refs, paths[i], names, c.dependencies, Some(ref));
      LinkedStep(l, encode, paths, i, t.components, components, dependencies);
      components := components[ref := c.(dependencies := dependencies)];
    }
    assert paths[..|paths|] == paths;
    LinkedExactly(l, encode, paths, t.components, components);
  }

  lemma LinkedExactly(l: Lockfile, encode: string -> string, paths: seq<string>,
                      before: map<string, Component>, after: map<string, Component>)
    requires Linked(l, encode, paths, before, after)
    ensures paths == ExternalPaths(l) ==>
      forall ref, x | ref in after :: x in after[ref].dependencies <==> UrlDependsOn(l, encode, ref, x)
  {
    if paths == ExternalPaths(l) {
      forall ref, x | ref in after ensures x in after[ref].dependencies <==> UrlDependsOn(l, encode, ref, x) {
        UrlDependsExactly(l, encode, ref, x);
        assert x in after[ref].dependencies <==> x in ToSet(after[ref].dependencies);
      }
    }
  }

  lemma LinkedStep(l: Lockfile, encode: string -> string, paths: seq<string>, i: nat,
                   before: map<string, Component>, components: map<string, Component>, dependencies: seq<string>)
    requires i < |paths| && Linked(l, encode, paths[..i], before, components)
    requires var ref := RefOf(l, encode, paths[i]);
             ref in components && Distinct(dependencies) &&
             ToSet(dependencies) == ToSet(components[ref].dependencies) + (TargetRefs(l, encode, paths[i]) - {ref})
    ensures var ref := RefOf(l, encode, paths[i]);
            Linked(l, encode, paths[..i + 1], before, components[ref := components[ref].(dependencies := dependencies)])
  {
    var changed := RefOf(l, encode, paths[i]);
    var after := components[changed := components[changed].(dependencies := dependencies)];
    forall ref | ref in after
      ensures SameExceptDependencies(after[ref], before[ref]) && Distinct(after[ref].dependencies)
      ensures ToSet(after[ref].dependencies) == DependencyRefs(l, encode, paths[..i + 1], ref)
    {
      DependencyRefsStep(l, encode, paths, i, ref);
    }
  }

  lemma DependencyRefsStep(l: Lockfile, encode: string -> string, paths: seq<string>, i: nat, ref: string)
    requires i < |paths|
    ensures DependencyRefs(l, encode, paths[..i + 1], ref) == DependencyRefs(l, encode, paths[..i], ref) +
      if RefOf(l, encode, paths[i]) == ref then TargetRefs(l, encode, paths[i]) - {ref} else {}
  {
    assert paths[..i + 1][..i] == paths[..i];
  }

  lemma TableRefs(l: Lockfile, encode: string -> string, t: Table)
    requires Tabulates(l, encode, ExternalPaths(l), t)
    ensures RefsExternal(l, encode, t.refs)
    ensures forall p | p in ExternalPaths(l) :: p in t.refs && t.refs[p] in t.components
  {
    forall q ensures q in t.refs <==> IsExternal(l, q) { ExternalPathsExact(l, q); }
    forall p | p in ExternalPaths(l) ensures t.refs[p] in t.components {
      RefInTable(l, encode, ExternalPaths(l), t, t.refs[p]);
    }
  }

  /** The package URLs that the given internal packages depend on. */
  function RootRefsOf(l: Lockfile, encode: string -> string, paths: seq<string>): set<string> {
    if paths == [] then {}
    else
      var p := paths[|paths| - 1];
      RootRefsOf(l, encode, paths[..|paths| - 1]) + if IsInternal(l, p) then TargetRefs(l, encode, p) else {}
  }

  lemma {:induction false} RootRefsExact(l: Lockfile, encode: string -> string, paths: seq<string>, x: string)
    ensures x in RootRefsOf(l, encode, paths) <==>
            exists p | p in paths && IsInternal(l, p) :: x in TargetRefs(l, encode, p)
  {
    if paths != [] {
      var last := |paths| - 1;
      RootRefsExact(l, encode, paths[..last], x);
      assert paths == paths[..last] + [paths[last]];
    }
  }

  lemma RootRefsStep(l: Lockfile, encode: string -> string, i: nat)
    requires i < |l.paths|
    ensures l.paths[i] in l.packages
    ensures RootRefsOf(l, encode, l.paths[..i + 1]) == RootRefsOf(l, encode, l.paths[..i]) +
      if IsInternal(l, l.paths[i]) then TargetRefs(l, encode, l.paths[i]) else {}
  {
    assert l.paths[..i + 1][..i] == l.paths[..i];
    assert l.paths[i] in ToSet(l.paths);
  }

  method RootDependencies(l: Lockfile, encode: string -> string, refs: map<string, string>) returns (r: seq<string>)
    requires RefsExternal(l, encode, refs)
    ensures Distinct(r) && ToSet(r) == RootRefsOf(l, encode, l.paths)
    ensures forall x :: x in r <==> RootDependsOn(l, encode, x)
  {
    r := [];
    for i := 0 to |l.paths|
      invariant Distinct(r) && ToSet(r) == RootRefsOf(l, encode, l.paths[..i])
    {
      RootRefsStep(l, encode, i);
      if IsInternal(l, l.paths[i]) {
        r := AddTargets(l, encode, refs, l.paths[i], DependencyNames(l.packages[l.paths[i]]), r, None);
      }
    }
    assert l.paths[..|l.paths|] == l.paths;
    forall x ensures x in r <==> RootDependsOn(l, encode, x) {
      RootDependsExactly(l, encode, x);
      assert x in r <==> x in ToSet(r);
    }
  }

  // ----- dependencies in terms of the lockfile

  /** The entry names a dependency, be it an ordinary or an optional one. */
  predicate Names(l: Lockfile, path: string, name: string) {
    path in l.packages && (name in l.packages[path].dependencies || name in l.packages[path].optionalDependencies)
  }

  lemma DependencyNamesExact(e: PackageEntry, name: string)
    ensures name in DependencyNames(e) <==> name in e.dependencies || name in e.optionalDependencies
    ensures StrictlySorted(DependencyNames(e))
  {
    assert name in DependencyNames(e) <==> name in ToSet(DependencyNames(e));
    assert name in e.dependencies + e.optionalDependencies <==> name in ToSet(e.dependencies + e.optionalDependencies);
  }

  /** An entry that is installed for production use in its own place. */
  predicate IsUsable(l: Lockfile, q: string) {
    q in l.packages && !l.packages[q].dev && !l.packages[q].link
  }

  /** The lookup of a name finds `q` at the place number `k`, and nothing before it. */
  predicate FindsAt(l: Lockfile, path: string, name: string, q: string, k: nat) {
    k < |Cursors(path)| && q == Candidate(Cursors(path)[k], name) && IsUsable(l, q) &&
    forall j | 0 <= j < k :: !IsUsable(l, Candidate(Cursors(path)[j], name))
  }

  ghost predicate Finds(l: Lockfile, path: string, name: string, q: string) {
    exists k: nat :: FindsAt(l, path, name, q, k)
  }

  lemma ResolveFinds(l: Lockfile, path: string, name: string, q: string)
    ensures Resolve(Installed(l), path, name) == Some(q) <==> Finds(l, path, name, q)
  {
    ResolveIsNearest(Installed(l), path, name);
    if Resolve(Installed(l), path, name).Some? {
      var found := Resolve(Installed(l), path, name).value;
      var k: nat :| k < |Cursors(path)| && found == Candidate(Cursors(path)[k], name) && found in Installed(l) &&
        forall j | 0 <= j < k :: Candidate(Cursors(path)[j], name) !in Installed(l);
      assert FindsAt(l, path, name, found, k);
      if Finds(l, path, name, q) {
        var m: nat :| FindsAt(l, path, name, q, m);
        FoundOnce(l, path, name, found, k, q, m);
      }
    } else {
      forall k: nat | k < |Cursors(path)| ensures !IsUsable(l, Candidate(Cursors(path)[k], name)) {
        assert Cursors(path)[k] in Cursors(path);
      }
    }
  }

  lemma FoundOnce(l: Lockfile, path: string, name: string, p: string, k: nat, q: string, m: nat)
    requires FindsAt(l, path, name, p, k) && FindsAt(l, path, name, q, m)
    ensures p == q
  {
  }

  /** A dependency that the entry names is found in an external entry with this URL. */
  ghost predicate LeadsTo(l: Lockfile, encode: string -> string, path: string, x: string) {
    exists name, q :: Names(l, path, name) && Finds(l, path, name, q) && StartsWith(q, MARKER) &&
      RefOf(l, encode, q) == x
  }

  lemma TargetsExact(l: Lockfile, path: string, q: string)
    ensures q in Targets(l, path) <==>
      StartsWith(q, MARKER) && exists name :: Names(l, path, name) && Finds(l, path, name, q)
  {
    if path in l.packages {
      var names := DependencyNames(l.packages[path]);
      TargetsOfExact(l, path, names, q);
      forall name ensures name in names <==> Names(l, path, name) { DependencyNamesExact(l.packages[path], name); }
      forall name ensures Resolve(Installed(l), path, name) == Some(q) <==> Finds(l, path, name, q) {
        ResolveFinds(l, path, name, q);
      }
    }
  }

  lemma TargetRefsExact(l: Lockfile, encode: string -> string, path: string, x: string)
    ensures x in TargetRefs(l, encode, path) <==> LeadsTo(l, encode, path, x)
  {
    forall q ensures q in Targets(l, path) <==>
      StartsWith(q, MARKER) && exists name :: Names(l, path, name) && Finds(l, path, name, q) {
      TargetsExact(l, path, q);
    }
    if x in TargetRefs(l, encode, path) {
      var q :| q in Targets(l, path) && RefOf(l, encode, q) == x;
      var name :| Names(l, path, name) && Finds(l, path, name, q);
    }
  }

  /** The root package or a workspace names a dependency that is found in an external entry with this URL. */
  ghost predicate RootDependsOn(l: Lockfile, encode: string -> string, x: string) {
    exists p | p in l.packages && (p == "" || (!StartsWith(p, MARKER) && !l.packages[p].link)) ::
      LeadsTo(l, encode, p, x)
  }

  /** So does some external entry of the URL, and it is another URL. */
  ghost predicate UrlDependsOn(l: Lockfile, encode: string -> string, ref: string, x: string) {
    x != ref &&
    exists p | p in l.packages && StartsWith(p, MARKER) && !l.packages[p].dev && !l.packages[p].link &&
      RefOf(l, encode, p) == ref :: LeadsTo(l, encode, p, x)
  }

  lemma RootDependsExactly(l: Lockfile, encode: string -> string, x: string)
    ensures x in RootRefsOf(l, encode, l.paths) <==> RootDependsOn(l, encode, x)
  {
    RootRefsExact(l, encode, l.paths, x);
    forall p ensures p in l.paths <==> p in l.packages { assert p in l.paths <==> p in ToSet(l.paths); }
    forall p ensures x in TargetRefs(l, encode, p) <==> LeadsTo(l, encode, p, x) { TargetRefsExact(l, encode, p, x); }
  }

  lemma UrlDependsExactly(l: Lockfile, encode: string -> string, ref: string, x: string)
    ensures x in DependencyRefs(l, encode, ExternalPaths(l), ref) <==> UrlDependsOn(l, encode, ref, x)
  {
    DependencyRefsExact(l, encode, ExternalPaths(l), ref, x);
    forall p ensures p in ExternalPaths(l) <==> IsExternal(l, p) { ExternalPathsExact(l, p); }
    forall p ensures x in TargetRefs(l, encode, p) <==> LeadsTo(l, encode, p, x) { TargetRefsExact(l, encode, p, x); }
  }

  // ----- the closure

  function ComponentGraph(components: map<string, Component>): Graph {
    map ref | ref in components :: ToSet(components[ref].dependencies)
  }

  /** Everything met so far is either expanded or still queued. */
  ghost predicate Pending(g: Graph, reachable: set<string>, queue: seq<string>) {
    (forall x | x in queue :: x in reachable) &&
    forall x, u | x in reachable && x !in queue && u in Next(g, x) :: u in reachable
  }

  ghost function Nodes(g: Graph): set<string> {
    set k, u | k in g && u in g[k] :: u
  }

  /** Adds the unseen dependencies of one dequeued component to the set and to the queue. */
  method Expand(dependencies: seq<string>, seen: set<string>, waiting: seq<string>)
    returns (reachable: set<string>, queue: seq<string>)
    ensures reachable == seen + ToSet(dependencies)
    ensures waiting <= queue && ToSet(queue) == ToSet(waiting) + (ToSet(dependencies) - seen)
    ensures reachable == seen ==> queue == waiting
  {
    reachable, queue := seen, waiting;
    for i := 0 to |dependencies|
      invariant reachable == seen + ToSet(dependencies[..i])
      invariant waiting <= queue && ToSet(queue) == ToSet(waiting) + (ToSet(dependencies[..i]) - seen)
      invariant reachable == seen ==> queue == waiting
    {
      var d := dependencies[i];
      assert ToSet(dependencies[..i + 1]) == ToSet(dependencies[..i]) + {d} by {
        assert dependencies[..i + 1] == dependencies[..i] + [d];
      }
      if d in reachable { continue; }
      assert ToSet(queue + [d]) == ToSet(queue) + {d};
      reachable, queue := reachable + {d}, queue + [d];
    }
    assert dependencies[..|dependencies|] == dependencies;
  }

  ghost predicate AllReached(g: Graph, roots: set<string>, s: set<string>) {
    forall x | x in s :: Reaches(g, roots, x)
  }

  /** `inventoryRootRefs`: the breadth-first closure of the roots. */
  method InventoryRootRefs(roots: seq<string>, components: map<string, Component>) returns (reachable: set<string>)
    ensures forall a :: a in reachable <==> Reaches(ComponentGraph(components), ToSet(roots), a)
  {
    ghost var g := ComponentGraph(components);
    ghost var universe := ToSet(roots) + Nodes(g);
    reachable := ToSet(roots);
    var queue := roots;
    forall x | x in reachable { ReachesRoot(g, ToSet(roots), x); }
    while queue != []
      invariant ToSet(roots) <= reachable <= universe && AllReached(g, ToSet(roots), reachable)
      invariant Pending(g, reachable, queue)
      decreases universe - reachable, |queue|
    {
      var ref, rest := queue[0], queue[1..];
      if ref !in components {
        SkipKeepsPending(g, reachable, queue);
        queue := rest;
        continue;
      }
      var dependencies := components[ref].dependencies;
      var reachable', queue' := Expand(dependencies, reachable, rest);
      ExpandKeepsPending(g, reachable, queue, dependencies, queue');
      ExpandedAreReachable(g, ToSet(roots), reachable, ref);
      MeasureFalls(universe, reachable, reachable');
      reachable, queue := reachable', queue';
    }
    ClosureIsComplete(g, ToSet(roots), reachable);
  }

  lemma SkipKeepsPending(g: Graph, reachable: set<string>, queue: seq<string>)
    requires queue != [] && Pending(g, reachable, queue) && queue[0] !in g
    ensures Pending(g, reachable, queue[1..])
  {
    assert queue == [queue[0]] + queue[1..];
    assert forall x :: x in queue <==> x == queue[0] || x in queue[1..];
  }

  lemma MeasureFalls(universe: set<string>, before: set<string>, after: set<string>)
    requires before <= after <= universe
    ensures universe - after <= universe - before
    ensures after != before ==> universe - after < universe - before
  {
    if x :| x in after && x !in before { assert x in universe - before && x !in universe - after; }
  }

  lemma ClosureIsComplete(g: Graph, roots: set<string>, reachable: set<string>)
    requires roots <= reachable && Pending(g, reachable, []) && AllReached(g, roots, reachable)
    ensures forall a :: a in reachable <==> Reaches(g, roots, a)
  {
    assert ClosedUnder(g, reachable);
    ClosedContainsReachable(g, roots, reachable);
  }

  lemma ExpandedAreReachable(g: Graph, roots: set<string>, reachable: set<string>, ref: string)
    requires ref in reachable && AllReached(g, roots, reachable)
    ensures AllReached(g, roots, reachable + Next(g, ref)) && Next(g, ref) <= Nodes(g)
  {
    forall x | x in Next(g, ref) ensures Reaches(g, roots, x) { ReachesNext(g, roots, ref, x); }
  }

  lemma ExpandKeepsPending(g: Graph, reachable: set<string>, before: seq<string>, dependencies: seq<string>,
                           after: seq<string>)
    requires before != [] && Pending(g, reachable, before) && ToSet(dependencies) == Next(g, before[0])
    requires ToSet(after) == ToSet(before[1..]) + (ToSet(dependencies) - reachable)
    ensures Pending(g, reachable + ToSet(dependencies), after)
  {
    assert forall x :: x in after <==> x in ToSet(after);
    assert forall x :: x in before[1..] <==> x in ToSet(before[1..]);
    assert before == [before[0]] + before[1..];
    assert forall x :: x in before <==> x == before[0] || x in before[1..];
  }
}
