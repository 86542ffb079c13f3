/** Which coverage suites the public test profiles can execute. */
module SuiteReachability {
  import opened Graphs
  import opened Sequences
  import opened Text

  /** The fields of a profile; absent ones are empty. */
  datatype Profile = Profile(base: string, dynamic: bool, suites: seq<string>)

  datatype Suite = Suite(id: string, coverageContribution: bool)

  /** The profiles by name (an entry may hold no usable profile) and the names in file order. */
  datatype RegistryData = RegistryData(names: seq<string>, profiles: map<string, Option<Profile>>, suites: seq<Suite>)

  type Registry = r: RegistryData | Distinct(r.names) && ToSet(r.names) == r.profiles.Keys
    witness RegistryData([], map[], [])

  datatype Issue = InheritanceCycle(name: string) | MissingProfile(name: string) | NoPublicProfile
    | Unreachable(suiteId: string)

  type Profiles = map<string, Option<Profile>>

  predicate Defined(profiles: Profiles, name: string) {
    name in profiles && profiles[name].Some?
  }

  function BaseOf(profiles: Profiles, name: string): string
    requires Defined(profiles, name)
  {
    Trim(profiles[name].value.base)
  }

  // ----- inheritance chains

  /** An edge leads from each defined profile to the name it inherits from, if it names one. */
  function BaseGraph(profiles: Profiles): Graph {
    map name | name in profiles && profiles[name].Some? ::
      if Trim(profiles[name].value.base) == "" then {} else {Trim(profiles[name].value.base)}
  }

  lemma BaseEdge(profiles: Profiles, a: string, b: string)
    ensures b in Next(BaseGraph(profiles), a) <==> Defined(profiles, a) && BaseOf(profiles, a) == b != ""
  {
  }

  /** The names from a profile to the end of its inheritance, the last of them a defined profile without a base. */
  predicate ChainOf(profiles: Profiles, name: string, chain: seq<string>) {
    Walk(BaseGraph(profiles), chain) && chain[0] == name &&
    Defined(profiles, chain[|chain| - 1]) && BaseOf(profiles, chain[|chain| - 1]) == ""
  }

  /** The profile has a defined inheritance chain that ends. */
  ghost predicate Resolvable(profiles: Profiles, name: string) {
    exists chain :: ChainOf(profiles, name, chain)
  }

  /** The plain union of the suites along a chain. */
  function ChainSuites(profiles: Profiles, chain: seq<string>): set<string> {
    set name, suite | name in chain && name in profiles && profiles[name].Some? &&
      suite in profiles[name].value.suites :: suite
  }

  lemma ChainTail(profiles: Profiles, name: string, chain: seq<string>)
    requires ChainOf(profiles, name, chain)
    ensures Defined(profiles, name) && (|chain| == 1 <==> BaseOf(profiles, name) == "")
    ensures |chain| > 1 ==> BaseOf(profiles, name) == chain[1] && ChainOf(profiles, chain[1], chain[1..])
  {
    if |chain| > 1 {
      assert chain[1] in Next(BaseGraph(profiles), chain[0]);
      BaseEdge(profiles, chain[0], chain[1]);
      WalkTail(BaseGraph(profiles), chain);
    }
  }

  lemma WalkTail(g: Graph, w: seq<string>)
    requires Walk(g, w) && |w| > 1
    ensures Walk(g, w[1..])
  {
    forall i | 0 <= i < |w| - 2 ensures w[1..][i + 1] in Next(g, w[1..][i]) {
      assert w[i + 2] in Next(g, w[i + 1]);
    }
  }

  lemma {:induction false} ChainUnique(profiles: Profiles, name: string, a: seq<string>, b: seq<string>)
    requires ChainOf(profiles, name, a) && ChainOf(profiles, name, b)
    ensures a == b
    decreases |a|
  {
    ChainTail(profiles, name, a);
    ChainTail(profiles, name, b);
    if |a| > 1 {
      ChainUnique(profiles, a[1], a[1..], b[1..]);
      assert a == [a[0]] + a[1..] && b == [b[0]] + b[1..];
    }
  }

  lemma ChainCons(profiles: Profiles, name: string, chain: seq<string>)
    requires Defined(profiles, name) && BaseOf(profiles, name) != "" && ChainOf(profiles, BaseOf(profiles, name), chain)
    ensures ChainOf(profiles, name, [name] + chain)
  {
    BaseEdge(profiles, name, chain[0]);
    WalkPrepend(BaseGraph(profiles), name, chain);
  }

  lemma ResolvableWithBase(profiles: Profiles, name: string)
    requires Defined(profiles, name) && BaseOf(profiles, name) != "" && Resolvable(profiles, name)
    ensures Resolvable(profiles, BaseOf(profiles, name))
  {
    var chain :| ChainOf(profiles, name, chain);
    ChainTail(profiles, name, chain);
  }

  /** A walk from a profile stays on its chain. */
  lemma {:induction false} WalkStaysOnChain(profiles: Profiles, path: seq<string>, chain: seq<string>)
    requires Walk(BaseGraph(profiles), path) && ChainOf(profiles, path[0], chain)
    ensures |path| <= |chain| && ChainOf(profiles, path[|path| - 1], chain[|path| - 1..])
    decreases |path|
  {
    if |path| > 1 {
      assert path[1] in Next(BaseGraph(profiles), path[0]);
      BaseEdge(profiles, path[0], path[1]);
      ChainTail(profiles, path[0], chain);
      WalkTail(BaseGraph(profiles), path);
      WalkStaysOnChain(profiles, path[1..], chain[1..]);
      assert chain[1..][|path| - 2..] == chain[|path| - 1..];
    }
  }

  /** A profile that inherits from itself, however indirectly, has no chain. */
  lemma CycleHasNoChain(profiles: Profiles, path: seq<string>)
    requires ClosedWalk(BaseGraph(profiles), path)
    ensures !Resolvable(profiles, path[0])
  {
    if chain :| ChainOf(profiles, path[0], chain) {
      WalkStaysOnChain(profiles, path, chain);
      ChainUnique(profiles, path[0], chain, chain[|path| - 1..]);
    }
  }

  /** What an issue of the resolver says: the profile inherits from itself, or the name is not defined. */
  ghost predicate TrueOfChains(profiles: Profiles, issue: Issue) {
    match issue
    case InheritanceCycle(name) => exists cycle :: ClosedWalk(BaseGraph(profiles), cycle) && cycle[0] == name
    case MissingProfile(name) => !Defined(profiles, name)
    case _ => false
  }

  // ----- what a resolution leaves behind, whether or not there are chains

  /** The suites of the defined ones among these profiles. */
  function SuitesOf(profiles: Profiles, names: set<string>): set<string> {
    set name, suite | name in names && name in profiles && profiles[name].Some? &&
      suite in profiles[name].value.suites :: suite
  }

  /** A profile without a base, or with one that came before it or has an issue of its own. */
  predicate BaseSettled(profiles: Profiles, earlier: seq<string>, issues: seq<Issue>, name: string) {
    Defined(profiles, name) &&
    var base := BaseOf(profiles, name);
    base == "" || base in earlier || MissingProfile(base) in issues || InheritanceCycle(base) in issues
  }

  /** The issue is about a profile that inheritance reaches, and a profile in a cycle is resolved or in work. */
  ghost predicate Traces(profiles: Profiles, roots: set<string>, known: set<string>, issue: Issue) {
    match issue
    case MissingProfile(name) => Reaches(BaseGraph(profiles), roots, name)
    case InheritanceCycle(name) => Reaches(BaseGraph(profiles), roots, name) && name in known
    case _ => true
  }

  ghost predicate CacheTraced(profiles: Profiles, roots: set<string>, cache: map<string, set<string>>) {
    forall name | name in cache ::
      Defined(profiles, name) && Reaches(BaseGraph(profiles), roots, name) &&
      cache[name] <= SuitesOf(profiles, cache.Keys)
  }

  predicate AllSettled(profiles: Profiles, finished: seq<string>, issues: seq<Issue>) {
    forall i | 0 <= i < |finished| :: BaseSettled(profiles, finished[..i], issues, finished[i])
  }

  /** The cache was filled in the order of `finished`, from the roots down, with suites of cached profiles only. */
  ghost predicate Traced(profiles: Profiles, roots: set<string>, cache: map<string, set<string>>,
                         finished: seq<string>, visiting: set<string>, issues: seq<Issue>) {
    ToSet(finished) == cache.Keys && CacheTraced(profiles, roots, cache) && AllSettled(profiles, finished, issues) &&
    forall issue | issue in issues :: Traces(profiles, roots, cache.Keys + visiting, issue)
  }

  lemma TraceIssue(profiles: Profiles, roots: set<string>, cache: map<string, set<string>>,
                   finished: seq<string>, visiting: set<string>, issues: seq<Issue>, issue: Issue)
    requires Traced(profiles, roots, cache, finished, visiting, issues)
    requires Traces(profiles, roots, cache.Keys + visiting, issue)
    ensures Traced(profiles, roots, cache, finished, visiting, issues + [issue])
  {
    forall i | 0 <= i < |finished| ensures BaseSettled(profiles, finished[..i], issues + [issue], finished[i]) {
      assert BaseSettled(profiles, finished[..i], issues, finished[i]);
    }
  }

  lemma TraceVisit(profiles: Profiles, roots: set<string>, cache: map<string, set<string>>,
                   finished: seq<string>, visiting: set<string>, issues: seq<Issue>, name: string)
    requires Traced(profiles, roots, cache, finished, visiting, issues)
    ensures Traced(profiles, roots, cache, finished, visiting + {name}, issues)
  {
    forall issue | issue in issues ensures Traces(profiles, roots, cache.Keys + (visiting + {name}), issue) {
      assert Traces(profiles, roots, cache.Keys + visiting, issue);
    }
  }

  lemma TraceFinish(profiles: Profiles, roots: set<string>, cache: map<string, set<string>>,
                    finished: seq<string>, visiting: set<string>, issues: seq<Issue>, name: string,
                    resolved: set<string>)
    requires Traced(profiles, roots, cache, finished, visiting + {name}, issues)
    requires Reaches(BaseGraph(profiles), roots, name) && BaseSettled(profiles, finished, issues, name)
    requires resolved <= SuitesOf(profiles, cache.Keys + {name})
    ensures Traced(profiles, roots, cache[name := resolved], finished + [name], visiting, issues)
  {
    var filled := cache[name := resolved];
    assert filled.Keys == cache.Keys + {name};
    FinishSettled(profiles, finished, issues, name);
    assert ToSet(finished + [name]) == ToSet(finished) + {name};
    assert cache.Keys + (visiting + {name}) == filled.Keys + visiting;
  }

  lemma FinishSettled(profiles: Profiles, finished: seq<string>, issues: seq<Issue>, name: string)
    requires AllSettled(profiles, finished, issues) && BaseSettled(profiles, finished, issues, name)
    ensures AllSettled(profiles, finished + [name], issues)
  {
    var longer := finished + [name];
    forall i | 0 <= i < |longer| ensures BaseSettled(profiles, longer[..i], issues, longer[i]) {
      assert longer[..i] == finished[..i];
      if i == |finished| { assert finished[..i] == finished; }
    }
  }

  /** More profiles are known, and the result is among their suites and holds all those that are new. */
  predicate Gains(profiles: Profiles, before: set<string>, after: set<string>, resolved: set<string>) {
    before <= after && resolved <= SuitesOf(profiles, after) &&
    SuitesOf(profiles, after) <= SuitesOf(profiles, before) + resolved
  }

  lemma GainsOwn(profiles: Profiles, before: set<string>, middle: set<string>, name: string, inherited: set<string>)
    requires Defined(profiles, name) && Gains(profiles, before, middle, inherited)
    ensures Gains(profiles, before, middle + {name}, inherited + ToSet(profiles[name].value.suites))
  {
    assert SuitesOf(profiles, middle + {name}) ==
      SuitesOf(profiles, middle) + ToSet(profiles[name].value.suites);
  }

  /** The name is resolved, or there is an issue about it. */
  predicate Handled(profiles: Profiles, cache: set<string>, visiting: set<string>, issues: seq<Issue>, name: string) {
    name in cache || (!Defined(profiles, name) && MissingProfile(name) in issues) ||
    (name in visiting && InheritanceCycle(name) in issues)
  }

  // ----- what there is to report once all roots are resolved

  ghost predicate OnCycle(profiles: Profiles, name: string) {
    exists cycle :: ClosedWalk(BaseGraph(profiles), cycle) && cycle[0] == name
  }

  /**
   * Reported are exactly the undefined names that inheritance reaches from the roots, only profiles in a reached
   * cycle, and of every reached cycle at least one.
   */
  ghost predicate FaultsReported(profiles: Profiles, roots: set<string>, issues: seq<Issue>) {
    (forall name :: MissingProfile(name) in issues <==>
       Reaches(BaseGraph(profiles), roots, name) && !Defined(profiles, name)) &&
    (forall name | InheritanceCycle(name) in issues ::
       Reaches(BaseGraph(profiles), roots, name) && OnCycle(profiles, name)) &&
    forall w | ClosedWalk(BaseGraph(profiles), w) && Reaches(BaseGraph(profiles), roots, w[0]) ::
      exists name | name in w :: InheritanceCycle(name) in issues
  }

  /** Some defined profile that inheritance reaches from the roots lists the suite. */
  ghost predicate Listed(profiles: Profiles, roots: set<string>, suite: string) {
    exists name :: Reaches(BaseGraph(profiles), roots, name) && Defined(profiles, name) &&
      suite in profiles[name].value.suites
  }

  /** Everything is resolved and nothing is in work. */
  ghost predicate Complete(profiles: Profiles, roots: set<string>, cache: map<string, set<string>>,
                           finished: seq<string>, issues: seq<Issue>) {
    Traced(profiles, roots, cache, finished, {}, issues) &&
    (forall issue | issue in issues :: TrueOfChains(profiles, issue)) &&
    forall name | name in roots :: Handled(profiles, cache.Keys, {}, issues, name)
  }

  lemma CachedBase(profiles: Profiles, roots: set<string>, cache: map<string, set<string>>,
                   finished: seq<string>, issues: seq<Issue>, name: string)
    requires Complete(profiles, roots, cache, finished, issues)
    requires name in cache && Defined(profiles, name) && BaseOf(profiles, name) != ""
    ensures Handled(profiles, cache.Keys, {}, issues, BaseOf(profiles, name))
  {
    assert name in ToSet(finished);
    var i :| 0 <= i < |finished| && finished[i] == name;
    assert BaseSettled(profiles, finished[..i], issues, finished[i]);
    var base := BaseOf(profiles, name);
    if base in finished[..i] { assert base in ToSet(finished); }
    if InheritanceCycle(base) in issues { assert Traces(profiles, roots, cache.Keys + {}, InheritanceCycle(base)); }
    if MissingProfile(base) in issues { assert TrueOfChains(profiles, MissingProfile(base)); }
  }

  lemma {:induction false} WalkHandled(profiles: Profiles, roots: set<string>, cache: map<string, set<string>>,
                                       finished: seq<string>, issues: seq<Issue>, w: seq<string>)
    requires Complete(profiles, roots, cache, finished, issues)
    requires Walk(BaseGraph(profiles), w) && w[0] in roots
    ensures Handled(profiles, cache.Keys, {}, issues, w[|w| - 1])
  {
    if |w| > 1 {
      var last := |w| - 1;
      WalkHandled(profiles, roots, cache, finished, issues, w[..last]);
      assert w[last] in Next(BaseGraph(profiles), w[last - 1]);
      BaseEdge(profiles, w[last - 1], w[last]);
      CachedBase(profiles, roots, cache, finished, issues, w[last - 1]);
    }
  }

  /** The cached profiles are exactly the defined ones that inheritance reaches. */
  lemma CachedExactly(profiles: Profiles, roots: set<string>, cache: map<string, set<string>>,
                      finished: seq<string>, issues: seq<Issue>, name: string)
    requires Complete(profiles, roots, cache, finished, issues)
    ensures name in cache <==> Reaches(BaseGraph(profiles), roots, name) && Defined(profiles, name)
    ensures MissingProfile(name) in issues <==> Reaches(BaseGraph(profiles), roots, name) && !Defined(profiles, name)
  {
    if Reaches(BaseGraph(profiles), roots, name) {
      var w :| WalkTo(BaseGraph(profiles), roots, w, name);
      WalkHandled(profiles, roots, cache, finished, issues, w);
    }
    if MissingProfile(name) in issues {
      assert TrueOfChains(profiles, MissingProfile(name));
      assert Traces(profiles, roots, cache.Keys + {}, MissingProfile(name));
    }
  }

  lemma {:induction false} EarliestIn(finished: seq<string>, s: set<string>) returns (i: nat)
    requires exists name | name in s :: name in finished
    ensures i < |finished| && finished[i] in s && forall name | name in finished[..i] :: name !in s
  {
    var last := |finished| - 1;
    if exists name | name in s :: name in finished[..last] {
      i := EarliestIn(finished[..last], s);
      assert finished[..last][..i] == finished[..i];
    } else {
      i := last;
      var name :| name in s && name in finished;
      assert finished == finished[..last] + [finished[last]];
    }
  }

  lemma NextOnCycle(profiles: Profiles, w: seq<string>, name: string)
    requires ClosedWalk(BaseGraph(profiles), w) && name in w
    ensures Defined(profiles, name) && BaseOf(profiles, name) != "" && BaseOf(profiles, name) in w
  {
    var k :| 0 <= k < |w| && w[k] == name;
    var j := if k == |w| - 1 then 0 else k;
    assert w[j + 1] in Next(BaseGraph(profiles), w[j]);
    BaseEdge(profiles, w[j], w[j + 1]);
  }

  /** The profile of a reached cycle that was resolved first was waiting for one still in work. */
  lemma CycleReported(profiles: Profiles, roots: set<string>, cache: map<string, set<string>>,
                      finished: seq<string>, issues: seq<Issue>, w: seq<string>)
    requires Complete(profiles, roots, cache, finished, issues)
    requires ClosedWalk(BaseGraph(profiles), w) && Reaches(BaseGraph(profiles), roots, w[0])
    ensures exists name | name in w :: InheritanceCycle(name) in issues
  {
    NextOnCycle(profiles, w, w[0]);
    CachedExactly(profiles, roots, cache, finished, issues, w[0]);
    assert w[0] in ToSet(finished) && w[0] in ToSet(w);
    var i := EarliestIn(finished, ToSet(w));
    NextOnCycle(profiles, w, finished[i]);
    assert BaseSettled(profiles, finished[..i], issues, finished[i]);
    var base := BaseOf(profiles, finished[i]);
    NextOnCycle(profiles, w, base);
    assert base in ToSet(w);
    CachedExactly(profiles, roots, cache, finished, issues, base);
  }

  lemma CompleteReports(profiles: Profiles, roots: set<string>, cache: map<string, set<string>>,
                        finished: seq<string>, issues: seq<Issue>)
    requires Complete(profiles, roots, cache, finished, issues)
    ensures FaultsReported(profiles, roots, issues)
    ensures forall suite :: suite in SuitesOf(profiles, cache.Keys) <==> Listed(profiles, roots, suite)
  {
    forall name
      ensures name in cache <==> Reaches(BaseGraph(profiles), roots, name) && Defined(profiles, name)
      ensures MissingProfile(name) in issues <==>
        Reaches(BaseGraph(profiles), roots, name) && !Defined(profiles, name)
    {
      CachedExactly(profiles, roots, cache, finished, issues, name);
    }
    forall name | InheritanceCycle(name) in issues
      ensures Reaches(BaseGraph(profiles), roots, name) && OnCycle(profiles, name)
    {
      assert TrueOfChains(profiles, InheritanceCycle(name));
      assert Traces(profiles, roots, cache.Keys + {}, InheritanceCycle(name));
    }
    forall w | ClosedWalk(BaseGraph(profiles), w) && Reaches(BaseGraph(profiles), roots, w[0])
      ensures exists name | name in w :: InheritanceCycle(name) in issues
    {
      CycleReported(profiles, roots, cache, finished, issues, w);
    }
  }

  // ----- the memoised resolver

  /**
   * The cached set of a profile with a chain is the plain union along it; until an issue is raised every cached
   * profile has one.
   */
  ghost predicate CachedUnions(profiles: Profiles, cache: map<string, set<string>>, issues: seq<Issue>) {
    forall name | name in cache && (issues == [] || Resolvable(profiles, name)) ::
      CachedUnion(profiles, name, cache[name])
  }

  lemma UnionFinish(profiles: Profiles, cache: map<string, set<string>>, issues: seq<Issue>, name: string,
                    resolved: set<string>)
    requires CachedUnions(profiles, cache, issues)
    requires issues == [] || Resolvable(profiles, name) ==> CachedUnion(profiles, name, resolved)
    ensures CachedUnions(profiles, cache[name := resolved], issues)
  {
  }

  class Resolver {
    const profiles: Profiles
    ghost const roots: set<string>
    var cache: map<string, set<string>>
    var visiting: set<string>
    var issues: seq<Issue>
    ghost var finished: seq<string>  // the cached profiles, in the order in which they were resolved

    ghost predicate Valid()
      reads this
    {
      visiting <= profiles.Keys && (forall issue | issue in issues :: TrueOfChains(profiles, issue)) &&
      CachedUnions(profiles, cache, issues)
    }

    ghost predicate Tracked()
      reads this
    {
      Traced(profiles, roots, cache, finished, visiting, issues)
    }

    constructor (profiles: Profiles, ghost roots: set<string>)
      ensures Valid() && Tracked() && this.profiles == profiles && this.roots == roots
      ensures cache == map[] && visiting == {} && issues == []
    {
      this.profiles, this.roots := profiles, roots;
      cache, visiting, issues, finished := map[], {}, [], [];
    }

    /** An issue about the name that is asked for; it has no suites to give. */
    method Raise(issue: Issue)
      requires Valid() && Tracked() && TrueOfChains(profiles, issue)
      requires Traces(profiles, roots, cache.Keys + visiting, issue)
      modifies this`issues
      ensures Valid() && Tracked() && issues == old(issues) + [issue]
    {
      TraceIssue(profiles, roots, cache, finished, visiting, issues, issue);
      issues := issues + [issue];
    }

    /** `path` lists the profiles being resolved, outermost first; `name` is the one now asked for. */
    method ResolveProfileSuites(name: string, ghost path: seq<string>) returns (resolved: set<string>)
      requires Valid() && Walk(BaseGraph(profiles), path + [name]) && visiting == ToSet(path)
      requires Tracked() && Reaches(BaseGraph(profiles), roots, name)
      modifies this
      ensures Valid() && visiting == old(visiting) && old(issues) <= issues
      ensures issues == [] || Resolvable(profiles, name) ==> CachedUnion(profiles, name, resolved)
      ensures old(issues) == [] && issues != [] ==> !Resolvable(profiles, name)
      ensures Tracked() && Gains(profiles, old(cache).Keys, cache.Keys, resolved)
      ensures Handled(profiles, cache.Keys, visiting, issues, name)
      decreases profiles.Keys - visiting, 1
    {
      if name in cache {
        return cache[name];
      }
      if name in visiting {
        CycleThrough(profiles, path, name);
        Raise(InheritanceCycle(name));
        return {};
      }
      if name !in profiles || profiles[name].None? {
        UndefinedHasNoChain(profiles, name);
        Raise(MissingProfile(name));
        return {};
      }
      resolved := ResolveDefined(name, path);
    }

    /** A defined profile that is not cached: what it inherits, then its own suites. */
    method ResolveDefined(name: string, ghost path: seq<string>) returns (resolved: set<string>)
      requires Valid() && Walk(BaseGraph(profiles), path + [name]) && visiting == ToSet(path)
      requires Tracked() && Reaches(BaseGraph(profiles), roots, name)
      requires Defined(profiles, name) && name !in visiting
      modifies this
      ensures Valid() && visiting == old(visiting) && old(issues) <= issues
      ensures issues == [] || Resolvable(profiles, name) ==> CachedUnion(profiles, name, resolved)
      ensures old(issues) == [] && issues != [] ==> !Resolvable(profiles, name)
      ensures Tracked() && Gains(profiles, old(cache).Keys, cache.Keys, resolved) && name in cache
      decreases profiles.Keys - visiting, 0
    {
      TraceVisit(profiles, roots, cache, finished, visiting, issues, name);
      visiting := visiting + {name};
      resolved := InheritedSuites(name, path);
      if issues == [] || Resolvable(profiles, name) { OwnSuites(profiles, name, resolved); }
      GainsOwn(profiles, old(cache).Keys, cache.Keys, name, resolved);
      resolved := AddSuiteList(resolved, profiles[name].value.suites);
      Finish(name, resolved);
    }

    /** The suites of the base of a profile in work; none without a base. */
    method InheritedSuites(name: string, ghost path: seq<string>) returns (resolved: set<string>)
      requires Valid() && Walk(BaseGraph(profiles), path + [name]) && visiting == ToSet(path) + {name}
      requires Tracked() && Reaches(BaseGraph(profiles), roots, name) && Defined(profiles, name)
      modifies this
      ensures Valid() && visiting == old(visiting) && old(issues) <= issues
      ensures issues == [] || Resolvable(profiles, name) ==>
        if BaseOf(profiles, name) == "" then resolved == {} else CachedUnion(profiles, BaseOf(profiles, name), resolved)
      ensures old(issues) == [] && issues != [] ==> !Resolvable(profiles, name)
      ensures Tracked() && Gains(profiles, old(cache).Keys, cache.Keys, resolved)
      ensures BaseSettled(profiles, finished, issues, name)
      decreases profiles.Keys - visiting, 2
    {
      resolved := {};
      var baseName := Trim(profiles[name].value.base);
      if baseName == "" { return; }
      ExtendPath(profiles, path, name);
      BaseEdge(profiles, name, baseName);
      ReachesNext(BaseGraph(profiles), roots, name, baseName);
      var inherited := ResolveProfileSuites(baseName, path + [name]);
      resolved := AddSuites(resolved, inherited);
      if Resolvable(profiles, name) { ResolvableWithBase(profiles, name); }
      assert baseName in finished <==> baseName in ToSet(finished);
    }

    /** The profile is no longer in work and its suites are cached. */
    method Finish(name: string, resolved: set<string>)
      requires Valid() && Tracked() && name in visiting && Reaches(BaseGraph(profiles), roots, name)
      requires issues == [] || Resolvable(profiles, name) ==> CachedUnion(profiles, name, resolved)
      requires BaseSettled(profiles, finished, issues, name) && resolved <= SuitesOf(profiles, cache.Keys + {name})
      modifies this`visiting, this`cache, this`finished
      ensures Valid() && Tracked() && visiting == old(visiting) - {name} && cache == old(cache)[name := resolved]
    {
      assert visiting == (visiting - {name}) + {name};
      TraceFinish(profiles, roots, cache, finished, visiting - {name}, issues, name, resolved);
      UnionFinish(profiles, cache, issues, name, resolved);
      visiting := visiting - {name};
      cache := cache[name := resolved];
      finished := finished + [name];
    }
  }

  /** The inherited suites join those resolved so far, one by one. */
  method AddSuites(resolved: set<string>, inherited: set<string>) returns (all: set<string>)
    ensures all == resolved + inherited
  {
    all := resolved;
    var rest := inherited;
    while rest != {}
      invariant rest <= inherited && all == resolved + (inherited - rest)
      decreases rest
    {
      var suiteId :| suiteId in rest;
      all := all + {suiteId};
      rest := rest - {suiteId};
    }
  }

  method AddSuiteList(resolved: set<string>, suites: seq<string>) returns (all: set<string>)
    ensures all == resolved + ToSet(suites)
  {
    all := resolved;
    for i := 0 to |suites|
      invariant all == resolved + ToSet(suites[..i])
    {
      assert suites[..i + 1] == suites[..i] + [suites[i]];
      all := all + {suites[i]};
    }
    assert suites[..|suites|] == suites;
  }

  /** The set is the union of the suites along the chain of the profile. */
  ghost predicate CachedUnion(profiles: Profiles, name: string, suites: set<string>) {
    exists chain :: ChainOf(profiles, name, chain) && suites == ChainSuites(profiles, chain)
  }

  lemma UndefinedHasNoChain(profiles: Profiles, name: string)
    requires !Defined(profiles, name)
    ensures !Resolvable(profiles, name)
  {
    if chain :| ChainOf(profiles, name, chain) { ChainTail(profiles, name, chain); }
  }

  lemma CycleThrough(profiles: Profiles, path: seq<string>, name: string)
    requires Walk(BaseGraph(profiles), path + [name]) && name in path
    ensures !Resolvable(profiles, name) && TrueOfChains(profiles, InheritanceCycle(name))
  {
    var i := IndexOf(path, name);
    var whole := path + [name];
    var cycle := whole[i..];
    forall k | 0 <= k < |cycle| - 1 ensures cycle[k + 1] in Next(BaseGraph(profiles), cycle[k]) {
      assert whole[i + k + 1] in Next(BaseGraph(profiles), whole[i + k]);
    }
    CycleHasNoChain(profiles, cycle);
  }

  lemma ExtendPath(profiles: Profiles, path: seq<string>, name: string)
    requires Walk(BaseGraph(profiles), path + [name]) && Defined(profiles, name) && BaseOf(profiles, name) != ""
    ensures Walk(BaseGraph(profiles), path + [name] + [BaseOf(profiles, name)])
    ensures ToSet(path + [name]) == ToSet(path) + {name}
  {
    var longer := path + [name] + [BaseOf(profiles, name)];
    forall i | 0 <= i < |longer| - 1 ensures longer[i + 1] in Next(BaseGraph(profiles), longer[i]) {
      if i < |path| { assert (path + [name])[i + 1] in Next(BaseGraph(profiles), (path + [name])[i]); }
    }
  }

  lemma OwnSuites(profiles: Profiles, name: string, base: set<string>)
    requires Defined(profiles, name)
    requires if BaseOf(profiles, name) == "" then base == {} else CachedUnion(profiles, BaseOf(profiles, name), base)
    ensures CachedUnion(profiles, name, base + ToSet(profiles[name].value.suites))
  {
    if BaseOf(profiles, name) == "" {
      assert ChainOf(profiles, name, [name]);
      ChainSuitesCons(profiles, name, []);
      assert [name] + [] == [name];
    } else {
      var chain :| ChainOf(profiles, BaseOf(profiles, name), chain) && base == ChainSuites(profiles, chain);
      ChainCons(profiles, name, chain);
      ChainSuitesCons(profiles, name, chain);
    }
  }

  lemma ChainSuitesCons(profiles: Profiles, name: string, chain: seq<string>)
    requires Defined(profiles, name)
    ensures ChainSuites(profiles, [name] + chain) == ChainSuites(profiles, chain) + ToSet(profiles[name].value.suites)
  {
    assert forall n :: n in [name] + chain <==> n == name || n in chain;
  }

  // ----- the report

  predicate IsPublic(r: Registry, name: string) {
    name in r.profiles && EndsWith(name, "-public") && !(r.profiles[name].Some? && r.profiles[name].value.dynamic)
  }

  function PublicName(r: Registry): string -> bool {
    name => IsPublic(r, name)
  }

  function PublicNames(r: Registry): seq<string> {
    SortUnique(Filter(r.names, PublicName(r)))
  }

  function CoverageScan(): (nat, Suite) -> seq<string> {
    (_, s: Suite) => if s.coverageContribution && Trim(s.id) != "" then [Trim(s.id)] else []
  }

  function IdKey(): string -> string {
    (s: string) => s
  }

  function CoverageIds(r: Registry): seq<string> {
    SortByKey(Collect(r.suites, CoverageScan()), IdKey())
  }

  predicate IsCoverageId(r: Registry, id: string) {
    id != "" && exists s | s in r.suites :: s.coverageContribution && Trim(s.id) == id
  }

  lemma PublicNamesExact(r: Registry, name: string)
    ensures name in PublicNames(r) <==> IsPublic(r, name)
    ensures IsPublic(r, name) <==>
      name in r.profiles && (r.profiles[name].None? || !r.profiles[name].value.dynamic) &&
      exists stem :: name == stem + "-public"
  {
    if EndsWith(name, "-public") {
      assert name == name[..|name| - |"-public"|] + "-public";
    }
    FilterMembers(r.names, PublicName(r), name);
    assert name in PublicNames(r) <==> name in ToSet(PublicNames(r));
    assert name in r.profiles <==> name in ToSet(r.names);
  }

  lemma CoverageScanned(r: Registry, id: string)
    ensures id in Collect(r.suites, CoverageScan()) <==> IsCoverageId(r, id)
  {
    CollectMembers(r.suites, CoverageScan(), id);
    if IsCoverageId(r, id) {
      var s :| s in r.suites && s.coverageContribution && Trim(s.id) == id;
      var i: nat :| i < |r.suites| && r.suites[i] == s;
      assert id in CoverageScan()(i, r.suites[i]);
    }
  }

  lemma CoverageIdsExact(r: Registry, id: string)
    ensures id in CoverageIds(r) <==> IsCoverageId(r, id)
  {
    CoverageScanned(r, id);
    SameMultisetSameMembers(CoverageIds(r), Collect(r.suites, CoverageScan()), id);
  }

  /** The suite is listed on the inheritance chain of some public profile. */
  ghost predicate Executable(r: Registry, suiteId: string) {
    exists name, chain :: IsPublic(r, name) && ChainOf(r.profiles, name, chain) &&
      suiteId in ChainSuites(r.profiles, chain)
  }

  /** Nothing is wrong with the registry. */
  ghost predicate Sound(r: Registry) {
    (forall name | IsPublic(r, name) :: Resolvable(r.profiles, name)) &&
    (forall id | IsCoverageId(r, id) :: Executable(r, id)) &&
    ((exists id :: IsCoverageId(r, id)) ==> exists name :: IsPublic(r, name))
  }

  /** The suites of the public profiles resolved so far. */
  ghost predicate Covers(r: Registry, names: seq<string>, reachable: set<string>) {
    forall id :: id in reachable <==>
      exists name, chain :: name in names && ChainOf(r.profiles, name, chain) && id in ChainSuites(r.profiles, chain)
  }

  /** At least the suites of the public profiles that have a chain. */
  ghost predicate CoversAtLeast(r: Registry, names: seq<string>, reachable: set<string>) {
    forall name, chain, id |
      name in names && ChainOf(r.profiles, name, chain) && id in ChainSuites(r.profiles, chain) :: id in reachable
  }

  lemma CoversAtLeastOneMore(r: Registry, names: seq<string>, name: string, reachable: set<string>,
                             resolved: set<string>)
    requires CoversAtLeast(r, names, reachable) && (Resolvable(r.profiles, name) ==>
      CachedUnion(r.profiles, name, resolved))
    ensures CoversAtLeast(r, names + [name], reachable + resolved)
  {
    forall n, c, id | n in names + [name] && ChainOf(r.profiles, n, c) && id in ChainSuites(r.profiles, c)
      ensures id in reachable + resolved
    {
      if n == name {
        var chain :| ChainOf(r.profiles, name, chain) && resolved == ChainSuites(r.profiles, chain);
        ChainUnique(r.profiles, name, c, chain);
      } else {
        assert n in names;
      }
    }
  }

  lemma CoversOneMore(r: Registry, names: seq<string>, name: string, reachable: set<string>, resolved: set<string>)
    requires Covers(r, names, reachable) && CachedUnion(r.profiles, name, resolved)
    ensures Covers(r, names + [name], reachable + resolved)
  {
    var chain :| ChainOf(r.profiles, name, chain) && resolved == ChainSuites(r.profiles, chain);
    forall id ensures id in reachable + resolved <==>
      exists n, c :: n in names + [name] && ChainOf(r.profiles, n, c) && id in ChainSuites(r.profiles, c)
    {
      if id in resolved { assert name in names + [name] && ChainOf(r.profiles, name, chain); }
      if id in reachable {
        var n, c :| n in names && ChainOf(r.profiles, n, c) && id in ChainSuites(r.profiles, c);
        assert n in names + [name];
      }
      if n, c :| n in names + [name] && ChainOf(r.profiles, n, c) && id in ChainSuites(r.profiles, c) {
        if n == name { ChainUnique(r.profiles, name, c, chain); } else { assert n in names; }
      }
    }
  }

  /** Resolves the public profiles in order; each resolution starts with nothing being visited. */
  method ResolvePublicProfiles(r: Registry, names: seq<string>) returns (reachable: set<string>, issues: seq<Issue>)
    ensures issues == [] <==> forall name | name in names :: Resolvable(r.profiles, name)
    ensures issues == [] ==> Covers(r, names, reachable)
    ensures CoversAtLeast(r, names, reachable)
    ensures forall issue | issue in issues :: TrueOfChains(r.profiles, issue)
    ensures FaultsReported(r.profiles, ToSet(names), issues)
    ensures forall suite :: suite in reachable <==> Listed(r.profiles, ToSet(names), suite)
  {
    var resolver := new Resolver(r.profiles, ToSet(names));
    reachable := {};
    for i := 0 to |names|
      invariant resolver.Valid() && resolver.profiles == r.profiles && resolver.visiting == {}
      invariant resolver.Tracked() && resolver.roots == ToSet(names)
      invariant reachable == SuitesOf(r.profiles, resolver.cache.Keys)
      invariant forall name | name in names[..i] ::
        Handled(r.profiles, resolver.cache.Keys, {}, resolver.issues, name)
      invariant resolver.issues == [] ==> Covers(r, names[..i], reachable)
      invariant CoversAtLeast(r, names[..i], reachable)
      invariant resolver.issues == [] <==> forall name | name in names[..i] :: Resolvable(r.profiles, name)
    {
      assert names[..i + 1] == names[..i] + [names[i]];
      ReachesRoot(BaseGraph(r.profiles), resolver.roots, names[i]);
      var resolved := resolver.ResolveProfileSuites(names[i], []);
      CoversAtLeastOneMore(r, names[..i], names[i], reachable, resolved);
      if resolver.issues == [] { CoversOneMore(r, names[..i], names[i], reachable, resolved); }
      reachable := reachable + resolved;
    }
    assert names[..|names|] == names;
    issues := resolver.issues;
    CompleteReports(r.profiles, ToSet(names), resolver.cache, resolver.finished, issues);
  }

  predicate IsUnreached(coverage: seq<string>, reachable: set<string>, issue: Issue) {
    issue.Unreachable? && issue.suiteId in coverage && issue.suiteId !in reachable
  }

  /** Appends an issue for every coverage suite that is not reachable. */
  method ReportUnreachable(coverage: seq<string>, reachable: set<string>, issues: seq<Issue>) returns (all: seq<Issue>)
    ensures issues <= all
    ensures all == [] <==> issues == [] && forall id | id in coverage :: id in reachable
    ensures forall issue :: issue in all <==> issue in issues || IsUnreached(coverage, reachable, issue)
  {
    all := issues;
    for i := 0 to |coverage|
      invariant issues <= all
      invariant all == [] <==> issues == [] && forall id | id in coverage[..i] :: id in reachable
      invariant forall issue :: issue in all <==> issue in issues || IsUnreached(coverage[..i], reachable, issue)
    {
      assert coverage[..i + 1] == coverage[..i] + [coverage[i]];
      if coverage[i] !in reachable { all := all + [Unreachable(coverage[i])]; }
    }
    assert coverage[..|coverage|] == coverage;
  }

  /** Every issue points at something that is wrong. */
  ghost predicate Justified(r: Registry, issue: Issue) {
    match issue
    case NoPublicProfile => forall name :: !IsPublic(r, name)
    case Unreachable(id) => IsCoverageId(r, id) && !Executable(r, id)
    case _ => TrueOfChains(r.profiles, issue)
  }

  lemma CoversExecutable(r: Registry, reachable: set<string>)
    requires Covers(r, PublicNames(r), reachable)
    ensures forall id :: id in reachable <==> Executable(r, id)
  {
    forall name ensures name in PublicNames(r) <==> IsPublic(r, name) { PublicNamesExact(r, name); }
  }

  lemma UnreachedIsNotExecutable(r: Registry, reachable: set<string>)
    requires CoversAtLeast(r, PublicNames(r), reachable)
    ensures forall id | id !in reachable :: !Executable(r, id)
  {
    forall id | Executable(r, id) ensures id in reachable {
      var name, chain :| IsPublic(r, name) && ChainOf(r.profiles, name, chain) && id in ChainSuites(r.profiles, chain);
      PublicNamesExact(r, name);
    }
  }

  lemma SoundExact(r: Registry, reachable: set<string>, resolvable: bool)
    requires resolvable <==> forall name | name in PublicNames(r) :: Resolvable(r.profiles, name)
    requires resolvable ==> forall id :: id in reachable <==> Executable(r, id)
    ensures Sound(r) <==> (resolvable && (forall id | id in CoverageIds(r) :: id in reachable) &&
                           (|CoverageIds(r)| > 0 ==> |PublicNames(r)| > 0))
  {
    forall name ensures name in PublicNames(r) <==> IsPublic(r, name) { PublicNamesExact(r, name); }
    forall id ensures id in CoverageIds(r) <==> IsCoverageId(r, id) { CoverageIdsExact(r, id); }
    if |CoverageIds(r)| > 0 { assert IsCoverageId(r, CoverageIds(r)[0]); }
    if |PublicNames(r)| > 0 { assert IsPublic(r, PublicNames(r)[0]); }
  }

  /** The public profiles. */
  function Publics(r: Registry): set<string> {
    set name | name in r.profiles && IsPublic(r, name)
  }

  /**
   * What exactly is reported, sound or not: the faults of the chains of the public profiles, that there is none of
   * them although suites contribute to coverage, and otherwise every such suite that they do not lead to.
   */
  ghost predicate Reports(r: Registry, issues: seq<Issue>) {
    FaultsReported(r.profiles, Publics(r), issues) &&
    (NoPublicProfile in issues <==> Publics(r) == {} && exists id :: IsCoverageId(r, id)) &&
    forall id :: Unreachable(id) in issues <==>
      IsCoverageId(r, id) && Publics(r) != {} && !Listed(r.profiles, Publics(r), id)
  }

  lemma PublicsListed(r: Registry)
    ensures ToSet(PublicNames(r)) == Publics(r)
    ensures Publics(r) == {} <==> PublicNames(r) == []
    ensures CoverageIds(r) == [] <==> !exists id :: IsCoverageId(r, id)
  {
    forall name ensures name in PublicNames(r) <==> IsPublic(r, name) { PublicNamesExact(r, name); }
    ToSetEmpty(PublicNames(r));
    forall id ensures id in CoverageIds(r) <==> IsCoverageId(r, id) { CoverageIdsExact(r, id); }
    if CoverageIds(r) != [] { assert IsCoverageId(r, CoverageIds(r)[0]); }
  }

  lemma SameMembersReport(r: Registry, a: seq<Issue>, b: seq<Issue>)
    requires Reports(r, a) && forall issue :: issue in a <==> issue in b
    ensures Reports(r, b)
  {
  }

  /** The other two kinds of issues do not come from the chains. */
  lemma FoundKinds(r: Registry, found: seq<Issue>)
    requires forall issue | issue in found :: TrueOfChains(r.profiles, issue)
    ensures NoPublicProfile !in found && forall id :: Unreachable(id) !in found
  {
    assert !TrueOfChains(r.profiles, NoPublicProfile);
    assert forall id :: !TrueOfChains(r.profiles, Unreachable(id));
  }

  lemma UnreachedReports(r: Registry, reachable: set<string>, found: seq<Issue>, all: seq<Issue>, id: string)
    requires Unreachable(id) !in found
    requires forall suite :: suite in reachable <==> Listed(r.profiles, Publics(r), suite)
    requires Publics(r) != {} || CoverageIds(r) == []
    requires forall issue :: issue in all <==> issue in found || IsUnreached(CoverageIds(r), reachable, issue)
    ensures Unreachable(id) in all <==>
      IsCoverageId(r, id) && Publics(r) != {} && !Listed(r.profiles, Publics(r), id)
  {
    CoverageIdsExact(r, id);
    assert Unreachable(id) in all <==> IsUnreached(CoverageIds(r), reachable, Unreachable(id));
  }

  lemma FoundReports(r: Registry, reachable: set<string>, found: seq<Issue>, all: seq<Issue>)
    requires FaultsReported(r.profiles, Publics(r), found)
    requires forall issue | issue in found :: TrueOfChains(r.profiles, issue)
    requires forall suite :: suite in reachable <==> Listed(r.profiles, Publics(r), suite)
    requires Publics(r) != {} || CoverageIds(r) == []
    requires forall issue :: issue in all <==> issue in found || IsUnreached(CoverageIds(r), reachable, issue)
    ensures Reports(r, all)
  {
    PublicsListed(r);
    FoundKinds(r, found);
    forall id
      ensures Unreachable(id) in all <==>
        IsCoverageId(r, id) && Publics(r) != {} && !Listed(r.profiles, Publics(r), id)
    {
      UnreachedReports(r, reachable, found, all, id);
    }
    SameFaults(r, found, all);
  }

  lemma SameFaults(r: Registry, found: seq<Issue>, all: seq<Issue>)
    requires FaultsReported(r.profiles, Publics(r), found)
    requires forall name :: MissingProfile(name) in found <==> MissingProfile(name) in all
    requires forall name :: InheritanceCycle(name) in found <==> InheritanceCycle(name) in all
    ensures FaultsReported(r.profiles, Publics(r), all)
  {
    forall w | ClosedWalk(BaseGraph(r.profiles), w) && Reaches(BaseGraph(r.profiles), Publics(r), w[0])
      ensures exists name | name in w :: InheritanceCycle(name) in all
    {
      var name :| name in w && InheritanceCycle(name) in found;
      assert InheritanceCycle(name) in all;
    }
  }

  lemma NoPublicReports(r: Registry, found: seq<Issue>)
    requires FaultsReported(r.profiles, Publics(r), found)
    requires forall issue | issue in found :: TrueOfChains(r.profiles, issue)
    requires Publics(r) == {} && CoverageIds(r) != []
    ensures Reports(r, found + [NoPublicProfile])
  {
    PublicsListed(r);
    forall id ensures Unreachable(id) !in found + [NoPublicProfile] {
      assert Unreachable(id) in found ==> TrueOfChains(r.profiles, Unreachable(id));
    }
    SameFaults(r, found, found + [NoPublicProfile]);
  }

  /** What the resolution of the public profiles found, and the suites it reached. */
  ghost predicate Resolved(r: Registry, reachable: set<string>, found: seq<Issue>) {
    (found == [] <==> forall name | name in PublicNames(r) :: Resolvable(r.profiles, name)) &&
    (found == [] ==> Covers(r, PublicNames(r), reachable)) && CoversAtLeast(r, PublicNames(r), reachable) &&
    (forall issue | issue in found :: TrueOfChains(r.profiles, issue)) &&
    FaultsReported(r.profiles, ToSet(PublicNames(r)), found) &&
    forall suite :: suite in reachable <==> Listed(r.profiles, ToSet(PublicNames(r)), suite)
  }

  /** The issues found so far, and those about the suites that contribute to coverage. */
  ghost predicate Collected(r: Registry, reachable: set<string>, found: seq<Issue>, issues: seq<Issue>) {
    if CoverageIds(r) != [] && PublicNames(r) == [] then issues == found + [NoPublicProfile]
    else
      (issues == [] <==> found == [] && forall id | id in CoverageIds(r) :: id in reachable) &&
      forall issue :: issue in issues <==> issue in found || IsUnreached(CoverageIds(r), reachable, issue)
  }

  method CollectIssues(r: Registry) returns (ghost reachable: set<string>, ghost found: seq<Issue>, issues: seq<Issue>)
    ensures Resolved(r, reachable, found) && Collected(r, reachable, found, issues)
  {
    var names, coverage := PublicNames(r), CoverageIds(r);
    var reached;
    reached, issues := ResolvePublicProfiles(r, names);
    reachable, found := reached, issues;
    if |coverage| > 0 && |names| == 0 {
      issues := issues + [NoPublicProfile];
      return;
    }
    issues := ReportUnreachable(coverage, reached, issues);
    DedupeEmpty(issues);
    issues := Dedupe(issues);
  }

  /** All issues of a registry: no public profile, faults of their chains, and suites that none of them reaches. */
  method TestSuiteReachabilityIssues(r: Registry) returns (issues: seq<Issue>)
    ensures issues == [] <==> Sound(r)
    ensures forall issue | issue in issues :: Justified(r, issue)
    ensures Reports(r, issues)
    ensures (exists name :: IsPublic(r, name)) && (forall name | IsPublic(r, name) :: Resolvable(r.profiles, name)) ==>
      forall id :: Unreachable(id) in issues <==> IsCoverageId(r, id) && !Executable(r, id)
  {
    ghost var reachable, found;
    reachable, found, issues := CollectIssues(r);
    CollectedReports(r, reachable, found, issues);
    CollectedSound(r, reachable, found, issues);
    CollectedJustified(r, reachable, found, issues);
    CollectedUnreachable(r, reachable, found, issues);
  }

  lemma CollectedReports(r: Registry, reachable: set<string>, found: seq<Issue>, issues: seq<Issue>)
    requires Resolved(r, reachable, found) && Collected(r, reachable, found, issues)
    ensures Reports(r, issues)
  {
    PublicsListed(r);
    if CoverageIds(r) != [] && PublicNames(r) == [] {
      NoPublicReports(r, found);
    } else {
      FoundReports(r, reachable, found, issues);
    }
  }

  lemma CollectedSound(r: Registry, reachable: set<string>, found: seq<Issue>, issues: seq<Issue>)
    requires Resolved(r, reachable, found) && Collected(r, reachable, found, issues)
    ensures issues == [] <==> Sound(r)
  {
    if found == [] { CoversExecutable(r, reachable); }
    SoundExact(r, reachable, found == []);
  }

  lemma CollectedJustified(r: Registry, reachable: set<string>, found: seq<Issue>, issues: seq<Issue>)
    requires Resolved(r, reachable, found) && Collected(r, reachable, found, issues)
    ensures forall issue | issue in issues :: Justified(r, issue)
  {
    UnreachedIsNotExecutable(r, reachable);
    if CoverageIds(r) != [] && PublicNames(r) == [] {
      PublicsListed(r);
      assert forall name :: IsPublic(r, name) ==> name in Publics(r);
    } else {
      AllJustified(r, found, reachable, issues);
    }
  }

  lemma CollectedUnreachable(r: Registry, reachable: set<string>, found: seq<Issue>, issues: seq<Issue>)
    requires Resolved(r, reachable, found) && Collected(r, reachable, found, issues)
    ensures (exists name :: IsPublic(r, name)) && (forall name | IsPublic(r, name) :: Resolvable(r.profiles, name)) ==>
      forall id :: Unreachable(id) in issues <==> IsCoverageId(r, id) && !Executable(r, id)
  {
    forall name ensures name in PublicNames(r) <==> IsPublic(r, name) { PublicNamesExact(r, name); }
    if (exists name :: IsPublic(r, name)) && (forall name | IsPublic(r, name) :: Resolvable(r.profiles, name)) {
      CoversExecutable(r, reachable);
      UnreachableExact(r, reachable, issues);
    }
  }

  lemma AllJustified(r: Registry, found: seq<Issue>, reachable: set<string>, all: seq<Issue>)
    requires forall issue | issue in found :: TrueOfChains(r.profiles, issue)
    requires forall id | id !in reachable :: !Executable(r, id)
    requires forall issue | issue in all :: issue in found || IsUnreached(CoverageIds(r), reachable, issue)
    ensures forall issue | issue in all :: Justified(r, issue)
  {
    forall issue | issue in all ensures Justified(r, issue) {
      if issue !in found { CoverageIdsExact(r, issue.suiteId); }
    }
  }

  lemma UnreachableExact(r: Registry, reachable: set<string>, all: seq<Issue>)
    requires forall id :: id in reachable <==> Executable(r, id)
    requires forall issue :: issue in all <==> IsUnreached(CoverageIds(r), reachable, issue)
    ensures forall id :: Unreachable(id) in all <==> IsCoverageId(r, id) && !Executable(r, id)
  {
    forall id ensures Unreachable(id) in all <==> IsCoverageId(r, id) && !Executable(r, id) {
      CoverageIdsExact(r, id);
      assert Unreachable(id) in all <==> IsUnreached(CoverageIds(r), reachable, Unreachable(id));
    }
  }

  lemma DedupeEmpty(issues: seq<Issue>)
    ensures Dedupe(issues) == [] <==> issues == []
  {
    ToSetEmpty(issues);
    ToSetEmpty(Dedupe(issues));
  }
}
