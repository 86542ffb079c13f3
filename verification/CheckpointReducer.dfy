/** The loops of the capability checkpoint reducer, each proved against the rules. */
module CheckpointReducer {
  import opened Sequences
  import opened Graphs
  import opened Json
  import opened CheckpointRules
  import opened CheckpointCycles
  import opened CheckpointTheory
  import opened CheckpointReports

  method ValidateEvidenceEntries(o: Options, d: Details, evidence: Value)
    returns (findings: seq<Finding>, bindings: seq<Binding>)
    ensures findings == EvidenceFindings(o, d, evidence)
    ensures bindings == EvidenceBindings(d, evidence)
  {
    findings, bindings := [], [];
    if !evidence.List? || evidence.items == [] {
      findings := [ReportAt(EvidenceMissing, Evidence, d)];
      return;
    }
    var entries := evidence.items;
    for i := 0 to |entries|
      invariant findings == Collect(entries[..i], EvidenceScan(o, d))
      invariant bindings == Collect(entries[..i], BindingScan(d))
    {
      CollectStep(entries, i, EvidenceScan(o, d));
      CollectStep(entries, i, BindingScan(d));
      findings := findings + EvidenceEntryFindings(o, d, entries[i]);
      if CommandId(entries[i]) != "" {
        bindings := bindings +
          [Binding(CommandId(entries[i]), ReportOf(entries[i]), d.checkpointId, d.role, d.criterionIndex, i)];
      }
    }
    assert entries[..|entries|] == entries;
  }

  /** Everything that the criteria of one checkpoint contribute. */
  datatype CriteriaOutcome = CriteriaOutcome(
    findings: seq<Finding>, unchecked: seq<Unchecked>, blockers: seq<Blocker>, bindings: seq<Binding>)

  function CriteriaResult(o: Options, owner: Owner, criteria: seq<Value>): CriteriaOutcome {
    CriteriaOutcome(
      Collect(criteria, CriterionScan(o, owner)), Collect(criteria, CriterionUncheckedScan(owner)),
      Collect(criteria, CriterionBlockerScan(owner)), Collect(criteria, CriterionBindingScan(o, owner)))
  }

  lemma CriteriaResultStep(o: Options, owner: Owner, criteria: seq<Value>, i: nat)
    requires i < |criteria|
    ensures var before, v := CriteriaResult(o, owner, criteria[..i]), criteria[i];
            CriteriaResult(o, owner, criteria[..i + 1]) == CriteriaOutcome(
              before.findings + CriterionFindings(o, owner, i, v),
              before.unchecked + CriterionUncheckedItems(owner, i, v),
              before.blockers + CriterionBlockers(owner, i, v),
              before.bindings + CriterionBindings(o, owner, i, v))
  {
    CollectStep(criteria, i, CriterionScan(o, owner));
    CollectStep(criteria, i, CriterionUncheckedScan(owner));
    CollectStep(criteria, i, CriterionBlockerScan(owner));
    CollectStep(criteria, i, CriterionBindingScan(o, owner));
  }

  method ReduceCriterion(o: Options, owner: Owner, i: nat, v: Value) returns (r: CriteriaOutcome)
    ensures r == CriteriaOutcome(CriterionFindings(o, owner, i, v), CriterionUncheckedItems(owner, i, v),
                                 CriterionBlockers(owner, i, v), CriterionBindings(o, owner, i, v))
  {
    var d := DetailsOf(owner, i, v);
    r := CriteriaOutcome([], [], [], []);
    if !CriterionWellFormed(v) {
      r := r.(unchecked := [Unchecked(owner.id, owner.role, Some(i), Invalid, "")],
              findings := [ReportAt(CriterionInvalid, Criteria, d.(criterionText := ""))]);
    } else if IsChecked(v) {
      if HasBlocker(v) {
        r := r.(findings := [ReportAt(CheckedCriterionHasBlocker, Blocking, d)]);
      }
      if owner.role in RequiredRoleList(o) {
        var fs, bs := ValidateEvidenceEntries(o, d, Field(v, "evidence"));
        r := r.(findings := r.findings + fs, bindings := bs);
      }
    } else if HasBlocker(v) {
      var blocker := ValidateExternalBlocker(Field(v, "blocker"), d);
      if blocker.None? {
        r := r.(findings := [ReportAt(ExternalBlockerInvalid, Blocking, d)]);
      } else {
        r := r.(blockers := [blocker.value]);
      }
      r := r.(unchecked := [Unchecked(owner.id, owner.role, Some(i),
                if blocker.Some? then ExternalEvidenceMissing else InvalidExternalBlocker, CriterionText(v))]);
      if owner.status == o.completedStatus {
        r := r.(findings := r.findings + [ReportAt(CompletedWithBlockedCriterion, Status, d)]);
      }
    } else {
      r := r.(unchecked := [Unchecked(owner.id, owner.role, Some(i), NotChecked, CriterionText(v))],
              findings := [ReportAt(CriterionUnchecked, Criteria, d.(criterionText := ""))]);
    }
  }

  method ReduceCriteria(o: Options, owner: Owner, criteria: seq<Value>) returns (r: CriteriaOutcome)
    ensures r == CriteriaResult(o, owner, criteria)
  {
    r := CriteriaOutcome([], [], [], []);
    for i := 0 to |criteria|
      invariant r == CriteriaResult(o, owner, criteria[..i])
    {
      CriteriaResultStep(o, owner, criteria, i);
      var c := ReduceCriterion(o, owner, i, criteria[i]);
      r := CriteriaOutcome(r.findings + c.findings, r.unchecked + c.unchecked,
                           r.blockers + c.blockers, r.bindings + c.bindings);
    }
    assert criteria[..|criteria|] == criteria;
  }

  /** Everything that the checkpoints contribute one by one. */
  datatype Tally = Tally(
    findings: seq<Finding>, open: seq<OpenCheckpoint>, unchecked: seq<Unchecked>,
    blockers: seq<Blocker>, bindings: seq<Binding>, normalized: seq<Checkpoint>)

  function TallyOf(o: Options, items: seq<Value>): Tally {
    Tally(Collect(items, CheckpointScan(o)), Collect(items, OpenScan(o)), Collect(items, UncheckedScan()),
          Collect(items, BlockerScan()), Collect(items, BindingsScan(o)), NormalizeAll(items))
  }

  lemma NormalizeStep(items: seq<Value>, i: nat)
    requires i < |items|
    ensures NormalizeAll(items[..i + 1]) == NormalizeAll(items[..i]) + [Normalize(i, items[i])]
  {
  }

  lemma TallyStep(o: Options, items: seq<Value>, i: nat)
    requires i < |items|
    ensures var before, raw := TallyOf(o, items[..i]), items[i];
            TallyOf(o, items[..i + 1]) == Tally(
              before.findings + CheckpointFindings(o, i, raw),
              before.open + OpenItems(o, i, raw),
              before.unchecked + CheckpointUnchecked(i, raw),
              before.blockers + CheckpointBlockers(i, raw),
              before.bindings + CheckpointBindings(o, i, raw),
              before.normalized + [Normalize(i, raw)])
  {
    CollectStep(items, i, CheckpointScan(o));
    CollectStep(items, i, OpenScan(o));
    CollectStep(items, i, UncheckedScan());
    CollectStep(items, i, BlockerScan());
    CollectStep(items, i, BindingsScan(o));
    NormalizeStep(items, i);
  }

  method ReduceCheckpoints(o: Options, items: seq<Value>) returns (t: Tally)
    ensures t == TallyOf(o, items)
  {
    t := Tally([], [], [], [], [], []);
    for i := 0 to |items|
      invariant t == TallyOf(o, items[..i])
    {
      TallyStep(o, items, i);
      var raw := items[i];
      var owner := OwnerOf(i, raw);
      var criteria := ReduceCriteria(o, owner, CriteriaOf(raw));
      t := Tally(
        t.findings + (HeaderFindings(o, i, raw) + criteria.findings + StatusFindings(o, owner, |criteria.blockers|)),
        t.open + OpenItems(o, i, raw),
        t.unchecked + (When(CriteriaOf(raw) == [], Unchecked(owner.id, owner.role, None, CriteriaMissing,
          "")) + criteria.unchecked),
        t.blockers + criteria.blockers,
        t.bindings + criteria.bindings,
        t.normalized + [Normalize(i, raw)]);
    }
    assert items[..|items|] == items;
  }

  method CountIds(ns: seq<Checkpoint>) returns (counts: map<string, nat>)
    ensures counts.Keys == Register(ns).Keys
    ensures forall k | k in counts :: counts[k] == |Filter(ns, HasId(k))|
  {
    counts := map[];
    for i := 0 to |ns|
      invariant counts.Keys == Register(ns[..i]).Keys
      invariant forall k | k in counts :: counts[k] == |Filter(ns[..i], HasId(k))|
    {
      var c := ns[i];
      assert ns[..i + 1][..i] == ns[..i];
      forall k ensures |Filter(ns[..i + 1], HasId(k))| == |Filter(ns[..i], HasId(k))| + if HasId(k)(c) then 1 else 0 {
        FilterStep(ns, i, HasId(k));
      }
      if c.declaredId != "" {
        if c.id !in counts { UnregisteredId(ns[..i], c.id); }
        counts := counts[c.id := (if c.id in counts then counts[c.id] else 0) + 1];
      }
    }
    assert ns[..|ns|] == ns;
  }

  lemma UnregisteredId(ns: seq<Checkpoint>, k: string)
    requires k !in Register(ns)
    ensures Filter(ns, HasId(k)) == []
  {
    if Filter(ns, HasId(k)) != [] {
      var c := Filter(ns, HasId(k))[0];
      FilterMembers(ns, HasId(k), c);
      RegisterFacts(ns);
    }
  }

  lemma KeysAreRegistered(ns: seq<Checkpoint>)
    ensures forall k | k in RegisterKeys(ns) :: k in Register(ns)
  {
    RegisterFacts(ns);
    forall k | k in RegisterKeys(ns) ensures k in Register(ns) { assert k in ToSet(RegisterKeys(ns)); }
  }

  /** One finding for every id among the keys that is counted more than once. */
  method ReportCounts(ns: seq<Checkpoint>, keys: seq<string>, counts: map<string, nat>)
    returns (findings: seq<Finding>)
    requires forall k | k in keys :: k in counts && counts[k] == |Filter(ns, HasId(k))|
    ensures findings == Collect(keys, DuplicateScan(ns))
  {
    findings := [];
    for i := 0 to |keys|
      invariant findings == Collect(keys[..i], DuplicateScan(ns))
    {
      CollectStep(keys, i, DuplicateScan(ns));
      assert keys[i] in keys;
      findings := findings + When(counts[keys[i]] > 1, Report(IdDuplicate, Structure, keys[i], ""));
    }
    assert keys[..|keys|] == keys;
  }

  method ReportDuplicateIds(ns: seq<Checkpoint>) returns (findings: seq<Finding>)
    ensures findings == Collect(RegisterKeys(ns), DuplicateScan(ns))
  {
    var counts := CountIds(ns);
    KeysAreRegistered(ns);
    findings := ReportCounts(ns, RegisterKeys(ns), counts);
  }

  method RegisterCheckpoints(ns: seq<Checkpoint>) returns (m: map<string, Checkpoint>, keys: seq<string>)
    ensures m == Register(ns) && keys == RegisterKeys(ns)
  {
    m, keys := map[], [];
    for i := 0 to |ns|
      invariant m == Register(ns[..i]) && keys == RegisterKeys(ns[..i])
    {
      assert ns[..i + 1][..i] == ns[..i];
      if ns[i].declaredId != "" && ns[i].id !in m {
        m, keys := m[ns[i].id := ns[i]], keys + [ns[i].id];
      }
    }
    assert ns[..|ns|] == ns;
  }

  method ReportLinksOf(o: Options, m: map<string, Checkpoint>, c: Checkpoint) returns (findings: seq<Finding>)
    ensures findings == Collect(c.prerequisites, LinkScan(o, m, c))
  {
    findings := [];
    for j := 0 to |c.prerequisites|
      invariant findings == Collect(c.prerequisites[..j], LinkScan(o, m, c))
    {
      CollectStep(c.prerequisites, j, LinkScan(o, m, c));
      var p := c.prerequisites[j];
      if p !in m {
        findings := findings + [Report(PrerequisiteMissing, Topology, c.id, c.role).(prerequisiteId := p)];
        continue;
      }
      if p == c.id {
        findings := findings + [Report(SelfReference, Topology, c.id, c.role).(prerequisiteId := p)];
      }
      if c.status == o.completedStatus && m[p].status != o.completedStatus {
        findings := findings + [Report(CompletedBeforePrerequisite, Topology, c.id, c.role).(prerequisiteId := p)];
      }
    }
    assert c.prerequisites[..|c.prerequisites|] == c.prerequisites;
  }

  method ReportLinks(o: Options, ns: seq<Checkpoint>, m: map<string, Checkpoint>) returns (findings: seq<Finding>)
    ensures findings == Collect(ns, LinksScan(o, m))
  {
    findings := [];
    for i := 0 to |ns|
      invariant findings == Collect(ns[..i], LinksScan(o, m))
    {
      CollectStep(ns, i, LinksScan(o, m));
      var links := ReportLinksOf(o, m, ns[i]);
      findings := findings + links;
    }
    assert ns[..|ns|] == ns;
  }

  method CountRoles(ns: seq<Checkpoint>) returns (counts: map<string, nat>)
    ensures forall role | role != "" ::
      (if role in counts then counts[role] else 0) == |Filter(ns, HasRole(role))|
  {
    counts := map[];
    for i := 0 to |ns|
      invariant forall role | role != "" ::
        (if role in counts then counts[role] else 0) == |Filter(ns[..i], HasRole(role))|
    {
      var c := ns[i];
      forall role
        ensures |Filter(ns[..i + 1], HasRole(role))| ==
                |Filter(ns[..i], HasRole(role))| + if HasRole(role)(c) then 1 else 0
      {
        FilterStep(ns, i, HasRole(role));
      }
      if c.role != "" {
        counts := counts[c.role := (if c.role in counts then counts[c.role] else 0) + 1];
      }
    }
    assert ns[..|ns|] == ns;
  }

  method ReportRoles(o: Options, ns: seq<Checkpoint>) returns (findings: seq<Finding>)
    ensures findings == Collect(RequiredRoleList(o), RoleScan(ns))
  {
    var counts := CountRoles(ns);
    var roles := RequiredRoleList(o);
    findings := [];
    for i := 0 to |roles|
      invariant findings == Collect(roles[..i], RoleScan(ns))
    {
      CollectStep(roles, i, RoleScan(ns));
      RequiredRolesNonEmpty(o, roles[i]);
      findings := findings + RoleFindings(roles[i], if roles[i] in counts then counts[roles[i]] else 0);
    }
    assert roles[..|roles|] == roles;
  }

  lemma RequiredRolesNonEmpty(o: Options, role: string)
    requires role in RequiredRoleList(o)
    ensures role != ""
  {
    CollectMembers(o.requiredRoles, TrimScan(), role);
  }

  ghost function Mentioned(g: Graph, roots: seq<string>): set<string> {
    ToSet(roots) + set k, u | k in g && u in g[k] :: u
  }

  lemma NextIsReachable(g: Graph, roots: seq<string>, id: string)
    requires Reaches(g, ToSet(roots), id)
    ensures forall u | u in Next(g, id) :: Reaches(g, ToSet(roots), u) && u in Mentioned(g, roots)
  {
    forall u | u in Next(g, id) ensures Reaches(g, ToSet(roots), u) && u in Mentioned(g, roots) {
      ReachesNext(g, ToSet(roots), id, u);
      assert id in g && u in g[id];
    }
  }

  /** What the search has seen or will still see. */
  ghost predicate Frontier(g: Graph, roots: seq<string>, visited: set<string>, stack: seq<string>) {
    (forall x | x in roots :: x in visited || x in stack) &&
    forall x, u | x in visited && u in Next(g, x) :: u in visited || u in stack
  }

  lemma FrontierStep(g: Graph, roots: seq<string>, visited: set<string>, stack: seq<string>, id: string)
    requires Frontier(g, roots, visited, stack + [id])
    ensures id in visited ==> Frontier(g, roots, visited, stack)
    ensures forall next: seq<string> | ToSet(next) == Next(g, id) :: Frontier(g, roots, visited + {id}, stack + next)
  {
    assert forall x :: x in stack + [id] <==> x in stack || x == id;
    forall next: seq<string> | ToSet(next) == Next(g, id)
      ensures Frontier(g, roots, visited + {id}, stack + next)
    {
      assert forall x :: x in next <==> x in ToSet(next);
    }
  }

  lemma EmptyFrontier(g: Graph, roots: seq<string>, visited: set<string>)
    requires Frontier(g, roots, visited, [])
    ensures forall a | Reaches(g, ToSet(roots), a) :: a in visited
  {
    ClosedContainsReachable(g, ToSet(roots), visited);
  }

  /** The worklist search: does some prerequisite path lead from the roots to the target? */
  method DependsOn(m: map<string, Checkpoint>, roots: seq<string>, target: string) returns (found: bool)
    ensures found <==> Reaches(GraphOf(m), ToSet(roots), target)
  {
    ghost var g := GraphOf(m);
    var visited: set<string> := {};
    var stack := roots;
    forall x | x in stack ensures Reaches(g, ToSet(roots), x) { ReachesRoot(g, ToSet(roots), x); }
    while stack != []
      invariant visited <= Mentioned(g, roots)
      invariant forall x | x in stack :: x in Mentioned(g, roots) && Reaches(g, ToSet(roots), x)
      invariant target !in visited
      invariant Frontier(g, roots, visited, stack)
      decreases Mentioned(g, roots) - visited, |stack|
    {
      var id := stack[|stack| - 1];
      var rest := stack[..|stack| - 1];
      assert stack == rest + [id];
      FrontierStep(g, roots, visited, rest, id);
      NextIsReachable(g, roots, id);
      stack := rest;
      if id == target { return true; }
      if id in visited { continue; }
      visited := visited + {id};
      var next := if id in m then m[id].prerequisites else [];
      assert ToSet(next) == Next(g, id);
      stack := stack + next;
    }
    EmptyFrontier(g, roots, visited);
    return false;
  }

  method ReportDependency(ns: seq<Checkpoint>, m: map<string, Checkpoint>) returns (findings: seq<Finding>)
    requires m == Register(ns)
    ensures findings == DependencyFindings(ns)
  {
    findings := [];
    var implementation := Filter(ns, HasRole(IMPLEMENTATION));
    var final := Filter(ns, HasRole(FINAL_VALIDATION));
    if |implementation| == 1 && |final| == 1 {
      var found := DependsOn(m, final[0].prerequisites, implementation[0].id);
      if !found {
        findings := [Report(MissingImplementationDependency, Topology, final[0].id, FINAL_VALIDATION)
                       .(prerequisiteId := implementation[0].id)];
      }
    }
  }

  /** The findings about the plan as a graph: duplicate ids, links, cycles, roles and the one dependency required. */
  method ReportGraph(o: Options, ns: seq<Checkpoint>)
    returns (findings: seq<Finding>, ghost cycles: seq<Finding>, ghost order: seq<string>)
    ensures CycleReport(GraphOf(Register(ns)), cycles)
    ensures findings == Collect(RegisterKeys(ns), DuplicateScan(ns)) + Collect(ns, LinksScan(o, Register(ns))) +
      cycles + Collect(RequiredRoleList(o), RoleScan(ns)) + DependencyFindings(ns)
    ensures cycles == [] ==> TopologicalOrder(GraphOf(Register(ns)), order)
  {
    findings := ReportDuplicateIds(ns);
    var m, keys := RegisterCheckpoints(ns);
    RegisterFacts(ns);
    var links := ReportLinks(o, ns, m);
    var search := new CycleSearch(m);
    search.Run(keys);
    cycles, order := search.findings, search.order;
    var roles := ReportRoles(o, ns);
    var dependency := ReportDependency(ns, m);
    findings := findings + links + search.findings + roles + dependency;
  }

  lemma LastFive<T>(a: seq<T>, b: seq<T>, c: seq<T>, d: seq<T>, e: seq<T>, f: seq<T>, g: seq<T>)
    ensures a + b + c + d + e + f + g == a + b + (c + d + e + f + g)
  {
  }

  /**
   * `reduceCapabilityCheckpoints`. The order in `order` witnesses that a plan without findings can be
   * worked off prerequisite by prerequisite.
   */
  method ReduceCapabilityCheckpoints(o: Options, checkpoints: Value)
    returns (r: Reduction, ghost cycles: seq<Finding>, ghost order: seq<string>)
    ensures CycleReport(GraphOf(Register(NormalizeAll(Items(checkpoints)))), cycles)
    ensures r == Assemble(o, checkpoints, cycles)
    ensures ReportsPlan(o, checkpoints, cycles, r)
    ensures r.readyForReleaseReduction <==> WellFormedPlan(o, checkpoints) && AllCompleted(o, checkpoints)
    ensures r.blocked <==> WellFormedPlan(o, checkpoints) && !AllCompleted(o, checkpoints)
    ensures r.currentState == Failed <==> r.findings != []
    ensures r.findings == [] ==> TopologicalOrder(GraphOf(Register(NormalizeAll(Items(checkpoints)))), order)
  {
    var findings := ShapeFindings(checkpoints);
    var t := ReduceCheckpoints(o, Items(checkpoints));
    var graph;
    graph, cycles, order := ReportGraph(o, t.normalized);
    ghost var ns := t.normalized;
    LastFive(findings, t.findings, Collect(RegisterKeys(ns), DuplicateScan(ns)),
             Collect(ns, LinksScan(o, Register(ns))), cycles, Collect(RequiredRoleList(o), RoleScan(ns)),
             DependencyFindings(ns));
    findings := findings + t.findings + graph;
    r := Conclude(o, t.normalized, findings, t.open, t.unchecked, t.blockers, t.bindings);
    VerdictExact(o, checkpoints, cycles);
    AssembledReports(o, checkpoints, cycles);
  }
}
