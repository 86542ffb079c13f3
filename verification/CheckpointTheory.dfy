/**
 * The verdict of a reduction as a function of the input and of the cycle report, and what that
 * verdict means.
 */
module CheckpointTheory {
  import opened Sequences
  import opened Text
  import opened Graphs
  import opened Json
  import opened CheckpointRules

  datatype State = Verified | Blocked | Failed

  datatype FailureKind = NoFailure | InvalidCheckpointGraph | ExternalEvidence | LocalCheckpointIncomplete

  datatype Reduction = Reduction(
    currentState: State,
    readyForReleaseReduction: bool,
    blocked: bool,
    failureKind: FailureKind,
    checkpointCount: nat,
    completedCheckpointCount: nat,
    requiredRoles: seq<string>,
    openCheckpoints: seq<OpenCheckpoint>,
    uncheckedCriteria: seq<Unchecked>,
    blockers: seq<Blocker>,
    evidenceBindings: seq<Binding>,
    findings: seq<Finding>)

  function NormalizeAll(items: seq<Value>): seq<Checkpoint> {
    seq(|items|, i requires 0 <= i < |items| => Normalize(i, items[i]))
  }

  predicate IsGraphFinding(f: Finding) {
    f.category == Topology || f.category == Structure
  }

  function HasStatus(status: string): Checkpoint -> bool {
    (c: Checkpoint) => c.status == status
  }

  /** The verdict over everything that was recorded. */
  function Conclude(
    o: Options, ns: seq<Checkpoint>, findings: seq<Finding>, open: seq<OpenCheckpoint>,
    unchecked: seq<Unchecked>, blockers: seq<Blocker>, bindings: seq<Binding>): Reduction
  {
    var ready := |findings| == 0 && |open| == 0 && |blockers| == 0;
    var blocked := !ready && |findings| == 0 && |blockers| > 0 && |open| > 0 &&
                   forall c | c in open :: c.status == BLOCKED_STATUS;
    Reduction(
      if ready then Verified else if blocked then Blocked else Failed,
      ready, blocked,
      if ready then NoFailure
      else if exists f | f in findings :: IsGraphFinding(f) then InvalidCheckpointGraph
      else if blocked then ExternalEvidence
      else LocalCheckpointIncomplete,
      |ns|, |Filter(ns, HasStatus(o.completedStatus))|, RequiredRoleList(o),
      open, unchecked, blockers, bindings, findings)
  }

  function ShapeFindings(checkpoints: Value): seq<Finding> {
    if !checkpoints.List? then [Report(CheckpointsNotArray, Structure, "", "")]
    else When(checkpoints.items == [], Report(CheckpointsEmpty, Structure, "", ""))
  }

  ghost function AllFindings(o: Options, checkpoints: Value, cycles: seq<Finding>): seq<Finding> {
    var items := Items(checkpoints);
    var ns := NormalizeAll(items);
    ShapeFindings(checkpoints) +
    Collect(items, CheckpointScan(o)) +
    Collect(RegisterKeys(ns), DuplicateScan(ns)) +
    Collect(ns, LinksScan(o, Register(ns))) +
    cycles +
    Collect(RequiredRoleList(o), RoleScan(ns)) +
    DependencyFindings(ns)
  }

  ghost function Assemble(o: Options, checkpoints: Value, cycles: seq<Finding>): Reduction {
    var items := Items(checkpoints);
    Conclude(o, NormalizeAll(items), AllFindings(o, checkpoints, cycles),
             Collect(items, OpenScan(o)), Collect(items, UncheckedScan()),
             Collect(items, BlockerScan()), Collect(items, BindingsScan(o)))
  }

  // ----- the declarative reading of a plan

  predicate DistinctIds(ns: seq<Checkpoint>) {
    forall i, j | 0 <= i < j < |ns| ::
      ns[i].declaredId != "" && ns[j].declaredId != "" ==> ns[i].id != ns[j].id
  }

  /** Every prerequisite is declared, and nothing completed waits for something incomplete. */
  predicate LinksSound(o: Options, ns: seq<Checkpoint>) {
    forall c, p | c in ns && p in c.prerequisites ::
      p in Register(ns) &&
      (c.status == o.completedStatus ==> Register(ns)[p].status == o.completedStatus)
  }

  predicate RolesSound(o: Options, ns: seq<Checkpoint>) {
    forall role | role in RequiredRoleList(o) :: |Filter(ns, HasRole(role))| == 1
  }

  /** The plan as a whole gives no cause for a finding. */
  ghost predicate WellFormedPlan(o: Options, checkpoints: Value) {
    checkpoints.List? && checkpoints.items != [] &&
    (forall raw | raw in checkpoints.items :: CheckpointSound(o, raw)) &&
    var ns := NormalizeAll(checkpoints.items);
    DistinctIds(ns) && LinksSound(o, ns) && Acyclic(GraphOf(Register(ns))) &&
    RolesSound(o, ns) && DependencySound(ns)
  }

  predicate AllCompleted(o: Options, checkpoints: Value) {
    forall raw | raw in Items(checkpoints) :: TextOf(Field(raw, "status")) == o.completedStatus
  }

  // ----- exactness of each group of findings

  lemma LocalFindingsExact(o: Options, items: seq<Value>)
    ensures Collect(items, CheckpointScan(o)) == [] <==> forall raw | raw in items :: CheckpointSound(o, raw)
  {
    CollectEmpty(items, CheckpointScan(o));
    forall i: nat | i < |items|
      ensures CheckpointScan(o)(i, items[i]) == [] <==> CheckpointSound(o, items[i])
    {
      CheckpointFindingsExact(o, i, items[i]);
    }
    if Collect(items, CheckpointScan(o)) == [] {
      forall raw | raw in items ensures CheckpointSound(o, raw) {
        var i: nat :| i < |items| && items[i] == raw;
        assert CheckpointScan(o)(i, items[i]) == [];
      }
    }
  }

  lemma DuplicateFindingsExact(ns: seq<Checkpoint>)
    ensures Collect(RegisterKeys(ns), DuplicateScan(ns)) == [] <==> DistinctIds(ns)
  {
    var keys := RegisterKeys(ns);
    RegisterFacts(ns);
    CollectEmpty(keys, DuplicateScan(ns));
    forall k ensures |Filter(ns, HasId(k))| <= 1 <==>
                     forall i, j | 0 <= i < j < |ns| :: !(HasId(k)(ns[i]) && HasId(k)(ns[j]))
    {
      FilterAtMostOne(ns, HasId(k));
    }
    forall i: nat | i < |keys|
      ensures DuplicateScan(ns)(i, keys[i]) == [] <==> |Filter(ns, HasId(keys[i]))| <= 1
    {
    }
    if Collect(keys, DuplicateScan(ns)) == [] {
      forall i, j | 0 <= i < j < |ns| && ns[i].declaredId != "" && ns[j].declaredId != ""
        ensures ns[i].id != ns[j].id
      {
        var k := ns[i].id;
        assert k in ToSet(keys);
        var n: nat :| n < |keys| && keys[n] == k;
        assert DuplicateScan(ns)(n, keys[n]) == [];
        assert HasId(k)(ns[i]);
      }
    }
  }

  /** With distinct ids the register holds every declared checkpoint itself. */
  lemma RegisterOfDistinct(ns: seq<Checkpoint>, c: Checkpoint)
    requires DistinctIds(ns) && c in ns && c.declaredId != ""
    ensures c.id in Register(ns) && Register(ns)[c.id] == c
  {
    RegisterFacts(ns);
    var d := Register(ns)[c.id];
    var i :| 0 <= i < |ns| && ns[i] == c;
    var j :| 0 <= j < |ns| && ns[j] == d;
  }

  predicate LinkSound(o: Options, m: map<string, Checkpoint>, c: Checkpoint, p: string) {
    p in m && p != c.id && (c.status == o.completedStatus ==> m[p].status == o.completedStatus)
  }

  lemma LinksOfOneExact(o: Options, m: map<string, Checkpoint>, c: Checkpoint)
    ensures Collect(c.prerequisites, LinkScan(o, m, c)) == [] <==>
            forall p | p in c.prerequisites :: LinkSound(o, m, c, p)
  {
    var s := c.prerequisites;
    CollectEmpty(s, LinkScan(o, m, c));
    forall i: nat | i < |s| ensures LinkScan(o, m, c)(i, s[i]) == [] <==> LinkSound(o, m, c, s[i]) {}
    if Collect(s, LinkScan(o, m, c)) == [] {
      forall p | p in s ensures LinkSound(o, m, c, p) {
        var i: nat :| i < |s| && s[i] == p;
        assert LinkScan(o, m, c)(i, s[i]) == [];
      }
    }
  }

  lemma LinkFindingsExact(o: Options, ns: seq<Checkpoint>, m: map<string, Checkpoint>)
    ensures Collect(ns, LinksScan(o, m)) == [] <==>
            forall c, p | c in ns && p in c.prerequisites :: LinkSound(o, m, c, p)
  {
    CollectEmpty(ns, LinksScan(o, m));
    forall i: nat | i < |ns|
      ensures LinksScan(o, m)(i, ns[i]) == [] <==> forall p | p in ns[i].prerequisites :: LinkSound(o, m, ns[i], p)
    {
      LinksOfOneExact(o, m, ns[i]);
    }
    if Collect(ns, LinksScan(o, m)) == [] {
      forall c, p | c in ns && p in c.prerequisites ensures LinkSound(o, m, c, p) {
        var i: nat :| i < |ns| && ns[i] == c;
        assert LinksScan(o, m)(i, ns[i]) == [];
      }
    }
  }

  lemma RoleFindingsExact(o: Options, ns: seq<Checkpoint>)
    ensures Collect(RequiredRoleList(o), RoleScan(ns)) == [] <==> RolesSound(o, ns)
  {
    var roles := RequiredRoleList(o);
    CollectEmpty(roles, RoleScan(ns));
    forall i: nat | i < |roles|
      ensures RoleScan(ns)(i, roles[i]) == [] <==> |Filter(ns, HasRole(roles[i]))| == 1
    {
    }
    if Collect(roles, RoleScan(ns)) == [] {
      forall role | role in roles ensures |Filter(ns, HasRole(role))| == 1 {
        var i: nat :| i < |roles| && roles[i] == role;
        assert RoleScan(ns)(i, roles[i]) == [];
      }
    }
  }

  /** A declared checkpoint that names itself is a cycle, so acyclic plans report no self-reference. */
  lemma NoSelfReference(ns: seq<Checkpoint>, c: Checkpoint)
    requires DistinctIds(ns) && c in ns && c.declaredId != "" && Acyclic(GraphOf(Register(ns)))
    ensures c.id !in c.prerequisites
  {
    RegisterOfDistinct(ns, c);
    if c.id in c.prerequisites {
      assert ClosedWalk(GraphOf(Register(ns)), [c.id, c.id]);
    }
  }

  lemma NormalizedMembers(items: seq<Value>, c: Checkpoint)
    requires c in NormalizeAll(items)
    ensures exists raw | raw in items :: c == Normalize(c.index, raw)
  {
    var i :| 0 <= i < |items| && NormalizeAll(items)[i] == c;
    assert items[i] in items;
  }

  lemma NoFindingsSplit(o: Options, checkpoints: Value, cycles: seq<Finding>)
    ensures var ns := NormalizeAll(Items(checkpoints));
            AllFindings(o, checkpoints, cycles) == [] <==>
            ShapeFindings(checkpoints) == [] && Collect(Items(checkpoints), CheckpointScan(o)) == [] &&
            Collect(RegisterKeys(ns), DuplicateScan(ns)) == [] &&
            Collect(ns, LinksScan(o, Register(ns))) == [] && cycles == [] &&
            Collect(RequiredRoleList(o), RoleScan(ns)) == [] && DependencyFindings(ns) == []
  {
  }

  lemma WellFormedLinks(o: Options, items: seq<Value>)
    requires forall raw | raw in items :: CheckpointSound(o, raw)
    requires DistinctIds(NormalizeAll(items)) && Acyclic(GraphOf(Register(NormalizeAll(items))))
    ensures var ns := NormalizeAll(items);
            LinksSound(o, ns) <==> Collect(ns, LinksScan(o, Register(ns))) == []
  {
    var ns := NormalizeAll(items);
    LinkFindingsExact(o, ns, Register(ns));
    if LinksSound(o, ns) {
      forall c, p | c in ns && p in c.prerequisites ensures LinkSound(o, Register(ns), c, p) {
        NormalizedMembers(items, c);
        NoSelfReference(ns, c);
      }
    } else {
      var c, p :| c in ns && p in c.prerequisites &&
        !(p in Register(ns) && (c.status == o.completedStatus ==> Register(ns)[p].status == o.completedStatus));
      assert !LinkSound(o, Register(ns), c, p);
    }
  }

  /** Nothing is recorded exactly when the plan is well formed. */
  lemma FindingsExact(o: Options, checkpoints: Value, cycles: seq<Finding>)
    requires CycleReport(GraphOf(Register(NormalizeAll(Items(checkpoints)))), cycles)
    ensures AllFindings(o, checkpoints, cycles) == [] <==> WellFormedPlan(o, checkpoints)
  {
    var items := Items(checkpoints);
    var ns := NormalizeAll(items);
    LocalFindingsExact(o, items);
    DuplicateFindingsExact(ns);
    RoleFindingsExact(o, ns);
    NoFindingsSplit(o, checkpoints, cycles);
    if (forall raw | raw in items :: CheckpointSound(o, raw)) && DistinctIds(ns) && cycles == [] {
      WellFormedLinks(o, items);
    }
  }

  // ----- the verdict

  lemma OpenExact(o: Options, items: seq<Value>)
    ensures Collect(items, OpenScan(o)) == [] <==>
            forall raw | raw in items :: TextOf(Field(raw, "status")) == o.completedStatus
  {
    CollectEmpty(items, OpenScan(o));
    forall i: nat | i < |items|
      ensures OpenScan(o)(i, items[i]) == [] <==> TextOf(Field(items[i], "status")) == o.completedStatus
    {
    }
    if Collect(items, OpenScan(o)) == [] {
      forall raw | raw in items ensures TextOf(Field(raw, "status")) == o.completedStatus {
        var i: nat :| i < |items| && items[i] == raw;
        assert OpenScan(o)(i, items[i]) == [];
      }
    }
  }

  lemma BlockersExact(o: Options, items: seq<Value>)
    ensures Collect(items, BlockerScan()) != [] <==>
            exists raw | raw in items :: exists v | v in CriteriaOf(raw) :: CriterionBlocked(v)
  {
    CollectEmpty(items, BlockerScan());
    forall i: nat | i < |items|
      ensures BlockerScan()(i, items[i]) != [] <==> exists v | v in CriteriaOf(items[i]) :: CriterionBlocked(v)
    {
      CriteriaFindingsExact(o, OwnerOf(i, items[i]), CriteriaOf(items[i]));
    }
    BlockersByIndex(items);
  }

  /** Speaking of the items or of their places makes no difference. */
  lemma BlockersByIndex(items: seq<Value>)
    ensures (exists raw | raw in items :: exists v | v in CriteriaOf(raw) :: CriterionBlocked(v)) <==>
            exists i: nat | i < |items| :: exists v | v in CriteriaOf(items[i]) :: CriterionBlocked(v)
  {
    if raw :| raw in items && exists v | v in CriteriaOf(raw) :: CriterionBlocked(v) {
      var i: nat :| i < |items| && items[i] == raw;
      assert exists v | v in CriteriaOf(items[i]) :: CriterionBlocked(v);
    }
    if i: nat :| i < |items| && exists v | v in CriteriaOf(items[i]) :: CriterionBlocked(v) {
      assert items[i] in items;
    }
  }

  lemma OpenAreBlocked(o: Options, items: seq<Value>)
    requires forall raw | raw in items :: CheckpointSound(o, raw)
    ensures forall c | c in Collect(items, OpenScan(o)) :: c.status == BLOCKED_STATUS
  {
    forall c | c in Collect(items, OpenScan(o)) ensures c.status == BLOCKED_STATUS {
      CollectMembers(items, OpenScan(o), c);
      var i: nat :| i < |items| && c in OpenScan(o)(i, items[i]);
      assert CheckpointSound(o, items[i]);
    }
  }

  lemma WellFormedLists(o: Options, items: seq<Value>)
    requires forall raw | raw in items :: CheckpointSound(o, raw)
    ensures var open := Collect(items, OpenScan(o));
            (open == [] <==> forall raw | raw in items :: TextOf(Field(raw, "status")) == o.completedStatus) &&
            (open == [] <==> Collect(items, BlockerScan()) == []) &&
            forall c | c in open :: c.status == BLOCKED_STATUS
  {
    OpenExact(o, items);
    BlockersExact(o, items);
    OpenAreBlocked(o, items);
    if raw :| raw in items && TextOf(Field(raw, "status")) != o.completedStatus {
      assert CheckpointSound(o, raw);
    }
  }

  /** The three states of a conclusion whose lists agree with each other. */
  lemma ConcludeExact(
    o: Options, ns: seq<Checkpoint>, findings: seq<Finding>, open: seq<OpenCheckpoint>,
    unchecked: seq<Unchecked>, blockers: seq<Blocker>, bindings: seq<Binding>)
    requires findings == [] ==> (open == [] <==> blockers == []) && forall c | c in open :: c.status == BLOCKED_STATUS
    ensures var r := Conclude(o, ns, findings, open, unchecked, blockers, bindings);
            (r.currentState == Failed <==> findings != []) &&
            (r.currentState == Verified <==> findings == [] && open == []) &&
            (r.currentState == Blocked <==> findings == [] && open != []) &&
            (r.readyForReleaseReduction <==> r.currentState == Verified) &&
            (r.blocked <==> r.currentState == Blocked)
  {
  }

  /**
   * The three states are exactly: a well-formed plan with everything completed, a well-formed plan
   * with something open, and a plan that is not well formed.
   */
  lemma VerdictExact(o: Options, checkpoints: Value, cycles: seq<Finding>)
    requires CycleReport(GraphOf(Register(NormalizeAll(Items(checkpoints)))), cycles)
    ensures var r := Assemble(o, checkpoints, cycles);
            (r.currentState == Failed <==> r.findings != []) &&
            (r.currentState == Failed <==> !WellFormedPlan(o, checkpoints)) &&
            (r.currentState == Verified <==> WellFormedPlan(o, checkpoints) && AllCompleted(o, checkpoints)) &&
            (r.currentState == Blocked <==> WellFormedPlan(o, checkpoints) && !AllCompleted(o, checkpoints)) &&
            (r.readyForReleaseReduction <==> r.currentState == Verified) &&
            (r.blocked <==> r.currentState == Blocked)
  {
    FindingsExact(o, checkpoints, cycles);
    VerdictOfLists(o, checkpoints, cycles);
    if WellFormedPlan(o, checkpoints) { WellFormedLists(o, Items(checkpoints)); }
  }

  lemma VerdictOfLists(o: Options, checkpoints: Value, cycles: seq<Finding>)
    requires AllFindings(o, checkpoints, cycles) == [] <==> WellFormedPlan(o, checkpoints)
    ensures var r, open := Assemble(o, checkpoints, cycles), Collect(Items(checkpoints), OpenScan(o));
            r.findings == AllFindings(o, checkpoints, cycles) &&
            (r.currentState == Failed <==> r.findings != []) &&
            (r.currentState == Verified <==> r.findings == [] && open == []) &&
            (r.currentState == Blocked <==> r.findings == [] && open != []) &&
            (r.readyForReleaseReduction <==> r.currentState == Verified) &&
            (r.blocked <==> r.currentState == Blocked)
  {
    var items := Items(checkpoints);
    if WellFormedPlan(o, checkpoints) { WellFormedLists(o, items); }
    ConcludeExact(o, NormalizeAll(items), AllFindings(o, checkpoints, cycles), Collect(items, OpenScan(o)),
                  Collect(items, UncheckedScan()), Collect(items, BlockerScan()), Collect(items, BindingsScan(o)));
  }

  /** In a well-formed plan every open checkpoint is held by a valid external blocker. */
  lemma OpenHaveExternalBlockers(o: Options, checkpoints: Value, raw: Value)
    requires WellFormedPlan(o, checkpoints) && raw in checkpoints.items
    requires TextOf(Field(raw, "status")) != o.completedStatus
    ensures TextOf(Field(raw, "status")) == BLOCKED_STATUS
    ensures exists v | v in CriteriaOf(raw) :: !IsChecked(v) && BlockerAccepted(Field(v, "blocker"))
  {
    assert CheckpointSound(o, raw);
    var v :| v in CriteriaOf(raw) && CriterionBlocked(v);
  }

  ghost function CompletedIds(o: Options, ns: seq<Checkpoint>): set<string> {
    var m := Register(ns);
    set k | k in m && m[k].status == o.completedStatus
  }

  /** Whatever a completed checkpoint depends on, directly or not, is completed. */
  lemma CompletedIsClosed(o: Options, checkpoints: Value, c: Checkpoint, p: string)
    requires WellFormedPlan(o, checkpoints)
    requires var ns := NormalizeAll(checkpoints.items);
             c in ns && c.status == o.completedStatus &&
             Reaches(GraphOf(Register(ns)), ToSet(c.prerequisites), p)
    ensures var m := Register(NormalizeAll(checkpoints.items));
            p in m && m[p].status == o.completedStatus
  {
    var ns := NormalizeAll(checkpoints.items);
    var g := GraphOf(Register(ns));
    var s := CompletedIds(o, ns);
    RegisterFacts(ns);
    assert ClosedUnder(g, s);
    ClosedContainsReachable(g, ToSet(c.prerequisites), s);
  }

  /** The only checkpoint of a role that occurs once. */
  function TheOne(ns: seq<Checkpoint>, role: string): (c: Checkpoint)
    requires |Filter(ns, HasRole(role))| == 1
    ensures c in ns && c.role == role
  {
    FilterMembers(ns, HasRole(role), Filter(ns, HasRole(role))[0]);
    Filter(ns, HasRole(role))[0]
  }

  predicate RequiresBothRoles(o: Options) {
    IMPLEMENTATION in RequiredRoleList(o) && FINAL_VALIDATION in RequiredRoleList(o)
  }

  lemma DefaultRolesRequireBoth(o: Options)
    requires o.requiredRoles == DEFAULT_REQUIRED_ROLES
    ensures RequiresBothRoles(o)
  {
    TrimPlain(IMPLEMENTATION);
    TrimPlain(FINAL_VALIDATION);
    var s := o.requiredRoles;
    CollectMembers(s, TrimScan(), IMPLEMENTATION);
    CollectMembers(s, TrimScan(), FINAL_VALIDATION);
    assert IMPLEMENTATION in TrimScan()(0, s[0]);
    assert FINAL_VALIDATION in TrimScan()(1, s[1]);
  }

  /** An incomplete implementation keeps final validation from being complete. */
  lemma IncompleteImplementationBlocksFinal(o: Options, checkpoints: Value)
    requires WellFormedPlan(o, checkpoints) && RequiresBothRoles(o)
    ensures var ns := NormalizeAll(checkpoints.items);
            |Filter(ns, HasRole(IMPLEMENTATION))| == 1 && |Filter(ns, HasRole(FINAL_VALIDATION))| == 1 &&
            (TheOne(ns, IMPLEMENTATION).status != o.completedStatus ==>
             TheOne(ns, FINAL_VALIDATION).status != o.completedStatus)
  {
    var ns := NormalizeAll(checkpoints.items);
    var implementation, final := TheOne(ns, IMPLEMENTATION), TheOne(ns, FINAL_VALIDATION);
    if final.status == o.completedStatus {
      CompletedIsClosed(o, checkpoints, final, implementation.id);
      NormalizedMembers(checkpoints.items, implementation);
      RegisterOfDistinct(ns, implementation);
    }
  }

  /** In every topological order of a well-formed plan the implementation precedes final validation. */
  lemma ImplementationPrecedesFinal(o: Options, checkpoints: Value, order: seq<string>)
    requires WellFormedPlan(o, checkpoints) && RequiresBothRoles(o)
    requires TopologicalOrder(GraphOf(Register(NormalizeAll(checkpoints.items))), order)
    ensures var ns := NormalizeAll(checkpoints.items);
            |Filter(ns, HasRole(IMPLEMENTATION))| == 1 && |Filter(ns, HasRole(FINAL_VALIDATION))| == 1 &&
            TheOne(ns, IMPLEMENTATION).id in order && TheOne(ns, FINAL_VALIDATION).id in order &&
            IndexOf(order, TheOne(ns, IMPLEMENTATION).id) < IndexOf(order, TheOne(ns, FINAL_VALIDATION).id)
  {
    var ns := NormalizeAll(checkpoints.items);
    var g := GraphOf(Register(ns));
    var implementation, final := TheOne(ns, IMPLEMENTATION), TheOne(ns, FINAL_VALIDATION);
    NormalizedMembers(checkpoints.items, implementation);
    NormalizedMembers(checkpoints.items, final);
    RegisterOfDistinct(ns, implementation);
    RegisterOfDistinct(ns, final);
    DependencyStandsBefore(g, order, final.id, implementation.id);
  }
}
