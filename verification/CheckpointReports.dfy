/**
 * Which findings a reduction records, code by code and over the parsed input: what is at fault, in which category,
 * and whom the finding names.
 */
module CheckpointReports {
  import opened Sequences
  import opened Text
  import opened Graphs
  import opened Json
  import opened CheckpointRules
  import opened CheckpointTheory
  import opened PlacedLists
  import opened CheckpointOutputs

  // ----- one checkpoint

  /** The name of a checkpoint in the findings: the id it declares, or its index. */
  function IdOf(raw: Value, i: nat): string {
    if TextOf(Field(raw, "id")) != "" then TextOf(Field(raw, "id")) else "checkpoint-index-" + Digits(i)
  }

  /** A finding against a checkpoint as a whole. */
  function Against(code: Code, category: Category, id: string, role: string): Finding {
    Finding(code, category, id, role, "", None, "", [])
  }

  predicate IsAllowed(o: Options, status: string) {
    status != "" && exists s | s in o.allowedStatuses :: Trim(s) == status
  }

  /** Two entries of the list name the same thing. */
  predicate Repeated(items: seq<Value>) {
    exists a, b | 0 <= a < b < |items| :: StringOf(items[a]) == StringOf(items[b]) != ""
  }

  /** What is recorded against the identity of a checkpoint and its status as such. */
  predicate WarrantedByIdentity(o: Options, i: nat, raw: Value, f: Finding) {
    var id, role := IdOf(raw, i), TextOf(Field(raw, "role"));
    (f == Against(CheckpointNotObject, Structure, id, "") && !raw.Record?) ||
    (f == Against(IdMissing, Structure, id, "") && TextOf(Field(raw, "id")) == "") ||
    (f == Against(RoleMissing, Structure, id, "") && role == "") ||
    (f == Against(StatusInvalid, Status, id, role) && !IsAllowed(o, TextOf(Field(raw, "status"))))
  }

  /** What is recorded against its prerequisites and criteria as lists. */
  predicate WarrantedByLists(i: nat, raw: Value, f: Finding) {
    var id, role, prerequisites := IdOf(raw, i), TextOf(Field(raw, "role")), Field(raw, "prerequisites");
    (f == Against(PrerequisitesNotArray, Topology, id, role) && !prerequisites.List?) ||
    (f == Against(PrerequisiteIdInvalid, Topology, id, role) &&
     exists v | v in Items(prerequisites) :: StringOf(v) == "") ||
    (f == Against(PrerequisiteDuplicate, Topology, id, role) && Repeated(Items(prerequisites))) ||
    (f == Against(AcceptanceCriteriaMissing, Criteria, id, role) && Items(Field(raw, "acceptance_criteria")) == [])
  }

  predicate WarrantedByHeader(o: Options, i: nat, raw: Value, f: Finding) {
    WarrantedByIdentity(o, i, raw, f) || WarrantedByLists(i, raw, f)
  }

  /** What is recorded against its status. */
  predicate WarrantedByStatus(o: Options, i: nat, raw: Value, f: Finding) {
    var id, role, status := IdOf(raw, i), TextOf(Field(raw, "role")), TextOf(Field(raw, "status"));
    status != o.completedStatus &&
    ((f == Against(NotCompleted, Status, id, role) && status != "blocked") ||
     (f == Against(BlockedWithoutExternalEvidence, Blocking, id, role) && status == "blocked" &&
      !exists v | v in Items(Field(raw, "acceptance_criteria")) :: CriterionBlocked(v)))
  }

  lemma AllowedExact(o: Options, status: string)
    ensures status in UniqueStrings(o.allowedStatuses) <==> IsAllowed(o, status)
  {
    UniqueStringsExact(o.allowedStatuses, status);
  }

  lemma {:induction false} RepeatedExact(items: seq<Value>)
    ensures Distinct(StringItems(List(items))) <==> !Repeated(items)
  {
    if items != [] {
      var n := |items| - 1;
      RepeatedExact(items[..n]);
      RepeatedStep(items);
      NamesStep(items);
    }
  }

  lemma NamesStep(items: seq<Value>)
    requires items != []
    ensures var n := |items| - 1;
      Distinct(StringItems(List(items))) <==>
      (Distinct(StringItems(List(items[..n]))) &&
       (StringOf(items[n]) == "" || !exists a | 0 <= a < n :: StringOf(items[..n][a]) == StringOf(items[n])))
  {
    var n := |items| - 1;
    var names, x := StringItems(List(items[..n])), StringOf(items[n]);
    assert StringItems(List(items)) == names + StringScan()(n, items[n]);
    StringItemsMember(List(items[..n]), x);
    DistinctAppend(names, x);
    assert x == "" ==> names + [] == names;
  }

  lemma DistinctAppend(names: seq<string>, x: string)
    ensures Distinct(names + [x]) <==> Distinct(names) && x !in names
  {
    var longer := names + [x];
    if Distinct(longer) {
      forall i | 0 <= i < |names| ensures names[i] != x { assert longer[i] != longer[|names|]; }
      forall i, j | 0 <= i < j < |names| ensures names[i] != names[j] { assert longer[i] != longer[j]; }
    }
  }

  lemma RepeatedStep(items: seq<Value>)
    requires items != []
    ensures var n := |items| - 1;
      Repeated(items) <==>
      Repeated(items[..n]) ||
        (StringOf(items[n]) != "" && exists a | 0 <= a < n :: StringOf(items[..n][a]) == StringOf(items[n]))
  {
    var n := |items| - 1;
    assert forall a | 0 <= a < n :: items[..n][a] == items[a];
    if a, b :| 0 <= a < b < |items| && StringOf(items[a]) == StringOf(items[b]) != "" {
      if b < n { assert StringOf(items[..n][a]) == StringOf(items[..n][b]) != ""; }
    }
  }

  lemma DuplicateExact(raw: Value)
    ensures |ToSet(PrerequisiteIds(raw))| != |PrerequisiteIds(raw)| <==> Repeated(Items(Field(raw, "prerequisites")))
  {
    var items := Items(Field(raw, "prerequisites"));
    RepeatedExact(items);
    DistinctSize(PrerequisiteIds(raw));
    assert StringItems(List(items)) == PrerequisiteIds(raw);
  }

  lemma WhenMember<T>(condition: bool, item: T, x: T)
    ensures x in When(condition, item) <==> condition && x == item
  {
  }

  lemma IdFindingsExact(raw: Value, owner: Owner, f: Finding)
    ensures f in Collect(Items(Field(raw, "prerequisites")), PrerequisiteIdScan(owner)) <==>
      f == Report(PrerequisiteIdInvalid, Topology, owner.id, owner.role) &&
      exists v | v in Items(Field(raw, "prerequisites")) :: StringOf(v) == ""
  {
    var items := Items(Field(raw, "prerequisites"));
    CollectMembers(items, PrerequisiteIdScan(owner), f);
    forall i: nat | i < |items|
      ensures f in PrerequisiteIdScan(owner)(i, items[i]) <==>
        StringOf(items[i]) == "" && f == Report(PrerequisiteIdInvalid, Topology, owner.id, owner.role)
    {
      WhenMember(StringOf(items[i]) == "", Report(PrerequisiteIdInvalid, Topology, owner.id, owner.role), f);
    }
    if v :| v in items && StringOf(v) == "" {
      var i: nat :| i < |items| && items[i] == v;
      assert f == Report(PrerequisiteIdInvalid, Topology, owner.id, owner.role) ==>
        f in PrerequisiteIdScan(owner)(i, items[i]);
    }
  }

  lemma AppendMember<T>(a: seq<T>, b: seq<T>, x: T)
    ensures x in a + b <==> x in a || x in b
  {
  }

  lemma SevenGroups<T>(a: seq<T>, b: seq<T>, c: seq<T>, d: seq<T>, e: seq<T>, g: seq<T>, h: seq<T>, x: T)
    ensures x in a + b + c + d + e + g + h <==>
      x in a || x in b || x in c || x in d || x in e || x in g || x in h
  {
  }

  function PrerequisiteFindings(raw: Value, owner: Owner): seq<Finding> {
    if !Field(raw, "prerequisites").List? then [Report(PrerequisitesNotArray, Topology, owner.id, owner.role)]
    else Collect(Field(raw, "prerequisites").items, PrerequisiteIdScan(owner))
  }

  lemma PrerequisiteMember(raw: Value, owner: Owner, f: Finding)
    ensures f in PrerequisiteFindings(raw, owner) <==>
      (!Field(raw, "prerequisites").List? && f == Report(PrerequisitesNotArray, Topology, owner.id, owner.role)) ||
      (f == Report(PrerequisiteIdInvalid, Topology, owner.id, owner.role) &&
       exists v | v in Items(Field(raw, "prerequisites")) :: StringOf(v) == "")
  {
    IdFindingsExact(raw, owner, f);
  }

  /** The findings about the checkpoint itself and those about its lists. */
  function IdentityFindings(o: Options, i: nat, raw: Value): seq<Finding> {
    var owner := OwnerOf(i, raw);
    When(!raw.Record?, Report(CheckpointNotObject, Structure, owner.id, "")) +
    When(TextOf(Field(raw, "id")) == "", Report(IdMissing, Structure, owner.id, "")) +
    When(owner.role == "", Report(RoleMissing, Structure, owner.id, "")) +
    When(owner.status !in UniqueStrings(o.allowedStatuses), Report(StatusInvalid, Status, owner.id, owner.role))
  }

  function ListFindings(i: nat, raw: Value): seq<Finding> {
    var owner, ids := OwnerOf(i, raw), PrerequisiteIds(raw);
    PrerequisiteFindings(raw, owner) +
    When(|ToSet(ids)| != |ids|, Report(PrerequisiteDuplicate, Topology, owner.id, owner.role)) +
    When(CriteriaOf(raw) == [], Report(AcceptanceCriteriaMissing, Criteria, owner.id, owner.role))
  }

  lemma IdentityMember(o: Options, i: nat, raw: Value, f: Finding)
    ensures f in IdentityFindings(o, i, raw) <==> WarrantedByIdentity(o, i, raw, f)
  {
    AllowedExact(o, OwnerOf(i, raw).status);
  }

  lemma ListsMember(i: nat, raw: Value, f: Finding)
    ensures f in ListFindings(i, raw) <==> WarrantedByLists(i, raw, f)
  {
    var owner, ids := OwnerOf(i, raw), PrerequisiteIds(raw);
    DuplicateExact(raw);
    PrerequisiteMember(raw, owner, f);
    var a := PrerequisiteFindings(raw, owner);
    var b := When(|ToSet(ids)| != |ids|, Report(PrerequisiteDuplicate, Topology, owner.id, owner.role));
    var c := When(CriteriaOf(raw) == [], Report(AcceptanceCriteriaMissing, Criteria, owner.id, owner.role));
    AppendMember(a, b, f);
    AppendMember(a + b, c, f);
  }

  lemma FourAndThree<T>(a: seq<T>, b: seq<T>, c: seq<T>, d: seq<T>, e: seq<T>, f: seq<T>, g: seq<T>)
    ensures a + b + c + d + e + f + g == (a + b + c + d) + (e + f + g)
  {
  }

  lemma HeaderParts(o: Options, i: nat, raw: Value)
    ensures HeaderFindings(o, i, raw) == IdentityFindings(o, i, raw) + ListFindings(i, raw)
  {
    var owner, ids := OwnerOf(i, raw), PrerequisiteIds(raw);
    FourAndThree(
      When(!raw.Record?, Report(CheckpointNotObject, Structure, owner.id, "")),
      When(TextOf(Field(raw, "id")) == "", Report(IdMissing, Structure, owner.id, "")),
      When(owner.role == "", Report(RoleMissing, Structure, owner.id, "")),
      When(owner.status !in UniqueStrings(o.allowedStatuses), Report(StatusInvalid, Status, owner.id, owner.role)),
      PrerequisiteFindings(raw, owner),
      When(|ToSet(ids)| != |ids|, Report(PrerequisiteDuplicate, Topology, owner.id, owner.role)),
      When(CriteriaOf(raw) == [], Report(AcceptanceCriteriaMissing, Criteria, owner.id, owner.role)));
  }

  lemma HeaderMember(o: Options, i: nat, raw: Value, f: Finding)
    ensures f in HeaderFindings(o, i, raw) <==> WarrantedByHeader(o, i, raw, f)
  {
    HeaderParts(o, i, raw);
    IdentityMember(o, i, raw, f);
    ListsMember(i, raw, f);
    AppendMember(IdentityFindings(o, i, raw), ListFindings(i, raw), f);
  }

  lemma StatusMember(o: Options, i: nat, raw: Value, f: Finding)
    ensures f in StatusFindings(o, OwnerOf(i, raw), |CheckpointBlockers(i, raw)|) <==> WarrantedByStatus(o, i, raw, f)
  {
    CriteriaFindingsExact(o, OwnerOf(i, raw), CriteriaOf(raw));
  }

  // ----- one criterion

  /** A finding against criterion number `j` of a checkpoint. */
  function AgainstCriterion(code: Code, category: Category, d: Details): Finding {
    Finding(code, category, d.checkpointId, d.role, "", Some(d.criterionIndex), d.criterionText, [])
  }

  predicate IsKnown(o: Options, command: string) {
    command in o.authority && Truthy(o.authority[command])
  }

  predicate Owns(o: Options, command: string, report: string) {
    command in o.authority && exists v | v in Items(Field(o.authority[command], "ownedReports")) :: TextOf(v) == report
  }

  /** What is recorded against one entry of the evidence. */
  predicate WarrantedByEntry(o: Options, d: Details, item: Value, f: Finding) {
    var command, report := StringOf(Field(item, "acceptanceCommandId")), StringOf(Field(item, "report"));
    (f == AgainstCriterion(EvidenceCommandForbidden, Authority, d) && item.Record? && "command" in item.fields) ||
    (f == AgainstCriterion(EvidenceCommandIdInvalid, Evidence, d) && command == "") ||
    (f == AgainstCriterion(EvidenceCommandIdUnknown, Authority, d) && command != "" && !IsKnown(o, command)) ||
    (f == AgainstCriterion(EvidenceReportInvalid, Evidence, d) && command != "" &&
     Field(item, "report") != Undefined && !IsReportPath(report)) ||
    (f == AgainstCriterion(EvidenceReportNotOwned, Authority, d) && command != "" && IsKnown(o, command) &&
     IsReportPath(report) && !Owns(o, command, report))
  }

  lemma OwnedExact(o: Options, command: string, report: string)
    requires command in o.authority && report != ""
    ensures report in OwnedReports(o.authority[command]) <==> Owns(o, command, report)
  {
    var items := Items(Field(o.authority[command], "ownedReports"));
    CollectMembers(items, TextScan(), report);
    if i: nat :| i < |items| && report in TextScan()(i, items[i]) { assert items[i] in items; }
    if v :| v in items && TextOf(v) == report {
      var i: nat :| i < |items| && items[i] == v;
      assert report in TextScan()(i, items[i]);
    }
  }

  lemma EntryMember(o: Options, d: Details, item: Value, f: Finding)
    ensures f in EvidenceEntryFindings(o, d, item) <==> WarrantedByEntry(o, d, item, f)
  {
    var command, report := CommandId(item), ReportOf(item);
    var forbidden := When(item.Record? && "command" in item.fields, ReportAt(EvidenceCommandForbidden, Authority, d));
    if command == "" {
      var invalid := [ReportAt(EvidenceCommandIdInvalid, Evidence, d)];
      assert EvidenceEntryFindings(o, d, item) == forbidden + invalid;
      AppendMember(forbidden, invalid, f);
    } else {
      var unknown := When(!Truthy(AuthorityEntry(o, command)), ReportAt(EvidenceCommandIdUnknown, Authority, d));
      var cited := CitedFindings(o, d, item);
      assert EvidenceEntryFindings(o, d, item) == forbidden + (unknown + cited);
      AppendMember(unknown, cited, f);
      AppendMember(forbidden, unknown + cited, f);
      CitedMember(o, d, item, f);
    }
  }

  /** The findings about the report that an entry cites. */
  function CitedFindings(o: Options, d: Details, item: Value): seq<Finding> {
    var entry := AuthorityEntry(o, CommandId(item));
    if !Field(item, "report").Undefined? && !IsReportPath(ReportOf(item)) then
      [ReportAt(EvidenceReportInvalid, Evidence, d)]
    else
      When(ReportOf(item) != "" && Truthy(entry) && ReportOf(item) !in OwnedReports(entry),
           ReportAt(EvidenceReportNotOwned, Authority, d))
  }

  lemma CitedMember(o: Options, d: Details, item: Value, f: Finding)
    ensures var command, report := CommandId(item), ReportOf(item);
      f in CitedFindings(o, d, item) <==>
        (f == AgainstCriterion(EvidenceReportInvalid, Evidence, d) &&
         Field(item, "report") != Undefined && !IsReportPath(report)) ||
        (f == AgainstCriterion(EvidenceReportNotOwned, Authority, d) && IsKnown(o, command) &&
         IsReportPath(report) && !Owns(o, command, report))
  {
    var command, report := CommandId(item), ReportOf(item);
    if command in o.authority && report != "" { OwnedExact(o, command, report); }
  }

  ghost predicate WarrantedByEvidence(o: Options, d: Details, evidence: Value, f: Finding) {
    (f == AgainstCriterion(EvidenceMissing, Evidence, d) && (!evidence.List? || evidence.items == [])) ||
    exists item | item in Items(evidence) :: WarrantedByEntry(o, d, item, f)
  }

  lemma EvidenceMember(o: Options, d: Details, evidence: Value, f: Finding)
    ensures f in EvidenceFindings(o, d, evidence) <==> WarrantedByEvidence(o, d, evidence, f)
  {
    var items := Items(evidence);
    if HasEvidence(evidence) {
      CollectMembers(items, EvidenceScan(o, d), f);
      forall i: nat | i < |items|
        ensures f in EvidenceScan(o, d)(i, items[i]) <==> WarrantedByEntry(o, d, items[i], f)
      {
        EntryMember(o, d, items[i], f);
      }
      if item :| item in items && WarrantedByEntry(o, d, item, f) {
        var i: nat :| i < |items| && items[i] == item;
        assert f in EvidenceScan(o, d)(i, items[i]);
      }
      if f in EvidenceFindings(o, d, evidence) {
        var i: nat :| i < |items| && f in EvidenceScan(o, d)(i, items[i]);
        assert items[i] in items;
      }
    }
  }

  /** What is recorded against criterion number `j`. */
  ghost predicate WarrantedByCriterion(o: Options, i: nat, raw: Value, j: nat, f: Finding) {
    var criteria := Items(Field(raw, "acceptance_criteria"));
    j < |criteria| &&
    var v, role := criteria[j], TextOf(Field(raw, "role"));
    var d := Details(IdOf(raw, i), role, j, StringOf(Field(v, "text")));
    var untitled := d.(criterionText := "");
    var checked, blocker := Field(v, "checked") == Boolean(true), Field(v, "blocker");
    if !IsReadable(v) then f == AgainstCriterion(CriterionInvalid, Criteria, untitled)
    else if checked then
      (f == AgainstCriterion(CheckedCriterionHasBlocker, Blocking, d) && blocker != Undefined) ||
      (IsRequiredRole(o, role) && WarrantedByEvidence(o, d, Field(v, "evidence"), f))
    else if blocker == Undefined then f == AgainstCriterion(CriterionUnchecked, Criteria, untitled)
    else
      (f == AgainstCriterion(ExternalBlockerInvalid, Blocking, d) && !BlockerAccepted(blocker)) ||
      (f == AgainstCriterion(CompletedWithBlockedCriterion, Status, d) &&
       TextOf(Field(raw, "status")) == o.completedStatus)
  }

  lemma CriterionMember(o: Options, i: nat, raw: Value, j: nat, f: Finding)
    requires j < |CriteriaOf(raw)|
    ensures f in CriterionFindings(o, OwnerOf(i, raw), j, CriteriaOf(raw)[j]) <==> WarrantedByCriterion(o, i, raw, j, f)
  {
    var owner, v := OwnerOf(i, raw), CriteriaOf(raw)[j];
    var d := DetailsOf(owner, j, v);
    RequiredRoleExact(o, owner.role);
    if CriterionWellFormed(v) && IsChecked(v) {
      EvidenceMember(o, d, Field(v, "evidence"), f);
      var blocked := When(HasBlocker(v), ReportAt(CheckedCriterionHasBlocker, Blocking, d));
      AppendMember(blocked, if owner.role in RequiredRoleList(o) then EvidenceFindings(o, d, Field(v, "evidence"))
                            else [], f);
    }
  }

  // ----- all checkpoints, one by one

  ghost predicate WarrantedLocally(o: Options, i: nat, raw: Value, f: Finding) {
    WarrantedByHeader(o, i, raw, f) || WarrantedByStatus(o, i, raw, f) ||
    exists j: nat :: WarrantedByCriterion(o, i, raw, j, f)
  }

  lemma CriteriaMember(o: Options, i: nat, raw: Value, f: Finding)
    ensures f in Collect(CriteriaOf(raw), CriterionScan(o, OwnerOf(i, raw))) <==>
      exists j: nat :: WarrantedByCriterion(o, i, raw, j, f)
  {
    var criteria, scan := CriteriaOf(raw), CriterionScan(o, OwnerOf(i, raw));
    CollectMembers(criteria, scan, f);
    forall j: nat | j < |criteria| ensures f in scan(j, criteria[j]) <==> WarrantedByCriterion(o, i, raw, j, f) {
      CriterionMember(o, i, raw, j, f);
    }
  }

  lemma CheckpointMember(o: Options, i: nat, raw: Value, f: Finding)
    ensures f in CheckpointFindings(o, i, raw) <==> WarrantedLocally(o, i, raw, f)
  {
    var header, status := HeaderFindings(o, i, raw),
      StatusFindings(o, OwnerOf(i, raw), |CheckpointBlockers(i, raw)|);
    var criteria := Collect(CriteriaOf(raw), CriterionScan(o, OwnerOf(i, raw)));
    assert CheckpointFindings(o, i, raw) == header + criteria + status;
    HeaderMember(o, i, raw, f);
    StatusMember(o, i, raw, f);
    CriteriaMember(o, i, raw, f);
    AppendMember(header, criteria, f);
    AppendMember(header + criteria, status, f);
  }

  // ----- the plan as a whole

  predicate WarrantedByShape(checkpoints: Value, f: Finding) {
    (f == Against(CheckpointsNotArray, Structure, "", "") && !checkpoints.List?) ||
    (f == Against(CheckpointsEmpty, Structure, "", "") && checkpoints.List? && checkpoints.items == [])
  }

  lemma ShapeMember(checkpoints: Value, f: Finding)
    ensures f in ShapeFindings(checkpoints) <==> WarrantedByShape(checkpoints, f)
  {
  }

  predicate DeclaresAt(items: seq<Value>, i: nat, id: string) {
    i < |items| && id != "" && TextOf(Field(items[i], "id")) == id
  }

  ghost predicate IsDeclared(items: seq<Value>, id: string) {
    exists i: nat :: DeclaresAt(items, i, id)
  }

  ghost predicate DeclaredTwice(items: seq<Value>, id: string) {
    exists a: nat, b: nat | a < b :: DeclaresAt(items, a, id) && DeclaresAt(items, b, id)
  }

  ghost predicate WarrantedByDuplicate(items: seq<Value>, f: Finding) {
    f == Against(IdDuplicate, Structure, f.checkpointId, "") && DeclaredTwice(items, f.checkpointId)
  }

  lemma HasIdAt(items: seq<Value>, id: string, i: nat)
    requires i < |items|
    ensures HasId(id)(NormalizeAll(items)[i]) <==> DeclaresAt(items, i, id)
  {
  }

  lemma TwiceExact(items: seq<Value>, id: string)
    ensures |Filter(NormalizeAll(items), HasId(id))| > 1 <==> DeclaredTwice(items, id)
  {
    var ns := NormalizeAll(items);
    FilterAtMostOne(ns, HasId(id));
    forall i: nat | i < |items| ensures HasId(id)(ns[i]) <==> DeclaresAt(items, i, id) { HasIdAt(items, id, i); }
    if a: nat, b: nat :| a < b && DeclaresAt(items, a, id) && DeclaresAt(items, b, id) {
      assert HasId(id)(ns[a]) && HasId(id)(ns[b]);
    }
  }

  lemma DuplicateScanned(ns: seq<Checkpoint>, i: nat, k: string, f: Finding)
    ensures f in DuplicateScan(ns)(i, k) <==>
      |Filter(ns, HasId(k))| > 1 && f == Against(IdDuplicate, Structure, k, "")
  {
    WhenMember(|Filter(ns, HasId(k))| > 1, Report(IdDuplicate, Structure, k, ""), f);
  }

  lemma DuplicateMember(items: seq<Value>, f: Finding)
    ensures var ns := NormalizeAll(items);
      f in Collect(RegisterKeys(ns), DuplicateScan(ns)) <==> WarrantedByDuplicate(items, f)
  {
    var ns := NormalizeAll(items);
    var keys, id := RegisterKeys(ns), f.checkpointId;
    CollectMembers(keys, DuplicateScan(ns), f);
    TwiceExact(items, id);
    forall i: nat | i < |keys|
      ensures f in DuplicateScan(ns)(i, keys[i]) <==> keys[i] == id && WarrantedByDuplicate(items, f)
    {
      DuplicateScanned(ns, i, keys[i], f);
    }
    if DeclaredTwice(items, id) {
      var a: nat, b: nat :| a < b && DeclaresAt(items, a, id) && DeclaresAt(items, b, id);
      DeclaredKey(items, a, id);
    }
  }

  lemma DeclaredKey(items: seq<Value>, a: nat, id: string)
    requires DeclaresAt(items, a, id)
    ensures exists i: nat | i < |RegisterKeys(NormalizeAll(items))| :: RegisterKeys(NormalizeAll(items))[i] == id
  {
    var ns := NormalizeAll(items);
    RegisterFacts(ns);
    assert ns[a] in ns && ns[a].id == id;
    assert id in ToSet(RegisterKeys(ns));
  }

  // ----- prerequisites

  predicate IsPrerequisite(raw: Value, p: string) {
    p != "" && exists v | v in Items(Field(raw, "prerequisites")) :: StringOf(v) == p
  }

  /** The first checkpoint that declares the id. */
  predicate FirstDeclares(items: seq<Value>, m: nat, id: string) {
    DeclaresAt(items, m, id) && forall k: nat | k < m :: !DeclaresAt(items, k, id)
  }

  function AgainstLink(code: Code, id: string, role: string, p: string): Finding {
    Finding(code, Topology, id, role, p, None, "", [])
  }

  /** What is recorded against one prerequisite of a checkpoint. */
  ghost predicate WarrantedByLink(o: Options, items: seq<Value>, i: nat, p: string, f: Finding) {
    i < |items| && IsPrerequisite(items[i], p) &&
    var id, role := IdOf(items[i], i), TextOf(Field(items[i], "role"));
    (f == AgainstLink(PrerequisiteMissing, id, role, p) && !IsDeclared(items, p)) ||
    (f == AgainstLink(SelfReference, id, role, p) && IsDeclared(items, p) && p == id) ||
    (f == AgainstLink(CompletedBeforePrerequisite, id, role, p) &&
     TextOf(Field(items[i], "status")) == o.completedStatus &&
     exists m: nat :: FirstDeclares(items, m, p) && TextOf(Field(items[m], "status")) != o.completedStatus)
  }

  /** The registered checkpoint of an id is the first one that declares it. */
  ghost predicate RegistersFirst(items: seq<Value>, id: string) {
    var m := Register(NormalizeAll(items));
    (id in m <==> IsDeclared(items, id)) &&
    (id in m ==> m[id].index < |items| && FirstDeclares(items, m[id].index, id) &&
                 m[id] == Normalize(m[id].index, items[m[id].index]))
  }

  lemma RegisterStep(items: seq<Value>, id: string)
    requires items != []
    ensures var n, m := |items| - 1, Register(NormalizeAll(items));
      var before := Register(NormalizeAll(items[..n]));
      (id in before ==> id in m && m[id] == before[id]) &&
      (id !in before ==>
         (id in m <==> DeclaresAt(items, n, id)) && (id in m ==> m[id] == Normalize(n, items[n])))
  {
    var n, ns := |items| - 1, NormalizeAll(items);
    assert NormalizeAll(items[..n]) == ns[..n];
    assert ns[n] == Normalize(n, items[n]);
  }

  lemma RegisteredBefore(items: seq<Value>, id: string)
    requires items != [] && RegistersFirst(items[..|items| - 1], id)
    requires id in Register(NormalizeAll(items[..|items| - 1]))
    ensures RegistersFirst(items, id)
  {
    var n := |items| - 1;
    RegisterStep(items, id);
    DeclaredStep(items, id);
    var c := Register(NormalizeAll(items[..n]))[id];
    assert items[..n][c.index] == items[c.index];
  }

  lemma RegisteredLast(items: seq<Value>, id: string)
    requires items != [] && RegistersFirst(items[..|items| - 1], id)
    requires id !in Register(NormalizeAll(items[..|items| - 1]))
    ensures RegistersFirst(items, id)
  {
    RegisterStep(items, id);
    DeclaredStep(items, id);
  }

  lemma {:induction false} RegisterFirst(items: seq<Value>, id: string)
    ensures RegistersFirst(items, id)
  {
    if items != [] {
      var before := items[..|items| - 1];
      RegisterFirst(before, id);
      if id in Register(NormalizeAll(before)) { RegisteredBefore(items, id); } else { RegisteredLast(items, id); }
    }
  }

  lemma DeclaredStep(items: seq<Value>, id: string)
    requires items != []
    ensures var n := |items| - 1;
      (IsDeclared(items, id) <==>
       (IsDeclared(items[..n], id) || DeclaresAt(items, n, id))) &&
      (forall m: nat | m < n :: FirstDeclares(items[..n], m, id) ==> FirstDeclares(items, m, id)) &&
      (!IsDeclared(items[..n], id) && DeclaresAt(items, n, id) ==> FirstDeclares(items, n, id))
  {
    var n := |items| - 1;
    assert forall i: nat | i < n :: DeclaresAt(items[..n], i, id) <==> DeclaresAt(items, i, id);
    if i: nat :| DeclaresAt(items, i, id) {
      if i < n { assert DeclaresAt(items[..n], i, id); }
    }
    if i: nat :| DeclaresAt(items[..n], i, id) { assert DeclaresAt(items, i, id); }
  }

  lemma FirstIsOne(items: seq<Value>, a: nat, b: nat, id: string)
    requires FirstDeclares(items, a, id) && FirstDeclares(items, b, id)
    ensures a == b
  {
  }

  lemma PrerequisitesExact(i: nat, raw: Value, p: string)
    ensures p in Normalize(i, raw).prerequisites <==> IsPrerequisite(raw, p)
  {
    RequiredEvidenceExact(Field(raw, "prerequisites"));
  }

  lemma LinkCases(o: Options, m: map<string, Checkpoint>, c: Checkpoint, p: string, f: Finding)
    ensures f in LinkFindings(o, m, c, p) <==>
      (f == AgainstLink(PrerequisiteMissing, c.id, c.role, p) && p !in m) ||
      (f == AgainstLink(SelfReference, c.id, c.role, p) && p in m && p == c.id) ||
      (f == AgainstLink(CompletedBeforePrerequisite, c.id, c.role, p) && p in m &&
       c.status == o.completedStatus != m[p].status)
  {
  }

  lemma FirstStatus(items: seq<Value>, p: string, status: string)
    ensures var m := Register(NormalizeAll(items));
      p in m && m[p].status != status <==>
        exists k: nat :: FirstDeclares(items, k, p) && TextOf(Field(items[k], "status")) != status
  {
    var m := Register(NormalizeAll(items));
    RegisterFirst(items, p);
    if k: nat :| FirstDeclares(items, k, p) && TextOf(Field(items[k], "status")) != status {
      assert IsDeclared(items, p);
      FirstIsOne(items, k, m[p].index, p);
    }
  }

  lemma LinkMember(o: Options, items: seq<Value>, i: nat, p: string, f: Finding)
    requires i < |items| && IsPrerequisite(items[i], p)
    ensures f in LinkFindings(o, Register(NormalizeAll(items)), Normalize(i, items[i]), p) <==>
      WarrantedByLink(o, items, i, p, f)
  {
    RegisterFirst(items, p);
    FirstStatus(items, p, o.completedStatus);
    LinkCases(o, Register(NormalizeAll(items)), Normalize(i, items[i]), p, f);
  }

  lemma LinksOfMember(o: Options, items: seq<Value>, i: nat, f: Finding)
    requires i < |items|
    ensures var m, c := Register(NormalizeAll(items)), Normalize(i, items[i]);
      f in Collect(c.prerequisites, LinkScan(o, m, c)) <==> exists p :: WarrantedByLink(o, items, i, p, f)
  {
    var m, c := Register(NormalizeAll(items)), Normalize(i, items[i]);
    CollectMembers(c.prerequisites, LinkScan(o, m, c), f);
    forall p ensures p in c.prerequisites <==> IsPrerequisite(items[i], p) { PrerequisitesExact(i, items[i], p); }
    forall p | IsPrerequisite(items[i], p)
      ensures f in LinkFindings(o, m, c, p) <==> WarrantedByLink(o, items, i, p, f)
    {
      LinkMember(o, items, i, p, f);
    }
    if p :| WarrantedByLink(o, items, i, p, f) {
      var k: nat :| k < |c.prerequisites| && c.prerequisites[k] == p;
      assert f in LinkScan(o, m, c)(k, c.prerequisites[k]);
    }
    if k: nat :| k < |c.prerequisites| && f in LinkScan(o, m, c)(k, c.prerequisites[k]) {
      assert WarrantedByLink(o, items, i, c.prerequisites[k], f);
    }
  }

  lemma LinksMember(o: Options, items: seq<Value>, f: Finding)
    ensures var ns := NormalizeAll(items);
      f in Collect(ns, LinksScan(o, Register(ns))) <==> exists i: nat, p :: WarrantedByLink(o, items, i, p, f)
  {
    var ns := NormalizeAll(items);
    CollectMembers(ns, LinksScan(o, Register(ns)), f);
    forall i: nat | i < |ns|
      ensures f in LinksScan(o, Register(ns))(i, ns[i]) <==> exists p :: WarrantedByLink(o, items, i, p, f)
    {
      LinksOfMember(o, items, i, f);
    }
    if i: nat, p :| WarrantedByLink(o, items, i, p, f) { assert f in LinksScan(o, Register(ns))(i, ns[i]); }
    if i: nat :| i < |ns| && f in LinksScan(o, Register(ns))(i, ns[i]) {
      var p :| WarrantedByLink(o, items, i, p, f);
    }
  }

  // ----- roles

  predicate PlaysRole(items: seq<Value>, i: nat, role: string) {
    i < |items| && TextOf(Field(items[i], "role")) == role
  }

  ghost predicate Unplayed(items: seq<Value>, role: string) {
    forall i: nat :: !PlaysRole(items, i, role)
  }

  ghost predicate Shared(items: seq<Value>, role: string) {
    exists a: nat, b: nat | a < b :: PlaysRole(items, a, role) && PlaysRole(items, b, role)
  }

  ghost predicate WarrantedByRole(o: Options, items: seq<Value>, f: Finding) {
    IsRequiredRole(o, f.role) &&
    ((f == Against(RequiredRoleMissing, Role, "", f.role) && Unplayed(items, f.role)) ||
     (f == Against(RequiredRoleDuplicate, Role, "", f.role) && Shared(items, f.role)))
  }

  lemma RolePlayed(items: seq<Value>, role: string, i: nat)
    requires i < |items|
    ensures HasRole(role)(NormalizeAll(items)[i]) <==> PlaysRole(items, i, role)
  {
  }

  lemma RoleUnplayed(items: seq<Value>, role: string)
    ensures Filter(NormalizeAll(items), HasRole(role)) == [] <==> Unplayed(items, role)
  {
    var ns := NormalizeAll(items);
    var played := Filter(ns, HasRole(role));
    if played != [] {
      FilterMembers(ns, HasRole(role), played[0]);
      var i: nat :| i < |ns| && ns[i] == played[0];
      RolePlayed(items, role, i);
    }
    forall i: nat | PlaysRole(items, i, role) ensures played != [] {
      RolePlayed(items, role, i);
      assert ns[i] in ns;
      FilterMembers(ns, HasRole(role), ns[i]);
    }
  }

  lemma RoleShared(items: seq<Value>, role: string)
    ensures |Filter(NormalizeAll(items), HasRole(role))| > 1 <==> Shared(items, role)
  {
    var ns := NormalizeAll(items);
    FilterAtMostOne(ns, HasRole(role));
    forall i: nat | i < |ns| ensures HasRole(role)(ns[i]) <==> PlaysRole(items, i, role) {
      RolePlayed(items, role, i);
    }
    if a: nat, b: nat :| a < b && PlaysRole(items, a, role) && PlaysRole(items, b, role) {
      assert HasRole(role)(ns[a]) && HasRole(role)(ns[b]);
    }
  }

  lemma RoleScanned(ns: seq<Checkpoint>, i: nat, role: string, f: Finding)
    ensures f in RoleScan(ns)(i, role) <==>
      (f == Against(RequiredRoleMissing, Role, "", role) && |Filter(ns, HasRole(role))| == 0) ||
      (f == Against(RequiredRoleDuplicate, Role, "", role) && |Filter(ns, HasRole(role))| > 1)
  {
  }

  lemma RoleScanMember(o: Options, items: seq<Value>, i: nat, role: string, f: Finding)
    requires IsRequiredRole(o, role)
    ensures f in RoleScan(NormalizeAll(items))(i, role) <==> role == f.role && WarrantedByRole(o, items, f)
  {
    RoleScanned(NormalizeAll(items), i, role, f);
    RoleUnplayed(items, role);
    RoleShared(items, role);
  }

  lemma RoleMember(o: Options, items: seq<Value>, f: Finding)
    ensures f in Collect(RequiredRoleList(o), RoleScan(NormalizeAll(items))) <==> WarrantedByRole(o, items, f)
  {
    var roles, ns := RequiredRoleList(o), NormalizeAll(items);
    CollectMembers(roles, RoleScan(ns), f);
    RequiredRoleExact(o, f.role);
    forall i: nat | i < |roles|
      ensures f in RoleScan(ns)(i, roles[i]) <==> roles[i] == f.role && WarrantedByRole(o, items, f)
    {
      assert roles[i] in roles;
      RequiredRoleExact(o, roles[i]);
      RoleScanMember(o, items, i, roles[i], f);
    }
    if f.role in roles {
      var i: nat :| i < |roles| && roles[i] == f.role;
    }
  }

  ghost predicate OnlyOne(items: seq<Value>, i: nat, role: string) {
    PlaysRole(items, i, role) && forall k: nat | PlaysRole(items, k, role) :: k == i
  }

  function PrerequisiteSet(raw: Value): set<string> {
    set v | v in Items(Field(raw, "prerequisites")) && StringOf(v) != "" :: StringOf(v)
  }

  lemma PrerequisiteSetExact(i: nat, raw: Value)
    ensures ToSet(Normalize(i, raw).prerequisites) == PrerequisiteSet(raw)
  {
    forall p ensures p in Normalize(i, raw).prerequisites <==> p in PrerequisiteSet(raw) {
      PrerequisitesExact(i, raw, p);
    }
  }

  /** The one final validation does not depend on the one implementation, directly or not. */
  ghost predicate WarrantedByDependency(items: seq<Value>, f: Finding) {
    exists a: nat, b: nat | OnlyOne(items, a, "implementation") && OnlyOne(items, b, "final_validation") ::
      f == AgainstLink(MissingImplementationDependency, IdOf(items[b], b), "final_validation", IdOf(items[a], a)) &&
      !Reaches(GraphOf(Register(NormalizeAll(items))), PrerequisiteSet(items[b]), IdOf(items[a], a))
  }

  lemma OnlyPlayer(items: seq<Value>, role: string) returns (i: nat)
    requires |Filter(NormalizeAll(items), HasRole(role))| == 1
    ensures OnlyOne(items, i, role)
  {
    var ns := NormalizeAll(items);
    var c := Filter(ns, HasRole(role))[0];
    FilterMembers(ns, HasRole(role), c);
    i :| i < |ns| && ns[i] == c;
    RolePlayed(items, role, i);
    RoleShared(items, role);
  }

  lemma OneMember<T>(s: seq<T>, x: T)
    requires |s| <= 1 && x in s
    ensures s == [x]
  {
  }

  lemma NotShared(items: seq<Value>, role: string, i: nat)
    requires OnlyOne(items, i, role)
    ensures !Shared(items, role)
  {
  }

  lemma PlayedOnly(items: seq<Value>, role: string, i: nat)
    requires OnlyOne(items, i, role)
    ensures Filter(NormalizeAll(items), HasRole(role)) == [Normalize(i, items[i])]
  {
    var ns := NormalizeAll(items);
    var played := Filter(ns, HasRole(role));
    NotShared(items, role, i);
    RoleShared(items, role);
    RolePlayed(items, role, i);
    assert ns[i] in ns;
    FilterMembers(ns, HasRole(role), ns[i]);
    OneMember(played, ns[i]);
  }

  lemma DependencyOf(items: seq<Value>, a: nat, b: nat, f: Finding)
    requires OnlyOne(items, a, IMPLEMENTATION) && OnlyOne(items, b, FINAL_VALIDATION)
    ensures f in DependencyFindings(NormalizeAll(items)) <==>
      f == AgainstLink(MissingImplementationDependency, IdOf(items[b], b), FINAL_VALIDATION, IdOf(items[a], a)) &&
      !Reaches(GraphOf(Register(NormalizeAll(items))), PrerequisiteSet(items[b]), IdOf(items[a], a))
  {
    PlayedOnly(items, IMPLEMENTATION, a);
    PlayedOnly(items, FINAL_VALIDATION, b);
    PrerequisiteSetExact(b, items[b]);
  }

  lemma DependencyMember(items: seq<Value>, f: Finding)
    ensures f in DependencyFindings(NormalizeAll(items)) <==> WarrantedByDependency(items, f)
  {
    var ns := NormalizeAll(items);
    forall a: nat, b: nat | OnlyOne(items, a, IMPLEMENTATION) && OnlyOne(items, b, FINAL_VALIDATION)
      ensures f in DependencyFindings(ns) <==>
        f == AgainstLink(MissingImplementationDependency, IdOf(items[b], b), FINAL_VALIDATION, IdOf(items[a], a)) &&
        !Reaches(GraphOf(Register(ns)), PrerequisiteSet(items[b]), IdOf(items[a], a))
    {
      DependencyOf(items, a, b, f);
    }
    if |Filter(ns, HasRole(IMPLEMENTATION))| == 1 && |Filter(ns, HasRole(FINAL_VALIDATION))| == 1 {
      var a := OnlyPlayer(items, IMPLEMENTATION);
      var b := OnlyPlayer(items, FINAL_VALIDATION);
    }
  }

  // ----- all findings

  /** What warrants a finding other than a prerequisite cycle. */
  ghost predicate Warranted(o: Options, checkpoints: Value, f: Finding) {
    var items := Items(checkpoints);
    WarrantedByShape(checkpoints, f) || (exists i: nat | i < |items| :: WarrantedLocally(o, i, items[i], f)) ||
    WarrantedByDuplicate(items, f) || (exists i: nat, p :: WarrantedByLink(o, items, i, p, f)) ||
    WarrantedByRole(o, items, f) || WarrantedByDependency(items, f)
  }

  lemma LocalMember(o: Options, items: seq<Value>, f: Finding)
    ensures f in Collect(items, CheckpointScan(o)) <==>
      exists i: nat | i < |items| :: WarrantedLocally(o, i, items[i], f)
  {
    CollectMembers(items, CheckpointScan(o), f);
    forall i: nat | i < |items| ensures f in CheckpointScan(o)(i, items[i]) <==> WarrantedLocally(o, i, items[i], f) {
      CheckpointMember(o, i, items[i], f);
    }
  }

  lemma FindingGroups(o: Options, checkpoints: Value, cycles: seq<Finding>, f: Finding)
    ensures var items := Items(checkpoints);
      var ns := NormalizeAll(items);
      f in AllFindings(o, checkpoints, cycles) <==>
        f in ShapeFindings(checkpoints) || f in Collect(items, CheckpointScan(o)) ||
        f in Collect(RegisterKeys(ns), DuplicateScan(ns)) || f in Collect(ns, LinksScan(o, Register(ns))) ||
        f in cycles || f in Collect(RequiredRoleList(o), RoleScan(ns)) || f in DependencyFindings(ns)
  {
    var items := Items(checkpoints);
    var ns := NormalizeAll(items);
    SevenGroups(ShapeFindings(checkpoints), Collect(items, CheckpointScan(o)),
                Collect(RegisterKeys(ns), DuplicateScan(ns)), Collect(ns, LinksScan(o, Register(ns))), cycles,
                Collect(RequiredRoleList(o), RoleScan(ns)), DependencyFindings(ns), f);
  }

  /** Apart from the cycles, a finding is recorded exactly when the input warrants it, under its own code. */
  lemma FindingsWarranted(o: Options, checkpoints: Value, cycles: seq<Finding>, f: Finding)
    ensures f in AllFindings(o, checkpoints, cycles) <==> f in cycles || Warranted(o, checkpoints, f)
  {
    var items := Items(checkpoints);
    ShapeMember(checkpoints, f);
    LocalMember(o, items, f);
    DuplicateMember(items, f);
    LinksMember(o, items, f);
    RoleMember(o, items, f);
    DependencyMember(items, f);
    FindingGroups(o, checkpoints, cycles, f);
  }

  // ----- the whole reduction

  function CompletedPlaces(o: Options, items: seq<Value>): set<nat> {
    set i: nat | i < |items| && TextOf(Field(items[i], "status")) == o.completedStatus
  }

  /** The kind of failure: none, a fault of the graph or its structure, missing external evidence, or local work. */
  predicate KindFits(r: Reduction) {
    (r.failureKind == NoFailure <==> r.readyForReleaseReduction) &&
    (r.failureKind == InvalidCheckpointGraph <==>
     exists f | f in r.findings :: f.category == Topology || f.category == Structure) &&
    (r.failureKind == ExternalEvidence <==> r.blocked)
  }

  /** Everything that a reduction reports, over the input. */
  ghost predicate ReportsPlan(o: Options, checkpoints: Value, cycles: seq<Finding>, r: Reduction) {
    ListedByPlace(r.openCheckpoints, OpenAt(o, checkpoints)) &&
    ListedByPlace(r.uncheckedCriteria, UncheckedAt(checkpoints)) &&
    ListedByPlace(r.blockers, BlockerAt(checkpoints)) &&
    ListedByPlace(r.evidenceBindings, BindingAt(o, checkpoints)) &&
    (forall b :: b in r.evidenceBindings <==> IsBound(o, checkpoints, b)) &&
    (forall f :: f in r.findings <==> f in cycles || Warranted(o, checkpoints, f)) &&
    r.checkpointCount == |Items(checkpoints)| &&
    r.completedCheckpointCount == |CompletedPlaces(o, Items(checkpoints))| &&
    Distinct(r.requiredRoles) && (forall role :: role in r.requiredRoles <==> IsRequiredRole(o, role)) && KindFits(r)
  }

  lemma CompletedCount(o: Options, items: seq<Value>)
    ensures |Filter(NormalizeAll(items), HasStatus(o.completedStatus))| == |CompletedPlaces(o, items)|
  {
    FilterSize(NormalizeAll(items), HasStatus(o.completedStatus));
    assert Where(NormalizeAll(items), HasStatus(o.completedStatus)) == CompletedPlaces(o, items);
  }

  lemma ConcludeFits(o: Options, ns: seq<Checkpoint>, findings: seq<Finding>, open: seq<OpenCheckpoint>,
                     unchecked: seq<Unchecked>, blockers: seq<Blocker>, bindings: seq<Binding>)
    ensures var r := Conclude(o, ns, findings, open, unchecked, blockers, bindings);
      KindFits(r) && r.findings == findings && r.openCheckpoints == open && r.uncheckedCriteria == unchecked &&
      r.blockers == blockers && r.evidenceBindings == bindings && r.checkpointCount == |ns| &&
      r.completedCheckpointCount == |Filter(ns, HasStatus(o.completedStatus))| &&
      r.requiredRoles == RequiredRoleList(o)
  {
  }

  lemma RolesFit(o: Options)
    ensures Distinct(RequiredRoleList(o)) && forall role :: role in RequiredRoleList(o) <==> IsRequiredRole(o, role)
  {
    forall role ensures role in RequiredRoleList(o) <==> IsRequiredRole(o, role) { RequiredRoleExact(o, role); }
  }

  lemma ListsFit(o: Options, checkpoints: Value)
    ensures var items := Items(checkpoints);
      ListedByPlace(Collect(items, OpenScan(o)), OpenAt(o, checkpoints)) &&
      ListedByPlace(Collect(items, UncheckedScan()), UncheckedAt(checkpoints)) &&
      ListedByPlace(Collect(items, BlockerScan()), BlockerAt(checkpoints)) &&
      ListedByPlace(Collect(items, BindingsScan(o)), BindingAt(o, checkpoints)) &&
      forall b :: b in Collect(items, BindingsScan(o)) <==> IsBound(o, checkpoints, b)
  {
    OpenListed(o, checkpoints);
    UncheckedListed(checkpoints);
    BlockersListed(checkpoints);
    BindingsListed(o, checkpoints);
    forall b ensures b in Collect(Items(checkpoints), BindingsScan(o)) <==> IsBound(o, checkpoints, b) {
      BindingsExact(o, checkpoints, b);
    }
  }

  /** The reduction put together from the parts reports exactly what the input warrants. */
  lemma AssembledReports(o: Options, checkpoints: Value, cycles: seq<Finding>)
    ensures ReportsPlan(o, checkpoints, cycles, Assemble(o, checkpoints, cycles))
  {
    var items := Items(checkpoints);
    ConcludeFits(o, NormalizeAll(items), AllFindings(o, checkpoints, cycles), Collect(items, OpenScan(o)),
                 Collect(items, UncheckedScan()), Collect(items, BlockerScan()), Collect(items, BindingsScan(o)));
    ListsFit(o, checkpoints);
    CompletedCount(o, items);
    RolesFit(o);
    forall f ensures f in AllFindings(o, checkpoints, cycles) <==> f in cycles || Warranted(o, checkpoints, f) {
      FindingsWarranted(o, checkpoints, cycles, f);
    }
  }
}
