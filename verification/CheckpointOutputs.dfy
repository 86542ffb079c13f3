/**
 * What a reduction lists, stated over the parsed input: each list holds one entry for every place of the plan that
 * earns one, in the order of the places, and the entry says what stands there.
 */
module CheckpointOutputs {
  import opened Sequences
  import opened Text
  import opened Json
  import opened CheckpointRules
  import opened CheckpointTheory
  import opened PlacedLists

  // ----- what the parts of the input say

  lemma UniqueStringsExact(values: seq<string>, x: string)
    ensures x in UniqueStrings(values) <==> x != "" && exists s | s in values :: Trim(s) == x
  {
    CollectMembers(values, TrimScan(), x);
    if x != "" && exists s | s in values :: Trim(s) == x {
      var s :| s in values && Trim(s) == x;
      var i: nat :| i < |values| && values[i] == s;
      assert x in TrimScan()(i, values[i]);
    }
    if x in UniqueStrings(values) {
      var i: nat :| i < |values| && x in TrimScan()(i, values[i]);
      assert values[i] in values;
    }
  }

  predicate IsRequiredRole(o: Options, role: string) {
    role != "" && exists r | r in o.requiredRoles :: Trim(r) == role
  }

  lemma RequiredRoleExact(o: Options, role: string)
    ensures role in RequiredRoleList(o) <==> IsRequiredRole(o, role)
  {
    UniqueStringsExact(o.requiredRoles, role);
  }

  /** A checkpoint goes by the id it declares, or by its index if it declares none. */
  predicate GoesBy(raw: Value, i: nat, id: string, role: string) {
    role == TextOf(Field(raw, "role")) &&
    if TextOf(Field(raw, "id")) != "" then id == TextOf(Field(raw, "id"))
    else id == "checkpoint-index-" + Digits(i)
  }

  /** What a run of digits stands for. */
  function DigitsValue(digits: string): int {
    if digits == "" then 0 else DigitsValue(digits[..|digits| - 1]) * 10 + (digits[|digits| - 1] as int - '0' as int)
  }

  lemma {:induction false} DigitsExact(n: nat)
    ensures Digits(n) != "" && (forall c | c in Digits(n) :: '0' <= c <= '9') && DigitsValue(Digits(n)) == n
    ensures n > 0 ==> Digits(n)[0] != '0'
  {
    DigitsAre();
    if n < 10 {
      assert Digits(n)[..0] == "";
    } else {
      var head, last := Digits(n / 10), "0123456789"[n % 10];
      DigitsExact(n / 10);
      assert Digits(n) == head + [last];
      assert (head + [last])[..|head|] == head;
    }
  }

  lemma DigitsAre()
    ensures forall d | 0 <= d < 10 :: '0' <= "0123456789"[d] <= '9' && "0123456789"[d] as int - '0' as int == d
  {
  }

  predicate IsCriterionAt(checkpoints: Value, i: nat, j: nat) {
    i < |Items(checkpoints)| && j < |Items(Field(Items(checkpoints)[i], "acceptance_criteria"))|
  }

  function CriterionAt(checkpoints: Value, i: nat, j: nat): Value
    requires IsCriterionAt(checkpoints, i, j)
  {
    Items(Field(Items(checkpoints)[i], "acceptance_criteria"))[j]
  }

  predicate IsReadable(criterion: Value) {
    criterion.Record? && StringOf(Field(criterion, "text")) != ""
  }

  // ----- evidence bindings

  /**
   * The binding of evidence entry `k` of criterion `j` of checkpoint `i`: the role is required, the criterion is
   * readable and checked, and the entry names a command.
   */
  predicate IsBindingAt(o: Options, checkpoints: Value, i: nat, j: nat, k: nat, b: Binding) {
    IsCriterionAt(checkpoints, i, j) &&
    var raw, criterion := Items(checkpoints)[i], CriterionAt(checkpoints, i, j);
    var evidence := Field(criterion, "evidence");
    IsRequiredRole(o, b.role) && GoesBy(raw, i, b.checkpointId, b.role) &&
    IsReadable(criterion) && Field(criterion, "checked") == Boolean(true) &&
    evidence.List? && k < |evidence.items| &&
    b.acceptanceCommandId == StringOf(Field(evidence.items[k], "acceptanceCommandId")) != "" &&
    b.report == StringOf(Field(evidence.items[k], "report")) && b.criterionIndex == j && b.evidenceIndex == k
  }

  function BindingAt(o: Options, checkpoints: Value): (Place, Binding) -> bool {
    (p: Place, b: Binding) => |p| == 3 && IsBindingAt(o, checkpoints, p[0], p[1], p[2], b)
  }

  predicate BindingOfEntry(d: Details, k: nat, item: Value, b: Binding) {
    CommandId(item) != "" &&
    b == Binding(CommandId(item), ReportOf(item), d.checkpointId, d.role, d.criterionIndex, k)
  }

  function EntryEarns(d: Details, items: seq<Value>): nat -> ((Place, Binding) -> bool) {
    (k: nat) => (p: Place, b: Binding) => p == [] && k < |items| && BindingOfEntry(d, k, items[k], b)
  }

  lemma EntryListed(d: Details, items: seq<Value>, k: nat)
    requires k < |items|
    ensures ListedByPlace(BindingScan(d)(k, items[k]), EntryEarns(d, items)(k))
  {
    var item, earns := items[k], EntryEarns(d, items)(k);
    if CommandId(item) == "" {
      NothingListed(earns);
    } else {
      var b := Binding(CommandId(item), ReportOf(item), d.checkpointId, d.role, d.criterionIndex, k);
      var here: Place := [];
      assert BindingOfEntry(d, k, item, b) && earns(here, b);
      OneListed(b, earns);
    }
  }

  lemma EntriesListed(d: Details, items: seq<Value>)
    ensures ListedByPlace(Collect(items, BindingScan(d)), Nested(EntryEarns(d, items), |items|))
  {
    forall k: nat | k < |items| ensures ListedByPlace(BindingScan(d)(k, items[k]), EntryEarns(d, items)(k)) {
      EntryListed(d, items, k);
    }
    CollectLists(items, BindingScan(d), EntryEarns(d, items));
  }

  predicate BindingOfCriterion(o: Options, owner: Owner, j: nat, v: Value, k: nat, b: Binding) {
    var evidence := Field(v, "evidence");
    IsReadable(v) && Field(v, "checked") == Boolean(true) && owner.role in RequiredRoleList(o) &&
    evidence.List? && k < |evidence.items| && BindingOfEntry(DetailsOf(owner, j, v), k, evidence.items[k], b)
  }

  function CriterionEarns(o: Options, owner: Owner, criteria: seq<Value>): nat -> ((Place, Binding) -> bool) {
    (j: nat) => (p: Place, b: Binding) =>
      |p| == 1 && j < |criteria| && BindingOfCriterion(o, owner, j, criteria[j], p[0], b)
  }

  lemma EntryPlaces(o: Options, owner: Owner, criteria: seq<Value>, j: nat, p: Place, b: Binding)
    requires j < |criteria| && owner.role in RequiredRoleList(o) && HasEvidence(Field(criteria[j], "evidence"))
    requires CriterionWellFormed(criteria[j]) && IsChecked(criteria[j])
    ensures var items := Field(criteria[j], "evidence").items;
      Nested(EntryEarns(DetailsOf(owner, j, criteria[j]), items), |items|)(p, b) <==>
      CriterionEarns(o, owner, criteria)(j)(p, b)
  {
    if p != [] { assert |p[1..]| == |p| - 1; }
  }

  lemma CriterionListed(o: Options, owner: Owner, criteria: seq<Value>, j: nat)
    requires j < |criteria|
    ensures ListedByPlace(CriterionBindings(o, owner, j, criteria[j]), CriterionEarns(o, owner, criteria)(j))
  {
    var v, earns := criteria[j], CriterionEarns(o, owner, criteria)(j);
    var evidence := Field(v, "evidence");
    if CriterionWellFormed(v) && IsChecked(v) && owner.role in RequiredRoleList(o) && HasEvidence(evidence) {
      var d := DetailsOf(owner, j, v);
      EntriesListed(d, evidence.items);
      forall p, b ensures Nested(EntryEarns(d, evidence.items), |evidence.items|)(p, b) <==> earns(p, b) {
        EntryPlaces(o, owner, criteria, j, p, b);
      }
      SamePlaces(Collect(evidence.items, BindingScan(d)), Nested(EntryEarns(d, evidence.items), |evidence.items|),
                 earns);
    } else {
      NothingListed(earns);
    }
  }

  predicate BindingOfCheckpoint(o: Options, i: nat, raw: Value, j: nat, k: nat, b: Binding) {
    j < |CriteriaOf(raw)| && BindingOfCriterion(o, OwnerOf(i, raw), j, CriteriaOf(raw)[j], k, b)
  }

  function CheckpointEarns(o: Options, items: seq<Value>): nat -> ((Place, Binding) -> bool) {
    (i: nat) => (p: Place, b: Binding) =>
      |p| == 2 && i < |items| && BindingOfCheckpoint(o, i, items[i], p[0], p[1], b)
  }

  lemma CheckpointListed(o: Options, items: seq<Value>, i: nat)
    requires i < |items|
    ensures ListedByPlace(CheckpointBindings(o, i, items[i]), CheckpointEarns(o, items)(i))
  {
    var owner, criteria := OwnerOf(i, items[i]), CriteriaOf(items[i]);
    forall j: nat | j < |criteria|
      ensures ListedByPlace(CriterionBindingScan(o, owner)(j, criteria[j]), CriterionEarns(o, owner, criteria)(j))
    {
      CriterionListed(o, owner, criteria, j);
    }
    CollectLists(criteria, CriterionBindingScan(o, owner), CriterionEarns(o, owner, criteria));
    SamePlaces(Collect(criteria, CriterionBindingScan(o, owner)),
               Nested(CriterionEarns(o, owner, criteria), |criteria|), CheckpointEarns(o, items)(i));
  }

  lemma BindingAtExact(o: Options, checkpoints: Value, i: nat, j: nat, k: nat, b: Binding)
    ensures i < |Items(checkpoints)| && BindingOfCheckpoint(o, i, Items(checkpoints)[i], j, k, b) <==>
      IsBindingAt(o, checkpoints, i, j, k, b)
  {
    if i < |Items(checkpoints)| { RequiredRoleExact(o, OwnerOf(i, Items(checkpoints)[i]).role); }
  }

  /** The bindings of a reduction are those of all places that earn one, in the order of these places. */
  lemma BindingsListed(o: Options, checkpoints: Value)
    ensures ListedByPlace(Collect(Items(checkpoints), BindingsScan(o)), BindingAt(o, checkpoints))
  {
    var items := Items(checkpoints);
    forall i: nat | i < |items|
      ensures ListedByPlace(BindingsScan(o)(i, items[i]), CheckpointEarns(o, items)(i))
    {
      CheckpointListed(o, items, i);
    }
    CollectLists(items, BindingsScan(o), CheckpointEarns(o, items));
    forall p, b
      ensures Nested(CheckpointEarns(o, items), |items|)(p, b) <==> BindingAt(o, checkpoints)(p, b)
    {
      if |p| == 3 { BindingAtExact(o, checkpoints, p[0], p[1], p[2], b); }
    }
    SamePlaces(Collect(items, BindingsScan(o)), Nested(CheckpointEarns(o, items), |items|),
               BindingAt(o, checkpoints));
  }

  lemma OneBindingEach(o: Options, checkpoints: Value)
    ensures OneEach(BindingAt(o, checkpoints))
  {
    forall p, a, b | BindingAt(o, checkpoints)(p, a) && BindingAt(o, checkpoints)(p, b) ensures a == b {
      OneBindingAt(o, checkpoints, p[0], p[1], p[2], a, b);
    }
  }

  lemma OneBindingAt(o: Options, checkpoints: Value, i: nat, j: nat, k: nat, a: Binding, b: Binding)
    requires IsBindingAt(o, checkpoints, i, j, k, a) && IsBindingAt(o, checkpoints, i, j, k, b)
    ensures a == b
  {
  }

  ghost predicate IsBound(o: Options, checkpoints: Value, b: Binding) {
    exists i: nat, j: nat, k: nat :: IsBindingAt(o, checkpoints, i, j, k, b)
  }

  lemma PlaceIsIndices(o: Options, checkpoints: Value, p: Place, b: Binding)
    requires BindingAt(o, checkpoints)(p, b)
    ensures IsBound(o, checkpoints, b)
  {
    assert IsBindingAt(o, checkpoints, p[0], p[1], p[2], b);
  }

  lemma IndicesArePlace(o: Options, checkpoints: Value, i: nat, j: nat, k: nat, b: Binding) returns (p: Place)
    requires IsBindingAt(o, checkpoints, i, j, k, b)
    ensures BindingAt(o, checkpoints)(p, b)
  {
    p := [i] + [j] + [k];
    assert p[0] == i && p[1] == j && p[2] == k;
  }

  lemma BoundByPlace(o: Options, checkpoints: Value, b: Binding)
    ensures IsBound(o, checkpoints, b) <==> exists p :: BindingAt(o, checkpoints)(p, b)
  {
    forall p | BindingAt(o, checkpoints)(p, b) ensures IsBound(o, checkpoints, b) {
      PlaceIsIndices(o, checkpoints, p, b);
    }
    if IsBound(o, checkpoints, b) {
      var i: nat, j: nat, k: nat :| IsBindingAt(o, checkpoints, i, j, k, b);
      var p := IndicesArePlace(o, checkpoints, i, j, k, b);
    }
  }

  /** A binding is listed exactly when some evidence entry earns it. */
  lemma BindingsExact(o: Options, checkpoints: Value, b: Binding)
    ensures b in Collect(Items(checkpoints), BindingsScan(o)) <==> IsBound(o, checkpoints, b)
  {
    BindingsListed(o, checkpoints);
    OneBindingEach(o, checkpoints);
    ListedMembers(Collect(Items(checkpoints), BindingsScan(o)), BindingAt(o, checkpoints), b);
    BoundByPlace(o, checkpoints, b);
  }

  // ----- open checkpoints

  /** A checkpoint is open unless it has the status that counts as completed. */
  predicate IsOpen(o: Options, i: nat, raw: Value, c: OpenCheckpoint) {
    var status := TextOf(Field(raw, "status"));
    status != o.completedStatus && GoesBy(raw, i, c.id, c.role) &&
    c.status == if status == "" then "invalid" else status
  }

  function OpenAt(o: Options, checkpoints: Value): (Place, OpenCheckpoint) -> bool {
    (p: Place, c: OpenCheckpoint) =>
      |p| == 1 && p[0] < |Items(checkpoints)| && IsOpen(o, p[0], Items(checkpoints)[p[0]], c)
  }

  function OpenEarns(o: Options, items: seq<Value>): nat -> ((Place, OpenCheckpoint) -> bool) {
    (i: nat) => (p: Place, c: OpenCheckpoint) => p == [] && i < |items| && IsOpen(o, i, items[i], c)
  }

  lemma OneOpenListed(o: Options, items: seq<Value>, i: nat)
    requires i < |items|
    ensures ListedByPlace(OpenItems(o, i, items[i]), OpenEarns(o, items)(i))
  {
    var earns, open := OpenEarns(o, items)(i), OpenItems(o, i, items[i]);
    if open == [] {
      NothingListed(earns);
    } else {
      var here: Place := [];
      assert IsOpen(o, i, items[i], open[0]) && earns(here, open[0]);
      OneListed(open[0], earns);
    }
  }

  /** The open checkpoints are listed in order, each with its id, role and status. */
  lemma OpenListed(o: Options, checkpoints: Value)
    ensures ListedByPlace(Collect(Items(checkpoints), OpenScan(o)), OpenAt(o, checkpoints))
  {
    var items := Items(checkpoints);
    forall i: nat | i < |items| ensures ListedByPlace(OpenScan(o)(i, items[i]), OpenEarns(o, items)(i)) {
      OneOpenListed(o, items, i);
    }
    CollectLists(items, OpenScan(o), OpenEarns(o, items));
    SamePlaces(Collect(items, OpenScan(o)), Nested(OpenEarns(o, items), |items|), OpenAt(o, checkpoints));
  }

  // ----- external blockers

  /** The blocker repeats what the criterion gives; the evidence required is named once each. */
  ghost predicate Repeats(raw: Value, b: Blocker) {
    Field(raw, "kind") == Str("external-evidence") && b.code == StringOf(Field(raw, "code")) && IsSlug(b.code) &&
    b.description == StringOf(Field(raw, "description")) != "" &&
    b.verificationCommand == StringOf(Field(raw, "verificationCommand")) != "" &&
    !IsSelfReferential(b.verificationCommand) && b.requiredEvidence != [] && Distinct(b.requiredEvidence) &&
    forall x :: x in b.requiredEvidence <==>
      x != "" && exists v | v in Items(Field(raw, "requiredEvidence")) :: StringOf(v) == x
  }

  lemma RequiredEvidenceExact(v: Value)
    ensures var names := UniqueStrings(StringItems(v));
      Distinct(names) && forall x :: x in names <==> x != "" && exists item | item in Items(v) :: StringOf(item) == x
  {
    var names := UniqueStrings(StringItems(v));
    StringItemsTrimmed(v);
    UniqueStringsOfTrimmed(StringItems(v));
    forall x ensures x in names <==> x != "" && exists item | item in Items(v) :: StringOf(item) == x {
      assert x in names <==> x in ToSet(names);
      assert x in StringItems(v) <==> x in ToSet(StringItems(v));
      StringItemsMember(v, x);
      if item :| item in Items(v) && StringOf(item) == x {
        var i :| 0 <= i < |Items(v)| && Items(v)[i] == item;
      }
    }
  }

  lemma SomeMember(names: seq<string>)
    ensures names != [] ==> exists x :: x in names
  {
    if names != [] { assert names[0] in names; }
  }

  lemma BlockerRepeats(raw: Value, d: Details)
    ensures var r := ValidateExternalBlocker(raw, d);
      (r.Some? ==> Repeats(raw, r.value) && r.value.checkpointId == d.checkpointId && r.value.role == d.role &&
                   r.value.criterionIndex == d.criterionIndex) &&
      (r.None? ==> forall b :: !Repeats(raw, b))
  {
    RequiredEvidenceExact(Field(raw, "requiredEvidence"));
    RequiredEvidencePresent(Field(raw, "requiredEvidence"));
    if ValidateExternalBlocker(raw, d).None? {
      forall b ensures !Repeats(raw, b) { SomeMember(b.requiredEvidence); }
    }
  }

  /** A readable criterion that is not checked and names a blocker that is acceptable. */
  ghost predicate IsBlocker(i: nat, raw: Value, j: nat, b: Blocker) {
    var criteria := Items(Field(raw, "acceptance_criteria"));
    j < |criteria| && IsReadable(criteria[j]) && Field(criteria[j], "checked") != Boolean(true) &&
    Field(criteria[j], "blocker") != Undefined && Repeats(Field(criteria[j], "blocker"), b) &&
    GoesBy(raw, i, b.checkpointId, b.role) && b.criterionIndex == j
  }

  ghost function BlockerAt(checkpoints: Value): (Place, Blocker) -> bool {
    (p: Place, b: Blocker) =>
      |p| == 2 && p[0] < |Items(checkpoints)| && IsBlocker(p[0], Items(checkpoints)[p[0]], p[1], b)
  }

  ghost function CriterionBlocks(i: nat, raw: Value): nat -> ((Place, Blocker) -> bool) {
    (j: nat) => (p: Place, b: Blocker) => p == [] && IsBlocker(i, raw, j, b)
  }

  lemma CriterionBlockerListed(i: nat, raw: Value, j: nat)
    requires j < |CriteriaOf(raw)|
    ensures ListedByPlace(CriterionBlockers(OwnerOf(i, raw), j, CriteriaOf(raw)[j]), CriterionBlocks(i, raw)(j))
  {
    var earns, v := CriterionBlocks(i, raw)(j), CriteriaOf(raw)[j];
    var d := DetailsOf(OwnerOf(i, raw), j, v);
    BlockerRepeats(Field(v, "blocker"), d);
    var listed := CriterionBlockers(OwnerOf(i, raw), j, v);
    if listed == [] {
      NothingListed(earns);
    } else {
      var here: Place := [];
      assert IsBlocker(i, raw, j, listed[0]) && earns(here, listed[0]);
      OneListed(listed[0], earns);
    }
  }

  ghost function CheckpointBlocks(items: seq<Value>): nat -> ((Place, Blocker) -> bool) {
    (i: nat) => (p: Place, b: Blocker) => |p| == 1 && i < |items| && IsBlocker(i, items[i], p[0], b)
  }

  lemma CheckpointBlockersListed(items: seq<Value>, i: nat)
    requires i < |items|
    ensures ListedByPlace(CheckpointBlockers(i, items[i]), CheckpointBlocks(items)(i))
  {
    var raw := items[i];
    var criteria, scan := CriteriaOf(raw), CriterionBlockerScan(OwnerOf(i, raw));
    forall j: nat | j < |criteria| ensures ListedByPlace(scan(j, criteria[j]), CriterionBlocks(i, raw)(j)) {
      CriterionBlockerListed(i, raw, j);
    }
    CollectLists(criteria, scan, CriterionBlocks(i, raw));
    SamePlaces(Collect(criteria, scan), Nested(CriterionBlocks(i, raw), |criteria|), CheckpointBlocks(items)(i));
  }

  /** The blockers are those of all criteria that are validly blocked, in order, each repeating what was given. */
  lemma BlockersListed(checkpoints: Value)
    ensures ListedByPlace(Collect(Items(checkpoints), BlockerScan()), BlockerAt(checkpoints))
  {
    var items := Items(checkpoints);
    forall i: nat | i < |items| ensures ListedByPlace(BlockerScan()(i, items[i]), CheckpointBlocks(items)(i)) {
      CheckpointBlockersListed(items, i);
    }
    CollectLists(items, BlockerScan(), CheckpointBlocks(items));
    SamePlaces(Collect(items, BlockerScan()), Nested(CheckpointBlocks(items), |items|), BlockerAt(checkpoints));
  }

  // ----- unchecked criteria

  /** Why a criterion does not count as checked. */
  predicate IsUnchecked(criterion: Value, reason: Reason, text: string) {
    var readable, blocker := IsReadable(criterion), Field(criterion, "blocker");
    var open := readable && Field(criterion, "checked") != Boolean(true);
    match reason
    case Invalid => !readable && text == ""
    case ExternalEvidenceMissing =>
      open && blocker != Undefined && BlockerAccepted(blocker) && text == StringOf(Field(criterion, "text"))
    case InvalidExternalBlocker =>
      open && blocker != Undefined && !BlockerAccepted(blocker) && text == StringOf(Field(criterion, "text"))
    case NotChecked => open && blocker == Undefined && text == StringOf(Field(criterion, "text"))
    case CriteriaMissing => false
  }

  predicate IsUncheckedCriterion(i: nat, raw: Value, j: nat, u: Unchecked) {
    var criteria := Items(Field(raw, "acceptance_criteria"));
    j < |criteria| && IsUnchecked(criteria[j], u.reason, u.text) && GoesBy(raw, i, u.checkpointId, u.role) &&
    u.criterionIndex == Some(j)
  }

  predicate IsWithoutCriteria(i: nat, raw: Value, u: Unchecked) {
    Items(Field(raw, "acceptance_criteria")) == [] && GoesBy(raw, i, u.checkpointId, u.role) &&
    u.criterionIndex == None && u.reason == CriteriaMissing && u.text == ""
  }

  function UncheckedAt(checkpoints: Value): (Place, Unchecked) -> bool {
    (p: Place, u: Unchecked) =>
      p != [] && p[0] < |Items(checkpoints)| &&
      ((|p| == 1 && IsWithoutCriteria(p[0], Items(checkpoints)[p[0]], u)) ||
       (|p| == 2 && IsUncheckedCriterion(p[0], Items(checkpoints)[p[0]], p[1], u)))
  }

  function CriterionMissing(i: nat, raw: Value): nat -> ((Place, Unchecked) -> bool) {
    (j: nat) => (p: Place, u: Unchecked) => p == [] && IsUncheckedCriterion(i, raw, j, u)
  }

  /** At most one item is made, and it fits the criterion; none is made only where none fits. */
  lemma UncheckedItemFits(owner: Owner, j: nat, v: Value)
    ensures var listed := CriterionUncheckedItems(owner, j, v);
            (listed == [] ==> forall reason, text :: !IsUnchecked(v, reason, text)) &&
            (listed != [] ==>
              |listed| == 1 && IsUnchecked(v, listed[0].reason, listed[0].text) &&
              listed[0].checkpointId == owner.id && listed[0].role == owner.role &&
              listed[0].criterionIndex == Some(j))
  {
    assert IsReadable(v) <==> CriterionWellFormed(v);
    assert HasBlocker(v) <==> Field(v, "blocker") != Undefined;
  }

  lemma CriterionUncheckedListed(i: nat, raw: Value, j: nat)
    requires j < |CriteriaOf(raw)|
    ensures ListedByPlace(CriterionUncheckedItems(OwnerOf(i, raw), j, CriteriaOf(raw)[j]), CriterionMissing(i, raw)(j))
  {
    var earns, v := CriterionMissing(i, raw)(j), CriteriaOf(raw)[j];
    var listed := CriterionUncheckedItems(OwnerOf(i, raw), j, v);
    UncheckedItemFits(OwnerOf(i, raw), j, v);
    if listed == [] {
      NothingListed(earns);
    } else {
      var here: Place := [];
      assert IsUncheckedCriterion(i, raw, j, listed[0]) && earns(here, listed[0]);
      OneListed(listed[0], earns);
    }
  }

  function CheckpointMissing(items: seq<Value>): nat -> ((Place, Unchecked) -> bool) {
    (i: nat) => (p: Place, u: Unchecked) =>
      i < |items| &&
      ((p == [] && IsWithoutCriteria(i, items[i], u)) || (|p| == 1 && IsUncheckedCriterion(i, items[i], p[0], u)))
  }

  lemma MissingPlaces(items: seq<Value>, i: nat, p: Place, u: Unchecked)
    requires i < |items| && CriteriaOf(items[i]) != []
    ensures Nested(CriterionMissing(i, items[i]), |CriteriaOf(items[i])|)(p, u) <==>
            CheckpointMissing(items)(i)(p, u)
  {
    var raw := items[i];
    assert !IsWithoutCriteria(i, raw, u);
    assert CheckpointMissing(items)(i)(p, u) ==> |p| == 1;
    assert CheckpointMissing(items)(i)(p, u) ==> |p| == 1 && IsUncheckedCriterion(i, raw, p[0], u);
    assert |p| == 1 && IsUncheckedCriterion(i, raw, p[0], u) ==> CheckpointMissing(items)(i)(p, u);
    if |p| == 1 {
      assert p[1..] == [];
      assert Nested(CriterionMissing(i, raw), |CriteriaOf(raw)|)(p, u) <==> IsUncheckedCriterion(i, raw, p[0], u);
    } else if p != [] {
      assert |p[1..]| > 0;
    }
  }

  lemma CheckpointUncheckedListed(items: seq<Value>, i: nat)
    requires i < |items|
    ensures ListedByPlace(CheckpointUnchecked(i, items[i]), CheckpointMissing(items)(i))
  {
    var raw, earns := items[i], CheckpointMissing(items)(i);
    var owner, criteria := OwnerOf(i, raw), CriteriaOf(raw);
    var scan := CriterionUncheckedScan(owner);
    if criteria == [] {
      var here: Place := [];
      var u := Unchecked(owner.id, owner.role, None, CriteriaMissing, "");
      assert IsWithoutCriteria(i, raw, u) && earns(here, u);
      OneListed(u, earns);
      assert Collect(criteria, scan) == [];
      assert CheckpointUnchecked(i, raw) == [u];
    } else {
      forall j: nat | j < |criteria| ensures ListedByPlace(scan(j, criteria[j]), CriterionMissing(i, raw)(j)) {
        CriterionUncheckedListed(i, raw, j);
      }
      CollectLists(criteria, scan, CriterionMissing(i, raw));
      forall p, u ensures Nested(CriterionMissing(i, raw), |criteria|)(p, u) <==> earns(p, u) {
        MissingPlaces(items, i, p, u);
      }
      SamePlaces(Collect(criteria, scan), Nested(CriterionMissing(i, raw), |criteria|), earns);
      assert CheckpointUnchecked(i, raw) == Collect(criteria, scan);
    }
  }

  /** Every criterion that is not checked is listed with the reason, and so is every checkpoint without criteria. */
  lemma UncheckedListed(checkpoints: Value)
    ensures ListedByPlace(Collect(Items(checkpoints), UncheckedScan()), UncheckedAt(checkpoints))
  {
    var items := Items(checkpoints);
    forall i: nat | i < |items| ensures ListedByPlace(UncheckedScan()(i, items[i]), CheckpointMissing(items)(i)) {
      CheckpointUncheckedListed(items, i);
    }
    CollectLists(items, UncheckedScan(), CheckpointMissing(items));
    forall p, u ensures Nested(CheckpointMissing(items), |items|)(p, u) <==> UncheckedAt(checkpoints)(p, u) {
      if p != [] && p[0] < |items| { UncheckedPlaces(items, p, u); }
    }
    SamePlaces(Collect(items, UncheckedScan()), Nested(CheckpointMissing(items), |items|), UncheckedAt(checkpoints));
  }

  lemma UncheckedPlaces(items: seq<Value>, p: Place, u: Unchecked)
    requires p != [] && p[0] < |items|
    ensures CheckpointMissing(items)(p[0])(p[1..], u) <==>
      (|p| == 1 && IsWithoutCriteria(p[0], items[p[0]], u)) ||
      (|p| == 2 && IsUncheckedCriterion(p[0], items[p[0]], p[1], u))
  {
  }
}
