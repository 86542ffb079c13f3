/**
 * What the capability checkpoint reducer records about each checkpoint and about the graph of all of
 * them, as functions of the parsed input, and the declarative conditions those records stand for.
 */
module CheckpointRules {
  import opened Sequences
  import opened Text
  import opened Graphs
  import opened Json

  const EXTERNAL_BLOCKER_KIND := "external-evidence"
  const BLOCKED_STATUS := "blocked"
  const IMPLEMENTATION := "implementation"
  const FINAL_VALIDATION := "final_validation"

  /** The options of a reduction; the command authority maps a command id to its entry. */
  datatype Options = Options(
    requiredRoles: seq<string>,
    allowedStatuses: seq<string>,
    completedStatus: string,
    authority: map<string, Value>)

  const DEFAULT_REQUIRED_ROLES := [IMPLEMENTATION, FINAL_VALIDATION]

  function RequiredRoleList(o: Options): seq<string> {
    UniqueStrings(o.requiredRoles)
  }

  datatype Category = Structure | Evidence | Authority | Blocking | Topology | Status | Criteria | Role

  datatype Code =
    | CheckpointsNotArray | CheckpointsEmpty
    | CheckpointNotObject | IdMissing | RoleMissing | StatusInvalid
    | PrerequisitesNotArray | PrerequisiteIdInvalid | PrerequisiteDuplicate
    | AcceptanceCriteriaMissing | CriterionInvalid | CriterionUnchecked
    | CheckedCriterionHasBlocker | CompletedWithBlockedCriterion | ExternalBlockerInvalid
    | EvidenceMissing | EvidenceCommandForbidden | EvidenceCommandIdInvalid
    | EvidenceCommandIdUnknown | EvidenceReportInvalid | EvidenceReportNotOwned
    | NotCompleted | BlockedWithoutExternalEvidence
    | IdDuplicate | PrerequisiteMissing | SelfReference | CompletedBeforePrerequisite | PrerequisiteCycle
    | RequiredRoleMissing | RequiredRoleDuplicate | MissingImplementationDependency

  /** A finding; `cycle` is the walk that the message of a cycle finding spells out. */
  datatype Finding = Finding(
    code: Code,
    category: Category,
    checkpointId: string,
    role: string,
    prerequisiteId: string,
    criterionIndex: Option<nat>,
    criterionText: string,
    cycle: seq<string>)

  function Report(code: Code, category: Category, checkpointId: string, role: string): Finding {
    Finding(code, category, checkpointId, role, "", None, "", [])
  }

  function When<T>(condition: bool, item: T): seq<T> {
    if condition then [item] else []
  }

  // ----- evidence and blockers of one criterion

  datatype Details = Details(checkpointId: string, role: string, criterionIndex: nat, criterionText: string)

  function ReportAt(code: Code, category: Category, d: Details): Finding {
    Report(code, category, d.checkpointId, d.role)
      .(criterionIndex := Some(d.criterionIndex), criterionText := d.criterionText)
  }

  datatype Binding = Binding(
    acceptanceCommandId: string,
    report: string,
    checkpointId: string,
    role: string,
    criterionIndex: nat,
    evidenceIndex: nat)

  datatype Blocker = Blocker(
    code: string,
    description: string,
    requiredEvidence: seq<string>,
    verificationCommand: string,
    checkpointId: string,
    role: string,
    criterionIndex: nat)

  predicate IsLowerOrDigit(c: char) {
    'a' <= c <= 'z' || '0' <= c <= '9'
  }

  /** `^[a-z0-9]+(?:-[a-z0-9]+)*$` */
  predicate IsSlug(s: string) {
    forall part | part in Split(s, '-') :: IsPiece(part)
  }

  /** Lower-case letters, digits and single hyphens between them. */
  predicate IsHyphenated(s: string) {
    s != "" && s[0] != '-' && s[|s| - 1] != '-' && (forall i | 0 <= i < |s| :: IsLowerOrDigit(s[i]) || s[i] == '-') &&
    forall i | 0 <= i < |s| - 1 :: s[i] != '-' || s[i + 1] != '-'
  }

  predicate IsPiece(part: string) {
    part != "" && forall c | c in part :: IsLowerOrDigit(c)
  }

  lemma SlugCons(x: char, first: string, others: seq<string>)
    requires x != '-'
    ensures (forall part | part in [[x] + first] + others :: IsPiece(part)) <==>
      IsLowerOrDigit(x) && (first == "" || IsPiece(first)) && forall part | part in others :: IsPiece(part)
  {
    var head := [x] + first;
    PieceCons(x, first);
    assert forall part :: part in [head] + others <==> part == head || part in others;
  }

  lemma PieceCons(x: char, first: string)
    ensures IsPiece([x] + first) <==> IsLowerOrDigit(x) && (first == "" || IsPiece(first))
  {
    var head := [x] + first;
    assert forall c :: c in head <==> c == x || c in first;
    assert head != "";
  }

  /** A slug goes on after its first character with nothing, with another slug, or with a hyphen and one. */
  lemma SlugStep(s: string)
    requires s != ""
    ensures IsSlug(s) <==>
      IsLowerOrDigit(s[0]) && (|s| == 1 || IsSlug(s[1..]) || (s[1] == '-' && IsSlug(s[2..])))
  {
    var x, rest := s[0], s[1..];
    var parts := Split(rest, '-');
    if x == '-' {
      assert Split(s, '-')[0] == "" && Split(s, '-')[0] in Split(s, '-');
    } else {
      SlugCons(x, parts[0], parts[1..]);
      assert parts == [parts[0]] + parts[1..];
      assert forall part :: part in parts <==> part == parts[0] || part in parts[1..];
      if rest != "" && rest[0] == '-' {
        assert parts[0] == "" && parts[1..] == Split(rest[1..], '-');
        assert s[2..] == rest[1..];
      }
    }
  }

  lemma HyphenatedStep(s: string)
    requires s != ""
    ensures IsHyphenated(s) <==>
      IsLowerOrDigit(s[0]) && (|s| == 1 || IsHyphenated(s[1..]) || (s[1] == '-' && IsHyphenated(s[2..])))
  {
    if |s| > 1 {
      var t := s[1..];
      assert forall i | 0 <= i < |t| :: t[i] == s[i + 1];
      assert s[0] in s && forall i | 1 <= i < |s| :: s[i] == t[i - 1];
      if |s| > 2 {
        var u := s[2..];
        assert forall i | 0 <= i < |u| :: u[i] == s[i + 2];
        assert forall i | 2 <= i < |s| :: s[i] == u[i - 2];
      }
    }
  }

  lemma {:induction false} SlugExact(s: string)
    ensures IsSlug(s) <==> IsHyphenated(s)
    decreases |s|
  {
    if s != "" {
      SlugStep(s);
      HyphenatedStep(s);
      SlugExact(s[1..]);
      if |s| > 1 { SlugExact(s[2..]); }
    } else {
      assert Split(s, '-')[0] == "" && Split(s, '-')[0] in Split(s, '-');
    }
  }

  predicate IsReportChar(c: char) {
    IsLowerOrDigit(c) || 'A' <= c <= 'Z' || c in "._/-"
  }

  const REPORT_ROOT := "build/reports/"
  const REPORT_SUFFIX := ".json"

  /** `^build/reports/[A-Za-z0-9._/-]+\.json$` */
  predicate IsReportPath(s: string) {
    |s| > |REPORT_ROOT| + |REPORT_SUFFIX| && StartsWith(s, REPORT_ROOT) && EndsWith(s, REPORT_SUFFIX) &&
    forall i | |REPORT_ROOT| <= i < |s| - |REPORT_SUFFIX| :: IsReportChar(s[i])
  }

  /** What follows `word` and at least one space at the start of `s`. */
  function AfterWord(s: string, word: string): Option<string> {
    if StartsWith(s, word) && |s| > |word| && IsSpace(s[|word|]) then Some(TrimStart(s[|word|..])) else None
  }

  predicate StartsWithToken(s: string, token: string) {
    StartsWith(s, token) && (|s| == |token| || IsSpace(s[|token|]))
  }

  const VERIFIER_PATH := "tools/server-scripts/verify-capability-acceptance-machines.ts"

  /** The command starts with the two words and the script, as the pattern looks for them. */
  predicate FindsScript(command: string, script: string) {
    match AfterWord(command, "npm")
    case None => false
    case Some(rest) =>
      match AfterWord(rest, "run")
      case None => false
      case Some(found) => StartsWithToken(found, script)
  }

  predicate FindsVerifierAt(command: string, i: nat) {
    i < |command| && (i == 0 || IsSpace(command[i - 1])) && StartsWithToken(command[i..], VERIFIER_PATH)
  }

  /** Commands that would make the acceptance verifier its own evidence. */
  predicate IsSelfReferential(command: string) {
    FindsScript(command, "verify:acceptance") || FindsScript(command, "verify:capability-acceptance-machines") ||
    exists i | 0 <= i < |command| :: FindsVerifierAt(command, i)
  }

  /** White space that separates two words. */
  predicate IsGap(s: string) {
    s != "" && forall c | c in s :: IsSpace(c)
  }

  /** What may follow a complete word. */
  predicate EndsWord(rest: string) {
    rest == "" || IsSpace(rest[0])
  }

  predicate RunsScript(command: string, first: string, second: string, script: string, rest: string) {
    command == "npm" + first + ("run" + second + (script + rest)) && IsGap(first) && IsGap(second) && EndsWord(rest)
  }

  predicate NamesVerifier(command: string, before: string, rest: string) {
    command == before + (VERIFIER_PATH + rest) && EndsWord(rest) && (before == "" || IsSpace(before[|before| - 1]))
  }

  /** The command runs the npm script, whatever the spacing and whatever follows. */
  ghost predicate Runs(command: string, script: string) {
    exists first, second, rest :: RunsScript(command, first, second, script, rest)
  }

  predicate Separates(s: string, word: string, gap: string, t: string) {
    s == word + gap + t && IsGap(gap)
  }

  lemma AfterWordExact(s: string, word: string, t: string)
    requires t != "" && !IsSpace(t[0])
    ensures AfterWord(s, word) == Some(t) <==> exists gap :: Separates(s, word, gap, t)
  {
    if AfterWord(s, word) == Some(t) {
      var gap := TrimmedStart(s[|word|..]);
      assert s == word + s[|word|..] && gap + t == s[|word|..];
      assert Separates(s, word, gap, t);
    }
    if gap :| Separates(s, word, gap, t) {
      assert s[|word|..] == gap + t && s[|word|] == gap[0] && gap[0] in gap;
      TrimStartOf(gap, t);
    }
  }

  lemma TokenExact(s: string, token: string)
    ensures StartsWithToken(s, token) <==> exists rest :: s == token + rest && EndsWord(rest)
  {
    if StartsWithToken(s, token) {
      assert s == token + s[|token|..] && EndsWord(s[|token|..]);
    }
  }

  lemma FoundScriptRuns(command: string, script: string)
    requires script != "" && !IsSpace(script[0]) && FindsScript(command, script)
    ensures Runs(command, script)
  {
    var after := AfterWord(command, "npm").value;
    var found := AfterWord(after, "run").value;
    TokenExact(found, script);
    var rest :| found == script + rest && EndsWord(rest);
    AfterWordExact(after, "run", found);
    var second :| Separates(after, "run", second, found);
    assert after[0] == 'r';
    AfterWordExact(command, "npm", after);
    var first :| Separates(command, "npm", first, after);
    assert after == "run" + second + (script + rest);
    assert RunsScript(command, first, second, script, rest);
  }

  lemma RunScriptIsFound(command: string, first: string, second: string, script: string, rest: string)
    requires script != "" && !IsSpace(script[0]) && RunsScript(command, first, second, script, rest)
    ensures FindsScript(command, script)
  {
    var found := script + rest;
    var after := "run" + second + found;
    assert found[0] == script[0] && after[0] == 'r';
    assert Separates(command, "npm", first, after);
    AfterWordExact(command, "npm", after);
    assert Separates(after, "run", second, found);
    AfterWordExact(after, "run", found);
    TokenExact(found, script);
  }

  lemma VerifierExact(command: string)
    ensures (exists i: nat :: FindsVerifierAt(command, i)) <==>
      exists before, rest :: NamesVerifier(command, before, rest)
  {
    if i: nat :| FindsVerifierAt(command, i) {
      TokenExact(command[i..], VERIFIER_PATH);
      var rest :| command[i..] == VERIFIER_PATH + rest && EndsWord(rest);
      assert command == command[..i] + command[i..];
      assert NamesVerifier(command, command[..i], rest);
    }
    if before, rest :| NamesVerifier(command, before, rest) {
      var i := |before|;
      assert command[i..] == VERIFIER_PATH + rest;
      TokenExact(command[i..], VERIFIER_PATH);
      assert FindsVerifierAt(command, i);
    }
  }

  /** A command is self-referential exactly when it runs one of two scripts or names the verifier as a word. */
  lemma SelfReferentialExact(command: string)
    ensures IsSelfReferential(command) <==>
      Runs(command, "verify:acceptance") || Runs(command, "verify:capability-acceptance-machines") ||
      exists before, rest :: NamesVerifier(command, before, rest)
  {
    ScriptExact(command, "verify:acceptance");
    ScriptExact(command, "verify:capability-acceptance-machines");
    VerifierExact(command);
  }

  lemma ScriptExact(command: string, script: string)
    requires script != "" && !IsSpace(script[0])
    ensures FindsScript(command, script) <==> Runs(command, script)
  {
    if FindsScript(command, script) { FoundScriptRuns(command, script); }
    if first, second, rest :| RunsScript(command, first, second, script, rest) {
      RunScriptIsFound(command, first, second, script, rest);
    }
  }

  predicate NamesReport(s: string, middle: string) {
    s == REPORT_ROOT + middle + REPORT_SUFFIX && middle != "" &&
    forall c | c in middle :: 'a' <= c <= 'z' || 'A' <= c <= 'Z' || '0' <= c <= '9' || c in {'.', '_', '/', '-'}
  }

  lemma ReportPathIsNamed(s: string, root: string, suffix: string) returns (middle: string)
    requires |s| > |root| + |suffix| && StartsWith(s, root) && EndsWith(s, suffix)
    ensures s == root + middle + suffix && middle != ""
    ensures forall i | 0 <= i < |middle| :: middle[i] == s[|root| + i]
  {
    middle := s[|root|..|s| - |suffix|];
    assert s == s[..|root|] + middle + s[|s| - |suffix|..];
  }

  lemma NamedIsReportPath(s: string, root: string, middle: string, suffix: string)
    requires s == root + middle + suffix && middle != ""
    ensures |s| > |root| + |suffix| && StartsWith(s, root) && EndsWith(s, suffix)
    ensures forall i | |root| <= i < |s| - |suffix| :: s[i] == middle[i - |root|]
  {
    assert s == root + (middle + suffix);
  }

  /** A report path is a JSON file below `build/reports`, spelled with these characters. */
  lemma ReportPathExact(s: string)
    ensures IsReportPath(s) <==> exists middle :: NamesReport(s, middle)
  {
    if IsReportPath(s) {
      var middle := ReportPathIsNamed(s, REPORT_ROOT, REPORT_SUFFIX);
      forall c | c in middle ensures IsReportChar(c) {
        var i :| 0 <= i < |middle| && middle[i] == c;
        assert IsReportChar(s[|REPORT_ROOT| + i]);
      }
      assert NamesReport(s, middle);
    }
    if middle :| NamesReport(s, middle) {
      NamedIsReportPath(s, REPORT_ROOT, middle, REPORT_SUFFIX);
      forall i | |REPORT_ROOT| <= i < |s| - |REPORT_SUFFIX| ensures IsReportChar(s[i]) {
        assert s[i] in middle;
      }
    }
  }

  function CommandId(item: Value): string {
    StringOf(Field(item, "acceptanceCommandId"))
  }

  function AuthorityEntry(o: Options, id: string): Value {
    if id in o.authority then o.authority[id] else Undefined
  }

  function ReportOf(item: Value): string {
    StringOf(Field(item, "report"))
  }

  function TextScan(): (nat, Value) -> seq<string> {
    (_, v) => if TextOf(v) == "" then [] else [TextOf(v)]
  }

  function OwnedReports(entry: Value): seq<string> {
    Collect(Items(Field(entry, "ownedReports")), TextScan())
  }

  function EvidenceScan(o: Options, d: Details): (nat, Value) -> seq<Finding> {
    (_, item) => EvidenceEntryFindings(o, d, item)
  }

  function EvidenceEntryFindings(o: Options, d: Details, item: Value): seq<Finding> {
    var id := CommandId(item);
    var entry := AuthorityEntry(o, id);
    When(item.Record? && "command" in item.fields, ReportAt(EvidenceCommandForbidden, Authority, d)) +
    if id == "" then [ReportAt(EvidenceCommandIdInvalid, Evidence, d)]
    else
      When(!Truthy(entry), ReportAt(EvidenceCommandIdUnknown, Authority, d)) +
      if !Field(item, "report").Undefined? && !IsReportPath(ReportOf(item)) then
        [ReportAt(EvidenceReportInvalid, Evidence, d)]
      else
        When(ReportOf(item) != "" && Truthy(entry) && ReportOf(item) !in OwnedReports(entry),
             ReportAt(EvidenceReportNotOwned, Authority, d))
  }

  function BindingScan(d: Details): (nat, Value) -> seq<Binding> {
    (i: nat, item: Value) => When(CommandId(item) != "",
                      Binding(CommandId(item), ReportOf(item), d.checkpointId, d.role, d.criterionIndex, i))
  }

  predicate HasEvidence(evidence: Value) {
    evidence.List? && evidence.items != []
  }

  function EvidenceFindings(o: Options, d: Details, evidence: Value): seq<Finding> {
    if !HasEvidence(evidence) then [ReportAt(EvidenceMissing, Evidence, d)]
    else Collect(evidence.items, EvidenceScan(o, d))
  }

  function EvidenceBindings(d: Details, evidence: Value): seq<Binding> {
    if !HasEvidence(evidence) then [] else Collect(evidence.items, BindingScan(d))
  }

  /** An entry names a known command, claims no free-form command, and cites only a report it owns. */
  predicate EntryAccepted(o: Options, item: Value) {
    !(item.Record? && "command" in item.fields) &&
    CommandId(item) != "" && CommandId(item) in o.authority && Truthy(o.authority[CommandId(item)]) &&
    (Field(item, "report").Undefined? ||
     (IsReportPath(ReportOf(item)) && ReportOf(item) in OwnedReports(o.authority[CommandId(item)])))
  }

  predicate EvidenceAccepted(o: Options, evidence: Value) {
    HasEvidence(evidence) && forall item | item in evidence.items :: EntryAccepted(o, item)
  }

  lemma EvidenceFindingsExact(o: Options, d: Details, evidence: Value)
    ensures EvidenceFindings(o, d, evidence) == [] <==> EvidenceAccepted(o, evidence)
  {
    if HasEvidence(evidence) {
      CollectEmpty(evidence.items, EvidenceScan(o, d));
      forall i: nat | i < |evidence.items|
        ensures EvidenceScan(o, d)(i, evidence.items[i]) == [] <==> EntryAccepted(o, evidence.items[i])
      {
      }
      if EvidenceFindings(o, d, evidence) == [] {
        forall item | item in evidence.items ensures EntryAccepted(o, item) {
          var i :| 0 <= i < |evidence.items| && evidence.items[i] == item;
          assert EvidenceScan(o, d)(i, evidence.items[i]) == [];
        }
      }
    }
  }

  predicate BlockerAccepted(raw: Value) {
    Field(raw, "kind") == Str(EXTERNAL_BLOCKER_KIND) &&
    IsSlug(StringOf(Field(raw, "code"))) &&
    StringOf(Field(raw, "description")) != "" &&
    StringOf(Field(raw, "verificationCommand")) != "" &&
    !IsSelfReferential(StringOf(Field(raw, "verificationCommand"))) &&
    exists v | v in Items(Field(raw, "requiredEvidence")) :: StringOf(v) != ""
  }

  /** `validateExternalBlocker`: the blocker to record, or none when the finding is to be recorded. */
  function ValidateExternalBlocker(raw: Value, d: Details): (r: Option<Blocker>)
    ensures r.Some? <==> BlockerAccepted(raw)
  {
    var code := StringOf(Field(raw, "code"));
    var description := StringOf(Field(raw, "description"));
    var command := StringOf(Field(raw, "verificationCommand"));
    var requiredEvidence := UniqueStrings(StringItems(Field(raw, "requiredEvidence")));
    RequiredEvidencePresent(Field(raw, "requiredEvidence"));
    if Field(raw, "kind") == Str(EXTERNAL_BLOCKER_KIND) && IsSlug(code) && |description| > 0 &&
       |command| > 0 && !IsSelfReferential(command) && |requiredEvidence| > 0
    then Some(Blocker(code, description, requiredEvidence, command, d.checkpointId, d.role, d.criterionIndex))
    else None
  }

  lemma RequiredEvidencePresent(v: Value)
    ensures UniqueStrings(StringItems(v)) != [] <==> exists x | x in Items(v) :: StringOf(x) != ""
  {
    StringItemsTrimmed(v);
    UniqueStringsOfTrimmed(StringItems(v));
    ToSetEmpty(UniqueStrings(StringItems(v)));
    ToSetEmpty(StringItems(v));
    StringItemsEmpty(v);
  }

  // ----- one criterion

  /** The checkpoint a criterion belongs to. */
  datatype Owner = Owner(id: string, role: string, status: string)

  function CriterionText(v: Value): string {
    StringOf(Field(v, "text"))
  }

  predicate CriterionWellFormed(v: Value) {
    v.Record? && CriterionText(v) != ""
  }

  predicate IsChecked(v: Value) {
    Field(v, "checked") == Boolean(true)
  }

  predicate HasBlocker(v: Value) {
    !Field(v, "blocker").Undefined?
  }

  function DetailsOf(owner: Owner, i: nat, v: Value): Details {
    Details(owner.id, owner.role, i, CriterionText(v))
  }

  function CriterionFindings(o: Options, owner: Owner, i: nat, v: Value): seq<Finding> {
    var d := DetailsOf(owner, i, v);
    if !CriterionWellFormed(v) then
      [ReportAt(CriterionInvalid, Criteria, d.(criterionText := ""))]
    else if IsChecked(v) then
      When(HasBlocker(v), ReportAt(CheckedCriterionHasBlocker, Blocking, d)) +
      if owner.role in RequiredRoleList(o) then EvidenceFindings(o, d, Field(v, "evidence")) else []
    else if HasBlocker(v) then
      When(ValidateExternalBlocker(Field(v, "blocker"), d).None?, ReportAt(ExternalBlockerInvalid, Blocking, d)) +
      When(owner.status == o.completedStatus, ReportAt(CompletedWithBlockedCriterion, Status, d))
    else
      [ReportAt(CriterionUnchecked, Criteria, d.(criterionText := ""))]
  }

  function CriterionBindings(o: Options, owner: Owner, i: nat, v: Value): seq<Binding> {
    if CriterionWellFormed(v) && IsChecked(v) && owner.role in RequiredRoleList(o)
    then EvidenceBindings(DetailsOf(owner, i, v), Field(v, "evidence"))
    else []
  }

  function CriterionBlockers(owner: Owner, i: nat, v: Value): seq<Blocker> {
    if CriterionWellFormed(v) && !IsChecked(v) && HasBlocker(v)
    then match ValidateExternalBlocker(Field(v, "blocker"), DetailsOf(owner, i, v))
         case None => []
         case Some(b) => [b]
    else []
  }

  datatype Reason = CriteriaMissing | Invalid | ExternalEvidenceMissing | InvalidExternalBlocker | NotChecked

  datatype Unchecked = Unchecked(checkpointId: string, role: string, criterionIndex: Option<nat>, reason: Reason,
                                 text: string)

  function CriterionUncheckedItems(owner: Owner, i: nat, v: Value): seq<Unchecked> {
    var item := Unchecked(owner.id, owner.role, Some(i), Invalid, CriterionText(v));
    if !CriterionWellFormed(v) then [item.(text := "")]
    else if IsChecked(v) then []
    else if HasBlocker(v) then
      [item.(reason := if BlockerAccepted(Field(v, "blocker"))
        then ExternalEvidenceMissing else InvalidExternalBlocker)]
    else [item.(reason := NotChecked)]
  }

  function CriterionScan(o: Options, owner: Owner): (nat, Value) -> seq<Finding> {
    (i: nat, v: Value) => CriterionFindings(o, owner, i, v)
  }

  function CriterionBindingScan(o: Options, owner: Owner): (nat, Value) -> seq<Binding> {
    (i: nat, v: Value) => CriterionBindings(o, owner, i, v)
  }

  function CriterionBlockerScan(owner: Owner): (nat, Value) -> seq<Blocker> {
    (i: nat, v: Value) => CriterionBlockers(owner, i, v)
  }

  function CriterionUncheckedScan(owner: Owner): (nat, Value) -> seq<Unchecked> {
    (i: nat, v: Value) => CriterionUncheckedItems(owner, i, v)
  }

  /** Checked, not blocked at the same time, and backed by accepted evidence where the role demands it. */
  predicate CriterionProven(o: Options, role: string, v: Value) {
    CriterionWellFormed(v) && IsChecked(v) && !HasBlocker(v) &&
    (role in RequiredRoleList(o) ==> EvidenceAccepted(o, Field(v, "evidence")))
  }

  /** Unchecked for a valid external reason. */
  predicate CriterionBlocked(v: Value) {
    CriterionWellFormed(v) && !IsChecked(v) && HasBlocker(v) && BlockerAccepted(Field(v, "blocker"))
  }

  lemma CriterionFindingsExact(o: Options, owner: Owner, i: nat, v: Value)
    ensures CriterionFindings(o, owner, i, v) == [] <==>
            CriterionProven(o, owner.role, v) || (CriterionBlocked(v) && owner.status != o.completedStatus)
    ensures CriterionBlockers(owner, i, v) != [] <==> CriterionBlocked(v)
  {
    EvidenceFindingsExact(o, DetailsOf(owner, i, v), Field(v, "evidence"));
  }

  // ----- one checkpoint

  datatype Checkpoint = Checkpoint(
    id: string,
    declaredId: string,
    role: string,
    status: string,
    prerequisites: seq<string>,
    index: nat)

  datatype OpenCheckpoint = OpenCheckpoint(id: string, role: string, status: string)

  function Digits(n: nat): string {
    if n < 10 then ["0123456789"[n]] else Digits(n / 10) + ["0123456789"[n % 10]]
  }

  function OwnerOf(index: nat, raw: Value): Owner {
    var declared := TextOf(Field(raw, "id"));
    Owner(if declared != "" then declared else "checkpoint-index-" + Digits(index),
          TextOf(Field(raw, "role")), TextOf(Field(raw, "status")))
  }

  function CriteriaOf(raw: Value): seq<Value> {
    Items(Field(raw, "acceptance_criteria"))
  }

  function PrerequisiteIds(raw: Value): seq<string> {
    StringItems(Field(raw, "prerequisites"))
  }

  function Normalize(index: nat, raw: Value): Checkpoint {
    var owner := OwnerOf(index, raw);
    Checkpoint(owner.id, TextOf(Field(raw, "id")), owner.role, owner.status,
               UniqueStrings(PrerequisiteIds(raw)), index)
  }

  /** Normalising keeps exactly the prerequisites that the checkpoint names. */
  lemma NormalizeKeepsPrerequisites(index: nat, raw: Value)
    ensures ToSet(Normalize(index, raw).prerequisites) == ToSet(PrerequisiteIds(raw))
  {
    StringItemsTrimmed(Field(raw, "prerequisites"));
    UniqueStringsOfTrimmed(PrerequisiteIds(raw));
  }

  function PrerequisiteIdScan(owner: Owner): (nat, Value) -> seq<Finding> {
    (_, v) => When(StringOf(v) == "", Report(PrerequisiteIdInvalid, Topology, owner.id, owner.role))
  }

  function HeaderFindings(o: Options, index: nat, raw: Value): seq<Finding> {
    var owner := OwnerOf(index, raw);
    var prerequisites := PrerequisiteIds(raw);
    When(!raw.Record?, Report(CheckpointNotObject, Structure, owner.id, "")) +
    When(TextOf(Field(raw, "id")) == "", Report(IdMissing, Structure, owner.id, "")) +
    When(owner.role == "", Report(RoleMissing, Structure, owner.id, "")) +
    When(owner.status !in UniqueStrings(o.allowedStatuses), Report(StatusInvalid, Status, owner.id, owner.role)) +
    (if !Field(raw, "prerequisites").List?
     then [Report(PrerequisitesNotArray, Topology, owner.id, owner.role)]
     else Collect(Field(raw, "prerequisites").items, PrerequisiteIdScan(owner))) +
    When(|ToSet(prerequisites)| != |prerequisites|, Report(PrerequisiteDuplicate, Topology, owner.id, owner.role)) +
    When(CriteriaOf(raw) == [], Report(AcceptanceCriteriaMissing, Criteria, owner.id, owner.role))
  }

  function StatusFindings(o: Options, owner: Owner, blockerCount: nat): seq<Finding> {
    if owner.status == o.completedStatus then []
    else if owner.status != BLOCKED_STATUS then [Report(NotCompleted, Status, owner.id, owner.role)]
    else When(blockerCount == 0, Report(BlockedWithoutExternalEvidence, Blocking, owner.id, owner.role))
  }

  function OpenItems(o: Options, index: nat, raw: Value): seq<OpenCheckpoint> {
    var owner := OwnerOf(index, raw);
    When(owner.status != o.completedStatus,
         OpenCheckpoint(owner.id, owner.role, if owner.status == "" then "invalid" else owner.status))
  }

  function CheckpointBlockers(index: nat, raw: Value): seq<Blocker> {
    Collect(CriteriaOf(raw), CriterionBlockerScan(OwnerOf(index, raw)))
  }

  function CheckpointFindings(o: Options, index: nat, raw: Value): seq<Finding> {
    var owner := OwnerOf(index, raw);
    HeaderFindings(o, index, raw) +
    Collect(CriteriaOf(raw), CriterionScan(o, owner)) +
    StatusFindings(o, owner, |CheckpointBlockers(index, raw)|)
  }

  function CheckpointBindings(o: Options, index: nat, raw: Value): seq<Binding> {
    Collect(CriteriaOf(raw), CriterionBindingScan(o, OwnerOf(index, raw)))
  }

  function CheckpointUnchecked(index: nat, raw: Value): seq<Unchecked> {
    var owner := OwnerOf(index, raw);
    When(CriteriaOf(raw) == [], Unchecked(owner.id, owner.role, None, CriteriaMissing, "")) +
    Collect(CriteriaOf(raw), CriterionUncheckedScan(owner))
  }

  function CheckpointScan(o: Options): (nat, Value) -> seq<Finding> {
    (i: nat, raw: Value) => CheckpointFindings(o, i, raw)
  }

  function OpenScan(o: Options): (nat, Value) -> seq<OpenCheckpoint> {
    (i: nat, raw: Value) => OpenItems(o, i, raw)
  }

  function BlockerScan(): (nat, Value) -> seq<Blocker> {
    (i: nat, raw: Value) => CheckpointBlockers(i, raw)
  }

  function BindingsScan(o: Options): (nat, Value) -> seq<Binding> {
    (i: nat, raw: Value) => CheckpointBindings(o, i, raw)
  }

  function UncheckedScan(): (nat, Value) -> seq<Unchecked> {
    (i: nat, raw: Value) => CheckpointUnchecked(i, raw)
  }

  predicate PrerequisitesWellFormed(raw: Value) {
    var p := Field(raw, "prerequisites");
    p.List? && (forall v | v in p.items :: StringOf(v) != "") && Distinct(PrerequisiteIds(raw))
  }

  predicate StatusSettled(o: Options, raw: Value) {
    var status := TextOf(Field(raw, "status"));
    status == o.completedStatus ||
    (status == BLOCKED_STATUS && exists v | v in CriteriaOf(raw) :: CriterionBlocked(v))
  }

  /** Everything a checkpoint must satisfy apart from its criteria and their effect on its status. */
  predicate HeaderSound(o: Options, raw: Value) {
    raw.Record? && TextOf(Field(raw, "id")) != "" && TextOf(Field(raw, "role")) != "" &&
    TextOf(Field(raw, "status")) in UniqueStrings(o.allowedStatuses) &&
    PrerequisitesWellFormed(raw) && CriteriaOf(raw) != []
  }

  /** What a single checkpoint must satisfy for nothing to be recorded against it. */
  predicate CheckpointSound(o: Options, raw: Value) {
    var role, status := TextOf(Field(raw, "role")), TextOf(Field(raw, "status"));
    HeaderSound(o, raw) && StatusSettled(o, raw) &&
    forall v | v in CriteriaOf(raw) ::
      CriterionProven(o, role, v) || (CriterionBlocked(v) && status != o.completedStatus)
  }

  lemma CriteriaFindingsExact(o: Options, owner: Owner, criteria: seq<Value>)
    ensures Collect(criteria, CriterionScan(o, owner)) == [] <==>
            forall v | v in criteria ::
              CriterionProven(o, owner.role, v) || (CriterionBlocked(v) && owner.status != o.completedStatus)
    ensures Collect(criteria, CriterionBlockerScan(owner)) != [] <==> exists v | v in criteria :: CriterionBlocked(v)
  {
    CollectEmpty(criteria, CriterionScan(o, owner));
    CollectEmpty(criteria, CriterionBlockerScan(owner));
    forall i: nat | i < |criteria|
      ensures CriterionScan(o, owner)(i, criteria[i]) == [] <==>
              CriterionProven(o, owner.role, criteria[i]) ||
              (CriterionBlocked(criteria[i]) && owner.status != o.completedStatus)
      ensures CriterionBlockerScan(owner)(i, criteria[i]) == [] <==> !CriterionBlocked(criteria[i])
    {
      CriterionFindingsExact(o, owner, i, criteria[i]);
    }
    forall v | v in criteria
      ensures exists i: nat :: i < |criteria| && criteria[i] == v &&
                (CriterionScan(o, owner)(i, criteria[i]) == [] <==>
                 CriterionProven(o, owner.role, v) || (CriterionBlocked(v) && owner.status != o.completedStatus)) &&
                (CriterionBlockerScan(owner)(i, criteria[i]) == [] <==> !CriterionBlocked(v))
    {
    }
  }

  lemma PrerequisiteFindingsExact(raw: Value, owner: Owner)
    requires Field(raw, "prerequisites").List?
    ensures Collect(Field(raw, "prerequisites").items, PrerequisiteIdScan(owner)) == [] <==>
            forall v | v in Field(raw, "prerequisites").items :: StringOf(v) != ""
  {
    var items := Field(raw, "prerequisites").items;
    CollectEmpty(items, PrerequisiteIdScan(owner));
    forall i: nat | i < |items|
      ensures PrerequisiteIdScan(owner)(i, items[i]) == [] <==> StringOf(items[i]) != ""
    {
    }
    forall v | v in items
      ensures exists i: nat :: i < |items| && items[i] == v &&
                (PrerequisiteIdScan(owner)(i, items[i]) == [] <==> StringOf(v) != "")
    {
    }
  }

  lemma HeaderFindingsExact(o: Options, index: nat, raw: Value)
    ensures HeaderFindings(o, index, raw) == [] <==> HeaderSound(o, raw)
  {
    DistinctSize(PrerequisiteIds(raw));
    if Field(raw, "prerequisites").List? { PrerequisiteFindingsExact(raw, OwnerOf(index, raw)); }
  }

  lemma StatusFindingsExact(o: Options, index: nat, raw: Value)
    ensures StatusFindings(o, OwnerOf(index, raw), |CheckpointBlockers(index, raw)|) == [] <==> StatusSettled(o, raw)
  {
    CriteriaFindingsExact(o, OwnerOf(index, raw), CriteriaOf(raw));
  }

  lemma CheckpointFindingsExact(o: Options, index: nat, raw: Value)
    ensures CheckpointFindings(o, index, raw) == [] <==> CheckpointSound(o, raw)
  {
    HeaderFindingsExact(o, index, raw);
    StatusFindingsExact(o, index, raw);
    CriteriaFindingsExact(o, OwnerOf(index, raw), CriteriaOf(raw));
    var header, status := HeaderFindings(o, index, raw), StatusFindings(o, OwnerOf(index, raw),
      |CheckpointBlockers(index, raw)|);
    var criteria := Collect(CriteriaOf(raw), CriterionScan(o, OwnerOf(index, raw)));
    assert CheckpointFindings(o, index, raw) == header + criteria + status;
  }

  // ----- the graph of all checkpoints

  /** The first declared checkpoint of every id, and the ids in order of first declaration. */
  function Register(ns: seq<Checkpoint>): map<string, Checkpoint> {
    if ns == [] then map[]
    else
      var m, c := Register(ns[..|ns| - 1]), ns[|ns| - 1];
      if c.declaredId != "" && c.id !in m then m[c.id := c] else m
  }

  function RegisterKeys(ns: seq<Checkpoint>): seq<string> {
    if ns == [] then []
    else
      var m, c := Register(ns[..|ns| - 1]), ns[|ns| - 1];
      RegisterKeys(ns[..|ns| - 1]) + When(c.declaredId != "" && c.id !in m, c.id)
  }

  lemma {:induction false} RegisterFacts(ns: seq<Checkpoint>)
    ensures ToSet(RegisterKeys(ns)) == Register(ns).Keys
    ensures forall k | k in Register(ns) ::
      Register(ns)[k] in ns && Register(ns)[k].id == k && Register(ns)[k].declaredId != ""
    ensures forall c | c in ns && c.declaredId != "" :: c.id in Register(ns)
  {
    if ns != [] {
      var t := ns[..|ns| - 1];
      RegisterFacts(t);
      assert ns == t + [ns[|ns| - 1]];
      var c := ns[|ns| - 1];
      if c.declaredId != "" && c.id !in Register(t) {
        assert ToSet(RegisterKeys(ns)) == ToSet(RegisterKeys(t)) + {c.id};
      } else {
        assert RegisterKeys(ns) == RegisterKeys(t);
      }
    }
  }

  /** The prerequisite graph of the declared checkpoints. */
  function GraphOf(m: map<string, Checkpoint>): Graph {
    map k | k in m :: ToSet(m[k].prerequisites)
  }

  function HasId(id: string): Checkpoint -> bool {
    (c: Checkpoint) => c.declaredId != "" && c.id == id
  }

  function HasRole(role: string): Checkpoint -> bool {
    (c: Checkpoint) => c.role == role
  }

  function DuplicateScan(ns: seq<Checkpoint>): (nat, string) -> seq<Finding> {
    (_, k) => When(|Filter(ns, HasId(k))| > 1, Report(IdDuplicate, Structure, k, ""))
  }

  function LinkFindings(o: Options, m: map<string, Checkpoint>, c: Checkpoint, p: string): seq<Finding> {
    if p !in m then [Report(PrerequisiteMissing, Topology, c.id, c.role).(prerequisiteId := p)]
    else
      When(p == c.id, Report(SelfReference, Topology, c.id, c.role).(prerequisiteId := p)) +
      When(c.status == o.completedStatus && m[p].status != o.completedStatus,
           Report(CompletedBeforePrerequisite, Topology, c.id, c.role).(prerequisiteId := p))
  }

  function LinkScan(o: Options, m: map<string, Checkpoint>, c: Checkpoint): (nat, string) -> seq<Finding> {
    (_, p) => LinkFindings(o, m, c, p)
  }

  function LinksScan(o: Options, m: map<string, Checkpoint>): (nat, Checkpoint) -> seq<Finding> {
    (_, c: Checkpoint) => Collect(c.prerequisites, LinkScan(o, m, c))
  }

  function RoleFindings(role: string, count: nat): seq<Finding> {
    if count == 0 then [Report(RequiredRoleMissing, Role, "", role)]
    else When(count != 1, Report(RequiredRoleDuplicate, Role, "", role))
  }

  function RoleScan(ns: seq<Checkpoint>): (nat, string) -> seq<Finding> {
    (_, role) => RoleFindings(role, |Filter(ns, HasRole(role))|)
  }

  /** Final validation depends on the implementation when both are unambiguous. */
  ghost predicate DependencySound(ns: seq<Checkpoint>) {
    var implementation := Filter(ns, HasRole(IMPLEMENTATION));
    var final := Filter(ns, HasRole(FINAL_VALIDATION));
    |implementation| == 1 && |final| == 1 ==>
      Reaches(GraphOf(Register(ns)), ToSet(final[0].prerequisites), implementation[0].id)
  }

  ghost function DependencyFindings(ns: seq<Checkpoint>): seq<Finding> {
    var implementation := Filter(ns, HasRole(IMPLEMENTATION));
    var final := Filter(ns, HasRole(FINAL_VALIDATION));
    if DependencySound(ns) then []
    else [Report(MissingImplementationDependency, Topology, final[0].id, FINAL_VALIDATION)
            .(prerequisiteId := implementation[0].id)]
  }

  /** Every finding spells out a closed walk, and no two of them have the same key. */
  ghost predicate GenuineCycles(g: Graph, findings: seq<Finding>) {
    (forall f | f in findings ::
       f == Report(PrerequisiteCycle, Topology, f.checkpointId, "").(cycle := f.cycle) &&
       ClosedWalk(g, f.cycle) && f.cycle[0] == f.checkpointId) &&
    forall i, j | 0 <= i < j < |findings| :: CycleKey(findings[i].cycle) != CycleKey(findings[j].cycle)
  }

  /** A cycle report is empty exactly on acyclic graphs and otherwise shows only genuine cycles. */
  ghost predicate CycleReport(g: Graph, findings: seq<Finding>) {
    (findings == [] <==> Acyclic(g)) && GenuineCycles(g, findings)
  }

  /** The sorted distinct ids of a cycle, joined. */
  function CycleKey(cycle: seq<string>): string {
    Join(OnCycle(cycle), "|")
  }

  /** The pieces of the ids between bars, in the order of the ids. */
  function Pieces(ids: seq<string>): seq<string> {
    if ids == [] then [] else Split(ids[0], '|') + Pieces(ids[1..])
  }

  lemma {:induction false} PiecesOfJoin(ids: seq<string>)
    requires ids != []
    ensures Split(Join(ids, "|"), '|') == Pieces(ids)
  {
    if |ids| == 1 {
      assert Pieces(ids[1..]) == [];
      assert Join(ids, "|") == ids[0];
    } else {
      PiecesOfJoin(ids[1..]);
      SplitConcat(ids[0], Join(ids[1..], "|"), '|');
      assert Join(ids, "|") == ids[0] + ['|'] + Join(ids[1..], "|");
    }
  }

  /** The checkpoints of a cycle, once each and sorted. */
  function OnCycle(cycle: seq<string>): seq<string> {
    SortUnique(if cycle == [] then [] else cycle[..|cycle| - 1])
  }

  lemma OnCycleExact(cycle: seq<string>)
    requires |cycle| >= 2
    ensures ToSet(OnCycle(cycle)) == ToSet(cycle[..|cycle| - 1]) && OnCycle(cycle) != []
  {
    assert cycle[0] in ToSet(cycle[..|cycle| - 1]);
  }

  /** Two cycles share a key exactly when their sorted ids fall into the same pieces at the bars. */
  lemma SameKeyExactly(a: seq<string>, b: seq<string>)
    requires |a| >= 2 && |b| >= 2
    ensures CycleKey(a) == CycleKey(b) <==> Pieces(OnCycle(a)) == Pieces(OnCycle(b))
  {
    OnCycleExact(a);
    OnCycleExact(b);
    PiecesOfJoin(OnCycle(a));
    PiecesOfJoin(OnCycle(b));
    JoinSplit(CycleKey(a), '|');
    JoinSplit(CycleKey(b), '|');
  }

  lemma {:induction false} PlainPieces(ids: seq<string>)
    requires forall id | id in ids :: '|' !in id
    ensures Pieces(ids) == ids
  {
    if ids != [] {
      SplitPlain(ids[0], '|');
      PlainPieces(ids[1..]);
      assert ids == [ids[0]] + ids[1..];
    }
  }

  /** Without bars in the ids the key stands for the set of checkpoints. */
  lemma PlainKeyIsSet(a: seq<string>, b: seq<string>)
    requires |a| >= 2 && |b| >= 2 && forall id | id in a || id in b :: '|' !in id
    ensures CycleKey(a) == CycleKey(b) <==> ToSet(a[..|a| - 1]) == ToSet(b[..|b| - 1])
  {
    OnCycleExact(a);
    OnCycleExact(b);
    SameKeyExactly(a, b);
    forall id | id in OnCycle(a) ensures '|' !in id { assert id in ToSet(a[..|a| - 1]); }
    forall id | id in OnCycle(b) ensures '|' !in id { assert id in ToSet(b[..|b| - 1]); }
    PlainPieces(OnCycle(a));
    PlainPieces(OnCycle(b));
    if ToSet(a[..|a| - 1]) == ToSet(b[..|b| - 1]) { SameCheckpointsSameKey(a, b); }
  }

  /** With bars, a cycle of one checkpoint can have the key of a cycle of two. */
  lemma BarredKeysCollide()
    ensures CycleKey(["a|b", "a|b"]) == CycleKey(["a", "b", "a"])
  {
    var one, two := ["a|b", "a|b"], ["a", "b", "a"];
    assert one[..1] == ["a|b"] && two[..2] == ["a", "b"];
    assert Leq("a", "b");
    assert SortUnique(["b"]) == ["b"] by { assert ["b"][1..] == []; }
    assert ["a", "b"][1..] == ["b"] && ["a|b"][1..] == [];
    assert OnCycle(two) == ["a", "b"] && OnCycle(one) == ["a|b"];
    assert Join(["b"], "|") == "b";
    assert "a" + "|" + "b" == "a|b";
  }

  /** Cycles through the same checkpoints share a key, so only the first of them is reported. */
  lemma SameCheckpointsSameKey(a: seq<string>, b: seq<string>)
    requires a != [] && b != [] && ToSet(a[..|a| - 1]) == ToSet(b[..|b| - 1])
    ensures CycleKey(a) == CycleKey(b)
  {
    StrictlySortedUnique(SortUnique(a[..|a| - 1]), SortUnique(b[..|b| - 1]));
  }
}
