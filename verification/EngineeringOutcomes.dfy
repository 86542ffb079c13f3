/** The verdict of a local verification run over its suite results. */
module EngineeringOutcomes {
  import opened Sequences
  import opened Graphs

  /** Absent text fields are empty and an absent `blockedBy` is the empty list, as the code reads them. */
  datatype SuiteResult = SuiteResult(
    status: string,
    reasonCode: string,
    requiredService: string,
    blockedBy: seq<string>,
    phaseId: string,
    laneId: string)

  const OPTIONAL_CAPABILITY_REASONS := {
    "docker_cli_missing", "docker_context_unavailable", "docker_context_not_local", "docker_daemon_unavailable",
    "docker_daemon_not_linux", "docker_architecture_unsupported", "docker_architecture_mismatch",
    "docker_unavailable", "oci_image_platform_mismatch", "podman_cli_missing", "external_endpoint_not_opted_in",
    "platform_unavailable"
  }

  const PASSED := "passed"
  const FAILED := "failed"
  const NOT_RUN := "not_run"
  const CANCELLED := "cancelled"
  const PREREQUISITE_LANE_INCOMPLETE := "prerequisite_lane_incomplete"

  predicate HasOptionalCapabilityGap(r: SuiteResult) {
    r.status == NOT_RUN && r.reasonCode in OPTIONAL_CAPABILITY_REASONS &&
    (r.requiredService != "" || r.reasonCode == "platform_unavailable")
  }

  function LaneKey(phaseId: string, laneId: string): string {
    phaseId + "/" + laneId
  }

  function LaneOf(r: SuiteResult): string {
    LaneKey(r.phaseId, r.laneId)
  }

  function InLane(key: string): SuiteResult -> bool {
    (r: SuiteResult) => LaneOf(r) == key
  }

  /** Not run because of lanes that are all in the given set. */
  predicate BlockedOnlyBy(lanes: set<string>, r: SuiteResult) {
    r.status == NOT_RUN && r.reasonCode == PREREQUISITE_LANE_INCOMPLETE && r.blockedBy != [] &&
    forall lane | lane in r.blockedBy :: LaneKey(r.phaseId, lane) in lanes
  }

  /** A result that does not stop its lane from counting as optional. */
  predicate Harmless(lanes: set<string>, r: SuiteResult) {
    r.status == PASSED || HasOptionalCapabilityGap(r) || BlockedOnlyBy(lanes, r)
  }

  predicate LaneHarmless(results: seq<SuiteResult>, lanes: set<string>, key: string) {
    forall r | r in results && LaneOf(r) == key :: Harmless(lanes, r)
  }

  function Lanes(results: seq<SuiteResult>): set<string> {
    set r | r in results :: LaneOf(r)
  }

  /** A set that holds every lane that is harmless relative to it. */
  predicate ClosedLanes(results: seq<SuiteResult>, s: set<string>) {
    forall key | key in Lanes(results) && LaneHarmless(results, s, key) :: key in s
  }

  /** The least such set. */
  ghost predicate LeastClosed(results: seq<SuiteResult>, lanes: set<string>) {
    lanes <= Lanes(results) && ClosedLanes(results, lanes) && forall s | ClosedLanes(results, s) :: lanes <= s
  }

  /** Each lane is harmless on account of the lanes before it alone. */
  predicate Grounded(results: seq<SuiteResult>, order: seq<string>) {
    forall i | 0 <= i < |order| :: LaneHarmless(results, ToSet(order[..i]), order[i])
  }

  lemma HarmlessMonotone(results: seq<SuiteResult>, a: set<string>, b: set<string>, key: string)
    requires a <= b && LaneHarmless(results, a, key)
    ensures LaneHarmless(results, b, key)
  {
    forall r | r in results && LaneOf(r) == key ensures Harmless(b, r) { assert Harmless(a, r); }
  }

  lemma {:induction false} GroundedIsInClosed(results: seq<SuiteResult>, order: seq<string>, s: set<string>)
    requires Grounded(results, order) && ToSet(order) <= Lanes(results) && ClosedLanes(results, s)
    ensures ToSet(order) <= s
  {
    if order != [] {
      var last := |order| - 1;
      var before := order[..last];
      assert forall i | 0 <= i < last :: before[..i] == order[..i] && before[i] == order[i];
      assert forall x | x in before :: x in order;
      GroundedIsInClosed(results, before, s);
      assert order == before + [order[last]];
      assert order[last] in ToSet(order);
      HarmlessMonotone(results, ToSet(before), s, order[last]);
    }
  }

  /** The least closed set is unique, so no order of evaluation can lead to another one. */
  lemma LeastClosedUnique(results: seq<SuiteResult>, a: set<string>, b: set<string>)
    requires LeastClosed(results, a) && LeastClosed(results, b)
    ensures a == b
  {
  }

  /** Every lane has its results, in order. */
  ghost predicate Grouped(results: seq<SuiteResult>, byLane: map<string, seq<SuiteResult>>) {
    byLane.Keys == Lanes(results) && forall key | key in byLane :: byLane[key] == Filter(results, InLane(key))
  }

  /** The result joins those of its lane, which start out empty. */
  function Put(byLane: map<string, seq<SuiteResult>>, r: SuiteResult): map<string, seq<SuiteResult>> {
    byLane[LaneOf(r) := (if LaneOf(r) in byLane then byLane[LaneOf(r)] else []) + [r]]
  }

  /** The keys of a map in the order of their first insertion. */
  function PutKey(keys: seq<string>, key: string): (r: seq<string>)
    requires Distinct(keys)
    ensures Distinct(r) && ToSet(r) == ToSet(keys) + {key}
  {
    if key in keys then keys else
      assert forall x :: x in keys + [key] <==> x in keys || x == key;
      keys + [key]
  }

  /** The results by lane, the lanes in order of first appearance. */
  method GroupByLane(results: seq<SuiteResult>) returns (keys: seq<string>, byLane: map<string, seq<SuiteResult>>)
    ensures Distinct(keys) && ToSet(keys) == byLane.Keys == Lanes(results)
    ensures forall key | key in byLane :: byLane[key] == Filter(results, InLane(key))
  {
    keys, byLane := [], map[];
    for i := 0 to |results|
      invariant Distinct(keys) && ToSet(keys) == byLane.Keys && Grouped(results[..i], byLane)
    {
      GroupStep(results, i, byLane);
      keys, byLane := PutKey(keys, LaneOf(results[i])), Put(byLane, results[i]);
    }
    assert results[..|results|] == results;
  }

  lemma GroupStep(results: seq<SuiteResult>, i: nat, byLane: map<string, seq<SuiteResult>>)
    requires i < |results| && Grouped(results[..i], byLane)
    ensures Grouped(results[..i + 1], Put(byLane, results[i]))
    ensures Put(byLane, results[i]).Keys == byLane.Keys + {LaneOf(results[i])}
  {
    LanesStep(results, i);
    var after := Put(byLane, results[i]);
    forall k | k in after ensures after[k] == Filter(results[..i + 1], InLane(k)) {
      var before := if k in byLane then byLane[k] else [];
      if k !in byLane { NoneInLane(results[..i], k); }
      LaneStep(results, i, k, before);
    }
  }

  lemma LaneStep(results: seq<SuiteResult>, i: nat, key: string, before: seq<SuiteResult>)
    requires i < |results| && before == Filter(results[..i], InLane(key))
    ensures Filter(results[..i + 1], InLane(key)) == if key == LaneOf(results[i]) then before + [results[i]] else before
  {
    FilterStep(results, i, InLane(key));
    assert InLane(key)(results[i]) <==> key == LaneOf(results[i]);
  }

  lemma LanesStep(results: seq<SuiteResult>, i: nat)
    requires i < |results|
    ensures Lanes(results[..i + 1]) == Lanes(results[..i]) + {LaneOf(results[i])}
  {
    assert results[..i + 1] == results[..i] + [results[i]];
  }

  lemma NoneInLane(results: seq<SuiteResult>, key: string)
    requires key !in Lanes(results)
    ensures Filter(results, InLane(key)) == []
  {
    if Filter(results, InLane(key)) != [] {
      FilterMembers(results, InLane(key), Filter(results, InLane(key))[0]);
    }
  }

  /** Whether every result of one lane is harmless relative to the lanes found so far. */
  method EveryHarmless(results: seq<SuiteResult>, key: string, laneResults: seq<SuiteResult>, lanes: set<string>)
    returns (ok: bool)
    requires laneResults == Filter(results, InLane(key))
    ensures ok <==> LaneHarmless(results, lanes, key)
  {
    forall r ensures r in laneResults <==> r in results && LaneOf(r) == key {
      FilterMembers(results, InLane(key), r);
    }
    ok := forall r | r in laneResults :: Harmless(lanes, r);
  }

  lemma GroundedOneMore(results: seq<SuiteResult>, order: seq<string>, key: string)
    requires Grounded(results, order) && Distinct(order) && key !in order && LaneHarmless(results, ToSet(order), key)
    ensures Grounded(results, order + [key]) && Distinct(order + [key]) && ToSet(order + [key]) == ToSet(order) + {key}
  {
    var longer := order + [key];
    forall i | 0 <= i < |longer| ensures LaneHarmless(results, ToSet(longer[..i]), longer[i]) {
      assert longer[..i] == order[..i];
      if i == |order| { assert order[..i] == order; }
    }
  }

  /** The lanes found optional so far, each on account of the earlier ones. */
  ghost predicate Founded(results: seq<SuiteResult>, order: seq<string>, optional: set<string>) {
    Grounded(results, order) && Distinct(order) && ToSet(order) == optional <= Lanes(results)
  }

  /** One lane: it becomes optional if all its results are harmless relative to the lanes found so far. */
  method TryLane(results: seq<SuiteResult>, key: string, laneResults: seq<SuiteResult>,
                 start: set<string>, ghost order0: seq<string>)
    returns (optional: set<string>, added: bool, ghost order: seq<string>)
    requires laneResults == Filter(results, InLane(key)) && key in Lanes(results) && Founded(results, order0, start)
    ensures Founded(results, order, optional)
    ensures added <==> key !in start && LaneHarmless(results, start, key)
    ensures optional == if added then start + {key} else start
  {
    optional, added, order := start, false, order0;
    if key in optional { return; }
    var harmless := EveryHarmless(results, key, laneResults, optional);
    if harmless {
      assert key !in ToSet(order);
      GroundedOneMore(results, order, key);
      optional, added, order := optional + {key}, true, order + [key];
    }
  }

  /** One pass over the lanes, taking each added lane into account at once. */
  method Pass(results: seq<SuiteResult>, keys: seq<string>, byLane: map<string, seq<SuiteResult>>,
              start: set<string>, ghost order0: seq<string>)
    returns (optional: set<string>, changed: bool, ghost order: seq<string>)
    requires ToSet(keys) == byLane.Keys == Lanes(results)
    requires forall key | key in byLane :: byLane[key] == Filter(results, InLane(key))
    requires Founded(results, order0, start)
    ensures Founded(results, order, optional)
    ensures changed ==> |optional| > |start|
    ensures !changed ==> optional == start && ClosedLanes(results, optional)
  {
    optional, changed, order := start, false, order0;
    for i := 0 to |keys|
      invariant Founded(results, order, optional) && start <= optional
      invariant changed <==> optional != start
      invariant !changed ==> Tried(results, keys[..i], start)
    {
      assert keys[i] in ToSet(keys);
      TriedOneMore(results, keys, i, start);
      var added;
      optional, added, order := TryLane(results, keys[i], byLane[keys[i]], optional, order);
      changed := changed || added;
    }
    if changed { SubsetIsSmaller(start, optional); } else { NoneLeft(results, keys, start); }
  }

  /** None of these lanes can be added. */
  predicate Tried(results: seq<SuiteResult>, keys: seq<string>, start: set<string>) {
    forall key | key in keys && LaneHarmless(results, start, key) :: key in start
  }

  lemma TriedOneMore(results: seq<SuiteResult>, keys: seq<string>, i: nat, start: set<string>)
    requires i < |keys|
    ensures Tried(results, keys[..i + 1], start) <==>
      Tried(results, keys[..i], start) && (LaneHarmless(results, start, keys[i]) ==> keys[i] in start)
  {
    assert keys[..i + 1] == keys[..i] + [keys[i]];
  }

  lemma NoneLeft(results: seq<SuiteResult>, keys: seq<string>, start: set<string>)
    requires ToSet(keys) == Lanes(results) && Tried(results, keys[..|keys|], start)
    ensures ClosedLanes(results, start)
  {
    assert keys[..|keys|] == keys;
    assert forall key | key in Lanes(results) :: key in ToSet(keys);
  }

  lemma SubsetIsSmaller<T>(a: set<T>, b: set<T>)
    requires a < b
    ensures |a| < |b|
  {
    var x :| x in b && x !in a;
    SubsetIsNotLarger(a, b - {x});
  }

  lemma SubsetIsNotLarger<T>(a: set<T>, b: set<T>)
    requires a <= b
    ensures |a| <= |b|
  {
    if a != {} {
      var x :| x in a;
      SubsetIsNotLarger(a - {x}, b - {x});
    }
  }

  lemma SameSizeSubset<T>(a: set<T>, b: set<T>)
    requires a <= b && |a| >= |b|
    ensures a == b
  {
    if a != b { SubsetIsSmaller(a, b); }
  }

  /** The fixpoint: as many passes as there are lanes always reach the least closed set. */
  method OptionalLanes(results: seq<SuiteResult>) returns (optional: set<string>, ghost order: seq<string>)
    ensures LeastClosed(results, optional)
    ensures Grounded(results, order) && Distinct(order) && ToSet(order) == optional
  {
    var keys, byLane := GroupByLane(results);
    DistinctSize(keys);
    optional, order := {}, [];
    var pass := 0;
    while pass < |keys|
      invariant 0 <= pass <= |keys| && pass <= |optional|
      invariant Grounded(results, order) && Distinct(order) && ToSet(order) == optional <= Lanes(results)
    {
      var changed;
      optional, changed, order := Pass(results, keys, byLane, optional, order);
      if !changed {
        LeastByGrounding(results, order, optional);
        return;
      }
      pass := pass + 1;
    }
    SameSizeSubset(optional, Lanes(results));
    LeastByGrounding(results, order, optional);
  }

  lemma LeastByGrounding(results: seq<SuiteResult>, order: seq<string>, optional: set<string>)
    requires Grounded(results, order) && ToSet(order) == optional <= Lanes(results) && ClosedLanes(results, optional)
    ensures LeastClosed(results, optional)
  {
    forall s | ClosedLanes(results, s) ensures optional <= s { GroundedIsInClosed(results, order, s); }
  }

  // ----- the verdict

  datatype Status = Passed | Failed | Cancelled

  datatype Outcome = Outcome(
    status: Status, reasonCode: string,
    passed: nat, failed: nat, notRun: nat, cancelled: nat, optionalNotRun: nat)

  function HasStatus(status: string): SuiteResult -> bool {
    (r: SuiteResult) => r.status == status
  }

  /** A result that was not run for an optional reason. */
  predicate OptionallyNotRun(lanes: set<string>, r: SuiteResult) {
    r.status == NOT_RUN && (HasOptionalCapabilityGap(r) || BlockedOnlyBy(lanes, r))
  }

  function IsOptionallyNotRun(lanes: set<string>): SuiteResult -> bool {
    (r: SuiteResult) => OptionallyNotRun(lanes, r)
  }

  predicate KnownStatus(r: SuiteResult) {
    r.status in {PASSED, FAILED, NOT_RUN, CANCELLED}
  }

  /** The run as a whole is good: everything passed or was skipped for a grounded optional reason. */
  predicate Acceptable(results: seq<SuiteResult>, lanes: set<string>, exitCode: Option<int>) {
    (forall r | r in results :: r.status == PASSED || OptionallyNotRun(lanes, r)) &&
    (exists r | r in results :: r.status == PASSED) &&
    (exitCode == Some(0) || (exitCode == Some(1) && exists r | r in results :: r.status == NOT_RUN))
  }

  lemma StatusesDiffer()
    ensures PASSED != FAILED && PASSED != NOT_RUN && PASSED != CANCELLED
    ensures FAILED != NOT_RUN && FAILED != CANCELLED && NOT_RUN != CANCELLED
  {
    assert PASSED[0] == 'p' && FAILED[0] == 'f' && NOT_RUN[0] == 'n' && CANCELLED[0] == 'c';
  }

  function KnownCount(results: seq<SuiteResult>): nat {
    |Filter(results, HasStatus(PASSED))| + |Filter(results, HasStatus(FAILED))| +
    |Filter(results, HasStatus(NOT_RUN))| + |Filter(results, HasStatus(CANCELLED))|
  }

  lemma KnownCountStep(before: seq<SuiteResult>, last: SuiteResult)
    ensures KnownCount(before + [last]) == KnownCount(before) + if KnownStatus(last) then 1 else 0
  {
    StatusesDiffer();
    assert (before + [last])[..|before|] == before;
    forall status
      ensures Filter(before + [last], HasStatus(status)) ==
              Filter(before, HasStatus(status)) + if last.status == status then [last] else []
    {
      assert HasStatus(status)(last) <==> last.status == status;
    }
  }

  lemma {:induction false} StatusCounts(results: seq<SuiteResult>)
    ensures KnownCount(results) <= |results|
    ensures KnownCount(results) == |results| <==> forall r | r in results :: KnownStatus(r)
  {
    if results != [] {
      var before, last := results[..|results| - 1], results[|results| - 1];
      assert results == before + [last];
      StatusCounts(before);
      KnownCountStep(before, last);
      assert last in results;
      if forall r | r in results :: KnownStatus(r) {
        assert forall r | r in before :: r in results;
      }
    }
  }

  lemma CountZero(results: seq<SuiteResult>, p: SuiteResult -> bool)
    ensures Filter(results, p) == [] <==> forall r | r in results :: !p(r)
  {
    if Filter(results, p) != [] {
      FilterMembers(results, p, Filter(results, p)[0]);
    }
    forall r | r in results && p(r) ensures Filter(results, p) != [] { FilterMembers(results, p, r); }
  }

  lemma {:induction false} OptionalCounts(results: seq<SuiteResult>, lanes: set<string>)
    ensures var all, optional := |Filter(results, HasStatus(NOT_RUN))|, |Filter(results, IsOptionallyNotRun(lanes))|;
            optional <= all &&
            (optional == all <==> forall r | r in results && r.status == NOT_RUN :: OptionallyNotRun(lanes, r))
  {
    if results != [] {
      var before, last := results[..|results| - 1], results[|results| - 1];
      assert results == before + [last];
      OptionalCounts(before, lanes);
      assert forall r :: r in results <==> r in before || r == last;
    }
  }

  /** The verdict on the counts alone. */
  function Verdict(executionCancelled: bool, exitCode: Option<int>, total: nat,
                   passed: nat, failed: nat, notRun: nat, cancelled: nat, optionalNotRun: nat): Outcome
  {
    var otherIncomplete := total as int - passed - failed - notRun - cancelled;
    if executionCancelled || cancelled > 0 then
      Outcome(Cancelled, "runner_cancelled", passed, failed, notRun, if cancelled < 1
        then 1 else cancelled, optionalNotRun)
    else if failed > 0 || otherIncomplete > 0 || notRun != optionalNotRun ||
            (exitCode != Some(0) && (exitCode != Some(1) || notRun == 0)) || passed == 0 then
      Outcome(Failed, if failed > 0 then "selected_flow_failed" else "applicable_flow_incomplete",
              passed, failed, notRun, cancelled, optionalNotRun)
    else Outcome(Passed, "", passed, failed, notRun, cancelled, optionalNotRun)
  }

  function OutcomeOf(results: seq<SuiteResult>, lanes: set<string>, exitCode: Option<int>,
                     executionCancelled: bool): Outcome {
    Verdict(executionCancelled, exitCode, |results|,
            |Filter(results, HasStatus(PASSED))|, |Filter(results, HasStatus(FAILED))|,
            |Filter(results, HasStatus(NOT_RUN))|, |Filter(results, HasStatus(CANCELLED))|,
            |Filter(results, IsOptionallyNotRun(lanes))|)
  }

  lemma StatusCountZero(results: seq<SuiteResult>, status: string)
    ensures |Filter(results, HasStatus(status))| == 0 <==> forall r | r in results :: r.status != status
  {
    CountZero(results, HasStatus(status));
    assert forall r | r in results :: HasStatus(status)(r) <==> r.status == status;
  }

  lemma AcceptableByCounts(results: seq<SuiteResult>, lanes: set<string>, exitCode: Option<int>)
    ensures var passed, failed := |Filter(results, HasStatus(PASSED))|, |Filter(results, HasStatus(FAILED))|;
            var notRun, cancelled := |Filter(results, HasStatus(NOT_RUN))|, |Filter(results, HasStatus(CANCELLED))|;
            Acceptable(results, lanes, exitCode) <==>
              failed == 0 && cancelled == 0 && passed + failed + notRun + cancelled == |results| &&
              notRun == |Filter(results, IsOptionallyNotRun(lanes))| && passed > 0 &&
              (exitCode == Some(0) || (exitCode == Some(1) && notRun > 0))
  {
    StatusCounts(results);
    StatusesDiffer();
    OptionalCounts(results, lanes);
    StatusCountZero(results, PASSED);
    StatusCountZero(results, FAILED);
    StatusCountZero(results, NOT_RUN);
    StatusCountZero(results, CANCELLED);
  }

  /** The verdict is cancelled, passed or failed in exactly these cases. */
  lemma VerdictExact(results: seq<SuiteResult>, lanes: set<string>, exitCode: Option<int>, executionCancelled: bool)
    ensures var o := OutcomeOf(results, lanes, exitCode, executionCancelled);
            (o.status == Cancelled <==> executionCancelled || exists r | r in results :: r.status == CANCELLED) &&
            (o.status == Passed <==> !executionCancelled && Acceptable(results, lanes, exitCode))
  {
    StatusCounts(results);
    StatusCountZero(results, CANCELLED);
    AcceptableByCounts(results, lanes, exitCode);
  }

  /** Where the results with a status stand. */
  function WithStatus(results: seq<SuiteResult>, status: string): set<nat> {
    set i: nat | i < |results| && results[i].status == status
  }

  /** Not run for want of an optional capability, or only because of lanes that are optional themselves. */
  predicate IsExcused(lanes: set<string>, r: SuiteResult) {
    r.status == NOT_RUN &&
    ((r.reasonCode in OPTIONAL_CAPABILITY_REASONS && r.requiredService != "") ||
     r.reasonCode == "platform_unavailable" ||
     (r.reasonCode == PREREQUISITE_LANE_INCOMPLETE && r.blockedBy != [] &&
      forall lane | lane in r.blockedBy :: r.phaseId + "/" + lane in lanes))
  }

  /** Where those results stand. */
  function Excused(results: seq<SuiteResult>, lanes: set<string>): set<nat> {
    set i: nat | i < |results| && IsExcused(lanes, results[i])
  }

  /**
   * The outcome counts the results of each status and those excused, one cancellation at least in a cancelled
   * run, and gives the reason: the runner, a failure, or an incomplete flow without a failure.
   */
  predicate CountsRight(results: seq<SuiteResult>, lanes: set<string>, o: Outcome) {
    o.passed == |WithStatus(results, PASSED)| && o.failed == |WithStatus(results, FAILED)| &&
    o.notRun == |WithStatus(results, NOT_RUN)| && o.optionalNotRun == |Excused(results, lanes)| &&
    o.cancelled == (if o.status == Cancelled && WithStatus(results, CANCELLED) == {} then 1
                    else |WithStatus(results, CANCELLED)|) &&
    o.reasonCode == (match o.status
                     case Cancelled => "runner_cancelled"
                     case Passed => ""
                     case Failed =>
                       if WithStatus(results, FAILED) != {} then "selected_flow_failed"
                       else "applicable_flow_incomplete")
  }

  lemma StatusCount(results: seq<SuiteResult>, status: string)
    ensures |Filter(results, HasStatus(status))| == |WithStatus(results, status)|
    ensures |WithStatus(results, status)| == 0 <==> WithStatus(results, status) == {}
  {
    FilterSize(results, HasStatus(status));
    assert Where(results, HasStatus(status)) == WithStatus(results, status);
  }

  lemma ExcusedExact(lanes: set<string>, r: SuiteResult)
    ensures OptionallyNotRun(lanes, r) <==> IsExcused(lanes, r)
  {
  }

  lemma OutcomeCounts(results: seq<SuiteResult>, lanes: set<string>, exitCode: Option<int>, executionCancelled: bool)
    ensures CountsRight(results, lanes, OutcomeOf(results, lanes, exitCode, executionCancelled))
  {
    StatusCount(results, PASSED);
    StatusCount(results, FAILED);
    StatusCount(results, NOT_RUN);
    StatusCount(results, CANCELLED);
    FilterSize(results, IsOptionallyNotRun(lanes));
    forall i: nat | i < |results| ensures IsOptionallyNotRun(lanes)(results[i]) <==> IsExcused(lanes, results[i]) {
      ExcusedExact(lanes, results[i]);
    }
    assert Where(results, IsOptionallyNotRun(lanes)) == Excused(results, lanes);
  }

  /** The whole evaluation: optional lanes first, then the verdict on the counts. */
  method EvaluateEngineeringOutcomes(results: seq<SuiteResult>, exitCode: Option<int>, executionCancelled: bool)
    returns (o: Outcome, ghost lanes: set<string>, ghost order: seq<string>)
    ensures LeastClosed(results, lanes) && o == OutcomeOf(results, lanes, exitCode, executionCancelled)
    ensures Grounded(results, order) && Distinct(order) && ToSet(order) == lanes
    ensures o.status == Passed <==> !executionCancelled && Acceptable(results, lanes, exitCode)
    ensures o.status == Cancelled <==> executionCancelled || exists r | r in results :: r.status == CANCELLED
    ensures forall s | LeastClosed(results, s) :: o == OutcomeOf(results, s, exitCode, executionCancelled)
    ensures CountsRight(results, lanes, o)
    ensures o.status == Passed ==> TopologicalOrder(BlockGraph(results), order) && Acyclic(BlockGraph(results))
  {
    var optional;
    optional, order := OptionalLanes(results);
    lanes := optional;
    VerdictExact(results, optional, exitCode, executionCancelled);
    OutcomeCounts(results, optional, exitCode, executionCancelled);
    forall s | LeastClosed(results, s) ensures s == optional { LeastClosedUnique(results, s, optional); }
    if !executionCancelled && Acceptable(results, optional, exitCode) {
      PassedRunIsGrounded(results, optional, order, exitCode);
    }
    o := Verdict(executionCancelled, exitCode, |results|,
                 |Filter(results, HasStatus(PASSED))|, |Filter(results, HasStatus(FAILED))|,
                 |Filter(results, HasStatus(NOT_RUN))|, |Filter(results, HasStatus(CANCELLED))|,
                 |Filter(results, IsOptionallyNotRun(optional))|);
  }

  // ----- what a passed verdict means for the blocking relation

  /** The lanes that the blocked results of each lane wait for; gaps need no such excuse. */
  function BlockGraph(results: seq<SuiteResult>): Graph {
    map key | key in Lanes(results) :: BlockersOf(results, key)
  }

  function BlockersOf(results: seq<SuiteResult>, key: string): set<string> {
    set r, lane | r in results && LaneOf(r) == key && r.status != PASSED && !HasOptionalCapabilityGap(r) &&
                  lane in r.blockedBy :: LaneKey(r.phaseId, lane)
  }

  /** A passed run has every lane optional, so the order in which they became so covers all of them. */
  lemma PassedMakesAllLanesOptional(results: seq<SuiteResult>, lanes: set<string>, exitCode: Option<int>)
    requires LeastClosed(results, lanes) && Acceptable(results, lanes, exitCode)
    ensures lanes == Lanes(results)
  {
    forall key | key in Lanes(results) ensures key in lanes {
      assert LaneHarmless(results, lanes, key);
    }
  }

  /**
   * In a passed run every lane that excuses another one became optional before it; the chains of
   * excuses are finite and lanes can never excuse each other in a circle.
   */
  lemma PassedRunIsGrounded(results: seq<SuiteResult>, lanes: set<string>, order: seq<string>, exitCode: Option<int>)
    requires LeastClosed(results, lanes) && Acceptable(results, lanes, exitCode)
    requires Grounded(results, order) && Distinct(order) && ToSet(order) == lanes
    ensures TopologicalOrder(BlockGraph(results), order)
    ensures Acyclic(BlockGraph(results))
    ensures forall key | key in Lanes(results) :: BlockersOf(results, key) <= Lanes(results)
  {
    var g := BlockGraph(results);
    PassedMakesAllLanesOptional(results, lanes, exitCode);
    forall i | 0 <= i < |order| ensures BlockersOf(results, order[i]) <= ToSet(order[..i]) {
      assert LaneHarmless(results, ToSet(order[..i]), order[i]);
    }
    forall i | 0 <= i < |order| ensures forall u | u in Next(g, order[i]) && u in g :: u in order[..i] {
      assert order[i] in ToSet(order);
    }
    TopologicalImpliesAcyclic(g, order);
    forall key | key in Lanes(results) ensures BlockersOf(results, key) <= Lanes(results) {
      assert key in ToSet(order);
      var i :| 0 <= i < |order| && order[i] == key;
      assert BlockersOf(results, order[i]) <= ToSet(order[..i]) <= ToSet(order);
    }
  }

  // ----- the joined lane key

  /** Two lanes share a key exactly when one phase swallows the head of the other's lane. */
  lemma LaneKeysCollideExactly(p: string, l: string, q: string, m: string)
    ensures LaneKey(p, l) == LaneKey(q, m) <==>
            (p == q && l == m) ||
            (exists x :: q == p + "/" + x && l == x + "/" + m) ||
            (exists x :: p == q + "/" + x && m == x + "/" + l)
  {
    KeyDirection(p, l, q, m);
    KeyDirection(q, m, p, l);
  }

  lemma KeyDirection(p: string, l: string, q: string, m: string)
    ensures |p| < |q| && LaneKey(p, l) == LaneKey(q, m) ==> exists x :: q == p + "/" + x && l == x + "/" + m
    ensures |p| == |q| && LaneKey(p, l) == LaneKey(q, m) ==> p == q && l == m
    ensures (exists x :: q == p + "/" + x && l == x + "/" + m) ==> LaneKey(p, l) == LaneKey(q, m)
  {
    var a, b := LaneKey(p, l), LaneKey(q, m);
    if |p| <= |q| && a == b {
      assert p == a[..|p|] == b[..|p|] == q[..|p|];
      assert l == a[|p| + 1..] && m == b[|q| + 1..];
      if |p| < |q| {
        var x := q[|p| + 1..];
        assert a[|p|] == '/' == q[|p|];
        assert q == p + "/" + x;
        assert l == x + "/" + m;
      }
    }
    if x :| q == p + "/" + x && l == x + "/" + m {
      assert p + "/" + (x + "/" + m) == (p + "/" + x) + "/" + m;
    }
  }

  /** No phase id is another one with a slash and more behind it. */
  predicate KeepsApart(phases: set<string>) {
    forall p, q | p in phases && q in phases :: !(p + "/" <= q)
  }

  /** No two lanes of these phases share a key. */
  ghost predicate KeysDiffer(phases: set<string>) {
    forall p, l, q, m | p in phases && q in phases && LaneKey(p, l) == LaneKey(q, m) :: p == q && l == m
  }

  lemma ApartKeysDiffer(phases: set<string>, p: string, l: string, q: string, m: string)
    requires KeepsApart(phases) && p in phases && q in phases && LaneKey(p, l) == LaneKey(q, m)
    ensures p == q && l == m
  {
    LaneKeysCollideExactly(p, l, q, m);
    forall x ensures q != p + "/" + x && p != q + "/" + x {
      assert p + "/" <= p + "/" + x && q + "/" <= q + "/" + x;
    }
  }

  /** That is the condition under which the key keeps all their lanes apart, whatever the lane ids are. */
  lemma KeysDifferExactly(phases: set<string>)
    ensures KeysDiffer(phases) <==> KeepsApart(phases)
  {
    if KeepsApart(phases) {
      forall p, l, q, m | p in phases && q in phases && LaneKey(p, l) == LaneKey(q, m) ensures p == q && l == m {
        ApartKeysDiffer(phases, p, l, q, m);
      }
    }
    forall p, q | p in phases && q in phases && p + "/" <= q ensures !KeysDiffer(phases) {
      var x := q[|p| + 1..];
      assert q == p + "/" + x;
      LaneKeysCollideExactly(p, x + "/" + "", q, "");
    }
  }

  // ----- what the joined key means for the verdict

  /** A lane as the pair that the key joins. */
  type Lane = (string, string)

  function PairOf(r: SuiteResult): Lane {
    (r.phaseId, r.laneId)
  }

  function Pairs(results: seq<SuiteResult>): set<Lane> {
    set r | r in results :: PairOf(r)
  }

  predicate BlockedOnlyByPairs(pairs: set<Lane>, r: SuiteResult) {
    r.status == NOT_RUN && r.reasonCode == PREREQUISITE_LANE_INCOMPLETE && r.blockedBy != [] &&
    forall lane | lane in r.blockedBy :: (r.phaseId, lane) in pairs
  }

  predicate PairHarmless(results: seq<SuiteResult>, pairs: set<Lane>, p: Lane) {
    forall r | r in results && PairOf(r) == p ::
      r.status == PASSED || HasOptionalCapabilityGap(r) || BlockedOnlyByPairs(pairs, r)
  }

  predicate ClosedPairs(results: seq<SuiteResult>, s: set<Lane>) {
    forall p | p in Pairs(results) && PairHarmless(results, s, p) :: p in s
  }

  /** The least set of lanes that the rule asks for when lanes are compared as pairs. */
  ghost predicate LeastClosedPairs(results: seq<SuiteResult>, pairs: set<Lane>) {
    pairs <= Pairs(results) && ClosedPairs(results, pairs) && forall s | ClosedPairs(results, s) :: pairs <= s
  }

  function IsNotRunForPairs(pairs: set<Lane>): SuiteResult -> bool {
    (r: SuiteResult) => r.status == NOT_RUN && (HasOptionalCapabilityGap(r) || BlockedOnlyByPairs(pairs, r))
  }

  /** The verdict when lanes are compared as pairs. */
  function PairOutcomeOf(results: seq<SuiteResult>, pairs: set<Lane>, exitCode: Option<int>,
                         executionCancelled: bool): Outcome {
    Verdict(executionCancelled, exitCode, |results|,
            |Filter(results, HasStatus(PASSED))|, |Filter(results, HasStatus(FAILED))|,
            |Filter(results, HasStatus(NOT_RUN))|, |Filter(results, HasStatus(CANCELLED))|,
            |Filter(results, IsNotRunForPairs(pairs))|)
  }

  function Phases(results: seq<SuiteResult>): set<string> {
    set r | r in results :: r.phaseId
  }

  function KeysOf(pairs: set<Lane>): set<string> {
    set p | p in pairs :: LaneKey(p.0, p.1)
  }

  function PairsIn(results: seq<SuiteResult>, lanes: set<string>): set<Lane> {
    set r | r in results && LaneOf(r) in lanes :: PairOf(r)
  }

  lemma SameMember(results: seq<SuiteResult>, pairs: set<Lane>, r: SuiteResult, lane: string)
    requires KeepsApart(Phases(results)) && pairs <= Pairs(results) && r in results
    ensures LaneKey(r.phaseId, lane) in KeysOf(pairs) <==> (r.phaseId, lane) in pairs
  {
    if LaneKey(r.phaseId, lane) in KeysOf(pairs) {
      var p :| p in pairs && LaneKey(p.0, p.1) == LaneKey(r.phaseId, lane);
      var q :| q in results && PairOf(q) == p;
      ApartKeysDiffer(Phases(results), q.phaseId, q.laneId, r.phaseId, lane);
    }
  }

  lemma SameBlocks(results: seq<SuiteResult>, pairs: set<Lane>, r: SuiteResult)
    requires KeepsApart(Phases(results)) && pairs <= Pairs(results) && r in results
    ensures BlockedOnlyBy(KeysOf(pairs), r) <==> BlockedOnlyByPairs(pairs, r)
  {
    forall lane | lane in r.blockedBy ensures LaneKey(r.phaseId, lane) in KeysOf(pairs) <==>
      (r.phaseId, lane) in pairs {
      SameMember(results, pairs, r, lane);
    }
  }

  lemma SameHarmless(results: seq<SuiteResult>, pairs: set<Lane>, q: SuiteResult)
    requires KeepsApart(Phases(results)) && pairs <= Pairs(results) && q in results
    ensures LaneHarmless(results, KeysOf(pairs), LaneOf(q)) <==> PairHarmless(results, pairs, PairOf(q))
  {
    forall r | r in results
      ensures BlockedOnlyBy(KeysOf(pairs), r) <==> BlockedOnlyByPairs(pairs, r)
      ensures LaneOf(r) == LaneOf(q) <==> PairOf(r) == PairOf(q)
    {
      SameBlocks(results, pairs, r);
      if LaneOf(r) == LaneOf(q) { ApartKeysDiffer(Phases(results), r.phaseId, r.laneId, q.phaseId, q.laneId); }
    }
  }

  lemma KeysOfPairsIn(results: seq<SuiteResult>, lanes: set<string>)
    requires lanes <= Lanes(results)
    ensures PairsIn(results, lanes) <= Pairs(results) && KeysOf(PairsIn(results, lanes)) == lanes
  {
    forall key | key in lanes ensures key in KeysOf(PairsIn(results, lanes)) {
      var r :| r in results && LaneOf(r) == key;
      assert PairOf(r) in PairsIn(results, lanes);
    }
  }

  lemma KeysAreClosed(results: seq<SuiteResult>, pairs: set<Lane>)
    requires KeepsApart(Phases(results)) && pairs <= Pairs(results) && ClosedPairs(results, pairs)
    ensures ClosedLanes(results, KeysOf(pairs))
  {
    forall key | key in Lanes(results) && LaneHarmless(results, KeysOf(pairs), key) ensures key in KeysOf(pairs) {
      var q :| q in results && LaneOf(q) == key;
      SameHarmless(results, pairs, q);
      assert PairOf(q) in Pairs(results);
    }
  }

  lemma PairsAreClosed(results: seq<SuiteResult>, lanes: set<string>)
    requires KeepsApart(Phases(results)) && lanes <= Lanes(results) && ClosedLanes(results, lanes)
    ensures ClosedPairs(results, PairsIn(results, lanes))
  {
    var pairs := PairsIn(results, lanes);
    KeysOfPairsIn(results, lanes);
    forall p | p in Pairs(results) && PairHarmless(results, pairs, p) ensures p in pairs {
      var q :| q in results && PairOf(q) == p;
      SameHarmless(results, pairs, q);
      assert LaneOf(q) in Lanes(results);
    }
  }

  /** With phase ids that are kept apart the joined keys lead to the same lanes as the pairs. */
  lemma ApartLanesAgree(results: seq<SuiteResult>, lanes: set<string>, pairs: set<Lane>)
    requires KeepsApart(Phases(results)) && LeastClosed(results, lanes) && LeastClosedPairs(results, pairs)
    ensures lanes == KeysOf(pairs)
  {
    KeysAreClosed(results, pairs);
    PairsAreClosed(results, lanes);
    KeysOfPairsIn(results, lanes);
    forall key | key in KeysOf(pairs) ensures key in lanes {
      var p :| p in pairs && LaneKey(p.0, p.1) == key;
      assert p in PairsIn(results, lanes);
    }
  }

  lemma {:induction false} FilterSame<T>(s: seq<T>, p: T -> bool, q: T -> bool)
    requires forall x | x in s :: p(x) == q(x)
    ensures Filter(s, p) == Filter(s, q)
  {
    if s != [] { FilterSame(s[..|s| - 1], p, q); }
  }

  /** Both ways of comparing lanes give this run the same verdict and counts. */
  predicate SameVerdict(results: seq<SuiteResult>, lanes: set<string>, pairs: set<Lane>, exitCode: Option<int>,
                        executionCancelled: bool) {
    OutcomeOf(results, lanes, exitCode, executionCancelled) ==
    PairOutcomeOf(results, pairs, exitCode, executionCancelled)
  }

  /** And so every such run gets the same verdict and counts. */
  lemma ApartVerdictsAgree(results: seq<SuiteResult>, lanes: set<string>, pairs: set<Lane>,
                           exitCode: Option<int>, executionCancelled: bool)
    requires KeepsApart(Phases(results)) && LeastClosed(results, lanes) && LeastClosedPairs(results, pairs)
    ensures SameVerdict(results, lanes, pairs, exitCode, executionCancelled)
  {
    ApartLanesAgree(results, lanes, pairs);
    forall r | r in results ensures IsOptionallyNotRun(lanes)(r) == IsNotRunForPairs(pairs)(r) {
      SameBlocks(results, pairs, r);
    }
    FilterSame(results, IsOptionallyNotRun(lanes), IsNotRunForPairs(pairs));
  }

  /** Every run over these phases gets the verdict that it would get over pairs, however it ended. */
  ghost predicate VerdictsAgreeOver(phases: set<string>) {
    forall results, lanes, pairs, exitCode, executionCancelled |
      Phases(results) <= phases && LeastClosed(results, lanes) && LeastClosedPairs(results, pairs) ::
      SameVerdict(results, lanes, pairs, exitCode, executionCancelled)
  }

  lemma LeastClosedExists(results: seq<SuiteResult>) returns (lanes: set<string>)
    ensures LeastClosed(results, lanes)
  {
    lanes := set key | key in Lanes(results) && forall s | ClosedLanes(results, s) :: key in s;
    forall s, key | ClosedLanes(results, s) && key in Lanes(results) && LaneHarmless(results, lanes, key)
      ensures key in s
    {
      HarmlessMonotone(results, lanes, s, key);
    }
  }

  lemma PairHarmlessMonotone(results: seq<SuiteResult>, a: set<Lane>, b: set<Lane>, p: Lane)
    requires a <= b && PairHarmless(results, a, p)
    ensures PairHarmless(results, b, p)
  {
    forall r | r in results && PairOf(r) == p && BlockedOnlyByPairs(a, r) ensures BlockedOnlyByPairs(b, r) {}
  }

  lemma LeastClosedPairsExists(results: seq<SuiteResult>) returns (pairs: set<Lane>)
    ensures LeastClosedPairs(results, pairs)
  {
    pairs := set p | p in Pairs(results) && forall s | ClosedPairs(results, s) :: p in s;
    forall s, p | ClosedPairs(results, s) && p in Pairs(results) && PairHarmless(results, pairs, p) ensures p in s {
      PairHarmlessMonotone(results, pairs, s, p);
    }
  }

  /** A passed lane `c` of phase `p/x`, and a result of phase `p` that waits for a lane `x/c` nobody ran. */
  function CollidingResults(p: string, x: string): seq<SuiteResult> {
    [SuiteResult(PASSED, "", "", [], p + "/" + x, "c"),
     SuiteResult(NOT_RUN, PREREQUISITE_LANE_INCOMPLETE, "", [x + "/c"], p, "z")]
  }

  lemma CollidingKeys(p: string, x: string)
    ensures LaneKey(p + "/" + x, "c") == LaneKey(p, x + "/c") != LaneKey(p, "z")
  {
    var a, b := LaneKey(p + "/" + x, "c"), LaneKey(p, x + "/c");
    assert |a| == |b| == |p| + |x| + 3;
    assert a == b;
    assert |LaneKey(p, "z")| == |p| + 2;
  }

  /** The collision turns a failed verdict into a passed one. */
  lemma CollisionChangesVerdict(p: string, x: string) returns (lanes: set<string>, pairs: set<Lane>)
    ensures var results := CollidingResults(p, x);
      Phases(results) == {p, p + "/" + x} && LeastClosed(results, lanes) && LeastClosedPairs(results, pairs) &&
      OutcomeOf(results, lanes, Some(0), false).status == Passed &&
      PairOutcomeOf(results, pairs, Some(0), false).status == Failed
  {
    lanes := LeastClosedExists(CollidingResults(p, x));
    pairs := LeastClosedPairsExists(CollidingResults(p, x));
    CollidingPasses(p, x, lanes);
    CollidingFails(p, x, pairs);
  }

  lemma CollidingIsAcceptable(p: string, x: string, lanes: set<string>)
    requires LeastClosed(CollidingResults(p, x), lanes)
    ensures Acceptable(CollidingResults(p, x), lanes, Some(0))
  {
    var results := CollidingResults(p, x);
    CollidingKeys(p, x);
    var key := LaneKey(p + "/" + x, "c");
    assert results[0] in results && LaneHarmless(results, lanes, key);
    assert key in Lanes(results);
    assert BlockedOnlyBy(lanes, results[1]);
  }

  lemma CollidingPasses(p: string, x: string, lanes: set<string>)
    requires LeastClosed(CollidingResults(p, x), lanes)
    ensures OutcomeOf(CollidingResults(p, x), lanes, Some(0), false).status == Passed
  {
    CollidingIsAcceptable(p, x, lanes);
    VerdictExact(CollidingResults(p, x), lanes, Some(0), false);
  }

  lemma CollidingFails(p: string, x: string, pairs: set<Lane>)
    requires LeastClosedPairs(CollidingResults(p, x), pairs)
    ensures PairOutcomeOf(CollidingResults(p, x), pairs, Some(0), false).status == Failed
  {
    var results := CollidingResults(p, x);
    var missing: Lane := (p, x + "/c");
    assert |missing.1| >= 2;
    assert missing !in pairs by { assert missing !in Pairs(results); }
    assert missing.1 in results[1].blockedBy;
    forall r | r in results ensures !IsNotRunForPairs(pairs)(r) {}
    CountZero(results, IsNotRunForPairs(pairs));
    CountZero(results, HasStatus(NOT_RUN));
    CountZero(results, HasStatus(CANCELLED));
    assert HasStatus(NOT_RUN)(results[1]);
  }

  /**
   * The joined key gives every run over these phases the verdict over pairs exactly when no phase id continues
   * another one behind a slash.
   */
  lemma VerdictsAgreeExactly(phases: set<string>)
    ensures VerdictsAgreeOver(phases) <==> KeepsApart(phases)
  {
    if KeepsApart(phases) {
      forall results, lanes, pairs, exitCode, executionCancelled |
        Phases(results) <= phases && LeastClosed(results, lanes) && LeastClosedPairs(results, pairs)
        ensures SameVerdict(results, lanes, pairs, exitCode, executionCancelled)
      {
        ApartVerdictsAgree(results, lanes, pairs, exitCode, executionCancelled);
      }
    }
    forall p, q | p in phases && q in phases && p + "/" <= q ensures !VerdictsAgreeOver(phases) {
      var x := q[|p| + 1..];
      assert q == p + "/" + x;
      var lanes, pairs := CollisionChangesVerdict(p, x);
      assert !SameVerdict(CollidingResults(p, x), lanes, pairs, Some(0), false);
    }
  }

  /** In particular with phase ids that contain no slash at all. */
  lemma SlashFreeVerdictsAgree(phases: set<string>)
    requires forall p | p in phases :: '/' !in p
    ensures VerdictsAgreeOver(phases)
  {
    forall p, q | p in phases && q in phases ensures !(p + "/" <= q) {
      assert (p + "/")[|p|] == '/';
    }
    VerdictsAgreeExactly(phases);
  }
}
