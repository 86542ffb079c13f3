/** What holds of the state file over every sequence of runs and kills. */
module DeploymentRuns {
  import opened Sequences
  import opened LocalDeployment
  import opened DeploymentOutcomes

  // ----- one run over a prefix

  /** The list names the first `n` stages, in order and once each. */
  predicate IsPrefixOf(list: seq<string>, n: nat) {
    n <= |STAGES| && list == STAGES[..n]
  }

  predicate IsPrefix(list: seq<string>) {
    IsPrefixOf(list, |list|)
  }

  /** Something before stage `i` had to be made anew, so nothing beyond that stage can be carried over. */
  predicate MadeAnew(w: World, i: nat) {
    (i >= 1 && !w.sourceBundleValid) || (i >= 3 && !TargetCached(w)) || (i >= 4 && !w.imageReady)
  }

  /** How many stages the list holds once stage number `i` is recorded by a run that started from `n`. */
  function Level(n: nat, w: World, i: nat): nat {
    if MadeAnew(w, i) || n <= i then i + 1 else n
  }

  lemma StagesDistinct()
    ensures Distinct(STAGES) && |STAGES| == 8
  {
  }

  lemma PrefixMembers(list: seq<string>, n: nat, i: nat)
    requires IsPrefixOf(list, n) && i < |STAGES|
    ensures STAGES[i] in list <==> i < n
    ensures i < n ==> IndexOf(list, STAGES[i]) == i
  {
    StagesDistinct();
    if i < n { assert list[i] == STAGES[i]; }
  }

  /** The run shortens its list just before it records stage `i`. */
  predicate DropsAt(w: World, i: nat) {
    (i == 1 && !w.sourceBundleValid) || (i == 3 && !TargetCached(w)) || (i == 4 && !w.imageReady)
  }

  /** Dropping what was made anew and adding the stage leaves a prefix again. */
  lemma PrepareAndInclude(list: seq<string>, w: World, m: nat, i: nat)
    requires IsPrefixOf(list, m) && i <= m && i < |STAGES|
    ensures IsPrefixOf(Include(Prepared(list, w, i), STAGES[i]), if DropsAt(w, i) || m == i then i + 1 else m)
  {
    PrefixMembers(list, m, i);
    var prepared := Prepared(list, w, i);
    var k := if DropsAt(w, i) then i else m;
    assert IsPrefixOf(prepared, k);
    PrefixMembers(prepared, k, i);
    assert k == i ==> prepared + [STAGES[i]] == STAGES[..i + 1];
  }

  lemma LevelStep(n: nat, w: World, i: nat)
    requires 1 <= i
    ensures i <= Level(n, w, i - 1)
    ensures Level(n, w, i) == if DropsAt(w, i) || Level(n, w, i - 1) == i then i + 1 else Level(n, w, i - 1)
  {
  }

  lemma MemoryStep(saved: seq<string>, w: World, i: nat)
    requires i < |STAGES|
    ensures Memory(saved, w, i + 1) == Include(Prepared(Memory(saved, w, i), w, i), STAGES[i])
    ensures Memory(saved, w, 0) == saved
  {
  }

  /** The list that the run writes for stage `i` is the prefix of length `Level`. */
  lemma {:induction false} WrittenListExact(n: nat, saved: seq<string>, w: World, i: nat)
    requires IsPrefixOf(saved, n) && i < |STAGES|
    ensures IsPrefixOf(Memory(saved, w, i + 1), Level(n, w, i))
  {
    MemoryStep(saved, w, i);
    if i == 0 {
      PrepareAndInclude(saved, w, n, 0);
    } else {
      WrittenListExact(n, saved, w, i - 1);
      LevelStep(n, w, i);
      PrepareAndInclude(Memory(saved, w, i), w, Level(n, w, i - 1), i);
    }
  }

  // ----- one run over any list

  /** When an arbitrary saved list is a prefix again once stage `i` is recorded. */
  predicate Repairs(saved: seq<string>, w: World, i: nat) {
    IsPrefix(saved) ||
    (i >= 1 && !w.sourceBundleValid) ||
    (i >= 3 && !TargetCached(w) && STAGES[..4] <= saved) ||
    (i >= 4 && !w.imageReady && STAGES[..5] <= saved)
  }

  lemma PrefixOrder(list: seq<string>)
    ensures IsPrefix(list) <==> list <= STAGES
  {
  }

  /** A prefix that holds a stage holds it in its place. */
  lemma HoldsInPlace(stages: seq<string>, list: seq<string>, i: nat)
    requires Distinct(stages) && list <= stages && i < |stages|
    ensures stages[i] in list <==> i < |list|
  {
    if i < |list| { assert list[i] == stages[i]; }
  }

  /** A stage can be added to make a prefix exactly to the stages before it. */
  lemma AddedStage(stages: seq<string>, list: seq<string>, i: nat)
    requires Distinct(stages) && i < |stages| && stages[i] !in list
    ensures list + [stages[i]] <= stages <==> list == stages[..i]
  {
    var more := list + [stages[i]];
    if more <= stages {
      assert more[|list|] == stages[|list|];
      assert list == more[..|list|];
    }
    if list == stages[..i] { assert more == stages[..i + 1]; }
  }

  /** Recording a stage that must follow keeps prefixes and makes none. */
  lemma IncludeKeepsPrefix(stages: seq<string>, list: seq<string>, i: nat)
    requires Distinct(stages) && i < |stages| && (i == 0 || stages[i - 1] in list)
    ensures Include(list, stages[i]) <= stages <==> list <= stages
  {
    if list <= stages {
      HoldsInPlace(stages, list, i);
      if i > 0 { HoldsInPlace(stages, list, i - 1); }
    }
    if stages[i] !in list { AddedStage(stages, list, i); }
  }

  /** Cutting at a stage repairs exactly the lists that hold the stages up to it in order. */
  lemma CutRepairs(stages: seq<string>, list: seq<string>, saved: seq<string>, i: nat)
    requires Distinct(stages) && 1 <= i < |stages| && saved <= list && stages[i] !in list[|saved|..]
    requires stages[i - 1] in list && (list <= stages <==> saved <= stages)
    ensures Include(CutAt(list, stages[i]), stages[i]) <= stages <==> saved <= stages || stages[..i + 1] <= saved
  {
    var cut := CutAt(list, stages[i]);
    AddedStage(stages, cut, i);
    if stages[i] in list {
      var at := IndexOf(list, stages[i]);
      forall k | |saved| <= k < |list| ensures list[k] != stages[i] {
        assert list[k] == list[|saved|..][k - |saved|];
      }
      assert cut == saved[..at] && saved[at] == stages[i];
      CutOfPrefix(stages, saved, at, i);
    } else {
      NoCutOfPrefix(stages, list, saved, i);
    }
  }

  lemma CutOfPrefix(stages: seq<string>, saved: seq<string>, at: nat, i: nat)
    requires Distinct(stages) && i < |stages| && at < |saved| && saved[at] == stages[i] && stages[i] !in saved[..at]
    ensures saved[..at] == stages[..i] <==> stages[..i + 1] <= saved
    ensures saved <= stages ==> stages[..i + 1] <= saved
  {
    assert forall k | 0 <= k < at :: saved[..at][k] == saved[k];
    var more := stages[..i + 1];
    assert more[i] == stages[i];
    if saved[..at] == stages[..i] { assert more == stages[..i] + [stages[i]] == saved[..at] + [saved[at]]; }
    if more <= saved {
      assert forall k | 0 <= k <= i :: saved[k] == more[k] == stages[k];
      assert at == i;
    }
    if saved <= stages {
      assert saved[at] == stages[at];
      assert more == saved[..i + 1];
    }
  }

  lemma NoCutOfPrefix(stages: seq<string>, list: seq<string>, saved: seq<string>, i: nat)
    requires Distinct(stages) && 1 <= i < |stages| && saved <= list && stages[i] !in list && stages[i - 1] in list
    requires list <= stages <==> saved <= stages
    ensures list == stages[..i] <==> saved <= stages || stages[..i + 1] <= saved
  {
    if list <= stages {
      HoldsInPlace(stages, list, i);
      HoldsInPlace(stages, list, i - 1);
    }
    assert forall k | 0 <= k < |saved| :: saved[k] == list[k];
    var more := stages[..i + 1];
    assert more[i] == stages[i];
  }

  /** While nothing is dropped the list only grows, by stages already recorded. */
  ghost predicate Grown(stages: seq<string>, saved: seq<string>, list: seq<string>, i: nat)
    requires i <= |stages|
  {
    saved <= list && (forall x | x in list[|saved|..] :: x in stages[..i]) && (list <= stages <==> saved <= stages) &&
    (i > 0 ==> stages[i - 1] in list)
  }

  lemma GrownStep(stages: seq<string>, saved: seq<string>, list: seq<string>, i: nat)
    requires Distinct(stages) && i < |stages| && Grown(stages, saved, list, i)
    ensures Grown(stages, saved, Include(list, stages[i]), i + 1)
  {
    IncludeKeepsPrefix(stages, list, i);
    var more := Include(list, stages[i]);
    forall x | x in more[|saved|..] ensures x in stages[..i + 1] {
      var k :| |saved| <= k < |more| && more[k] == x;
      if k < |list| {
        assert x in list[|saved|..];
        assert stages[..i] <= stages[..i + 1];
      } else {
        assert stages[..i + 1][i] == x;
      }
    }
  }

  /** A stage that comes later is not among what the list has grown by. */
  lemma LaterStageNotGrown(stages: seq<string>, saved: seq<string>, list: seq<string>, i: nat)
    requires Distinct(stages) && i < |stages| && Grown(stages, saved, list, i)
    ensures stages[i] !in list[|saved|..]
  {
    assert stages[i] !in stages[..i];
  }

  lemma CutOfGrown(stages: seq<string>, saved: seq<string>, list: seq<string>, i: nat)
    requires Distinct(stages) && 1 <= i < |stages| && Grown(stages, saved, list, i)
    ensures Include(CutAt(list, stages[i]), stages[i]) <= stages <==> saved <= stages || stages[..i + 1] <= saved
  {
    LaterStageNotGrown(stages, saved, list, i);
    CutRepairs(stages, list, saved, i);
  }

  /** No stage before `i` made the run shorten its list. */
  predicate NothingDropped(w: World, i: nat) {
    (i >= 2 ==> w.sourceBundleValid) && (i >= 4 ==> TargetCached(w)) && (i >= 5 ==> w.imageReady)
  }

  lemma NothingPrepared(list: seq<string>, w: World, i: nat)
    requires NothingDropped(w, i + 1)
    ensures Prepared(list, w, i) == list && NothingDropped(w, i)
  {
  }

  lemma {:induction false} MemoryGrows(saved: seq<string>, w: World, i: nat)
    requires i <= |STAGES| && NothingDropped(w, i)
    ensures Grown(STAGES, saved, Memory(saved, w, i), i)
  {
    if i > 0 {
      NothingPrepared(Memory(saved, w, i - 1), w, i - 1);
      MemoryGrows(saved, w, i - 1);
      MemoryStep(saved, w, i - 1);
      StagesDistinct();
      GrownStep(STAGES, saved, Memory(saved, w, i - 1), i - 1);
    } else {
      MemoryStep(saved, w, 0);
    }
  }

  lemma RecordedStage(saved: seq<string>, w: World, i: nat)
    requires i < |STAGES|
    ensures STAGES[i] in Memory(saved, w, i + 1)
  {
    MemoryStep(saved, w, i);
  }

  /** Cutting at the next stage a list that ends in a stage does not change whether it is a prefix. */
  lemma CutAfterLast(stages: seq<string>, list: seq<string>, i: nat)
    requires Distinct(stages) && 1 <= i < |stages|
    requires list != [] && list[|list| - 1] == stages[i - 1] && stages[i - 1] !in list[..|list| - 1]
    ensures Include(CutAt(list, stages[i]), stages[i]) <= stages <==> list <= stages
  {
    var cut := CutAt(list, stages[i]);
    AddedStage(stages, cut, i);
    if cut == stages[..i] {
      assert cut[i - 1] == stages[i - 1];
      assert forall k | 0 <= k < |list| - 1 :: list[..|list| - 1][k] == list[k];
      assert cut == list;
    }
    if list <= stages {
      assert list[|list| - 1] == stages[|list| - 1];
      assert list == stages[..i];
      HoldsInPlace(stages, list, i);
    }
  }

  lemma TransferCut(saved: seq<string>, w: World)
    requires w.sourceBundleValid && !TargetCached(w)
    ensures IsPrefix(Memory(saved, w, 4)) <==> IsPrefix(saved) || STAGES[..4] <= saved
  {
    var list := Memory(saved, w, 3);
    MemoryGrows(saved, w, 3);
    MemoryStep(saved, w, 3);
    StagesDistinct();
    CutOfGrown(STAGES, saved, list, 3);
    PrefixOrder(saved);
    PrefixOrder(Memory(saved, w, 4));
  }

  /** A stage recorded behind a cut at it stands last and only there. */
  lemma CutEndsIn(list: seq<string>, stage: string)
    ensures var more := Include(CutAt(list, stage), stage);
      more != [] && more[|more| - 1] == stage && stage !in more[..|more| - 1]
  {
    var cut := CutAt(list, stage);
    assert (cut + [stage])[..|cut|] == cut;
  }

  lemma TransferIsLast(saved: seq<string>, w: World)
    requires !TargetCached(w)
    ensures var list := Memory(saved, w, 4);
      list != [] && list[|list| - 1] == STAGES[3] && STAGES[3] !in list[..|list| - 1]
  {
    MemoryStep(saved, w, 3);
    CutEndsIn(Memory(saved, w, 3), STAGES[3]);
  }

  lemma ImportCut(saved: seq<string>, w: World)
    requires w.sourceBundleValid && !w.imageReady
    ensures IsPrefix(Memory(saved, w, 5)) <==> Repairs(saved, w, 4)
  {
    if TargetCached(w) {
      ImportCutOnly(saved, w);
    } else {
      TransferCut(saved, w);
      ImportCutAfterTransfer(saved, w);
      LongerPrefix(saved);
    }
  }

  lemma ImportCutOnly(saved: seq<string>, w: World)
    requires w.sourceBundleValid && TargetCached(w) && !w.imageReady
    ensures IsPrefix(Memory(saved, w, 5)) <==> IsPrefix(saved) || STAGES[..5] <= saved
  {
    var list := Memory(saved, w, 4);
    MemoryGrows(saved, w, 4);
    MemoryStep(saved, w, 4);
    StagesDistinct();
    CutOfGrown(STAGES, saved, list, 4);
    PrefixOrder(saved);
    PrefixOrder(Memory(saved, w, 5));
  }

  lemma ImportCutAfterTransfer(saved: seq<string>, w: World)
    requires !TargetCached(w) && !w.imageReady
    ensures IsPrefix(Memory(saved, w, 5)) <==> IsPrefix(Memory(saved, w, 4))
  {
    MemoryStep(saved, w, 4);
    StagesDistinct();
    TransferIsLast(saved, w);
    CutAfterLast(STAGES, Memory(saved, w, 4), 4);
    PrefixOrder(Memory(saved, w, 4));
    PrefixOrder(Memory(saved, w, 5));
  }

  lemma LongerPrefix(saved: seq<string>)
    ensures STAGES[..5] <= saved ==> STAGES[..4] <= saved
  {
    assert STAGES[..4] <= STAGES[..5];
  }

  /** Once the bundle is made anew every list written is a prefix. */
  lemma {:induction false} RebuiltIsPrefix(saved: seq<string>, w: World, i: nat)
    requires 1 <= i < |STAGES| && !w.sourceBundleValid
    ensures IsPrefix(Memory(saved, w, i + 1))
  {
    if i == 1 {
      MemoryStep(saved, w, 1);
      RebuiltStart(Memory(saved, w, 1), w);
    } else {
      RebuiltIsPrefix(saved, w, i - 1);
      RebuiltStep(saved, w, i);
    }
  }

  lemma RebuiltStep(saved: seq<string>, w: World, i: nat)
    requires 1 <= i < |STAGES| && IsPrefix(Memory(saved, w, i))
    ensures IsPrefix(Memory(saved, w, i + 1))
  {
    MemoryStep(saved, w, i);
    RecordedStage(saved, w, i - 1);
    RebuiltGoesOn(Memory(saved, w, i), w, i);
  }

  lemma RebuiltStart(list: seq<string>, w: World)
    requires !w.sourceBundleValid
    ensures IsPrefix(Include(Prepared(list, w, 1), STAGES[1]))
  {
    assert STAGES[..2] == ["candidate", "images"];
  }

  lemma RebuiltGoesOn(list: seq<string>, w: World, i: nat)
    requires 1 <= i < |STAGES| && IsPrefix(list) && STAGES[i - 1] in list
    ensures IsPrefix(Include(Prepared(list, w, i), STAGES[i]))
  {
    PrefixMembers(list, |list|, i - 1);
    PrepareAndInclude(list, w, |list|, i);
  }

  /** With a valid bundle a list can be repaired by the transfer and import cuts only. */
  lemma {:induction false} KeptRepairs(saved: seq<string>, w: World, i: nat)
    requires i < |STAGES| && w.sourceBundleValid
    ensures IsPrefix(Memory(saved, w, i + 1)) <==> Repairs(saved, w, i)
    decreases i, 1
  {
    if NothingDropped(w, i + 1) {
      KeptUncut(saved, w, i);
    } else if DropsAt(w, i) {
      KeptAtCut(saved, w, i);
    } else {
      KeptBetween(saved, w, i);
    }
  }

  lemma KeptAtCut(saved: seq<string>, w: World, i: nat)
    requires i < |STAGES| && w.sourceBundleValid && DropsAt(w, i)
    ensures IsPrefix(Memory(saved, w, i + 1)) <==> Repairs(saved, w, i)
  {
    if i == 3 { TransferCut(saved, w); } else { ImportCut(saved, w); }
  }

  lemma {:induction false} KeptBetween(saved: seq<string>, w: World, i: nat)
    requires 1 <= i < |STAGES| && w.sourceBundleValid && !DropsAt(w, i)
    ensures IsPrefix(Memory(saved, w, i + 1)) <==> Repairs(saved, w, i)
    decreases i, 0
  {
    var earlier := i - 1;
    KeptRepairs(saved, w, earlier);
    assert earlier + 1 == i;
    NoDropStep(saved, w, i);
    NoDropRepairs(saved, w, i);
  }

  lemma KeptUncut(saved: seq<string>, w: World, i: nat)
    requires i < |STAGES| && NothingDropped(w, i + 1)
    ensures IsPrefix(Memory(saved, w, i + 1)) <==> Repairs(saved, w, i)
  {
    MemoryGrows(saved, w, i + 1);
    NothingRepaired(saved, w, i);
    PrefixOrder(saved);
    PrefixOrder(Memory(saved, w, i + 1));
  }

  lemma NothingRepaired(saved: seq<string>, w: World, i: nat)
    requires NothingDropped(w, i + 1)
    ensures Repairs(saved, w, i) <==> IsPrefix(saved)
  {
  }

  lemma NoDropRepairs(saved: seq<string>, w: World, i: nat)
    requires 1 <= i && !DropsAt(w, i) && w.sourceBundleValid
    ensures Repairs(saved, w, i) <==> Repairs(saved, w, i - 1)
  {
  }

  lemma NoDropStep(saved: seq<string>, w: World, i: nat)
    requires 1 <= i < |STAGES| && !DropsAt(w, i)
    ensures IsPrefix(Memory(saved, w, i + 1)) <==> IsPrefix(Memory(saved, w, i))
  {
    MemoryStep(saved, w, i);
    RecordedStage(saved, w, i - 1);
    StagesDistinct();
    IncludeKeepsPrefix(STAGES, Memory(saved, w, i), i);
    PrefixOrder(Memory(saved, w, i));
    PrefixOrder(Memory(saved, w, i + 1));
  }

  /**
   * Whatever list was saved, the list written with stage `i` is a prefix exactly when the saved one was, the
   * bundle was made anew, or the list was cut behind stages that it held in order.
   */
  lemma RepairExact(saved: seq<string>, w: World, i: nat)
    requires i < |STAGES|
    ensures IsPrefix(Memory(saved, w, i + 1)) <==> Repairs(saved, w, i)
  {
    if w.sourceBundleValid {
      KeptRepairs(saved, w, i);
    } else if i == 0 {
      KeptUncut(saved, w, 0);
    } else {
      RebuiltIsPrefix(saved, w, i);
    }
  }

  /** A list edited by hand can survive a whole run. */
  lemma EditedListSurvives(w: World)
    requires w.sourceBundleValid && w.targetBundleValid && w.imageReady
    ensures !IsPrefix(Memory(["images"], w, |STAGES|))
  {
    RepairExact(["images"], w, |STAGES| - 1);
    assert ["images"][0] != STAGES[0];
  }

  // ----- what a deployment reports

  function Ids(reports: seq<StageReport>): seq<string> {
    seq(|reports|, (i: nat) requires i < |reports| => reports[i].id)
  }

  /**
   * A run that deploys reports all eight stages in order; once images, bundle or transfer is made anew, so are
   * the later ones of these three.
   */
  lemma DeployedReportsEveryStage(run: Run)
    requires Ending(run).1.Deployed?
    ensures Ids(Ending(run).1.stages) == STAGES
    ensures forall i, j: nat | 1 <= i < j <= 3 ::
      Ending(run).1.stages[i].status.Completed? ==> Ending(run).1.stages[j].status.Completed?
    ensures Ending(run).1.replaced <==> exists port :: Replaces(run.world, run.revision, port)
  {
    DeployedReports(run);
  }

  // ----- sequences of runs

  datatype Attempt = Attempt(revision: string, world: World, lifetime: nat)

  function RunOf(disk: Disk, attempt: Attempt): Run {
    Run(attempt.revision, ReadDeploymentState(disk, attempt.revision), attempt.world, attempt.lifetime)
  }

  /** The lists that the attempt writes, oldest first. */
  function Persists(disk: Disk, attempt: Attempt): seq<seq<string>> {
    var run := RunOf(disk, attempt);
    Written(run.saved, run.world, Ending(run).0)
  }

  function After(disk: Disk, attempt: Attempt): Disk {
    Stored(disk, attempt.revision, Persists(disk, attempt))
  }

  function AfterAll(disk: Disk, attempts: seq<Attempt>): Disk {
    if attempts == [] then disk else After(AfterAll(disk, attempts[..|attempts| - 1]), attempts[|attempts| - 1])
  }

  /** Every list that a run could read is a prefix of the stages. */
  ghost predicate PrefixDisk(disk: Disk) {
    forall revision :: IsPrefix(ReadDeploymentState(disk, revision))
  }

  lemma ReadsBack(disk: Disk, revision: string, written: seq<seq<string>>, other: string)
    ensures ReadDeploymentState(Stored(disk, revision, written), other) ==
      if other == revision && written != [] then written[|written| - 1] else ReadDeploymentState(disk, other)
  {
  }

  /** Every list that the attempt writes is a prefix of the stages without duplicates. */
  ghost predicate PersistsPrefixes(disk: Disk, attempt: Attempt) {
    forall list | list in Persists(disk, attempt) :: IsPrefix(list) && Distinct(list)
  }

  lemma AttemptPersistsPrefixes(disk: Disk, attempt: Attempt)
    requires PrefixDisk(disk)
    ensures PersistsPrefixes(disk, attempt)
  {
    forall list | list in Persists(disk, attempt) ensures IsPrefix(list) && Distinct(list) {
      var k :| 0 <= k < |Persists(disk, attempt)| && Persists(disk, attempt)[k] == list;
      WrittenIsPrefix(RunOf(disk, attempt), k);
    }
  }

  lemma WrittenIsPrefix(run: Run, k: nat)
    requires IsPrefix(run.saved) && k < Ending(run).0
    ensures var list := Written(run.saved, run.world, Ending(run).0)[k]; IsPrefix(list) && Distinct(list)
  {
    WrittenListExact(|run.saved|, run.saved, run.world, k);
    StagesDistinct();
  }

  lemma AttemptKeepsPrefixDisk(disk: Disk, attempt: Attempt)
    requires PrefixDisk(disk)
    ensures PrefixDisk(After(disk, attempt))
  {
    AttemptPersistsPrefixes(disk, attempt);
    forall revision ensures IsPrefix(ReadDeploymentState(After(disk, attempt), revision)) {
      ReadsBack(disk, attempt.revision, Persists(disk, attempt), revision);
    }
  }

  lemma {:induction false} RunsKeepPrefixDisk(disk: Disk, attempts: seq<Attempt>)
    requires PrefixDisk(disk)
    ensures PrefixDisk(AfterAll(disk, attempts))
  {
    if attempts != [] {
      RunsKeepPrefixDisk(disk, attempts[..|attempts| - 1]);
      AttemptKeepsPrefixDisk(AfterAll(disk, attempts[..|attempts| - 1]), attempts[|attempts| - 1]);
    }
  }

  /** Over every sequence of runs and kills each persisted list is a duplicate-free prefix of the eight stages. */
  lemma EveryPersistedListIsPrefix(disk: Disk, attempts: seq<Attempt>)
    requires PrefixDisk(disk)
    ensures forall k | 0 <= k < |attempts| :: PersistsPrefixes(AfterAll(disk, attempts[..k]), attempts[k])
  {
    forall k | 0 <= k < |attempts| ensures PersistsPrefixes(AfterAll(disk, attempts[..k]), attempts[k]) {
      RunsKeepPrefixDisk(disk, attempts[..k]);
      AttemptPersistsPrefixes(AfterAll(disk, attempts[..k]), attempts[k]);
    }
  }

  /** After a run that deploys the state file lists all eight stages, whatever prefix it started from. */
  lemma DeployedPersistsEveryStage(disk: Disk, attempt: Attempt)
    requires PrefixDisk(disk) && Ending(RunOf(disk, attempt)).1.Deployed?
    ensures ReadDeploymentState(After(disk, attempt), attempt.revision) == STAGES
  {
    var run := RunOf(disk, attempt);
    DeployedExact(run);
    WrittenListExact(|run.saved|, run.saved, run.world, |STAGES| - 1);
    ReadsBack(disk, attempt.revision, Persists(disk, attempt), attempt.revision);
    assert STAGES[..|STAGES|] == STAGES;
  }

  /** How many stages the attempt records before it ends. */
  function Recorded(disk: Disk, attempt: Attempt): nat {
    Ending(RunOf(disk, attempt)).0
  }

  /** The attempt may install, lives to write `m` files and goes through its first `m` stages. */
  predicate GetsTo(attempt: Attempt, m: nat) {
    Gets(attempt.revision, attempt.world, attempt.lifetime, m)
  }

  lemma AttemptRecords(disk: Disk, attempt: Attempt, m: nat)
    requires 1 <= m <= |STAGES|
    ensures Recorded(disk, attempt) >= m <==> GetsTo(attempt, m)
  {
    RecordedExact(RunOf(disk, attempt), m);
  }

  /** Something was made anew by stage `i` exactly when the list was shortened at it or before. */
  lemma MadeAnewByDrops(w: World, i: nat)
    ensures MadeAnew(w, i) <==> exists d | 0 <= d <= i :: DropsAt(w, d)
  {
    if MadeAnew(w, i) {
      assert if !w.sourceBundleValid then DropsAt(w, 1) else if !TargetCached(w) then DropsAt(w, 3) else DropsAt(w, 4);
    }
  }

  /** The list that an attempt leaves: the old one, or the one written with the last stage recorded. */
  lemma LeftList(disk: Disk, attempt: Attempt)
    requires PrefixDisk(disk)
    ensures var saved := ReadDeploymentState(disk, attempt.revision);
      var k := Recorded(disk, attempt);
      IsPrefixOf(ReadDeploymentState(After(disk, attempt), attempt.revision),
                 if k == 0 then |saved| else Level(|saved|, attempt.world, k - 1))
  {
    var run, k := RunOf(disk, attempt), Recorded(disk, attempt);
    ReadsBack(disk, attempt.revision, Persists(disk, attempt), attempt.revision);
    if k > 0 { WrittenListExact(|run.saved|, run.saved, run.world, k - 1); }
  }

  /** The run records the stage behind one of the cuts that its world asks for. */
  ghost predicate PassesCut(attempt: Attempt) {
    exists d: nat | d < |STAGES| && DropsAt(attempt.world, d) :: GetsTo(attempt, d + 1)
  }

  lemma PassesCutExact(disk: Disk, attempt: Attempt)
    ensures PassesCut(attempt) <==> Recorded(disk, attempt) > 0 && MadeAnew(attempt.world, Recorded(disk, attempt) - 1)
  {
    var k := Recorded(disk, attempt);
    forall d: nat | d < |STAGES| && DropsAt(attempt.world, d) ensures GetsTo(attempt, d + 1) <==> d + 1 <= k {
      AttemptRecords(disk, attempt, d + 1);
    }
    if k > 0 { MadeAnewByDrops(attempt.world, k - 1); }
  }

  /**
   * The state file afterwards claims at least what the run recorded, and exactly that when there was no more to
   * claim before or the run records the stage behind one of its cuts. A run that ends earlier leaves the old
   * claims standing, because a shortened list is not written before that stage.
   */
  lemma StaleClaimsExact(disk: Disk, attempt: Attempt)
    requires PrefixDisk(disk)
    ensures var saved := ReadDeploymentState(disk, attempt.revision);
      var left := ReadDeploymentState(After(disk, attempt), attempt.revision);
      |left| >= Recorded(disk, attempt) &&
      (|left| == Recorded(disk, attempt) <==> saved == [] || GetsTo(attempt, |saved|) || PassesCut(attempt))
  {
    var saved := ReadDeploymentState(disk, attempt.revision);
    LeftList(disk, attempt);
    PassesCutExact(disk, attempt);
    assert IsPrefix(saved);
    if saved != [] { AttemptRecords(disk, attempt, |saved|); }
  }

  /** A complete list survives every run that is stopped where its first cut would become final. */
  lemma StoppedAtCut(revision: string, world: World, lifetime: nat, d: nat)
    requires d < |STAGES| && !GoesThrough(world, revision, d) && !(exists e | 0 <= e < d :: DropsAt(world, e))
    ensures var disk := map[revision := StateFile(SCHEMA_VERSION, revision, Some(STAGES))];
      var attempt := Attempt(revision, world, lifetime);
      ReadDeploymentState(After(disk, attempt), revision) == STAGES && Recorded(disk, attempt) <= d
  {
    var disk := map[revision := StateFile(SCHEMA_VERSION, revision, Some(STAGES))];
    var attempt := Attempt(revision, world, lifetime);
    assert STAGES[..8] == STAGES;
    LeftList(disk, attempt);
    AttemptRecords(disk, attempt, d + 1);
    if Recorded(disk, attempt) > 0 { MadeAnewByDrops(world, Recorded(disk, attempt) - 1); }
  }

  /** So it survives a run that finds the bundle gone and no materials, and that records one stage at most. */
  lemma StaleClaimsSurvive(revision: string, world: World, lifetime: nat)
    requires !world.sourceBundleValid && !world.materials
    ensures var disk := map[revision := StateFile(SCHEMA_VERSION, revision, Some(STAGES))];
      var attempt := Attempt(revision, world, lifetime);
      ReadDeploymentState(After(disk, attempt), revision) == STAGES && Recorded(disk, attempt) <= 1
  {
    StoppedAtCut(revision, world, lifetime, 1);
  }

  /** It survives a run that finds the copy on the target gone and cannot transfer it. */
  lemma StaleTransferSurvives(revision: string, world: World, lifetime: nat)
    requires world.sourceBundleValid && !world.targetBundleValid && !world.transferred
    ensures var disk := map[revision := StateFile(SCHEMA_VERSION, revision, Some(STAGES))];
      var attempt := Attempt(revision, world, lifetime);
      ReadDeploymentState(After(disk, attempt), revision) == STAGES && Recorded(disk, attempt) <= 3
  {
    StoppedAtCut(revision, world, lifetime, 3);
  }

  /** And one that finds the image gone and cannot import it. */
  lemma StaleImportSurvives(revision: string, world: World, lifetime: nat)
    requires world.sourceBundleValid && world.targetBundleValid && !world.imageReady && !world.imported
    ensures var disk := map[revision := StateFile(SCHEMA_VERSION, revision, Some(STAGES))];
      var attempt := Attempt(revision, world, lifetime);
      ReadDeploymentState(After(disk, attempt), revision) == STAGES && Recorded(disk, attempt) <= 4
  {
    StoppedAtCut(revision, world, lifetime, 4);
  }

  /** Some attempt at the revision recorded stage number `i`. */
  ghost predicate Earned(disk: Disk, attempts: seq<Attempt>, revision: string, i: nat) {
    exists k: nat :: k < |attempts| && EarnedBy(disk, attempts, revision, i, k)
  }

  predicate EarnedBy(disk: Disk, attempts: seq<Attempt>, revision: string, i: nat, k: nat)
    requires k < |attempts|
  {
    attempts[k].revision == revision && i < Recorded(AfterAll(disk, attempts[..k]), attempts[k])
  }

  lemma EarnedLater(disk: Disk, attempts: seq<Attempt>, revision: string, i: nat)
    requires attempts != [] && Earned(disk, attempts[..|attempts| - 1], revision, i)
    ensures Earned(disk, attempts, revision, i)
  {
    var earlier := attempts[..|attempts| - 1];
    var k: nat :| k < |earlier| && EarnedBy(disk, earlier, revision, i, k);
    assert earlier[..k] == attempts[..k] && earlier[k] == attempts[k];
    assert EarnedBy(disk, attempts, revision, i, k);
  }

  /** The stages that an attempt leaves listed were listed before it or are recorded by it. */
  lemma AttemptEarnsWhatItAdds(disk: Disk, attempt: Attempt, revision: string, i: nat)
    requires PrefixDisk(disk) && i < |ReadDeploymentState(After(disk, attempt), revision)|
    ensures i < |ReadDeploymentState(disk, revision)| || (attempt.revision == revision && i < Recorded(disk, attempt))
  {
    var run, k := RunOf(disk, attempt), Recorded(disk, attempt);
    ReadsBack(disk, attempt.revision, Persists(disk, attempt), revision);
    if k > 0 { WrittenListExact(|run.saved|, run.saved, run.world, k - 1); }
  }

  /** From an empty cache, a state file never lists a stage that no run of that revision recorded. */
  lemma {:induction false} ClaimsAreEarned(attempts: seq<Attempt>, revision: string, i: nat)
    requires i < |ReadDeploymentState(AfterAll(map[], attempts), revision)|
    ensures Earned(map[], attempts, revision, i)
  {
    assert attempts != [];
    var k := |attempts| - 1;
    var disk := AfterAll(map[], attempts[..k]);
    RunsKeepPrefixDisk(map[], attempts[..k]);
    AttemptEarnsWhatItAdds(disk, attempts[k], revision, i);
    if i < |ReadDeploymentState(disk, revision)| {
      ClaimsAreEarned(attempts[..k], revision, i);
      EarnedLater(map[], attempts, revision, i);
    } else {
      assert EarnedBy(map[], attempts, revision, i, k);
    }
  }
}
