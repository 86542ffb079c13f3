/** A deployment that can be killed at any point and resumed, and the state file that outlives each run. */
module LocalDeployment {
  import opened Sequences

  const STAGES: seq<string> := ["candidate", "images", "bundle", "transfer", "import", "activate",
    "governed-operation", "verify"]
  const SCHEMA_VERSION := 1
  const OWN_PROJECT := "meshrix-offline-vm"

  // ----- the state file

  /** `Unreadable` stands for a file that is no JSON record; `stages` is None when the field is no array. */
  datatype StateFile = Unreadable | StateFile(schemaVersion: int, sourceRevision: string, stages: Option<seq<string>>)

  /** The state file in the directory of each source revision. */
  type Disk = map<string, StateFile>

  function ReadDeploymentState(disk: Disk, revision: string): seq<string> {
    if revision !in disk || disk[revision].Unreadable? then []
    else
      var state := disk[revision];
      if state.schemaVersion != SCHEMA_VERSION || state.sourceRevision != revision || state.stages.None? then []
      else state.stages.value
  }

  // ----- the port and the stack that is already there

  datatype Probe = Probe(healthOk: bool, consoleOk: bool, listening: bool)
  datatype Container = Container(project: string, sourceRevision: string)

  datatype Failure =
    | HostPortConflict | ContainerNameConflict | CustodyFailed | MaterialsMissing | ProductionFailed
    | TransferFailed | TransferMismatch | RunnerFailed(step: string)
    | LifecycleFailed | ActivationMismatch

  datatype Selection = Reuse(port: nat) | Install(port: nat, replace: bool) | Refused(failure: Failure)

  /** The inspection of a container that is not there, or that fails, reports an empty revision. */
  function RevisionOf(container: Option<Container>): string {
    if container.Some? then container.value.sourceRevision else ""
  }

  predicate Serves(probe: Probe) {
    probe.healthOk && probe.consoleOk
  }

  function SelectServing(container: Option<Container>, port: nat, expectedRevision: string): Selection {
    if container.None? || container.value.project != OWN_PROJECT then Refused(HostPortConflict)
    else if expectedRevision != "" && container.value.sourceRevision != expectedRevision then Install(port, true)
    else Reuse(port)
  }

  /** The preferred port, then the other one: reuse the own stack, replace it, install, or refuse. */
  function SelectHostPort(
    container: Option<Container>, preferred: (nat, Probe), other: (nat, Probe), expectedRevision: string): Selection
  {
    if Serves(preferred.1) then SelectServing(container, preferred.0, expectedRevision)
    else if preferred.1.listening then Refused(HostPortConflict)
    else if Serves(other.1) then SelectServing(container, other.0, expectedRevision)
    else if container.Some? && container.value.project != "" && container.value.project != OWN_PROJECT
    then Refused(ContainerNameConflict)
    else Install(preferred.0, false)
  }

  /** A run is skipped only for the own stack, serving this very revision, on the port it reports. */
  lemma ReuseIsEarned(container: Option<Container>, preferred: (nat, Probe), other: (nat, Probe), revision: string,
                      port: nat)
    requires revision != ""
    ensures SelectHostPort(container, preferred, other, revision) == Reuse(port) <==>
      (container.Some? && container.value == Container(OWN_PROJECT, revision) &&
       (if Serves(preferred.1) then port == preferred.0
        else !preferred.1.listening && Serves(other.1) && port == other.0))
  {
  }

  // ----- one run

  /** What the outside world answers during one run. */
  datatype World = World(
    container: Option<Container>, preferred: (nat, Probe), other: (nat, Probe),
    custodyReady: bool, sourceBundleValid: bool, materials: bool, bundleProduced: bool,
    targetBundleValid: bool, transferred: bool, exactBytes: bool, imageReady: bool, imported: bool,
    started: bool, firstCall: bool, served: Probe, deployed: Option<Container>)

  /** Producing a new bundle removes the target directory first, so nothing valid is left there. */
  predicate TargetCached(w: World) {
    w.sourceBundleValid && w.targetBundleValid
  }

  datatype Status = Completed | Resumed
  datatype StageReport = StageReport(id: string, status: Status)

  datatype Outcome = Reused | Deployed(replaced: bool, stages: seq<StageReport>) | Failed(failure: Failure) | Killed

  /** One run: its revision, the list it read, the world, and how many state files it writes before it is killed. */
  datatype Run = Run(revision: string, saved: seq<string>, world: World, lifetime: nat)

  /** The list with the stage at its end, unless it is listed already. */
  function Include(list: seq<string>, stage: string): seq<string> {
    if stage in list then list else list + [stage]
  }

  /** The list up to the first mention of the stage; all of it if there is none. */
  function CutAt(list: seq<string>, stage: string): seq<string> {
    if stage in list then list[..IndexOf(list, stage)] else list
  }

  /** What the run drops from its list before it records stage number `i`. */
  function Prepared(list: seq<string>, w: World, i: nat): seq<string> {
    if i == 1 && !w.sourceBundleValid then ["candidate"]
    else if i == 3 && !TargetCached(w) then CutAt(list, "transfer")
    else if i == 4 && !w.imageReady then CutAt(list, "import")
    else list
  }

  /** The list in memory once the first `i` stages are recorded. */
  function Memory(saved: seq<string>, w: World, i: nat): seq<string>
    requires i <= |STAGES|
  {
    if i == 0 then saved else Include(Prepared(Memory(saved, w, i - 1), w, i - 1), STAGES[i - 1])
  }

  /** The lists written to the state file by the first `i` stages. */
  function Written(saved: seq<string>, w: World, i: nat): (r: seq<seq<string>>)
    requires i <= |STAGES|
    ensures |r| == i && forall k | 0 <= k < i :: r[k] == Memory(saved, w, k + 1)
  {
    if i == 0 then [] else
      var earlier := i - 1;
      Written(saved, w, earlier) + [Memory(saved, w, earlier + 1)]
  }

  function StatusOf(resumed: bool): Status {
    if resumed then Resumed else Completed
  }

  /** Whether stage number `i` is reported as resumed. */
  predicate IsResumed(saved: seq<string>, w: World, i: nat) {
    if i == 0 then "candidate" in saved
    else if i <= 2 then w.sourceBundleValid
    else if i == 3 then TargetCached(w)
    else i == 4 && w.imageReady
  }

  function Reports(saved: seq<string>, w: World, i: nat): (r: seq<StageReport>)
    requires i <= |STAGES|
    ensures |r| == i && forall k | 0 <= k < i :: r[k] == StageReport(STAGES[k], StatusOf(IsResumed(saved, w, k)))
  {
    if i == 0 then [] else Reports(saved, w, i - 1) + [StageReport(STAGES[i - 1], StatusOf(IsResumed(saved, w, i - 1)))]
  }

  /** What ends the run before it can record stage number `i`. */
  function Obstacle(w: World, revision: string, i: nat): Option<Failure> {
    if i == 1 && !w.custodyReady then Some(CustodyFailed)
    else if i == 1 && !w.sourceBundleValid && !w.materials then Some(MaterialsMissing)
    else if i == 2 && !w.sourceBundleValid && !w.bundleProduced then Some(ProductionFailed)
    else if i == 3 && !TargetCached(w) && !w.transferred then Some(TransferFailed)
    else if i == 3 && !TargetCached(w) && !w.exactBytes then Some(TransferMismatch)
    else if i == 4 && !w.imageReady && !w.imported then Some(RunnerFailed("import"))
    else if i == 5 && !w.started then Some(RunnerFailed("start"))
    else if i == 6 && !w.firstCall then Some(RunnerFailed("first_governed_call"))
    else if i == 7 && !Serves(w.served) then Some(LifecycleFailed)
    else if i == 7 && RevisionOf(w.deployed) != revision then Some(ActivationMismatch)
    else None
  }

  function Select(revision: string, w: World): Selection {
    SelectHostPort(w.container, w.preferred, w.other, revision)
  }

  function Replaced(run: Run): bool {
    var selected := Select(run.revision, run.world);
    selected.Install? && selected.replace
  }

  /** How many stages the run records from stage `i` on, and how it ends. */
  function EndingFrom(run: Run, i: nat): (r: (nat, Outcome))
    requires i <= run.lifetime && i <= |STAGES|
    ensures i <= r.0 <= |STAGES|
    decreases |STAGES| - i
  {
    if i == |STAGES| then (i, Deployed(Replaced(run), Reports(run.saved, run.world, i)))
    else if Obstacle(run.world, run.revision, i).Some? then (i, Failed(Obstacle(run.world, run.revision, i).value))
    else if i == run.lifetime then (i, Killed)
    else EndingFrom(run, i + 1)
  }

  function Ending(run: Run): (r: (nat, Outcome))
    ensures r.0 <= |STAGES|
  {
    match Select(run.revision, run.world)
    case Reuse(_) => (0, Reused)
    case Refused(failure) => (0, Failed(failure))
    case Install(_, _) => EndingFrom(run, 0)
  }

  /** The disk once the lists are written one after another. */
  function Stored(disk: Disk, revision: string, written: seq<seq<string>>): Disk {
    if written == [] then disk else disk[revision := StateFile(SCHEMA_VERSION, revision, Some(written[|written| - 1]))]
  }

  // ----- the program

  class Deployment {
    var disk: Disk
    var completedStages: seq<string>
    var stages: seq<StageReport>
    /** State files this process still gets to write. */
    var lifetime: nat
    ghost var written: seq<seq<string>>

    constructor (disk: Disk)
      ensures this.disk == disk
    {
      this.disk := disk;
      completedStages, stages, lifetime, written := [], [], 0, [];
    }

    /** The run has recorded `i` stages and what is still to come decides its ending. */
    ghost predicate At(run: Run, before: Disk, i: nat)
      reads this
    {
      i <= |STAGES| && i <= run.lifetime && lifetime == run.lifetime - i && Select(run.revision, run.world).Install? &&
      stages == Reports(run.saved, run.world, i) && written == Written(run.saved, run.world, i) &&
      disk == Stored(before, run.revision, written) && Ending(run) == EndingFrom(run, i)
    }

    ghost predicate Ended(run: Run, before: Disk, outcome: Outcome)
      reads this
    {
      Ending(run).1 == outcome && written == Written(run.saved, run.world, Ending(run).0) &&
      disk == Stored(before, run.revision, written)
    }

    /** Adds the stage to the list and replaces the state file in one rename. */
    method RecordDeploymentStage(revision: string, stage: string)
      requires lifetime > 0
      modifies `disk, `completedStages, `lifetime, `written
      ensures completedStages == Include(old(completedStages), stage)
      ensures disk == old(disk)[revision := StateFile(SCHEMA_VERSION, revision, Some(completedStages))]
      ensures written == old(written) + [completedStages] && lifetime == old(lifetime) - 1
    {
      if stage !in completedStages { completedStages := completedStages + [stage]; }
      disk := disk[revision := StateFile(SCHEMA_VERSION, revision, Some(completedStages))];
      written := written + [completedStages];
      lifetime := lifetime - 1;
    }

    /** Stage number `i`, once nothing stands in its way; the process may be killed before the file is replaced. */
    method CompleteStage(ghost run: Run, ghost before: Disk, ghost i: nat, revision: string, stage: string,
                         resumed: bool)
      returns (end: Option<Outcome>)
      requires i < |STAGES| && At(run, before, i) && Obstacle(run.world, run.revision, i).None?
      requires revision == run.revision && stage == STAGES[i] && resumed == IsResumed(run.saved, run.world, i)
      requires completedStages == Prepared(Memory(run.saved, run.world, i), run.world, i)
      modifies this
      ensures end.None? ==> At(run, before, i + 1) && completedStages == Memory(run.saved, run.world, i + 1)
      ensures end.Some? ==> Ended(run, before, end.value)
    {
      if lifetime == 0 { return Some(Killed); }
      RecordDeploymentStage(revision, stage);
      stages := stages + [StageReport(stage, StatusOf(resumed))];
      end := None;
    }

    method PrepareSource(ghost run: Run, ghost before: Disk, revision: string, w: World) returns (end: Option<Outcome>)
      requires revision == run.revision && w == run.world && At(run, before, 1)
      requires completedStages == Memory(run.saved, w, 1)
      modifies this
      ensures end.None? ==> At(run, before, 3) && completedStages == Memory(run.saved, w, 3)
      ensures end.Some? ==> Ended(run, before, end.value)
    {
      if !w.custodyReady { return Some(Failed(CustodyFailed)); }
      if w.sourceBundleValid {
        end := CompleteStage(run, before, 1, revision, "images", true);
        if end.Some? { return; }
        end := CompleteStage(run, before, 2, revision, "bundle", true);
      } else {
        completedStages := ["candidate"];
        if !w.materials { return Some(Failed(MaterialsMissing)); }
        end := CompleteStage(run, before, 1, revision, "images", false);
        if end.Some? { return; }
        if !w.bundleProduced { return Some(Failed(ProductionFailed)); }
        end := CompleteStage(run, before, 2, revision, "bundle", false);
      }
    }

    method TransferBundle(ghost run: Run, ghost before: Disk, revision: string, w: World) returns (end: Option<Outcome>)
      requires revision == run.revision && w == run.world && At(run, before, 3)
      requires completedStages == Memory(run.saved, w, 3)
      modifies this
      ensures end.None? ==> At(run, before, 4) && completedStages == Memory(run.saved, w, 4)
      ensures end.Some? ==> Ended(run, before, end.value)
    {
      if TargetCached(w) {
        end := CompleteStage(run, before, 3, revision, "transfer", true);
      } else {
        var transferIndex := IndexOf(completedStages, "transfer");
        if transferIndex >= 0 { completedStages := completedStages[..transferIndex]; }
        if !w.transferred { return Some(Failed(TransferFailed)); }
        if !w.exactBytes { return Some(Failed(TransferMismatch)); }
        end := CompleteStage(run, before, 3, revision, "transfer", false);
      }
    }

    method ImportImage(ghost run: Run, ghost before: Disk, revision: string, w: World) returns (end: Option<Outcome>)
      requires revision == run.revision && w == run.world && At(run, before, 4)
      requires completedStages == Memory(run.saved, w, 4)
      modifies this
      ensures end.None? ==> At(run, before, 5) && completedStages == Memory(run.saved, w, 5)
      ensures end.Some? ==> Ended(run, before, end.value)
    {
      if w.imageReady {
        end := CompleteStage(run, before, 4, revision, "import", true);
      } else {
        var importIndex := IndexOf(completedStages, "import");
        if importIndex >= 0 { completedStages := completedStages[..importIndex]; }
        if !w.imported { return Some(Failed(RunnerFailed("import"))); }
        end := CompleteStage(run, before, 4, revision, "import", false);
      }
    }

    method Activate(ghost run: Run, ghost before: Disk, revision: string, w: World) returns (end: Option<Outcome>)
      requires revision == run.revision && w == run.world && At(run, before, 5)
      requires completedStages == Memory(run.saved, w, 5)
      modifies this
      ensures end.None? ==> At(run, before, 8) && completedStages == Memory(run.saved, w, 8)
      ensures end.Some? ==> Ended(run, before, end.value)
    {
      if !w.started { return Some(Failed(RunnerFailed("start"))); }
      end := CompleteStage(run, before, 5, revision, "activate", false);
      if end.Some? { return; }
      if !w.firstCall { return Some(Failed(RunnerFailed("first_governed_call"))); }
      end := CompleteStage(run, before, 6, revision, "governed-operation", false);
      if end.Some? { return; }
      if !Serves(w.served) { return Some(Failed(LifecycleFailed)); }
      if RevisionOf(w.deployed) != revision { return Some(Failed(ActivationMismatch)); }
      end := CompleteStage(run, before, 7, revision, "verify", false);
    }

    /** One whole run, killed after at most `lifetime` state files. */
    method RunLocalUp(revision: string, w: World, lifetime: nat) returns (outcome: Outcome)
      modifies this
      ensures Ended(Run(revision, ReadDeploymentState(old(disk), revision), w, lifetime), old(disk), outcome)
    {
      this.lifetime, stages, written := lifetime, [], [];
      var selected := SelectHostPort(w.container, w.preferred, w.other, revision);
      if selected.Reuse? { return Reused; }
      if selected.Refused? { return Failed(selected.failure); }
      completedStages := ReadDeploymentState(disk, revision);
      ghost var run, before := Run(revision, completedStages, w, lifetime), disk;
      var end := CompleteStage(run, before, 0, revision, "candidate", "candidate" in completedStages);
      if end.Some? { return end.value; }
      end := PrepareSource(run, before, revision, w);
      if end.Some? { return end.value; }
      end := TransferBundle(run, before, revision, w);
      if end.Some? { return end.value; }
      end := ImportImage(run, before, revision, w);
      if end.Some? { return end.value; }
      end := Activate(run, before, revision, w);
      if end.Some? { return end.value; }
      outcome := Deployed(selected.replace, stages);
    }
  }
}
