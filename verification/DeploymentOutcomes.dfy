/** When a run is allowed to install, how far it gets and how it ends, over what the outside world answers. */
module DeploymentOutcomes {
  import opened Sequences
  import opened LocalDeployment

  // ----- the port and the stack that is already there

  predicate IsUp(probe: Probe) {
    probe.healthOk && probe.consoleOk
  }

  predicate IsOwn(container: Option<Container>) {
    container.Some? && container.value.project == "meshrix-offline-vm"
  }

  /** The port that an instance answers on; nobody else may listen on the preferred port. */
  predicate AnswersOn(w: World, port: nat) {
    if IsUp(w.preferred.1) then port == w.preferred.0
    else !w.preferred.1.listening && IsUp(w.other.1) && port == w.other.0
  }

  /** Both ports are quiet. */
  predicate Quiet(w: World) {
    !IsUp(w.preferred.1) && !w.preferred.1.listening && !IsUp(w.other.1)
  }

  /** The own stack answers and is not known to serve this revision. */
  predicate Replaces(w: World, revision: string, port: nat) {
    IsOwn(w.container) && AnswersOn(w, port) && revision != "" && w.container.value.sourceRevision != revision
  }

  /** Nothing answers, and the container, if there is one, belongs to no other stack. */
  predicate Installs(w: World) {
    Quiet(w) && (w.container.None? || w.container.value.project == "" || IsOwn(w.container))
  }

  predicate MayInstall(w: World, revision: string) {
    Installs(w) || Replaces(w, revision, w.preferred.0) || Replaces(w, revision, w.other.0)
  }

  /** What the selection returns for every answer of the probes and the inspection. */
  lemma SelectExact(revision: string, w: World, port: nat, failure: Failure)
    ensures Select(revision, w) == Reuse(port) <==>
      IsOwn(w.container) && AnswersOn(w, port) && (revision == "" || w.container.value.sourceRevision == revision)
    ensures Select(revision, w) == Install(port, true) <==> Replaces(w, revision, port)
    ensures Select(revision, w) == Install(port, false) <==> Installs(w) && port == w.preferred.0
    ensures Select(revision, w) == Refused(failure) <==>
      (failure == HostPortConflict &&
       ((!IsUp(w.preferred.1) && w.preferred.1.listening) || (!Quiet(w) && !IsOwn(w.container)))) ||
      (failure == ContainerNameConflict && Quiet(w) && !Installs(w))
    ensures Select(revision, w).Install? <==> MayInstall(w, revision)
  {
  }

  // ----- one stage after another

  /** The copy on the target goes back to a source bundle that was not made anew. */
  predicate CopyIsKept(w: World) {
    w.sourceBundleValid && w.targetBundleValid
  }

  /** The container that is found in the end carries the revision; none at all carries the empty one. */
  predicate Activated(w: World, revision: string) {
    match w.deployed
    case None => revision == ""
    case Some(container) => container.sourceRevision == revision
  }

  /** Nothing keeps the run from recording stage number `i`. */
  predicate GoesThrough(w: World, revision: string, i: nat) {
    match i
    case 1 => w.custodyReady && (w.sourceBundleValid || w.materials)
    case 2 => w.sourceBundleValid || w.bundleProduced
    case 3 => CopyIsKept(w) || (w.transferred && w.exactBytes)
    case 4 => w.imageReady || w.imported
    case 5 => w.started
    case 6 => w.firstCall
    case 7 => IsUp(w.served) && Activated(w, revision)
    case _ => true
  }

  /** The run may install, lives to write `m` files and goes through its first `m` stages. */
  predicate Gets(revision: string, w: World, lifetime: nat, m: nat) {
    MayInstall(w, revision) && lifetime >= m && forall i: nat | i < m :: GoesThrough(w, revision, i)
  }

  lemma ObstacleExact(w: World, revision: string, i: nat)
    ensures Obstacle(w, revision, i).None? <==> GoesThrough(w, revision, i)
  {
  }

  lemma {:induction false} EndingReaches(run: Run, i: nat, m: nat)
    requires i <= run.lifetime && i < m <= |STAGES|
    ensures EndingFrom(run, i).0 >= m <==>
      run.lifetime >= m && forall k: nat | i <= k < m :: GoesThrough(run.world, run.revision, k)
    decreases |STAGES| - i
  {
    ObstacleExact(run.world, run.revision, i);
    if Obstacle(run.world, run.revision, i).None? && i < run.lifetime && i + 1 < m {
      EndingReaches(run, i + 1, m);
    }
  }

  /** How many stages are recorded depends on the world alone, not on the list that was read. */
  lemma RecordedExact(run: Run, m: nat)
    requires 1 <= m <= |STAGES|
    ensures Ending(run).0 >= m <==> Gets(run.revision, run.world, run.lifetime, m)
  {
    SelectExact(run.revision, run.world, 0, HostPortConflict);
    if Select(run.revision, run.world).Install? { EndingReaches(run, 0, m); }
  }

  // ----- how a run ends

  /** The stage number `i` is where the run ends, by an obstacle or because the process is killed. */
  lemma {:induction false} EndsAt(run: Run, i: nat)
    requires i <= run.lifetime && i <= |STAGES|
    ensures var r := EndingFrom(run, i);
      (r.1.Deployed? <==> r.0 == |STAGES|) && (r.0 <= run.lifetime) && !r.1.Reused? &&
      (r.1.Failed? <==> r.0 < |STAGES| && Obstacle(run.world, run.revision, r.0).Some?) &&
      (r.1.Failed? ==> Obstacle(run.world, run.revision, r.0) == Some(r.1.failure)) &&
      (r.1.Killed? ==> r.0 == run.lifetime)
    decreases |STAGES| - i
  {
    if i < |STAGES| && Obstacle(run.world, run.revision, i).None? && i < run.lifetime {
      EndsAt(run, i + 1);
    }
  }

  /**
   * A run deploys exactly when it may install, is not killed, and custody, bundle, transfer, import, start, first
   * call and the two final checks all succeed, where what is cached need not be made anew.
   */
  lemma DeployedExact(run: Run)
    ensures var w := run.world;
      Ending(run).1.Deployed? <==>
      MayInstall(w, run.revision) && run.lifetime >= 8 &&
      w.custodyReady && (w.sourceBundleValid || (w.materials && w.bundleProduced)) &&
      ((w.sourceBundleValid && w.targetBundleValid) || (w.transferred && w.exactBytes)) &&
      (w.imageReady || w.imported) && w.started && w.firstCall &&
      w.served.healthOk && w.served.consoleOk && Activated(w, run.revision)
    ensures Ending(run).1.Deployed? <==> Ending(run).0 == |STAGES|
  {
    SelectExact(run.revision, run.world, 0, HostPortConflict);
    RecordedExact(run, |STAGES|);
    if Select(run.revision, run.world).Install? { EndsAt(run, 0); }
    AllStages(run.world, run.revision);
  }

  lemma AllStages(w: World, revision: string)
    ensures (forall i: nat | i < |STAGES| :: GoesThrough(w, revision, i)) <==>
      GoesThrough(w, revision, 1) && GoesThrough(w, revision, 2) && GoesThrough(w, revision, 3) &&
      GoesThrough(w, revision, 4) && GoesThrough(w, revision, 5) && GoesThrough(w, revision, 6) &&
      GoesThrough(w, revision, 7)
  {
  }

  /** What a run that records exactly `i` stages fails for, if it fails. */
  predicate StopsFor(w: World, revision: string, i: nat, failure: Failure) {
    match failure
    case CustodyFailed => i == 1 && !w.custodyReady
    case MaterialsMissing => i == 1 && w.custodyReady && !w.sourceBundleValid && !w.materials
    case ProductionFailed => i == 2 && !w.sourceBundleValid && !w.bundleProduced
    case TransferFailed => i == 3 && !CopyIsKept(w) && !w.transferred
    case TransferMismatch => i == 3 && !CopyIsKept(w) && w.transferred && !w.exactBytes
    case RunnerFailed(step) =>
      (i == 4 && step == "import" && !w.imageReady && !w.imported) ||
      (i == 5 && step == "start" && !w.started) ||
      (i == 6 && step == "first_governed_call" && !w.firstCall)
    case LifecycleFailed => i == 7 && !IsUp(w.served)
    case ActivationMismatch => i == 7 && IsUp(w.served) && !Activated(w, revision)
    case _ => false
  }

  lemma ObstacleIs(w: World, revision: string, i: nat, failure: Failure)
    ensures Obstacle(w, revision, i) == Some(failure) <==> StopsFor(w, revision, i, failure)
  {
  }

  /** A selected run fails exactly at the stage that it gets to and does not get past. */
  lemma FailedExact(run: Run, failure: Failure)
    requires MayInstall(run.world, run.revision)
    ensures Ending(run).1 == Failed(failure) <==>
      exists i: nat | i < |STAGES| ::
        Gets(run.revision, run.world, run.lifetime, i) && StopsFor(run.world, run.revision, i, failure)
  {
    SelectExact(run.revision, run.world, 0, failure);
    EndsAt(run, 0);
    var k := Ending(run).0;
    if k > 0 { RecordedExact(run, k); }
    ObstacleIs(run.world, run.revision, k, failure);
    forall i: nat | i < |STAGES| && Gets(run.revision, run.world, run.lifetime, i) &&
      StopsFor(run.world, run.revision, i, failure) ensures i == k
    {
      StopsThere(run, i, failure);
    }
  }

  lemma StopsThere(run: Run, i: nat, failure: Failure)
    requires i < |STAGES| && Gets(run.revision, run.world, run.lifetime, i)
    requires StopsFor(run.world, run.revision, i, failure)
    ensures Ending(run).0 == i
  {
    ObstacleIs(run.world, run.revision, i, failure);
    ObstacleExact(run.world, run.revision, i);
    if i > 0 { RecordedExact(run, i); }
    RecordedExact(run, i + 1);
  }

  /** A run that may not install is skipped or refused, and a killed one had nothing else against it. */
  lemma OtherEndings(run: Run, failure: Failure)
    ensures Ending(run).1 == Reused <==> exists port :: Select(run.revision, run.world) == Reuse(port)
    ensures !MayInstall(run.world, run.revision) ==>
      (Ending(run).1 == Failed(failure) <==> Select(run.revision, run.world) == Refused(failure))
    ensures Ending(run).1 == Killed <==>
      run.lifetime < |STAGES| && Gets(run.revision, run.world, run.lifetime, run.lifetime) &&
      GoesThrough(run.world, run.revision, run.lifetime)
  {
    SelectExact(run.revision, run.world, 0, failure);
    match Select(run.revision, run.world)
    case Reuse(port) => assert Select(run.revision, run.world) == Reuse(port);
    case Refused(_) =>
    case Install(_, _) =>
      EndsAt(run, 0);
      var k := Ending(run).0;
      if k > 0 { RecordedExact(run, k); }
      if k < |STAGES| { ObstacleExact(run.world, run.revision, k); }
      if run.lifetime < |STAGES| { KilledThere(run); }
  }

  lemma KilledThere(run: Run)
    requires Select(run.revision, run.world).Install? && run.lifetime < |STAGES|
    ensures Gets(run.revision, run.world, run.lifetime, run.lifetime) <==> Ending(run).0 == run.lifetime
  {
    SelectExact(run.revision, run.world, 0, HostPortConflict);
    EndsAt(run, 0);
    if run.lifetime > 0 { RecordedExact(run, run.lifetime); }
  }

  // ----- what a deployment reports

  /** Whether a stage is taken over from before; the last three are always done anew. */
  predicate TakenOver(saved: seq<string>, w: World, i: nat) {
    match i
    case 0 => "candidate" in saved
    case 1 => w.sourceBundleValid
    case 2 => w.sourceBundleValid
    case 3 => CopyIsKept(w)
    case 4 => w.imageReady
    case _ => false
  }

  /** A deployment reports the eight stages in order, each as resumed exactly when it was taken over. */
  lemma DeployedReports(run: Run)
    requires Ending(run).1.Deployed?
    ensures var o := Ending(run).1;
      |o.stages| == |STAGES| &&
      (forall i: nat | i < |STAGES| ::
         o.stages[i].id == STAGES[i] && (o.stages[i].status == Resumed <==> TakenOver(run.saved, run.world, i))) &&
      (o.replaced <==> exists port :: Replaces(run.world, run.revision, port))
  {
    DeployedIsReport(run, 0);
    SelectExact(run.revision, run.world, run.world.preferred.0, HostPortConflict);
    SelectExact(run.revision, run.world, run.world.other.0, HostPortConflict);
    if port :| Replaces(run.world, run.revision, port) {
      SelectExact(run.revision, run.world, port, HostPortConflict);
    }
  }

  lemma {:induction false} DeployedIsReport(run: Run, i: nat)
    requires i <= run.lifetime && i <= |STAGES|
    ensures EndingFrom(run, i).1.Deployed? ==>
      EndingFrom(run, i).1 == Deployed(Replaced(run), Reports(run.saved, run.world, |STAGES|))
    decreases |STAGES| - i
  {
    if i < |STAGES| && Obstacle(run.world, run.revision, i).None? && i < run.lifetime {
      DeployedIsReport(run, i + 1);
    }
  }

  // ----- the list that a run reads

  /** A run carries over exactly the list of a readable state file of its own revision and of this version. */
  lemma ReadExact(disk: Disk, revision: string, list: seq<string>)
    ensures ReadDeploymentState(disk, revision) == list <==>
      (revision in disk && disk[revision] == StateFile(1, revision, Some(list))) ||
      (list == [] && !(revision in disk && disk[revision].StateFile? && disk[revision].schemaVersion == 1 &&
                       disk[revision].sourceRevision == revision && disk[revision].stages.Some?))
  {
  }
}
