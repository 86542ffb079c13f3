/**
 * The background supervisor: event handlers over shared maps of children and process records. Each
 * event is one stretch of handler code without a wait; a reconciliation of all roles is a series of
 * `Reconcile` events that other events may separate.
 */
module BackgroundSupervisor {
  import opened Sequences

  const IMPORT_WORKER := "import-worker"

  /** A spawned process as the supervisor holds it; `id` counts the spawns. */
  datatype Child = Child(id: nat, pid: nat)

  datatype Record = Record(desired: bool, pid: nat, status: string, restartCount: nat, error: string)

  const DEFAULT_RECORD := Record(true, 0, "starting", 0, "")

  /** What the demand inspection found; the idle status is what an inactive role without a child shows. */
  datatype Demand = Demand(active: bool, idleStatus: string)

  /** The fields of a heartbeat payload that concern the record; absent ones leave it as it is. */
  datatype Payload = Payload(desired: Option<bool>, pid: nat, status: Option<string>, error: Option<string>)

  /**
   * `pid` and `starts` describe the process that a spawn would yield: a failed spawn leaves a child
   * that is never live. `killThrows` says that the signal cannot be sent.
   */
  datatype Event =
    | Reconcile(role: string, demand: Demand, pid: nat, starts: bool, killThrows: bool)
    | Exited(child: nat)
    | Heartbeat(child: nat, payload: Payload)
    | Errored(child: nat, message: string)
    | Shutdown
    | KillLoop

  /**
   * The first four fields are the supervisor's own. The rest is the world and the history: the role
   * and pid of every child ever spawned, the live ones, those that were sent SIGTERM, the number of
   * exits by role that were neither suppressed nor after closing, and whether a kill loop has run.
   */
  datatype State = State(
    children: map<string, Child>,
    records: map<string, Record>,
    suppressed: set<string>,
    closing: bool,
    spawned: seq<string>,
    pids: seq<nat>,
    live: set<nat>,
    signalled: set<nat>,
    exits: map<string, nat>,
    swept: bool)

  function Initial(roles: set<string>): State {
    State(map[], map role | role in roles :: DEFAULT_RECORD, {}, false, [], [], {}, {}, map[], false)
  }

  function RecordFor(s: State, role: string): Record {
    if role in s.records then s.records[role] else DEFAULT_RECORD
  }

  function ExitCount(s: State, role: string): nat {
    if role in s.exits then s.exits[role] else 0
  }

  function SpawnStep(s: State, role: string, pid: nat, starts: bool): State {
    if s.closing then s
    else
      var child := Child(|s.spawned|, pid);
      s.(records := s.records[role := Record(true, pid, "starting", RecordFor(s, role).restartCount, "")],
         children := s.children[role := child],
         spawned := s.spawned + [role],
         pids := s.pids + [pid],
         live := if starts then s.live + {child.id} else s.live)
  }

  function EnsureChild(s: State, role: string, pid: nat, starts: bool): State {
    if role in s.children then s else SpawnStep(s, role, pid, starts)
  }

  function DemandStep(s: State, role: string): State {
    s.(records := s.records[role := RecordFor(s, role).(desired := true)])
  }

  function IdleStep(s: State, role: string, demand: Demand): State {
    var previous := RecordFor(s, role);
    s.(records := s.records[role := previous.(
         desired := false,
         status := if role in s.children then "stopping" else demand.idleStatus,
         pid := if role in s.children then s.children[role].pid else 0,
         error := "")])
  }

  /** The idle child is asked to stop, and its exit will not count as a failure. */
  function StopStep(s: State, role: string, killThrows: bool): State
    requires role in s.children
  {
    if killThrows then s.(suppressed := s.suppressed - {role})
    else s.(suppressed := s.suppressed + {role}, signalled := s.signalled + {s.children[role].id})
  }

  function ReconcileStep(s: State, role: string, demand: Demand, pid: nat, starts: bool, killThrows: bool): State {
    if role != IMPORT_WORKER then EnsureChild(s, role, pid, starts)
    else if demand.active then EnsureChild(DemandStep(s, role), role, pid, starts)
    else
      var idle := IdleStep(s, role, demand);
      if role in s.children then StopStep(idle, role, killThrows) else idle
  }

  function ExitStep(s: State, child: nat): State
    requires child < |s.spawned|
  {
    var role := s.spawned[child];
    var restartSuppressed := role in s.suppressed;
    s.(suppressed := s.suppressed - {role},
       children := s.children - {role},
       records := s.records[role := ExitRecord(RecordFor(s, role), s.closing, restartSuppressed)],
       live := s.live - {child},
       exits := if s.closing || restartSuppressed then s.exits else s.exits[role := ExitCount(s, role) + 1])
  }

  /** What an exit leaves in the record; it counts as a restart unless it was asked for. */
  function ExitRecord(current: Record, closing: bool, restartSuppressed: bool): Record {
    current.(
      desired := !restartSuppressed && current.desired,
      status := if closing then "stopped" else if restartSuppressed then "standby" else "exited",
      pid := 0,
      restartCount := current.restartCount + if closing || restartSuppressed then 0 else 1)
  }

  function Or<T>(o: Option<T>, fallback: T): T {
    match o
    case None => fallback
    case Some(x) => x
  }

  function HeartbeatStep(s: State, child: nat, p: Payload): State
    requires child < |s.spawned| && child < |s.pids|
  {
    var role := s.spawned[child];
    var r := RecordFor(s, role);
    s.(records := s.records[role := Record(
      Or(p.desired, r.desired), if s.pids[child] != 0 then s.pids[child] else p.pid,
      Or(p.status, r.status), r.restartCount, Or(p.error, r.error))])
  }

  function ErrorStep(s: State, child: nat, message: string): State
    requires child < |s.spawned|
  {
    var role := s.spawned[child];
    s.(records := s.records[role := RecordFor(s, role).(status := "failed", error := message)])
  }

  function ChildIds(s: State): set<nat> {
    set role | role in s.children :: s.children[role].id
  }

  function Step(s: State, e: Event): State {
    match e
    case Reconcile(role, demand, pid, starts, killThrows) => ReconcileStep(s, role, demand, pid, starts, killThrows)
    case Exited(child) => if child in s.live && child < |s.spawned| then ExitStep(s, child) else s
    case Heartbeat(child, payload) =>
      if child < |s.spawned| && child < |s.pids| then HeartbeatStep(s, child, payload) else s
    case Errored(child, message) => if child < |s.spawned| then ErrorStep(s, child, message) else s
    case Shutdown => s.(closing := true)
    case KillLoop => if s.closing then s.(signalled := s.signalled + ChildIds(s), swept := true) else s
  }

  function Run(roles: set<string>, events: seq<Event>): State {
    if events == [] then Initial(roles)
    else Step(Run(roles, events[..|events| - 1]), events[|events| - 1])
  }

  // ----- the invariant

  /** Live children are mapped to their role; mapped children were spawned for it. */
  ghost predicate ChildrenAccounted(s: State) {
    |s.pids| == |s.spawned| &&
    (forall c | c in s.live :: c < |s.spawned| && s.spawned[c] in s.children && s.children[s.spawned[c]].id == c) &&
    (forall role | role in s.children ::
       var c := s.children[role];
       c.id < |s.spawned| && s.spawned[c.id] == role && s.pids[c.id] == c.pid) &&
    s.suppressed <= s.children.Keys
  }

  ghost predicate CountsAccounted(s: State) {
    forall role :: RecordFor(s, role).restartCount == ExitCount(s, role)
  }

  /** Once the kill loop has run every live child has been signalled. */
  ghost predicate SweepAccounted(s: State) {
    s.swept ==> s.closing && s.live <= s.signalled
  }

  ghost predicate Inv(s: State) {
    ChildrenAccounted(s) && CountsAccounted(s) && SweepAccounted(s)
  }

  lemma SpawnKeepsInv(s: State, role: string, pid: nat, starts: bool)
    requires Inv(s) && role !in s.children
    ensures Inv(SpawnStep(s, role, pid, starts))
  {
    if !s.closing {
      var t := SpawnStep(s, role, pid, starts);
      forall c | c in t.live ensures c < |t.spawned| && t.spawned[c] in t.children && t.children[t.spawned[c]].id == c {
        if c < |s.spawned| { assert c in s.live && s.spawned[c] != role; }
      }
      forall r ensures RecordFor(t, r).restartCount == ExitCount(t, r) {
        assert RecordFor(s, r).restartCount == ExitCount(s, r);
      }
    }
  }

  lemma RecordKeepsInv(s: State, role: string, r: Record)
    requires Inv(s) && r.restartCount == RecordFor(s, role).restartCount
    ensures Inv(s.(records := s.records[role := r]))
  {
    var t := s.(records := s.records[role := r]);
    forall x ensures RecordFor(t, x).restartCount == ExitCount(t, x) {
      assert RecordFor(s, x).restartCount == ExitCount(s, x);
    }
  }

  lemma StopKeepsInv(s: State, role: string, killThrows: bool)
    requires Inv(s) && role in s.children
    ensures Inv(StopStep(s, role, killThrows))
  {
    var t := StopStep(s, role, killThrows);
    forall x ensures RecordFor(t, x).restartCount == ExitCount(t, x) {
      assert RecordFor(s, x).restartCount == ExitCount(s, x);
    }
  }

  lemma ReconcileKeepsInv(s: State, role: string, demand: Demand, pid: nat, starts: bool, killThrows: bool)
    requires Inv(s)
    ensures Inv(ReconcileStep(s, role, demand, pid, starts, killThrows))
  {
    if role != IMPORT_WORKER {
      if role !in s.children { SpawnKeepsInv(s, role, pid, starts); }
    } else if demand.active {
      RecordKeepsInv(s, role, RecordFor(s, role).(desired := true));
      if role !in s.children { SpawnKeepsInv(DemandStep(s, role), role, pid, starts); }
    } else {
      RecordKeepsInv(s, role, RecordFor(IdleStep(s, role, demand), role));
      if role in s.children { StopKeepsInv(IdleStep(s, role, demand), role, killThrows); }
    }
  }

  lemma ExitKeepsInv(s: State, child: nat)
    requires Inv(s) && child in s.live
    ensures Inv(ExitStep(s, child))
  {
    var t, role := ExitStep(s, child), s.spawned[child];
    forall c | c in t.live ensures t.spawned[c] in t.children && t.children[t.spawned[c]].id == c {
      assert c in s.live && s.children[s.spawned[c]].id == c && s.children[role].id == child;
    }
    forall r ensures RecordFor(t, r).restartCount == ExitCount(t, r) {
      assert RecordFor(s, r).restartCount == ExitCount(s, r);
    }
  }

  lemma SweepKeepsInv(s: State)
    requires Inv(s) && s.closing
    ensures Inv(Step(s, KillLoop))
  {
    var t := Step(s, KillLoop);
    forall c | c in s.live ensures c in t.signalled {
      assert s.children[s.spawned[c]].id in ChildIds(s);
    }
    forall r ensures RecordFor(t, r).restartCount == ExitCount(t, r) {
      assert RecordFor(s, r).restartCount == ExitCount(s, r);
    }
  }

  lemma StepKeepsInv(s: State, e: Event)
    requires Inv(s)
    ensures Inv(Step(s, e))
  {
    match e
    case Reconcile(role, demand, pid, starts, killThrows) => ReconcileKeepsInv(s, role, demand, pid, starts,
      killThrows);
    case Exited(child) => if child in s.live { ExitKeepsInv(s, child); }
    case Heartbeat(child, payload) =>
      if child < |s.spawned| && child < |s.pids| {
        RecordKeepsInv(s, s.spawned[child], RecordFor(HeartbeatStep(s, child, payload), s.spawned[child]));
      }
    case Errored(child, message) =>
      if child < |s.spawned| {
        RecordKeepsInv(s, s.spawned[child], RecordFor(ErrorStep(s, child, message), s.spawned[child]));
      }
    case Shutdown =>
      forall r ensures RecordFor(Step(s, e), r).restartCount == ExitCount(Step(s, e), r) {
        assert RecordFor(s, r).restartCount == ExitCount(s, r);
      }
    case KillLoop => if s.closing { SweepKeepsInv(s); }
  }

  // ----- what every interleaving guarantees

  lemma {:induction false} RunKeepsInv(roles: set<string>, events: seq<Event>)
    ensures Inv(Run(roles, events))
  {
    if events == [] {
      var s := Run(roles, events);
      forall r ensures RecordFor(s, r).restartCount == ExitCount(s, r) {}
    } else {
      RunKeepsInv(roles, events[..|events| - 1]);
      StepKeepsInv(Run(roles, events[..|events| - 1]), events[|events| - 1]);
    }
  }

  /** Two live children never serve the same role, and a live child is the one the role is mapped to. */
  lemma OneLiveChildPerRole(roles: set<string>, events: seq<Event>, a: nat, b: nat)
    requires a in Run(roles, events).live && b in Run(roles, events).live
    ensures var s := Run(roles, events);
            a < |s.spawned| && b < |s.spawned| && (s.spawned[a] == s.spawned[b] ==> a == b) &&
            s.spawned[a] in s.children && s.children[s.spawned[a]].id == a
  {
    RunKeepsInv(roles, events);
  }

  /** The restart count of a role is the number of its exits that were unsuppressed and before closing. */
  lemma RestartCountExact(roles: set<string>, events: seq<Event>, role: string)
    ensures var s := Run(roles, events);
            RecordFor(s, role).restartCount == ExitCount(s, role) && s.suppressed <= s.children.Keys
  {
    RunKeepsInv(roles, events);
  }

  lemma ClosingIsFinal(s: State, e: Event)
    requires Inv(s) && s.closing
    ensures var t := Step(s, e);
            t.closing && t.spawned == s.spawned && t.live <= s.live && t.children.Keys <= s.children.Keys &&
            t.exits == s.exits && (s.swept ==> t.swept)
  {
    if e.Reconcile? {
      ReconcileWhileClosing(s, e.role, e.demand, e.pid, e.starts, e.killThrows);
    }
  }

  lemma ReconcileWhileClosing(s: State, role: string, demand: Demand, pid: nat, starts: bool, killThrows: bool)
    requires s.closing
    ensures var t := ReconcileStep(s, role, demand, pid, starts, killThrows);
            t.closing && t.spawned == s.spawned && t.live == s.live && t.children == s.children &&
            t.exits == s.exits && t.swept == s.swept
  {
  }

  /**
   * Once closing has begun no child is spawned and no exit counts, whatever else happens; once the
   * kill loop has run every child that is still live has been sent SIGTERM.
   */
  lemma {:induction false} NothingSpawnsAfterClosing(roles: set<string>, events: seq<Event>, k: nat)
    requires k <= |events| && Run(roles, events[..k]).closing
    ensures var s, t := Run(roles, events[..k]), Run(roles, events);
            t.closing && t.spawned == s.spawned && t.live <= s.live && t.exits == s.exits &&
            (s.swept ==> t.swept) && (t.swept ==> t.live <= t.signalled)
    decreases |events|
  {
    RunKeepsInv(roles, events);
    if k == |events| {
      assert events[..k] == events;
    } else {
      var before := events[..|events| - 1];
      assert before[..k] == events[..k];
      NothingSpawnsAfterClosing(roles, before, k);
      RunKeepsInv(roles, before);
      ClosingIsFinal(Run(roles, before), events[|events| - 1]);
    }
  }

  /** A kill loop signals every child that is mapped when it runs. */
  lemma KillLoopSignalsAll(s: State, role: string)
    requires s.closing && role in s.children
    ensures s.children[role].id in Step(s, KillLoop).signalled && Step(s, KillLoop).swept
  {
    assert s.children[role].id in ChildIds(s);
  }

  /** A suppressed exit is not counted as a restart, clears the suppression and leaves the role undesired. */
  lemma SuppressedExit(s: State, child: nat)
    requires Inv(s) && child in s.live && s.spawned[child] in s.suppressed
    ensures var t, role := Step(s, Exited(child)), s.spawned[child];
            role !in t.suppressed && role !in t.children && !RecordFor(t, role).desired &&
            RecordFor(t, role).restartCount == RecordFor(s, role).restartCount
  {
  }

  /** The role is mapped to a child that is not alive, and no other child of it is. */
  ghost predicate HeldByDeadChild(s: State, role: string, child: Child) {
    role in s.children && s.children[role] == child && child.id !in s.live &&
    forall c | c in s.live && c < |s.spawned| :: s.spawned[c] != role
  }

  lemma DeadChildStays(s: State, e: Event, role: string, child: Child)
    requires Inv(s) && HeldByDeadChild(s, role, child)
    ensures HeldByDeadChild(Step(s, e), role, child)
  {
    if e.Reconcile? { DeadChildBlocksSpawn(s, e.role, e.demand, e.pid, e.starts, e.killThrows, role, child); }
  }

  lemma DeadChildBlocksSpawn(s: State, other: string, demand: Demand, pid: nat, starts: bool, killThrows: bool,
                             role: string, child: Child)
    requires Inv(s) && HeldByDeadChild(s, role, child)
    ensures HeldByDeadChild(ReconcileStep(s, other, demand, pid, starts, killThrows), role, child)
  {
  }

  lemma {:induction false} DeadChildStaysForever(roles: set<string>, events: seq<Event>, k: nat, role: string,
                                                 child: Child)
    requires k <= |events| && HeldByDeadChild(Run(roles, events[..k]), role, child)
    ensures HeldByDeadChild(Run(roles, events), role, child)
    decreases |events|
  {
    if k == |events| {
      assert events[..k] == events;
    } else {
      var before := events[..|events| - 1];
      assert before[..k] == events[..k];
      DeadChildStaysForever(roles, before, k, role, child);
      RunKeepsInv(roles, before);
      DeadChildStays(Run(roles, before), events[|events| - 1], role, child);
    }
  }

  lemma FailedSpawnHolds(s: State, role: string, demand: Demand, pid: nat, killThrows: bool)
    requires Inv(s) && !s.closing && role !in s.children && (role == IMPORT_WORKER ==> demand.active)
    ensures HeldByDeadChild(ReconcileStep(s, role, demand, pid, false, killThrows), role, Child(|s.spawned|, pid))
  {
  }

  /**
   * A role whose spawn fails, so that no exit is ever reported, stays mapped to the dead child in every later
   * state, whatever happens: it never gets a live child again.
   */
  lemma FailedSpawnIsFinal(roles: set<string>, before: seq<Event>, later: seq<Event>, role: string, demand: Demand,
                           pid: nat, killThrows: bool)
    requires var s := Run(roles, before);
      !s.closing && role !in s.children && (role == IMPORT_WORKER ==> demand.active)
    ensures var events := before + [Reconcile(role, demand, pid, false, killThrows)] + later;
      HeldByDeadChild(Run(roles, events), role, Child(|Run(roles, before).spawned|, pid))
  {
    var start := before + [Reconcile(role, demand, pid, false, killThrows)];
    assert start[..|start| - 1] == before;
    RunKeepsInv(roles, before);
    FailedSpawnHolds(Run(roles, before), role, demand, pid, killThrows);
    assert (start + later)[..|start|] == start;
    DeadChildStaysForever(roles, start + later, |start|, role, Child(|Run(roles, before).spawned|, pid));
  }

  // ----- what each event does to its role

  ghost predicate OthersKeepRecords(s: State, t: State, role: string) {
    forall other | other != role :: RecordFor(t, other) == RecordFor(s, other)
  }

  /** Nothing happened but to the record of the role, which is now as given. */
  ghost predicate OnlyRecords(s: State, t: State, role: string, desired: bool, pid: nat, status: string,
                              error: string) {
    t == s.(records := t.records) && OthersKeepRecords(s, t, role) &&
    RecordFor(t, role) == Record(desired, pid, status, RecordFor(s, role).restartCount, error)
  }

  /** A child with the next number was spawned for the role, whose record starts over but for its restarts. */
  ghost predicate SpawnsChild(s: State, t: State, role: string, pid: nat, starts: bool) {
    t.children == s.children[role := Child(|s.spawned|, pid)] &&
    t.spawned == s.spawned + [role] && t.pids == s.pids + [pid] &&
    t.live == (if starts then s.live + {|s.spawned|} else s.live) &&
    t.suppressed == s.suppressed && t.signalled == s.signalled && t.exits == s.exits &&
    t.closing == s.closing && t.swept == s.swept && OthersKeepRecords(s, t, role) &&
    RecordFor(t, role) == Record(true, pid, "starting", RecordFor(s, role).restartCount, "")
  }

  /**
   * A role in demand gets a child if it has none and closing has not begun; the import worker becomes desired in
   * any case. Nothing else happens.
   */
  lemma DemandReconciled(s: State, role: string, demand: Demand, pid: nat, starts: bool, killThrows: bool)
    requires role == IMPORT_WORKER ==> demand.active
    ensures var t, r := Step(s, Reconcile(role, demand, pid, starts, killThrows)), RecordFor(s, role);
      if role !in s.children && !s.closing then SpawnsChild(s, t, role, pid, starts)
      else if role == IMPORT_WORKER then OnlyRecords(s, t, role, true, r.pid, r.status, r.error)
      else t == s
  {
  }

  /** An idle import worker without a child is recorded as idle, and nothing else happens. */
  lemma IdleRecorded(s: State, demand: Demand, pid: nat, starts: bool, killThrows: bool)
    requires !demand.active && IMPORT_WORKER !in s.children
    ensures OnlyRecords(s, Step(s, Reconcile(IMPORT_WORKER, demand, pid, starts, killThrows)), IMPORT_WORKER,
                        false, 0, demand.idleStatus, "")
  {
  }

  /**
   * An idle import worker with a child is recorded as stopping, and the child is sent SIGTERM and its exit
   * suppressed; if the signal cannot be sent the exit is not suppressed.
   */
  lemma IdleStopped(s: State, demand: Demand, pid: nat, starts: bool, killThrows: bool)
    requires !demand.active && IMPORT_WORKER in s.children
    ensures var t := Step(s, Reconcile(IMPORT_WORKER, demand, pid, starts, killThrows));
      var child := s.children[IMPORT_WORKER];
      t.signalled == (if killThrows then s.signalled else s.signalled + {child.id}) &&
      t.suppressed == (if killThrows then s.suppressed - {IMPORT_WORKER} else s.suppressed + {IMPORT_WORKER}) &&
      OnlyRecords(s.(signalled := t.signalled, suppressed := t.suppressed), t, IMPORT_WORKER,
                  false, child.pid, "stopping", "")
  {
  }

  /** An exit frees the role, ends its suppression and counts unless it was suppressed or closing had begun. */
  lemma ExitExact(s: State, child: nat)
    requires child in s.live && child < |s.spawned|
    ensures var t, role := Step(s, Exited(child)), s.spawned[child];
      var r, asked := RecordFor(s, role), role in s.suppressed;
      var counts := !s.closing && !asked;
      t.children == s.children - {role} && t.suppressed == s.suppressed - {role} && t.live == s.live - {child} &&
      t.spawned == s.spawned && t.pids == s.pids && t.signalled == s.signalled && t.closing == s.closing &&
      t.swept == s.swept && OthersKeepRecords(s, t, role) &&
      (forall other | other != role :: ExitCount(t, other) == ExitCount(s, other)) &&
      ExitCount(t, role) == ExitCount(s, role) + (if counts then 1 else 0) &&
      RecordFor(t, role) == Record(
        r.desired && !asked, 0, if s.closing then "stopped" else if asked then "standby" else "exited",
        r.restartCount + (if counts then 1 else 0), r.error)
  {
  }

  /** A heartbeat sets what its payload names; the pid is that of the process, if it has one. */
  lemma HeartbeatExact(s: State, child: nat, p: Payload)
    requires child < |s.spawned| && child < |s.pids|
    ensures var role := s.spawned[child];
      var r := RecordFor(s, role);
      OnlyRecords(s, Step(s, Heartbeat(child, p)), role,
                  if p.desired.Some? then p.desired.value else r.desired,
                  if s.pids[child] != 0 then s.pids[child] else p.pid,
                  if p.status.Some? then p.status.value else r.status,
                  if p.error.Some? then p.error.value else r.error)
  {
  }

  /** An error is recorded as a failure, and nothing else happens. */
  lemma ErrorExact(s: State, child: nat, message: string)
    requires child < |s.spawned|
    ensures var role := s.spawned[child];
      var r := RecordFor(s, role);
      OnlyRecords(s, Step(s, Errored(child, message)), role, r.desired, r.pid, "failed", message)
  {
  }

  /** A shutdown begins closing and nothing else; a kill loop then only sends signals, and before it does nothing. */
  lemma ShutdownExact(s: State)
    ensures Step(s, Event.Shutdown) == s.(closing := true)
    ensures !s.closing ==> Step(s, KillLoop) == s
    ensures s.closing ==>
      var t := Step(s, KillLoop);
      t == s.(signalled := t.signalled, swept := true) &&
      forall c :: c in t.signalled <==> c in s.signalled || exists role | role in s.children :: s.children[role].id == c
  {
  }

  // ----- exactly which roles have a live child

  /** The role is mapped to a child that does not live. */
  predicate Dead(s: State, role: string) {
    role in s.children && s.children[role].id !in s.live
  }

  /** The event spawns a child for the role, and the spawn fails. */
  predicate FailsToSpawn(s: State, e: Event, role: string) {
    e.Reconcile? && e.role == role && !e.starts && !s.closing && role !in s.children &&
    (role == IMPORT_WORKER ==> e.demand.active)
  }

  /** Nothing but a failed spawn leaves a dead child, and nothing removes one. */
  lemma DeadStep(s: State, e: Event, role: string)
    requires Inv(s)
    ensures Dead(Step(s, e), role) <==> Dead(s, role) || FailsToSpawn(s, e, role)
  {
    if e.Reconcile? { DeadReconcile(s, e.role, e.demand, e.pid, e.starts, e.killThrows, role); }
  }

  lemma DeadReconcile(s: State, other: string, demand: Demand, pid: nat, starts: bool, killThrows: bool, role: string)
    requires Inv(s)
    ensures Dead(ReconcileStep(s, other, demand, pid, starts, killThrows), role) <==>
      Dead(s, role) || FailsToSpawn(s, Reconcile(other, demand, pid, starts, killThrows), role)
  {
  }

  /** Some event of the run is a failed spawn of the role. */
  ghost predicate SpawnFailed(roles: set<string>, events: seq<Event>, role: string) {
    exists k | 0 <= k < |events| :: FailsToSpawn(Run(roles, events[..k]), events[k], role)
  }

  lemma SpawnFailedStep(roles: set<string>, before: seq<Event>, e: Event, role: string)
    ensures SpawnFailed(roles, before + [e], role) <==>
      SpawnFailed(roles, before, role) || FailsToSpawn(Run(roles, before), e, role)
  {
    var events := before + [e];
    assert forall k | 0 <= k <= |before| :: events[..k] == before[..k];
    assert before[..|before|] == before && events[|before|] == e;
    if FailsToSpawn(Run(roles, before), e, role) {
      assert FailsToSpawn(Run(roles, events[..|before|]), events[|before|], role);
    }
    if k :| 0 <= k < |before| && FailsToSpawn(Run(roles, before[..k]), before[k], role) {
      assert FailsToSpawn(Run(roles, events[..k]), events[k], role);
    }
  }

  /** Over every interleaving, a role is mapped to a dead child exactly when some spawn of it has failed. */
  lemma {:induction false} DeadExactly(roles: set<string>, events: seq<Event>, role: string)
    ensures Dead(Run(roles, events), role) <==> SpawnFailed(roles, events, role)
  {
    if events != [] {
      var before, e := events[..|events| - 1], events[|events| - 1];
      assert events == before + [e];
      DeadExactly(roles, before, role);
      SpawnFailedStep(roles, before, e, role);
      RunKeepsInv(roles, before);
      DeadStep(Run(roles, before), e, role);
    }
  }

  /** Some live child was spawned for the role. */
  predicate Served(s: State, role: string) {
    exists c | c in s.live :: c < |s.spawned| && s.spawned[c] == role
  }

  lemma ServedByMapped(s: State, role: string)
    requires Inv(s)
    ensures Served(s, role) <==> role in s.children && !Dead(s, role)
  {
    if role in s.children && !Dead(s, role) { assert s.spawned[s.children[role].id] == role; }
  }

  lemma ReconciledIsMapped(s: State, role: string, demand: Demand, pid: nat, starts: bool, killThrows: bool)
    requires !s.closing && (role == IMPORT_WORKER ==> demand.active)
    ensures role in ReconcileStep(s, role, demand, pid, starts, killThrows).children
  {
  }

  /**
   * A role that is in demand when it is reconciled before closing has a live child afterwards exactly when no
   * spawn of it has ever failed, this one included.
   */
  lemma ServedExactly(roles: set<string>, before: seq<Event>, role: string, demand: Demand, pid: nat, starts: bool,
                      killThrows: bool)
    requires !Run(roles, before).closing && (role == IMPORT_WORKER ==> demand.active)
    ensures var events := before + [Reconcile(role, demand, pid, starts, killThrows)];
      Served(Run(roles, events), role) <==> !SpawnFailed(roles, events, role)
  {
    var events := before + [Reconcile(role, demand, pid, starts, killThrows)];
    assert events[..|events| - 1] == before;
    RunKeepsInv(roles, events);
    ReconciledIsMapped(Run(roles, before), role, demand, pid, starts, killThrows);
    ServedByMapped(Run(roles, events), role);
    DeadExactly(roles, events, role);
  }

  // ----- the supervisor itself

  class Supervisor {
    var children: map<string, Child>
    var records: map<string, Record>
    var suppressRestartRoles: set<string>
    var closing: bool
    ghost var spawned: seq<string>
    ghost var pids: seq<nat>
    ghost var live: set<nat>
    ghost var signalled: set<nat>
    ghost var exits: map<string, nat>
    ghost var swept: bool

    ghost function Value(): State
      reads this
    {
      State(children, records, suppressRestartRoles, closing, spawned, pids, live, signalled, exits, swept)
    }

    constructor (roles: set<string>)
      ensures Value() == Initial(roles)
    {
      children, records := map[], map role | role in roles :: DEFAULT_RECORD;
      suppressRestartRoles, closing := {}, false;
      spawned, pids, live, signalled, exits, swept := [], [], {}, {}, map[], false;
    }

    function Current(role: string): Record
      reads this
    {
      if role in records then records[role] else DEFAULT_RECORD
    }

    method SpawnRole(role: string, id: nat, pid: nat, starts: bool)
      requires id == |spawned|
      modifies this
      ensures Value() == SpawnStep(old(Value()), role, pid, starts)
    {
      if closing { return; }
      var previous := Current(role);
      var child := Child(id, pid);
      records := records[role := DEFAULT_RECORD.(restartCount := previous.restartCount, pid := pid)];
      children := children[role := child];
      spawned, pids := spawned + [role], pids + [pid];
      if starts { live := live + {id}; }
    }

    method UpdateRoleDemand(role: string)
      modifies this`records
      ensures Value() == DemandStep(old(Value()), role)
    {
      records := records[role := Current(role).(desired := true)];
    }

    method RecordIdleRole(role: string, demand: Demand)
      modifies this`records
      ensures Value() == IdleStep(old(Value()), role, demand)
    {
      var previous := Current(role);
      records := records[role := previous.(
        desired := false,
        status := if role in children then "stopping" else demand.idleStatus,
        pid := if role in children then children[role].pid else 0,
        error := "")];
    }

    method ReconcileRole(role: string, demand: Demand, id: nat, pid: nat, starts: bool, killThrows: bool)
      requires id == |spawned|
      modifies this
      ensures Value() == Step(old(Value()), Reconcile(role, demand, pid, starts, killThrows))
    {
      if role != IMPORT_WORKER {
        if role !in children { SpawnRole(role, id, pid, starts); }
        return;
      }
      if demand.active {
        UpdateRoleDemand(role);
        if role !in children { SpawnRole(role, id, pid, starts); }
        return;
      }
      RecordIdleRole(role, demand);
      if role !in children { return; }
      suppressRestartRoles := suppressRestartRoles + {role};
      if killThrows {
        suppressRestartRoles := suppressRestartRoles - {role};
      } else {
        signalled := signalled + {children[role].id};
      }
    }

    method OnExit(role: string, ghost child: nat)
      requires child < |spawned| && spawned[child] == role && child in live
      modifies this
      ensures Value() == Step(old(Value()), Exited(child))
    {
      var current := Current(role);
      var restartSuppressed := role in suppressRestartRoles;
      suppressRestartRoles := suppressRestartRoles - {role};
      children := children - {role};
      records := records[role := ExitRecord(current, closing, restartSuppressed)];
      live := live - {child};
      if !closing && !restartSuppressed {
        exits := exits[role := (if role in exits then exits[role] else 0) + 1];
      }
    }

    method OnHeartbeat(role: string, child: Child, payload: Payload)
      requires child.id < |spawned| && child.id < |pids| && spawned[child.id] == role && pids[child.id] == child.pid
      modifies this`records
      ensures Value() == Step(old(Value()), Heartbeat(child.id, payload))
    {
      var r := Current(role);
      records := records[role := Record(
        Or(payload.desired, r.desired), if child.pid != 0 then child.pid else payload.pid,
        Or(payload.status, r.status), r.restartCount, Or(payload.error, r.error))];
    }

    method OnError(role: string, ghost child: nat, message: string)
      requires child < |spawned| && spawned[child] == role
      modifies this`records
      ensures Value() == Step(old(Value()), Errored(child, message))
    {
      records := records[role := Current(role).(status := "failed", error := message)];
    }

    method BeginShutdown()
      modifies this`closing
      ensures Value() == Step(old(Value()), Event.Shutdown)
    {
      closing := true;
    }

    /** The kill loop of a shutdown, over the children mapped at that moment. */
    method KillChildren()
      requires closing
      modifies this`signalled, this`swept
      ensures Value() == Step(old(Value()), Event.KillLoop)
    {
      var rest := children.Keys;
      while rest != {}
        invariant rest <= children.Keys
        invariant signalled == old(signalled) + (set role | role in children.Keys - rest :: children[role].id)
        decreases rest
      {
        var role :| role in rest;
        assert children.Keys - (rest - {role}) == (children.Keys - rest) + {role};
        signalled := signalled + {children[role].id};
        rest := rest - {role};
      }
      assert children.Keys - {} == children.Keys;
      swept := true;
    }
  }
}
