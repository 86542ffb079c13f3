/** Protected branch promotion: the push check as the step condition of a growing commit history. */
module BranchFlow {
  import opened Sequences
  import opened Graphs

  const NIGHTLY := "nightly"
  const STABLE := "stable"
  const RELEASE := "release"
  const LONG_LIVED := {NIGHTLY, STABLE, RELEASE}

  function Zeros(n: nat): string {
    if n == 0 then "" else "0" + Zeros(n - 1)
  }

  const ZERO_OID := Zeros(40)

  datatype Code =
    | ProtectedBranchInvalid | BootstrapForbidden | NotFastForward | DirectNightlyAdvance
    | PromotionSourceMissing | PromotionSourceTipMismatch
    | FastForwardAdvanced(upstream: string, branch: string) | MergeAdvanced(upstream: string, branch: string)

  datatype Verdict = Verdict(ok: bool, code: Code)

  function DirectUpstream(branch: string): string {
    if branch == STABLE then NIGHTLY else STABLE
  }

  /** `verifyProtectedPushTopology`; the suppliers stand for Git. */
  function VerifyProtectedPushTopology(
    branch: string, before: string, after: string,
    branchTip: string -> string, ancestor: (string, string) -> bool, parentsOf: string -> seq<string>): Verdict
  {
    if branch !in LONG_LIVED then Verdict(false, ProtectedBranchInvalid)
    else if before == "" || after == "" || before == ZERO_OID ||
      after == ZERO_OID then Verdict(false, BootstrapForbidden)
    else if !ancestor(before, after) then Verdict(false, NotFastForward)
    else if branch == NIGHTLY then Verdict(true, DirectNightlyAdvance)
    else
      var tip := branchTip(DirectUpstream(branch));
      if tip == "" then Verdict(false, PromotionSourceMissing)
      else if after == tip then Verdict(true, FastForwardAdvanced(DirectUpstream(branch), branch))
      else if tip in parentsOf(after) then Verdict(true, MergeAdvanced(DirectUpstream(branch), branch))
      else Verdict(false, PromotionSourceTipMismatch)
  }

  /** Both ends of the push name commits. */
  predicate NamesCommits(before: string, after: string) {
    before != "" && after != "" && before != ZERO_OID && after != ZERO_OID
  }

  /** When a push to a branch, whose upstream has the given tip, gets a code, and whether it is then accepted. */
  predicate Deserves(branch: string, before: string, after: string, nightlyTip: string, stableTip: string,
                     forward: bool, parents: seq<string>, v: Verdict) {
    var longLived := branch == NIGHTLY || branch == STABLE || branch == RELEASE;
    var moves := longLived && NamesCommits(before, after) && forward;
    match v.code
    case ProtectedBranchInvalid => !v.ok && !longLived
    case BootstrapForbidden => !v.ok && longLived && !NamesCommits(before, after)
    case NotFastForward => !v.ok && longLived && NamesCommits(before, after) && !forward
    case DirectNightlyAdvance => v.ok && moves && branch == NIGHTLY
    case PromotionSourceMissing =>
      !v.ok && moves && ((branch == STABLE && nightlyTip == "") || (branch == RELEASE && stableTip == ""))
    case FastForwardAdvanced(upstream, promoted) =>
      v.ok && moves && promoted == branch &&
      ((branch == STABLE && upstream == NIGHTLY && after == nightlyTip) ||
       (branch == RELEASE && upstream == STABLE && after == stableTip))
    case MergeAdvanced(upstream, promoted) =>
      v.ok && moves && promoted == branch &&
      ((branch == STABLE && upstream == NIGHTLY && nightlyTip != "" && after != nightlyTip && nightlyTip in parents) ||
       (branch == RELEASE && upstream == STABLE && stableTip != "" && after != stableTip && stableTip in parents))
    case PromotionSourceTipMismatch =>
      !v.ok && moves &&
      ((branch == STABLE && nightlyTip != "" && after != nightlyTip && nightlyTip !in parents) ||
       (branch == RELEASE && stableTip != "" && after != stableTip && stableTip !in parents))
  }

  lemma BranchesDiffer()
    ensures NIGHTLY != STABLE && NIGHTLY != RELEASE && STABLE != RELEASE
  {
    assert NIGHTLY[0] == 'n' && STABLE[0] == 's' && RELEASE[0] == 'r';
  }

  /** Whatever Git answers, a verdict is given exactly when it is deserved. */
  lemma VerdictExact(branch: string, before: string, after: string, branchTip: string -> string,
                     ancestor: (string, string) -> bool, parentsOf: string -> seq<string>, v: Verdict)
    ensures VerifyProtectedPushTopology(branch, before, after, branchTip, ancestor, parentsOf) == v <==>
      Deserves(branch, before, after, branchTip(NIGHTLY), branchTip(STABLE), ancestor(before, after),
               parentsOf(after), v)
  {
    BranchesDiffer();
  }

  // ----- repositories

  /** The commits with their parents. */
  type Commits = map<string, seq<string>>

  /** A repository: its commits, and for each protected branch all tips it has had, the current one last. */
  datatype Repository = Repository(commits: Commits, history: map<string, seq<string>>)

  function ParentGraph(commits: Commits): Graph {
    map c | c in commits :: ToSet(commits[c])
  }

  /** Whether Git finds `a` among the ancestors of `b`, which include `b` itself. */
  ghost predicate Ancestor(commits: Commits, a: string, b: string) {
    Reaches(ParentGraph(commits), {b}, a)
  }

  predicate IsCommitId(c: string) {
    c != "" && c != ZERO_OID
  }

  predicate ValidRepository(r: Repository) {
    (forall c, p | c in r.commits && p in r.commits[c] :: p in r.commits) &&
    (forall c | c in r.commits :: IsCommitId(c)) &&
    r.history.Keys == LONG_LIVED &&
    forall b | b in r.history :: r.history[b] != [] && forall t | t in r.history[b] :: t in r.commits
  }

  function Tip(r: Repository, branch: string): string
    requires ValidRepository(r) && branch in LONG_LIVED
  {
    r.history[branch][|r.history[branch]| - 1]
  }

  ghost predicate PushAccepted(r: Repository, branch: string, after: string)
    requires ValidRepository(r)
  {
    branch in LONG_LIVED && after in r.commits &&
    VerifyProtectedPushTopology(
      branch, Tip(r, branch), after,
      b => if ValidRepository(r) && b in LONG_LIVED then Tip(r, b) else "",
      (a, b) => Ancestor(r.commits, a, b),
      c => if c in r.commits then r.commits[c] else []).ok
  }

  datatype Event = Commit(id: string, parents: seq<string>) | Push(branch: string, after: string)

  /** New commits may appear on known parents; a protected branch moves only by an accepted push. */
  ghost predicate Enabled(r: Repository, e: Event)
    requires ValidRepository(r)
  {
    match e
    case Commit(id, parents) => id !in r.commits && IsCommitId(id) && forall p | p in parents :: p in r.commits
    case Push(branch, after) => PushAccepted(r, branch, after)
  }

  function Apply(r: Repository, e: Event): Repository {
    match e
    case Commit(id, parents) => r.(commits := r.commits[id := parents])
    case Push(branch, after) =>
      if branch in r.history then r.(history := r.history[branch := r.history[branch] + [after]]) else r
  }

  ghost predicate Runs(start: Repository, events: seq<Event>, end: Repository) {
    if events == [] then end == start
    else
      var last := |events| - 1;
      exists r :: Runs(start, events[..last], r) && ValidRepository(r) && Enabled(r, events[last]) &&
        end == Apply(r, events[last])
  }

  // ----- ancestry

  lemma AncestorReflexive(commits: Commits, a: string)
    ensures Ancestor(commits, a, a)
  {
    ReachesRoot(ParentGraph(commits), {a}, a);
  }

  lemma ParentIsAncestor(commits: Commits, a: string, b: string)
    requires b in commits && a in commits[b]
    ensures Ancestor(commits, a, b)
  {
    AncestorReflexive(commits, b);
    ReachesNext(ParentGraph(commits), {b}, b, a);
  }

  lemma AncestorTransitive(commits: Commits, a: string, b: string, c: string)
    requires Ancestor(commits, a, b) && Ancestor(commits, b, c)
    ensures Ancestor(commits, a, c)
  {
    var g := ParentGraph(commits);
    var w :| WalkTo(g, {b}, w, a);
    WalkContinues(g, {c}, w);
  }

  lemma {:induction false} WalkContinues(g: Graph, roots: set<string>, w: seq<string>)
    requires Walk(g, w) && Reaches(g, roots, w[0])
    ensures Reaches(g, roots, w[|w| - 1])
  {
    if |w| > 1 {
      var last := |w| - 1;
      WalkContinues(g, roots, w[..last]);
      assert w[last] in Next(g, w[last - 1]);
      ReachesNext(g, roots, w[last - 1], w[last]);
    }
  }

  /** A commit on known parents leaves the ancestry of the existing commits as it is. */
  lemma AncestorKept(commits: Commits, id: string, parents: seq<string>, a: string, b: string)
    requires id !in commits && Ancestor(commits, a, b)
    ensures Ancestor(commits[id := parents], a, b)
  {
    var g, h := ParentGraph(commits), ParentGraph(commits[id := parents]);
    var w :| WalkTo(g, {b}, w, a);
    forall i | 0 <= i < |w| - 1 ensures w[i + 1] in Next(h, w[i]) {
      assert w[i + 1] in Next(g, w[i]) && w[i] in commits;
    }
    assert WalkTo(h, {b}, w, a);
  }

  // ----- the invariant

  /** The commit is a past tip of the upstream branch, or has one as a direct parent. */
  predicate PromotedFrom(r: Repository, upstream: string, t: string, source: string) {
    upstream in r.history && source in r.history[upstream] &&
    (t == source || (t in r.commits && source in r.commits[t]))
  }

  ghost predicate FastForward(r: Repository) {
    forall b, i, j | b in r.history && 0 <= i <= j < |r.history[b]| ::
      Ancestor(r.commits, r.history[b][i], r.history[b][j])
  }

  ghost predicate Sourced(r: Repository, upstream: string, t: string) {
    exists s :: PromotedFrom(r, upstream, t, s)
  }

  ghost predicate Promoted(r: Repository, branch: string) {
    branch in r.history &&
    forall i | 1 <= i < |r.history[branch]| :: Sourced(r, DirectUpstream(branch), r.history[branch][i])
  }

  /** Histories only move forward, and promoted branches only through their upstream. */
  ghost predicate Inv(r: Repository) {
    ValidRepository(r) && FastForward(r) && Promoted(r, STABLE) && Promoted(r, RELEASE)
  }

  /** A repository at its first protected tips. */
  predicate Bootstrapped(r: Repository) {
    ValidRepository(r) && forall b | b in r.history :: |r.history[b]| == 1
  }

  lemma BootstrapKeepsInv(r: Repository)
    requires Bootstrapped(r)
    ensures Inv(r)
  {
    forall b, i, j | b in r.history && 0 <= i <= j < |r.history[b]|
      ensures Ancestor(r.commits, r.history[b][i], r.history[b][j])
    {
      AncestorReflexive(r.commits, r.history[b][0]);
    }
  }

  lemma CommitKeepsInv(r: Repository, id: string, parents: seq<string>)
    requires Inv(r) && Enabled(r, Commit(id, parents))
    ensures Inv(Apply(r, Commit(id, parents)))
  {
    var t := Apply(r, Commit(id, parents));
    forall b, i, j | b in t.history && 0 <= i <= j < |t.history[b]|
      ensures Ancestor(t.commits, t.history[b][i], t.history[b][j])
    {
      AncestorKept(r.commits, id, parents, r.history[b][i], r.history[b][j]);
    }
    PromotedAfterCommit(r, id, parents, STABLE);
    PromotedAfterCommit(r, id, parents, RELEASE);
  }

  lemma PromotedAfterCommit(r: Repository, id: string, parents: seq<string>, branch: string)
    requires ValidRepository(r) && id !in r.commits && Promoted(r, branch)
    ensures Promoted(Apply(r, Commit(id, parents)), branch)
  {
    var t, up := Apply(r, Commit(id, parents)), DirectUpstream(branch);
    forall i | 1 <= i < |t.history[branch]|
      ensures Sourced(t, up, t.history[branch][i])
    {
      assert Sourced(r, up, r.history[branch][i]);
      var s :| PromotedFrom(r, up, r.history[branch][i], s);
      assert PromotedFrom(t, up, t.history[branch][i], s);
    }
  }

  /** The commit carries on from the tip: it is that tip or has it among its parents. */
  predicate CarriesOn(r: Repository, tip: string, after: string)
    requires after in r.commits
  {
    after == tip || tip in r.commits[after]
  }

  lemma AcceptedExactly(r: Repository, branch: string, after: string)
    requires ValidRepository(r) && branch in LONG_LIVED && after in r.commits
    ensures PushAccepted(r, branch, after) <==>
      Ancestor(r.commits, Tip(r, branch), after) &&
      (branch == NIGHTLY || CarriesOn(r, Tip(r, DirectUpstream(branch)), after))
  {
    BranchesDiffer();
    TipIsCommit(r, branch);
    TipIsCommit(r, DirectUpstream(branch));
  }

  /**
   * A push is accepted exactly when it moves a long-lived branch forward to a known commit, and that commit
   * carries on from the current tip of nightly for stable, and from that of stable for release.
   */
  lemma PushEnabledExactly(r: Repository, branch: string, after: string)
    requires ValidRepository(r)
    ensures Enabled(r, Push(branch, after)) <==>
      after in r.commits && branch in r.history &&
      Ancestor(r.commits, r.history[branch][|r.history[branch]| - 1], after) &&
      (branch == NIGHTLY ||
       (branch == STABLE && CarriesOn(r, r.history[NIGHTLY][|r.history[NIGHTLY]| - 1], after)) ||
       (branch == RELEASE && CarriesOn(r, r.history[STABLE][|r.history[STABLE]| - 1], after)))
  {
    BranchesDiffer();
    if branch in LONG_LIVED && after in r.commits {
      AcceptedExactly(r, branch, after);
      assert Enabled(r, Push(branch, after)) <==> PushAccepted(r, branch, after);
    } else {
      assert !PushAccepted(r, branch, after);
    }
  }

  lemma TipIsCommit(r: Repository, branch: string)
    requires ValidRepository(r) && branch in LONG_LIVED
    ensures Tip(r, branch) in r.commits && IsCommitId(Tip(r, branch))
  {
    assert Tip(r, branch) in r.history[branch];
  }

  /** An accepted promotion comes from the tip of the upstream branch. */
  lemma AcceptedComesFromUpstream(r: Repository, branch: string, after: string)
    requires ValidRepository(r) && PushAccepted(r, branch, after)
    ensures Ancestor(r.commits, Tip(r, branch), after)
    ensures branch != NIGHTLY ==> PromotedFrom(r, DirectUpstream(branch), after, Tip(r, DirectUpstream(branch)))
  {
  }

  lemma PushKeepsValid(r: Repository, branch: string, after: string)
    requires ValidRepository(r) && branch in LONG_LIVED && after in r.commits
    ensures ValidRepository(Apply(r, Push(branch, after)))
  {
    var t := Apply(r, Push(branch, after));
    forall b, c | b in t.history && c in t.history[b] ensures c in t.commits {
      assert c in r.history[b] || c == after;
    }
  }

  lemma PushKeepsFastForward(r: Repository, branch: string, after: string)
    requires ValidRepository(r) && FastForward(r) && PushAccepted(r, branch, after)
    ensures FastForward(Apply(r, Push(branch, after)))
  {
    AcceptedComesFromUpstream(r, branch, after);
    var t, h := Apply(r, Push(branch, after)), r.history[branch];
    forall b, i, j | b in t.history && 0 <= i <= j < |t.history[b]|
      ensures Ancestor(t.commits, t.history[b][i], t.history[b][j])
    {
      if b == branch && j == |h| {
        AncestorReflexive(r.commits, after);
        if i < |h| {
          assert Ancestor(r.commits, h[i], h[|h| - 1]);
          AncestorTransitive(r.commits, h[i], Tip(r, branch), after);
        }
      } else {
        assert Ancestor(r.commits, r.history[b][i], r.history[b][j]);
      }
    }
  }

  lemma PushKeepsPromoted(r: Repository, branch: string, after: string, b: string)
    requires ValidRepository(r) && PushAccepted(r, branch, after) && Promoted(r, b) && b != NIGHTLY
    ensures Promoted(Apply(r, Push(branch, after)), b)
  {
    AcceptedComesFromUpstream(r, branch, after);
    var t, up := Apply(r, Push(branch, after)), DirectUpstream(b);
    forall i | 1 <= i < |t.history[b]|
      ensures Sourced(t, up, t.history[b][i])
    {
      if b == branch && i == |r.history[b]| {
        assert PromotedFrom(t, up, after, Tip(r, up));
      } else {
        assert Sourced(r, up, r.history[b][i]);
        var s :| PromotedFrom(r, up, r.history[b][i], s);
        assert PromotedFrom(t, up, t.history[b][i], s);
      }
    }
  }

  lemma StepKeepsInv(r: Repository, e: Event)
    requires Inv(r) && Enabled(r, e)
    ensures Inv(Apply(r, e))
  {
    match e
    case Commit(id, parents) => CommitKeepsInv(r, id, parents);
    case Push(branch, after) =>
      PushKeepsValid(r, branch, after);
      PushKeepsFastForward(r, branch, after);
      PushKeepsPromoted(r, branch, after, STABLE);
      PushKeepsPromoted(r, branch, after, RELEASE);
  }

  // ----- what every sequence of accepted pushes preserves

  lemma {:induction false} RunKeepsInv(start: Repository, events: seq<Event>, end: Repository)
    requires Bootstrapped(start) && Runs(start, events, end)
    ensures Inv(end)
  {
    if events == [] {
      BootstrapKeepsInv(start);
    } else {
      var last := |events| - 1;
      var r :| Runs(start, events[..last], r) && ValidRepository(r) && Enabled(r, events[last]) &&
        end == Apply(r, events[last]);
      RunKeepsInv(start, events[..last], r);
      StepKeepsInv(r, events[last]);
    }
  }

  /** No protected branch ever loses a tip: each past tip is an ancestor of every later one. */
  lemma NoTipIsLost(start: Repository, events: seq<Event>, end: Repository, branch: string, i: nat)
    requires Bootstrapped(start) && Runs(start, events, end) && branch in LONG_LIVED
    requires branch in end.history && i < |end.history[branch]|
    ensures ValidRepository(end) && Ancestor(end.commits, end.history[branch][i], Tip(end, branch))
  {
    RunKeepsInv(start, events, end);
  }

  /** The commit incorporates something that has been the tip of nightly. */
  ghost predicate FromNightly(r: Repository, c: string) {
    NIGHTLY in r.history && exists n | n in r.history[NIGHTLY] :: Ancestor(r.commits, n, c)
  }

  lemma PromotedSourceIsAncestor(r: Repository, up: string, t: string, s: string)
    requires PromotedFrom(r, up, t, s)
    ensures Ancestor(r.commits, s, t)
  {
    if t == s { AncestorReflexive(r.commits, t); } else { ParentIsAncestor(r.commits, s, t); }
  }

  /** Every promoted stable tip comes from nightly. */
  lemma PromotedStableIsFromNightly(r: Repository, i: nat)
    requires Inv(r) && 1 <= i < |r.history[STABLE]|
    ensures FromNightly(r, r.history[STABLE][i])
  {
    assert Sourced(r, DirectUpstream(STABLE), r.history[STABLE][i]);
    var s :| PromotedFrom(r, NIGHTLY, r.history[STABLE][i], s);
    PromotedSourceIsAncestor(r, NIGHTLY, r.history[STABLE][i], s);
  }

  lemma FromNightlyDescends(r: Repository, a: string, b: string)
    requires FromNightly(r, a) && Ancestor(r.commits, a, b)
    ensures FromNightly(r, b)
  {
    var n :| n in r.history[NIGHTLY] && Ancestor(r.commits, n, a);
    AncestorTransitive(r.commits, n, a, b);
  }

  /** The first stable or the first release tip comes from nightly. */
  ghost predicate Anchored(r: Repository)
    requires ValidRepository(r)
  {
    FromNightly(r, r.history[STABLE][0]) || FromNightly(r, r.history[RELEASE][0])
  }

  lemma AnchoredPromotions(r: Repository, i: nat)
    requires Inv(r) && Anchored(r) && 1 <= i < |r.history[RELEASE]|
    ensures FromNightly(r, r.history[RELEASE][i])
  {
    var t := r.history[RELEASE][i];
    if FromNightly(r, r.history[RELEASE][0]) {
      FromNightlyDescends(r, r.history[RELEASE][0], t);
    } else {
      assert Sourced(r, DirectUpstream(RELEASE), t);
      var s :| PromotedFrom(r, STABLE, t, s);
      var j :| 0 <= j < |r.history[STABLE]| && r.history[STABLE][j] == s;
      if j > 0 { PromotedStableIsFromNightly(r, j); }
      PromotedSourceIsAncestor(r, STABLE, t, s);
      FromNightlyDescends(r, s, t);
    }
  }

  lemma {:induction false} RunKeepsAnchor(start: Repository, events: seq<Event>, end: Repository)
    requires Bootstrapped(start) && Anchored(start) && Runs(start, events, end)
    ensures Inv(end) && Anchored(end)
  {
    if events == [] {
      BootstrapKeepsInv(start);
    } else {
      var last := |events| - 1;
      var r :| Runs(start, events[..last], r) && ValidRepository(r) && Enabled(r, events[last]) &&
        end == Apply(r, events[last]);
      RunKeepsAnchor(start, events[..last], r);
      StepKeepsInv(r, events[last]);
      StepKeepsAnchor(r, events[last]);
    }
  }

  lemma StepKeepsAnchor(r: Repository, e: Event)
    requires ValidRepository(r) && Anchored(r) && Enabled(r, e) && ValidRepository(Apply(r, e))
    ensures Anchored(Apply(r, e))
  {
    forall c | FromNightly(r, c) ensures FromNightly(Apply(r, e), c) { FromNightlyKept(r, e, c); }
  }

  lemma FromNightlyKept(r: Repository, e: Event, c: string)
    requires ValidRepository(r) && Enabled(r, e) && FromNightly(r, c)
    ensures FromNightly(Apply(r, e), c)
  {
    var n :| n in r.history[NIGHTLY] && Ancestor(r.commits, n, c);
    if e.Commit? { AncestorKept(r.commits, e.id, e.parents, n, c); }
    assert n in Apply(r, e).history[NIGHTLY];
  }

  ghost predicate PromotionsFromNightly(r: Repository) {
    RELEASE in r.history && forall i | 1 <= i < |r.history[RELEASE]| :: FromNightly(r, r.history[RELEASE][i])
  }

  /** Every release promotion in every run of this repository comes from nightly. */
  ghost predicate ReleasesComeFromNightly(start: Repository) {
    forall events, end | Runs(start, events, end) :: PromotionsFromNightly(end)
  }

  /**
   * Release promotions always come from nightly exactly when the first stable or the first release tip
   * did: otherwise a merge of these two tips is accepted as the first release promotion.
   */
  lemma ReleasesComeFromNightlyExactly(start: Repository, unused: string)
    requires Bootstrapped(start) && unused !in start.commits && IsCommitId(unused)
    ensures ReleasesComeFromNightly(start) <==> Anchored(start)
  {
    if Anchored(start) {
      forall events, end | Runs(start, events, end) ensures PromotionsFromNightly(end) {
        RunKeepsAnchor(start, events, end);
        forall i | 1 <= i < |end.history[RELEASE]| ensures FromNightly(end, end.history[RELEASE][i]) {
          AnchoredPromotions(end, i);
        }
      }
    } else {
      UnanchoredMerge(start, unused);
    }
  }

  /** The repository after the first stable and release tips were merged into a new release tip. */
  function Merged(start: Repository, unused: string): Repository
    requires Bootstrapped(start)
  {
    var s, r := start.history[STABLE][0], start.history[RELEASE][0];
    Apply(Apply(start, Commit(unused, [r, s])), Push(RELEASE, unused))
  }

  lemma MergeRuns(start: Repository, unused: string)
    requires Bootstrapped(start) && unused !in start.commits && IsCommitId(unused)
    ensures Runs(start, MergeEvents(start, unused), Merged(start, unused)) && Inv(Merged(start, unused))
  {
    var e1, e2 := MergeCommit(start, unused), Push(RELEASE, unused);
    MergeIsEnabled(start, unused);
    RunsTwo(start, Apply(start, e1), e1, e2);
    StepKeepsInv(Apply(start, e1), e2);
  }

  /** The merge of the first release and stable tips. */
  function MergeCommit(start: Repository, unused: string): Event
    requires Bootstrapped(start)
  {
    Commit(unused, [start.history[RELEASE][0], start.history[STABLE][0]])
  }

  function MergeEvents(start: Repository, unused: string): seq<Event>
    requires Bootstrapped(start)
  {
    [MergeCommit(start, unused)] + [Push(RELEASE, unused)]
  }

  lemma MergeIsEnabled(start: Repository, unused: string)
    requires Bootstrapped(start) && unused !in start.commits && IsCommitId(unused)
    ensures Inv(start) && Enabled(start, MergeCommit(start, unused)) && Inv(Apply(start, MergeCommit(start, unused)))
    ensures Enabled(Apply(start, MergeCommit(start, unused)), Push(RELEASE, unused))
  {
    var s, r := start.history[STABLE][0], start.history[RELEASE][0];
    assert s in start.history[STABLE] && r in start.history[RELEASE];
    BootstrapKeepsInv(start);
    StepKeepsInv(start, MergeCommit(start, unused));
    MergeIsAccepted(Apply(start, MergeCommit(start, unused)), s, r, unused);
  }

  lemma MergeIsAccepted(mid: Repository, s: string, r: string, merge: string)
    requires ValidRepository(mid) && Tip(mid, RELEASE) == r && Tip(mid, STABLE) == s
    requires merge in mid.commits && mid.commits[merge] == [r, s]
    ensures PushAccepted(mid, RELEASE, merge)
  {
    ParentIsAncestor(mid.commits, r, merge);
    assert r in mid.history[RELEASE] && s in mid.history[STABLE] && s in mid.commits[merge];
  }

  lemma RunsTwo(start: Repository, mid: Repository, e1: Event, e2: Event)
    requires ValidRepository(start) && Enabled(start, e1) && mid == Apply(start, e1)
    requires ValidRepository(mid) && Enabled(mid, e2)
    ensures Runs(start, [e1] + [e2], Apply(mid, e2))
  {
    RunsOne(start, mid, [e1]);
    RunsMore(start, [e1], mid, e2);
  }

  lemma RunsOne(start: Repository, mid: Repository, events: seq<Event>)
    requires |events| == 1 && ValidRepository(start) && Enabled(start, events[0]) && mid == Apply(start, events[0])
    ensures Runs(start, events, mid)
  {
    assert Runs(start, [], start);
    assert [] + [events[0]] == events;
    RunsMore(start, [], start, events[0]);
  }

  lemma RunsMore(start: Repository, events: seq<Event>, r: Repository, e: Event)
    requires Runs(start, events, r) && ValidRepository(r) && Enabled(r, e)
    ensures Runs(start, events + [e], Apply(r, e))
  {
    var more := events + [e];
    assert more[..|more| - 1] == events && more[|more| - 1] == e;
  }

  lemma MergeIsNotFromNightly(start: Repository, unused: string)
    requires Bootstrapped(start) && unused !in start.commits && !Anchored(start)
    ensures !FromNightly(Merged(start, unused), unused)
  {
    var end := Merged(start, unused);
    forall n | n in end.history[NIGHTLY] ensures !Ancestor(end.commits, n, unused) {
      assert n in start.history[NIGHTLY];
      assert !Ancestor(start.commits, n, start.history[RELEASE][0]) &&
        !Ancestor(start.commits, n, start.history[STABLE][0]);
      if Ancestor(end.commits, n, unused) { MergeAncestors(start, unused, n); }
    }
  }

  lemma UnanchoredMerge(start: Repository, unused: string)
    requires Bootstrapped(start) && unused !in start.commits && IsCommitId(unused) && !Anchored(start)
    ensures !ReleasesComeFromNightly(start)
  {
    var end := Merged(start, unused);
    assert !PromotionsFromNightly(end) by {
      MergeIsNotFromNightly(start, unused);
      MergedTip(start, unused);
      OneBadPromotion(end, 1);
    }
    MergeRuns(start, unused);
  }

  /** Three first tips that have nothing in common: a release promotion without nightly content is accepted. */
  lemma UnrelatedTips() returns (start: Repository)
    ensures Bootstrapped(start) && !Anchored(start) && !ReleasesComeFromNightly(start)
  {
    start := ThreeRoots();
    ThreeRootsAreValid();
    ThreeRootsAreUnrelated();
    UnanchoredMerge(start, "m");
  }

  function ThreeRoots(): Repository {
    Repository(map["n" := [], "s" := [], "r" := []], map[NIGHTLY := ["n"], STABLE := ["s"], RELEASE := ["r"]])
  }

  lemma ThreeRootsAreValid()
    ensures Bootstrapped(ThreeRoots()) && "m" !in ThreeRoots().commits && IsCommitId("m")
  {
    ZeroOidIsLong();
    RootsAreValid(ThreeRoots(), "n", "s", "r");
  }

  lemma RootsAreValid(r: Repository, n: string, s: string, t: string)
    requires IsCommitId(n) && IsCommitId(s) && IsCommitId(t) && r.commits == map[n := [], s := [], t := []]
    requires r.history == map[NIGHTLY := [n], STABLE := [s], RELEASE := [t]]
    ensures Bootstrapped(r)
  {
  }

  lemma ThreeRootsAreUnrelated()
    requires Bootstrapped(ThreeRoots())
    ensures !Anchored(ThreeRoots())
  {
    UnrelatedAncestor(ThreeRoots().commits, "n", "s");
    UnrelatedAncestor(ThreeRoots().commits, "n", "r");
  }

  lemma ZeroOidIsLong()
    ensures forall c | |c| == 1 :: IsCommitId(c)
  {
    assert Zeros(40) == "0" + Zeros(39) && Zeros(39) == "0" + Zeros(38);
  }

  lemma UnrelatedAncestor(commits: Commits, a: string, b: string)
    requires b in commits && commits[b] == [] && a != b
    ensures !Ancestor(commits, a, b)
  {
    ClosedContainsReachable(ParentGraph(commits), {b}, {b});
  }

  lemma MergedTip(start: Repository, unused: string)
    requires Bootstrapped(start)
    ensures RELEASE in Merged(start, unused).history
    ensures |Merged(start, unused).history[RELEASE]| == 2 && Merged(start, unused).history[RELEASE][1] == unused
  {
    assert RELEASE in start.history;
  }

  lemma OneBadPromotion(r: Repository, i: nat)
    requires RELEASE in r.history && 1 <= i < |r.history[RELEASE]| && !FromNightly(r, r.history[RELEASE][i])
    ensures !PromotionsFromNightly(r)
  {
  }

  /** The ancestors of the merge, apart from itself, are those of its parents. */
  lemma MergeAncestors(start: Repository, unused: string, n: string)
    requires Bootstrapped(start) && unused !in start.commits && n in start.commits
    requires var s, r := start.history[STABLE][0], start.history[RELEASE][0];
             Ancestor(start.commits[unused := [r, s]], n, unused)
    ensures Ancestor(start.commits, n, start.history[RELEASE][0]) ||
      Ancestor(start.commits, n, start.history[STABLE][0])
  {
    var s, r := start.history[STABLE][0], start.history[RELEASE][0];
    var g, h := ParentGraph(start.commits), ParentGraph(start.commits[unused := [r, s]]);
    assert s in start.history[STABLE] && r in start.history[RELEASE];
    var w :| WalkTo(h, {unused}, w, n);
    assert |w| > 1;
    var v := w[1..];
    assert v[0] in Next(h, w[0]) && v[0] in {r, s};
    WalkStaysOld(start, unused, [r, s], v);
    assert WalkTo(g, {v[0]}, v, n);
  }

  lemma {:induction false} WalkStaysOld(start: Repository, unused: string, parents: seq<string>, w: seq<string>)
    requires ValidRepository(start) && unused !in start.commits && w != [] && w[0] in start.commits
    requires forall i | 0 <= i < |w| - 1 :: w[i + 1] in Next(ParentGraph(start.commits[unused := parents]), w[i])
    ensures Walk(ParentGraph(start.commits), w)
  {
    if |w| > 1 {
      assert w[1] in Next(ParentGraph(start.commits[unused := parents]), w[0]);
      assert w[1] in start.commits[w[0]];
      forall i | 0 <= i < |w[1..]| - 1
        ensures w[1..][i + 1] in Next(ParentGraph(start.commits[unused := parents]), w[1..][i])
      {
        assert w[i + 2] in Next(ParentGraph(start.commits[unused := parents]), w[i + 1]);
      }
      WalkStaysOld(start, unused, parents, w[1..]);
      forall i | 0 <= i < |w| - 1 ensures w[i + 1] in Next(ParentGraph(start.commits), w[i]) {
        if i > 0 { assert w[1..][i] in Next(ParentGraph(start.commits), w[1..][i - 1]); }
      }
    }
  }

  /** A nightly tip that went into a release is still an ancestor of nightly today. */
  lemma ReleaseSharesNightlyAncestor(start: Repository, events: seq<Event>, end: Repository)
    requires Bootstrapped(start) && Anchored(start) && Runs(start, events, end)
    requires RELEASE in end.history && |end.history[RELEASE]| > 1
    ensures ValidRepository(end) &&
            exists n | n in end.history[NIGHTLY] ::
              Ancestor(end.commits, n, Tip(end, RELEASE)) && Ancestor(end.commits, n, Tip(end, NIGHTLY))
  {
    RunKeepsAnchor(start, events, end);
    AnchoredPromotions(end, |end.history[RELEASE]| - 1);
    var n :| n in end.history[NIGHTLY] && Ancestor(end.commits, n, Tip(end, RELEASE));
    var i :| 0 <= i < |end.history[NIGHTLY]| && end.history[NIGHTLY][i] == n;
    NoTipIsLost(start, events, end, NIGHTLY, i);
  }
}
