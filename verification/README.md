# Verified models of the Meshrix control-plane algorithms

This project models ten components of the repository whose correctness depends on a graph algorithm, an
interleaving of events, or a loop with a stack or a parser, and proves what each of them promises. The files
that the repository changes step by step are modelled by classes and by methods with loops; each such method
is proved equal to a specification function or against a declarative condition, and the theorems are lemmas
about that specification.

| component | repository file | modules |
|---|---|---|
| capability checkpoint reducer | `tools/server-scripts/capability-acceptance-checkpoint-reducer.ts` | `Json`, `CheckpointRules`, `CheckpointCycles`, `CheckpointTheory`, `PlacedLists`, `CheckpointOutputs`, `CheckpointReports`, `CheckpointReducer` |
| package lock to SBOM | `tools/generators/generate-supply-chain-artifacts.ts` | `LockPaths`, `SupplyChain`, `DependencyClosure`, `Sbom`, `EmittedPaths` |
| plugin console host bridge | `apps/console/plugin-console-isolation.ts` | `ConsoleBridge` |
| exact tree copy | `tools/server-scripts/offline-delivery-disconnected-verifier.ts` | `TreeCopy` |
| engineering outcome evaluator | `tools/scripts/local-ci.ts` | `EngineeringOutcomes` |
| batched Git object reader | `tools/scripts/verify-git-publication.ts` | `BlobReader` |
| background supervisor | `tools/server-scripts/background-supervisor.ts` | `BackgroundSupervisor` |
| protected branch promotion | `tools/scripts/verify-branch-flow.ts` | `BranchFlow` |
| resumable offline deployment | `tools/server-scripts/offline-delivery-local-up.ts` | `LocalDeployment`, `DeploymentOutcomes`, `DeploymentRuns` |
| test profile reachability | `tools/registry/test-suite-reachability.ts` | `SuiteReachability` |

`Sequences`, `Text` and `Graphs` hold what several of them share: loops that collect and filter, trimming,
code-unit order, sorting, joining and splitting, and walks, cycles, reachability and topological orders.

Everything outside a component is a parameter: JSON values arrive parsed, Git and other programs answer
through functions or records of answers, message ports and processes act through events, and a crash is a
bound on how many state files a run still writes. To check the project, use
`dafny verify --resource-limit 2000000 --verification-time-limit 0 dfyconfig.toml` in this directory.

## Where the code does not do what its names suggest

The code is modelled as it is; each case below has a lemma with the exact condition and one with an input on
which it shows.

- A cycle is reported once per key, and the key joins the sorted ids with bars. Two cycles share it exactly when
  these ids fall into the same pieces at the bars (`SameKeyExactly`): without bars in the ids when they run through
  the same checkpoints (`PlainKeyIsSet`), with bars also for the ids `a|b` and for `a` and `b`
  (`BarredKeysCollide`).
- A resolved lock path gives back the dependency name for every well-formed name except a scoped one whose
  scope ends in `node_modules` (`NameReadBackExact`, `WellFormedNameMentionsMarker`,
  `ScopeEndingInModulesIsMisread`).
- Two lanes share the joined key when a phase id contains the head of the other's lane id
  (`LaneKeysCollideExactly`). Over a set of phase ids the joined keys give every run the verdict and the counts
  that pairs of phase and lane would give exactly when no phase id is another one with a slash and more behind
  it (`VerdictsAgreeExactly`). With the phases `a` and `a/b`, a lane `c` that passed in `a/b` excuses a result of
  `a` that waits for a lane `b/c` nobody ran, and a failed verdict becomes a passed one
  (`CollisionChangesVerdict`).
- A release promotion is only known to contain a past nightly tip when the first stable or the first release
  tip did; otherwise merging these two tips is accepted (`ReleasesComeFromNightlyExactly`, `UnrelatedTips`).
- A run that finds the bundle, its copy on the target or the imported image gone shortens its list in memory
  only, and the file follows when the stage made anew is recorded. Until then the old claims stand. The file
  afterwards claims exactly what the run recorded when nothing was saved, when the run records as many stages as
  were saved, or when it records a stage behind one of its cuts; otherwise it claims more (`StaleClaimsExact`).
  What a run records is decided by its world alone (`RecordedExact`). A complete list survives a run without
  materials, without a transfer or without an import (`StaleClaimsSurvive`, `StaleTransferSurvives`,
  `StaleImportSurvives`).
- A state file edited by hand can keep a list that is no prefix of the stages. Which lists a run turns into
  prefixes, and at which stage, is exact (`RepairExact`, `EditedListSurvives`).
- Emission follows package URLs, not lock paths: lock paths that share a URL are merged, so a component can be
  listed that only an unreached path brings in (`SharedUrlListsUnreached`). The listed URLs are those of the
  reached lock paths exactly when every unreached entry that shares its URL with a reached one resolves only to
  URLs of reached entries (`ListedByPathExactly`).
- A role in demand does not always get a live child when it is reconciled: a spawn that fails reports no exit and
  stays mapped (`FailedSpawnIsFinal`). At every moment a role is mapped to a dead child exactly when some spawn of
  it has failed (`DeadExactly`), and a role in demand has a live child after a reconciliation before closing
  exactly when no spawn of it ever failed (`ServedExactly`).

## Model

| member | source | states |
|---|---|---|
| Text.TrimExact | tools/server-scripts/capability-acceptance-checkpoint-reducer.ts:20-22 | trimming takes white space off both ends and nothing else |
| Json.RenderItemsExact | tools/server-scripts/capability-acceptance-checkpoint-reducer.ts:20-22 | a list becomes text as the texts of its elements joined by commas, undefined and null having none |
| Text.LeqExact | tools/generators/generate-supply-chain-artifacts.ts:25-27 | the order of texts goes by the first character in which they differ, a beginning before the whole |
| CheckpointRules.EvidenceFindingsExact | tools/server-scripts/capability-acceptance-checkpoint-reducer.ts:62-133 | evidence draws no finding exactly when it is a non-empty list whose every entry names a known command, carries no free-form command and cites at most a report that the command owns |
| CheckpointRules.ValidateExternalBlocker | tools/server-scripts/capability-acceptance-checkpoint-reducer.ts:135-174 | a blocker is recorded exactly when its kind, slug, description, command and evidence are acceptable and the command is not the verifier itself |
| CheckpointRules.SlugExact | tools/server-scripts/capability-acceptance-checkpoint-reducer.ts:146 | a code is a slug exactly when it has lower-case letters and digits with single hyphens between them |
| CheckpointRules.SelfReferentialExact | tools/server-scripts/capability-acceptance-checkpoint-reducer.ts:49-53 | a command is refused as self-referential exactly when it runs one of the two acceptance scripts, whatever the spacing and the arguments, or has the verifier's path as a word |
| CheckpointRules.ReportPathExact | tools/server-scripts/capability-acceptance-checkpoint-reducer.ts:105-111 | a report is acceptable exactly when it is a non-empty name of letters, digits, dots, underscores, slashes and hyphens between `build/reports/` and `.json` |
| CheckpointRules.CriterionFindingsExact | tools/server-scripts/capability-acceptance-checkpoint-reducer.ts:335-408 | a criterion draws no finding exactly when it is proven, or blocked by a valid blocker on a checkpoint that is not completed; it contributes a blocker exactly when it is validly blocked |
| CheckpointRules.NormalizeKeepsPrerequisites | tools/server-scripts/capability-acceptance-checkpoint-reducer.ts:259-264 | removing duplicate prerequisites loses none |
| CheckpointRules.CheckpointFindingsExact | tools/server-scripts/capability-acceptance-checkpoint-reducer.ts:252-439 | one checkpoint draws no finding of its own exactly when its header, prerequisites, criteria and status are sound |
| CheckpointRules.RegisterFacts | tools/server-scripts/capability-acceptance-checkpoint-reducer.ts:456-461 | the register holds exactly the declared ids, each with a checkpoint of that id, and its key list lists them all |
| CheckpointRules.SameCheckpointsSameKey | tools/server-scripts/capability-acceptance-checkpoint-reducer.ts:187 | cycles through the same checkpoints get the same key whatever their order |
| CheckpointRules.SameKeyExactly | tools/server-scripts/capability-acceptance-checkpoint-reducer.ts:187 | two cycles share a key exactly when their sorted distinct ids fall into the same pieces at the bars |
| CheckpointRules.PlainKeyIsSet | tools/server-scripts/capability-acceptance-checkpoint-reducer.ts:187 | with ids without bars, exactly when they run through the same checkpoints |
| CheckpointRules.BarredKeysCollide | tools/server-scripts/capability-acceptance-checkpoint-reducer.ts:187 | with bars a cycle of one checkpoint can have the key of a cycle of two others |
| CheckpointCycles.CycleSearch.ReportCycle | tools/server-scripts/capability-acceptance-checkpoint-reducer.ts:184-197 | the path from the first visit of the checkpoint is a real closed walk, so the fallback to index 0 never acts; every reported cycle is closed and no key is reported twice |
| CheckpointCycles.CycleSearch.Visit | tools/server-scripts/capability-acceptance-checkpoint-reducer.ts:182-209 | the three-colour visit terminates on every graph, with the ancestry listing exactly the checkpoints being visited; while nothing is found, finished checkpoints stand after their prerequisites |
| CheckpointCycles.CycleSearch.VisitAll | tools/server-scripts/capability-acceptance-checkpoint-reducer.ts:202-206 | the prerequisites of a checkpoint are visited below it; while nothing is found, all declared ones are done afterwards |
| CheckpointCycles.CycleSearch.Run | tools/server-scripts/capability-acceptance-checkpoint-reducer.ts:211-214 | no finding exactly when the graph is acyclic (self-loops included), every finding a genuine cycle; without findings the completion order is topological |
| CheckpointTheory.FindingsExact | tools/server-scripts/capability-acceptance-checkpoint-reducer.ts:240-558 | there is no finding at all exactly when the plan is well formed: sound checkpoints, distinct ids, declared and acyclic prerequisites, one checkpoint per required role, final validation reaching implementation |
| CheckpointTheory.VerdictExact | tools/server-scripts/capability-acceptance-checkpoint-reducer.ts:560-593 | failed exactly with findings, verified exactly when well formed and all completed, blocked exactly when well formed and something is open |
| CheckpointTheory.OpenHaveExternalBlockers | tools/server-scripts/capability-acceptance-checkpoint-reducer.ts:410-429 | in a well-formed plan every open checkpoint is blocked and has an unchecked criterion with a valid external blocker |
| CheckpointTheory.CompletedIsClosed | tools/server-scripts/capability-acceptance-checkpoint-reducer.ts:463-504 | whatever a completed checkpoint depends on, directly or not, is declared and completed |
| CheckpointTheory.DefaultRolesRequireBoth | tools/server-scripts/capability-acceptance-checkpoint-reducer.ts:1-4 | the default roles require both implementation and final validation |
| CheckpointTheory.IncompleteImplementationBlocksFinal | tools/server-scripts/capability-acceptance-checkpoint-reducer.ts:528-558 | both roles occur once, and an incomplete implementation keeps final validation incomplete |
| CheckpointTheory.ImplementationPrecedesFinal | tools/server-scripts/capability-acceptance-checkpoint-reducer.ts:528-558 | every topological order of a well-formed plan has implementation before final validation |
| CheckpointOutputs.BindingsListed | tools/server-scripts/capability-acceptance-checkpoint-reducer.ts:61-133 | the evidence bindings stand for exactly the evidence entries that name a command, of readable checked criteria of checkpoints with a required role, in the order of checkpoint, criterion and entry; each gives the command id, the report and the place as the input has them |
| CheckpointOutputs.BindingsExact | tools/server-scripts/capability-acceptance-checkpoint-reducer.ts:123-130 | a binding is listed exactly when some entry at some place earns it |
| CheckpointOutputs.OpenListed | tools/server-scripts/capability-acceptance-checkpoint-reducer.ts:410-415 | the open checkpoints are exactly those without the completed status, in order, with id, role and status |
| CheckpointOutputs.BlockersListed | tools/server-scripts/capability-acceptance-checkpoint-reducer.ts:135-174 | the blockers stand for exactly the unchecked criteria with an acceptable blocker, in order, and repeat what it gives, with each piece of required evidence once |
| CheckpointOutputs.UncheckedListed | tools/server-scripts/capability-acceptance-checkpoint-reducer.ts:321-409 | every criterion that is not checked and every checkpoint without criteria is listed, in order and with the reason |
| CheckpointOutputs.DigitsExact | tools/server-scripts/capability-acceptance-checkpoint-reducer.ts:255 | the index in the name of a nameless checkpoint is its decimal form |
| CheckpointReports.CheckpointMember | tools/server-scripts/capability-acceptance-checkpoint-reducer.ts:266-429 | which findings one checkpoint draws, code by code, in which category, with which role and criterion |
| CheckpointReports.RegisterFirst | tools/server-scripts/capability-acceptance-checkpoint-reducer.ts:456-461 | the registered checkpoint of an id is the first that declares it, and every declared id has one |
| CheckpointReports.LinksMember | tools/server-scripts/capability-acceptance-checkpoint-reducer.ts:463-504 | a missing, self-referring or premature prerequisite is reported exactly where the input has one |
| CheckpointReports.RoleMember | tools/server-scripts/capability-acceptance-checkpoint-reducer.ts:507-526 | a required role is reported as missing exactly when no checkpoint plays it, and as duplicate exactly when two do |
| CheckpointReports.FindingsWarranted | tools/server-scripts/capability-acceptance-checkpoint-reducer.ts:240-558 | apart from cycles a finding is recorded exactly when the input warrants it, under its own code and category and against what is at fault |
| CheckpointReports.AssembledReports | tools/server-scripts/capability-acceptance-checkpoint-reducer.ts:560-593 | all lists, the counts, the required roles and the kind of failure are those that the input warrants |
| CheckpointReducer.ValidateEvidenceEntries | tools/server-scripts/capability-acceptance-checkpoint-reducer.ts:62-133 | the loop yields the findings and bindings that the exactness lemmas speak about |
| CheckpointReducer.ReduceCriteria | tools/server-scripts/capability-acceptance-checkpoint-reducer.ts:335-408 | the loop over the criteria yields the findings, unchecked criteria, blockers and bindings of each, in order |
| CheckpointReducer.ReduceCheckpoints | tools/server-scripts/capability-acceptance-checkpoint-reducer.ts:252-439 | the loop over the checkpoints yields the six lists of the specification |
| CheckpointReducer.ReportDuplicateIds | tools/server-scripts/capability-acceptance-checkpoint-reducer.ts:441-454 | one finding per declared id that occurs more than once, in order of first declaration |
| CheckpointReducer.ReportLinks | tools/server-scripts/capability-acceptance-checkpoint-reducer.ts:463-504 | exactly the missing, self-referring and premature prerequisites of each checkpoint |
| CheckpointReducer.ReportRoles | tools/server-scripts/capability-acceptance-checkpoint-reducer.ts:507-526 | the counting map yields a finding for each required role that does not occur exactly once |
| CheckpointReducer.DependsOn | tools/server-scripts/capability-acceptance-checkpoint-reducer.ts:531-545 | the worklist terminates on every graph and answers true exactly when a prerequisite path leads to the target |
| CheckpointReducer.ReportGraph | tools/server-scripts/capability-acceptance-checkpoint-reducer.ts:441-558 | the findings about duplicate ids, links, cycles, roles and the required dependency, in this order |
| CheckpointReducer.ReduceCapabilityCheckpoints | tools/server-scripts/capability-acceptance-checkpoint-reducer.ts:225-594 | ready exactly when the plan is well formed and completed, blocked exactly when well formed and not completed, failed exactly with findings; every list, count and finding is the one that the input warrants, place by place; without findings a topological order of all checkpoints exists |
| LockPaths.ResolveIsNearest | tools/generators/generate-supply-chain-artifacts.ts:99-122 | a resolution is the first installed candidate along the cursors, and none only when no cursor has one |
| LockPaths.ParentCursorBySegments | tools/generators/generate-supply-chain-artifacts.ts:110-120 | one step up the string is one step up the path segments |
| LockPaths.CursorsBySegments | tools/generators/generate-supply-chain-artifacts.ts:99-122 | the whole lookup by string visits the same places, in the same order, as a walk over the path segments |
| LockPaths.ParsedNameIsSuffix | tools/generators/generate-supply-chain-artifacts.ts:37-54 | a name is parsed exactly when the text after the last marker is a well-formed name, and then it is that text |
| LockPaths.NameReadBackExact | tools/generators/generate-supply-chain-artifacts.ts:37-54 | the name read back from a candidate path is the dependency name exactly for well-formed names that do not contain the marker |
| LockPaths.WellFormedNameMentionsMarker | tools/generators/generate-supply-chain-artifacts.ts:37-54 | among well-formed names these are exactly the ones whose scope does not end in `node_modules` |
| LockPaths.ScopeEndingInModulesIsMisread | tools/generators/generate-supply-chain-artifacts.ts:37-54 | a concrete well-formed name that is not read back |
| SupplyChain.MetaExact | tools/generators/generate-supply-chain-artifacts.ts:37-54 | an entry has metadata exactly when its path ends in a well-formed name, its version and license are usable texts and it has a digest |
| SupplyChain.UrlExact | tools/generators/generate-supply-chain-artifacts.ts:56-70 | the package URL is made of the encoded name and version, a scope encoded apart from the rest |
| SupplyChain.AddEntry | tools/generators/generate-supply-chain-artifacts.ts:160-194 | one more entry is accepted exactly when its metadata is usable and agrees with its URL; the table then stands for all entries so far |
| SupplyChain.CollectComponents | tools/generators/generate-supply-chain-artifacts.ts:158-194 | the merge succeeds exactly on consistent metadata, and else reports what is wrong with the first entry that breaks it; each component then has exactly the lock paths of its URL and is optional exactly when all of them are |
| DependencyClosure.ResolveDependencyPath | tools/generators/generate-supply-chain-artifacts.ts:99-122 | the cursor loop terminates and returns the nearest entry that is neither `dev` nor `link` |
| DependencyClosure.TargetsOfExact | tools/generators/generate-supply-chain-artifacts.ts:198-200 | the targets of an entry are exactly the external entries that one of its dependencies resolves to |
| DependencyClosure.DependencyNamesExact | tools/generators/generate-supply-chain-artifacts.ts:92-97 | the dependency names are exactly those in `dependencies` or `optionalDependencies`, sorted and once each |
| DependencyClosure.ResolveFinds | tools/generators/generate-supply-chain-artifacts.ts:99-122 | a lookup finds an entry exactly when it is the first at its places that is neither `dev` nor `link` |
| DependencyClosure.DependencyRefsExact | tools/generators/generate-supply-chain-artifacts.ts:196-205 | a URL depends on exactly the other URLs that some lock path of it resolves a dependency to |
| DependencyClosure.UrlDependsExactly | tools/generators/generate-supply-chain-artifacts.ts:196-205 | in terms of the file: a URL depends on another exactly when an external entry of it names, in either field, a dependency that is found in an external entry of the other |
| DependencyClosure.RootDependsExactly | tools/generators/generate-supply-chain-artifacts.ts:207-217 | and the root on a URL exactly when the root package or a workspace names one that is found in an external entry of it |
| DependencyClosure.LinkComponents | tools/generators/generate-supply-chain-artifacts.ts:196-205 | every component gets exactly these dependencies, from both fields of every external entry of its URL, and keeps everything else |
| DependencyClosure.RootRefsExact | tools/generators/generate-supply-chain-artifacts.ts:207-217 | the root dependencies are exactly what some internal package resolves to |
| DependencyClosure.RootDependencies | tools/generators/generate-supply-chain-artifacts.ts:207-217 | the loop over all packages collects exactly the URLs that the root depends on, from both fields of every internal package, without duplicates |
| DependencyClosure.InventoryRootRefs | tools/generators/generate-supply-chain-artifacts.ts:226-239 | the breadth-first search terminates with exactly what the roots reach |
| Sbom.SelectReachable | tools/generators/generate-supply-chain-artifacts.ts:219-223 | the selected components are those of the reachable URLs, once each and in order |
| Sbom.InventoryOf | tools/generators/generate-supply-chain-artifacts.ts:196-224 | from the merged components: root dependencies, their closure over URLs, and one component per URL reached, in order |
| Sbom.DescribedFollowsLockfile | tools/generators/generate-supply-chain-artifacts.ts:196-239 | in terms of the file: root dependencies and the dependencies of each component are those that entries name and the lookup finds, and the listed URLs are the least set that holds them |
| Sbom.NormalizeLockfile | tools/generators/generate-supply-chain-artifacts.ts:124-224 | an inventory is produced exactly for consistent v3 lockfiles from the official registry, with every error in exactly its cases; its URLs are exactly those reachable from the root dependencies |
| Sbom.RefGraphIsClosed | tools/generators/generate-supply-chain-artifacts.ts:196-217 | root dependencies and dependencies never leave the URLs of external entries |
| Sbom.DependenciesAreListed | tools/generators/generate-supply-chain-artifacts.ts:219-223 | every dependency of the root or of a listed component is listed |
| Sbom.ListedIsLeastClosedSet | tools/generators/generate-supply-chain-artifacts.ts:226-239 | the listed URLs are contained in every set that holds the roots and is closed under dependencies |
| Sbom.ReachablePathsAreListed | tools/generators/generate-supply-chain-artifacts.ts:158-224 | every external lock path that resolution reaches from an internal package has its URL listed |
| Sbom.OptionalExact | tools/generators/generate-supply-chain-artifacts.ts:179-193 | a listed component has exactly the external lock paths of its URL and is optional exactly when all of them are |
| Sbom.DocumentIsClosed | tools/generators/generate-supply-chain-artifacts.ts:256-290 | every `dependsOn` names a listed component, the entries are those of the root and the components, sorted by ref |
| Sbom.DocumentEdgesExact | tools/generators/generate-supply-chain-artifacts.ts:262-271 | each `dependsOn` is the sorted list of exactly what internal packages, or the external entries of that URL, name and the lookup finds |
| Sbom.DocumentScopeExact | tools/generators/generate-supply-chain-artifacts.ts:241-254 | a component is scoped optional exactly when every external entry of its URL is, and shows the metadata that all of them share |
| EmittedPaths.ListedByPathExactly | tools/generators/generate-supply-chain-artifacts.ts:158-239 | the listed URLs are those of the reached lock paths exactly when unreached entries that share a URL with reached ones resolve only to URLs of reached entries |
| EmittedPaths.SharedUrlListsUnreached | tools/generators/generate-supply-chain-artifacts.ts:158-239 | an accepted lockfile, two copies of a package of which only the unreached one finds its dependency, whose inventory lists a URL that no reached path stands for |
| ConsoleBridge.StepKeepsInv | apps/console/plugin-console-isolation.ts:187-286 | every event keeps the accounting of calls, controllers, replies and fates |
| ConsoleBridge.RunKeepsInv | apps/console/plugin-console-isolation.ts:174-292 | so does every interleaving of messages, settlements and revocations |
| ConsoleBridge.RepliesExact | apps/console/plugin-console-isolation.ts:233-236 | after any run a call has one reply if it was answered through an accepting port, otherwise none |
| ConsoleBridge.FatesExact | apps/console/plugin-console-isolation.ts:222-286 | before revocation every well-formed invocation is in flight or answered; ignored are exactly those that arrive after the revocation |
| ConsoleBridge.SuccessIsEarned | apps/console/plugin-console-isolation.ts:237-274 | every successful reply belongs to a listed tool, a passed revalidation and sizes within both limits |
| ConsoleBridge.LoadIsBounded | apps/console/plugin-console-isolation.ts:251-261 | the calls in flight are exactly the suspended ones, at most four; before revocation the controllers are exactly theirs, afterwards none is held and all of them are aborted |
| ConsoleBridge.RevocationAbortsExactly | apps/console/plugin-console-isolation.ts:192-205 | whatever revokes the bridge aborts exactly the calls in flight at that moment |
| ConsoleBridge.NothingAfterRevocation | apps/console/plugin-console-isolation.ts:192-205 | after the revocation nothing is posted, no call is accepted and no controller is held |
| ConsoleBridge.SettledOnce | apps/console/plugin-console-isolation.ts:262-285 | over every interleaving a call that settles before revocation has exactly one reply, or none if the port refused it: a success with the result exactly up to 8 MiB, too large exactly beyond that or without a length, denied exactly on a rejection |
| ConsoleBridge.AnsweredOnce | apps/console/plugin-console-isolation.ts:233-236 | once a call is answered, whatever follows, its answer stays and it has one reply or, refused, none |
| ConsoleBridge.DroppedExact | apps/console/plugin-console-isolation.ts:233-235 | after a revocation the unanswered calls are exactly those that were in flight at that moment and settled afterwards |
| ConsoleBridge.SettlingAnswers | apps/console/plugin-console-isolation.ts:262-285 | a call that settles before revocation gets that answer, posted under its id, and leaves the load by one |
| ConsoleBridge.ArrivalExact | apps/console/plugin-console-isolation.ts:222-261 | a well-formed invocation goes in flight exactly when it is admissible, there is room and the tool starts; otherwise it is answered with the error of the first check that failed, and only a failed revalidation revokes |
| ConsoleBridge.IgnoredExact | apps/console/plugin-console-isolation.ts:222-232 | a message is counted and otherwise ignored exactly after a revocation, or when it neither reports a failure nor is an invocation with a usable id whose revalidation returns |
| ConsoleBridge.RevocationExact | apps/console/plugin-console-isolation.ts:192-241 | a bridge is revoked exactly by the host, a reported failure or a failed revalidation, and the notice with the reason is the last post |
| ConsoleBridge.NextCallIsFresh | apps/console/plugin-console-isolation.ts:259-261 | in every reachable state a new call's controller is new, so the handlers may always run |
| ConsoleBridge.PluginConsoleHostBridge.Revoke | apps/console/plugin-console-isolation.ts:192-205 | the method is the revocation step: abort all, forget all, one last notice, port closed; nothing the second time |
| ConsoleBridge.PluginConsoleHostBridge.SendReply | apps/console/plugin-console-isolation.ts:233-236 | a reply is posted unless revoked; a refusal of the port is swallowed |
| ConsoleBridge.PluginConsoleHostBridge.OnMessage | apps/console/plugin-console-isolation.ts:222-261 | the handler up to its wait is the arrival step of the specification |
| ConsoleBridge.PluginConsoleHostBridge.OnSettled | apps/console/plugin-console-isolation.ts:262-285 | the resumed handler is the settling step of the specification |
| TreeCopy.RowsUnique | tools/server-scripts/offline-delivery-disconnected-verifier.ts:76-95 | in a tree with distinct slash-free names no path occurs twice |
| TreeCopy.FoundIsListed | tools/server-scripts/offline-delivery-disconnected-verifier.ts:66-120 | whatever following names finds in a tree is one of its flattened rows |
| TreeCopy.ListedIsFound | tools/server-scripts/offline-delivery-disconnected-verifier.ts:66-120 | every flattened row is found by following the names of its path |
| TreeCopy.RowsSorted | tools/server-scripts/offline-delivery-disconnected-verifier.ts:75 | sorting a directory changes the order of its rows only |
| TreeCopy.MakeChild | tools/server-scripts/offline-delivery-disconnected-verifier.ts:89-92 | the recursive `mkdir` below an existing directory creates that one directory only |
| TreeCopy.MakeDirectoriesExact | tools/server-scripts/offline-delivery-disconnected-verifier.ts:89-92 | the recursive `mkdir` fails exactly when the nearest existing path at or above the target is no directory, and otherwise adds directories only, each inside a directory |
| TreeCopy.CopyEntry | tools/server-scripts/offline-delivery-disconnected-verifier.ts:76-119 | one entry fails exactly when it is a link, special or executable, with the fault of its kind, and then the target holds rows of the source only; otherwise written and pending rows still make up the whole tree |
| TreeCopy.CopyDirectory | tools/server-scripts/offline-delivery-disconnected-verifier.ts:69-119 | one directory in name order, with the same balance of written and pending rows; it fails for the first fault that the visit meets, or the first fault still to come is the same as before |
| TreeCopy.CopyEntries | tools/server-scripts/offline-delivery-disconnected-verifier.ts:66-120 | the explicit-stack traversal terminates, succeeds exactly on plain trees, and then has written exactly the recursive flattening; it fails for the first fault in visiting order |
| TreeCopy.RecordsList | tools/server-scripts/offline-delivery-disconnected-verifier.ts:111-115 | the records are one per file and no other, no path twice |
| TreeCopy.SortedList | tools/server-scripts/offline-delivery-disconnected-verifier.ts:121-122 | sorting yields the sorted list, without a path twice, of exactly the files, each with its path, the digest of its bytes and their number |
| TreeCopy.CopyExactTree | tools/server-scripts/offline-delivery-disconnected-verifier.ts:33-123 | succeeds exactly for a plain source directory and an absent or empty target; the target then equals the source and the list has, sorted, path, digest and size of exactly its files; every failure has the one cause that applies first, and after it every node of a changed target is one of the source |
| TreeCopy.SourceIsInTarget | tools/server-scripts/offline-delivery-disconnected-verifier.ts:66-120 | after success every path found in the source is in the target with the same contents |
| TreeCopy.TargetIsInSource | tools/server-scripts/offline-delivery-disconnected-verifier.ts:66-120 | and every path of the target is found in the source |
| EngineeringOutcomes.GroupByLane | tools/scripts/local-ci.ts:164-170 | the groups partition the results by lane, in order |
| EngineeringOutcomes.Pass | tools/scripts/local-ci.ts:173-191 | one in-place pass keeps the set grounded, grows it when it changes it and is closed when it does not |
| EngineeringOutcomes.OptionalLanes | tools/scripts/local-ci.ts:172-191 | as many passes as there are lanes always reach the least set that contains every lane harmless relative to it |
| EngineeringOutcomes.GroundedIsInClosed | tools/scripts/local-ci.ts:172-191 | a grounded sequence of lanes lies in every closed set |
| EngineeringOutcomes.LeastClosedUnique | tools/scripts/local-ci.ts:172-191 | the least set is unique, so neither the iteration order nor in-pass updates can change it |
| EngineeringOutcomes.VerdictExact | tools/scripts/local-ci.ts:193-208 | cancelled exactly on a cancellation; passed exactly when everything passed or was skipped for an optional reason, something passed and the exit code fits |
| EngineeringOutcomes.OutcomeCounts | tools/scripts/local-ci.ts:193-208 | the counts are the numbers of results with each status and of those excused, at least one cancellation in a cancelled run, and the reason names the runner, a failure or an incomplete flow |
| EngineeringOutcomes.EvaluateEngineeringOutcomes | tools/scripts/local-ci.ts:151-208 | cancelled and passed in exactly their cases, with the right counts and reason over the one least set of optional lanes; in a passed run the order in which lanes became optional is topological for the excuses, which are acyclic |
| EngineeringOutcomes.PassedMakesAllLanesOptional | tools/scripts/local-ci.ts:172-208 | in a passed run every lane is optional |
| EngineeringOutcomes.PassedRunIsGrounded | tools/scripts/local-ci.ts:172-208 | in a passed run the excuses form an acyclic graph in which every lane stands after the lanes that excuse it |
| EngineeringOutcomes.LaneKeysCollideExactly | tools/scripts/local-ci.ts:147-149 | two lanes share a key exactly when they are equal or one phase swallows the head of the other's lane |
| EngineeringOutcomes.KeysDifferExactly | tools/scripts/local-ci.ts:147-149 | over a set of phase ids no two lanes share a key exactly when no phase id continues another one behind a slash |
| EngineeringOutcomes.LeastClosedExists | tools/scripts/local-ci.ts:172-191 | every list of results has a least set of optional lanes |
| EngineeringOutcomes.LeastClosedPairsExists | tools/scripts/local-ci.ts:172-191 | and one over pairs of phase and lane |
| EngineeringOutcomes.CollisionChangesVerdict | tools/scripts/local-ci.ts:147-208 | for every phase and every continuation of it behind a slash, two results pass although over pairs they fail; both least sets are given |
| EngineeringOutcomes.VerdictsAgreeExactly | tools/scripts/local-ci.ts:147-208 | over a set of phase ids the verdict and counts of every run, exit code and cancellation are those over pairs exactly when no phase id continues another one behind a slash |
| EngineeringOutcomes.SlashFreeVerdictsAgree | tools/scripts/local-ci.ts:147-208 | in particular when no phase id contains a slash |
| BlobReader.DecimalExact | tools/scripts/verify-git-publication.ts:255 | a size is written in decimal digits, without a leading zero, and reads back as the size |
| BlobReader.HeaderShape | tools/scripts/verify-git-publication.ts:255 | a header is the object, the word `blob` and the size, and ends its line |
| BlobReader.HeaderDetermines | tools/scripts/verify-git-publication.ts:255 | a header gives away its object and size, among object names of one length |
| BlobReader.ParseIsSound | tools/scripts/verify-git-publication.ts:252-262 | an accepted output is the concatenation of header, body and newline for the requested objects |
| BlobReader.ParseIsComplete | tools/scripts/verify-git-publication.ts:252-262 | every such concatenation is accepted and gives back its bodies |
| BlobReader.ParseExact | tools/scripts/verify-git-publication.ts:252-262 | so the parser yields these bodies exactly when the output is framed this way, which determines them |
| BlobReader.ReadFrame | tools/scripts/verify-git-publication.ts:254-260 | one frame is read exactly when its header, body and newline are there |
| BlobReader.ParseFrames | tools/scripts/verify-git-publication.ts:252-262 | the loop accepts exactly what the parser specification accepts and maps each object to its body |
| BlobReader.ReadMetadata | tools/scripts/verify-git-publication.ts:225-233 | accepted exactly when the lines answer for the objects in order with usable blob sizes |
| BlobReader.RequestedExact | tools/scripts/verify-git-publication.ts:237-248 | a batch requests each small enough object of its entries once and no other |
| BlobReader.TakeEntry | tools/scripts/verify-git-publication.ts:240-247 | an entry is taken unless the batch has one already and the object it adds would exceed 8 MiB |
| BlobReader.NextBatch | tools/scripts/verify-git-publication.ts:235-248 | a batch has 1 to 256 entries, requests at most 8 MiB and is as long as both limits allow |
| BlobReader.FetchBlobs | tools/scripts/verify-git-publication.ts:249-263 | accepted blobs have the announced sizes, and from an honest Git they are the stored objects |
| BlobReader.ReadBatch | tools/scripts/verify-git-publication.ts:249-264 | every entry of the batch is yielded, with bytes exactly when its object is small enough |
| BlobReader.ReadNext | tools/scripts/verify-git-publication.ts:235-264 | one round: the next batch, its bounded request if any, and its entries unless the answer is not framed |
| BlobReader.ReadBatches | tools/scripts/verify-git-publication.ts:234-265 | batches consume the entries in order, each exactly once; it fails exactly on an answer that is not framed, and all bytes are bodies of framed answers |
| BlobReader.ReadBlobs | tools/scripts/verify-git-publication.ts:220-266 | over the sizes that the metadata announces: every entry once and in order, bytes exactly up to 5 MiB and each the framed body of its object; it fails exactly on unfit metadata or an unframed answer, and from an honest Git yields the stored objects |
| BlobReader.MetadataIsTrue | tools/scripts/verify-git-publication.ts:225-233 | honest metadata gives the true size of every object |
| BackgroundSupervisor.StepKeepsInv | tools/server-scripts/background-supervisor.ts:240-483 | every event keeps the accounting of children, restart counts and the kill loop |
| BackgroundSupervisor.RunKeepsInv | tools/server-scripts/background-supervisor.ts:127-498 | so does every interleaving of events |
| BackgroundSupervisor.OneLiveChildPerRole | tools/server-scripts/background-supervisor.ts:271-313 | over every interleaving a role has at most one live child, and it is the mapped one |
| BackgroundSupervisor.RestartCountExact | tools/server-scripts/background-supervisor.ts:347-370 | a role's restart count is the number of its unsuppressed exits before closing, and suppressed roles are mapped |
| BackgroundSupervisor.NothingSpawnsAfterClosing | tools/server-scripts/background-supervisor.ts:271-278 | once closing no child is spawned and no exit counts; after the kill loop every child still live was sent SIGTERM |
| BackgroundSupervisor.KillLoopSignalsAll | tools/server-scripts/background-supervisor.ts:478-484 | the kill loop signals every child mapped when it runs |
| BackgroundSupervisor.SuppressedExit | tools/server-scripts/background-supervisor.ts:347-370 | a suppressed exit clears the suppression, frees the role, leaves it undesired and does not count |
| BackgroundSupervisor.DemandReconciled | tools/server-scripts/background-supervisor.ts:407-427 | a role in demand gets a child exactly when it has none before closing, with a fresh record; the import worker becomes desired in any case, and nothing else happens |
| BackgroundSupervisor.IdleRecorded | tools/server-scripts/background-supervisor.ts:428-432 | an idle import worker without a child is recorded as idle, and nothing else happens |
| BackgroundSupervisor.IdleStopped | tools/server-scripts/background-supervisor.ts:428-447 | an idle import worker with a child is recorded as stopping and its child sent SIGTERM with its exit suppressed, unless the signal cannot be sent |
| BackgroundSupervisor.ExitExact | tools/server-scripts/background-supervisor.ts:347-370 | an exit frees the role, ends its suppression, counts exactly when it was not suppressed and before closing, and leaves the record stopped, on standby or exited |
| BackgroundSupervisor.HeartbeatExact | tools/server-scripts/background-supervisor.ts:320-345 | a heartbeat sets what its payload names and the pid, and nothing else changes |
| BackgroundSupervisor.ErrorExact | tools/server-scripts/background-supervisor.ts:390-404 | an error is recorded as a failure with its message, and nothing else changes |
| BackgroundSupervisor.ShutdownExact | tools/server-scripts/background-supervisor.ts:472-484 | a shutdown only begins closing, and a kill loop only signals exactly the mapped children |
| BackgroundSupervisor.FailedSpawnIsFinal | tools/server-scripts/background-supervisor.ts:271-313 | a role whose spawn fails without an exit stays mapped to the dead child over every continuation and never gets a live child again |
| BackgroundSupervisor.DeadStep | tools/server-scripts/background-supervisor.ts:240-483 | one event leaves a role mapped to a dead child exactly when it was before or the event is a failed spawn of it |
| BackgroundSupervisor.DeadExactly | tools/server-scripts/background-supervisor.ts:271-447 | over every interleaving a role is mapped to a dead child exactly when some spawn of it has failed |
| BackgroundSupervisor.ServedExactly | tools/server-scripts/background-supervisor.ts:407-447 | a role in demand that is reconciled before closing has a live child afterwards exactly when no spawn of it, this one included, has failed |
| BackgroundSupervisor.Supervisor.SpawnRole | tools/server-scripts/background-supervisor.ts:271-313 | the method is the spawn step; nothing happens while closing |
| BackgroundSupervisor.Supervisor.UpdateRoleDemand | tools/server-scripts/background-supervisor.ts:259-269 | the role becomes desired and nothing else changes |
| BackgroundSupervisor.Supervisor.RecordIdleRole | tools/server-scripts/background-supervisor.ts:240-257 | the record shows the role stopping or idle, with the pid of its child if there is one |
| BackgroundSupervisor.Supervisor.ReconcileRole | tools/server-scripts/background-supervisor.ts:407-447 | the part after the wait is the reconcile step: spawn only an unmapped role, stop an idle child with its exit suppressed unless the signal fails |
| BackgroundSupervisor.Supervisor.OnExit | tools/server-scripts/background-supervisor.ts:347-370 | the exit handler is the exit step |
| BackgroundSupervisor.Supervisor.OnHeartbeat | tools/server-scripts/background-supervisor.ts:320-345 | a heartbeat may set everything but the restart count |
| BackgroundSupervisor.Supervisor.OnError | tools/server-scripts/background-supervisor.ts:390-404 | an error marks the record and leaves the child mapped |
| BackgroundSupervisor.Supervisor.KillChildren | tools/server-scripts/background-supervisor.ts:478-484 | every child mapped at that moment is sent SIGTERM |
| BranchFlow.VerdictExact | tools/scripts/verify-branch-flow.ts:89-123 | whatever Git answers, each refusal and each acceptance is given exactly when it is deserved, with the upstream and the branch in its code |
| BranchFlow.PushEnabledExactly | tools/scripts/verify-branch-flow.ts:97-122 | a push is accepted exactly when it moves a long-lived branch forward to a known commit that, unless the branch is nightly, is the current upstream tip or has it among its parents |
| BranchFlow.AcceptedComesFromUpstream | tools/scripts/verify-branch-flow.ts:97-122 | an accepted push keeps the old tip as an ancestor, and a promotion is the upstream tip or has it as a direct parent |
| BranchFlow.StepKeepsInv | tools/scripts/verify-branch-flow.ts:89-123 | new commits and accepted pushes keep every history moving forward through its upstream |
| BranchFlow.RunKeepsInv | tools/scripts/verify-branch-flow.ts:89-123 | so does every run from first tips |
| BranchFlow.NoTipIsLost | tools/scripts/verify-branch-flow.ts:101-103 | over every run each past tip of a protected branch is an ancestor of its current tip |
| BranchFlow.PromotedStableIsFromNightly | tools/scripts/verify-branch-flow.ts:107-121 | every promoted stable tip contains a past nightly tip |
| BranchFlow.AnchoredPromotions | tools/scripts/verify-branch-flow.ts:107-121 | so does every promoted release tip when the first stable or release tip did |
| BranchFlow.RunKeepsAnchor | tools/scripts/verify-branch-flow.ts:89-123 | that condition is kept over every run |
| BranchFlow.ReleasesComeFromNightlyExactly | tools/scripts/verify-branch-flow.ts:89-123 | release promotions contain a past nightly tip in every run exactly under that condition on the first tips |
| BranchFlow.UnanchoredMerge | tools/scripts/verify-branch-flow.ts:119-121 | otherwise merging the first stable tip into the first release tip is an accepted promotion without nightly content |
| BranchFlow.UnrelatedTips | tools/scripts/verify-branch-flow.ts:89-123 | three unrelated first tips are a bootstrapped repository in which that happens |
| BranchFlow.ReleaseSharesNightlyAncestor | tools/scripts/verify-branch-flow.ts:89-123 | under that condition some past nightly tip is an ancestor of both the release and the nightly tip |
| LocalDeployment.ReuseIsEarned | tools/server-scripts/offline-delivery-local-up.ts:163-232 | a run is skipped exactly when the own stack serves this revision on the port reported |
| LocalDeployment.Deployment.RecordDeploymentStage | tools/server-scripts/offline-delivery-local-up.ts:128-140 | the stage is added if absent and the whole list replaces the state file |
| LocalDeployment.Deployment.CompleteStage | tools/server-scripts/offline-delivery-local-up.ts:267-275 | the stage is written and reported, or the process is killed before the file changes |
| LocalDeployment.Deployment.PrepareSource | tools/server-scripts/offline-delivery-local-up.ts:278-321 | custody, then a valid source bundle is reused or made anew after the list is cut back to `candidate` |
| LocalDeployment.Deployment.TransferBundle | tools/server-scripts/offline-delivery-local-up.ts:323-346 | a valid target bundle is reused or transferred anew after the list is cut at `transfer` |
| LocalDeployment.Deployment.ImportImage | tools/server-scripts/offline-delivery-local-up.ts:348-362 | a ready image is reused or imported anew after the list is cut at `import` |
| LocalDeployment.Deployment.Activate | tools/server-scripts/offline-delivery-local-up.ts:363-381 | start, first governed call and verification are always done, in this order; a failed inspection counts as another revision |
| LocalDeployment.Deployment.RunLocalUp | tools/server-scripts/offline-delivery-local-up.ts:234-393 | the state file, the lists written and the outcome of a run are those of the specification, wherever it is killed |
| DeploymentOutcomes.SelectExact | tools/server-scripts/offline-delivery-local-up.ts:163-232 | reuse, replacement, installation and each refusal in exactly the cases that the probes and the container give |
| DeploymentOutcomes.ReadExact | tools/server-scripts/offline-delivery-local-up.ts:113-126 | a list is carried over exactly from a readable state file of the own revision and version |
| DeploymentOutcomes.RecordedExact | tools/server-scripts/offline-delivery-local-up.ts:234-381 | a run records at least `m` stages exactly when it may install, lives to write `m` files and each of its first `m` stages goes through, in terms of what the outside world answers |
| DeploymentOutcomes.DeployedExact | tools/server-scripts/offline-delivery-local-up.ts:234-393 | a run deploys exactly when it may install, is not killed, and custody, bundle, transfer, import, start, first call, health and revision are all in order or cached, whatever list it read |
| DeploymentOutcomes.FailedExact | tools/server-scripts/offline-delivery-local-up.ts:234-381 | each failure of a selected run in exactly its case: the stage that the run gets to and the answer that stops it there |
| DeploymentOutcomes.OtherEndings | tools/server-scripts/offline-delivery-local-up.ts:238-252 | a run that may not install is skipped or refused exactly as selected, and a killed run had nothing against its next stage |
| DeploymentOutcomes.DeployedReports | tools/server-scripts/offline-delivery-local-up.ts:383-392 | a deployment reports the eight stages in order, each as resumed exactly when it was taken over, and a replacement exactly when the own stack served another revision |
| DeploymentRuns.WrittenListExact | tools/server-scripts/offline-delivery-local-up.ts:264-381 | from a prefix of `n` stages, the list written with stage `i` is the prefix of `i + 1` stages if something before was made anew, else of at least `n` |
| DeploymentRuns.RepairExact | tools/server-scripts/offline-delivery-local-up.ts:264-381 | whatever list was saved, the list written with stage `i` is a prefix exactly when the saved one was, the bundle was made anew by then, or the list was cut at `transfer` or `import` behind the stages before it in order |
| DeploymentRuns.EditedListSurvives | tools/server-scripts/offline-delivery-local-up.ts:264-381 | the saved list `images` alone is no prefix even after a whole run that makes nothing anew |
| DeploymentRuns.DeployedReportsEveryStage | tools/server-scripts/offline-delivery-local-up.ts:383-392 | every non-reused success reports all eight stages in order; once images, bundle or transfer is made anew, the later ones of these three are too |
| DeploymentRuns.EveryPersistedListIsPrefix | tools/server-scripts/offline-delivery-local-up.ts:113-140 | over every sequence of runs and kills, across revisions, each persisted list is a duplicate-free prefix of the eight stages |
| DeploymentRuns.DeployedPersistsEveryStage | tools/server-scripts/offline-delivery-local-up.ts:381-392 | after a success the state file lists all eight stages |
| DeploymentRuns.StaleClaimsExact | tools/server-scripts/offline-delivery-local-up.ts:264-381 | from every file the runs can leave, the file afterwards claims no less than the run recorded, and exactly that when nothing was saved, the run records as much as was saved, or it records a stage behind one of its cuts |
| DeploymentRuns.StoppedAtCut | tools/server-scripts/offline-delivery-local-up.ts:298-362 | a complete list survives every run that is stopped where its first cut would be recorded |
| DeploymentRuns.StaleClaimsSurvive | tools/server-scripts/offline-delivery-local-up.ts:298-313 | a complete list survives every run that finds the bundle gone and no materials, although that run records one stage at most |
| DeploymentRuns.StaleTransferSurvives | tools/server-scripts/offline-delivery-local-up.ts:323-346 | and every run that cannot transfer a missing copy, although it records three stages at most |
| DeploymentRuns.StaleImportSurvives | tools/server-scripts/offline-delivery-local-up.ts:348-362 | and every run that cannot import a missing image, although it records four stages at most |
| DeploymentRuns.ClaimsAreEarned | tools/server-scripts/offline-delivery-local-up.ts:113-140 | from an empty cache no state file lists a stage that no run of that revision recorded |
| SuiteReachability.ChainUnique | tools/registry/test-suite-reachability.ts:5-33 | a profile has at most one inheritance chain |
| SuiteReachability.CycleHasNoChain | tools/registry/test-suite-reachability.ts:9-12 | a profile that inherits from itself, however indirectly, has none |
| SuiteReachability.Resolver.ResolveProfileSuites | tools/registry/test-suite-reachability.ts:5-33 | the memoised recursion terminates; a profile with a chain gets and caches the plain union along it, as does every profile until an issue is raised; an issue is raised only when there is no chain, and every issue is true |
| SuiteReachability.Resolver.ResolveDefined | tools/registry/test-suite-reachability.ts:19-32 | a defined profile is resolved to what it inherits and its own suites, and cached after its base, unless that is missing or still in work |
| SuiteReachability.CachedExactly | tools/registry/test-suite-reachability.ts:5-33 | after the resolution of some roots the cached profiles are exactly the defined ones that inheritance reaches, and the missing ones reported exactly the undefined |
| SuiteReachability.CycleReported | tools/registry/test-suite-reachability.ts:9-12 | of every inheritance cycle that is reached at least one profile is reported |
| SuiteReachability.ResolvePublicProfiles | tools/registry/test-suite-reachability.ts:35-48 | no issue exactly when every given profile has a defined, acyclic chain; in any case the suites are exactly those that the profiles reached list, and the faults reported exactly those reached |
| SuiteReachability.CoverageIdsExact | tools/registry/test-suite-reachability.ts:50-54 | the coverage ids are exactly the trimmed non-empty ids of the coverage suites |
| SuiteReachability.PublicNamesExact | tools/registry/test-suite-reachability.ts:38-41 | the public names are exactly the profiles that end in `-public` and are not marked dynamic, over the fields of the registry |
| SuiteReachability.TestSuiteReachabilityIssues | tools/registry/test-suite-reachability.ts:35-66 | no issue exactly when the registry is sound; on every registry an undefined profile is reported exactly when a public one leads to it, every reached cycle is, and a coverage suite exactly when there are public profiles and none of them leads to a profile that lists it |

## Left out

- Human-readable messages, and the `reasons` strings that the reducer joins from its findings and blockers.
- The evidence authority given as a plain object: it is a map here, so inherited properties of a prototype are
  not found. The same holds for names in the profile table that an object prototype defines.
- `String()` of objects with their own `toString`, and the difference between UTF-16 code units and characters
  in comparisons and lengths.
- Hashes, `encodeURIComponent` (a parameter of which nothing is assumed), URL parsing (a flag per entry),
  integrity digests, the length of a value as UTF-8 JSON, and the splitting of Git's metadata lines, which
  arrive parsed.
- Sbom.BuildSbom: the checks of the root package's own name, version and license, and the fixed document header.
- The notices and the manifest that the generator writes beside the SBOM.
- TreeCopy.CopyExactTree: changes of the source during the copy, a target inside the source, mode bits and read errors
  are not modelled; the source is a fixed tree with distinct slash-free names per directory.
- BlobReader.ReadBlobs: Git is a function from requests to outputs; its process errors are not modelled.
- ConsoleBridge.PluginConsoleHostBridge.OnMessage: `revalidate` and the synchronous part of a tool call do not re-enter the bridge; a port that
  refuses a message is a flag of the event, and abort controllers are named by the number of their call.
- The opening handshake of the bridge, the iframe and the default tool call over HTTP.
- BackgroundSupervisor.Supervisor.ReconcileRole: logging, state files, timers, the recovery of the system inspection role, the demand details
  and the SIGKILL that follows a shutdown after three seconds.
- BranchFlow.AcceptedComesFromUpstream: the upstream tip is read in the same step as the push; a promotion commit is not
  required to have exactly two parents, because the code does not check it.
- The pull request policy beside the push check in the same file.
- LocalDeployment.Deployment.RunLocalUp: the outcome of every external action is an answer in `World`; directories and files other than
  the state file, the secrets and the chosen ports' probing are not modelled further. A state file that cannot
  be written ends the run like a kill.
- The text scanners, argument parsers, catalogs and command-line entry points of these files.
