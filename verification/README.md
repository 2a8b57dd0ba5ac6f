# Kukeon: a verified model of the core

Kukeon is a single-host container orchestrator: realms hold spaces, spaces hold stacks, stacks hold cells, and a
daemon drives containerd, CNI and the kernel's cgroups to keep them running. This project models the parts of it
whose correctness is hardest to see from the code, in Dafny 4.11, and proves what they promise for every input,
every answer of the outside world and every run. `dafny verify dfyconfig.toml` checks all of it.

The code that changes state is modelled as classes and methods with loops; each method is proved against a
specification function or an outright property, and the results about whole runs are lemmas over those functions.
What the outside world (the runner, the disk, containerd, the kernel) answers, including by failing half way, is
given with each call, and every result is about all answers it may give.

| files | what they model |
|---|---|
| `Ipv4`, `Subnets`, `SubnetProofs` | the subnet allocator: 32-bit chunk arithmetic, the state files, and what holds over every run |
| `Cascade`, `CascadeOutcomes`, `Teardown` | cascading delete and purge over the realm/space/stack/cell tree: the runs, what they keep, what the runner's answers make of them, and the methods that follow them |
| `Cells`, `CellStart` | starting a cell: provisioning, the running-container guard, recovery, reapplying a Config, fallback |
| `OutOfSync`, `Reconcile`, `ConfigDrift` | drift detection for cells made from a Config, the reconcile walk over the stored cells, and when repeated passes settle |
| `Substitution`, `YamlWalk` | `${KEY}` substitution, on text and in place on the node tree |
| `Blueprints`, `Configs`, `ConfigCells`, `CellContents`, `SlotGate` | the two ways a blueprint becomes a cell, what the cell holds field by field, their agreement, and how far the slot-fill gate reaches |
| `PerCellVolumes`, `EnvOverlay` | per-cell volume names over shared arrays, and the environment overlay |
| `Documents`, `Bundles`, `TeamApply` | the order documents are applied in, which bundles go through in it, and the per-team apply with its prune |
| `Namespaces`, `UninstallRealms`, `Uninstall` | which containerd namespaces are kukeon's, which realms an uninstall purges, and tearing a host down |
| `Mounts`, `Cgroups` | listing mounts deepest first, draining a cgroup and delegating controllers |
| `Text`, `Quoting`, `Order`, `Listings`, `Arith`, `Counting`, `Wrappers` | shared vocabulary and helper lemmas |

## Where the code does less than one might think

Each of these is proved: an input or run that shows it, and the exact condition under which the expected property does
hold.

- A state file that exists but cannot be read is skipped by the allocator's scan, so its chunk can be handed out again
  (`UnreadableIsReassigned`). Ranges stay disjoint over a run if and only if every call's scan finds the chunk that a
  scan of all files would have found (`RunStaysDisjoint`); reading every healthy file is enough
  (`ReadableRunStaysDisjoint`).
- The chunk count of a /0 parent carved into /32 chunks is shifted out of its 32-bit word and becomes 0
  (`WholeSpaceHasNoChunk`, `SizeIsExact`).
- The running-container guard overlooks a running workload (`UnflaggedRootIsOverlooked`) exactly when no container is
  flagged root and everything that runs carries the recorded root container id (`GuardOverlooksExactly`), and exactly
  then a startable cell is started over it (`StartsOverWorkloadExactly`).
- The text of a slot-fill error depends on map order (`TwoOrdersTwoErrors`), so a second reconcile pass over unchanged
  stores can write again (`TwoOffendersAreRewritten`). A pass is a fixpoint exactly when the first objecting check of
  the slot-fill gate has at most one offender (`ConfigPassIsFixpoint`, `SecondConfigPassWritesNothing`).
- The slot-fill gate looks at the unresolved blueprint: a required repo whose url is a parameter set to nothing, or to
  a YAML null, passes it (`TemplatedUrlPassesTheGate`, `NullUrlPassesTheGate`). What an accepted Config still fails on
  is `AcceptedConfigFailsExactly`. A fill under a key with surrounding white space passes and is lost
  (`UntrimmedFillIsLost`, `SpacedFillIsLost`); no such fill ever makes a difference (`UntrimmedFillsAreIgnored`).
- Documents are applied in the order of their kinds, which puts a cell or container before the secrets and volumes it
  uses (`CellBeforeItsVolume`); all other references come first (`DependenciesFirst`), and no ranking of the kinds would
  get every one right (`NoRankingFits`). A bundle is applied in full exactly when what it needs is there before, or is
  in it and not such a secret or volume (`BundleAppliesExactly`, `CellWithItsVolume`). Deleting by document handles only
  realms, spaces, stacks and cells, among which there is no such reference.
- A prune can take a blueprint away from a config that stays (`OmittedBlueprintIsPruned`), of another team too
  (`OtherTeamLosesBlueprint`); which configs are left without one is `WithoutBlueprintExactly`.
- Two instances on one host claim a common namespace exactly when one suffix ends in the other
  (`InstancesOverlapExactly`).
- procfs leaves some white space unescaped that `strings.Fields` splits on, so a mount target can be read back cut
  short (`CarriageReturnCuts`), or a piece of the mount's source be read in its place (`CarriageReturnReplaces`,
  `CarriageReturnSource`). Behind a source of one field the target is read as one field exactly when it has none of that
  white space (`FieldIsTargetExactly`); behind any other, `SourceShiftsTarget` says what is read.
- A realm purge that reports success may leave the realm's document behind (`PurgeLeavesRealm`), but only after a
  failed call (`PurgeRealmRunKeeps`).
- A delete can orphan a space whose document could not be read when its realm was listed (`HiddenSpaceIsOrphaned`).
  Unreadable spaces and stacks, and what lies below them, are the only documents a cascade can orphan
  (`OnlyHiddenRemain`); forced without cascade it can orphan any (`ForcedDeleteOrphans`).
- An uninstall whose listings fail can purge only the well-known realms, tear the host down and report no error
  (`FailedListingIsNotReported`); `SucceedsExactly` says which failures are reported.
- A realm placed in a namespace of its own choice keeps an uninstall from purging the namespace that carries its name
  (`RenamedRealmHidesNamespace`); a kukeon namespace is purged exactly when a listed realm has it or no listed realm has
  its realm's name (`NamespaceReachedExactly`).

## Model

| member | source | states |
|---|---|---|
| Ipv4.ShiftOneExact | internal/cni/subnet.go:116-117 | shifting a 32-bit one is a power of two up to 31 places and 0 at 32 |
| Ipv4.QuadRoundTrip | internal/cni/subnet.go:372-381 | an address split into octets and joined again is itself |
| Ipv4.AddressRoundTrip | internal/cni/subnet.go:372-381 | octets joined and split again are themselves |
| Ipv4.DottedInjective | internal/cni/subnet.go:345-347 | different addresses have different dotted texts |
| Ipv4.CidrInjective | internal/cni/subnet.go:345-347 | two CIDR texts are equal exactly when address and prefix length are, so comparing texts is comparing blocks |
| Ipv4.CidrReads | internal/cni/subnet.go:345-347 | a text is a block's exactly when it spells, in decimal without leading zeros, the address's four octets from the highest down, dots between them, and the prefix length behind a slash |
| Subnets.Mask | internal/cni/subnet.go:96-127 | the parent's network address is a multiple of its size and contains the given address |
| Subnets.NewPlan | internal/cni/subnet.go:96-127 | accepted exactly for an IPv4 parent and a prefix length strictly longer than the parent's, at most 32; the base is aligned and its block holds the given address |
| Subnets.SizeIsExact | internal/cni/subnet.go:116-117 | the chunk count is exact if and only if the prefix lengths differ by at most 31; at 32 it is 0 |
| Subnets.WholeSpaceHasNoChunk | internal/cni/subnet.go:96-127 | an allocator for 0.0.0.0/0 in /32 chunks is accepted and finds every chunk taken |
| Subnets.ParentFits | internal/cni/subnet.go:96-127 | the parent block ends inside the address space |
| Subnets.ChunkExact | internal/cni/subnet.go:334-353 | base plus offset never wraps: every candidate is a whole slice of the parent |
| Subnets.ChunkTextInjective | internal/cni/subnet.go:334-353 | two candidate texts are equal exactly when their indices are |
| Subnets.ChunkReads | internal/cni/subnet.go:334-353 | candidate i spells out base plus i spans, and the prefix length |
| Subnets.GridBlocksDisjoint | internal/cni/subnet.go:285-353 | aligned blocks of one prefix length share an address exactly when their texts are equal |
| Subnets.ChunksAreCandidates | internal/cni/subnet.go:334-353 | an allocator's candidates are aligned blocks of its prefix length, no two alike, as many as its size |
| Subnets.FirstFree | internal/cni/subnet.go:334-353 | the lowest candidate index not in use; none exactly when all are used |
| Subnets.FirstFreeChunk | internal/cni/subnet.go:334-353 | the scan over indices returns the text of that lowest free candidate |
| Subnets.SubnetAllocator.ScanUsed | internal/cni/subnet.go:285-330 | the nested directory walk sees exactly the subnets of the healthy files it can read |
| Subnets.SubnetAllocator.Allocate | internal/cni/subnet.go:229-261 | result and files after the call, for every name, stored record, failed scan, unreadable file and failed or partial write |
| Subnets.SubnetAllocator.Release | internal/cni/subnet.go:265-278 | blank names and missing files are fine, a failed removal changes nothing |
| SubnetProofs.DistinctIsDisjoint | internal/cni/subnet.go:285-353 | when all records are aligned to one prefix length, distinct texts and disjoint address ranges are the same thing |
| SubnetProofs.CandidatesAreContained | internal/cni/subnet.go:334-353 | records that are candidates of some allocators each lie inside one of their parent blocks |
| SubnetProofs.SeeingLess | internal/cni/subnet.go:334-353 | a scan of fewer files finds the same free chunk exactly when the one it finds is in none of the others |
| SubnetProofs.SightedIsUnheld | internal/cni/subnet.go:229-261 | a call whose scan finds what a full scan would is one whose chunk no healthy file holds |
| SubnetProofs.ReadableIsSighted | internal/cni/subnet.go:285-330 | a call that can read every healthy file finds what a full scan would |
| SubnetProofs.AllocateEffect | internal/cni/subnet.go:229-261 | a call stores one candidate under its own key or leaves every healthy record alone |
| SubnetProofs.AllocateKeepsDisjoint | internal/cni/subnet.go:229-261 | one call keeps ranges disjoint if and only if its scan found the chunk a scan of all files would have found |
| SubnetProofs.StepKeeps | internal/cni/subnet.go:229-278 | the same for any step of a run, including releases and files damaged from outside |
| SubnetProofs.RunStaysDisjoint | internal/cni/subnet.go:229-330 | over every run with failed writes, failed scans, damaged and unreadable files and reconfigured parents, ranges are disjoint in every state if and only if every call scanned as well as a full scan would |
| SubnetProofs.ReadableRunStaysDisjoint | internal/cni/subnet.go:229-330 | so a run whose calls can read every healthy file keeps all ranges disjoint, whatever else fails |
| SubnetProofs.RunStaysContained | internal/cni/subnet.go:229-330 | over every run, the parent reconfigured or not, nothing outside the parents used is ever assigned |
| SubnetProofs.UnreadableIsReassigned | internal/cni/subnet.go:285-330 | the concrete run in which an unreadable file's chunk is handed out again |
| SubnetProofs.CountsHealthy | internal/cni/subnet.go:334-353 | exhaustion means exactly that there are as many healthy records as chunks |
| SubnetProofs.FreshAllocate | internal/cni/subnet.go:229-261 | a fresh call without faults succeeds exactly while a chunk is free, takes exactly one and touches no other record |
| SubnetProofs.ServesEveryFreeChunk | internal/cni/subnet.go:229-261 | of any sequence of new spaces exactly as many are served as chunks were free, in order, and no further one |
| SubnetProofs.AllocateIsStable | internal/cni/subnet.go:229-261 | asking again, from any allocator over the same files, returns the same subnet and changes nothing |
| SubnetProofs.ReleaseFreesTheChunk | internal/cni/subnet.go:265-278 | a release takes exactly its own chunk out of use |
| SubnetProofs.AllocateAnswers | internal/cni/subnet.go:229-261 | a space without a file is answered, and stored, the address of the first chunk no file read holds, spelled out |
| SubnetProofs.FirstSubnet | internal/cni/subnet.go:229-261 | the first space over 10.88.0.0/16 in /24 chunks gets 10.88.0.0/24 |
| SubnetProofs.OwnFileDecides | internal/cni/subnet.go:229-261 | a blank name is refused; a space with a file gets what the file says, or the error of reading it, and nothing changes |
| SubnetProofs.FreshAnswer | internal/cni/subnet.go:229-261 | without a file: which failure is reported, both ways for scan and exhaustion, and success exactly with a written record |
| Listings.ListedAsGiven | internal/controller/runner/get.go:148-194 | a scope's children can be listed in any order |
| Cascade.OnlyHiddenRemain | internal/controller/runner/get.go:148-194 | below a removed or bare node only what lies below an unreadable space or stack is left |
| Cascade.GoneWithSubtree | internal/controller/delete_realm.go:92-121 | when every document is readable a removed node takes exactly its subtree with it |
| Cascade.RemovalIsSafe | internal/controller/delete_realm.go:92-121 | removing any part of a bare node's subtree orphans nothing |
| Cascade.DeleteCallKeeps | internal/controller/runner/delete_stack.go:34-161 | a delete call stays in its subtree and orphans nothing below a bare node, and never below a stack, which it refuses to remove while a cell is left |
| Cascade.DeleteRunKeeps | internal/controller/delete_realm.go:92-121 | under every pattern of failed and half-done calls: nothing outside the subtree changes; unless a realm or space is forced without cascade no state on the way has an orphan; success means the node is gone and no call failed, failure that one did or that children were in the way |
| Cascade.DeleteEachKeeps | internal/controller/delete_space.go:98-127 | the same for the loop over the children, which stops at the first failure and otherwise leaves none of the listed |
| Cascade.PurgeRunKeeps | internal/controller/purge_space.go:106-140 | the same for a purge of a space, stack or cell, which ends by clearing the node itself |
| Cascade.PurgeEachKeeps | internal/controller/purge_stack.go:96-132 | the same for the purge loop over the children |
| Cascade.PurgeRealmRunKeeps | internal/controller/purge_realm.go:140-202 | the same for a realm purge, which survives a failed delete, and ends in the comprehensive purge or leaves the realm's document alone; without a failed call success means the realm is gone |
| Cascade.SuccessIsExact | internal/controller/delete_realm.go:92-121 | with every document readable a successful delete or purge removes exactly the subtree |
| Cascade.RealmSuccessIsExact | internal/controller/purge_realm.go:140-202 | and so does a realm purge without a failed call |
| CascadeOutcomes.DeleteSucceedsExactly | internal/controller/delete_realm.go:92-121 | when every document is readable and every listing and call goes well, a delete succeeds exactly when no child is in the way: it cascades, or is forced past them, or there are none; it then removes exactly the subtree, and otherwise nothing |
| CascadeOutcomes.PurgeSucceedsExactly | internal/controller/purge_space.go:106-140 | the same for a purge, of a realm too |
| CascadeOutcomes.PurgeRemovesSubtree | internal/controller/purge_realm.go:140-202 | and a cascading purge then removes exactly the subtree without a fault |
| CascadeOutcomes.FaultsHaveCauses | internal/controller/delete_realm.go:92-121 | a fault always comes from an answer at or below the node that did not go well, or from a child in the way |
| CascadeOutcomes.SuccessIsAnswered | internal/controller/delete_realm.go:92-121 | a successful delete had its own call, and its listing when it made one, answered well |
| CascadeOutcomes.PurgeLeavesRealm | internal/controller/purge_realm.go:140-202 | for answers that fail the delete and clear nothing, the successful realm purge that leaves the realm's document |
| CascadeOutcomes.HiddenSpaceIsOrphaned | internal/controller/delete_realm.go:92-121 | the run of a successful realm delete that orphans an unreadable space |
| CascadeOutcomes.ForcedDeleteOrphans | internal/controller/delete_realm.go:92-121 | the run of a forced realm delete that orphans a readable space |
| Teardown.Runner.DeleteCascade | internal/controller/delete_stack.go:103-133 | every delete is the run for the answers the runner is given to make, state by state |
| Teardown.Runner.DeleteChildren | internal/controller/delete_space.go:98-127 | and so is its loop over the listed children |
| Teardown.Runner.PurgeCascade | internal/controller/purge_space.go:106-140 | every purge of a space, stack or cell likewise |
| Teardown.Runner.PurgeChildren | internal/controller/purge_stack.go:96-132 | and its loop over the listed children |
| Teardown.Runner.PurgeRealmCascade | internal/controller/purge_realm.go:140-202 | every realm purge likewise, with or without metadata |
| CellStart.Runner.Provision | internal/controller/percell_volume.go:42-83 | a pass goes through exactly when no volume the body asks for fails, and then every one has been reconciled, under its own scope or the cell's |
| CellStart.Guard | internal/controller/start_cell.go:146-176 | refuses exactly when a counted container runs, or nothing is known and the cell claims Ready |
| CellStart.StartCell | internal/controller/start_cell.go:41-207 | every run makes exactly the calls and returns the result the script gives for the runner's answers, and each container call finds its volumes provisioned |
| CellStart.ReapplyFromConfig | internal/controller/start_cell.go:240-307 | the reapply part of the script: only an out-of-sync lineage cell without error, whose Config materialises to something different |
| CellStart.RebuildFrom | internal/controller/start_cell.go:316-352 | a breaking difference is provisioned, then recreated, else the caller falls back |
| CellStart.UpdateInPlace | internal/controller/start_cell.go:365-420 | a compatible difference starts the stored body first and keeps it running when the update fails |
| CellStart.ProvisionedBeforeUse | internal/controller/start_cell.go:41-207 | in every run each start, recreate or update of a body comes after a successful provisioning pass over that same body |
| CellStart.CallsAreEarned | internal/controller/start_cell.go:111-206 | recreation only to recover or on a breaking difference of an out-of-sync lineage cell, starts and updates only past the guard, no container call on a pending or unknown one |
| CellStart.UpdateFollowsStart | internal/controller/start_cell.go:365-420 | an update is issued only right after the same run started the stored body |
| CellStart.RequestIsHonoured | internal/controller/start_cell.go:41-207 | a request is refused exactly for one of four reasons: not found under its name and place, volumes not ready, a state that is not startable, a container running; a success returns a cell some call answered with, a failure comes after the stored body itself was tried |
| CellStart.LiveExactly | internal/controller/start_cell.go:41-110 | a request is about the stored cell exactly when all names are given and the cell lies where it says, and then about that cell as stored with the request's own environment |
| CellStart.CallsAddressTheCell | internal/controller/start_cell.go:281-289 | every provision, start, recreate and update has the stored cell's name, id, realm, space and stack and the request's environment, and declares what is stored or what the Config materialised to |
| CellStart.StartedIsLastAnswer | internal/controller/start_cell.go:41-207 | the cell returned is the answer of the last container call that succeeded |
| CellStart.DriftIsReapplied | internal/controller/start_cell.go:240-307 | a startable drifted cell whose Config materialises is recreated from it on a breaking difference and updated to it on any other, and that is the cell returned when it goes well |
| CellStart.StoredCellIsStarted | internal/controller/start_cell.go:111-206 | a startable cell without such a reapply, or whose reapply fails, is started as stored, and a failed cell recreated as stored |
| CellStart.EnsuredMountsResolve | internal/ctr/volume_ref.go:59-100 | once a call's body is provisioned each ensure mount resolves, to the very volume provisioned for it |
| CellStart.RootIDMeaning | internal/controller/get_cell.go:140-150 | the root id is that of a container flagged root, and the recorded id only when there is none |
| CellStart.GuardOverlooksExactly | internal/controller/start_cell.go:146-176 | the exact condition under which the guard lets a running workload pass |
| CellStart.GuardExactly | internal/controller/start_cell.go:146-176 | the guard counts every running container but the root of a cell with workloads, and goes by the Ready state when it knows of none |
| CellStart.UnflaggedRootIsOverlooked | internal/controller/start_cell.go:146-176 | a cell it lets pass |
| CellStart.StartsOverWorkloadExactly | internal/controller/start_cell.go:111-206 | a provisioned startable cell with a running workload gets a container call exactly under that condition |
| OutOfSync.ProbesCoverScopes | internal/controller/reconcile_outofsync.go:160-191 | every enclosing scope is probed, each once |
| OutOfSync.LookupLineageConfig | internal/controller/reconcile_outofsync.go:160-191 | the narrowest scope that does not report the Config missing decides; missing only when missing everywhere |
| OutOfSync.NarrowestDecides | internal/controller/reconcile_outofsync.go:160-191 | the cell's own scope decides unless it reports the Config missing, then its space, then the realm |
| OutOfSync.DeletedExactly | internal/controller/reconcile_outofsync.go:92-114 | the verdict is that the Config was deleted exactly when the lookup does not find it; no field difference reads the same |
| OutOfSync.CollectFieldPaths | internal/controller/reconcile_outofsync.go:335-376 | the sorted listing, each path once, of exactly the paths a difference names |
| OutOfSync.ListingUnique | internal/controller/reconcile_outofsync.go:335-376 | a set of paths has one listing, so diff order and map order never show |
| OutOfSync.DesiredVerdict | internal/controller/reconcile_outofsync.go:92-114 | one of the verdicts allowed for the stores and the cell's body |
| OutOfSync.VerdictsAreExclusive | internal/controller/reconcile_outofsync.go:92-114 | drift and error never go together, and a reason is given exactly with drift |
| OutOfSync.DriftVerdictUnique | internal/controller/reconcile_outofsync.go:323-376 | with the stores unchanged any two drift verdicts are the same, reason included |
| OutOfSync.OutOfSyncExactly | internal/controller/reconcile_outofsync.go:92-114 | a cell is out of sync exactly when its Config is gone or what it materialises to now differs from the cell |
| OutOfSync.MatchingIsInSync | internal/controller/reconcile_outofsync.go:92-114 | a cell that is what its Config materialises to is in sync, for any difference that finds none between a body and itself |
| OutOfSync.ReasonNamesPaths | internal/controller/reconcile_outofsync.go:323-376 | the reason for a difference spells out every path it names |
| OutOfSync.PathsNamed | internal/controller/reconcile_outofsync.go:335-376 | those are the changed and breaking fields, the root container, added and removed containers, and the fields of updated ones |
| OutOfSync.VerdictIsSettled | internal/controller/reconcile_outofsync.go:92-114 | for any way of materialising, the verdict on unchanged stores is unique if and only if the error text is |
| OutOfSync.PassIsFixpoint | internal/controller/reconcile_outofsync.go:382-399 | and if and only if writing one verdict leaves nothing to write for the next |
| Reconcile.OthersUntouched | internal/controller/reconcile.go:142-190 | a pass touches no document of a cell it does not visit |
| Reconcile.EntryAfter | internal/controller/reconcile.go:142-190 | a visited cell's document is what its own visit left |
| Reconcile.GoneStaysGone | internal/controller/reconcile.go:166-179 | a cell that was deleted, or found deleted, is not written back by the rest of the pass |
| Reconcile.VerdictIsStored | internal/controller/reconcile.go:142-190 | after a pass that went through, every lineage cell still there carries a verdict on its own declared body |
| Reconcile.SecondPassWritesNothing | internal/controller/reconcile.go:102-197 | with the stores unchanged, and declared bodies and sync fields kept by the runner's own reconcile, a second pass over the same cells writes nothing, whatever verdicts are reached, once error texts are settled |
| Reconcile.UnsettledIsRewritten | internal/controller/reconcile.go:102-197 | and can write again for a cell whose error text is not |
| Reconcile.UpdatesAndDeletesFit | internal/controller/reconcile.go:142-190 | no visit counts as both updated and deleted |
| Reconcile.Pass.ReconcileCell | internal/controller/runner/refresh.go:655-686 | the runner's part of a visit, for any answer that keeps to its own cell: its own cell's document only, and none left when it reports the cell gone |
| Reconcile.FittingIsKept | internal/controller/runner/refresh.go:655-686 | any answer of such a runner is taken as it is |
| Reconcile.Pass.Detect | internal/controller/reconcile_outofsync.go:65-78 | the stored document changes exactly when the verdict is news and the write goes through; a cell without lineage never |
| Reconcile.Pass.VisitCell | internal/controller/reconcile.go:142-190 | one more lawful visit, with counters, store and log in step |
| Reconcile.Pass.ReconcileCells | internal/controller/reconcile.go:102-197 | every listed cell is visited once, in listing order, whatever listings fail, and the store is what the visits left |
| ConfigDrift.ConfigDeletedExactly | internal/controller/reconcile_outofsync.go:92-191 | with the Config looked up by the cell's label, that is exactly when each of the cell's enclosing scopes reports it missing |
| ConfigDrift.RebuiltIsInSync | internal/controller/reconcile_outofsync.go:92-266 | a cell that is what its stored Config makes now gets the in-sync verdict |
| ConfigDrift.DriftIsReported | internal/controller/reconcile_outofsync.go:92-266 | any other is out of sync exactly when the difference to that names changes, without error and with every path of it in the reason |
| ConfigDrift.ConfigVerdictExists | internal/controller/reconcile_outofsync.go:92-114 | every cell gets a verdict: whatever fails comes with a text |
| Quoting.QuoteInjective | internal/cellconfig/cellconfig.go:95-119 | quoted names tell different names apart in error texts |
| Quoting.PlainIsQuotedAsItIs | internal/cellconfig/cellconfig.go:95-119 | a printable name without quotes or backslashes stands in the text as it is |
| ConfigDrift.TextsAreReported | internal/controller/reconcile_outofsync.go:215-266 | the texts a pass may persist for a rejected Config are those the gate's map ranges can report, and no others |
| ConfigDrift.SettledExactly | internal/controller/reconcile_outofsync.go:215-266 | the error text is settled exactly when the first objecting check has at most one offender |
| ConfigDrift.ConfigPassIsFixpoint | internal/controller/reconcile_outofsync.go:65-114 | writing a verdict leaves nothing to write for the next pass if and only if the first objecting check has at most one offender |
| ConfigDrift.SecondConfigPassWritesNothing | internal/controller/reconcile.go:102-197 | so, under the same conditions, a second pass over a host without a Config of two such offenders writes nothing |
| ConfigDrift.TwoOffendersAreRewritten | internal/controller/reconcile.go:102-197 | the two passes over a cell of a Config with two offenders, the second of which writes |
| Substitution.RefLen | internal/cellblueprint/params.go:36 | a match is the text of a reference with a well-formed name |
| Substitution.RefLenComplete | internal/cellblueprint/params.go:36 | every reference at the front of a text is matched, in full |
| Substitution.NoReferenceInside | internal/cellblueprint/params.go:36 | references never overlap |
| Substitution.TokensSplit | internal/cellblueprint/params.go:47-66 | every text splits into literals and references, no reference left in literals, and printing the split gives the text back |
| Substitution.SplitIsUnique | internal/cellblueprint/params.go:47-66 | there is only one such split |
| Substitution.RewriteReplacesTokens | internal/cellblueprint/params.go:47-66 | substitution is replacing the references of that split: inserted values are never rescanned, unknown keys stay as written |
| Substitution.RewriteDependsOnKeys | internal/cellblueprint/params.go:47-66 | only values of referenced keys matter |
| Substitution.ShortcutAgrees | internal/cellblueprint/params.go:47-66 | skipping texts without the opener changes nothing |
| Substitution.RewriteFirst | internal/cellblueprint/params.go:47-66 | the first reference of a text is replaced where it stands, by its value or by itself when the key has none, and the rest is rewritten behind it |
| YamlWalk.Node.WalkScalars | internal/cellblueprint/params.go:71-94 | exactly the scalars reached through documents, sequences and mapping values are handed to the callback, once each |
| YamlWalk.Node.TargetsMean | internal/cellblueprint/params.go:71-94 | which scalars those are: all below documents and sequences, of mappings the values, never anything in a key or an alias |
| YamlWalk.Node.Substitute | internal/cellblueprint/params.go:47-66 | exactly those are rewritten; mapping keys, aliases, every other node and the tree's shape stay as they were |
| PerCellVolumes.DistinctCellsDistinctVolumes | internal/cellblueprint/percell.go:59-87 | for any template with the variable, expanded names are equal exactly when the cell names are |
| PerCellVolumes.ExpandFirst | internal/cellblueprint/percell.go:59-87 | the first occurrence of the variable is replaced where it stands, and the rest expanded behind it |
| PerCellVolumes.ExpandMount | internal/cellblueprint/percell.go:59-87 | the expansion of one mount, its volumeRef cloned before renaming |
| PerCellVolumes.ExpandContainer | internal/cellblueprint/percell.go:59-87 | the container gets a fresh array with every mount expanded; the shared one is not written |
| PerCellVolumes.ExpandAll | internal/cellblueprint/percell.go:59-87 | the same for every container |
| PerCellVolumes.StampTwo | internal/cellblueprint/cellblueprint.go:225-228 | two cells stamped from one shared list get different volumes and the list, with its volumeRefs, is as it was |
| EnvOverlay.MergeEnv | internal/cellconfig/envoverlay.go:90-114 | the surviving entries in order, then the overrides |
| EnvOverlay.MergeAssociative | internal/cellconfig/envoverlay.go:90-114 | layers of overrides can be merged in any grouping |
| EnvOverlay.MergeUnit | internal/cellconfig/envoverlay.go:90-114 | the empty list is a unit on both sides |
| EnvOverlay.MergeIdempotent | internal/cellconfig/envoverlay.go:90-114 | the same overrides twice are the same as once |
| EnvOverlay.MergeLookup | internal/cellconfig/envoverlay.go:90-114 | last-wins lookup gives the override's value for overridden keys and the spec's for all others |
| EnvOverlay.KeyOfEntry | internal/cellconfig/envoverlay.go:90-114 | an entry's key is what stands before its first equals sign |
| EnvOverlay.OverrideReplaces | internal/cellconfig/envoverlay.go:90-114 | an override leaves no entry that sets its key otherwise, and every entry of another key |
| EnvOverlay.ResolveAttachableContainerIndex | internal/cellconfig/envoverlay.go:66-82 | the first workload with the preferred id, else the first attachable workload, else none |
| EnvOverlay.Cell.ApplyEnvOverrides | internal/cellconfig/envoverlay.go:46-56 | only the attach target's environment and the recorded overrides change |
| EnvOverlay.BakingIsIdempotent | internal/cellconfig/envoverlay.go:46-56 | applying the overrides again, or the recorded ones, leaves the cell unchanged |
| EnvOverlay.BakingOverrides | internal/cellconfig/envoverlay.go:46-56 | in the attach target overridden keys take the overrides' values and all others keep theirs; no other container changes; a cell with provenance records the overrides |
| Blueprints.ResolveValues | internal/cellblueprint/cellblueprint.go:126-178 | the value map, or an error, in strict and lenient mode, whatever order the supplied map yields its keys |
| Blueprints.StrictIsLenient | internal/cellblueprint/cellblueprint.go:86-178 | strict resolution succeeds exactly when lenient does and every supplied key is declared, with the same values |
| Blueprints.ValuesFailExactly | internal/cellblueprint/cellblueprint.go:126-178 | resolution fails exactly on an undeclared key in strict mode or on a required parameter that nothing gives a value |
| Blueprints.SuppliedWins | internal/cellblueprint/cellblueprint.go:126-178 | every supplied key has the supplied value, whatever the defaults say, and only supplied and declared keys have one |
| Blueprints.DefaultElseEnvironment | internal/cellblueprint/cellblueprint.go:126-178 | a key not supplied has its last declaration's default, else the environment's value, else the empty text |
| Blueprints.SubMeans | internal/cellblueprint/params.go:47-66 | a field without references comes out as it is, one that is a single reference as its value, a null as the empty text |
| Blueprints.MaterializeContainer | internal/cellblueprint/cellblueprint.go:280-338 | repos with a url are kept in order, and the container is blocked exactly when it has a required slot |
| Blueprints.CellNameIsTrimmed | internal/cellblueprint/cellblueprint.go:343-359 | the name asked for and a generated one both come trimmed and not empty |
| Blueprints.CellNameMeans | internal/cellblueprint/cellblueprint.go:343-359 | the name asked for, else prefix or name, a dash and the digits, else none |
| Blueprints.MaterializeInline | internal/cellblueprint/cellblueprint.go:203-249 | the stamped containers of the resolved blueprint under the asked-for or generated name, or an error exactly when values, name or slots are missing |
| Configs.CollectSlots | internal/cellconfig/cellconfig.go:78-94 | a slot is required when any declaration of it is |
| Configs.ReportIsAnOffence | internal/cellconfig/cellconfig.go:95-119 | the gate passes exactly when nothing offends, and reports an offence of the first objecting check otherwise |
| Configs.EveryOffenceIsReported | internal/cellconfig/cellconfig.go:95-119 | every offence of that check is reported under some iteration order |
| Configs.ErrorIsStableExactly | internal/cellconfig/cellconfig.go:95-119 | the error is the same under all iteration orders if and only if that check has at most one offence |
| Configs.TwoOrdersTwoErrors | internal/cellconfig/cellconfig.go:95-119 | a Config that gets two different errors under two orders |
| Configs.ValidateSlotFill | internal/cellconfig/cellconfig.go:78-122 | no error exactly when every fill names a declared slot and every required slot is filled, and otherwise the one the iteration order picks |
| ConfigCells.FillRepos | internal/cellconfig/materialize.go:151-237 | repos and filled slots in order, open optional slots dropped, an error exactly for an open required one |
| ConfigCells.FillSecrets | internal/cellconfig/materialize.go:248-281 | filled secret slots in order, by environment or by file as the blueprint says, or an error |
| ConfigCells.MaterializeContainer | internal/cellconfig/materialize.go:151-237 | one container of the Config channel, or an error |
| ConfigCells.MaterializeFromConfig | internal/cellconfig/materialize.go:63-112 | the containers of the Config channel, or an error, independent of map order |
| ConfigCells.UnfilledContainers | internal/cellconfig/materialize.go:151-237 | without fills, Config materialisation blocks exactly where inline materialisation does and gives the same containers |
| ConfigCells.GateBlocks | internal/cellconfig/cellconfig.go:78-122 | what the gate rejects before substitution is still blocked after it |
| ConfigCells.ChannelsAgree | internal/cellconfig/materialize.go:63-112 | without fills and environment lookup, under the same name, the inline channel fails in addition only on undeclared keys or without a name; otherwise both fail together or produce the same containers |
| CellContents.SlotsResolved | internal/cellblueprint/cellblueprint.go:86-117 | every field of every repo and secret slot is substituted into its own place |
| CellContents.InlineContents | internal/cellblueprint/cellblueprint.go:203-338 | the inline cell: the blueprint's containers in order, each field substituted, each mount expanded for the cell's name, the repos that have a url |
| CellContents.ConfigContents | internal/cellconfig/materialize.go:63-237 | the Config's cell: the same fields and mounts, with the repo and secret slots filled in order |
| Blueprints.KeptReposConcat | internal/cellblueprint/cellblueprint.go:280-338 | lists of repos are gone through one after the other, in order |
| CellContents.FilledReposConcat | internal/cellconfig/materialize.go:151-182 | lists of repos are filled one after the other, in order |
| CellContents.FilledSecretsConcat | internal/cellconfig/materialize.go:184-202 | and so are lists of secret slots |
| CellContents.FilledRepoMeans | internal/cellconfig/materialize.go:151-182 | a filled repo slot gets the fill's url, and its branch and ref where it gives one |
| CellContents.UnfilledRepoMeans | internal/cellconfig/materialize.go:151-182 | any other repo is kept with a url, refused when required, dropped otherwise |
| CellContents.FilledSecretMeans | internal/cellconfig/materialize.go:248-281 | a filled secret slot is a variable under its environment name, or a file under its own name at its path, with the Config's secret |
| CellContents.SuppliedReachesCell | internal/cellblueprint/cellblueprint.go:86-178 | a field that refers to a supplied key shows its value in the cells of both channels |
| CellContents.DefaultReachesCell | internal/cellblueprint/cellblueprint.go:126-178 | one that refers to a key nobody supplies shows the last default, else the environment's value, else nothing |
| SlotGate.RepoLeftOpenExactly | internal/cellconfig/materialize.go:151-237 | behind the gate a repo slot is left open exactly when it is a template that resolves to a required slot without a fill |
| SlotGate.SecretLeftOpenExactly | internal/cellconfig/materialize.go:248-281 | and a secret slot fails exactly when its templated name resolves to one without a fill, or its fill has no reference, or its mode is unknown |
| SlotGate.AcceptedConfigFailsExactly | internal/cellconfig/materialize.go:63-112 | so a Config the gate accepts, and whose values resolve, fails to materialise exactly when some slot is one of these |
| SlotGate.GateSuffices | internal/cellconfig/cellconfig.go:78-122 | with literal slots and fills that name a secret, what the gate accepts materialises |
| SlotGate.TemplatedUrlPassesTheGate | internal/cellconfig/cellconfig.go:78-122 | a required repo with a templated url set to nothing, to white space or to a YAML null passes the gate and then fails |
| SlotGate.NullUrlPassesTheGate | internal/cellblueprint/params.go:47-66 | for one such url |
| SlotGate.UntrimmedFillsAreIgnored | internal/cellconfig/materialize.go:63-112 | leaving out the fills under untrimmed keys makes no difference to what an accepted Config materialises to |
| SlotGate.UntrimmedFillIsLost | internal/cellconfig/materialize.go:151-237 | a fill of an optional slot under an untrimmed key is accepted and gives the cell of a Config without it; under the slot's name it is used |
| SlotGate.SpacedFillIsLost | internal/cellconfig/materialize.go:151-237 | for one such key |
| Documents.SortDocumentsByKind | internal/controller/documents.go:30-85 | a permutation of the documents ordered by kind, then index, either way round |
| Documents.OrderIsUnique | internal/controller/documents.go:30-85 | with distinct indices that order is the only one |
| Documents.DependenciesFirst | internal/controller/documents.go:30-85 | what a document refers to is applied before it exactly when it is not the secret or volume of a cell or container; in reverse the other way round |
| Documents.NoRankingFits | internal/controller/documents.go:30-85 | every ranking of the kinds has some reference the wrong way round: cells use secrets, and secrets are scoped to cells |
| Documents.CellBeforeItsVolume | internal/controller/documents.go:30-85 | a volume and a cell, given in either order, come out cell first |
| Bundles.BundleAppliesExactly | internal/controller/apply.go:106-343 | a sorted bundle is applied in full exactly when everything it needs is there before, or is in it and not a secret or volume of a cell or container |
| Bundles.CellWithItsVolume | internal/controller/apply.go:106-343 | a volume and the cell that mounts it go through together exactly when the volume was there before |
| TeamApply.PruneIsExact | internal/controller/apply.go:385-443 | a prune without failures leaves the kept objects of the team and everything else |
| TeamApply.Daemon.PruneTeamObjects | internal/controller/apply.go:385-443 | nothing is deleted unless both listings succeed; then exactly the team's objects outside the applied set, failed deletions aside |
| TeamApply.Daemon.ApplyDocuments | internal/controller/apply.go:106-343 | the stores after the sorted documents and the prune, for every pattern of failures |
| TeamApply.AppliedEffect | internal/controller/apply.go:106-343 | applied objects carry the team's label and all others are as they were |
| TeamApply.BlueprintsGoIn | internal/controller/apply.go:235-263 | the applied blueprints are exactly the blueprint documents that go through |
| TeamApply.ConfigsGoIn | internal/controller/apply.go:264-292 | the applied configs are exactly the config documents that go through and whose blueprint was stored or goes in with them |
| TeamApply.BlueprintStored | internal/controller/apply.go:235-263 | the last such document of a reference is what is stored, with its other labels kept and the team's added |
| TeamApply.ConfigStored | internal/controller/apply.go:264-292 | the same for configs |
| TeamApply.TeamOwnsExactlyItsApply | internal/controller/apply.go:106-343 | after an apply whose deletions succeed the team owns exactly what it applied, and other teams' objects that were not named are untouched |
| TeamApply.WithoutBlueprintExactly | internal/controller/apply.go:106-343 | of whatever team, a config that is there afterwards is without its blueprint exactly when the blueprint was not applied and either was not stored before or carried the team's label |
| TeamApply.ConfigHasItsBlueprint | internal/controller/apply.go:106-343 | a config applied in this run had its blueprint when written, and loses it exactly to the label |
| TeamApply.OmittedBlueprintIsPruned | internal/controller/apply.go:385-443 | an apply that leaves the blueprint out prunes it under its own config |
| TeamApply.OtherTeamLosesBlueprint | internal/controller/apply.go:385-443 | an apply of nothing prunes the blueprint under another team's config |
| Namespaces.Runtime.ConfigureRuntime | internal/consts/consts.go:269-306 | accepts exactly the well-formed suffixes and roots, normalises them, and changes nothing otherwise |
| Namespaces.RealmRoundTrip | internal/consts/consts.go:312-354 | a non-empty realm mapped to its namespace and back is itself |
| Namespaces.NamespaceRoundTrip | internal/consts/consts.go:339-354 | a kukeon namespace mapped to its realm and back is itself; all others map to nothing |
| Namespaces.CompanionIsRecognised | internal/consts/consts.go:363-381 | the history companion of every realm namespace is recognised |
| Namespaces.NeverBoth | internal/consts/consts.go:376-381 | no namespace is both a realm's and a history companion, whatever suffix is configured |
| Namespaces.InstancesOverlapExactly | internal/consts/consts.go:339-344 | two suffixes claim a common namespace exactly when one ends in the other |
| UninstallRealms.RealmsFromNamespaces | internal/controller/uninstall.go:502-523 | exactly the realms of the namespaces with the suffix, in namespace order |
| UninstallRealms.MergedMeaning | internal/controller/uninstall.go:445-494 | merging loses no name, doubles none and adds nothing else |
| UninstallRealms.NamespaceReachedExactly | internal/controller/uninstall.go:445-523 | a kukeon namespace is among those purged exactly when a listed realm has it or no listed realm has its realm's name |
| UninstallRealms.RenamedRealmHidesNamespace | internal/controller/uninstall.go:445-494 | one that is not, because its realm's name is listed with another namespace |
| UninstallRealms.CollectRealms | internal/controller/uninstall.go:445-494 | the listed realms come first; names stay unique if the listing's are; every namespace's realm and both well-known realms are covered; nothing else is added; a failed listing counts as empty |
| Uninstall.Host.Release | internal/controller/uninstall.go:531-562 | one error recorded for each mount that stays |
| Uninstall.Host.Uninstall | internal/controller/uninstall.go:228-429 | every run, enumeration included, takes exactly the steps the script gives for the answers and returns the first recorded error |
| Uninstall.GateHolds | internal/controller/uninstall.go:364-374 | mounts, directories and the system user are touched if and only if every realm lost its namespace and the options ask for it |
| Uninstall.PurgesComeFirst | internal/controller/uninstall.go:228-429 | nothing is torn down before the last purge |
| Uninstall.DaemonIsStopped | internal/controller/uninstall.go:264-290 | the daemon is stopped once when a PID file or socket directory is known, and otherwise not |
| Uninstall.CacheBaseIsCleared | internal/controller/uninstall.go:350-362 | and the cache base is cleared once |
| Uninstall.StepsAreInSequence | internal/controller/uninstall.go:228-429 | the daemon is stopped first, each cache goes right after the purge that freed its namespace, each directory right after its mounts were released |
| Uninstall.EveryRealmPurged | internal/controller/uninstall.go:311-348 | whatever fails, every realm is purged once and in order, and caches are reclaimed exactly for the named namespaces that went away |
| Uninstall.SucceedsExactly | internal/controller/uninstall.go:228-429 | no error is returned exactly when every step taken went well; a failed listing does not count |
| Uninstall.FailedListingIsNotReported | internal/controller/uninstall.go:292-303 | the run whose listings fail and that reports no error |
| Uninstall.ErrorsHaveSteps | internal/controller/uninstall.go:228-429 | every error recorded belongs to a step that was taken |
| Mounts.ParseOctalTriplet | internal/controller/unmount.go:186-202 | three octal digits give their byte; anything else, or a value over 255, is refused |
| Mounts.DecodeMountPath | internal/controller/unmount.go:162-180 | valid escapes are undone, everything else passes through |
| Mounts.DecodeUndoesEscape | internal/controller/unmount.go:162-202 | decoding undoes the octal escaping of any set of bytes with the backslash in it, for every byte string |
| Mounts.EscapedIsWord | internal/controller/unmount.go:119-156 | an escaped path is one word exactly when it has no white space procfs leaves alone |
| Mounts.LineFields | internal/controller/unmount.go:119-156 | the fields of a line are those of the escaped source, of the escaped target and of the rest, whatever white space they hold |
| Mounts.FieldIsTargetExactly | internal/controller/unmount.go:119-156 | behind a source of one field the second field is the escaped target under exactly that condition |
| Mounts.SourceShiftsTarget | internal/controller/unmount.go:119-180 | behind a source of two or more fields the source's second is read as the target, and behind one of none the field after the next |
| Mounts.TargetReadsBack | internal/controller/unmount.go:119-180 | and is then read back as the target |
| Mounts.CarriageReturnCuts | internal/controller/unmount.go:119-156 | a target with a carriage return is read back cut short at it |
| Mounts.CarriageReturnTarget | internal/controller/unmount.go:119-156 | for one such target |
| Mounts.CarriageReturnReplaces | internal/controller/unmount.go:119-156 | a source with a carriage return has what follows it read as the target |
| Mounts.CarriageReturnSource | internal/controller/unmount.go:119-156 | for one such source |
| Mounts.NestedFirst | internal/controller/unmount.go:119-156 | in the sort order every mount precedes the mounts it lies below |
| Mounts.ParseMountsUnder | internal/controller/unmount.go:119-156 | refuses the root directory; otherwise exactly the decoded targets at or below the root, with multiplicity, strictly nested ones first |
| Mounts.MatchesAreMounted | internal/controller/unmount.go:119-156 | for a table without such white space these are exactly the mounted targets |
| Cgroups.Kept | internal/ctr/cgroups.go:316-328 | every wanted controller the host has, as often as wanted, and no other |
| Cgroups.IntersectControllers | internal/ctr/cgroups.go:316-328 | computes that, in the order wanted |
| Cgroups.EnabledAllTheWay | internal/ctr/cgroups.go:210-228 | what is enabled in a cgroup is enabled in all of its ancestors |
| Cgroups.DrainConserves | internal/ctr/cgroups.go:154-186 | however far a drain gets, no process is lost, none is in two groups, and the two groups' total is unchanged |
| Cgroups.Hierarchy.RelocateProcessesToLeaf | internal/ctr/cgroups.go:154-186 | succeeds exactly when the leaf is there or can be made, the processes can be read and none of their moves is refused; processes move only from the group to the leaf, all of them on success; a bad leaf name or missing group changes nothing; the kernel's rules hold throughout |
| Cgroups.Hierarchy.MoveAll | internal/ctr/cgroups.go:362-374 | one write a process, stopping at the first refusal |
| Cgroups.Hierarchy.MaybeDrainCgroupNsRoot | internal/ctr/cgroups.go:386-397 | only a caller at a cgroup namespace's root is drained; succeeds exactly when there is none or the drain can be done, and then it no longer sits there |
| Cgroups.Hierarchy.ApplySubtreeControllers | internal/ctr/cgroups.go:270-306 | success enables the set in the group; a settled request changes nothing |
| Cgroups.Hierarchy.EnsureSubtreeControllers | internal/ctr/cgroups.go:210-228 | whenever the kernel is willing it succeeds; success enables every wanted controller the host has on every cgroup from the root to the group, whatever ancestor writes failed; repeated, it changes nothing; on failure controllers are only ever added and processes only ever drained |
| Cgroups.Hierarchy.SettledIsDelegated | internal/ctr/cgroups.go:270-306 | enabling the group's own set is enough for all ancestors |
| Cgroups.Hierarchy.DrainAdmits | internal/ctr/cgroups.go:270-306 | after a full drain only the top-down rule can keep the kernel from enabling a controller |

## Left out

- The command line, viper configuration, shell completion, the build, tty and pause helpers: plumbing over libraries.
- Containerd, CNI, JSON and YAML behaviour: documents are values, and a record is healthy or corrupt. Of decoding a substituted document only this is modelled: a text field whose rewritten scalar reads as a YAML null is left empty.
- Field-by-field conversions between API versions and result reporting: they would only add easy members.
- Directory names: a realm or space name is one path segment, so names that would escape their directory are not modelled.
- Concurrency: the allocator's and the manager cache's locks are not modelled; calls happen one after the other.
- Wall-clock behaviour: warning rate limits and the daemon-stop grace period.
- Invalid UTF-8: a string is a sequence of Unicode characters, except in `Mounts`, where it is a sequence of bytes.
- OutOfSync.DesiredVerdict: how a Config is found and materialises is a parameter here; `ConfigDrift` puts in the scope lookup, the gate, the blueprint lookup and the texts they report. The cell difference stays an arbitrary function of the two bodies.
- ConfigDrift.SettledExactly: the errors of resolving parameters and filling slots behind the gate, and of the steps after materialisation, are each one text that depends on the documents alone, since the code finds them by walking lists in order.
- Reconcile.Pass.ReconcileCell: what the runner's own reconcile decides is arbitrary, as long as it touches its own cell's document only; concurrent writers and the generation check are left out.
- CellStart.StartCell: finding and materialising the lineage Config is one arbitrary answer; injected runner fields are part of it.
- CellStart.Runner.Provision: a volume two mounts ask for in one pass fails for both or for neither.
- CellStart.RequestIsHonoured: which runner error is returned is not modelled, only that one is.
- Cascade.DeleteRunKeeps: cgroups, networks and containers torn down with a document are not modelled; the metadata documents are.
- Cascade.PurgeRealmRunKeeps: the separate result that says whether the containerd namespace is gone is not modelled here; `Uninstall` takes it as an answer.
- Blueprints.MaterializeInline: the random digits of a generated name are given; text fields copied through unchanged are one list of scalars, and lists of texts (arguments, environment, ports), whose null items are the YAML library's affair, are left out of both channels.
- ConfigCells.MaterializeFromConfig: labels, provenance and scope defaults of the cell document are left out; the containers are modelled.
- EnvOverlay.MergeEnv: the slice returned may share its array with the input; the model returns a value.
- Bundles.BundleAppliesExactly: what a document needs is given with it; which field names it, and what a failed document leaves behind, are not modelled.
- OutOfSync.MatchingIsInSync: that the cell difference finds nothing between a body and itself is an assumption here; its field-by-field comparison is not modelled.
- TeamApply.Daemon.ApplyDocuments: of the nine kinds only blueprints and configs change the modelled stores, since they are what the prune reads.
- Uninstall.Host.Uninstall: which mount or file an error names is modelled, its wording is not; the report is the trace of steps.
- Mounts.ParseMountsUnder: the scanner's line length limit and read errors are left out.
- Cgroups.Hierarchy.ToggleControllers: the library's walk over the ancestors is not part of the repository; it is modelled as one write to each proper ancestor, the last of which decides the outcome.
- Cgroups.Hierarchy.ListProcs: processes of another pid namespace, which the kernel lists as 0, and processes that fork or exit during the drain are left out.
- Cgroups.Hierarchy.EnsureSubtreeControllers: the group is a path that the library's validation accepted, or none; `EnableCellAllSubtreeControllers` differs only in taking the host's whole set and has no member of its own.
