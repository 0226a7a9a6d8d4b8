# Waxlight: the protocols that keep user data consistent

Waxlight is a desktop launcher. This project models its small protocols over shared state and proves what
they promise in every run: that moving the data folder never loses data, that a game and a destructive
operation never share an instance, that a download that is paused comes back whole, that an install plan is
what its requirements ask for, that recovery restores what once worked, and when stored sessions stay
accounted for. The disk, the network, the catalog and the key ring are abstract: maps whose steps may fail, be
delayed, or be the last one before the process dies.

## What is modelled

- **Moving the data root** (`FileTree`, `Relocation`, `RelocationSteps`, `RelocationSafety`,
  `RelocationManager`, `RelocationRuns`). A disk is a map from paths to nodes and four marker files. Every
  disk call of `PrepareRelocation`, `Run`, `PrepareStartup`, `finishPending`, `FinalizePrevious` and the
  cleanups is one step of the class `Manager` that may work, fail or be cut off, a file copy also half way.
- **Downloads** (`DownloadManager`, `Resume`). The shared limit with its replaced wake channel, as a class
  and as a state machine over all interleavings; and the byte level of one request: retries, Range, append or
  truncate, checksum, rename, under any schedule of pauses. Servers behave as sections 14.2, 15.3.7 and
  15.5.17 of RFC 9110 say, and may ignore Range.
- **Mutual exclusion** (`MutationGate`, `InstanceSlots`, `Exclusion`). The relocation gate with the flows that
  hand their pass to a goroutine; the per-instance slot and the registry of games, with guards, locks,
  restores and launches interleaved at every critical section.
- **Mods** (`ModDeletion`, `Text`, `Requirements`, `Resolver`, `InstallPlans`, `ReplacementExample`,
  `Conflicts`, `ResolutionFailures`, `PlanInstallation`, `ModReconciliation`, `LostFiles`). The deletion worklist,
  the recursive dependency resolver over version requirements as text, the installation of its plan, and the
  reconciliation of records with files.
- **Operations** (`Operations`, `OperationRuns`). Keyed workers with cancel, delete, clear, startup and
  shutdown.
- **Snapshots and recovery** (`SnapshotMods`, `SnapshotRestore`, `Comparison`, `LastKnownGood`). Manifests and
  their comparison, the restore round trip, the difference that is reported, and any history of recording,
  deletion, retention and recovery.
- **Sessions** (`Credentials`, `SessionRuns`, `SessionExamples`, `CredentialMigration`). The commit and the removal
  of a session with the journal, as calls stopped at any step and as interleavings of their steps, and the
  migration of the legacy file.
- **Game log** (`GameLog`). The chunked tailer and its rate limit.

Classes hold the fields that the program's objects update, and each method is proved against a function of the
old state. The theorems are about those functions: over one call, over whole runs, and over every interleaving.

## Where the code falls short of its promise

Each of these has a concrete input or run, and the exact condition under which the promise holds.

- A crash between the rename and the recorded commit of a move, a second one after the pointer is written and a
  third one while the database is copied again let the next start come up on a torn database if that start
  cannot see the old root (`RelocationRuns.LimboIsReachable`, `RelocationRuns.LimboStartIsCompleteIff`). The old
  root still holds everything then. If the second crash came after the old root was recorded too, the cleanup
  behind that start removes it, and everything is lost (`RelocationRuns.LimboLosesTheData`,
  `RelocationRuns.CleanupAfterLimboIff`).
- A failed cleanup can leave a finalize marker with its copy while the launcher goes on with the old root; what
  is stored then outside the database is lost at the next start, and a database file that was dropped comes back
  (`RelocationRuns.StaleCopyExample`, `RelocationRuns.FinalizeReproducesIff`).
- Removing a mod together with one of its own dependencies stops half way (`ModDeletion.ChosenDependencyExample`,
  `ModDeletion.CompletesIffNoChosenModIsADependency`).
- A download paused after its last byte fails when it is resumed (`Resume.PausedAtTheEndExample`,
  `Resume.PausesFailIff`), although the manager's comment says that a pause never reaches the caller.
- The second release of a restore can free the reservation of the next operation, and a game can start on an
  instance that is being changed (`Exclusion.RestoreExample`, `Exclusion.ReleaseFreesAnotherIff`), although the
  slot's comment says that a stale release never frees a newer operation.
- A cancel accepted between the registration of an operation and a refused hand-over waits for ever
  (`OperationRuns.UnansweredCancelExample`, `OperationRuns.CancelIsAnsweredIff`).
- Conflicting requirements on a shared dependency resolve successfully to a plan that meets only the last one
  (`ReplacementExample.ConflictGoesUnnoticed`, `Conflicts.PlanMeetsEverythingIff`); a condition on the catalog
  rules that out (`Conflicts.AgreeableCatalogHasNoConflict`).
- A dependency whose exact release is installed but switched off counts as installed and stays off
  (`PlanInstallation.InstalledPlanIsMetIff`); a mod loses its record if the new one cannot be saved
  (`PlanInstallation.RecordIsLostIff`).
- A mod record can lose its file to an earlier record with the same file name
  (`ModReconciliation.LostFileExample`, `LostFiles.OwnFileIsKeptIff`).
- Retention can remove a snapshot that a launch has just made the recovery snapshot, and it removes the recovery
  snapshot itself when it cannot read the marker (`LastKnownGood.RetentionRaceExample`,
  `LastKnownGood.FailedReadExample`, `LastKnownGood.RetentionRemovesReferenceIff`).
- A restored mod set differs from the snapshot's if an identifier contains a colon or the catalog renamed the
  version (`SnapshotRestore.RoundTripIff`); a mod list with one mod in two versions differs from itself
  (`SnapshotMods.SameAsItselfIff`); a game version that was not recorded hides its change (`Comparison.EmptyIff`).
- A session is forgotten if a new account cannot be saved, the rollback fails and the journal is cleared all the
  same (`Credentials.CommitKeepsCoverIff`), and without any failure if a removal overlaps a login to the same account
  or another removal of it (`SessionExamples.OverlappingLoginExample`, `SessionExamples.TwoRemovalsExample`,
  `SessionRuns.SessionsStayCoveredIff`, `SessionRuns.RemovalLosesSessionIff`); a removed account comes back if a
  logout or a validation saves it after the removal (`SessionExamples.RemovedAccountComesBackExample`,
  `SessionRuns.AccountComesBackOnlyIfSaved`, `SessionRuns.OnlySavingBringsBack`); a retried migration replaces newer sessions
  (`CredentialMigration.RetryReplacesNewerSession`, `CredentialMigration.SessionsAreKeptIff`).
- Two restored mods whose downloads have one file name overwrite each other
  (`SnapshotRestore.EachHasItsFileIff`).
- The tailer's last tick reads one chunk only (`GameLog.LastTickHandsOverAllIff`). The limiter's constant is 50 lines
  a second, and windows start at any time, hence the bound of 100.

## Hypotheses

- Relocation: markers are written atomically; the old process has exited before finishing starts; markers name a
  copy target; `RemoveAll` of the staged copy removes all of it or nothing; the staged directory's name is new;
  a move's target is not empty and clear of a leftover staged copy, and a previous root that lies inside a
  leftover copy is not removed. While a finalize marker waits the application may change its database at any time,
  but stores nothing else, and drops no database file that a leftover copy has. Rewriting the paths in a torn
  database does not make it whole.
- Resuming: the content behind a URL is fixed, a response ends only after its whole body, nobody else writes the
  partial file, and a server that accepts a request sends a representation.
- Exclusion: markers are not empty; launches and guards follow the steps of the coordinator.
- Operations: identifiers are unique, and only a worker stores its operation as finished, so a stored operation
  that can be deleted has begun.
- Deletion: reading records and archives, the safety snapshot, and removing files and records do not fail.
- Resolver: the catalog writes the identifier of one mod in one way, letter case aside; the ranking of semantic
  versions is a total preorder of the valid ones.
- Reconciliation: scanned paths are clean and distinct, new identifiers are new, and the file name of a record and
  of a file is the last part of its path.
- Snapshots: identifiers are never used twice and a manifest never changes once it is in place.
- Credentials: a failed write stores nothing, the journal is written atomically, and new account identifiers are
  new. In `Credentials` calls run one after another; in `SessionRuns` they overlap.

## Model

| member | source | states |
|---|---|---|
| `FileTree.SubpathIsPrefix` | internal/platform/dataroot/dataroot.go:676-682 | the textual test for "inside" agrees with the path being a proper extension, for clean paths |
| `RelocationSafety.UsableTarget` | internal/platform/dataroot/dataroot.go:153-201 | a target is accepted if and only if it nests with the current root in neither direction and is a missing or empty directory |
| `RelocationSafety.StagedBeside` | internal/platform/dataroot/dataroot.go:235-242 | the staged directory made beside a usable target nests with neither root, so the three roots of a move are pairwise apart |
| `Relocation.FinishedHolds` | internal/platform/dataroot/dataroot.go:443-511 | when a finalize marker is faithful, a finished move leaves both the old and the new root holding all data and the whole database |
| `RelocationSteps.WriteDatabaseFile` | internal/platform/dataroot/dataroot.go:473-483 | a database file written, even torn, changes nothing about where finishing again ends, and keeps the old root complete |
| `RelocationSteps.ReplaceTarget` | internal/platform/dataroot/dataroot.go:485-492 | removing or recreating the empty target keeps the outcome of finishing |
| `RelocationSteps.MoveIntoPlace` | internal/platform/dataroot/dataroot.go:488-494 | the rename moves the whole staged tree, and finishing from there ends where finishing from before it would |
| `RelocationSteps.AfterTheMove` | internal/platform/dataroot/dataroot.go:499-509 | writing the pointer, the previous root or removing the owner note after the rename keeps the outcome of finishing |
| `RelocationSafety.ReadyToFinalize` | internal/platform/dataroot/dataroot.go:302-311 | turning the marker to finalize is safe once the copy, less the database, equals the old root and carries its owner note |
| `RelocationSafety.RemovedApart` | internal/platform/dataroot/dataroot.go:515-532 | removing a tree apart from the current root leaves a running launcher complete |
| `RelocationManager.Manager.FinishPending` | internal/platform/dataroot/dataroot.go:443-511 | success equals one uninterrupted run; a failure or crash at any step leaves the disk safe and finishing resumable; without faults it succeeds exactly if it can, and otherwise touches the staged copy only |
| `RelocationManager.Manager.PrepareStartup` | internal/platform/dataroot/dataroot.go:333-374 | a root returned by a successful start holds everything, except after a crash before the commit was recorded; then the old root still holds everything, nothing but the staged copy, the marker and the error note changed, and the disk is safe while the marker is there. Without faults the outcome is exact for every marker: none, a copy and an unknown phase come up on the current root exactly if it exists, with the staged copy of a copy gone and its marker cleared; a finalize ends as the finished move if it can, and otherwise refuses, or keeps the old root if it does not know the copy was moved |
| `RelocationManager.Manager.PrepareRelocation` | internal/platform/dataroot/dataroot.go:218-248 | the current root stays complete whatever fails; without faults it succeeds exactly for a usable target whose staged directory can be made, which is then there with its marker and nothing else has changed |
| `RelocationManager.Manager.EnsureTargetWritable` | internal/platform/dataroot/dataroot.go:255-276 | probing a target changes nothing outside it; without faults it succeeds, the target exists and the probe is gone |
| `RelocationManager.Manager.Run` | internal/platform/dataroot/dataroot.go:279-321 | the current root stays complete at every step, while the open database is written and dropped all along, also behind the finalize marker; without faults it succeeds exactly if nothing came into the target and the note's name is free, and then leaves the claimed copy and the finalize marker, but for the database nothing else |
| `RelocationManager.Manager.DatabaseActivity` | internal/platform/dataroot/dataroot.go:302-321 | any number of database files written or removed, before or behind a finalize marker, keep the launcher complete and change nothing else, as long as no staged copy has the removed file |
| `RelocationSafety.DatabaseChanged` | internal/platform/dataroot/dataroot.go:473-483 | each such change on its own, also while a staged copy waits to be finalized |
| `RelocationManager.Manager.CleanupFailedRelocation` | internal/platform/dataroot/dataroot.go:592-601 | cleaning up after a failed move keeps the current root and the pointer; without faults exactly the staged copy and the marker are gone and the error is noted |
| `RelocationManager.Manager.FinalizePrevious` | internal/platform/dataroot/dataroot.go:400-430 | rewriting paths and removing the previous root leave the current root complete, unless the previous root lies inside a leftover copy; without faults the outcome is exactly the specified one, on any disk |
| `RelocationSafety.TidiedMeaning` | internal/platform/dataroot/dataroot.go:400-430 | path by path, what a cleanup without faults leaves |
| `RelocationManager.Manager.RemoveOldRoot` | internal/platform/dataroot/dataroot.go:515-532 | nothing under the current root changes, byte for byte; of the home only the listed names go, any other root goes whole |
| `RelocationRuns.AnyHistory` | internal/platform/dataroot/dataroot.go:279-531 | over any number of starts, stores, database changes, moves and cleanups, each cut off anywhere, a complete copy exists and every root a start returned was complete, up to the first start that gives up in limbo and does not come back whole; after that one the old root holds everything |
| `RelocationRuns.CrashThenRestart` | internal/platform/dataroot/dataroot.go:443-511 | after any number of crashes at any step, a fault-free run gives the pointer, previous root, contents and cleared marker of an uninterrupted one |
| `RelocationRuns.WholeMove` | internal/platform/dataroot/dataroot.go:218-374 | a move without faults, from choosing the target to the next start, comes up complete: on the target if there was a database to hand over, on the old root otherwise |
| `RelocationRuns.FinalizeReproducesIff` | internal/platform/dataroot/dataroot.go:443-511 | finalizing reproduces the old root if and only if the staged copy still equals it outside the database and has no database file the old root lost |
| `RelocationRuns.LimboStartIsCompleteIff` | internal/platform/dataroot/dataroot.go:358-367 | a start that gives up before it knows the copy was moved returns a complete root if and only if the database files there are intact |
| `RelocationRuns.LimboIsReachable` | internal/platform/dataroot/dataroot.go:488-502 | three crashes lead from any staged move to such a start with a torn database, with or without the old root recorded for removal |
| `RelocationRuns.CleanupAfterLimboIff` | internal/platform/dataroot/dataroot.go:400-430 | cleaning up behind such a start keeps a complete copy if and only if the database files of the new root are intact or the old root is not the recorded one |
| `RelocationRuns.LimboLosesTheData` | internal/platform/dataroot/dataroot.go:333-430 | the start that does not see the old root returns the torn one, and the cleanup behind it leaves no complete copy |
| `RelocationRuns.StaleCopyExample` | internal/platform/dataroot/dataroot.go:592-627 | a store behind a waiting finalize marker is lost on the next start |
| `ModDeletion.ModDeletionSet` | internal/mods/service.go:524-564 | the worklist returns, without repetition, the least set that holds the target and every mod provided only to members |
| `ModDeletion.NeedsIff` | internal/mods/service.go:524-564 | a mod needs what its archive lists, unless that is the game itself |
| `ModDeletion.StillRequiredByOther` | internal/mods/service.go:566-583 | true exactly when a mod outside the set requires the identifier |
| `ModDeletion.LeastClosedIsUnique` | internal/mods/service.go:524-564 | the set does not depend on the order of records or of map iteration |
| `ModDeletion.SurvivorsKeepTheirDependencies` | internal/mods/service.go:524-583 | no survivor requires a deleted mod other than the target |
| `ModDeletion.UnionKeepsDependencies` | internal/mods/service.go:420-484 | the same for the union of the sets of several chosen mods |
| `ModDeletion.RemoveMods` | internal/mods/service.go:420-484 | what is rejected, what is deleted, and that the removal stops at the first mod that occurs twice |
| `ModDeletion.OverlapMeansOneHoldsTheOther` | internal/mods/service.go:420-484 | two deletion sets overlap only if one chosen mod is in the set of the other |
| `ModDeletion.CompletesIffNoChosenModIsADependency` | internal/mods/service.go:420-484 | a removal with dependencies completes if and only if no chosen mod is in the deletion set of another |
| `ModDeletion.ChosenDependencyExample` | internal/platform/sqlite/mods.go:68-77 | choosing a mod together with its own dependency aborts the removal half way |
| `DownloadManager.Manager.TryAcquire` | internal/platform/downloader/manager.go:126-137 | a slot is granted exactly below the limit; otherwise the current wake channel is returned |
| `DownloadManager.Manager.SetLimit` | internal/platform/downloader/manager.go:75-91 | the limit is at least one; nothing is cancelled if no more are running, and otherwise exactly as many as leave the limit; every waiter is woken |
| `DownloadManager.Manager.Finish` | internal/platform/downloader/manager.go:105-109 | the slot is returned and every waiter is woken |
| `DownloadManager.StepKeepsInvariant` | internal/platform/downloader/manager.go:75-153 | every critical section keeps the count, the limit on transfers that are not cancelled, and that no parked waiter misses a free slot |
| `DownloadManager.LimitHolds` | internal/platform/downloader/manager.go:75-153 | in every interleaving running is the number of transfers, at most limit of them are not cancelled, and with a free slot every parked waiter can go on |
| `DownloadManager.PausesStayInside` | internal/platform/downloader/manager.go:96-124 | a cancellation reaches the caller only if the caller withdrew; a paused transfer goes back to waiting |
| `DownloadManager.CallerGets` | internal/platform/downloader/manager.go:104-124 | what the caller gets for each end of a transfer |
| `DownloadManager.WaitersAreServed` | internal/platform/downloader/manager.go:96-153 | in every reachable state with a free slot a task that waits, parked or not, can run to its end, which gives the slot back |
| `DownloadManager.OnlyLoweringPauses` | internal/platform/downloader/manager.go:72-91 | over any run a transfer is paused only if the limit went below what was running |
| `DownloadManager.LoweringPausesTheExcess` | internal/platform/downloader/manager.go:75-91 | and then no more of them than have to be |
| `Resume.RequestIsBounded` | internal/platform/downloader/http.go:181-217 | the answer is the first one among at most three tries; three silences fail |
| `Resume.HttpDownloader.DoDownloadRequest` | internal/platform/downloader/http.go:181-217 | the retry loop computes that answer |
| `Resume.HttpDownloader.CopyBody` | internal/platform/downloader/http.go:95-131 | the copy loop appends, stops and removes as the specification of one attempt says |
| `Resume.HttpDownloader.Download` | internal/platform/downloader/http.go:43-151 | one attempt changes the partial and destination files exactly as specified |
| `Resume.StartAndBodyAreTheContent` | internal/platform/downloader/http.go:60-84 | resumed or restarted, where the copy begins and what it appends make up the content |
| `Resume.AttemptKeepsFiles` | internal/platform/downloader/http.go:60-150 | the partial file stays a prefix; the destination changes only on success, to exactly the content |
| `Resume.RunDownload` | internal/platform/downloader/manager.go:96-124 | the loop over attempts computes the logical download |
| `Resume.LogicalDownload` | internal/platform/downloader/manager.go:96-124 | for any schedule of pauses and faults: prefix kept, success means exactly the content, only a withdrawn download ends as cancelled |
| `Resume.TooLargeIff` | internal/platform/downloader/http.go:74-108 | when nothing else fails a download ends as too large if and only if the content is larger than a positive maximum, and the destination is untouched |
| `Resume.ResumeFailsIff` | internal/platform/downloader/http.go:60-84 | an attempt that only pauses disturb is refused with status 416 if and only if it resumes a complete file; otherwise it succeeds or pauses without losing a byte |
| `Resume.PausesFailIff` | internal/platform/downloader/manager.go:96-124 | pauses alone make a download fail if and only if one came after the last byte and before the end of the body was seen |
| `Resume.PausedAtTheEndExample` | internal/platform/downloader/http.go:61-76 | a two-byte download that fails because it was paused there |
| `MutationGate.Gate.Begin` | internal/mutations/gate.go:17-25 | a pass is given exactly while nothing relocates |
| `MutationGate.Gate.End` | internal/mutations/gate.go:27-33 | the count goes down unless it is zero |
| `MutationGate.Gate.BeginRelocation` | internal/mutations/gate.go:36-44 | relocation begins exactly when no pass is out |
| `MutationGate.InstallCatalog` | internal/versions/catalog.go:42-112 | the pass is released on every path but the one that hands it to the worker |
| `MutationGate.Move` | internal/settings/dataroot.go:65-118 | the gate stays shut exactly after a move that succeeded |
| `MutationGate.ReleaseIsExact` | internal/mutations/gate.go:27-50 | a release that is owed always finds the gate as its flow left it, so it is never ignored and never opens the gate for another move |
| `MutationGate.StepKeepsInvariant` | internal/mutations/gate.go:17-50 | every step of every flow keeps the count equal to the passes out, and relocation apart from them |
| `MutationGate.RelocationIsAlone` | internal/settings/dataroot.go:65-118 | in every run, while the folder moves no mutation, game or install is underway |
| `MutationGate.NestedBeginSucceeds` | internal/mutations/gate.go:17-25 | under an outstanding pass a nested mutation is let in and a move is turned away |
| `MutationGate.EveryPassIsReturnedOnce` | internal/versions/catalog.go:42-112 | on every path of a launch, an install or a move, also after the hand-off to a goroutine, a pass is released exactly once, or the folder has moved; and a pass that is out can make progress |
| `MutationGate.FlowRunsThrough` | internal/versions/catalog.go:42-112 | what a flow comes to when nothing overlaps it: turned away exactly while the folder moves, a move also while a pass is out; otherwise it passes, and only a move that succeeds leaves the gate changed |
| `InstanceSlots.Slot.TryAcquire` | internal/mutations/slot.go:23-34 | the slot is taken only when free, and otherwise its holder is returned |
| `InstanceSlots.Slot.Release` | internal/mutations/slot.go:36-43 | only a matching marker is cleared |
| `InstanceSlots.Registry.Guard` | internal/launching/registry.go:62-76 | rejected for a running game or a held slot, otherwise the slot is taken |
| `InstanceSlots.Registry.Lock` | internal/launching/registry.go:82-88 | rejected for a held slot, otherwise the slot is taken, game or not |
| `InstanceSlots.Registry.ClientRunning` | internal/launching/registry.go:103-112 | true exactly when some running game has that client |
| `Exclusion.StepKeepsInvariant` | internal/launching/registry.go:55-134 | every atomic step of guards, locks, restores and launches keeps the invariant, if its release disturbs nobody |
| `Exclusion.StepKeepsGames` | internal/launching/coordinator.go:252-481 | every step, disturbing or not, keeps the part of it that is about games |
| `Exclusion.OneThingAtATime` | internal/launching/coordinator.go:252-481 | in every interleaving without a disturbing release no guarded operation shares an instance with a game, and an instance has one operation at most |
| `Exclusion.OneGameAtATime` | internal/launching/coordinator.go:252-481 | in every interleaving at all an instance has one game at most, the registry names exactly the games that are played, and one exclusive Optimum game runs at most |
| `Exclusion.StopRemovesItsOwn` | internal/launching/registry.go:129-134 | in every interleaving the entry that is removed when a game exits is its own |
| `Exclusion.LockSucceeds` | internal/launching/registry.go:82-88 | a plain lock needs a free slot only, not the launch mutex, and a game does not matter; giving it back frees the slot |
| `Exclusion.ReleaseFreesAnotherIff` | internal/mutations/slot.go:36-43 | a release frees the slot of another operation at work if and only if that one uses the same marker on the same instance |
| `Exclusion.OnlyRestoresDisturb` | internal/snapshots/restore.go:33-37 | only the second release of a restore can do that |
| `Exclusion.RestoreExample` | internal/snapshots/restore.go:82 | a run in which it happens and a game starts on an instance that is being changed |
| `Operations.Manager.Reserve` | internal/operations/operations.go:259-267 | an empty key is free, any other only if no operation has it |
| `Operations.Manager.BeginWorker` | internal/operations/operations.go:288-306 | the body runs if its entry is still there, with its context cancelled at once if that was asked |
| `Operations.Manager.EndWorker` | internal/operations/operations.go:308-318 | the entry turns inactive and the key is freed |
| `Operations.Manager.RequestCancel` | internal/operations/operations.go:175-184 | accepted exactly for an active entry |
| `Operations.Manager.Clear` | internal/operations/operations.go:160-172 | exactly the inactive entries are forgotten |
| `Operations.Lifecycle.Go` | internal/app/lifecycle.go:44-63 | work is taken exactly between startup and shutdown |
| `OperationRuns.StepKeepsInvariant` | internal/operations/operations.go:175-328 | every critical section keeps keys, entries, cancels, closings and the worker count consistent |
| `OperationRuns.StartReserves` | internal/operations/operations.go:259-267 | a start is refused if and only if another operation has its key, and reserves it otherwise |
| `OperationRuns.ForgettingForgets` | internal/operations/operations.go:146-172 | deleting forgets one finished operation, clearing all of them and every entry that is not at work |
| `OperationRuns.WorkersAreExclusive` | internal/operations/operations.go:249-328 | in every interleaving: one worker at most per non-empty key, an accepted cancel has cancelled the context of a running worker, done is closed once and then the key is free |
| `OperationRuns.DoneKeyIsFree` | internal/operations/operations.go:308-318 | who sees done can start with the same key, unless a third operation came first |
| `OperationRuns.ResultIsFinal` | internal/operations/operations.go:237-245 | what a waiter reads after done never changes |
| `OperationRuns.ResultIsTheWorkers` | internal/operations/operations.go:308-318 | and it is what the worker of that operation returned |
| `OperationRuns.CancelledOnlyIfAsked` | internal/operations/operations.go:175-195 | a context is cancelled only if a cancel of that operation was asked |
| `OperationRuns.NothingRunsAfterShutdown` | internal/app/lifecycle.go:67-76 | after Shutdown returned no worker runs or can start, in any continuation |
| `OperationRuns.CancelIsAnsweredIff` | internal/operations/operations.go:175-195 | an accepted cancel can be answered if and only if the lifecycle has taken the worker or still may |
| `OperationRuns.UnansweredCancelExample` | internal/operations/operations.go:288-326 | a cancel that waits for ever: accepted after registration, before a refused hand-over |
| `Requirements.RequirementMeaning` | internal/mods/semver.go:111-150 | for each operator, and any white space before, between and after, the comparison of the two versions it stands for; a plain version means at least |
| `Requirements.UnrankedMeaning` | internal/mods/semver.go:129-134 | texts that are no semantic versions satisfy only "=" and "==", and only if they are the same up to letter case |
| `Requirements.AnyVersionMeaning` | internal/mods/semver.go:112-115 | no requirement and "*" are satisfied by every version |
| `Requirements.NormalizedMeaning` | internal/mods/semver.go:153-165 | white space around a version and a missing "v" do not matter |
| `Resolver.WantedIff` | internal/mods/download.go:70-77 | exactly the dependencies on the game itself are skipped |
| `Resolver.FoundReleaseQualifies` | internal/mods/semver.go:14-64 | the release found is listed, has an https address and satisfies the requirement; it fits every target if any such release does, and always unless that was waived; nothing is found only if none qualifies |
| `Resolver.InstalledEverywhereIff` | internal/mods/download.go:382-408 | a dependency counts as installed if and only if there is a target and every one has a version of it that satisfies the requirement |
| `Resolver.CatalogService.ResolveAndDownload` | internal/mods/download.go:29-164 | the recursion computes the specified plan or error and restores what is being visited; it terminates on every finite catalog |
| `Resolver.CatalogService.ResolveDependencies` | internal/mods/download.go:80-154 | the loop over dependencies computes its specification |
| `Resolver.CatalogService.AddRequirement` | internal/mods/download.go:410-417 | the requirement goes to the first item of that mod |
| `Resolver.CatalogService.RemoveFromPlan` | internal/mods/catalog.go:529-538 | exactly the items of that mod are dropped, in order |
| `InstallPlans.PlanIsSound` | internal/mods/download.go:29-164 | a successful plan has one item for each resolved mod, each with a listed release that satisfies every requirement recorded on it, replacements included, and ends with the only root; for a catalog that writes one identifier per mod |
| `InstallPlans.PlanIsOrdered` | internal/mods/download.go:80-163 | without a replaced dependency the plan is a topological order: each dependency comes earlier with a satisfying release or is installed everywhere |
| `ReplacementExample.ConflictGoesUnnoticed` | internal/mods/download.go:101-110 | two branches that need different releases of a shared dependency resolve successfully to a plan that satisfies only one |
| `Conflicts.PlanMeetsEverythingIff` | internal/mods/download.go:80-163 | the plan meets every dependency of every planned mod if and only if each shared dependency that gave way ended with a release that suits all its planned dependents |
| `Conflicts.AgreeableCatalogHasNoConflict` | internal/mods/download.go:80-163 | if any two dependencies that listed releases have on one mod accept the release found for the other, no dependency gives way, the plan is ordered and meets everything, whatever mod is asked for |
| `ResolutionFailures.FailureHasReason` | internal/mods/download.go:29-164 | a resolution fails only for a reason in the catalog, which its error names: no identifier, a circle of dependencies, a release that cannot be fetched, an unknown dependency, or one that no release answers |
| `Conflicts.UnsafeIdentifierIsRefused` | internal/mods/download.go:182-185 | a mod whose identifier is blank or cannot name a directory is never planned |
| `ReplacementExample.SpellingExample` | internal/mods/catalog.go:529-538 | a run whose plan has two items for one mod, because the catalog wrote its identifier with a space the second time |
| `PlanInstallation.Instance.InstallDownloadedMod` | internal/mods/download.go:421-490 | an older release is replaced, the same one is left as it is; a failure changes no record unless the new one could not be saved, and then the older one is gone |
| `PlanInstallation.AttemptMeaning` | internal/mods/download.go:421-490 | what each end of an installation leaves: the very release stays as it is, another one is replaced by a new, enabled record |
| `PlanInstallation.RecordIsLostIff` | internal/mods/download.go:459-489 | a mod with a record is left without one if and only if saving the new record failed after its only one was deleted |
| `PlanInstallation.Instance.InstallModPlan` | internal/mods/download.go:348-380 | the loop over the plan computes its specification |
| `PlanInstallation.PlanSucceeds` | internal/mods/download.go:348-380 | a plan with a root is installed if every installation goes through, and only a plan with a root counts as installed |
| `PlanInstallation.ServedIff` | internal/mods/download.go:383-408 | a dependency is taken for installed if and only if an enabled release of its mod meets every requirement recorded on it |
| `PlanInstallation.InstalledPlanIsMetIff` | internal/mods/download.go:348-408 | after an installed plan the instance has, for every item, an enabled release that meets all its requirements, if and only if it did not have the item's own release before, switched off |
| `ModReconciliation.FindDiscoveredMod` | internal/mods/service.go:176-192 | the first unmatched file at the path, else the first with the name, else none |
| `ModReconciliation.ModService.ListMods` | internal/mods/service.go:81-161 | matched records are updated, unmatched ones deleted, left-over files get records, and a scan in which no save and no delete fails succeeds; a missing directory changes nothing |
| `ModReconciliation.AssignmentIsSound` | internal/mods/service.go:110-131 | no file is matched twice, and a match has the path or the name of its record |
| `ModReconciliation.ScanGivesBijection` | internal/mods/service.go:110-160 | afterwards records and files correspond one to one, records that stay keep identity, name, version and source, and new ones are unmanaged local records of their files |
| `ModReconciliation.SecondScanChangesNothing` | internal/mods/service.go:110-160 | a second scan of an unchanged disk leaves the records as they are |
| `ModReconciliation.OwnFileUnlessTaken` | internal/mods/service.go:176-192 | a record whose file is still in place gets it unless an earlier record took it, and then by name |
| `LostFiles.WhoIsTaken` | internal/mods/service.go:110-131 | which files the first records take, told from records and files alone: those at their paths, and of each name the first free ones, one for each record without a file of its own |
| `LostFiles.OwnFileIsKeptIff` | internal/mods/service.go:176-192 | a record keeps the file at its path if and only if the earlier records of that name without one are no more than the files of that name that come first and belong to none of the earlier records |
| `LostFiles.OwnFileIsKept` | internal/mods/service.go:176-192 | so it keeps it if no earlier record of the same file name lacks one, and with distinct file names only then |
| `ModReconciliation.LostFileExample` | internal/mods/service.go:112-119 | a record is deleted although its file exists |
| `Text.SplitIsInverse` | internal/snapshots/service.go:657-663 | splitting at a separator and joining again gives the text back, and no part holds the separator |
| `SnapshotMods.MarkerRoundTripIff` | internal/snapshots/service.go:657-669 | a source marker reads back as written if and only if both identifiers are non-empty and free of colons |
| `SnapshotMods.ParsedMarkerIsWhole` | internal/snapshots/service.go:657-669 | a marker that is read is written back unchanged |
| `SnapshotMods.ValidateMods` | internal/snapshots/service.go:635-652 | passes exactly the lists whose every entry can be downloaded |
| `SnapshotMods.SameKeyIff` | internal/snapshots/service.go:606-619 | which entries are one mod: catalog mods by identifier, others by name or file name, never one of each |
| `SnapshotMods.SameModSet` | internal/snapshots/service.go:590-604 | decides the comparison of two lists |
| `SnapshotMods.SameModsMeansSameMap` | internal/snapshots/service.go:590-619 | with distinct identities the comparison is equality of identity-to-version maps |
| `SnapshotMods.SameAsItselfIff` | internal/snapshots/service.go:590-604 | a list equals itself if and only if entries with one identity agree on the version |
| `SnapshotMods.OrderOnTheRightIsFree` | internal/snapshots/service.go:590-604 | the order of the compared list does not matter |
| `SnapshotMods.ModManifest` | internal/snapshots/service.go:370-413 | field by field, what the entry of each installed mod is: its own record, with the metadata of the cached release where there is some |
| `SnapshotMods.InstalledKeyMatchesIff` | internal/recovery/compare.go:85-96 | the key of an installed record is that of its manifest entry if and only if its catalog identifier is trimmed |
| `SnapshotRestore.RestoreSnapshotMods` | internal/snapshots/restore.go:388-447 | succeeds exactly when every download does, and then returns the snapshot's entries, in any order; the file of an enabled one is staged in Mods, that of a disabled one in ModsDisabled |
| `SnapshotRestore.EachHasItsFileIff` | internal/snapshots/restore.go:478-486 | every entry ends with its own file if and only if no two entries bring different files of one name to one directory |
| `SnapshotRestore.RebuildInstanceMods` | internal/snapshots/restore.go:509-562 | success leaves exactly the records of the restored files, each of which is there |
| `SnapshotRestore.RecordsSayWhereFilesAre` | internal/snapshots/restore.go:509-562 | a rebuilt record is enabled if and only if its file is in Mods, and names the staged file |
| `SnapshotRestore.EntryComesBack` | internal/snapshots/service.go:370-413 | after a restore the manifest entry is enabled as before, with its identifiers, and its checksum and file name as far as the cache knows the release |
| `SnapshotRestore.RoundTripIff` | internal/snapshots/restore.go:388-562 | for any order of downloads the rebuilt manifest is the snapshot's mod set if and only if every entry's identifiers can be printed and the catalog still names its release by the recorded version |
| `SnapshotRestore.Directories.Swap` | internal/snapshots/restore.go:279-302 | which renames worked decides the three directories: the instance is replaced whole, kept in place, or set aside whole |
| `Comparison.CompareConfigurations` | internal/recovery/compare.go:15-70 | every update, addition and removal is reported once under its name and nothing else |
| `Comparison.DifferenceIsComplete` | internal/recovery/compare.go:40-64 | the reported difference applied to the recorded versions gives the current ones, and is empty only if they agree |
| `Comparison.ReportSays` | internal/recovery/compare.go:40-90 | what is said of one mod: both versions or the one that is there, and the name the instance shows or its own |
| `Comparison.EmptyIff` | internal/recovery/models.go:53-64 | empty if and only if the mod sets are the same and the game versions agree or none was recorded |
| `LastKnownGood.FindMatchingSnapshot` | internal/recovery/service.go:99-118 | the search computes the newest match |
| `LastKnownGood.NewestIsFirst` | internal/recovery/service.go:99-118 | that is the first listed snapshot of the instance with this version and mod set that can be restored, or none is |
| `LastKnownGood.MatchesIff` | internal/recovery/service.go:99-118 | a snapshot matches if and only if it is readable, of the instance and the game version, has the same mod set, and each of its mods can be downloaded |
| `LastKnownGood.LaunchIsRecorded` | internal/recovery/service.go:54-84 | a recorded launch leaves its game version and mods with a link to the newest match; a failed save changes nothing |
| `LastKnownGood.DeletionClearsTheReference` | internal/recovery/service.go:190-207 | deleting a snapshot takes that one alone and clears the reference to it, and no other |
| `LastKnownGood.Storage.EnforceRetention` | internal/snapshots/service.go:493-521 | manual, unreadable and protected snapshots survive, and of the others those with fewer newer ones than are kept; if no removal fails the rest is gone |
| `LastKnownGood.RetentionListsTheOldest` | internal/snapshots/service.go:493-521 | the same of what a retention lists in any history |
| `LastKnownGood.StepKeepsInvariant` | internal/recovery/service.go:54-220 | every step of recording, deletion, retention and recovery keeps markers linked to what they recorded |
| `LastKnownGood.RecoveryIsRight` | internal/recovery/service.go:179-188 | in any history recovery finds a snapshot exactly when one is there that belongs to the instance, can be restored and has the recorded game version and mod set, and the one the marker refers to if that is one |
| `LastKnownGood.OneRemoval` | internal/snapshots/service.go:509-520 | a removal takes nothing but the next of the surplus, and neither a manual nor the protected snapshot |
| `LastKnownGood.RetentionRemovesReferenceIff` | internal/snapshots/service.go:493-521 | from the moment a retention reads what to protect, over any run: it removes the referenced snapshot if and only if that one is next in its surplus and the read had failed or found another reference; after a read that worked, a launch recorded in between has then linked the marker to one of the surplus |
| `LastKnownGood.RetentionRaceExample` | internal/recovery/service.go:66-84 | a launch recorded in between loses its recovery snapshot |
| `LastKnownGood.FailedReadExample` | internal/recovery/service.go:209-215 | one failed read of the marker loses the recovery snapshot, with no launch in between |
| `Credentials.AccountService.PersistSession` | internal/accounts/persistence.go:64-81 | the commit changes store, accounts and journal as specified for every failure and crash point |
| `Credentials.AccountService.RemoveAccount` | internal/accounts/persistence.go:165-180 | the same for the removal of an account |
| `Credentials.AccountService.LogOut` | internal/accounts/persistence.go:182-204 | the session goes and the account stays |
| `Credentials.AccountService.ClearPending` | internal/platform/credentials/pending.go:41-62 | exactly that entry leaves the journal |
| `Credentials.AccountService.ReconcilePending` | internal/platform/credentials/pending.go:64-87 | the loop over the journal computes its specification |
| `Credentials.CommitKeepsCoverIff` | internal/accounts/persistence.go:58-93 | stopped at any step, every stored session belongs to a saved account or is in the journal, unless the one sequence of failures that forgets it |
| `Credentials.SessionsAreAccountedFor` | internal/accounts/persistence.go:58-180 | over any history of logins, removals, logouts and restarts, one call after another; a reconciliation that finishes leaves only sessions of saved accounts, untouched |
| `SessionRuns.StepKeepsCoverIff` | internal/accounts/persistence.go:19-205 | in any interleaving a step leaves a session without account and journal entry exactly if it clears an entry, deletes an account or puts a session back where the other two are missing |
| `SessionRuns.SessionsStayCoveredAtAllIff` | internal/accounts/persistence.go:19-205 | over any interleaving every session is accounted for at every moment if and only if no such step occurs |
| `SessionRuns.SessionsStayCoveredIff` | internal/accounts/persistence.go:19-205 | if no removal overlaps a login to its account or another removal of it, then at every moment if and only if no commit gives up on the session of a new account |
| `SessionRuns.RemovalLosesSessionIff` | internal/accounts/persistence.go:151-178 | from the moment a removal deletes the session, whatever overlaps it: deleting the account loses a session if and only if one is stored again without a journal entry, and then a commit or another removal stored one in between |
| `SessionExamples.OverlappingLoginExample` | internal/accounts/persistence.go:165-172 | a login during a removal leaves its session without an account, and no call fails |
| `SessionExamples.TwoRemovalsExample` | internal/accounts/persistence.go:168-176 | of two overlapping removals the one that finds the account gone puts the session back; nothing else fails |
| `SessionRuns.AccountComesBackOnlyIfSaved` | internal/accounts/persistence.go:182-245 | an account that is gone is there again only if a commit, a logout or a validation saved it in between |
| `SessionRuns.OnlySavingBringsBack` | internal/accounts/persistence.go:182-245 | and each of these steps brings it back |
| `SessionExamples.RemovedAccountComesBackExample` | internal/accounts/persistence.go:236-245 | an account removed while a validation is about to save it comes back without its session |
| `SessionExamples.StartupCleansUp` | internal/platform/credentials/pending.go:64-87 | a start whose deletions work leaves sessions of saved accounts only, untouched, and no journal |
| `SessionExamples.CommitAlone` | internal/accounts/persistence.go:58-93 | the steps of a commit that nothing overlaps are the commit as one call, stopped at any step |
| `SessionExamples.RemovalAlone` | internal/accounts/persistence.go:165-180 | and so are those of a removal |
| `CredentialMigration.Migrator.Run` | internal/platform/credentials/migration.go:52-96 | imports, verification and erasure in that order, for every failure and crash point |
| `CredentialMigration.MigrationLosesNothing` | internal/platform/credentials/migration.go:52-96 | every legacy secret stays in the source file or is in the store; success stores exactly those secrets and removes the file |
| `CredentialMigration.SecretsSurvive` | internal/platform/credentials/migration.go:52-96 | the same over any number of restarts |
| `CredentialMigration.StatusTellsHowItEnded` | internal/platform/credentials/migration.go:52-96 | the status a run writes down: blocked, retry, cleanup and complete each exactly for their end, complete exactly after success |
| `CredentialMigration.SessionIsKeptIff` | internal/platform/credentials/migration.go:52-96 | a run leaves the session of an account as it was if and only if nothing is imported (file gone or damaged, unreadable, or with unknown accounts), or it stops before that account, or the file has that very session |
| `CredentialMigration.SessionsAreKeptIff` | internal/platform/credentials/migration.go:52-96 | it leaves every session as it was if and only if nothing is imported or every entry stored before it stops equals the stored session |
| `CredentialMigration.RetryReplacesNewerSession` | internal/platform/credentials/migration.go:77-96 | while the file cannot be removed, a retry replaces a session saved since |
| `GameLog.LogFile.ReadChunk` | internal/gamelog/service.go:225-251 | one bounded read, from the start again if the file shrank |
| `GameLog.LogFile.TickFile` | internal/gamelog/service.go:193-223 | one tick hands over the specified lines |
| `GameLog.LinesDoNotDependOnChunks` | internal/gamelog/service.go:193-251 | for a growing log with lines of at most 64 KiB the lines handed over are exactly the complete lines read so far |
| `GameLog.TruncatedIsReadAgain` | internal/gamelog/service.go:225-251 | a file that became shorter is followed from its start |
| `GameLog.BlobIsDropped` | internal/gamelog/service.go:203-208 | a line that outgrows 128 KiB is dropped and reading goes on behind it |
| `GameLog.AllLinesAreTheText` | internal/gamelog/service.go:193-223 | the lines of a finished file, each with its newline, are the text again |
| `GameLog.LastTickHandsOverAllIff` | internal/gamelog/service.go:219-251 | the last tick hands over every line, an unfinished one included, if and only if at most 64 KiB are left, or one byte more that is the newline ending an unfinished line |
| `GameLog.Tailer.AllowLine` | internal/gamelog/service.go:272-283 | the limiter computes its specification |
| `GameLog.FiftyInAWindow` | internal/gamelog/service.go:272-283 | of the lines in a window of one second the first fifty are let through and the others are not |
| `GameLog.AtMostAHundredPerSecond` | internal/gamelog/service.go:272-283 | no half-open interval of one second of a monotone clock lets more than 100 lines through |

## Left out

- RelocationRuns.AnyHistory: goes on after a start that gave up in limbo only if that one came back whole;
  otherwise it ends with the old root complete, because what follows can lose it (`LimboLosesTheData`, and
  `CleanupAfterLimboIff` for when).
- RelocationManager.Manager.PrepareRelocation: leaves out a target that nests with a leftover staged copy, because
  a crash there can leave the write probe in the copy that is finalized later.
- RelocationManager.Manager.FinalizePrevious: claims completeness only for a previous root that is not inside a
  leftover copy, because removing it would cut into that copy.
- Exclusion.OneThingAtATime: claims that guarded operations are alone for runs whose releases disturb nobody,
  because it fails otherwise (`RestoreExample`); what is about games holds in every run (`OneGameAtATime`).
- InstallPlans.PlanIsOrdered: claims nothing about the order once a dependency was replaced, because the replaced
  item is appended after its earlier dependents and their requirements are dropped.
- InstallPlans.PlanIsSound: requires that one mod is not written in two ways that differ in more than letter case,
  because the code that drops items compares identifiers untrimmed (`ReplacementExample.SpellingExample`).
- Credentials.SessionsAreAccountedFor: is about calls one after another; `SessionRuns` says what overlapping ones do.
- Resolver.FoundReleaseQualifies: says that a qualifying release is found, not which; with invalid versions or
  missing dates the ranking is no order.
- SnapshotRestore.RoundTripIff: assumes that the records were rebuilt; a restore reports success also when that failed.
- Legacy relocation markers without a copy target, symbolic links, permissions, timeouts and disk-space checks.
- The worker body that never starts because its entry was deleted first, which would keep the gate shut; the
  repository deletes finished operations only.
- Progress reports, download speed, cached release records and newly downloaded lists; the file and metadata steps
  inside the installation of one mod.
- Unicode case folding beyond ASCII in identifiers and file names, and path cleaning.
- The order in which changes are listed, configuration signatures and display text.
- Post-exit cleanup of a game racing its next launch, and the stored status of an instance.
- The choice of the account a login belongs to, and the encryption and encoding of secrets.
- Which lines count as errors, how long lines are cut, and the discovery of new log files.
- The user interface, tray, presence, news, telemetry, deep links, support reports and update analysis.
