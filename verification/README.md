# walrust, modelled and proved in Dafny

walrust ships a SQLite database to an object store as LTX objects: full snapshots and incrementals, each covering a
range of transaction ids (TXIDs). Read replicas poll the bucket, restores replay it, a verifier looks for holes in it,
and retention deletes old snapshots from it. This project models those parts and proves what they promise each other.

Check the whole project with `dafny verify dfyconfig.toml`.

## What is modelled

| file | part of walrust |
|---|---|
| `Lists`, `Options`, `Pages` | stable sorting and filtering of listings, and page images with their in-place writes |
| `Ranges`, `Verify`, `VerifyChain`, `VerifyAnswers`, `VerifyReplay` | the coverage sweep, the two verifier passes, exactly what they report, and what a clean result means for a replica |
| `Replica`, `ReplicaAnswers`, `ReplicaSafety`, `ReplicaConvergence` | the polling read replica: the process, what a poll's answer means, safety over whole runs, convergence |
| `Engine`, `EngineAnswers`, `EngineRuns`, `EngineRestore`, `EngineStale`, `EngineChecksums` | the snapshot / sync / restore engine over a faulty store, what its answers mean, its invariant, its restores from complete and incomplete listings, its checksum hand-off |
| `Planner`, `Retention`, `RetentionRuns`, `Oracle`, `OracleModel` | the restore planner, the prune planner and its runs, the point-in-time oracle and its bookkeeping |
| `Keys`, `LevelKeys`, `Envelope`, `EnvelopeBytes`, `EnvelopeItems` | object keys, level keys and the restore cache, the TLMD delta envelope, its bytes, and the items and text in it |
| `ObjectStore`, `ObjectStoreRuns` | the fault-injecting object store, over every sequence of calls |

The main results:

* **Replica safety.** The position gets ahead of the database file in exactly two ways (`EventOkIff`), and staying
  behind it is exactly what keeps old pages out (`NotAheadIff`). Over every run of polls, lost files and restarts, with
  faults before and after every rename and for every history, a replica that takes neither way is nowhere behind its
  position, and its file starts with the primary's state once it has caught up (`PrefixConsistency`). Nothing cuts the
  file, so it is that state if and only if no state published into it was longer (`InStepRun`). Every poll is a
  fault-free walk over some objects and at most one failed step, and its answer says which (`PollMeans`); restarts
  leave no trace in a run as long as every save takes effect (`RestartsChangeNothing`).
* **Replica convergence.** From any position, two error-free polls take a replica as far as it will ever get. That is
  the head of the bucket if and only if a stated condition on bucket and position holds (`Convergence`,
  `FreshConvergence`), and then every poll counts (`EveryPollCountsIff`).
* **Restore.** A snapshot or sync reports success exactly when its PUT did and the file could be encoded and read
  (`SnapshotAnswer`, `SyncAnswer`). Over every run with refused, cut-short and corrupted PUTs and failing reads and
  listings, a restore fails or returns a shipped image. That image is the recorded state if and only if no earlier image
  was longer (`NeverSilentlyWrong`). From an incomplete listing it returns the same if and only if each page's last
  listed writer has the right version (`PartialExactIff`). Every error names its cause (`RestoreAnswer`).
* **Verifier.** The gap detector is silent if and only if every TXID is supplied (`SilentIff`). Both passes report
  exactly the files with a fault in front of them, once each and in order (`ReportsAre`, `IssuesAre`). A clean chain
  check means that a replica applies every later object in one poll if and only if those objects do not overlap and one
  starts right behind the snapshot (`CleanReplayIff`).
* **Oracle, planner and retention.** The closed-form reachability rule agrees with replay for all histories and all
  deletions (`OracleEqualsReplay`). The greedy planner finds every plan if and only if its pool has an exchange property
  (`CompleteIff`). As long as no leftover of a failed PUT covers the TXID of a needed snapshot when a prune takes place,
  no run of prunes, whatever the policy, deletes a snapshot that the chain needs (`RunSafe`, `RunKeeps`), the rescue
  rules protect exactly those (`ProtectedIff`), and a boundary is reachable unless it is a deleted snapshot's own TXID
  (`ReachableIff`). A restore to such a TXID names the nearest reachable boundaries (`RestoreEndsTyped`). Without the
  condition on prunes a needed snapshot can be lost (`LeftoverLosesSnapshot`).
* **Codecs.** Round trips, order preservation, prefix freedom, the exact bytes written and the exact inputs accepted,
  and the fact that a head checksum determines the chain behind it (`KeyRoundTrip`, `KeyOrder`, `EnvelopePrefixFree`,
  `EnvelopeLayout`, `DecodeIff`, `DeltaChainDetermined`).
* **Object store.** Compare-and-swap takes effect if and only if nothing touched the key (`SwapIff`), and behind any
  run of calls a reader sees exactly what the last call on a key left, from the operation its lag names on
  (`ReadsLastWrite`, `VisibleIff`).

Imperative code keeps its form: objects are classes, loops are loops, and each method is proved equal to a function of
the old state. The theorems are about those functions and about runs of them.

## Where the code and its documentation disagree

The model follows the code.

* `sync_wal` is documented to let a restore detect a lost object through the pre-checksum. The restore calls
  `apply_ltx_to_db`, which passes no expected checksum, so the pre-checksum is never compared with anything
  (`ReplayAcceptsIff`). `LostLinkUnnoticed` gives an undetected loss. `CheckedApplyIff` shows that the documented check
  would have caught it.
* An apply never cuts the file to the object's commit size. `ShrinkNotRestored` gives a shrunk file that is not
  restored, `ShrinkNotReplicated` one that a replica does not follow, and `ApplyOnto`, `InStepRun` and
  `NeverSilentlyWrong` give the exact condition.
* The replica's apply engine promises never to touch the live file unless its publication succeeds. A publication that
  fails after the rename, when the directory is synced, has replaced the file, and the poll keeps its old position.
  `LostFileLeavesStale` gives a run in which this ends in lasting, silent corruption. `EventOkIff` says when it can.
* A replica that is behind a gap only accepts a snapshot that ends at or past the next incremental's first TXID. A
  snapshot that ends right in front of it would do, but is refused (`LaggingReplicaStranded`).
* A replica takes any position from its state file. If that lies inside a listed incremental, a snapshot that ends
  right in front of the next one does not help it either (`InsideReplicaStuck`).
* The prune planner's comment says that its bridge rule keeps the whole retained range restorable. A leftover of a
  failed PUT that covers the TXID of a snapshot hides the hole, and the next prune can delete a snapshot that a later
  incremental needs (`LeftoverLosesSnapshot`). `CoveredIsUnprotected` and `ProtectedIff` say when.
* The chain check takes overlapping live files for contiguous, because the hole between them is empty. A clean bucket
  can stop a replica for good (`OverlapPassesCheck`).
* A snapshot call that fails because the file cannot be read again after the PUT leaves a whole object. A restore
  returns that image although the call reported an error (`FailedSnapshotRestored`).
* The oracle's comments say that a point-in-time restore at a deleted snapshot may fall back to an earlier boundary. The
  restore instead ends in a typed error that names both neighbours (`RestoreEndsTyped`).
* A sync whose only change is a shorter file writes nothing and reports success (`SyncRecordsIff`).

## Assumptions

* TXIDs, etags and operation counts are unbounded. 64-bit overflow is modelled only in parsers and encoders.
* `chain_checksum` and the envelope checksum are parameters. A lemma that needs them to be collision-free says so.
* A database file is a list of whole pages. It does not change inside one call; it may become unreadable.
* A rename is one atomic step; a step of the replica may fail right before or right after it. Each call of the object
  store is one atomic step.
* The planner's loop is modelled for every pool, spans with swapped bounds included (`RoundsMean`). Completeness is
  stated for spans that run upwards.
* Random choices of the fault injector are arguments. A theorem holds for all of them unless it speaks of error-free
  polls.

## Model

| member | source | states |
|---|---|---|
| `Ranges.RangesCover` | crates/walrust-core/src/compaction/coverage.rs:18-50 | the sweep returns true exactly when every TXID of the interval lies in some range, overlapping and unsorted ranges included; an empty interval is covered |
| `Lists.SortIsStable` | src/sync/replicate.rs:199-200 | the sort keeps elements with the same key in their order |
| `Lists.FilterCounts` | src/sync/replicate.rs:169-173 | a filter keeps every occurrence of what it keeps, and nothing else |
| `Replica.LatestSnapshot` | src/sync/replicate.rs:207-211 | a snapshot at or past the bound, newest of all snapshots, or none exactly when all end before the bound |
| `Replica.PendingInOrder` | src/sync/replicate.rs:169-200 | the incrementals that start past the position, none lost or repeated, in `min` order |
| `Replica.PendingKeepsOrder` | src/sync/replicate.rs:199-200 | incrementals that start at the same TXID stay in the order of the listing |
| `Replica.Replicator.constructor` | src/sync/replicate.rs:73-88 | start-up resumes the saved position only if the database exists and the state file can be read |
| `Replica.Replicator.SaveState` | src/sync/replicate.rs:306-344 | a failed save may or may not have replaced the state file, a successful one has |
| `Replica.Replicator.BootstrapFrom` | src/sync/replicate.rs:269-296 | equal to the specification: a failed step leaves everything alone, or, if it failed after the rename, replaces the database while position and state file stay; otherwise the snapshot replaces the database and position and state file move to its end |
| `Replica.Replicator.ApplyPending` | src/sync/replicate.rs:204-258 | the mutating loop equals the recursive specification for every fault pattern: gaps, failures before and after the rename of the database and of the state file |
| `Replica.Replicator.Poll` | src/sync/replicate.rs:133-258 | one poll, every error path included, takes the process state to the specified state and outcome |
| `ReplicaAnswers.LatestSnapshotIff` | src/sync/replicate.rs:262-267 | the snapshot that a poll falls back on is the last listed of those with the largest end, or none if that ends before the bound |
| `ReplicaAnswers.PollMeans` | src/sync/replicate.rs:133-258 | whatever the listing and the faults, a poll takes the objects it should, in order, each in the file with position and state file at its end; it reports their number, or 1 after a snapshot, exactly when nothing is left to take, and otherwise the gap with expected and found TXID, the missing snapshot, or the one step that failed, with the state that step left |
| `ReplicaAnswers.ListingAnswers` | src/sync/replicate.rs:144-154 | a failed and an empty listing are reported as such, and only then, and change nothing |
| `ReplicaAnswers.ProgressIsSaved` | src/sync/replicate.rs:163-164 | a poll that reports progress leaves position and state file at the same TXID with a file there, so a restart resumes exactly; one that reports none changed nothing |
| `ReplicaAnswers.RestartsChangeNothing` | src/sync/replicate.rs:76-88 | over every run of polls with failing listings, downloads and applies in which each save that is tried takes effect, restarts that can read the state file leave no trace |
| `ReplicaAnswers.StartsOver` | src/sync/replicate.rs:156-166 | a restart without a readable state file or without a database makes the next poll take the latest snapshot |
| `ReplicaSafety.ApplyExactIff` | crates/walrust-core/src/legacy_ltx.rs:260-388 | applying an honest incremental to the state before it gives the state after it exactly when the primary's file did not get shorter |
| `ReplicaSafety.ApplyOnto` | crates/walrust-core/src/legacy_ltx.rs:260-388 | applied to any file that starts with the state before it, an incremental gives a file that starts with the state after it and is cut nowhere, so it is that state exactly when the file was not longer |
| `ReplicaSafety.ExactRun` | src/sync/replicate.rs:133-259 | for any history, over every run with restarts, lost files and all faults in which no incremental meets a file with another end, the file starts with the state at the end of the last object published into it, and is that state if and only if no state at the end of another of its objects was longer |
| `ReplicaSafety.InStepRun` | src/sync/replicate.rs:133-259 | within one process in which no step fails after renaming a database into place, that end is the position: the database starts with the history's state at the position, and is that state if and only if no longer one was published into it |
| `ReplicaSafety.ShrinkNotReplicated` | src/sync/replicate.rs:233-256 | a concrete poll without faults: the primary goes from two pages to one, the replica keeps the old second page |
| `ReplicaSafety.NotAheadIff` | src/sync/replicate.rs:73-88 | a file at TXID c is nowhere behind position t, whatever the history, if and only if t is not past c; histories in which the file never shrinks decide it already |
| `ReplicaSafety.EventOkIff` | src/sync/replicate.rs:133-259 | there are exactly two ways for the position to get ahead of the file: a poll that fails after putting an older file in place, and a restart with a state file past the end of the database file; incrementals with any names included |
| `ReplicaSafety.PollNotAheadIff` | src/sync/replicate.rs:133-259 | for a poll that is: a step fails after the rename, and what it put in place ends before the position: a snapshot, taken because the file was lost or the loop met an overlapping incremental, or an incremental with swapped bounds |
| `ReplicaSafety.PollDescribed` | src/sync/replicate.rs:133-259 | whatever fails in a poll and whatever the history, no place of the file is behind the end of its last object, and each agrees with a state up to its newest object |
| `ReplicaSafety.PrefixConsistency` | src/sync/replicate.rs:133-259 | for every history and every run of polls, file losses and restarts with faults anywhere, as long as neither way is taken: no place of the file is behind the position; once the position has caught up with the newest object in the file, the file starts with the history's state, and is that state if it is not longer, as it never is when the primary's file does not shrink |
| `ReplicaSafety.PollNeverMovesBack` | src/sync/replicate.rs:168-258 | if no listed incremental has swapped bounds, an initialised replica keeps a file; a poll moves it forward, changes nothing, or fails after putting a file that ends past the position in place of the old one |
| `ReplicaSafety.MovesBackIff` | src/sync/replicate.rs:168-258 | for incrementals with different starts, some poll can lower a position if and only if some name has bounds swapped by more than one, as 6-2 |
| `ReplicaSafety.PollSavedBehindIff` | src/sync/replicate.rs:306-344 | a poll leaves the state file ahead if and only if what it puts in place ends below the saved position and the state file is not replaced: a snapshot, taken without a file or a position or behind an overlapping incremental, or an incremental with swapped bounds |
| `ReplicaSafety.StateFileNeverAhead` | src/sync/replicate.rs:306-344 | over every run in which no poll does that or leaves a stale file, lost files, unreadable state files and overlapping or oddly named incrementals included, the state file stays behind and every restart is admissible |
| `ReplicaSafety.SteadyReplica` | src/sync/replicate.rs:306-344 | in particular if no file is lost, every restart can read its state file and incrementals neither overlap nor have swapped bounds |
| `ReplicaSafety.LostFileLeavesStale` | crates/walrust-core/src/legacy_replica.rs:90-102 | the first way, concretely: a replica at 5 that lost its file ends at 6 with a page of TXID 1, and polling reports success for ever |
| `ReplicaSafety.StaleStateAheadIsKept` | src/sync/replicate.rs:73-88 | the second way, concretely: a run ends with TXID 2 claimed over the state of TXID 1, and polling does not repair it |
| `ReplicaSafety.UnreadableStateAheadIsKept` | src/sync/replicate.rs:77-88 | the same without a lost file: the state file is unreadable at one restart and readable at the next |
| `ReplicaConvergence.LoopWalks` | src/sync/replicate.rs:204-258 | an error-free loop ends at the end of the gap-free chain, or jumps to the newest snapshot exactly when that ends at or past the incremental behind the gap |
| `ReplicaConvergence.ChainCompleteIff` | src/sync/replicate.rs:204-232 | from any position, the loop meets no gap exactly when no incremental past the position lacks a direct predecessor and the position, if anything is pending, is not inside an incremental |
| `ReplicaConvergence.SettlesInTwo` | src/sync/replicate.rs:156-258 | from any position two error-free polls reach one from which no poll moves, and it is the head exactly when the bucket is bridgeable from there |
| `ReplicaConvergence.Convergence` | src/sync/replicate.rs:156-258 | any number of polls past two ends where two ended, and that is the head if and only if no gap lies above position and newest snapshot, the newest snapshot is not too early for the next incremental, and the position is not inside an incremental past every snapshot |
| `ReplicaConvergence.RunsBridgedConverge` | src/sync/replicate.rs:206-232 | if every incremental without a direct predecessor has a snapshot at or past its start, a replica reaches the head if and only if it stands at a boundary, or inside an incremental with a newer snapshot that is not too early for the next incremental |
| `ReplicaConvergence.EveryPollCountsIff` | src/sync/replicate.rs:156-258 | from any position: each poll raises the position, or the replica is at the head and the poll reports zero applied and changes nothing, if and only if the bucket is bridgeable |
| `ReplicaConvergence.FreshConvergence` | src/sync/replicate.rs:156-196 | a replica without a file or without a position reaches the head, within two polls, if and only if there is a snapshot and no gap above the newest one |
| `ReplicaConvergence.LaggingReplicaStranded` | src/sync/replicate.rs:206-232 | with a snapshot at 9 and an incremental 10-12 a replica at 5 stays at 5 for ever while a new one reaches 12 |
| `ReplicaConvergence.InsideReplicaStuck` | src/sync/replicate.rs:204-232 | with a snapshot at 7 and incrementals 4-7 and 8-9 a replica at 5 stays there for ever, although every gap is bridged |
| `Verify.NewestSuffices` | src/sync/verify.rs:75-94 | testing only the newest snapshot inside a hole decides the same as testing every snapshot and the empty choice |
| `Verify.DetectLiveTxidGaps` | src/sync/verify.rs:68-96 | the loop reports, in order, exactly the holes for which no in-hole snapshot, nor none, leaves a covered remainder |
| `Verify.NoMissedHole` | src/sync/verify.rs:68-96 | if nothing is reported, every TXID from the first start to any file's end is live, merged, or superseded by a snapshot in its hole, overlapping files included |
| `Verify.ReportIsGenuine` | src/sync/verify.rs:75-94 | each reported hole between consecutive files holds a TXID that nothing supplies |
| `Verify.SilentIff` | src/sync/verify.rs:68-96 | for consecutive files the detector is silent if and only if every TXID in between is supplied |
| `Verify.MoreBridgesFewerReports` | src/sync/verify.rs:75-94 | more snapshots or merged ranges leave each report as it was or remove it |
| `VerifyAnswers.ReportsAre` | src/sync/verify.rs:68-96 | for any list of files, the detector reports each hole that nothing bridges, once, in order, with the file behind it, the expected and the found TXID, and nothing else |
| `VerifyChain.ChainBase` | src/sync/verify.rs:112-122 | the snapshot with the greatest generation and TXID, or none exactly when no file is a snapshot |
| `VerifyChain.CheckTail` | src/sync/verify.rs:124-170 | the loop over the files past the snapshot reports the specified gaps and checksum breaks in order |
| `VerifyChain.VerifyLtxChain` | src/sync/verify.rs:108-173 | the whole check equals its specification, the missing-snapshot report included; `IssuesAre` and `NoSnapshotIff` say what that reports |
| `VerifyAnswers.BaseIsLast` | src/sync/verify.rs:112-122 | among snapshots with equal generation and TXID the last listed one is the base |
| `VerifyAnswers.TailInOrder` | src/sync/verify.rs:124-131 | the walk sees the live files that reach past the snapshot, none lost or repeated, in order of their start |
| `VerifyAnswers.TailKeepsOrder` | src/sync/verify.rs:124-131 | those that start at the same TXID stay in the order of the listing |
| `VerifyAnswers.IssuesAre` | src/sync/verify.rs:132-170 | a gap is reported exactly at the files in front of which some TXID is in no merged range, a checksum break exactly at those that start where expected with another pre-checksum; once each, in order, with the right numbers |
| `VerifyAnswers.ReportedAre` | src/sync/verify.rs:108-173 | with a base the reported issues are exactly those of the tail behind it |
| `VerifyAnswers.NoSnapshotIff` | src/sync/verify.rs:112-122 | a missing snapshot is reported exactly when no file belongs to a snapshot generation or is the base, and then alone |
| `VerifyChain.ChainNoMissedHole` | src/sync/verify.rs:124-170 | if no gap is reported, every TXID above the snapshot up to any live file's end is in a live file or a merged range |
| `VerifyChain.CleanIsLinked` | src/sync/verify.rs:132-170 | without merged ranges a clean tail of disjoint files is contiguous and every pre-checksum is the previous post-checksum |
| `VerifyChain.VerifyImpliesReplay` | src/sync/verify.rs:108-173 | for real TXIDs and live files that neither overlap each other nor straddle the verified snapshot, a clean check means linked checksums, and that a replica at that snapshot applies every later live file in one poll, meets no gap and ends at the live head |
| `VerifyReplay.CleanReplayIff` | src/sync/verify.rs:124-170 | for any clean bucket with real TXIDs, a replica at the verified snapshot meets no gap if and only if the live files that start behind the snapshot do not overlap and one of them starts right behind it |
| `VerifyReplay.CleanReplayPoll` | src/sync/replicate.rs:168-258 | and then one error-free poll applies all of them |
| `VerifyReplay.OverlapPassesCheck` | src/sync/verify.rs:132-147 | a concrete clean bucket with overlapping files on which a replica applies one and then fails at a gap |
| `Engine.SyncEngine.constructor` | src/testable.rs:92-101 | a new engine has shipped nothing and recorded nothing |
| `Engine.SyncEngine.ChangedPages` | src/testable.rs:195-203 | the comparison loop finds exactly the numbered pages that are new or differ from the last image |
| `Engine.SyncEngine.Put` | src/testable.rs:287-342 | PUT with retries under every sequence of refusals, torn writes and corruption |
| `Engine.SyncEngine.ShipNext` | src/testable.rs:150-164 | position, checksum and image advance together, and only after a PUT that reported success |
| `Engine.SyncEngine.TakeSnapshot` | src/testable.rs:129-165 | equal to the specification, whose answer `SnapshotAnswer` describes: a snapshot ships the whole file as the next TXID, or fails and changes nothing but the object there |
| `Engine.SyncEngine.SyncWal` | src/testable.rs:184-246 | a sync takes a first snapshot, ships the changed pages with the checksum hand-off, does nothing, or fails, an unreadable file included |
| `Engine.SyncEngine.Restore` | src/testable.rs:404-466 | the restore loop equals decoding the base and applying the listed objects in TXID order, with every error path, the failed listing included; `RestoreAnswer` and `RestoreIff` say what that returns |
| `EngineAnswers.FullChecksumIs` | src/testable.rs:168-175 | the checksum of an image is the chain from zero over all its pages, numbered from 1 |
| `EngineAnswers.PutIff` | src/testable.rs:287-342 | a PUT with retries succeeds if and only if some attempt reports success |
| `EngineAnswers.PutFirst` | src/testable.rs:287-342 | the first attempt that reports success decides what is stored |
| `EngineAnswers.PutFails` | src/testable.rs:287-342 | if none does, a torn object is left exactly if an attempt was cut short |
| `EngineAnswers.SnapshotAnswer` | src/testable.rs:129-165 | a snapshot succeeds if and only if the file encodes, some PUT attempt reports success and the file can be read again; then the whole file is stored as the next TXID, torn only under silent corruption, and the state stands there; otherwise the state stays |
| `EngineAnswers.SyncAnswer` | src/testable.rs:184-246 | before the first snapshot a sync is one; later it succeeds if and only if the file can be read and is a prefix of the last image, when nothing happens, or encodes and is stored, when the object holds exactly the new and different pages in order with both checksums; otherwise the state stays |
| `EngineAnswers.ToApplyInOrder` | src/testable.rs:445-450 | a restore applies the listed objects within the target, none lost or repeated, in TXID order |
| `EngineAnswers.ToApplyKeepsOrder` | src/testable.rs:445-450 | those with the same last TXID stay in the order of the listing |
| `EngineAnswers.RestoreAnswer` | src/testable.rs:404-466 | for any store, listing and target each error of a restore has its cause: a failed, an empty, or a baseless listing, or the first object that could not be fetched, or was fetched and does not apply; with none of these it returns an image |
| `EngineRuns.PutEffect` | walrust-dst/src/mock_storage.rs:288-340 | retried PUTs touch only their own key; success leaves the object, or a torn one only under silent corruption |
| `EngineRuns.RunInv` | src/testable.rs:129-246 | in every reachable state keys are exactly the pairs (t, t) up to the current TXID, the last checksum is that of the last image, every stored incremental's pre and post are the specified checksums, and the one further object waits at the next TXID and is torn or a whole snapshot |
| `EngineRuns.ShippedInv` | src/testable.rs:153-164 | counting such a whole snapshot as shipped gives a state with the same store that satisfies the invariant and has nothing but a torn object waiting |
| `EngineRestore.NothingChangedIff` | src/testable.rs:195-207 | a sync finds nothing to ship exactly when the file is a prefix of the last image |
| `EngineRestore.SyncRecordsIff` | src/testable.rs:195-207 | after a successful sync the engine's image is the database unless the only change was a shorter file |
| `EngineRestore.ApplyChanged` | src/testable.rs:195-203 | changed pages, applied to any file that starts with the compared image, write the new image over it |
| `EngineRestore.LayeredExactIff` | src/testable.rs:435-463 | replaying all images over one another gives the last one exactly when no earlier one was longer |
| `EngineRestore.RestoreIff` | src/testable.rs:404-466 | with no whole object waiting, a restore succeeds exactly when every object up to the target can be fetched and is whole, and then returns the layered image of the largest TXID within the target, later full snapshots included |
| `EngineRestore.RestoreExactIff` | src/testable.rs:404-466 | from any such state that satisfies the invariant, a returned image is the recorded one exactly when no earlier image was longer |
| `EngineRestore.NeverSilentlyWrong` | src/testable.rs:404-466 | the same over every run of edits, snapshots and syncs under all PUT faults, failing reads, failing GETs and a failing listing, which is an error; an image that a failed snapshot call left whole counts as shipped |
| `EngineRestore.AlwaysRestorable` | src/testable.rs:404-466 | without corruption every shipped TXID is restorable at any time; a later target fails exactly while a torn object waits |
| `EngineRestore.FailedSnapshotRestored` | src/testable.rs:153-164 | a concrete run: a snapshot call fails at its second read, the engine stays at TXID 0, and a restore returns the image |
| `EngineRestore.ShrinkNotRestored` | src/testable.rs:435-463 | a concrete run: two pages shipped, then one other page; the restore ends with the stale second page |
| `EngineStale.PartialImage` | src/testable.rs:365-466 | a listing of the base and any of the other objects is restored without an error, page by page to the last listed writer's version, and ends with a page some listed object wrote or where the base ended |
| `EngineStale.PartialExactIff` | src/testable.rs:365-466 | that is what the complete listing gives if and only if at every place the last listed writer has the right page and the listed objects reach the same length |
| `EngineStale.WritersListedExact` | src/testable.rs:365-466 | in particular if the last writer of every place within the target is listed |
| `EngineChecksums.FullChecksumIdentifies` | src/testable.rs:168-175 | under a collision-free hash equal full checksums mean equal databases |
| `EngineChecksums.CheckedApplyIff` | src/testable.rs:178-184 | the documented check would accept a stored incremental on exactly one database, the recorded image before it, and yield the one after it if the file did not shrink |
| `EngineChecksums.ReplayAcceptsIff` | src/testable.rs:445-463 | the restore as coded accepts a list of objects exactly when each is present and consistent in itself, for any starting file |
| `EngineChecksums.StaleListingAccepted` | src/testable.rs:365-389 | a listing that misses any incrementals is accepted |
| `EngineChecksums.LostLinkUnnoticed` | src/testable.rs:178-184 | a page whose last change was in a missing object comes back in its old version without an error, though the documented check would have refused |
| `EngineChecksums.LostLinkRun` | src/testable.rs:178-184 | a run of one snapshot and two syncs for which that happens |
| `Planner.EndsIff` | crates/walrust-core/src/compaction/planner.rs:187-223 | for any pool, swapped bounds included, the loop ends if and only if it ends within `target` rounds |
| `Planner.RoundsMean` | crates/walrust-core/src/compaction/planner.rs:179-229 | for any pool, swapped bounds included, a plan that the loop returns is a chain of pool objects within the target to exactly the target, and an error names where such a chain stopped and why |
| `Planner.PlanRestore` | crates/walrust-core/src/compaction/planner.rs:179-229 | whenever the loop ends it returns what the rounds specify, and for spans that run upwards, where it always ends, the recursive plan |
| `Planner.SwappedNameLoops` | crates/walrust-core/src/legacy_manifest.rs:38-47 | a listed name with swapped bounds, which parses, makes the loop run for ever |
| `Planner.PlanMeans` | crates/walrust-core/src/compaction/planner.rs:179-229 | a plan is a gap-free, overlap-free chain to exactly the target; each error names a reachable boundary that no object of the pool continues within the target, and the tightest window |
| `Planner.FurthestIsLast` | crates/walrust-core/src/compaction/planner.rs:190-194 | among candidates that go equally far the last listed one is taken |
| `Planner.TightestIsFirst` | crates/walrust-core/src/compaction/planner.rs:204-207 | among equally tight windows the first listed one is named |
| `Planner.CompleteIff` | crates/walrust-core/src/compaction/planner.rs:174-229 | the greedy planner finds a plan whenever one exists, for all floors and targets, if and only if the pool has exchange: where one object crosses the end of another that would be taken first, a chain leads from that end to the end of the crossing one |
| `Planner.NestedComplete` | crates/walrust-core/src/compaction/planner.rs:58-66 | so it is complete when any two objects are disjoint or nested or start together, as after a crash between writing a merged object and deleting its sources |
| `Planner.GreedyCanStrand` | crates/walrust-core/src/compaction/planner.rs:186-198 | without nesting it can miss an existing plan |
| `Planner.DecayIff` | walrust-dst/src/state_machine.rs:448-452 | on a compacted history the planner restores exactly the targets that the oracle does not call decayed, and for a decayed one names its window and the restorable ends |
| `Retention.CollectBridges` | crates/walrust-core/src/legacy_manifest.rs:404-418 | the walk collects, for each hole in the sorted live chain, the newest snapshot inside it |
| `Retention.BridgesIff` | crates/walrust-core/src/legacy_manifest.rs:404-418 | for any spans, the walk collects a snapshot exactly if it is the newest one in front of some span with all spans before that ending below it |
| `Retention.ChainBaseIff` | crates/walrust-core/src/legacy_manifest.rs:376-387 | for any folder, the base of the chain is exactly the newest snapshot in front of all spans, or without one the oldest of all |
| `Retention.PlanPrune` | crates/walrust-core/src/legacy_manifest.rs:357-445 | the plan deletes exactly what the policy proposes except the protected snapshots |
| `Retention.BaseObjectIgnored` | crates/walrust-core/src/legacy_manifest.rs:369-374 | the base object 1-1 in the live folder makes no difference to what is protected |
| `Retention.FollowedProtectedIff` | crates/walrust-core/src/legacy_manifest.rs:369-424 | for any live folder: a snapshot that some span follows directly is protected if and only if no span covers its TXID, or it is the newest, or the base by default |
| `RetentionRuns.FollowedIsProtected` | crates/walrust-core/src/legacy_manifest.rs:376-424 | a surviving snapshot that an object of the live folder follows directly is protected unless a leftover covers its TXID |
| `RetentionRuns.CoveredIsUnprotected` | crates/walrust-core/src/legacy_manifest.rs:404-418 | and if a leftover does cover a load-bearing one, it is protected only as the newest snapshot or the base by default |
| `RetentionRuns.LeftoverLosesSnapshot` | crates/walrust-core/src/legacy_manifest.rs:404-418 | a concrete run in which an unconfirmed object hides a hole and the next prune deletes the snapshot that a later incremental needs |
| `Retention.NewestIsProtected` | crates/walrust-core/src/legacy_manifest.rs:375-424 | the newest surviving snapshot is protected |
| `RetentionRuns.ProtectedIff` | crates/walrust-core/src/legacy_manifest.rs:369-424 | as long as no leftover covers the TXID of a needed snapshot, a snapshot is protected if and only if it is needed: it is the last object, or an incremental or a leftover follows it directly; nothing else is kept against the policy |
| `RetentionRuns.PruneIff` | crates/walrust-core/src/legacy_manifest.rs:357-445 | while no leftover covers a needed snapshot, a prune deletes a surviving snapshot if and only if the policy proposes it, its deletion is carried out and nothing needs it |
| `RetentionRuns.PruneSafe` | crates/walrust-core/src/legacy_manifest.rs:357-445 | one prune while no leftover covers a load-bearing snapshot, for any proposal and however far it is carried out, deletes no load-bearing snapshot |
| `RetentionRuns.RunSafe` | crates/walrust-core/src/legacy_manifest.rs:357-445 | no run of publishing, failed PUTs that leave objects behind, and pruning while no leftover covers a load-bearing snapshot ever deletes a snapshot that is last or directly followed by an incremental |
| `RetentionRuns.RunKeeps` | crates/walrust-core/src/legacy_wal_sync.rs:625-629 | if no prune takes place while a leftover covers a needed snapshot, no needed snapshot is ever deleted; forced snapshots that take their TXID from a listing and so skip some are included |
| `Oracle.ReachableFromBase` | walrust-dst/src/state_machine.rs:416-435 | the closed-form rule holds exactly when only incrementals lie between the newest surviving snapshot and the target |
| `Oracle.WalkEnd` | crates/walrust-core/src/legacy_restore.rs:260-264 | from a base the planner follows the incrementals to the target or stops in front of the first snapshot on the way |
| `Oracle.OracleEqualsReplay` | walrust-dst/src/state_machine.rs:416-435 | for all histories, snapshots that skip TXIDs included, and all deletions the rule holds exactly when there is a base from which the planner reaches the target; otherwise it stops at an earlier recorded boundary in front of a deleted snapshot |
| `Oracle.ReachabilityAntitone` | walrust-dst/src/state_machine.rs:416-435 | deleting more never makes an unreachable point reachable |
| `Oracle.ReachableIff` | walrust-dst/src/state_machine.rs:74-86 | after any run of publishing, failed PUTs, and pruning while no leftover covers a load-bearing snapshot, a boundary is reachable if and only if it is not a deleted snapshot's own TXID |
| `Oracle.PitAnswer` | crates/walrust-core/src/legacy_restore.rs:183-304 | for any bucket, pool and target each ending of a restore says what is so: the reached target, no snapshot up to it, the point where the chain stops and a later snapshot, a gap without one, or the window around the target |
| `Oracle.RestoreEndsTyped` | crates/walrust-core/src/legacy_restore.rs:183-304 | after any such run, prunes only while no leftover covers a load-bearing snapshot, a restore to a boundary succeeds exactly when the oracle says so; otherwise it names the nearest reachable boundaries below and above it, or says that none up to it is reachable, and never ends in an untyped gap |
| `OracleModel.Model.constructor` | walrust-dst/src/state_machine.rs:358-388 | the empty model satisfies the invariant |
| `OracleModel.Model.WriteTxn` | walrust-dst/src/state_machine.rs:625-654 | committed rows are appended and become pending, and the invariant is kept |
| `OracleModel.Model.MarkDurable` | walrust-dst/src/state_machine.rs:391-395 | the durable prefix becomes all rows, recorded at the boundary |
| `OracleModel.Model.DurableFlush` | walrust-dst/src/state_machine.rs:547-579 | a tick confirms all rows unless it was idle with rows pending, moves the TXID by the pages shipped or by one for a snapshot, and history and bookkeeping stay in step |
| `OracleModel.Model.DurableSnapshot` | walrust-dst/src/state_machine.rs:582-621 | a forced snapshot takes a TXID past the last one, as the listing gives it, and confirms all rows |
| `OracleModel.Model.PruneOnce` | walrust-dst/src/state_machine.rs:797-804 | exactly the deletions that were carried out are declared, also when a delete fails in between |
| `OracleModel.Model.RowsAtBoundary` | walrust-dst/src/state_machine.rs:402-406 | rows are returned for exactly the published boundaries, and they are those committed when the object was confirmed |
| `OracleModel.ReplayRowsExact` | walrust-dst/src/state_machine.rs:402-406 | put together behind a snapshot, the rows that the oracle takes each incremental to carry are the rows recorded at the last of them |
| `OracleModel.RestoredRows` | walrust-dst/src/state_machine.rs:391-435 | wherever the planner gets to, the replayed rows are those of that boundary and a prefix of those of the wanted one |
| `Keys.KeyRoundTrip` | src/testable.rs:52-68 | parsing inverts key construction for all 64-bit TXIDs and all prefixes and names |
| `Keys.DigitIff` | src/testable.rs:52-68 | TXIDs are written in lower-case hexadecimal and read in either case |
| `Keys.ParseHexIff` | src/testable.rs:52-68 | a number is read exactly if it has digits, after at most one sign, and fits in 64 bits |
| `Keys.ParseLtxKeyIff` | src/testable.rs:60-68 | a key is read exactly if it is two such numbers with a dash in between, in the folder 0000 of the database |
| `Keys.KeyOrder` | src/shadow.rs:14-21 | byte-wise order of fixed-width names in one folder is the numeric order of their two numbers |
| `LevelKeys.LevelObjectRecognised` | src/sync/restore.rs:30-38 | every level object's key is recognised, for any base, level and file name |
| `LevelKeys.LevelKeyIff` | src/sync/restore.rs:30-38 | as text, a key is taken for a level key exactly if it has levels/L and a number as whole segments |
| `LevelKeys.GenerationKeyIff` | src/sync/restore.rs:30-38 | a generation object's key is taken for a level key exactly when its own prefix and name already look like one |
| `LevelKeys.CacheAgreesIff` | src/sync/restore.rs:60-133 | reads of stored objects through every cache of copies give the remote bytes if and only if no TXID range stands for two different generation objects |
| `LevelKeys.CachedGetIff` | src/sync/restore.rs:60-133 | a read returns the cached bytes exactly if the key names no level object and they verify with exactly its range, whether stored remotely or not, and otherwise what is stored remotely |
| `LevelKeys.GenerationNameParses` | src/sync/restore.rs:44-58 | the generation is no part of the range that a key names, so two generations can share one |
| `LevelKeys.PairNameIff` | crates/walrust-core/src/legacy_manifest.rs:38-47 | a file name with one dash is read exactly if both sides are hexadecimal numbers |
| `LevelKeys.ManyDashes` | crates/walrust-core/src/legacy_manifest.rs:38-47 | one with more dashes is not read |
| `LevelKeys.FlatNameIff` | crates/walrust-core/src/legacy_manifest.rs:49-56 | one without a dash exactly if it is eight characters that are a decimal number |
| `LevelKeys.SuffixNeeded` | crates/walrust-core/src/legacy_manifest.rs:38-56 | nor is one without the suffix |
| `LevelKeys.LevelObjectBypassesCache` | src/sync/restore.rs:60-133 | a level object is read from remote whatever the cache holds, without any assumption |
| `LevelKeys.LevelNameParses` | src/sync/restore.rs:44-58 | the guard is needed: a level object's name alone parses to a TXID range |
| `Envelope.Encode` | crates/walrust-core/src/external_delta.rs:147-157 | the decoder reads back what the encoder appended |
| `Envelope.HeadRoundTrip` | crates/walrust-core/src/external_delta.rs:147-157 | every shortest-form CBOR head is read back, whatever follows it |
| `EnvelopeBytes.ParseHeadIff` | crates/walrust-core/src/external_delta.rs:160-185 | the parser reads exactly the definite CBOR heads of section 3 of RFC 8949, in every width |
| `EnvelopeBytes.NetworkOrder` | crates/walrust-core/src/external_delta.rs:147-157 | numbers are written most significant byte first |
| `EnvelopeBytes.ShortestHead` | crates/walrust-core/src/external_delta.rs:147-157 | the encoder writes such a head, and none for the same type and argument is shorter (section 4.1 of RFC 8949) |
| `EnvelopeBytes.EnvelopeLayout` | crates/walrust-core/src/external_delta.rs:147-157 | every byte: TLMD, version 1, a map of six, and the named fields in declaration order with their types |
| `Envelope.EnvelopeRoundTrip` | crates/walrust-core/src/external_delta.rs:147-185 | decoding inverts encoding for every payload, with any bytes behind it |
| `EnvelopeBytes.DecodeIff` | crates/walrust-core/src/external_delta.rs:160-185 | the decoder returns a payload exactly for the right header and a map in which each field occurs once, in the right type, with that value; other fields do not matter |
| `EnvelopeItems.SkipWhole` | crates/walrust-core/src/external_delta.rs:160-185 | items that a payload does not use are skipped whole, and what follows is left untouched |
| `EnvelopeItems.ItemsNest` | crates/walrust-core/src/external_delta.rs:160-185 | which bytes are one item: lists, maps, tags, strings and numbers, nested ones included |
| `EnvelopeItems.OtherItem` | crates/walrust-core/src/external_delta.rs:160-185 | an item of another kind is read as one that does not matter, whatever it holds |
| `EnvelopeItems.Utf8Iff` | crates/walrust-core/src/external_delta.rs:160-185 | a writer id is accepted exactly if its bytes encode a sequence of code points without surrogates (RFC 3629) |
| `Envelope.EnvelopePrefixFree` | crates/walrust-core/src/external_delta.rs:147-157 | no envelope is a prefix of another payload's envelope, so encoding is injective |
| `Envelope.RejectedEarlyIff` | crates/walrust-core/src/external_delta.rs:160-179 | truncation, wrong magic and wrong version are reported for exactly the inputs that have them, in that order, with length, magic and version found; a body error only behind a right header |
| `Envelope.DeltaChainDetermined` | crates/walrust-core/src/external_delta.rs:113-192 | two chains with one head checksum: the shorter is the end of the longer, and equally long ones are the same payloads |
| `ObjectStore.MockStorage.WriteObject` | walrust-dst/src/mock_storage.rs:288-340 | a write issues a new etag and stores a whole, silently changed or torn body with its visibility gate; only a torn one fails |
| `ObjectStore.MockStorage.CreateIfAbsent` | walrust-dst/src/mock_storage.rs:436-458 | a conditional create succeeds on absent keys only, visible or not |
| `ObjectStore.MockStorage.ReplaceIfMatch` | walrust-dst/src/mock_storage.rs:460-485 | a conditional replace writes exactly when the stored etag, in decimal, is the expected one |
| `ObjectStore.MockStorage.ListKeys` | walrust-dst/src/mock_storage.rs:397-418 | a listing holds exactly the visible keys with the prefix and behind the cursor, each once, in byte order |
| `ObjectStoreRuns.WriteAnswer` | walrust-dst/src/mock_storage.rs:288-340 | a write that takes effect leaves its data, cut at the limit, and otherwise whole up to one flipped byte; it fails exactly if an error struck or it was cut, is refused exactly if its condition fails, and returns the etag of what it stored |
| `ObjectStoreRuns.ReplyKind` | walrust-dst/src/mock_storage.rs:345-434 | reads and deletes fail exactly on an injected error, which changes nothing; reads change nothing at all |
| `ObjectStoreRuns.LagAllowedIff` | walrust-dst/src/mock_storage.rs:164-175 | the lags that a delay allows |
| `ObjectStoreRuns.OpsCount` | walrust-dst/src/mock_storage.rs:144-148 | every call advances the operation count by one, except a reset, which leaves it alone |
| `ObjectStoreRuns.RunInv` | walrust-dst/src/mock_storage.rs:155-159 | over every sequence of calls stored etags were issued before, no two keys share one, and the counter never falls, resets included |
| `ObjectStoreRuns.EtagKeptIff` | walrust-dst/src/mock_storage.rs:288-340 | a key keeps its etag over a run exactly when no call stored or removed it, and then its object is unchanged |
| `ObjectStoreRuns.SwapIff` | walrust-dst/src/mock_storage.rs:460-485 | a compare-and-swap with the etag last seen takes effect exactly when nothing stored or removed the key since: no ABA through deletes, torn writes or resets |
| `ObjectStoreRuns.CreatedOnce` | walrust-dst/src/mock_storage.rs:436-458 | until a key is removed at most one conditional create on it takes effect |
| `ObjectStoreRuns.VisibleIff` | walrust-dst/src/mock_storage.rs:161-179 | a get, an existence check or a listing sees what was stored exactly from the operation its lag names: never the next one, always the sixteenth; a get returns the bytes of the call that wrote them |
| `ObjectStoreRuns.ReadsLastWrite` | walrust-dst/src/mock_storage.rs:345-434 | behind any run of calls a get, an existence check or a listing sees a key exactly if it asks for it and the last call that touched the key stored it and is due; a get returns what that call left, and nothing else is ever seen |

## Left out

- The merge engine, the shadow WAL, the WAL frame reader and the S3, SQLite and file-system layers: I/O, or formats that the model treats as values.
- The watch loops, command line, configuration, webhooks, locking, metrics and reports: thin glue around the modelled parts.
- The retention policy's own choice (`analyze_retention`): an arbitrary proposal stands for it, so the results hold for every policy.
- Byte counts and the keep list of a prune plan: bookkeeping beside the set of deletions.
- The order of generations: snapshots are ordered by TXID, and the writer's generations grow with it.
- Database files that are not a whole number of pages: the snapshot encoder drops a short last page and the page reader pads it.
- Parsing of the `point_in_time` argument, and a target of 0, for which the engine's restore returns the base.
- The state of the output file after a failed engine restore: the model returns no image there.
- Indefinite-length CBOR items, and nesting limits of the CBOR decoder: the encoder produces neither.
- The store's operation log, latency and fault rates: they do not feed back into the objects.
- Overlapping calls on the store: the code releases its lock between the check and the write of a conditional put.
- VerifyChain.VerifyImpliesReplay: for an empty merged-range list, since a hole that merged ranges excuse is not one that a replica can cross. `VerifyReplay.CleanReplayIff` has the same condition.
- OracleModel.ReplayRowsExact: the rows of an object are those the oracle takes the engine to ship, given by the recorded lengths; how the engine puts rows on pages is not modelled. `OracleModel.RestoredRows` rests on the same reading.
- RetentionRuns.RunSafe: leftovers are incrementals in the live folder; an unconfirmed snapshot in a generation folder, which would be listed among the entries, is not modelled.
- Oracle.RestoreEndsTyped: the planner's pool holds the confirmed objects; a leftover that is whole could be planned too.
- Rows for the store's straight-line methods (`Read`, `Probe`, `Overwrite`, `Remove`, `Clear`): they follow the branches of one step function, and the theorems are about runs of that function.
