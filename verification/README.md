# A verified model of the transfer engine

This Dafny project models the engine of a two-pane file manager: how it copies,
moves, deletes and synchronises directory trees across local, SFTP and archive
backends; the QUIC pipelines and the wire format that speed up remote copies; the
index that makes an archive look like a directory tree; and the modes of the user
interface that decide which job runs when. `dafny verify dfyconfig.toml` checks it.

## How the model is laid out

- `Base`, `Trees`, `Backends`: a backend is an object over a tree, a finite map from
  paths to entries, with the strict meaning SFTP gives the primitive calls: `mkdir`
  fails on an existing path and `rmdir` on a non-empty directory. A backend that is
  `faulty` may fail any call, at any time, and leaves the partial effect of that call
  behind; a cancellation may be requested before any check. A clause that holds on
  every outcome of a job is therefore a statement about every intermediate state.
- `Plans`, `Walks`, `Copying`: the recursive walks that turn a tree into a flat list
  of steps, and the meaning of one step.
- `SyncSpec` says, path by path, what a sync means: which places need a copy, which
  entries are replaced or extraneous, and the overlay a sync promises. It knows no
  traversal order. `SyncScope`, `SyncScan` and `SyncDiff` prove that the recursive
  diff emits exactly those steps; `SyncSteps`, `SyncExec` and `SyncRun` that running
  them, with failures and cancellation anywhere, reaches the overlay or stops safely.
- `CopyTargets`, `CopyEffects`, `CopyClashes`, `CopyJobs`, `DeleteJobs`: the jobs on a
  selection. `CopyClashes` says which entries survive when items share a name.
- `Transports`, `Channels`, `Uploads`, `Downloads`, `FastPath`: the stream transport, the
  two QUIC pipelines as step systems of three participants each, and the proof that the
  fast transport does what the stream transport does. The jobs run over either (`Route`);
  only a `flaky` agent or network may fail calls of the fast one, and a call that never
  comes back is the outcome `NeverReturns`.
- `Wire`, `AgentLink`: the framing, the agent's server and its client.
- `ArchivePaths`, `ArchiveIndex`, `ArchiveFs`, `ArchiveWalks`, `ArchiveCopies`: cleaning
  raw paths, building the index, the read-only file system over it, and walking and
  copying out of it.
- `JobManagers`, `Registries`, `AppModes`: the job table, the places that can be reached,
  and what ties the modes to jobs and approvals. `AppEffects` says what each key and
  event is to do, on the whole state; `App` holds the handlers, and `AppRuns` what is
  true of whole runs.

## Findings

Some properties hold only under a condition. Where a condition is given as "if and only
if", it is proved in both directions.

- A sync that deletes leaves exactly the source if and only if the comparison missed no
  difference and every special file and every symlink with unknown target was at the
  destination already, because those are transferred as plain files
  (`SyncSpec.SyncConverges`, and on the backends `SyncRun.SyncThenScan`). For the same
  reason a second scan that compares by hash finds nothing to copy if and only if the
  first one copied only entries that a copy reproduces (`SyncSpec.SyncIsIdempotent`).
- A hash comparison misses no difference if and only if no two different files of one
  size and hash face each other (`SyncSpec.HashComparisonIsSound`). Where one side
  cannot hash, a scan misses a difference between files of one size if and only if both
  times are known and the source is at most two seconds newer
  (`SyncScan.WhatAScanMisses`).
- A file copied onto itself is emptied, since the destination is truncated before the
  first read (`Transports.Transfer`).
- A completed `copy_job` has delivered every selected entry but links if and only if no
  two items with one name are both transferred as different content
  (`CopyClashes.DeliveredIffNoClash`, and on the backends `CopyJobs.CopyJob`): of two
  such files the second silently overwrites the first
  (`CopyClashes.SameNameOverwrites`). Directories with one name do not merge under the
  strict `mkdir` modelled here, the job fails at the second; a local destination, whose
  `mkdir` accepts an existing directory, merges them, so that nested files of one path
  can overwrite each other as well. The items the user interface selects are siblings
  with different names; only a direct caller of `copy_job` can select equal names.
- A move across backends deletes links that were never created at the destination,
  because a failed `symlink` is skipped. Where the destination has no faults and the
  items have different names, the links lost by a completed move are exactly the
  selected ones whose place cannot be created; links below a selected directory always
  arrive (`CopyJobs.MoveCrossBackend`).
- `delete_job` can complete only if no selected item lies under another one.
- A cancelled QUIC download that still has a chunk to write never returns: cancellation
  surfaces as `Interrupted`, on which `write_all` tries again
  (`Downloads.RetriesForever`). A cancel after the first chunk is handed to the writer
  gets there, for any file and any first chunk (`Downloads.CancelledDownloadIsCaught`).
  A download returns if and only if its writer is never caught in that loop
  (`Downloads.DownloadReturns`).
- That a download never truncates silently rests on the end of a stream being seen only
  after `finish()`. If a lost agent could pass for the end of the stream, success could
  be reported on any proper prefix, the empty one included
  (`Downloads.TruncationWithoutFinish`). That the QUIC library meets this for a dropped
  stream is an assumption of this model. Without it, a download that reports success
  holds the whole file if and only if the agent had pushed all of it
  (`Downloads.WholeIffAllPushed`), and losing the agent is the only way to miss that
  (`Downloads.OnlyLossTruncates`).
- Over the QUIC transport `files_done` counts every transferred file twice: the
  transport counts it, and `apply_copy_item` counts it again. Links are in `files_total`
  but never counted, deletions are counted but not in it. The count of a completed job
  or sync stays within its total if and only if the deletions, plus the transfers if the
  transport is QUIC, are no more than the links (`Copying.CountsWithinTotals`).
- A request is read back as it was written if and only if the byte length of its path is
  below 2^32, since the length prefix is cast (`Wire.RequestRoundTrip`).
- The archive index keeps the last entry of a path, extraction returns the first file
  there. They agree at a path if and only if no earlier entry there is a file or link
  (`ArchiveFs.AgreementAt`).
- An archive's index is a directory tree if and only if no accepted raw path whose last
  entry is not a directory lies above another accepted path (`ArchiveFs.IndexIsTree`). A
  walk from the root always ends, and visits exactly the entries below no file or link;
  that is every entry under the same condition (`ArchiveWalks.WalkArchive`).
- A copy out of an archive delivers, for each file it sees, the bytes of the first file
  or link at its path; these are the recorded ones if and only if no earlier one stands
  there (`ArchiveCopies.CopyOut`).
- The status "sync scan produced no plan" is unreachable after a completed scan, because
  the scan stores its plan before it returns (`AppModes.PlanIsThere`). So are "sync
  failed", "copy failed" and "move failed" for a place that does not resolve: the registry
  never drops a place, and a panel only ever shows one that is in it
  (`Registries.AllReachable`, kept by every handler of `App.App`).

## Model

| member | source | states |
|---|---|---|
| `Trees.AncestorsAreDirectories` | crates/core/src/vfs.rs:14-21 | in a well-formed tree every proper ancestor of an entry is a directory; the invariant every operation keeps |
| `Trees.RemoveKeepsWellFormed` | crates/vfs-sftp/src/lib.rs:259-279 | unlinking a non-directory or removing an empty directory removes exactly its subtree and leaves no orphan |
| `Trees.PrunedIsEmpty` | crates/vfs-sftp/src/lib.rs:270-278 | once all listed children are gone the directory itself can be removed, and the result is the pruned tree |
| `Backends.Backend.ListDir` | crates/vfs-sftp/src/lib.rs:198-222 | a listing holds every child of a directory once, in any order, with its kind and size |
| `Backends.Backend.Mkdir` | crates/vfs-sftp/src/lib.rs:253-257 | creates exactly one directory, and fails without effect where the path exists or its parent is no directory |
| `Backends.Backend.Symlink` | crates/vfs-sftp/src/lib.rs:295-304 | creates exactly one link under the same conditions |
| `Backends.Backend.RemoveFile` | crates/vfs-sftp/src/lib.rs:259-261 | removes exactly one entry that is not a directory |
| `Backends.Backend.RemoveDir` | crates/vfs-sftp/src/lib.rs:263-279 | recursive removal deletes exactly the subtree, never meets a non-empty directory, and only the environment can stop it; a partial run removed only entries below the path and left a well-formed tree |
| `Transports.JobProgress.CountBytes` | crates/core/src/transport.rs:107-108 | every count is reported as it stands: reports never go back, all carry the same totals, and the last one holds the four counters |
| `Transports.Pump` | crates/core/src/transport.rs:96-113 | for any cut of the content into reads, what is written and counted is the content up to the stop |
| `Transports.Transfer` | crates/core/src/transport.rs:80-117 | a completed transfer wrote the whole content and counted it; a cancelled one exactly the first k bytes with k counted; a failed one a prefix, at least as long as counted |
| `Walks.WalkForCopy` | crates/core/src/job.rs:181-197 | lists exactly the subtree, each entry once, parents first, with rebased destinations |
| `Walks.WalkForDelete` | crates/core/src/job.rs:199-210 | lists exactly the subtree, each entry once, children first |
| `Copying.ApplyCopyItem` | crates/core/src/job.rs:216-242 | one step leaves its entry, or skips a link, or fails with a prefix; counts plain transfers only |
| `Copying.ApplyDeleteItem` | crates/core/src/job.rs:246-252 | one deletion removes exactly its entry and fails only where it is not enabled or by a fault |
| `Copying.TotalsMinusLinks` | crates/core/src/job.rs:231-238 | the counters reach the totals minus the links with known target |
| `Copying.TotalsAreCounts` | crates/core/src/job.rs:280-287 | the announced files are the steps that make no directory, links included, and the announced bytes their sizes |
| `Copying.CountsWithinTotals` | crates/core/src/transport.rs:206-211 | the counted files stay within the announced total if and only if deletions, and over QUIC once more the transfers, are no more than the links |
| `SyncSpec.CopyIsEnabled` | crates/core/src/job.rs:629-652 | when its turn comes a copy finds its parent a directory and its place free, after clearing what it replaces |
| `SyncSpec.CopyAdvances` | crates/core/src/job.rs:629-652 | one copy step takes the half-way destination to the next one |
| `SyncSpec.FailedLinkAdvances` | crates/core/src/job.rs:231-234 | a link that cannot be created leaves only a cleared place |
| `SyncSpec.DeleteIsEnabled` | crates/core/src/job.rs:654-662 | when its turn comes a deletion meets the scanned entry, and a directory is empty |
| `SyncSpec.DeletionsAvoidCopies` | crates/core/src/job.rs:565-569 | nothing to delete lies at or under a place that is copied or replaced |
| `SyncSpec.PassesReachOverlay` | crates/core/src/job.rs:606-665 | both passes together turn the destination into the promised overlay, less links that could not be created |
| `SyncSpec.WhatASyncLeaves` | crates/core/src/job.rs:484-571 | what stands at each path after a sync, kind by kind: directories, links and changed or new files as in the source, special files and unresolved links as plain files unless the kind was there, and the rest of the destination unless it was to be deleted or its place was taken |
| `SyncSpec.OverlayIsWellFormed` | crates/core/src/job.rs:606-665 | the promised destination is a tree again |
| `SyncSpec.HashComparisonIsSound` | crates/core/src/job.rs:428-436 | the hash comparison misses nothing exactly when no collision occurs |
| `SyncSpec.SourceArrives` | crates/core/src/job.rs:606-652 | with either setting every source entry arrives if and only if the comparison missed nothing and what a copy does not reproduce was there already |
| `SyncSpec.SyncConverges` | crates/core/src/job.rs:578-665 | a sync that may delete leaves exactly the source if and only if the comparison missed nothing and what a copy does not reproduce was there already |
| `SyncSpec.SyncKeepsTheRest` | crates/core/src/job.rs:565-569 | without deletion the destination keeps, besides the source's paths, exactly its own unshadowed remainder, as it was |
| `SyncSpec.SecondScan` | crates/core/src/job.rs:540-571 | what a second scan of synced trees finds |
| `SyncSpec.NothingChangedAgain` | crates/core/src/job.rs:428-436 | after a sync no regular file differs by size or hash, collisions or not |
| `SyncSpec.SyncIsIdempotent` | crates/core/src/job.rs:428-571 | a second scan copies nothing if and only if the first copied only reproducible entries, and deletes nothing |
| `SyncSpec.MidwayIsHonest` | crates/core/src/job.rs:573-577 | at every half-way point everything outside the announced paths is untouched, without deletion also all that only the destination has; and nothing stands there but scanned entries and copies |
| `SyncScope.MismatchIsCopiedInFull` | crates/core/src/job.rs:501-504 | facing entries of different shape owe the whole source subtree |
| `SyncScope.DirectoriesOweTheirChildren` | crates/core/src/job.rs:507 | facing directories owe exactly what their children owe |
| `SyncScope.LeftoverIsDoomed` | crates/core/src/job.rs:565-569 | a name only the destination lists is deleted with all below it |
| `SyncScan.FileNeedsCopy` | crates/core/src/job.rs:428-436 | a file is left alone exactly if the sizes agree and either both hashes exist and agree, or one is missing and the source is known to be at most two seconds newer |
| `SyncScan.WhatAScanMisses` | crates/core/src/job.rs:416-436 | a difference between two files goes unnoticed exactly when the sizes agree and the hashes collide or, without hashes, both times are known and differ by at most 2,000,000,000 nanoseconds in favour of the source |
| `SyncDiff.DiffEntry` | crates/core/src/job.rs:484-534 | pushes exactly the steps one facing pair owes |
| `SyncDiff.DiffDir` | crates/core/src/job.rs:540-571 | pushes exactly the steps two facing directories owe, for any order of leftovers |
| `SyncSteps.StepAdvances` | crates/core/src/job.rs:629-652 | step k of a scanned plan takes the destination from half-way point k to k + 1 |
| `SyncSteps.PlanNeverDeletesCopies` | crates/core/src/job.rs:540-571 | no deletion of a plan lies at or under a path it copies or replaces |
| `SyncExec.ExecuteCopy` | crates/core/src/job.rs:629-652 | each copy step is enabled: only the environment or the user stops it, and then nothing unannounced has changed and nothing is left but scanned entries, copies and the first part of one |
| `SyncRun.BuildSyncPlan` | crates/core/src/job.rs:578-604 | the scan changes no backend and yields exactly the plan of the two trees, with its totals |
| `SyncRun.SafeMeansUnlistedUntouched` | crates/core/src/job.rs:573-577 | wherever a run stops, each destination path that is in neither list and under no replaced entry is untouched |
| `SyncRun.ExecuteSyncPlan` | crates/core/src/job.rs:611-665 | on either transport a completed run leaves the overlay; however it ends the source is as scanned, every unlisted destination path is untouched, and only scanned entries and copies or the first part of one stand at the others; counters as the plan says |
| `SyncRun.SecondPlanDeletesNothing` | crates/core/src/job.rs:565-569 | the plan of a scan after a completed sync with the same setting deletes nothing, whatever the comparison |
| `SyncRun.SecondPlanIsEmpty` | crates/core/src/job.rs:409-414 | where both scans compare by hash, it copies nothing exactly when the first copied only reproducible entries |
| `SyncRun.SyncThenScan` | crates/core/src/job.rs:573-665 | scan, apply and scan again on the backends: the overlay is reached, a sync that deletes converges exactly when nothing was missed or irreproducible, and the second plan deletes nothing |
| `CopyTargets.InWanted` | crates/core/src/job.rs:273-278 | a destination path is wanted exactly if it stands for an entry at or under an item |
| `CopyTargets.WantedAt` | crates/core/src/job.rs:273-278 | items with different names do not hide each other: each path stands for one source entry |
| `CopyTargets.PlaceOf` | crates/core/src/job.rs:273-277 | what lies at `p/n/q` of an item `p/n` goes to `dest_dir/n/q` |
| `CopyTargets.OneMoreItemPlanned` | crates/core/src/job.rs:272-278 | scanning the items yields one step for each wanted entry, parents first |
| `CopyEffects.EndsLanded` | crates/core/src/job.rs:291-298 | a completed run lays exactly the wanted entries over the destination, less skipped links |
| `CopyEffects.BelowIsEnabled` | crates/core/src/job.rs:291-298 | a step below an item finds its parent made and its place free |
| `CopyJobs.StepIsEnabled` | crates/core/src/job.rs:291-298 | with room for every item each step is enabled, save for top-level links with something in the way |
| `CopyJobs.CompletionNeedsRoom` | crates/core/src/job.rs:291-298 | a job can complete only with room for every item that is not a link |
| `CopyClashes.DeliversIffNoStepClash` | crates/core/src/job.rs:291-298 | a run has delivered every step it made if and only if no two of them share a place with different content |
| `CopyClashes.OnlyTransfersShare` | crates/core/src/job.rs:216-242 | in a completed run only transfers share a place; directories and links never do |
| `CopyClashes.DeliveredIffNoClash` | crates/core/src/job.rs:272-298 | a completed job over any items has delivered every selected entry but links if and only if no two items with one name are transferred as different content |
| `CopyClashes.SameNameOverwrites` | crates/core/src/job.rs:273-278 | two different files with one name: every scanned step is enabled, and the completed run holds the second where the first was copied |
| `CopyJobs.StepDestroysNothing` | crates/core/src/job.rs:216-242 | a step, done, skipped or failed, removes no entry of the destination and changes only regular files that a transfer writes over; all else it leaves is a copy, or part of one |
| `CopyJobs.DeliveredMeansArrived` | crates/core/src/job.rs:273-298 | what is delivered stands at the directory, the item's name and the rest of its path, with the content of the source |
| `CopyJobs.LinksHaveArrived` | crates/core/src/job.rs:231-234 | so do the links that were created |
| `CopyJobs.CopyJob` | crates/core/src/job.rs:261-300 | on either transport a completed job delivered everything but links if and only if no two items clash; over distinct names it laid exactly the subtrees over the target directory, less exactly the blocked links where nothing is faulty; what lies at `p/n/q` of an item `p/n` is then at `dest_dir/n/q`, and nothing is new elsewhere; however it ends the selection is untouched and nothing at the destination is destroyed but files written over; exact totals and counters |
| `CopyJobs.MoveCrossBackend` | crates/core/src/job.rs:334-347 | without a clash each selected entry but links, at `p/n/q` of an item `p/n`, is still there or at `dest_dir/n/q` on every outcome, and no outcome changes anything outside the targets or destroys more than files written over; a completed move removed the originals and lost nothing else if and only if no items clash; the links lost are exactly the blocked ones where nothing is faulty |
| `DeleteJobs.OneMoreItemScanned` | crates/core/src/job.rs:356-359 | scanning incomparable items yields a proper plan; otherwise the plan names some path twice |
| `DeleteJobs.PlannedDeletionEnabled` | crates/core/src/job.rs:368-376 | every step of the post-order plan meets an empty directory or a file when its turn comes |
| `DeleteJobs.DeleteJob` | crates/core/src/job.rs:350-378 | on success exactly the chosen subtrees are gone and one file is counted for each entry; only the environment or the user stops it; always a well-formed tree |
| `Uploads.StepKeepsInvariant` | crates/vfs-sftp/src/quic_agent.rs:172-227 | every step of the local thread, the network thread or the agent keeps each produced byte in the stream or on its way there in order |
| `Uploads.NoSilentTruncation` | crates/vfs-sftp/src/quic_agent.rs:175-227 | in every run success means the stored file is all the reader produced up to its end; failure means some call failed |
| `Uploads.OnlyFaultsFail` | crates/vfs-sftp/src/quic_agent.rs:172-227 | only a step in which some call fails makes an upload fail |
| `Uploads.CleanUploadSucceeds` | crates/vfs-sftp/src/quic_agent.rs:172-227 | an upload none of whose calls fails returns success with the whole file stored |
| `Uploads.SuccessIsReachable` | crates/vfs-sftp/src/quic_agent.rs:172-227 | whatever the threads have done, if no call has failed, they can go on to a success with the whole file stored |
| `Uploads.NeverStuck` | crates/vfs-sftp/src/quic_agent.rs:200-227 | no deadlock: before the return some participant can take a step that is not a failure |
| `Uploads.StepSpendsBudget` | crates/vfs-sftp/src/quic_agent.rs:200-227 | every step decreases a measure |
| `Uploads.UploadReturns` | crates/vfs-sftp/src/quic_agent.rs:172-227 | every run is bounded by the file, and one that cannot go on has returned: both joins return |
| `Downloads.StepKeepsInvariant` | crates/vfs-sftp/src/quic_agent.rs:88-152 | every step keeps each received byte written or on its way there in order |
| `Downloads.NoSilentTruncation` | crates/vfs-sftp/src/quic_agent.rs:109-152 | success reports the bytes written, which are the bytes received and the whole file |
| `Downloads.OnlyFaultsFail` | crates/vfs-sftp/src/quic_agent.rs:88-152 | only a step in which some call fails makes a download fail |
| `Downloads.CleanDownloadSucceeds` | crates/vfs-sftp/src/quic_agent.rs:109-152 | a download none of whose calls fails returns success with the whole file written |
| `Downloads.SuccessIsReachable` | crates/vfs-sftp/src/quic_agent.rs:109-152 | whatever the threads have done, if no call has failed and nobody has cancelled, they can go on to a success with the whole file |
| `Downloads.RetriesForever` | crates/core/src/transport.rs:130-145 | a cancelled write never returns: every later state of every run is in the same call |
| `Downloads.CancelledDownloadIsCaught` | crates/vfs-sftp/src/quic_agent.rs:105-140 | for every non-empty file a cancel right after the first chunk is taken leads into the retry loop |
| `Downloads.CaughtNeverReturns` | crates/core/src/transport.rs:130-145 | no continuation of that run returns, and nothing is ever written |
| `Downloads.ReturnedNeverRetried` | crates/vfs-sftp/src/quic_agent.rs:113 | a run that returns never entered the retry loop |
| `Downloads.NeverStuck` | crates/vfs-sftp/src/quic_agent.rs:130-140 | no deadlock: unless the writer retries, some participant can take a step that neither fails nor retries |
| `Downloads.DownloadReturns` | crates/vfs-sftp/src/quic_agent.rs:88-152 | runs without retries are bounded, and a run that cannot go on has returned if and only if it is not retrying |
| `Downloads.TruncationWithoutFinish` | crates/agent-linux/src/lib.rs:272-278 | were losing the agent the end of the stream, success could be reported on any proper prefix, the empty one included |
| `Downloads.WholeIffAllPushed` | crates/vfs-sftp/src/quic_agent.rs:109-152 | a successful download holds the whole file if and only if the agent had pushed all of it, whatever the end of the stream means |
| `Downloads.OnlyLossTruncates` | crates/agent-linux/src/lib.rs:272-278 | a run in which the agent is not lost reports success on the whole file only |
| `FastPath.UploadMatchesStream` | crates/core/src/transport.rs:198-202 | a successful upload has the result and the count of the stream transport, for every cut into reads |
| `FastPath.DownloadMatchesStream` | crates/core/src/transport.rs:194-197 | the same for downloads |
| `FastPath.RunUpload` | crates/vfs-sftp/src/quic_agent.rs:172-227 | any interleaving of an upload returns; it fails only if a call of the environment failed, the user cancelled or the destination cannot be written |
| `FastPath.RunDownload` | crates/vfs-sftp/src/quic_agent.rs:88-152 | any interleaving of a download returns or is caught in its cancelled write; it fails only if a call of the environment failed or the file cannot be opened |
| `FastPath.QuicTransfer` | crates/core/src/transport.rs:179-216 | success has the same effect as the stream transport; failure leaves a prefix and has a cause: the user, a faulty backend, a flaky agent or network, or a place that cannot be opened; only a cancelled download may not return |
| `FastPath.TransferVia` | crates/core/src/transport.rs:43-56 | a transfer that returns success has done the same on either transport, counted files apart; a failed one left the destination as it was or a prefix |
| `Wire.U32RoundTrip` | crates/agent-linux/src/protocol.rs:38-47 | little-endian integers are read back |
| `Wire.Utf8IsText` | crates/agent-linux/src/protocol.rs:68-69 | bytes are taken for a string if and only if they are the UTF-8 form of a sequence of Unicode scalar values (section 3 of RFC 3629) |
| `Wire.StringRoundTrip` | crates/agent-linux/src/protocol.rs:50-70 | a string shorter than 2^32 bytes is read back with the rest left in place; a longer one never |
| `Wire.RequestRoundTrip` | crates/agent-linux/src/lib.rs:105-168 | the agent reads back exactly the encoded request and content if and only if the path length fits |
| `Wire.RequestsByteByByte` | crates/agent-linux/src/lib.rs:105-168 | the agent takes bytes for a request if and only if they are, byte by byte, its opcode, the length of a path least significant byte first, the path in UTF-8, and for a write a mode flag, a mode and the content |
| `Wire.NoTextIsRefused` | crates/agent-linux/src/protocol.rs:68-69 | a request whose path is no text is refused |
| `Wire.EncodedByteByByte` | crates/agent-linux/src/lib.rs:238-310 | what a client sends is such a request, with nothing after it |
| `Wire.EncodingIsInjective` | crates/agent-linux/src/protocol.rs:8-11 | no two requests look the same on a stream |
| `Wire.ReplyRoundTrip` | crates/agent-linux/src/lib.rs:263-279 | the client takes the content of a reply, or a refusal |
| `Wire.RepliesByteByByte` | crates/agent-linux/src/lib.rs:129-168 | a reply is 1 and the content, or 0, the length of a message and the message; the client takes any first byte but 0 for success |
| `AgentLink.StoreStream` | crates/agent-linux/src/lib.rs:171-187 | for any cut of the stream the file becomes exactly what was left on it; a failure leaves a prefix |
| `AgentLink.HandleStream` | crates/agent-linux/src/lib.rs:105-168 | for a request given byte by byte: a write stores the content and the mode and answers 1, a read answers 1 and the content, a greeting version 2 and whether it is the client's; an unknown opcode or a path that is no text is dropped without effect; says "done" only if it was carried out and touches no other file |
| `AgentLink.SendWriteRequest` | crates/agent-linux/src/lib.rs:282-310 | puts exactly the encoded request on the stream for any cut of the content, for any path that is a text |
| `AgentLink.ReceiveContent` | crates/agent-linux/src/lib.rs:263-279 | reads a reply to its end in pieces of any length |
| `AgentLink.RemoteWrite` | crates/agent-linux/src/lib.rs:282-318 | for any path that is a text, success means the file holds the content and the mode |
| `AgentLink.RemoteRead` | crates/agent-linux/src/lib.rs:253-279 | for any path that is a text, success means the whole file was received |
| `AgentLink.WriteThenRead` | crates/agent-linux/src/lib.rs:253-318 | what was written is what is read back, also over a longer file |
| `AgentLink.RemoteHello` | crates/agent-linux/src/lib.rs:238-247 | the reply carries the agent's version and whether it is the client's |
| `ArchivePaths.SanitizePath` | crates/vfs-archive/src/index.rs:40-57 | a raw path yields p exactly if, taken apart at its slashes and less its trailing ones, it has no `..` and p is what is left without empty and `.` parts, which is not nothing |
| `ArchivePaths.SanitizeByParts` | crates/vfs-archive/src/index.rs:40-57 | for any parts without slashes, joined by slashes and followed by any number of them: rejected exactly if one is `..` or all are empty or `.`, else the other parts in order |
| `ArchivePaths.NameOrderIsLexical` | crates/vfs-archive/src/index.rs:124-126 | names are ordered by the first character in which they differ, a prefix first |
| `ArchivePaths.PathOrderIsLexical` | crates/vfs-archive/src/index.rs:124-126 | paths are ordered by the first component in which they differ |
| `ArchivePaths.SanitizedIsPlain` | crates/vfs-archive/src/index.rs:40-57 | an accepted path is not the root and has no empty, dot or slash components |
| `ArchivePaths.SanitizeRender` | crates/vfs-archive/src/index.rs:56 | every clean path is cleaned to itself |
| `ArchivePaths.SanitizeIsIdempotent` | crates/vfs-archive/src/index.rs:40-57 | cleaning is a fixpoint on its own output |
| `ArchiveIndex.CollectExplicit` | crates/vfs-archive/src/index.rs:71-98 | the last raw entry of each accepted path is kept |
| `ArchiveIndex.AddAncestors` | crates/vfs-archive/src/index.rs:105-113 | the loop adds exactly the ancestors up to the first explicit one |
| `ArchiveIndex.GapsReachEverything` | crates/vfs-archive/src/index.rs:103-114 | the early break misses no ancestor |
| `ArchiveIndex.BuildIndex` | crates/vfs-archive/src/index.rs:71-127 | the index is strictly sorted, its paths are the prefix closure of what the raw texts mean, each stored entry has the kind, size, time and cleaned link target of the last raw entry that means its path, and all others are synthesized directories |
| `ArchiveIndex.IndexByTexts` | crates/vfs-archive/src/index.rs:71-127 | the same in terms of the raw texts alone |
| `ArchiveIndex.IndexIsUnique` | crates/vfs-archive/src/index.rs:124-126 | the index does not depend on the order of the hash map |
| `ArchiveFs.IndexIsTree` | crates/vfs-archive/src/lib.rs:81-135 | the index is a directory tree if and only if no accepted raw path whose last entry is not a directory lies above another one |
| `ArchiveFs.AgreementAt` | crates/vfs-archive/src/tar_backend.rs:58-75 | extraction picks the recorded entry exactly when no earlier file or link stands at the path |
| `ArchiveFs.IndexAndExtractionAgree` | crates/vfs-archive/src/tar_backend.rs:58-75 | with unique paths every indexed file or link yields the bytes recorded for it, and directories are not found |
| `ArchiveFs.SynthesizedIsNotFound` | crates/vfs-archive/src/tar_backend.rs:58-75 | a synthesized directory is never found by extraction |
| `ArchiveFs.Archive.Stat` | crates/vfs-archive/src/lib.rs:111-135 | succeeds for exactly the root and the indexed entries |
| `ArchiveFs.Archive.ListDir` | crates/vfs-archive/src/lib.rs:82-109 | lists exactly the children, directories first, each group by name |
| `ArchiveFs.Archive.OpenRead` | crates/vfs-archive/src/lib.rs:137-149 | yields the first entry that is no directory and whose text means the path, wherever the shared position was left, and fails exactly where there is none |
| `ArchiveFs.MetaDescribes` | crates/vfs-archive/src/lib.rs:124-134 | what `stat` and `list_dir` report of an entry is what the tree of the index holds, for any raw entries |
| `ArchiveFs.MetaDescribesContent` | crates/vfs-archive/src/tar_backend.rs:58-75 | where paths are unique and sizes true, it also describes the extracted content |
| `ArchiveFs.ListingLists` | crates/vfs-archive/src/lib.rs:82-109 | a listing is a listing of that tree, for any raw entries: every child, each once |
| `ArchiveFs.StatIsListed` | crates/vfs-archive/src/lib.rs:82-135 | what `stat` says of an entry is its one entry in the listing of its parent, the modification time included |
| `ArchiveWalks.WalkFrom` | crates/core/src/job.rs:181-197 | a walk through the archive's own `stat` and `list_dir` ends, fails only where nothing is indexed, and yields exactly the subtree that lies below no file or link, parents first |
| `ArchiveWalks.SeesEverythingIff` | crates/vfs-archive/src/lib.rs:82-109 | what a walk from the root sees is every indexed entry if and only if no file or link lies above another |
| `ArchiveWalks.WalkArchive` | crates/vfs-archive/src/lib.rs:82-135 | the walk of any archive ends and visits what it sees once, parents first |
| `ArchiveCopies.RecordedIsExtracted` | crates/vfs-archive/src/tar_backend.rs:58-75 | a path that the index calls no directory is extracted, from the recorded entry if and only if no earlier file or link stands there |
| `ArchiveCopies.ExtractItem` | crates/core/src/job.rs:216-242 | one step out of an archive leaves its entry with the extracted bytes, skips a link, or fails with a prefix |
| `ArchiveCopies.CopyOut` | crates/core/src/job.rs:261-300 | a completed copy out of an archive made its steps in turn and unpacked each file it saw at `root/q` to `to/q`, with the bytes of the first raw entry there; only the user, the destination's faults or something in the way stops it; nothing changes outside the target |
| `JobManagers.JobManager.Spawn` | crates/core/src/job.rs:119-155 | a fresh id, a token nobody has cancelled, and a thread that will send one Finished |
| `JobManagers.JobManager.Cancel` | crates/core/src/job.rs:157-161 | sets the token of this job and of no other |
| `JobManagers.JobManager.ThreadSetsPlan` | crates/app/src/actions.rs:326-333 | a running scan stores its plan, and from then on may return successfully |
| `JobManagers.ReturnedIsValid` | crates/core/src/job.rs:139-147 | a thread whose closure returns, a scan with success only after its plan is stored, keeps the table consistent |
| `JobManagers.JobManager.ThreadEnds` | crates/core/src/job.rs:139-147 | a thread that has returned sends its one Finished, after all other events: Completed exactly if the closure succeeded, Cancelled exactly if it stopped for the user, else Failed, a panic included |
| `JobManagers.JobManager.Receive` | crates/core/src/job.rs:71-79 | in every reachable table, a Finished taken from the channel tells what the closure of its job came to |
| `JobManagers.DeliveredIsValid` | crates/core/src/job.rs:169-175 | taking an event and reaping its job keeps the table consistent: no stale event is left, and the event taken tells what the closure came to |
| `Registries.VfsRegistry.Resolve` | crates/app/src/registry.rs:34-49 | succeeds for exactly the local place and what was connected or opened |
| `Registries.VfsRegistry.OpenArchiveAndCache` | crates/app/src/registry.rs:80-92 | an archive is cached exactly on success, and only from a place that resolves |
| `Registries.SpawnedIsReachable` | crates/app/src/actions.rs:184-198 | starting a job keeps every panel's place, and every place a job will show, reachable |
| `Registries.ReturnedIsReachable` | crates/app/src/registry.rs:68-92 | so does a closure that returns, since it caches its place first |
| `AppModes.ExecutedWasApproved` | crates/app/src/actions.rs:343-376 | every executed plan is the plan of a completed scan of the same places, shown and then accepted |
| `AppModes.OneForegroundJob` | crates/app/src/actions.rs:654-688 | at most one unfinished foreground job, and the mode is Progress for it |
| `AppModes.StartJob` | crates/app/src/actions.rs:184-198 | starting a job from any other mode keeps all invariants |
| `AppModes.StartSync` | crates/app/src/actions.rs:343-366 | accepting a sync starts exactly its execution |
| `AppModes.ThreadReturned` | crates/app/src/actions.rs:326-333 | a closure may return, a scan with success only after its plan is stored, and everything stays consistent |
| `AppModes.ThreadEnded` | crates/core/src/job.rs:139-147 | a thread that has returned may send its Finished at any time; a completed scan joins the history with the plan in its cell |
| `AppModes.ForegroundEnded` | crates/app/src/actions.rs:680-688 | a Finished of no background job belongs to the job shown: there are no stale events |
| `AppModes.PlanIsThere` | crates/app/src/actions.rs:747-754 | after a completed scan its plan is there |
| `App.App.HandleKey` | crates/app/src/actions.rs:16-26 | the whole state after any key in any mode: which dialog, text, items and place it shows, which job it starts from which panel to which, with which items, directory and settings; Esc cancels the job shown and no other; a job can always be started |
| `App.App.HandleJobEvent` | crates/app/src/actions.rs:654-773 | the whole state after any event, in terms of what the closure of its job came to: a report changes only the report shown, a background end only the background jobs; the end of the job shown closes it, sets the status, and connects, opens or shows the plan of a scan unmodified exactly on success |
| `App.App.FinishScan` | crates/app/src/actions.rs:747-768 | the plan goes from its cell into the dialog with the scan's own places |
| `App.App.StartExecute` | crates/app/src/actions.rs:343-366 | the executed plan and places are those of the dialog |
| `App.App.StartScan` | crates/app/src/actions.rs:311-341 | scans the active panel's directory into the inactive one's |
| `App.App.RunLoop` | crates/app/src/main.rs:104-146 | every interleaving of keys, events and threads is a run of these steps and keeps the invariants at every state |
| `AppEffects.Trim` | crates/app/src/actions.rs:414 | a submitted text is taken without the white space around it |
| `AppEffects.EachIsRenamed` | crates/app/src/actions.rs:507-511 | a move within one place renames each item under its own name into the directory, in order |
| `AppRuns.KeyStartsAtMostOne` | crates/app/src/actions.rs:16-26 | no key loses the progress dialog; any other key starts at most one job and then shows it; a sync is executed only from its own dialog |
| `AppRuns.StatusTells` | crates/app/src/actions.rs:689-693 | the status is "failed" exactly if the closure of the job shown failed or panicked, and "cancelled" exactly if it stopped for the user |
| `AppRuns.CancelledByEsc` | crates/app/src/actions.rs:647-652 | over any run, a job that is cancelled was cancelled by Esc while it was shown |
| `AppRuns.CancelledStatusWasAsked` | crates/app/src/actions.rs:647-693 | over any run, "cancelled" is only reported of such a job |
| `AppRuns.CopiesWhatWasChosen` | crates/app/src/actions.rs:200-211 | from the copy key to Enter, whatever is typed and whatever jobs do meanwhile, the job copies the items chosen when the dialog opened, from that panel's place to the other's |
| `AppRuns.MovesWhatWasChosen` | crates/app/src/actions.rs:213-231 | so does the move of a selection, as renames within one place and as a move across two |
| `AppRuns.DeletesWhatWasChosen` | crates/app/src/actions.rs:255-291 | what is deleted after asking is what was chosen when the question was put, in that panel's place |
| `AppRuns.ConnectsWhereAsked` | crates/app/src/actions.rs:697-719 | a connection appears at its root in the panel that was active at Enter, if and only if its job succeeds, and the other panel does not change |
| `AppRuns.SyncsWhatWasScanned` | crates/app/src/actions.rs:311-384 | from the sync key to the accepted plan: what is executed is the plan the scan of the two panels left, between the places they showed when the key was pressed |

## Left out

- `move_job` (rename within one backend; which renames it is given is modelled) and `set_permissions`: they would add easy members.
- `negotiate_transport`, the agent's startup lines and deployment: pure choices, thin wrappers or a bounded parser beside the engine.
- SSH, QUIC, TLS and tokio internals: a stream is an ordered byte stream whose end is seen only after `finish()`; that a dropped stream never passes for a finished one is an assumption of this model.
- Flow control of a QUIC stream: a write that would block for the peer is a write that completes later or fails.
- Permissions and owners, and other processes changing the trees while a job runs.
- Following symlinks: opening one for reading or writing fails with `ThroughSymlink`, and reading through a link of unknown target yields opaque bytes.
- The local backend's more lenient `mkdir` (it accepts existing directories): the strict SFTP meaning is modelled.
- Wrap-around of the 64-bit byte counters and sizes.
- Names that are not valid UTF-8; hashing and archive decoding, which are a deterministic function and a given list of entries.
- Cursor and viewport arithmetic, text editing, the external editor, rendering, the QUIC glyph of a panel, the text of messages and labels: an edit yields any text and a reload any cursor.
- The flush at the end of a transfer and the throughput logs.
- FastPath.QuicTransfer: after a failed upload the agent may still be storing a prefix of the same file.
- ArchiveCopies.CopyOut: one item at a time, and reading the extracted bytes does not fail.
- Backends.Backend.ListDir: the order of a listing is arbitrary, where the backends sort; nothing in the engine depends on it.
- SyncRun.ExecuteSyncPlan: on one backend the two roots must not lie at or under each other; overlapping trees are only described for a file copied onto itself (`Transports.Transfer`).
- SyncRun.SyncThenScan: the same for its two roots.
- SyncExec.ExecuteCopy: the same for its two roots.
- CopyJobs.CopyJob: on one backend no item and no target may lie at or under the other; equal names are covered.
- CopyJobs.MoveCrossBackend: with equal names the links lost are not counted exactly, only everything else is.
- AgentLink.HandleStream: client and server take turns on a stream; their overlap in time is the subject of `Uploads` and `Downloads`.
- AgentLink.StoreStream: the sender has finished the stream; storing while it is still being written is part of `Uploads`.
- ArchiveFs.Archive.ListDir: the library sort is replaced by picking directories and then the rest from the sorted index, which yields the same order.
- ArchiveIndex.BuildIndex: the library sort is replaced by insertion, which yields the same order.
- App.App.HandleJobEvent: a scan's plan cell is identified by the job's id instead of being a shared object.
