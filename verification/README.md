# nawst: a verified model of its core

nawst is a replicated key-value store written in Go. Keys hash to 1024 virtual
nodes (vnodes). Each vnode has a primary and some replicas. A leader computes the
placement of vnodes from node metrics and commits it through Raft. Every node
keeps a versioned store behind a write-ahead log. This project models those parts
in Dafny and proves what they guarantee together.

`dafny verify dfyconfig.toml` checks everything.

## Layout

| Files | What they model |
|---|---|
| `Commands`, `LastWriterWins`, `Store` | the versioned table, and the store with its indexes and counters as a refinement of it |
| `WalCodec`, `WalFormat`, `WalWriter`, `Replay` | the log format, byte by byte, the buffered writer, and the reader |
| `EventLoop`, `WriterRefines`, `LoopObject` | event loop, log writer and acknowledgements as a step machine with crashes and vnode drops, and the writer and loop objects as refinements of it |
| `Drops`, `Recovery` | what a restart gives back |
| `Transfer`, `Dropper` | streaming a vnode from one node to another, and deleting it where it was lost |
| `NodeOrder`, `Counting`, `Sorting` | shared definitions |
| `Scores`, `Apportion`, `Assignment`, `Ring`, `Replicas`, `Placement` | how a placement is computed |
| `Metrics`, `ShortTerm`, `Control`, `Cloning`, `LongTermRows` | the controller that proposes placements, and its in-place work on cloned rows |
| `PlacementLog`, `Migration` | the placement log, the cluster around it, and what nodes do when it changes |
| `BatchWorker`, `Quorum` | replication of a write to the other holders |
| `Routing`, `Versions` | from key to node, and the source of versions |

## How things are modelled

- Code that updates state is a class or a method with loops. Its contract ties the
  new state to a function of the old one, and theorems are about those functions.
- Where objects run side by side, the theorems are about a step machine. The log
  writer and the event loop are proved to follow its steps (`WriterRefines`,
  `LoopObject`).
- Goroutines are steps of a state machine taken in any order. Channels are
  sequences. A timeout, a failed send or a crash is a step that may happen at any
  time. "Every run" below means every sequence of such steps.
- `float64` is `real`. The hash function is a parameter. Raft is a log that all
  nodes read in the same order.
- A store is compared with a plain table: `Agrees(s, t, home, leaked)` says that
  values, metadata, both indexes and all counters of `s` are those of table `t`
  when every key is filed under the vnode `home(key)`, and that `valueBytes`
  exceeds the stored bytes by `leaked`.

## Where the code does less than it seems to promise

Each has a lemma with the exact condition.

- A command whose vnode is not its key's home breaks the indexes
  (`Store.AgreementKeptExactlyWhenFiledAtHome`). Writes accepted before the first
  placement are such commands, except for low hashes
  (`Routing.EarlyWritesAreMisfiled`).
- Deleting a vnode's data does not subtract its bytes (`Store.ValueBytesExactly`).
- Dropping a vnode is not logged. A restart brings back what was dropped, except
  where newer writes came after (`Drops.ReplayIsLiveExactly`,
  `Recovery.WholeLogGivesBackExactly`).
- The deletes a node logs before dropping a lost vnode stay in its log. After a
  restart they win over older data fetched back
  (`Dropper.FetchBackRestoresExactly`, `Migration.RegainAfterRestartLoses`).
- A vnode without an entry in the live index is streamed as empty, so its delete
  markers are lost (`Transfer.SnapshotCompleteExactly`, `Transfer.LostDeleteMarker`).
- Equal versions do not converge (`LastWriterWins.CommuteExactly`).
- An unversioned write on the largest version wraps to zero
  (`LastWriterWins.StepLowersVersionExactlyOnWrap`); so does the version counter
  (`Versions.IncreasesExactlyBelowMax`).
- A log cut inside a record makes start-up fail (`Replay.RecoverFromCut`).
- A node that restores the snapshot of a machine without a placement goes down on
  the first one it is given (`Migration.EmptyRestoreCrashes`,
  `Migration.CrashNeedsEmptyRestore`).
- A primary demoted to replica deletes the vnode it still holds, and every
  short-term swap does this (`Migration.DropsKeepHeldKeysExactly`,
  `Migration.SwapsEmptyTheDemoted`, `Migration.CopiesAfterChange`).
- A failed send while a batch is in flight lets a later acknowledgement be
  reported for a batch that was never acknowledged
  (`BatchWorker.FailedSendMisreports`, `BatchWorker.MisreportHappens`).
- When members leave before the placement changes, two write quorums need not
  meet (`Quorum.QuorumsMeetByMembers`, `Quorum.ShrunkClusterQuorumsMiss`).

Where comments and code disagree, the model follows the code: a vnode's stored
token is documented as the start of its key range (cluster/placement.go:26) but
lies below it (`Routing.StoredTokenIsBelowBucket`); a comment says that transfers
skip the version-aware merge (cluster/replication.go:1394-1397) but the store
makes it (`Transfer.TransferMerges`).

## Model

| member | source | states |
|---|---|---|
| `LastWriterWins.RunLeavesWinner` | core/store.go:61-148 | after any versioned log, each key holds the cell of its newest write, the last one on ties, or what it held before if that is newer |
| `LastWriterWins.ReadsLastWrite` | core/store.go:61-171 | by the byte of the operation: a put (0) is read back under its version, a deleted (2) key is gone, a stale write and any other operation change nothing, and no other key changes |
| `LastWriterWins.RunKeepsVersions` | core/store.go:65-74 | unless an unversioned write wraps, no later write of a log takes a key below the version an earlier write left, which is at least the one it asked for |
| `LastWriterWins.StepLowersVersionExactlyOnWrap` | core/store.go:65-74 | a command lowers some key's version if and only if it is an executed unversioned write on the largest version |
| `LastWriterWins.ZeroStoredExactlyOnWrap` | core/store.go:65-74 | stored versions stay non-zero if and only if no such wrap happens |
| `LastWriterWins.Converges` | core/store.go:61-148 | any two orders of the same versioned writes with distinct versions per key give the same table from any start |
| `LastWriterWins.CommuteExactly` | core/store.go:65-74 | two versioned writes commute if and only if they differ in key or version, leave the same cell, or are both stale |
| `LastWriterWins.ReplayIsIdempotent` | core/store.go:61-148 | applying a versioned log on top of its own result changes nothing |
| `Store.EmptyAgrees` | core/store.go:46-53 | the new store is the empty table's, without leaks |
| `Store.StepAgrees` | core/store.go:61-148 | a command filed at its key's home keeps values, metadata, both indexes and all four counters those of the table, and is accepted, ignored or rejected as the table says |
| `Store.AgreementKeptExactlyWhenFiledAtHome` | core/store.go:59-148 | an executed command leaves a state that some table explains if and only if it carries its key's home vnode |
| `Store.DropAgrees` | core/store.go:263-295 | dropping a vnode removes exactly its keys and leaks exactly the bytes of its live values |
| `Store.GuardsNeverMatter` | core/store.go:263-295 | the positivity guards before the decrements never block one |
| `Store.AgreementDetermines` | core/store.go:61-148 | table, home and leak fix every index set and counter, absent read as empty |
| `Store.RunAgrees` | core/store.go:61-148 | over every run of writes and drops the store stays the table's, with the leak summed up |
| `Store.NoLeakExactly` | core/store.go:263-295 | a run leaks nothing if and only if each drop hit a vnode without live bytes |
| `Store.ValueBytesExactly` | core/store.go:263-295 | `valueBytes` is the sum of stored lengths after a run if and only if each drop hit a vnode without live bytes |
| `Store.StoresConverge` | core/store.go:61-148 | two orders of the same versioned writes give equal values, metadata, counters and index sets |
| `Store.StoreReplayIsIdempotent` | core/store.go:61-148 | replaying a versioned log on the store it built changes no value, metadata, counter or index set |
| `Store.Store.Apply` | core/store.go:61-148 | the in-place update computes exactly the step function that the lemmas above are about |
| `Store.Store.GetWithVersion` | core/store.go:157-171 | answers as the table the store agrees with; in any state finds exactly the stored keys not marked deleted |
| `Store.Store.SnapshotVNode` | core/store.go:206-258 | in any state lists the stored live-indexed keys once with value and version and then the marked keys once as deleted, and nothing without a live-index entry; each key once unless a marked key is still stored |
| `Store.Store.GetKeysForVNode` | core/store.go:175-190 | lists exactly the live-indexed keys of the vnode, each once |
| `Store.AgreeingMarksNothingStored` | core/store.go:206-258 | in a store that agrees with a table no marked key is still stored, so its snapshots list each key once |
| `Store.Store.DeleteVNodeData` | core/store.go:263-295 | the in-place deletion computes exactly the drop function |
| `WalCodec.RecordRoundTrip` | core/wal.go:108-141 | a record followed by anything reads back as that command and that rest |
| `WalCodec.RecordTorn` | core/wal.go:177-237 | a record cut anywhere inside is recognised as short |
| `WalCodec.CompleteIsMaximal` | core/wal.go:177-237 | the complete records of a cut log are all that end at or before the cut |
| `WalCodec.TornLog` | core/wal.go:177-237 | reading any byte prefix of any log yields exactly its complete records and ends cleanly if and only if the cut is at a boundary |
| `WalCodec.LogRoundTrip` | core/wal.go:177-237 | decoding the encoding of any command list gives that list |
| `WalCodec.ReadsBack` | core/wal.go:177-237 | any prefix of a log's bytes reads back as a prefix of its commands with every record that is all there |
| `WalCodec.BytesPrefixIffCommandsPrefix` | core/wal.go:108-141 | one log's bytes start another's if and only if its commands do |
| `WalFormat.UvarintIsVarint` | core/wal.go:134-140 | a length is written as the shortest varint of its value: seven-bit digits, least significant first, high bit set on all bytes but the last |
| `WalFormat.ReadsVarint` | core/wal.go:209-232 | every varint of at most ten bytes, shortest or not, is read as the value of its digits |
| `WalFormat.EncodeIsRecord` | core/wal.go:124-140 | the bytes written for a command are op, two vnode bytes and eight version bytes with the most significant first, length of the key, key, length of the value, value |
| `WalFormat.ReadRecordExactly` | core/wal.go:187-232 | a command is read if and only if the input is such a record of it and then the rest |
| `WalFormat.DecodeExactly` | core/wal.go:177-237 | a file reads to its end as a list of commands if and only if it is their records one after the other |
| `WalFormat.LogIsRecords` | core/wal.go:108-141 | a log written is its commands' records one after the other |
| `WalWriter.EncodingFits` | core/wal.go:109-122 | the space reserved for a command is never too small |
| `WalWriter.PutCommand` | core/wal.go:124-140 | writes exactly the bytes of the command's record at the buffer position and nothing before it |
| `WalWriter.FlushedSound` | core/wal.go:89-103 | a flush leaves file plus buffer unchanged, empties the buffer, and in fsync mode makes the file durable; on failure the file only gained part of the buffer |
| `WalWriter.TookAllSound` | core/wal.go:107-141 | taking a batch keeps file plus buffer equal to the opened file and the encodings of everything taken, across flushes and failures |
| `WalWriter.HandledSound` | core/wal.go:83-159 | a round adds exactly the batch to file plus buffer, keeps the watermark covered by durable bytes, and publishes the id if and only if it succeeded and the channel was empty |
| `WalWriter.Writer.Flush` | core/wal.go:89-103 | computes exactly the flush function: write, optional sync, and what is left on failure |
| `WalWriter.Writer.PutAll` | core/wal.go:107-141 | computes exactly the function that takes a batch, whatever the size of the buffer and wherever it has to flush or grow |
| `WalWriter.Writer.Publish` | core/wal.go:144-151 | computes exactly the flush and then publishes the id, only if the flush succeeded |
| `WalWriter.Writer.Handle` | core/wal.go:83-159 | computes exactly the round function, keeps the writer sound, and publishes the id if and only if it succeeded and the channel was empty |
| `WriterRefines.StartShows` | core/wal.go:83-88 | a writer opened on a log corresponds to the machine's initial writer |
| `WriterRefines.RoundIsRun` | core/wal.go:83-159 | every round of the writer object, with any steps of loop, acknowledger and droppers taken meanwhile, is a run of the step machine between corresponding states: same file, buffer, synced length, watermark and failure; it publishes if the channel is empty when it looks |
| `WriterRefines.RoundIsCrashSafe` | core/wal.go:83-159 | so after any run that ends in such a round, whatever a crash leaves of the object's file reads back as a prefix of the log with every command answered |
| `Replay.ReplayWal` | core/wal.go:177-237 | the reading loop applies the decoded commands in order and succeeds if and only if the file is clean and the store accepts them |
| `Replay.ReplayExactly` | core/wal.go:177-237 | replay executes everything before the first command the store rejects, and succeeds if and only if there is none |
| `Replay.RejectedExactly` | core/store.go:61-148 | a command is rejected if and only if it is neither a put nor a delete and not stale, and then changes nothing |
| `Replay.ReplayAgrees` | core/wal.go:177-237 | replaying any log of writes is accepted in full and leaves the store agreeing with the table those writes build |
| `Replay.RecoverFromCut` | core/wal.go:177-237 | for a file cut at any byte the store is the one of the complete records, and replay succeeds if and only if the cut is at a boundary |
| `EventLoop.ProcessBatchRound` | core/loop.go:63-89 | processing a batch executes it, appends it under the next id, hands it to the acknowledger and clears it |
| `EventLoop.EveryRequestIsLogged` | core/loop.go:58-132 | in every run the write requests taken are the log and the batch in progress, in order, and no batch outgrows the limit |
| `EventLoop.RunInv` | core/loop.go:42-133 | in every run, with vnodes dropped at any time, ids follow append order, the disk holds a prefix of the log up to the watermark, answers follow the watermark, the log is the commands executed, and the table is the history of writes and drops applied |
| `EventLoop.EveryCommandIsAnswered` | core/loop.go:44-56 | in every run reply i answers command i of the log, every command appended is answered, in hand or queued in that order, a client is told of an error only if the log writer failed, and then so is every later one |
| `EventLoop.BatchIsAnswered` | core/loop.go:44-56 | the acknowledger waits while a batch is neither flushed nor given up, and then gives each of its commands one answer in order, success if and only if the writer has not failed |
| `EventLoop.ImageReadsBack` | core/wal.go:83-159 | whatever a crash leaves of the file reads back as a prefix of the log that reaches the watermark |
| `EventLoop.CrashSafe` | core/loop.go:46-89 | at every crash point of every run, what is left reads back as a prefix of the appended commands with every command already answered with success |
| `EventLoop.AcknowledgedWritesSurvive` | core/loop.go:46-89 | and each acknowledged key is recovered with a version at least as large, unless a version wraps in the log |
| `EventLoop.RecoveredVersion` | core/wal.go:177-237 | replaying a log without a wrap gives each write in it its version or a newer one |
| `LoopObject.EventLoop.Append` | core/wal.go:62-66 | ids count commands and batches are queued in id order |
| `LoopObject.EventLoop.ProcessBatch` | core/loop.go:63-89 | the store runs the batch; an empty batch changes nothing, any other is queued once for the log and once for acknowledgement; the corresponding machine state moves through the steps of the batch to the corresponding state |
| `LoopObject.EventLoop.Read` | core/loop.go:100-103 | a read answers what the machine's table holds for the key, acknowledged or not |
| `LoopObject.EventLoop.WriteNow` | core/loop.go:106-120 | in enqueue mode a write is logged and executed at once |
| `LoopObject.EventLoop.Collect` | core/loop.go:122-131 | a write joins the batch, and exactly a full batch is processed; the machine receives the command and takes the steps of a full batch |
| `LoopObject.BatchRuns` | core/loop.go:63-89 | the steps of a batch take the machine from collecting it to an empty batch with the table, ids and both channels advanced by it |
| `Recovery.RestartAfterCrash` | core/wal.go:177-237 | after any crash of any run, replay accepts what it reads, that includes every acknowledged command, and indexes and counters agree |
| `Drops.LiveSinceDrop` | core/store.go:263-295 | in every history a key of the live table is what the writes since the last drop of its vnode make of it |
| `Drops.ReplayIsLiveExactly` | core/store.go:263-295 | replaying the log of a versioned history gives the live cell of a key if and only if its vnode was never dropped or its newest write is later than the last drop |
| `Drops.RunHoldsNewest` | core/store.go:61-148 | after a versioned log a key holds the cell of its newest write, counting what it held before |
| `Drops.PrefixIsLiveExactly` | core/store.go:263-295 | replaying any first part of the log of a versioned history gives the live cell of a key if and only if its newest write in that part leaves the same cell as its newest write since the last drop of its vnode |
| `Recovery.RestartGivesBackExactly` | core/wal.go:177-237 | so after every run and every crash, whatever of the log is lost, a restart gives a key what the live store had under exactly that condition |
| `Recovery.WholeLogGivesBackExactly` | core/wal.go:177-237 | when nothing of the log is lost: if and only if the key's vnode was never dropped or its newest write is later than the last drop |
| `Recovery.CleanImageIsLog` | core/wal.go:177-237 | if the file a crash leaves reads back without an error, it is exactly the encoding of the commands read, so the next run appends to a whole log |
| `Recovery.AcknowledgedInEveryLife` | core/wal.go:83-237 | over any number of crashes and restarts, a command answered with success in one run is read back in its place after that crash and after every later one |
| `Recovery.VersionInEveryLife` | core/wal.go:83-237 | so its key is recovered each time with its version or a newer one, unless an unversioned write wraps |
| `Transfer.SnapshotIsVNode` | core/store.go:206-258 | with a live-index entry the snapshot is the vnode's whole table, delete markers included |
| `Transfer.SnapshotCompleteExactly` | core/store.go:210-218 | the snapshot has every key of the vnode if and only if there is a live-index entry or there are no delete markers |
| `Transfer.LostDeleteMarker` | core/store.go:210-218 | a store that only deleted a key it never had streams nothing |
| `Transfer.Stream` | core/rpc.go:642-693 | sends the snapshot's entries and then the end marker, up to the first send that fails |
| `Transfer.Receive` | cluster/replication.go:1368-1417 | applies entries up to the end marker, an error or the end; fails exactly on a refusal, a broken connection, or an entry the event loop answers with an error, whether or not it was applied |
| `Transfer.StreamDelivers` | core/rpc.go:642-693 | any part of the stream delivers exactly the commands of the entries sent, in order |
| `Transfer.TransferMerges` | cluster/replication.go:1368-1417 | applying a snapshot in any order to any table keeps per key of the vnode the newer cell, the source's on ties, and changes no other key |
| `Transfer.TransferEndToEnd` | cluster/replication.go:1330-1422 | a store that receives a whole stream agrees with its table merged with the source's vnode |
| `Transfer.PartialTransferIsSafe` | cluster/replication.go:1368-1417 | a transfer cut anywhere leaves every key merged or as it was |
| `Dropper.DropVNode` | cmd/server/main.go:165-183 | sends one versioned, logged delete per live key and then drops the vnode, with any other commands executed in between; it stops before the drop if and only if a delete is answered with an error |
| `Dropper.DroppingLeaves` | cmd/server/main.go:165-183 | whatever is executed before the drop, the live table ends as that without the vnode's keys, and leaks exactly the bytes still live there |
| `Dropper.DropperAgrees` | cmd/server/main.go:165-183 | the deletes are filed under the keys' vnode, so indexes and counters agree with the table after deletes, filed commands in between, and drop, with exactly that leak |
| `Dropper.DeletedOrNewer` | cmd/server/main.go:165-183 | whatever is executed around the deletes, a deleted key ends under the delete's version or a newer one, and marked deleted if no newer write is among them |
| `Dropper.DropperLeavesWithout` | cmd/server/main.go:165-183 | when the only other writes are of the vnode's keys, the live table ends without exactly the vnode's keys |
| `Dropper.DeletedCell` | core/store.go:61-148 | a dropped key is marked deleted under the delete's version, unless the key is newer |
| `Dropper.DropperLeaks` | cmd/server/main.go:165-183 | on a quiet node the dropper leaks exactly the bytes of the live keys whose delete came too late |
| `Dropper.ReplayedCell` | core/wal.go:177-237 | after a restart a dropped key is marked deleted, or has what the log before had if that is newer |
| `Dropper.FetchBackRestoresExactly` | cluster/replication.go:1330-1422 | fetching the vnode back after a restart restores a dropped key if and only if the source's version is not older than the delete nor than what the log had |
| `Dropper.FetchBackAmongOthers` | cluster/replication.go:1330-1422 | with other commands executed around the deletes, if and only if its version is not older than the replayed one; so never if it is older than the delete |
| `Dropper.FetchBackLiveRestores` | cluster/replication.go:1330-1422 | without a restart it restores every key |
| `NodeOrder.LessExactly` | cluster/placement.go:225 | ids are ordered as in a dictionary: by the first character that differs, a prefix first |
| `Assignment.ReassignMeetsTargets` | cluster/placement.go:155-246 | when the targets add up to the vnodes, every node ends with exactly its target |
| `Assignment.ReassignMovesFewest` | cluster/placement.go:155-246 | no assignment that meets the same targets changes fewer primaries |
| `Assignment.ReassignGivesToHeaviest` | cluster/placement.go:211-240 | every vnode that moves goes to the node that weighs most for it among those still short of their target at that point, the smaller id on ties |
| `Assignment.ReassignKeepsLast` | cluster/placement.go:164-200 | a node that has to give vnodes up keeps its last ones |
| `Assignment.UnmovedExactlyWhenKept` | cluster/placement.go:155-246 | a vnode keeps its primary if and only if it was not revoked, so no revoked vnode returns to its old owner |
| `Assignment.BestIsUnique` | cluster/placement.go:216-229 | the highest-weight node with a deficit is unique, ties broken by name, so the order of iteration does not matter |
| `Ring.InitializeVNodes` | cluster/placement.go:48-57 | 1024 unowned vnodes, ids in order, tokens at multiples of the bucket size |
| `Ring.CountOwners` | cluster/placement.go:162-168 | counts the vnodes of every named owner |
| `Ring.PickBest` | cluster/placement.go:216-229 | returns the node with the highest weight among those short of their target, the smallest id on ties, or none if there is none |
| `Ring.Rebalance` | cluster/placement.go:155-246 | the loops compute the reassignment function and change only primaries: every node ends with its target, keeps its last vnodes, and each vnode that moves goes to the heaviest node still in need; it ends normally if and only if the targets of named nodes add up to the vnodes and the empty name has none, and with the mismatch panic if and only if all targets do not add up |
| `Placements.Placement.AssignVNodes` | cluster/placement.go:155-246 | in place, with a fresh ring if there is none: targets met, last vnodes kept, moved vnodes to the heaviest node in need; ends normally if and only if the targets add up and none is for the empty name |
| `Placements.Placement.AssignReplicas` | cluster/placement.go:248-348 | in place, every vnode with a primary gets exactly the chosen replicas for the given metrics |
| `Scores.CalculateScores` | cluster/score.go:47-142 | one positive score per node, in order, by the weighted relative formula |
| `Scores.ScorePositive` | cluster/score.go:47-142 | scores are positive for all metrics, also out of range ones |
| `Scores.NoWorseScoresNoHigher` | cluster/score.go:47-142 | a node no worse in every measure never scores higher |
| `Scores.AverageNodeScores` | cluster/score.go:47-142 | a node of a uniform cluster scores 0.31 of its round trip over itself + 10^-9, 0.15 of processor, 0.16 of memory, 0.24 of network use, and 0.14 over what is left of the disk up to 1.01, which counts as 0.02 at least |
| `Scores.MissingCountsAsOne` | cluster/score.go:47-142 | a missing round trip or capacity counts as one, a usage outside the unit range as its end |
| `Scores.ScoreParts` | cluster/score.go:47-142 | a score is the round trip relative to the cluster's, or 1 without one, and the weighted loads |
| `Scores.SizeDividesLoad` | cluster/score.go:47-142 | the same load weighs 1/k on a node with k times the capacities |
| `Apportion.GetTargetVNodeCount` | cluster/placement.go:88-154 | counts for exactly the given nodes that sum to 1024; each is a share inversely proportional to score + 10^-9 (score 1 if negative) of 1024 in all, rounded down, or up for the largest remainders with ties by id; never fewer for a strictly lower score |
| `Apportion.RestOf` | cluster/placement.go:129-151 | rounding down leaves at least zero and fewer vnodes than nodes, all owed to positive remainders |
| `Apportion.FollowsApportions` | cluster/placement.go:88-154 | giving the rest to the largest remainders meets sum, quota and fairness |
| `Apportion.FollowsByScore` | cluster/placement.go:99-151 | the same in numbers: shares of 1024 by inverse cost, rounded by largest remainder |
| `Replicas.ChosenAreEligible` | cluster/placement.go:248-348 | replicas are distinct known nodes with metrics, never the primary |
| `Replicas.RoomIsFilled` | cluster/placement.go:336-340 | a candidate is left out only if the factor less one replicas are chosen |
| `Replicas.ChosenAreCheapest` | cluster/placement.go:290-340 | every candidate left out costs more than every one chosen, or the same and has the larger id |
| `Replicas.SuitabilityInNumbers` | cluster/placement.go:290-323 | the cost times what is left of the network up to 1.01 times bandwidth + 10^-9 is the round trip, 1000 without a measured one, with at most a tenth of jitter |
| `Replicas.SaturatedIsExtreme` | cluster/placement.go:298-305 | a network used to exactly 1.01 costs more than any finite amount, or less if the bandwidth is negative |
| `Replicas.ReplicateAll` | cluster/placement.go:248-348 | the loop changes exactly the replicas of vnodes with a primary |
| `Metrics.HandleAllStaysClean` | cluster/replication.go:214-241 | over every run of gossip, metrics keep distinct non-empty ids and usages between 0 and 1 |
| `Metrics.SmoothMovesAQuarter` | cluster/replication.go:833-877 | a smoothed usage or round trip is a quarter of the way from the old value to the reading, clipped to the unit range; a missing round trip or capacity keeps the old one |
| `Metrics.FirstReportIsTaken` | cluster/replication.go:833-845 | the first report is taken as it is, usages clipped to the unit range |
| `Metrics.EqualReportsConverge` | cluster/replication.go:833-877 | after n equal reports the distance to them has shrunk to 0.75^n |
| `Metrics.HandleExactly` | cluster/replication.go:214-241 | a message replaces its node's metrics and average by the smoothed report and its new round trips, and changes nothing else |
| `Metrics.ActiveIsClean` | cluster/replication.go:537-547 | so do the metrics of the current members |
| `Metrics.ActiveExactly` | cluster/replication.go:537-547 | a metric is kept if and only if its node is a member, as often as it was reported |
| `Metrics.ActiveInOrder` | cluster/replication.go:537-547 | in the order of the reports |
| `Metrics.FilterActive` | cluster/replication.go:537-547 | keeps exactly the metrics of members, in order |
| `ShortTerm.ComputeAverageRTT` | cluster/replication.go:880-896 | the average of the positive round trips, or zero |
| `ShortTerm.AverageIsMean` | cluster/replication.go:880-896 | the average is the sum of the positive round trips over their number |
| `ShortTerm.DegradedExactly` | cluster/replication.go:952-973 | a node is severely degraded if and only if processor or disk use is at least 0.9, or its round trip at least 120 and at least twice the cluster's average |
| `ShortTerm.ExtendedAt` | cluster/replication.go:413-427 | an evaluation adds one verdict for each active node and none for others |
| `ShortTerm.TrailingMeans` | cluster/replication.go:416-427 | a streak reaches k if and only if the last k verdicts were all bad |
| `ShortTerm.EvaluateStreaks` | cluster/replication.go:413-427 | over every history, a node counts as persistently degraded if and only if its last six evaluations found it degraded |
| `ShortTerm.SixInARow` | cluster/replication.go:413-427 | persistently degraded means that the last six verdicts exist and are all bad |
| `ShortTerm.PickReplica` | cluster/replication.go:442-462 | the replica picked is not degraded, scores below 0.9 of the primary, and no eligible one scores below 0.9 of it; none is picked if and only if none is below 0.9 of the primary |
| `ShortTerm.SwapKeepsHolders` | cluster/replication.go:464-469 | a swap exchanges the primary and that replica, and keeps everything else of the vnode and its holders |
| `ShortTerm.EvaluateVNode` | cluster/replication.go:433-470 | a vnode is swapped if and only if its primary is persistently degraded, scored, and some replica is clearly cheaper |
| `ShortTerm.SwapExactly` | cluster/replication.go:430-469 | a vnode is swapped if and only if its primary was degraded six times in a row and some replica not degraded now costs less than nine tenths of it, and then with one to which no other is cheaper in that way |
| `Control.ReplicatedIsWellFormed` | cluster/placement.go:248-348 | choosing replicas on a ring with primaries gives a well-formed ring with the same primaries |
| `Control.CountsAreTargets` | cluster/placement.go:88-154 | apportioned counts are targets on which reassignment cannot panic |
| `Control.MeasureDrift` | cluster/replication.go:567-583 | counts the vnodes whose primary, and whose replica set, differ |
| `Control.DriftsCount` | cluster/replication.go:567-583 | the drifts are the numbers of vnodes with another primary, and with other replicas in whatever order |
| `Control.NegligibleExactly` | cluster/replication.go:584-594 | a proposal is dropped if and only if at most 121 primaries moved and five times one more than the moved replica sets is within 1024 times the other replicas wanted; ten moved primaries make a short-term proposal |
| `Control.SwappedKeepsHolders` | cluster/replication.go:430-470 | an evaluated ring is well-formed and every vnode has the same holders |
| `Control.SwapAll` | cluster/replication.go:430-470 | evaluates every vnode and counts exactly those whose primary changes |
| `Control.BuildProposal` | cluster/replication.go:549-565 | from clean metrics: a well-formed ring whose primaries are the old ones reassigned to the apportioned counts and whose replicas are the cheapest for each primary, never ending in a panic |
| `Control.RebalancedMovesFewest` | cluster/replication.go:549-565 | a rebalanced ring changes as few primaries as any that meets the same counts |
| `Control.Replicator.HandleMetricsMessage` | cluster/replication.go:214-241 | one gossip message updates metrics, averages and round trips as the step function says and keeps them clean |
| `Control.Replicator.UpdatePlacement` | cluster/replication.go:500-623 | proposes if and only if there are active metrics and the drift is not negligible; never panics; the proposal is new, one epoch later, and its ring is the rebalanced one with replicas chosen by the active metrics |
| `Control.Replicator.UpdatePlacementShortTerm` | cluster/replication.go:357-498 | keeps streaks true to the history; proposes if and only if at least ten vnodes swap; the proposal is one epoch later with every vnode on the same holders |
| `Control.Replicator.SetPlacement` | cluster/replication.go:188-192 | installing a well-formed placement keeps the controller valid |
| `Cloning.CloneVNodes` | cluster/replication.go:819-831 | new rows with new replica arrays, no two shared, equal in value |
| `Cloning.SwapOnClone` | cluster/replication.go:430-470 | the in-place loop on the clone computes the value-level evaluation and leaves every installed row as it was |
| `LongTermRows.AssignVNodeRows` | cluster/placement.go:155-246 | on rows, writing only primaries in place: the same reassignment with the same promises and the same panic conditions |
| `LongTermRows.AssignReplicaRows` | cluster/placement.go:248-348 | on rows, giving each a replica list of its own: the same choice of replicas |
| `LongTermRows.RebalanceOnClone` | cluster/replication.go:549-565 | the whole long-term computation on rows cloned from the installed ones: the clone ends as the rebalanced ring, replicas included, and every installed row is as it was |
| `PlacementLog.PlacementFsm.Apply` | cluster/raft.go:42-73 | installs and announces a placement if and only if there is none or it has a later epoch; errors exactly on unreadable or unknown commands |
| `PlacementLog.PlacementFsm.Snapshot` | cluster/raft.go:75-84 | a machine restored from it ends like the one it was taken from on every log to come whose placements have an epoch |
| `PlacementLog.PlacementFsm.Restore` | cluster/raft.go:86-103 | installs and announces the recorded placement, whatever was held |
| `PlacementLog.RestoredFollowsExactly` | cluster/raft.go:55-62 | a restored machine follows an entry like the original if and only if the two are equal, the entry is unusable, its epoch is positive, or it is the zero placement |
| `PlacementLog.RestoredFollowsLog` | cluster/raft.go:42-103 | machines that snapshot alike end alike on every log whose placements have an epoch |
| `PlacementLog.RestoredDivergesOnEpochZero` | cluster/raft.go:55-62 | an install at epoch zero tells them apart |
| `PlacementLog.SuccessorIsGood` | cluster/replication.go:500-623 | what either evaluation makes of a good placement is well-formed and one epoch later |
| `PlacementLog.PrefixesAreGood` | cluster/raft.go:42-73 | whatever prefix of the log is applied, the placement held is well-formed, even with proposals computed from stale placements |
| `PlacementLog.EpochsIdentify` | cluster/raft.go:55-62 | along any log whose placements have an epoch, epochs never fall and an epoch names one placement |
| `PlacementLog.InstallsExactlyWhenCurrent` | cluster/raft.go:55-62 | a proposal takes effect if and only if nothing was installed since the placement it was computed from |
| `PlacementLog.EachChangeSucceeds` | cluster/raft.go:42-73 | each change of placement is one evaluation of the placement it replaces, and epochs count the changes |
| `PlacementLog.RunKeepsInv` | cluster/raft.go:42-103 | in every run of proposals, commits, deliveries, snapshots, restores and restarts each node holds what full replay of its prefix gives |
| `PlacementLog.NodesAgree` | cluster/raft.go:42-103 | in every reachable state, whatever the nodes' replication factors, nodes with equal epochs hold the same placement, and more log never means an earlier epoch |
| `PlacementLog.NodesAgreeOnGoodPlans` | cluster/raft.go:42-103 | with one replication factor that placement is also well-formed |
| `PlacementLog.DeliveriesSucceed` | cluster/raft.go:42-73 | in every run a delivery that changes a node's placement moves it to an evaluation of the one it had, one epoch later |
| `PlacementLog.ProposeLongTerm` | cluster/replication.go:612-622 | what the long-term program submits is a successor of what it holds |
| `PlacementLog.ProposeShortTerm` | cluster/replication.go:485-497 | and so is what the short-term program submits |
| `Migration.OneGainsOneLoses` | cluster/replication.go:676-700 | a vnode is gained by exactly its new owner and lost by exactly its old one if they differ, every new holder fetches it, and only new holders are added replicas |
| `Migration.ChangeExactly` | cluster/replication.go:676-700 | the exact condition of each kind of change |
| `Migration.Classify` | cluster/replication.go:660-700 | each vnode is listed once under its change; an index fails if and only if the old ring lacks a vnode whose owner did not change hands |
| `Migration.GainedSources` | cluster/replication.go:715-731 | sources are exactly the other named holders, old and new, each once, the old owner first |
| `Migration.AddedSources` | cluster/replication.go:755-766 | sources are exactly the other named new holders, each once, the owner first |
| `Migration.Migrator.ApplyPlacementFromRaft` | cluster/replication.go:631-731 | always installs; skips migration if and only if it is the first; fails on an index if and only if a placement with vnodes replaces one without; otherwise lists every change |
| `Migration.CrashNeedsEmptyRestore` | cluster/raft.go:86-103 | in every run, a node that would fail had restored the snapshot of a machine without a placement |
| `Migration.EmptyRestoreCrashes` | cluster/replication.go:639-700 | and a run in which a machine applies an entry, is snapshotted without a placement and restored ends in that failure at the first placement |
| `Migration.DropsRemoveExactly` | cmd/server/main.go:165-183 | running the dropper for the lost vnodes leaves the live table without exactly their keys |
| `Migration.DropsKeepHeldKeysExactly` | cluster/replication.go:680-682 | the deletions keep every key of vnodes still held if and only if the node has no key in a vnode on which it was demoted |
| `Migration.SwapsEmptyTheDemoted` | cluster/replication.go:464-469 | after every short-term swap the old primary is still a holder and deletes all keys of the vnode |
| `Migration.CopiesAfterChange` | cluster/replication.go:676-803 | if old holders have a vnode's data and fetches come from nodes that have it, then after the change a new holder has it, as it was or newer from a client, if and only if it was not demoted or there is none, and, if it fetched, nothing but client writes was newer in its own table |
| `Migration.RegainAfterRestartLoses` | cmd/server/main.go:165-183 | a node that lost a vnode, restarted and gains it back ends without any key whose delete by its dropper is newer than the source's cell |
| `BatchWorker.ReplicationBatchWorker.SendBatch` | cluster/replication_batch.go:348-368 | opens a stream if needed; the batch is in flight and awaited if and only if it was sent |
| `BatchWorker.ReplicationBatchWorker.FlushPending` | cluster/replication_batch.go:370-381 | pending tasks go out as one batch, or all fail and the stream is closed |
| `BatchWorker.ReplicationBatchWorker.TakeTask` | cluster/replication_batch.go:385-389 | a task joins the pending ones and exactly a full batch is sent |
| `BatchWorker.ReplicationBatchWorker.TakeReply` | cluster/replication_batch.go:394-418 | a reply settles the oldest batch; a broken stream fails everything |
| `BatchWorker.ReplicationBatchWorker.Stop` | cluster/replication_batch.go:420-423 | closes the stream and fails everything taken |
| `BatchWorker.RunConserves` | cluster/replication_batch.go:276-424 | in every run each accepted task is in exactly one of queue, pending, in flight and finished |
| `BatchWorker.FinishedOnce` | cluster/replication_batch.go:276-424 | no task is finished twice, and after stop a task is finished if and only if it had been taken from the queue |
| `BatchWorker.SuccessMeansAcked` | cluster/replication_batch.go:370-418 | in every run in which no send fails with a batch in flight, success is reported for exactly the tasks of acknowledged batches |
| `BatchWorker.AcksSettle` | cluster/replication_batch.go:336-418 | from any state with replies matched, the replica's acknowledgements can all be received and report success for every task in flight, in order |
| `BatchWorker.TickSends` | cluster/replication_batch.go:348-392 | a tick with a working link sends all collected tasks as one batch and reports nothing yet |
| `BatchWorker.FullAt512` | cluster/replication_batch.go:383-389 | a batch goes out with its 512th task and not before |
| `BatchWorker.FailedSendMisreports` | cluster/replication_batch.go:377-380 | after every unsafe event, by the clock or by a full batch, of every run safe until then, there are steps after which a task in flight is reported successful though never acknowledged |
| `BatchWorker.UnsafeIsReachable` | cluster/replication_batch.go:370-381 | a safe run from the start reaches a state in which a failing send is unsafe |
| `BatchWorker.MisreportHappens` | cluster/replication_batch.go:276-424 | a run from the start ends with such a false report |
| `Quorum.TargetsAre` | cluster/replication.go:1149-1168 | targets are exactly the named replicas other than the writer, each once |
| `Quorum.TargetsExactly` | cluster/replication.go:1147-1191 | the nodes asked are the named replicas other than the writer, of the refreshed placement if and only if the first one names none and there was a refresh |
| `Quorum.ResolveTargets` | cluster/replication.go:1149-1168 | the loop computes that list, or none without a ring |
| `Quorum.AwaitQuorum` | cluster/replication.go:1238-1287 | for every order of replies it decides inside the loop, with success if and only if the writer and the positive answers heard reach the quorum |
| `Quorum.ReplicateToAll` | cluster/replication.go:1122-1287 | exact conditions of every outcome in numbers: rf / 2 + 1 acknowledgements with 1 < rf <= members, members / 2 + 1 with fewer members, and always success for a factor or a cluster of at most one; success with members means a quorum of distinct holders that each acknowledged; the local-only branch is never taken |
| `Quorum.QuorumsMeetExactly` | cluster/replication.go:1138-1140 | any two quorums of holders share one if and only if the quorum is a strict majority of the holders |
| `Quorum.AsksOwnReplicas` | cluster/replication.go:1149-1180 | a primary with replicas asks exactly them, whatever a refreshed placement would say |
| `Quorum.WriteReachesMajority` | cluster/replication.go:1122-1287 | the acknowledgers of a successful write by a vnode's primary are holders of it and a strict majority of them, if the replicas are at most the effective factor rounded down to even |
| `Quorum.WritesShareHolder` | cluster/replication.go:1122-1287 | two successful writes to a vnode, also by different primaries of the same holders, share a holder if their quorums together exceed the holders |
| `Quorum.FullClusterWritesShareHolder` | cluster/replication.go:1122-1287 | so with as many members as the factor any two successful writes to a vnode share a holder |
| `Quorum.FullClusterQuorumsMeet` | cluster/replication.go:1138-1140 | with as many members as the factor, any two quorums of the holders of a vnode of a well-formed ring share one |
| `Quorum.QuorumsMeetByMembers` | cluster/replication.go:1138-1140 | in general if and only if the replicas are at most the smaller of factor and members rounded down to even, stated in numbers for both cases |
| `Quorum.ShrunkClusterQuorumsMiss` | cluster/replication.go:1138-1140 | with five holders and three members they need not |
| `Routing.BucketsAreEqual` | cluster/placement.go:61-72 | every token has a vnode below 1024, and vnode i owns exactly the 2^54 tokens from i * 2^54 |
| `Routing.IndexIsMonotone` | cluster/placement.go:66-68 | the vnode index is monotone in the token |
| `Routing.StoredTokenIsBelowBucket` | cluster/placement.go:18-26 | the stored token of vnode i is i below the start of its range and belongs to the vnode before |
| `Routing.OneOwner` | cluster/replication.go:1298-1316 | on a well-formed ring exactly the vnode's primary accepts a key, exactly its replicas are told to be replicas, the primary is none of them, and the vnode annotated is the key's |
| `Routing.EarlyWritesAreMisfiled` | cluster/replication.go:1298-1316 | without a placement every node accepts every key under vnode 0, its later vnode if and only if the token is in the first bucket |
| `Routing.SnapshotClusterState` | cluster/state.go:11-59 | the client's state has the placement's epoch and vnodes and the address of every node whose address is known |
| `Routing.PlacementRouter.RouteForKey` | cluster/router.go:218-303 | routes if and only if the state has a ring with a primary; a write goes to the primary, a read to the holders with known addresses, rotated by the read cursor, which such a read of several targets advances by one in 64 bits and nothing else moves |
| `Routing.WritesReachTheOwner` | cluster/router.go:207-252 | a client's write target is accepted by a server with the same placement, and with a newer one if and only if the primary is unchanged; both compute the same vnode |
| `Routing.KnownExactly` | cluster/router.go:239-262 | a target is a holder under its known, non-empty address |
| `Routing.KnownInOrder` | cluster/router.go:239-262 | targets come in the order of the holders, the primary first |
| `Routing.RotationKeeps` | cluster/router.go:265-272 | rotation loses and repeats no target |
| `Routing.CursorCounts` | cluster/router.go:265-272 | k advances of the read cursor add k modulo 2^64, which is where the fairness statements start from |
| `Routing.RotationIsFair` | cluster/router.go:265-272 | over as many consecutive reads as targets each target comes first exactly once, if the cursor does not wrap on the way or the number of targets divides 2^64 |
| `Routing.RotationIsUnfairAcrossTheWrap` | cluster/router.go:265-272 | otherwise some target comes first twice or never |
| `Versions.VersionsIncrease` | core/rpc.go:151-162 | in every interleaving of concurrent callers the versions handed out strictly increase until a swap at the maximum |
| `Versions.IncreasesExactlyBelowMax` | core/rpc.go:151-162 | a version handed out is above the counter if and only if the counter was below its maximum; there it is zero |
| `Versions.CallGetsClockOrNext` | core/rpc.go:151-162 | in every interleaving a call that gets a version below the maximum gets the smallest one above the counter that its clock has not passed, so the clock itself if that is ahead |

## Left out

- gRPC, memberlist, the Raft library, bolt and TLS set-up: libraries outside the repository; their outcomes are steps that may happen at any time.
- IEEE 754 rounding and NaN: scores, shares and costs are reals, so the guards against non-finite values have no counterpart. The infinite cost of a replica with a network usage of exactly 1.01 is modelled.
- Replay.ReplayWal: a record with a length that no slice can have is an error in the model, where allocating that slice panics in the source. No cut of a written log has such a record.
- Apportion.GetTargetVNodeCount: over the reals the even-split fallback for a zero total cannot be reached and is not modelled.
- Sorting uses insertion sort where the source calls `sort.Slice`; only the order is used.
- Control.MeasureDrift: replica lists are compared as multisets, which is what comparing sorted copies does.
- Control.Replicator.UpdatePlacement: the update lock, the leadership test and the submission to Raft are not part of the method; `PlacementLog` has them as steps. It works on values; the in-place writes on cloned rows are `LongTermRows.RebalanceOnClone`.
- LoopObject.EventLoop.WriteNow: the enqueue mode is not part of the step machine.
- Control.Replicator.UpdatePlacementShortTerm: works on values; the in-place loop over cloned rows is `Cloning.SwapOnClone`.
- Epochs are unbounded naturals; their wrap-around at 2^64 is not modelled, nor is the 64-bit width of the store's counters.
- EventLoop.CrashSafe: covers the flush and fsync modes; the enqueue mode answers before the log is written and promises nothing across a crash.
- Drops.ReplayIsLiveExactly: for logs without unversioned writes, which the RPC layer never issues.
- Migration.Migrator.ApplyPlacementFromRaft: transfers, the grace period and the order of background migration on different nodes are not modelled, only which vnodes are listed and where they may be fetched from.
- Quorum.ReplicateToAll: the answers of the targets and the end of the caller's context are parameters; the refresh of the placement is given by its result.
- Routing.SnapshotClusterState: the sorted order of extra nodes is a parameter, and addresses are taken as already trimmed.
- Versions that two different nodes issue for one key may collide; nothing in the source prevents it, and convergence is proved for distinct ones.
- Liveness, tickers, debounce and timeouts: only safety is proved.
- Channel capacities and submission timeouts of the batch worker.
- `StreamKV`, single-request replication, membership reconciliation, connection caching, metrics collection, logging and command-line programs are not modelled.
