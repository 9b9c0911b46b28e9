# Verified model of a log-structured key-value store

This project models the transactional core, the write-ahead journal and the secure-cell layer of
an embedded key-value store, and proves what they promise over every input and every run.

**Optimistic transactions.** Every committed write has a sequence number, and a snapshot at
instant `i` sees the versions below `i`. A write transaction reads its snapshot through an overlay
of its own writes, records what it reads and writes, and at commit is tested against the footprints
of transactions committed since. `TxModel` is the step machine over all interleavings of begin,
read, write, commit, publish, snapshot, collection and compaction steps; `SerialSpec` is the
one-at-a-time reference; `Serializability` holds the invariant, `Precision` shows that footprints
record exactly what was read and written, and `TxTheorems` says what follows over whole runs, the
exact meaning of a conflict included. Only the two steps that raise the watermark, a collection and a pull-up, are safe in
some states and not in others (`TxModel.Harmless`): they must not overtake an instant that a
transaction, or a plain snapshot, still reads at. `TxTheorems.CollectExact` and
`TxTheorems.PullupExact` give the exact conditions, whether or not the open counts are right. Every
other step keeps every run serializable, the second release of a shared instant and a keyspace
deletion in the middle of a batch included. What the second release does spoil is the counts
(`TxTheorems.CountsRightExactly`), and what a deletion can tear is a plain snapshot
(`TxTheorems.SnapshotsAreWhole`). `TxHazards` gives a run for each guarantee that can be lost.
`SnapshotTracker`, `Conflicts`, `Overlay` and `Optimistic` are the objects behind the machine,
updated in place and proved against its functions; `CommitSteps` and `Optimistic.CommitRefines` show
that a commit made through the objects is a run of the machine.

**Journal and recovery.** `JournalEntry`, `BatchReader`, `TornTail`, `ArbitraryBytes` and
`JournalFile` go from bytes to batches and back. `KeyspaceLog` and `KeyspaceRecovery` follow one keyspace through writes, clears,
memtable rotation, flush, compaction, journal rotation, eviction and crash; `Recovery` combines the
keyspaces that share the journals. `CrashBytes` and `ByteRuns` replace the journals by their files: a
machine whose appends may be cut at any byte simulates `Recovery` over every run. `RecoveryLoops`
holds the journal queue and the replay loops, clear markers included. Recovery checks that a sealed
journal's watermark is its last write, and this can fail: the counter is recovered from what the
trees hold, so a crash after a clear lets it fall below the clear marker
(`RecoveryChecks.RecoveryCanFail`). `RecoveryChecks.RunsPassExactly` is the exact condition over
every run: all journals pass in all states if and only if no write hits a keyspace that is low, that
is, not written since its last clear marker and announced by the active journal with a higher
sequence number than the write's. `RecoveryChecks.RecoveriesPassExactly` is the exact condition for the
sealed journals alone.

**Secure cells.** `Composite` is the order-preserving key encoding, `Visibility`, `NormalForm`,
`Grammar` and `VisibilityLoops` the label expressions, `Retention` the compaction filter and
`VersionScan` the version scans. A scan with a limit of 0 returns an entry when the first one of the
range is included; `VersionScan.ScanExact` says exactly when the scan is right.

The checksum and the compressor are arbitrary functions with `decompress(compress(v)) == v`. The
iteration order of hash maps is arbitrary. `lsm_tree` is a multi-version map: a read sees the newest
version below its instant, a flush takes the oldest sealed memtable, and a compaction never drops a
key's newest version unless it is a tombstone that goes together with the whole key. The clock is a
parameter.

## Model

| member | source | states |
|---|---|---|
| SnapshotTracker.HoldTracks | src/snapshot_tracker.rs:72-100 | opening or cloning keeps every instant's count equal to its number of holders |
| SnapshotTracker.DropTracks | src/snapshot_nonce.rs:34-38 | dropping a holder keeps every count equal to the number of holders |
| SnapshotTracker.SurplusTracksExact | src/tx/optimistic/oracle.rs:47 | a release without a holder behind it keeps the counts right if and only if nobody holds the instant |
| SnapshotTracker.OpenSound | src/snapshot_tracker.rs:72-86 | the instant handed out lies above the watermark, so the watermark stays below every held instant |
| SnapshotTracker.HoldSound | src/snapshot_tracker.rs:88-100 | cloning a snapshot at a readable instant keeps the watermark below every held instant |
| SnapshotTracker.ReleaseSound | src/snapshot_tracker.rs:106-123 | no release, not even one without a holder behind it, brings the watermark past an instant still held |
| SnapshotTracker.PublishSound | src/snapshot_tracker.rs:125-127 | publishing keeps the watermark below every held instant |
| SnapshotTracker.PullupExact | src/snapshot_tracker.rs:136-146 | with counts right or wrong, pull-up never lowers the watermark, and overtakes no held instant if and only if entries remain or every held instant is the visible one |
| SnapshotTracker.CollectedSafeAt | src/snapshot_tracker.rs:148-179 | for one iteration order, a collection never lowers the watermark and overtakes no held instant if and only if the fold ends at or below every one of them |
| SnapshotTracker.UnsafeOrder | src/snapshot_tracker.rs:161-164 | when the condition of a collection fails, some iteration order overtakes a held instant |
| SnapshotTracker.GcExact | src/snapshot_tracker.rs:148-179 | with counts right or wrong, a collection overtakes no held instant for any iteration order if and only if the retained instants it may end at lie at or below every held one |
| SnapshotTracker.TrackedSafe | src/snapshot_tracker.rs:136-179 | while the counts are right, pull-up is always safe and a collection is safe if and only if instant 0 is not retained or all retained instants are at most 1 |
| SnapshotTracker.CollectedExact | src/snapshot_tracker.rs:148-179 | a collection leaves exactly the instants that are counted or at or above the visible one, and raises the watermark to one below the smallest of them, or below the visible one if none is left |
| SnapshotTracker.Tracker.Open | src/snapshot_tracker.rs:72-86 | returns the visible instant and counts one more holder of it |
| SnapshotTracker.Tracker.CloneSnapshot | src/snapshot_tracker.rs:88-100 | counts one more holder of the given instant |
| SnapshotTracker.Tracker.CloseRaw | src/snapshot_tracker.rs:106-123 | one saturating release; every 10,000th also collects, and no other moves the watermark or drops an entry |
| SnapshotTracker.Tracker.Publish | src/snapshot_tracker.rs:125-127 | the visible instant becomes at least one above the batch |
| SnapshotTracker.Tracker.Pullup | src/snapshot_tracker.rs:136-146 | with no entries the watermark becomes the visible instant minus one |
| SnapshotTracker.Tracker.Gc | src/snapshot_tracker.rs:148-179 | the state is the collection of the old one in some iteration order |
| Conflicts.PushedReadExact | src/tx/optimistic/conflict_manager.rs:31-40 | recording a read covers exactly that read's keys on top of those covered before |
| Conflicts.RangeReadExact | src/tx/optimistic/conflict_manager.rs:57-78 | a recorded range, half-open ones included, covers exactly the keys in the range |
| Conflicts.IllFormedExact | src/tx/optimistic/conflict_manager.rs:86-190 | a recorded range is ill-formed if and only if it is inverted or leaves out its one key on both sides; ill-formed ranges are empty |
| Bytes.RangesSplit | src/tx/optimistic/conflict_manager.rs:98-190 | any key splits all keys into those below and those from it on, and into those up to it and those above it |
| Conflicts.BlindNeverClashes | src/tx/optimistic/keyspace.rs:256-272 | a footprint without reads conflicts with no other footprint |
| Conflicts.ConflictManager.PushRead | src/tx/optimistic/conflict_manager.rs:31-40 | appends the read to its keyspace's reads |
| Conflicts.ConflictManager.MarkRead | src/tx/optimistic/conflict_manager.rs:42-44 | records a single key as read |
| Conflicts.ConflictManager.MarkConflict | src/tx/optimistic/conflict_manager.rs:46-55 | records a key as written |
| Conflicts.ConflictManager.MarkRange | src/tx/optimistic/conflict_manager.rs:57-78 | records a range, an unbounded one as everything; afterwards exactly the keys of the range are covered on top of those covered before |
| Conflicts.ConflictManager.HasConflict | src/tx/optimistic/conflict_manager.rs:80-196 | for well-formed ranges the test is true if and only if the other transaction wrote a key in some recorded read of the same keyspace; it panics only on an ill-formed range |
| Conflicts.ScanReads | src/tx/optimistic/conflict_manager.rs:86-194 | one keyspace's reads against one keyspace's written keys |
| Conflicts.AnyInRange | src/tx/optimistic/conflict_manager.rs:98-190 | some written key lies in the range |
| SerialSpec.StillExplained | src/tx/optimistic/oracle.rs:34-45 | reads explained at a snapshot stay explained at the end of the log if no later commit wrote what they touched |
| SerialSpec.SizesExact | src/tx/optimistic/write_tx.rs:94-101 | operations explained at one state and, sizes aside, at another are explained at the other in full if and only if the sizes asked for are the same in both |
| TxModel.CollectingCommit | src/tx/optimistic/oracle.rs:47-51 | a commit whose release runs a collection prunes with the raised watermark, which equals starting, collecting and pruning in turn |
| Precision.OpExact | src/tx/optimistic/conflict_manager.rs:31-78 | every operation keeps the footprint exact: a key is recorded as read if and only if an operation other than a size query read it, and as written if and only if it was written or updated |
| Precision.FootprintsAreExact | src/tx/optimistic/write_tx.rs:57-124 | so every open transaction's footprint is exact over every run at all |
| Precision.NoFalseConflicts | src/tx/optimistic/oracle.rs:34-45 | over every run at all, a transaction fails the test only if a commit since its snapshot wrote or updated a cell that it read |
| Serializability.OverlayRefinesReplay | src/tx/write_tx.rs:44-61 | a transaction's get equals replaying its operations over the snapshot |
| Serializability.ScanRefinesReplay | src/tx/write_tx.rs:111-158 | a transaction's scan equals the range of the replayed snapshot |
| Serializability.OverwrittenReadConflicts | src/tx/optimistic/oracle.rs:34-45 | a commit after the snapshot that wrote something the transaction read is still in the history and fails the test |
| Serializability.CommitExplained | src/tx/optimistic/oracle.rs:40-57 | passing the test means everything read is still what the committed state holds |
| Serializability.RecordedUnderLargerKey | src/tx/optimistic/oracle.rs:61 | each commit is recorded under a key strictly larger than all earlier ones |
| Serializability.PruneKeepsHistory | src/tx/optimistic/oracle.rs:50-51 | pruning keeps every record newer than the watermark |
| Serializability.PublishKeepsStore | src/batch/mod.rs:107-164 | publishing makes the batch part of the log, and every supported read sees the whole of it or nothing |
| Serializability.AbortStep | src/tx/optimistic/oracle.rs:53-57 | a batch that the write path refuses leaves nothing behind |
| Serializability.LeftoverStep | src/tx/optimistic/oracle.rs:47 | the second release of an instant keeps the invariant, shared or not |
| Serializability.DeleteStep | src/meta_keyspace.rs:128-173 | a keyspace deletion keeps the invariant, even in the middle of a batch |
| Serializability.ReclaimKeepsReads | src/compaction/worker.rs:10-60 | reclaiming a version below the watermark changes no read above it |
| Serializability.StepInv | src/tx/optimistic/oracle.rs:23-64 | every step of every interleaving keeps the invariant; only a collection or a pull-up must not overtake an open transaction |
| Serializability.RunInv | src/tx/optimistic/oracle.rs:23-64 | so does every run |
| TxTheorems.RunsAreSerializable | src/tx/optimistic/write_tx.rs:57-124 | after every run whose collections and pull-ups overtake no open transaction, the committed transactions in commit order are a serial execution producing the visible store, and every open transaction saw exactly its snapshot |
| TxTheorems.UnraisedRunsAreSerializable | src/tx/optimistic/oracle.rs:23-64 | every run without collections and pull-ups is serializable, shared instants and deletions included |
| TxTheorems.HarmlessToAll | src/snapshot_tracker.rs:136-179 | a run that overtakes nobody overtakes no transaction |
| TxTheorems.OverwrittenReadsAbort | src/tx/optimistic/oracle.rs:34-45 | over those runs, a transaction of which a read was overwritten by a commit since its snapshot fails the test from then on |
| TxTheorems.ConflictsExactly | src/tx/optimistic/oracle.rs:34-45 | over every run that overtakes no open transaction, one fails the test if and only if a commit recorded since its snapshot wrote or updated a cell that it read |
| TxTheorems.BeginsFresh | src/tx/optimistic/mod.rs:65-80 | a transaction starts from the result of everything committed before it |
| TxTheorems.SizesFitExactly | src/tx/optimistic/write_tx.rs:94-101 | over those runs, a committed transaction fits its place in full if and only if every cell it measured beside its own writes has the same size there as in its snapshot |
| TxTheorems.UntouchedSizesFit | src/tx/optimistic/write_tx.rs:94-101 | in particular it fits in full if no commit since its snapshot wrote a cell it measured |
| TxTheorems.PruningIsSafe | src/tx/optimistic/oracle.rs:47-51 | over every run that overtakes no open transaction, no commit newer than an open transaction's instant is missing from the history |
| TxTheorems.SnapshotsAreWhole | src/batch/mod.rs:107-164 | over every run that overtakes nobody, a held snapshot answers from the whole batches of a prefix of the commit order if and only if no batch it should see is in flight with an item that makes a difference |
| TxTheorems.QuietSnapshotsAreWhole | src/meta_keyspace.rs:128-173 | so every snapshot does at all times if no keyspace deletion falls into a batch |
| TxTheorems.SnapshotsAreStable | src/snapshot_tracker.rs:72-86 | once no batch it should see is in flight, a held snapshot's answers never change, however the run goes on |
| TxTheorems.WatermarkOverRuns | src/snapshot_tracker.rs:102-179 | over every run that overtakes nobody the watermark stays strictly below every held instant (or at 0) |
| TxTheorems.WatermarkNeverFalls | src/snapshot_tracker.rs:102-179 | over every run at all the watermark never falls and stays below the visible instant |
| TxTheorems.CountsRightExactly | src/tx/optimistic/oracle.rs:47 | over any run at all the open counts are right throughout if and only if no second release hits an instant somebody holds |
| TxTheorems.RightCountsHarmless | src/snapshot_tracker.rs:136-179 | a run in which no second release hits a held instant, and instant 0 misleads no collection, overtakes nobody |
| TxTheorems.CollectExact | src/snapshot_tracker.rs:148-179 | in every state whose watermark is below the held instants, a collection keeps it there for every iteration order if and only if the stated condition on the retained instants holds, for transactions as for all snapshots |
| TxTheorems.PullupExact | src/snapshot_tracker.rs:136-146 | the same for a pull-up |
| TxHazards.SizeOfEscapesConflictCheck | src/tx/optimistic/write_tx.rs:94-101 | a run in which a committed size query does not fit the serial order |
| TxHazards.SharedInstantLosesUpdate | src/tx/optimistic/oracle.rs:47 | a run in which the second release makes a commit pass on an overwritten read |
| TxHazards.InstantZeroOvertaken | src/snapshot_tracker.rs:161-164 | a run in which a collection passes a held snapshot at instant 0 |
| TxHazards.HalfBatchVisible | src/meta_keyspace.rs:128-173 | a run in which a snapshot sees half of a batch |
| CommitSteps.AttemptIsRun | src/tx/optimistic/oracle.rs:23-64 | whatever a commit attempt does to tracker and history in one go, some run of the machine does step by step, ending with the batch stored, logged and recorded on success |
| Overlay.NewestIsNewest | src/tx/write_tx.rs:44-61 | a memtable lookup finds the newest version below its bound |
| Overlay.NewestReplays | src/tx/write_tx.rs:111-142 | reading below the n-th write's sequence number replays exactly the first n writes, so an iterator sees only earlier operations |
| Overlay.Dedup | src/tx/write_tx.rs:327-346 | the dedup loop keeps the first item of each run of equal keys |
| Overlay.DedupIsNetEffect | src/tx/write_tx.rs:327-346 | those items are exactly the transaction's last writes, each key once and in order |
| Overlay.BaseTransaction.Get | src/tx/write_tx.rs:44-61 | returns the key's value in the snapshot patched by the writes so far |
| Overlay.BaseTransaction.Range | src/tx/write_tx.rs:111-158 | returns exactly the entries of the range in the snapshot patched by the writes so far |
| Overlay.BaseTransaction.Insert | src/tx/write_tx.rs:261-314 | appends one write to the overlay |
| Overlay.BaseTransaction.UpdateFetch | src/tx/write_tx.rs:198-228 | returns and stores the new value, changing no other cell and writing nothing if it is unchanged |
| Overlay.BaseTransaction.FetchUpdate | src/tx/write_tx.rs:230-259 | the same, returning the previous value |
| Overlay.BaseTransaction.CommitBatch | src/tx/write_tx.rs:316-352 | the batch holds each written cell once with its last write |
| Optimistic.Oracle.TestConflict | src/tx/optimistic/oracle.rs:40-45 | true if and only if a commit recorded after the instant wrote a key that was read |
| Optimistic.Oracle.Prune | src/tx/optimistic/oracle.rs:50-51 | keeps exactly the records above the watermark |
| Optimistic.Oracle.Conclude | src/tx/optimistic/oracle.rs:53-64 | outcome, second release, publication and record of an attempt |
| Optimistic.Oracle.WithCommit | src/tx/optimistic/oracle.rs:23-64 | conflicted exactly when some read was overwritten; tracker and history end as two releases, a pruning in between and, on success, a publication and a record under the visible instant leave them |
| Optimistic.WriteTransaction.Get | src/tx/optimistic/write_tx.rs:58-70 | returns what replay returns and records the read |
| Optimistic.WriteTransaction.ContainsKey | src/tx/optimistic/write_tx.rs:72-84 | the same for presence |
| Optimistic.WriteTransaction.SizeOf | src/tx/optimistic/write_tx.rs:94-101 | returns what replay returns and records nothing |
| Optimistic.WriteTransaction.Range | src/tx/optimistic/write_tx.rs:108-119 | returns what replay returns and records exactly the range; the footprint stays exact |
| Optimistic.WriteTransaction.Insert | src/tx/optimistic/write_tx.rs:338-350 | appends the write and records the key |
| Optimistic.WriteTransaction.FetchUpdate | src/tx/optimistic/write_tx.rs:293-308 | records the key as read and as written, even when nothing is written; the footprint stays exact |
| Optimistic.WriteTransaction.Commit | src/tx/optimistic/write_tx.rs:439-455 | without writes only the snapshot is released; otherwise the oracle decides over the batch of last writes, and tracker and history end as its attempt leaves them |
| Optimistic.CommitRefines | src/tx/optimistic/write_tx.rs:439-455 | committing through the objects is a run of the machine between states that represent them |
| Optimistic.BlindWrite | src/tx/optimistic/keyspace.rs:256-272 | an insert wrapped in a transaction is never reported as a conflict |
| JournalEntry.LERoundTrip | src/journal/entry.rs:124-157 | little-endian integers decode to themselves |
| JournalEntry.DecodeEncoded | src/journal/entry.rs:159-243 | decoding an encoded entry followed by anything gives the entry and its length |
| JournalEntry.DecodeLocal | src/journal/entry.rs:159-243 | decoding depends only on the bytes it consumes |
| JournalEntry.MarkerLayout | src/journal/entry.rs:124-157 | start, end and clear markers byte by byte: tags 1, 3 and 4, little-endian numbers and the trailer at their places |
| JournalEntry.ItemLayout | src/journal/entry.rs:41-83 | an item byte by byte: tag 2, value type, compression, keyspace, lengths, key and stored value at their places |
| BatchReader.NextAdvances | src/journal/batch_reader.rs:80-215 | a returned batch moves the reader forward and leaves it between batches |
| BatchReader.ReadFrame | src/journal/batch_reader.rs:80-215 | a complete batch is returned as written and leaves the reader at its end |
| BatchReader.JournalBatchReader.NextBatch | src/journal/batch_reader.rs:80-215 | the loop's result, the file and the reader's fields after it are those of the specification, whose every case `ArbitraryBytes.VerdictExact` spells out |
| BatchReader.JournalBatchReader.Take | src/journal/batch_reader.rs:98-207 | one entry's effect on the reader's fields and the file |
| BatchReader.JournalWriter.WriteBatch | src/journal/writer.rs:326-379 | appends the framed batch with its count and checksum; nothing for an empty one |
| BatchReader.JournalWriter.WriteClear | src/journal/writer.rs:300-324 | appends a framed clear marker |
| BatchReader.JournalWriter.EntriesReadBack | src/journal/writer.rs:350-375 | the entries written for a batch read back as exactly its items, value types included; a value is stored compressed if and only if the writer compresses and the value reaches a threshold above 0 |
| JournalFile.Drain | src/recovery.rs:143-147 | draining the reader object returns what the specification reads from the file |
| JournalFile.AppendBatch | src/journal/writer.rs:326-379 | after writing a batch the file reads back as the earlier batches and then exactly the items under the sequence number |
| JournalFile.AppendClear | src/journal/writer.rs:300-324 | the same for a clear marker |
| TornTail.TornDecode | src/journal/entry.rs:159-243 | an entry cut at any byte and padded with zeros does not decode, or decodes to one of its kind up to the padding |
| TornTail.TornFrame | src/journal/batch_reader.rs:80-215 | a batch cut at any byte ends the reading without error and truncates to its start |
| TornTail.TornTailRecovers | src/journal/batch_reader.rs:80-215 | a journal cut at any byte and zero-padded is read as exactly the batches that end before the cut and truncated to the last one |
| TornTail.IntactJournalRecovers | src/journal/reader.rs:56-77 | a preallocated journal is read back in full |
| ArbitraryBytes.ReturnedBatchIsFramed | src/journal/batch_reader.rs:92-213 | on any bytes a returned batch is the content of a frame there with the announced count and a matching checksum |
| ArbitraryBytes.VerdictExact | src/journal/batch_reader.rs:80-215 | on any bytes after a start marker and payload: too early an end marker, a wrong checksum and an entry too many are reported and leave the file alone; nothing decodable or a second start marker ends the reading and cuts the open batch off; the right end marker returns it |
| ArbitraryBytes.NoStart | src/journal/batch_reader.rs:98-207 | without a start marker at a batch boundary the reading ends and the file is cut there |
| ArbitraryBytes.AnyBytes | src/journal/batch_reader.rs:80-215 | these are all cases: on any bytes the answer and the file are one of them |
| ArbitraryBytes.CorruptionIsReported | src/journal/batch_reader.rs:127-130 | a written batch whose entries were changed so that their checksum differs is reported as a mismatch, and nothing is cut off |
| ArbitraryBytes.EndedCutsBack | src/journal/batch_reader.rs:64-73 | when reading ends without error the file ends at the last returned batch |
| ArbitraryBytes.RereadIsStable | src/journal/reader.rs:42-50 | reading the truncated file again returns the same batches and truncates nothing |
| KeyspaceLog.LookupIsNewest | src/keyspace/mod.rs:623-627 | under the invariant a lookup returns the key's newest write |
| KeyspaceLog.PutInv | src/batch/mod.rs:107-164 | journaling and applying a batch keeps the recovery invariant |
| KeyspaceLog.RotateMemtableInv | src/keyspace/mod.rs:727-748 | so does sealing the active memtable |
| KeyspaceLog.FlushInv | src/flush/worker.rs:12-42 | so does moving the oldest memtable into the tables |
| KeyspaceLog.CompactInv | src/compaction/worker.rs:10-60 | so does a compaction, even one that lowers the persisted sequence number |
| KeyspaceLog.RotateJournalInv | src/worker_pool.rs:163-181 | so does sealing the journal with the highest sequence number in memory as watermark |
| KeyspaceLog.EvictedKeySettled | src/journal/manager.rs:146-154 | a key whose newest version leaves with an evicted journal is answered by the tables |
| KeyspaceLog.EvictInv | src/journal/manager.rs:115-167 | so evicting a journal whose watermark the tables reached keeps the invariant |
| KeyspaceRecovery.PendingUpwards | src/recovery.rs:212-219 | once one journal is replayed into a memtable, every later one with writes is too |
| KeyspaceRecovery.NewestIsRebuilt | src/recovery.rs:207-256 | if a rebuilt memtable knows a key, the key's newest version was rebuilt as well |
| KeyspaceRecovery.UnreplayedIsSettled | src/recovery.rs:215-229 | a newest version that was skipped is answered by the tables |
| KeyspaceRecovery.RecoverInv | src/recovery.rs:134-265 | recovery re-establishes the invariant under any counter above the surviving writes |
| KeyspaceRecovery.RecoverKeepsLookups | src/recovery.rs:134-265 | recovery changes no lookup of the keyspace |
| KeyspaceLog.EmptiedInv | src/keyspace/mod.rs:236-262 | clearing a keyspace keeps the recovery invariant |
| KeyspaceLog.PutLogged | src/keyspace/mod.rs:236-262 | while a clear marker is journaled, every newest write since is in the journals, so replay may wipe the tables |
| KeyspaceRecovery.FromLogsInv | src/recovery.rs:186-206 | a keyspace rebuilt from such journals alone satisfies the invariant |
| KeyspaceRecovery.Remarked | src/recovery.rs:161-169 | watermarks raised by clear markers keep the invariant |
| Recovery.WriteInv | src/batch/mod.rs:107-164 | a batch over several keyspaces, or a clear, keeps the invariant of each |
| Recovery.AppendedLogs | src/recovery.rs:186-206 | a batch adds to what the journals hold of a keyspace; a clear marker voids all of it in every journal |
| Recovery.RotateJournalStep | src/worker_pool.rs:163-181 | sealing the shared journal keeps the invariant of every keyspace |
| Recovery.EvictStep | src/journal/manager.rs:115-167 | evicting it does too, once every watermark is reached |
| Recovery.BackgroundBetween | src/worker_pool.rs:199-217 | a flush, compaction or eviction between journaling a batch or clear marker and applying it leads where the same step before the write does |
| Recovery.BackgroundCommutes | src/worker_pool.rs:199-217 | with batches of items they also commute as whole steps |
| Recovery.CrashStep | src/db.rs:685-787 | crash and recovery, which replays clear markers too, re-establish the invariant of every keyspace |
| Recovery.CrashAfterJournal | src/keyspace/mod.rs:246-260 | a crash between journaling a batch or clear marker and applying it rebuilds what a crash after applying it does |
| Recovery.SurvivorsBelow | src/db.rs:770-780 | the recovered counter lies above every surviving write |
| Recovery.CounterExact | src/recovery.rs:238-240 | the recovered counter is one above the highest sequence number that any tree held on the way |
| Recovery.StepInv | src/db.rs:685-787 | every step, crashes included, keeps the invariant |
| Recovery.RunsKeepNewest | src/recovery.rs:134-265 | over every run with any number of clears and crashes each lookup returns the last journaled write of the key since its keyspace was cleared, and all stored sequence numbers lie below the counter |
| Recovery.LastWriteDecided | src/recovery.rs:171-184 | the last batch that says something about a key decides its answer: the value of its last item for the key, or nothing if that is a tombstone of either kind or the keyspace was cleared |
| Recovery.NeverWritten | src/recovery.rs:134-265 | a key that no batch named is absent |
| Recovery.RunsAnswerByItems | src/db.rs:728-741 | so does every lookup over every run, clears and crashes included |
| Recovery.WriteDecides | src/batch/mod.rs:140-160 | one write after any run sets or removes exactly the keys it names and leaves the answers of all others as they were |
| Recovery.CrashChangesNothing | src/db.rs:700-785 | crash and recovery in any reachable state change no lookup |
| CrashBytes.CompleteSnoc | src/journal/batch_reader.rs:80-215 | a cut inside the last batch completes all earlier ones, and one at its end completes it too |
| CrashBytes.CrashAtAnyByte | src/recovery.rs:134-161 | whatever byte the append was cut at, no file fails to read, and recovery is that with the batch if all its bytes were written and without it otherwise |
| CrashBytes.CrashBetweenWrites | src/db.rs:709-715 | recovering from intact files is recovering from their batches |
| ByteRuns.OverwriteTorn | src/journal/writer.rs:124-200 | the first bytes of an append, over the preallocated zeros or past the end, leave the earlier batches followed by those bytes and zeros |
| ByteRuns.CutBack | src/journal/reader.rs:42-50 | a journal cut at any byte is cut back to whole batches that read the same afterwards |
| ByteRuns.StepSimulates | src/db.rs:685-787 | every step over journal files, a crash at any byte of an append included, is the step of the recovery model it stands for, and reading the files a crash leaves never fails |
| ByteRuns.RunSimulates | src/journal/writer.rs:124-200 | every run over bytes is a run of the recovery model with the batches whose bytes all reached the file |
| ByteRuns.BytesKeepNewest | src/recovery.rs:134-265 | over every run over bytes each lookup returns the last write whose bytes all reached the journal since the keyspace was cleared |
| ByteRuns.BytesAnswerByItems | src/recovery.rs:171-184 | over every run over bytes, the last completed batch that says something about a key decides its lookups |
| ByteRuns.NeverStuck | src/journal/writer.rs:124-200 | wherever a run over bytes ends, a crash, a rotation and an append of any acceptable batch, complete or cut at any byte, is possible |
| ByteRuns.PlainBytesKeepNewest | src/journal/entry.rs:159-243 | with values stored as they are this holds without an assumption on the codec |
| RecoveryLoops.HighestSeqno | src/recovery.rs:213 | computes the highest sequence number in a set of versions |
| RecoveryLoops.JournalManager.Enqueue | src/journal/manager.rs:73-76 | appends the journal; the disk counter stays the sum of the sizes until it saturates |
| RecoveryLoops.JournalManager.Stragglers | src/journal/manager.rs:95-112 | exactly the keyspaces, deleted ones included, whose tables have not reached the oldest journal's watermark or that have no table |
| RecoveryLoops.JournalManager.AllReached | src/journal/manager.rs:124-144 | true if and only if every live keyspace's tables reached its watermark |
| RecoveryLoops.JournalManager.Maintenance | src/journal/manager.rs:115-167 | drops the longest prefix of journals that can go, and keeps the disk counter the sum of the sizes |
| RecoveryLoops.JournalManager.RotateJournal | src/journal/manager.rs:169-185 | queues the journal with the highest memtable sequence number of each keyspace |
| RecoveryLoops.MaintenanceInv | src/journal/manager.rs:115-167 | maintenance as a whole keeps the recovery invariant |
| RecoveryLoops.Replay.ReplayBatch | src/recovery.rs:149-206 | replaying a batch does to every tree what writing it did: its items reach the active memtables and the keyspaces it clears are emptied; the watermarks rise to its sequence number |
| RecoveryLoops.Replay.ReplayBatches | src/recovery.rs:146-207 | after a whole journal the trees are those rebuilt from the journals so far and the watermarks those the journal holds |
| RecoveryLoops.Replay.SealOne | src/recovery.rs:212-256 | skips or seals one keyspace's memtable; the check holds if and only if the memtable is empty or ends at the announced sequence number |
| RecoveryLoops.Replay.Seal | src/recovery.rs:209-256 | after the loop every keyspace has its replayed memtables and an empty active one, and the counter covers every memtable sealed |
| RecoveryLoops.Replay.ReplaySealed | src/recovery.rs:134-265 | replaying and queueing all sealed journals; the checks hold if and only if each watermark is its journal's last write |
| RecoveryLoops.Replay.ActivesEmpty | src/db.rs:697-706 | whether every active memtable is empty |
| RecoveryLoops.Replay.RecoverSeqno | src/db.rs:755-780 | the counter ends one above everything stored, or stays where it was |
| RecoveryLoops.Replay.RecoverAll | src/db.rs:685-787 | the result is the recovered database; the check for empty memtables never trips, the other one exactly when a sealed journal's watermark is not its last write |
| RecoveryLoops.ProgressBatch | src/recovery.rs:149-206 | the trees rebuilt from the journals with one more batch are those without it after writing it |
| RecoveryLoops.ReplayedItems | src/recovery.rs:171-184 | replaying a batch puts each key it names into the active memtable with the value of its last item or as a tombstone, and changes nothing else |
| RecoveryLoops.SkipsPending | src/recovery.rs:212-229 | skipping a journal by its watermark is skipping it by its content, clear markers or not |
| RecoveryChecks.AppendExact | src/recovery.rs:232-236 | whether a journal passes after one more batch, from a passing or failing one: a clear marker heals it, the first write since one decides by its number, a later write heals it by reaching the announced number |
| RecoveryChecks.JournalExact | src/recovery.rs:232-236 | a journal passes if and only if no batch up to the keyspace's last clear marker has a higher sequence number than all writes after it |
| RecoveryChecks.AllPassMeans | src/recovery.rs:232-236 | all journals pass if and only if recovery would pass right after rotating the journal; then it passes now too |
| RecoveryChecks.StepExact | src/recovery.rs:232-236 | from a state whose journals all pass, they all pass after a step if and only if the step does not write a low keyspace |
| RecoveryChecks.RunsPassExactly | src/recovery.rs:232-236 | over every run, all journals pass in all states if and only if no event writes a low keyspace, which can be tested before the write |
| RecoveryChecks.UnclearedChecks | src/recovery.rs:232-236 | journals without clear markers pass recovery's check |
| RecoveryChecks.InOrderAnnounced | src/recovery.rs:232-236 | so does a journal whose sequence numbers never fall |
| RecoveryChecks.RunsPassChecks | src/recovery.rs:232-236 | so recovery passes its checks at every moment of a run without such a write, whether or not the journal is rotated first |
| RecoveryChecks.RecoveriesPassExactly | src/recovery.rs:209-256 | over every run, recovery passes its checks in all states if and only if no rotation finds a keyspace overtaken in the active journal |
| RecoveryChecks.ClearFreeRunsPass | src/recovery.rs:232-236 | every run without clears passes its checks at every moment, crashes included |
| RecoveryChecks.KeptCountersPass | src/db.rs:766-780 | a run in which no crash lets the counter fall to a journaled sequence number never writes a low keyspace |
| RecoveryChecks.RecoveryCanFail | src/db.rs:766-780 | for runs of any number of numbered operations, a clear, a crash, any number of numbered operations, a write and a rotation: recovery passes if and only if at least as many numbers were taken after the crash as before the clear |
| Composite.DecodeFieldEncoded | src/secure/composite.rs:211-258 | decoding an encoded field followed by anything gives both back |
| Composite.DecodeFieldExact | src/secure/composite.rs:229-258 | whatever decodes is the encoding of what it decodes to |
| Composite.FieldOrder | src/secure/composite.rs:211-227 | different fields compare alike encoded or not, whatever follows them |
| Composite.TimestampRoundTrip | src/secure/composite.rs:260-271 | timestamps decode to themselves, for all 64-bit values |
| Composite.TimestampExact | src/secure/composite.rs:260-271 | every eight bytes encode back to themselves |
| Composite.TimestampOrder | src/secure/composite.rs:260-264 | encoded timestamps sort newest first |
| Composite.TimestampFormat | src/secure/composite.rs:260-264 | a timestamp is stored as its distance from the latest one, highest byte first |
| Composite.FieldFormat | src/secure/composite.rs:211-227 | zeros and ones are escaped by a one, everything else stands for itself, and a zero ends the field |
| Composite.FieldErrors | src/secure/composite.rs:229-258 | running out of bytes, running out of them inside an escape, and an escape that is none are told apart |
| Composite.KeyErrors | src/secure/composite.rs:69-101 | what is reported for a missing or other version, a broken field, and a timestamp of the wrong length |
| Composite.LengthExact | src/secure/composite.rs:171-179 | a key is refused if and only if its escaped fields and thirteen more bytes exceed 65,535 |
| Composite.DecodeEncode | src/secure/composite.rs:48-101 | decoding inverts encoding |
| Composite.EncodeDecode | src/secure/composite.rs:69-101 | every accepted byte string encodes back to itself, unless it exceeds the length limit |
| Composite.OrderEmbedding | src/secure/composite.rs:48-61 | byte order of encoded keys is row, family, qualifier, visibility ascending and timestamp descending |
| Composite.EncodingInjective | src/secure/composite.rs:48-61 | distinct keys have distinct encodings |
| Composite.PrefixRangeExact | src/secure/composite.rs:164-167 | a prefix's range holds exactly its extensions |
| Composite.LeadingFields | src/secure/composite.rs:181-195 | field encodings are prefix-free, so leading bytes determine leading fields |
| Composite.RangeExact | src/secure/composite.rs:131-168 | an encoded key lies in a prefix range if and only if its leading fields are the supplied ones |
| Composite.RangeErrors | src/secure/composite.rs:131-168 | a prefix is refused if and only if a field follows a missing one, or its encoding is too long |
| Composite.WriteField | src/secure/composite.rs:211-227 | appends the encoded field |
| Composite.WritePrefix | src/secure/composite.rs:181-195 | version byte and encoded fields |
| Composite.ReadField | src/secure/composite.rs:229-258 | decodes one field or reports the error the format defines |
| Visibility.ParsePrinted | src/secure/visibility.rs:198-216 | printing an unambiguous tree and parsing the text gives the tree back |
| Visibility.CanonicalInjective | src/secure/visibility.rs:192-216 | different unambiguous trees print differently |
| NormalForm.ArrangedMembers | src/secure/visibility.rs:257-258 | sorting and dropping equal printed forms keeps the set of operands |
| NormalForm.ArrangedStrict | src/secure/visibility.rs:257-258 | the operands end up strictly sorted by printed form |
| NormalForm.StrictUnique | src/secure/visibility.rs:257-258 | a set has only one such arrangement |
| NormalForm.NormalizedNormal | src/secure/visibility.rs:175-181 | normalizing yields a normal form |
| NormalForm.NormalizedMeaning | src/secure/visibility.rs:175-190 | normalizing never changes the evaluation, for every label set |
| NormalForm.NormalFixed | src/secure/visibility.rs:233-275 | normal forms normalize to themselves |
| NormalForm.ArrangementIrrelevant | src/secure/visibility.rs:233-275 | conjunctions, or disjunctions, contributing the same set of operands have the same canonical string |
| NormalForm.ParsedSound | src/secure/visibility.rs:302-368 | parsed trees have valid labels and no empty disjunction |
| NormalForm.ParseKeepsMeaning | src/secure/visibility.rs:29-47 | the parsed value evaluates like the text as written |
| NormalForm.CanonicalFixpoint | src/secure/visibility.rs:29-47 | parsing a value's canonical string returns the value |
| NormalForm.CanonicalIdentifies | src/secure/visibility.rs:72-80 | equal canonical strings mean equal values |
| Grammar.OrExtends | src/secure/visibility.rs:306-318 | a successful parse does not look past the first character that ends it |
| Grammar.BarIsDisjunction | src/secure/visibility.rs:306-318 | writing a bar between any two accepted texts gives their disjunction |
| Grammar.AmpersandIsConjunction | src/secure/visibility.rs:320-345 | writing an ampersand between two parenthesized texts gives their conjunction |
| Grammar.LabelAdmitsHolders | src/secure/visibility.rs:183-190 | a nonempty text of label characters is accepted and admits exactly those who hold it |
| Grammar.ParenthesesIrrelevant | src/secure/visibility.rs:334-345 | parentheses around an accepted text change nothing |
| Grammar.AmpersandBindsTighter | src/secure/visibility.rs:320-332 | between texts without a bar of their own an ampersand needs no parentheses and is their conjunction |
| Grammar.MoreAuthorizationsSeeMore | src/secure/visibility.rs:183-190 | more authorizations never take access away, and the empty text admits everybody |
| Grammar.LabelExpected | src/secure/visibility.rs:347-353 | a text that starts with neither label nor parenthesis is refused for that |
| Grammar.ClosingExpected | src/secure/visibility.rs:334-343 | an accepted text behind an unclosed parenthesis is refused for that |
| Grammar.TrailingRejected | src/secure/visibility.rs:34-41 | an accepted text followed by something that continues neither label nor operator is refused for that |
| VisibilityLoops.Parser.Consume | src/secure/visibility.rs:370-377 | advances over the expected character and only then |
| VisibilityLoops.Parser.TakeLabel | src/secure/visibility.rs:358-368 | takes the longest run of label characters |
| VisibilityLoops.Parser.TakePrimary | src/secure/visibility.rs:334-356 | the cursor's result and position are those of the grammar |
| VisibilityLoops.Parser.TakeAnd | src/secure/visibility.rs:320-332 | the same for conjunctions |
| VisibilityLoops.Parser.TakeOr | src/secure/visibility.rs:306-318 | the same for disjunctions |
| VisibilityLoops.WriteCanonical | src/secure/visibility.rs:198-216 | appends the printed expression, parenthesized by precedence |
| VisibilityLoops.WriteJoined | src/secure/visibility.rs:277-289 | appends the operands with separators between them |
| VisibilityLoops.Normalize | src/secure/visibility.rs:175-181 | computes the normal form |
| VisibilityLoops.NormalizeChildren | src/secure/visibility.rs:233-275 | flattens, drops or returns what is public, sorts, deduplicates and collapses |
| VisibilityLoops.ParseExpression | src/secure/visibility.rs:29-47 | parses, normalizes and prints, or reports the parser's error |
| Retention.ExpiryExact | src/secure/policy.rs:180-189 | a version expires exactly when its age reaches the limit, if and only if it is not the smallest timestamp where the subtraction saturates |
| Retention.CounterExact | src/secure/policy.rs:148-153 | on a sorted stream the counter is the number of versions of the current group seen so far |
| Retention.NewerCameBefore | src/secure/policy.rs:148-153 | in a sorted stream a version's newer siblings are those of its group before it |
| Retention.FilterExact | src/secure/policy.rs:140-189 | the filter keeps exactly the versions among the newest of their group that have not expired, in order |
| Retention.FilterIdempotent | src/secure/policy.rs:140-189 | filtering again at the same time changes nothing |
| Retention.CompactionsKeepNewest | src/secure/policy.rs:140-174 | no series of partial compactions removes a version among its group's newest that has not expired by the end |
| Retention.LimitStaysUsed | src/secure/policy.rs:148-161 | if newer versions use up the limit of a version that has not expired, enough of them survive any compactions to use it up still |
| Retention.CompactionsExact | src/secure/policy.rs:140-189 | any series of partial compactions, ended by one over all that is left, leaves exactly the newest versions of each group that have not expired by then |
| Retention.CounterCounts | src/secure/policy.rs:148-153 | on a sorted stream that may repeat keys the counter is the number of entries of the current group |
| Retention.RepeatsExact | src/secure/policy.rs:148-161 | the filter never keeps a version too many, and drops one that should stay if and only if the entries of its group before it, repeats counted, use up the limit although its newer versions do not |
| Retention.SortedStream | src/secure/policy.rs:145-146 | a stream sorted by bytes is sorted by group and then newest first |
| Retention.SecureRetentionFilter.FilterItem | src/secure/policy.rs:140-173 | the verdict and new state for one key; an undecodable key fails and changes nothing |
| Retention.FilterStream | src/secure/policy.rs:140-173 | failure if some key does not decode; otherwise what the filter keeps, which over a sorted stream without repeats is exactly the retained versions |
| VersionScan.ScanExact | src/secure/cell.rs:208-221 | a scan equals filtering by timestamp and taking the limit, unless the limit is 0 and the first entry is included |
| VersionScan.ZeroLimitReturnsOne | src/secure/cell.rs:212-218 | a scan with limit 0 that returns an entry |
| VersionScan.ScanFailure | src/secure/cell.rs:210 | an undecodable entry fails the scan exactly when the entries before it do not fill the limit |
| VersionScan.RangeHoldsVersions | src/secure/cell.rs:41-48 | a cell's range holds exactly its versions, newest first |
| VersionScan.VersionsScanned | src/secure/cell.rs:182-222 | a version scan selects exactly the stored versions within the bounds, newest first, up to the limit |
| VersionScan.ScanBounds | src/secure/cell.rs:116-123 | what a scan returns lies between the two timestamp limits, and a stored version between them is missing only if the scan is full of newer ones |
| VersionScan.ScanVersionedPrefix | src/secure/cell.rs:199-222 | the loop returns what the specification scan returns, or the prefix's error |
| VersionScan.LatestVersion | src/secure/cell.rs:156-172 | the version with the greatest timestamp, nothing if the cell has none, an error if the first entry does not decode |
| VersionScan.Keyspace.DeleteVersionsMatching | src/secure/cell.rs:369-391 | of the stored versions exactly the cell's versions older than the cutoff go, or nothing if some entry of the range does not decode |

## Left out

- `lsm_tree` internals (skip lists, tables, levels, caches, value separation): only the contract stated above.
- I/O failures, fsync, file locks and directory scanning: writes succeed and the active journal file exists; a journal write error ignored by a batch commit is not modelled.
- Bulk ingestion.
- A journal that is persisted by hand: every append is handed to the file before the next step, so a crash loses at most the bytes of the append in progress.
- What `lsm_tree` itself may do to the shared counter while a tree is opened or cleared: recovery moves it only where the cited lines do. `RecoveryChecks.RecoveryCanFail` allows any number of further sequence numbers to be taken after the crash and says how many are enough.
- Keyspace creation, and deletion in the recovery model: the set of keyspaces is fixed there.
- Weak tombstones count as tombstones; their collapse during compaction is not modelled.
- 64-bit overflow of sequence numbers and of the version counter: both are unbounded.
- Non-transactional writes beside optimistic transactions: they bypass the commit lock, so nothing is claimed about them.
- Poisoned locks, and the panic on an ill-formed range inside a commit: reported as an outcome, the lock's state afterwards is not modelled.
- Pessimistic single-writer transactions, write-buffer accounting, backpressure, flush scheduling and worker messages.
- Authorization sets' builder, permissions, audit records and crypto providers of the secure layer: thin delegation.
- Configuration codecs and builders: easy members.
- RecoveryLoops.JournalManager.AllReached: a deleted keyspace is one that is not in the map of trees.
- TxTheorems.RunsAreSerializable: covers the runs whose collections and pull-ups overtake no open transaction; a run that does overtake one may or may not stay serializable (`TxHazards.SharedInstantLosesUpdate` is one that does not). Size queries fit only as `TxTheorems.SizesFitExactly` says.
- Recovery.BackgroundCommutes: for batches of items; a flush cannot follow the clear of its tree. `Recovery.BackgroundBetween` covers clears.
- Prefix scans and first or last entry reads of a transaction: they are the range scans they are built from.
