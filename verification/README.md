# Arachne in Dafny

A model of the hard parts of Arachne, a replicated key-value store, and proofs about it:
the linearizability checker and client oracle its histories are judged by, the CRC32C of
its write-ahead log, recovery of that log after a crash, the key-value state machine with
its exactly-once sessions, snapshot streaming under a rate limit, client routing and
forwarding, and the state machines and ledgers of its support crate.

`dafny verify dfyconfig.toml` checks everything. Each module follows one part of the
program. Code that computes a value is a function; code that updates variables or fields
is a method or a class, proved against a specification function or predicate, and the
lemmas are about that specification. Formats are specified by their written form: a reader
accepts exactly the strings some value is written as, and returns that value.

## Results in short

- **Checker.** The backtracking search decides the declarative definition of
  linearizability (no size cap in the definition), with its arrays restored on every failed
  branch. A reported witness, re-checked alone, fails again; it is minimal if every point
  after the first is a read or a write of a key no point reads, or more generally if
  shrinking dropped, behind what it kept, only reads and writes of keys it does not read;
  adding a write of unknown outcome never creates a violation.
- **Oracle.** With unique values, the phantom check reports a linearizable history exactly
  when a read coincides with its put on the clock; monotonic reads never trip on versioned
  histories of clients that work one operation at a time; read-your-writes trips exactly on
  the reads that find absent a key their client put last. Over any history at all, each
  check reports exactly what its rule says, in terms of the operations alone. From raw
  events through merging of retries, a log of clients that behave is reported by none of
  the checks, and one such log is written out.
- **CRC32C.** The table-driven loop is polynomial division, leaves the constant residue and
  gives the published values, and any error burst within 32 bits of a message changes it.
- **Log recovery.** For any log cut at any byte, recovery keeps exactly the complete
  records or refuses. A record damaged anywhere in its stored checksum, or within four
  consecutive bytes of its body, is always refused; damage to a length field, or across
  the checksum and the body, need not be.
- **Log storage.** Exactly which batches are accepted and what a refused one leaves behind;
  memory, disk and segment files agree through appending, overwriting and compaction, as long
  as the watermark does not go back. Opening the disk next to any later snapshot gives back
  the entries above it, and exactly when the opened storage can be relied on.
- **Key-value machine.** Exactly-once answers over whole logs, snapshot plus events rebuild
  any later state, guarded swaps go through exactly when the key's last event matches, and
  an index guard has one winner.
- **Streaming.** Any short-read pattern delivers a prefix in bounded chunks, completely or
  with an error, and within the rate quota between any two chunks.
- **Routing, forwarding, storage wrappers, replicated log.** Attempt bounds that are tight
  and outcomes that are exactly those of the last reply, a wire exchange equal to running
  the command up to two collapses, hard states recorded only after their entries are
  durable, committed entries that never change and runs that commit everything.

## Where the code does less than it promises

These hold of the code as it stands; the members named show a case and say exactly when.

- Read-your-writes reports a legal history when another client deletes the key
  (`OracleExamples.OwnWriteFalseAlarm`, `OracleChecks.MissIffAbsent`).
- The phantom check reports a legal read that shares one instant with its put, or whose put
  or itself shares one with a delete between them (`OracleExamples.InstantReadFalseAlarm`,
  `OracleExamples.InstantDeleteFalseAlarm`, `OracleChecks.PhantomReportedIffCoincides`).
- A shrunk witness is not always minimal (`OracleExamples.WitnessMayKeepTooMuch`). It is
  exactly when shrinking it again drops nothing (`WitnessMinimality.MinimalIffStable`); what
  was dropped also decides it, in one direction only: it is minimal if every write dropped
  behind a kept point is to a key no kept read reads (`WitnessMinimality.WitnessIsMinimal`),
  which the history alone may show (`WitnessMinimality.ReadsFollowIsMinimal`).
- A damaged length field that points past the end of the last segment is taken for a torn
  write: its record and every intact record after it are cut off without an error, exactly
  when the commit window does not forbid it (`WalRecovery.IntactRecordsAreDropped`,
  `WalRecovery.LongLengthIsTorn`, `WalRecovery.TornTailIsCut`).
- The checksum stands in front of the body, so four consecutive bytes that span both can
  change one valid record into another: an entry is replayed as a hard state
  (`WalDamage.EntryReadAsHardState`). A frame is refused whenever its checksum is not that of
  its body (`WalDamage.MismatchedFrameIsRefused`).
- Log recovery refuses a torn record that comes after everything committed, when the last
  complete entry is itself committed (`WalRecovery.TornAfterCommitted`, `WalRecovery.TearRefusedIff`).
- After any compaction, overwriting a conflicting uncommitted suffix is refused: the cache
  is truncated by index where it should be by position. By the time it is refused the suffix
  is gone from disk, while memory still has some of it (`WalAppend.OverwriteAfterCompaction`,
  `WalAppend.OverwriteNeedsUncompacted`). A batch refused for a later entry has been appended
  up to that entry (`WalAppend.WalStorage.AppendEach`).
- Overwriting entries removes from disk every hard state written after the last entry kept
  (`WalAppend.OverwriteForgetsVote`, `WalLog.OverwriteKeepsHardStateIff`), and compaction
  removes those in the segments it deletes (`WalAppend.CompactionForgetsVote`,
  `WalLog.CompactionKeepsHardStateIff`); reopening then finds an older one
  (`WalReopen.ReopenedAfterOverwrite`).
- With a trailing window, compaction moves the watermark to where the segments it keeps
  begin, and that may be further back than it was: memory then no longer starts at the
  watermark, and reads by position return other entries (`WalReopen.WatermarkGoesBack`). It
  cannot happen while no segment but the first starts up to the watermark, which appending
  and compacting keep but opening next to a later snapshot does not; otherwise some window
  makes it happen (`WalSegments.DeletionStaysTidy`, `WalSegments.UntidyGoesBack`).
- A snapshot installed past the end of the log is saved before the log is deleted. If the
  node stops in between, the disk opens, but once an entry is appended it has a hole and
  never opens again (`WalReopen.StaleLogStopsOpening`, `WalReopen.ReopenAgainIff`,
  `WalReopen.ReopenedIsValidIff`).
- A rate limiter whose bucket is below one token waits forever
  (`RateLimiter.RateLimiter.Acquire`).
- A snapshot of the reference state machine with more than 2^32 - 1 keys is refused when
  restored (`StateMachineSnapshot.DecodeInvertsEncode`).
- A repeated `multi_put` is always answered without a value, also when its session was
  first used by another kind of write whose answer had one (`KvRuns.BatchForgetsOutcome`,
  `KvRuns.RecordedOutcomeIff`); repeating the same command is answered alike.

## Model

| member | source | states |
|---|---|---|
| `OracleModel.BeforeIsTransitive` | arachne-testsupport/src/linearizability.rs:226-238 | the real-time relation, taken as the code has it, is transitive when no operation completes before it starts |
| `Linearizability.ResolutionGivesOrder` | arachne-testsupport/src/linearizability.rs:260-339 | a successful resolution of the remaining points yields an order that respects real time, visits every required point and is a legal execution |
| `Linearizability.OrderGivesResolution` | arachne-testsupport/src/linearizability.rs:260-339 | every such order yields a successful resolution, skipping the optional points it leaves out |
| `Linearizability.ResolvableIffLinearizable` | arachne-testsupport/src/linearizability.rs:216-339 | resolving everything is possible exactly when some linear extension of the real-time order is a legal execution containing all required points |
| `LinearizabilitySearch.Release` | arachne-testsupport/src/linearizability.rs:291-293 | decrements the counters of exactly the successors, none of them at zero |
| `LinearizabilitySearch.Reinstate` | arachne-testsupport/src/linearizability.rs:306-308 | increments the counters of exactly the successors, undoing `Release` |
| `LinearizabilitySearch.Resolve` | arachne-testsupport/src/linearizability.rs:290-293 | keeps the invariant that every counter is the number of unresolved predecessors while one point is marked resolved |
| `LinearizabilitySearch.Unresolve` | arachne-testsupport/src/linearizability.rs:306-309 | restores both arrays to describe the smaller resolved set |
| `LinearizabilitySearch.Branch` | arachne-testsupport/src/linearizability.rs:288-310 | one branch decides whether the rest can finish, and leaves both arrays as they were if it cannot |
| `LinearizabilitySearch.TryPoint` | arachne-testsupport/src/linearizability.rs:276-336 | trying a point, with and without it if it is optional, decides whether it can be resolved next |
| `LinearizabilitySearch.Dfs` | arachne-testsupport/src/linearizability.rs:260-339 | the search decides whether all points can be resolved, terminates, and restores its arrays on failure |
| `LinearizabilitySearch.BuildTables` | arachne-testsupport/src/linearizability.rs:222-242 | the adjacency lists hold each real-time successor once, and the counters start as the predecessor counts |
| `LinearizabilitySearch.Search` | arachne-testsupport/src/linearizability.rs:216-255 | the verdict is whether the selected points can all be resolved from the initial store |
| `LinearizabilityCheck.VerdictIsReference` | arachne-testsupport/src/linearizability.rs:172-255 | on valid intervals the verdict is the declarative one, whatever the number of points |
| `LinearizabilityCheck.ShrinkWitness` | arachne-testsupport/src/linearizability.rs:349-376 | the calls are those of the points that greedy dropping keeps |
| `LinearizabilityCheck.CheckReduced` | arachne-testsupport/src/linearizability.rs:172-204 | inconclusive exactly above the cap, otherwise the reference verdict, with the shrunk witness of a violation |
| `LinearizabilityCheck.KeptStillFails` | arachne-testsupport/src/linearizability.rs:349-376 | what is kept is a non-empty selection that still fails, and each point was needed when it was tried |
| `LinearizabilityCheck.GreedyKeepWasNeeded` | arachne-testsupport/src/linearizability.rs:352-372 | dropping a surviving point from some larger selection would have made it pass |
| `LinearizabilityCheck.WitnessReplays` | arachne-testsupport/src/linearizability.rs:349-376 | with disjoint call ids the sub-history a witness names is non-empty, within the cap, and a violation again |
| `WitnessMinimality.MinimalIffStable` | arachne-testsupport/src/linearizability.rs:349-376 | a selection is minimal exactly when shrinking it once more drops nothing |
| `WitnessMinimality.DropKeepsLinearizable` | arachne-testsupport/src/linearizability.rs:352-372 | leaving out a read, or a write of a key nobody else reads, keeps a set of points linearizable |
| `WitnessMinimality.DropAllKeepsPassing` | arachne-testsupport/src/linearizability.rs:352-372 | from a passing selection everything a smaller one does not miss can be dropped |
| `WitnessMinimality.WitnessIsMinimal` | arachne-testsupport/src/linearizability.rs:349-376 | on valid intervals a witness is minimal if every write dropped behind a kept point is to a key no kept read reads |
| `WitnessMinimality.ReadsFollowIsMinimal` | arachne-testsupport/src/linearizability.rs:349-376 | whatever shrinking leaves is minimal if every point after the first is a read or a write of a key no point reads |
| `LinearizabilityCheck.OptionalWriteKeepsLinearizable` | arachne-testsupport/src/linearizability.rs:312-335 | adding a write of unknown outcome anywhere keeps a history linearizable |
| `LinearizabilityCheck.OptionalWriteKeepsVerdict` | arachne-testsupport/src/linearizability.rs:172-204 | the same for the verdict of the search |
| `LinearizableRuns.LinearizableHasRun` | arachne-testsupport/src/linearizability.rs:99-113 | a linearizable history is a legal run of its own operations in real-time order |
| `LinearizableRuns.ReadFrom` | arachne-testsupport/src/linearizability.rs:99-113 | a read that returned a value takes it from an earlier put with no write of the key between |
| `LinearizableRuns.AbsentWasDeleted` | arachne-testsupport/src/linearizability.rs:99-113 | a key read as absent after a put was deleted in between |
| `LinearizableRuns.SelfExplainedIsLinearizable` | arachne-testsupport/src/linearizability.rs:99-113 | a history that is a legal run as it stands is linearizable |
| `OracleChecks.CheckPhantom` | arachne-testsupport/src/oracle.rs:691-767 | reports exactly the reads no candidate put explains, in order |
| `OracleChecks.LinearizableHasNoPhantom` | arachne-testsupport/src/oracle.rs:691-767 | nothing is reported on a history linearizable from the empty store unless a read coincides with a put of its value |
| `OracleChecks.PhantomReportedIffCoincides` | arachne-testsupport/src/oracle.rs:691-767 | with unique values a linearizable history is reported exactly when some read coincides with its put |
| `OracleChecks.TimedHistoryHasNoPhantom` | arachne-testsupport/src/oracle.rs:691-767 | nothing is reported when reads and deletes take time |
| `OracleChecks.CheckOneLogId` | arachne-testsupport/src/oracle.rs:773-800 | reports exactly the puts and deletes logged under more than one id, in order |
| `OracleChecks.CheckReadYourWrites` | arachne-testsupport/src/oracle.rs:806-866 | reports exactly the reads that disagree with the client's latest own write |
| `OracleChecks.MissIffAbsent` | arachne-testsupport/src/oracle.rs:806-866 | a read of a versioned history is reported exactly when it finds absent a key its client put last |
| `OracleChecks.UndeletedKeyIsNotMissed` | arachne-testsupport/src/oracle.rs:806-866 | a read of a key nobody deletes is not reported, whatever happens to other keys |
| `OracleChecks.OwnWriteReportedIffAbsent` | arachne-testsupport/src/oracle.rs:806-866 | on a versioned history nothing is reported exactly when no client reads as absent a key it last put |
| `OracleChecks.NoDeletesNoOwnWriteReport` | arachne-testsupport/src/oracle.rs:806-866 | without deletes of the keys read, nothing is reported on a versioned history |
| `OracleChecks.CheckMonotonicReads` | arachne-testsupport/src/oracle.rs:872-922 | reports every regression between consecutive reads of a client on a key, once, group by group, and nothing else |
| `OracleChecks.VersionedReadsAreMonotonic` | arachne-testsupport/src/oracle.rs:872-922 | clients of a versioned history that work one operation at a time never see a value go back |
| `OracleDetection.ReadOfPutIff` | arachne-testsupport/src/oracle.rs:175-184 | a put and a read of its value are linearizable exactly when the put succeeded, never completed, timed out or lost its session, and the read was not over before it began |
| `OracleDetection.ReadOfDeleteIff` | arachne-testsupport/src/oracle.rs:175-184 | a key that was put is read as absent exactly when a delete may have happened in the same sense |
| `OracleDetection.RefusedMakesNoDifference` | arachne-testsupport/src/linearizability.rs:172-204 | removing an operation refused for want of a leader, of a quorum or of capacity, or a read that did not succeed, changes no verdict |
| `OracleDetection.PhantomReportedIff` | arachne-testsupport/src/oracle.rs:691-767 | the phantom check reports exactly the reads of a value of which every put was refused, began too late, or was followed by a delete before the read |
| `OracleDetection.OwnWriteReportedIff` | arachne-testsupport/src/oracle.rs:806-866 | read-your-writes reports exactly the reads that find nothing or less than the last of their client's own mutations done before, if that is a put, and names both |
| `OracleDetection.RegressionReportedIff` | arachne-testsupport/src/oracle.rs:872-922 | comparing consecutive reads reports something exactly when some client reads a smaller value of a key later |
| `OracleDetection.LoggedTwiceReportedIff` | arachne-testsupport/src/oracle.rs:773-801 | the log-id check reports exactly the puts and deletes with two different log ids, and names their calls |
| `OracleExamples.OwnWriteFalseAlarm` | arachne-testsupport/src/oracle.rs:806-866 | a linearizable history that read-your-writes reports |
| `OracleExamples.InstantReadFalseAlarm` | arachne-testsupport/src/oracle.rs:691-767 | a linearizable history with an instantaneous read that the phantom check reports |
| `OracleExamples.InstantDeleteFalseAlarm` | arachne-testsupport/src/oracle.rs:691-767 | a linearizable history with a read that takes time, reported because its put shares an instant with a delete |
| `OracleExamples.WitnessMayKeepTooMuch` | arachne-testsupport/src/linearizability.rs:349-376 | a violation whose shrunk witness could lose an operation and still fail |
| `OracleHistory.History.RecordInvoke` | arachne-testsupport/src/oracle.rs:254-271 | appends the invoke event |
| `OracleHistory.History.RecordComplete` | arachne-testsupport/src/oracle.rs:273-298 | appends the completion event |
| `OracleHistory.History.GroupEvents` | arachne-testsupport/src/oracle.rs:321-366 | every group is the fold of the events attributed to its operation |
| `OracleHistory.History.MergeRetries` | arachne-testsupport/src/oracle.rs:321-384 | one operation per invoked (client, sequence), strictly ordered by invoke time, client and sequence |
| `OracleHistory.MergedOpMeaning` | arachne-testsupport/src/oracle.rs:1044-1081 | a merged operation has its first command, earliest invoke, the completion its client went by, and its calls in order |
| `OracleHistory.MergedInterval` | arachne-testsupport/src/oracle.rs:1055-1081 | merged intervals are valid, or strict, when those of the calls are |
| `OracleHistory.MergeIgnoresInterleaving` | arachne-testsupport/src/oracle.rs:321-384 | logs that agree on every operation's own events have the same reduction |
| `OracleHistory.MergeSurvivesSwap` | arachne-testsupport/src/oracle.rs:321-384 | swapping neighbouring events of different operations of a well-formed log changes nothing |
| `OracleHistory.MergeConservesCalls` | arachne-testsupport/src/oracle.rs:321-384 | the calls of all merged operations are the invoked calls, with multiplicity |
| `OracleHistory.Validate` | arachne-testsupport/src/oracle.rs:394-465 | reports every reused call, orphaned completion and changed command, once each in log order, so it is silent exactly on well-formed logs |
| `OracleHistory.DefectsMembers` | arachne-testsupport/src/oracle.rs:394-465 | every defect is a failure of well-formedness, one for each bad event, naming its call where the source does |
| `OracleHistory.RawHistoryHasNoPhantom` | arachne-testsupport/src/oracle.rs:471-474 | from raw events whose calls take time to silence of the phantom check, when the merged history is linearizable |
| `OracleHistory.RawHistoryIsSilent` | arachne-testsupport/src/oracle.rs:471-486 | a well-formed log logged once whose merged history is versioned, one operation at a time and without deletes of what is read is reported by none of the five checks |
| `OracleWellBehaved.RetriesAreMerged` | arachne-testsupport/src/oracle.rs:321-384 | a put that times out and is retried, then read, merges into two operations with exactly these times, results, log ids and calls |
| `OracleWellBehaved.WellBehavedIsSilent` | arachne-testsupport/src/oracle.rs:471-486 | that log meets every condition under which silence is promised, and no check reports anything |
| `Crc32cDivision.FeedIsRemainder` | arachne/src/storage/crc32c.rs:17-26 | feeding bits to the register is long division of the message by the generator |
| `Crc32cDivision.BurstLeavesTrace` | arachne/src/storage/crc32c.rs:17-26 | a non-zero burst of at most 32 bits, between any zeros, leaves a non-zero register |
| `Crc32cDivision.FeedKeepsParity` | arachne/src/storage/crc32c.rs:17-26 | the register's parity is the initial parity and the message's together |
| `Crc32c.MakeEntry` | arachne/src/storage/crc32c.rs:31-42 | a table entry is eight division steps of its index |
| `Crc32c.MakeTable` | arachne/src/storage/crc32c.rs:28-46 | all 256 entries are |
| `Crc32c.Crc32c` | arachne/src/storage/crc32c.rs:17-26 | the table-driven loop computes the checksum defined by polynomial division, on every byte string |
| `Crc32c.ResidueIsConstant` | arachne/src/storage/crc32c.rs:17-26 | a message followed by its checksum always leaves the same residue |
| `Crc32c.EmptyChecksum` | arachne/src/storage/crc32c.rs:15-26 | the checksum of the empty message is zero |
| `Crc32cKnown.ChecksumIsBitByBit` | arachne/src/storage/crc32c.rs:17-26 | the checksum is that of the bit-by-bit loop on machine words, complemented at both ends |
| `Crc32cKnown.DigitsChecksum` | arachne/src/storage/crc32c.rs:57-61 | the published check value |
| `Crc32cKnown.LettersChecksum` | arachne/src/storage/crc32c.rs:63-67 | the checksum of "abcd" |
| `Crc32cKnown.ZeroByteChecksum` | arachne/src/storage/crc32c.rs:78-82 | the checksum of one zero byte |
| `Crc32c.ChecksumDifference` | arachne/src/storage/crc32c.rs:17-26 | checksums of messages of one length differ by what the difference of the messages leaves in the register |
| `Crc32c.BurstDetected` | arachne/src/storage/crc32c.rs:17-26 | inputs that differ within any 32 consecutive bits have different checksums |
| `Crc32c.FourByteBurstDetected` | arachne/src/storage/crc32c.rs:17-26 | inputs that differ within four consecutive bytes have different checksums |
| `Crc32c.ChecksumParity` | arachne/src/storage/crc32c.rs:17-26 | the checksum has the parity of the message |
| `Crc32cSpan.HalfOfTheChecksumAgrees` | arachne/src/storage/crc32c.rs:17-26 | messages of 123 bytes that start with 1, 1 and with 2, 69 and then agree have checksums that agree in their first 16 bits |
| `Mixing.MixIsInvertible` | arachne-testsupport/src/rng.rs:37-47 | the output function of the generator can be undone |
| `Mixing.DrawsAreDistinct` | arachne-testsupport/src/rng.rs:37-47 | the first 2^64 raw outputs from any seed are pairwise distinct |
| `Mixing.SeededRng.NextU64` | arachne-testsupport/src/rng.rs:37-47 | a draw is the output of the next draw number |
| `Mixing.SeededRng.GenRange` | arachne-testsupport/src/rng.rs:51-63 | a draw in the half-open range, or its lower end without drawing when the range is empty |
| `Mixing.KnownDraws` | arachne-testsupport/src/rng.rs:37-47 | the first three outputs from seed zero are the published ones |
| `Mixing.OneByteChangesHash` | arachne/src/client/handle.rs:1746-1757 | changing one byte changes the FNV-1a hash, whatever comes before and after |
| `Mixing.ClientIdFor` | arachne/src/client/handle.rs:1746-1757 | the id is the hash of the node id and the counter's little-endian bytes |
| `Mixing.CounterBytesAreCounter` | arachne/src/client/handle.rs:1746-1757 | the hashed counter bytes, put back in their places, are the counter |
| `Mixing.KnownHash` | arachne/src/client/handle.rs:1746-1757 | the published hash of "foobar" |
| `Mixing.NodesGetDifferentIds` | arachne/src/client/handle.rs:1746-1757 | node ids of one length that differ in one byte get different ids at one counter |
| `Mixing.CountersGetDifferentIds` | arachne/src/client/handle.rs:1746-1757 | counters that differ in one byte give one node different ids |
| `FsyncLedger.Sweep` | arachne-testsupport/src/fsync_ledger.rs:75-93 | the sweep over sorted ranges decides coverage of every index, up to the largest |
| `FsyncLedger.CoverageAdds` | arachne-testsupport/src/fsync_ledger.rs:58-94 | one flush covers exactly its own range, and flushes together cover what either covers |
| `FsyncLedger.Ledger.OnSegmentFsynced` | arachne-testsupport/src/fsync_ledger.rs:98-107 | adds exactly the flushed range to what is covered |
| `FsyncLedger.Ledger.UnionCovers` | arachne-testsupport/src/fsync_ledger.rs:58-94 | true exactly when every index of the range lies in some recorded range |
| `DurableStorage.OneMoreCall` | arachne-testsupport/src/faulty_storage.rs:176-227 | a call is accepted exactly when its count is not scheduled to fail and the wrapped storage accepts it, and only then takes effect |
| `DurableStorage.AppendAcceptedIff` | arachne-testsupport/src/faulty_storage.rs:176-187 | an append fails exactly if the wrapped storage refuses it or its number among the appends is the scheduled one |
| `DurableStorage.SetAcceptedIff` | arachne-testsupport/src/faulty_storage.rs:189-206 | the same of recording a hard state |
| `DurableStorage.SyncAcceptedIff` | arachne-testsupport/src/faulty_storage.rs:208-227 | a sync fails also if its number is a multiple of a scheduled period other than zero |
| `DurableStorage.DurabilityLedger.RecordHardState` | arachne-testsupport/src/durability.rs:71-80 | appends the hard state with the next number |
| `DurableStorage.DurabilityLedger.MaxPersistedTerm` | arachne-testsupport/src/durability.rs:85-93 | the highest persisted term, zero if none |
| `DurableStorage.DurabilityLedger.PersistedCommit` | arachne-testsupport/src/durability.rs:96-104 | the highest persisted commit index, zero if none |
| `DurableStorage.FaultyStorage.AppendEntries` | arachne-testsupport/src/faulty_storage.rs:176-187 | keeps all fields determined by the calls made, under any schedule and for a wrapped storage that may overwrite |
| `DurableStorage.FaultyStorage.Sync` | arachne-testsupport/src/faulty_storage.rs:208-227 | the same, and everything appended is durable when it is accepted |
| `DurableStorage.FaultyStorage.Set` | arachne-testsupport/src/faulty_storage.rs:189-206 | the same, and the ledger grows exactly when it is accepted |
| `DurableStorage.FaultyStorage.PersistReady` | arachne-seam/src/storage.rs:320-335 | makes the calls of a Ready in order up to the first failure |
| `DurableStorage.ReadyEffect` | arachne-seam/src/storage.rs:320-335 | a Ready's hard state is recorded exactly when all it asked for was accepted, and its entries are then durable |
| `DurableStorage.LaterCallsExtend` | arachne-testsupport/src/faulty_storage.rs:176-227 | the ledger only grows, and entries stay in the log and durable until an accepted append overwrites them |
| `DurableStorage.RecordedImpliesDurable` | arachne-testsupport/src/durability.rs:71-80 | over any run, a recorded Ready's own entries are in the durable part of the log at the end, unless they were overwritten since |
| `DurableStorage.AppendOnlyStaysDurable` | arachne-testsupport/src/faulty_storage.rs:310-313 | over a wrapped storage that only appends they are there for good |
| `DurableStorage.LedgerOfReadies` | arachne-testsupport/src/durability.rs:71-104 | the ledger of a run is exactly the hard states of its accepted Readies, in order |
| `ReplicatedLog.MergeLogs` | model-check/src/main.rs:83-95 | replication keeps the common prefix and takes the leader's rest, or the whole follower log when the leader's is a prefix of it |
| `ReplicatedLog.MergedMeaning` | model-check/src/main.rs:83-95 | the merged log starts with the leader's, and whichever log starts with the other is what remains |
| `ReplicatedLog.StepIsSafe` | model-check/src/main.rs:121-164 | every action keeps followers prefixes of the leader and committed entries held by a quorum, and only extends logs |
| `ReplicatedLog.RunsAreSafe` | model-check/src/main.rs:166-209 | so does every reachable state, for any number of nodes and any log bound |
| `ReplicatedLog.RunsExtend` | model-check/src/main.rs:121-164 | logs only grow along a run |
| `ReplicatedLog.CommittedForever` | model-check/src/main.rs:185-200 | an entry committed on any node is what every node has committed there in every later state, held by a quorum |
| `ReplicatedLog.LogMatching` | model-check/src/main.rs:169-184 | two nodes agree on every index both have |
| `ReplicatedLog.EverythingCanBeCommitted` | model-check/src/main.rs:121-164 | whenever a quorum is at most all nodes, some run appends any payloads within the bound, replicates them everywhere and commits them everywhere |
| `KeyRange.Successor` | arachne/src/client/handle.rs:1795-1804 | the loop finds the prefix with its last byte below 255 raised and the rest cut, if there is one |
| `KeyRange.PrefixIsRange` | arachne/src/client/handle.rs:1795-1804 | a key starts with the prefix exactly when it is at least the prefix and below its successor, if that exists |
| `KeyRange.SuccessorIsAbove` | arachne/src/client/handle.rs:1795-1804 | the successor is above the prefix and no longer than it |
| `KeyRange.RangeRefusedIff` | arachne/src/client/handle.rs:504-549 | a range is refused exactly for a bound that is too long or an end below its start |
| `KeyRange.ReversedRangeIsEmpty` | arachne/src/client/handle.rs:504-549 | a range has no keys exactly if it is refused as reversed or goes from a key to itself |
| `KeyRange.PrefixReadIsRangeRead` | arachne/src/client/handle.rs:504-549 | the range read a valid prefix read turns into passes its own argument checks and selects exactly the keys with the prefix |
| `ClientRouting.TargetOrder` | arachne/src/client/handle.rs:1274-1285 | this node first, then its other peers in ascending order, each once |
| `ClientRouting.TargetOrderIsValid` | arachne/src/client/handle.rs:1274-1285 | the listed order starts with this node and names it nowhere else |
| `ClientRouting.FollowRedirects` | arachne/src/client/handle.rs:948-1008 | for any replies: the targets visited, where the loop stops and what it returns, within `max_redirects + max(1, n - 1)` attempts |
| `ClientRouting.VerdictIsOutcome` | arachne/src/client/handle.rs:985-1006 | the outcome follows from the last reply: an answer and a refusal as they are, and exactly when it is a redirect, a shutdown, a lost quorum, a timeout or overload |
| `ClientRouting.AimedAtHintOrNext` | arachne/src/client/handle.rs:948-990 | every attempt goes to the node the last reply named, or else to the next in line, going round |
| `ClientRouting.ContinuesIff` | arachne/src/client/handle.rs:985-1006 | the loop goes on exactly after a redirect within the limit, or a peer that is gone, was next in line and is not the last to try |
| `ClientRouting.AttemptsAreCounted` | arachne/src/client/handle.rs:948-1008 | every attempt continued after is a redirect or a skipped peer, and both are limited |
| `ClientRouting.RedirectingHandleHidesRedirects` | arachne/src/client/handle.rs:990-1004 | a handle that follows redirects never returns one |
| `ClientRouting.SingleShotAsksOnce` | arachne/src/client/handle.rs:993-996 | a single-shot handle asks its own node once and passes the hint on unchanged |
| `ClientRouting.RouteIgnoresPayload` | arachne/src/client/handle.rs:1010-1064 | two runs of the loop over different payloads that get the same replies visit the same targets, stop together and fail alike; the three source loops are one loop here |
| `ClientRouting.BoundIsReached` | arachne/src/client/handle.rs:948-1008 | some replies make the loop use every attempt the bound allows |
| `StateMachineCodec.PrintedIsInjective` | arachne-testsupport/src/state_machine.rs:223-236 | lists of pairs with one written form are equal |
| `StateMachineCodec.Cursor.ReadLength` | arachne-testsupport/src/state_machine.rs:271-282 | reads a length off the rest, telling a clean end from a truncated one |
| `StateMachineCodec.Cursor.ReadBytes` | arachne-testsupport/src/state_machine.rs:285-295 | reads exactly that many bytes, or fails and stays |
| `StateMachineCodec.Cursor.ReadU64` | arachne-testsupport/src/state_machine.rs:305-309 | reads eight bytes, or fails when fewer are left |
| `StateMachineCodec.ReadPair` | arachne-testsupport/src/state_machine.rs:204-217 | reads a pair exactly when one starts there |
| `StateMachineCodec.ParseCommand` | arachne-testsupport/src/state_machine.rs:201-220 | accepts exactly the written forms and returns the pairs written |
| `StateMachineCodec.ParserInvertsPrinter` | arachne-testsupport/src/state_machine.rs:201-220 | parser and written form are mutually inverse |
| `StateMachineSnapshot.LastInsertWins` | arachne-testsupport/src/state_machine.rs:145-148 | the last pair for a key gives its value and other keys keep theirs |
| `StateMachineSnapshot.Listing` | arachne-testsupport/src/state_machine.rs:230-235 | a map's entries in ascending key order, and nothing else |
| `StateMachineSnapshot.ListingIsUnique` | arachne-testsupport/src/state_machine.rs:230-235 | there is one such listing |
| `StateMachineSnapshot.EncodeSnapshot` | arachne-testsupport/src/state_machine.rs:223-236 | the buffer is the header and the written form of the listing |
| `StateMachineSnapshot.DecodeSnapshot` | arachne-testsupport/src/state_machine.rs:239-258 | accepts exactly a header followed by as many pairs as it announces and nothing else |
| `StateMachineSnapshot.DecodeInvertsEncode` | arachne-testsupport/src/state_machine.rs:223-258 | decoding inverts encoding for up to 2^32 - 1 keys, and larger snapshots are refused |
| `StateMachineSnapshot.ReencodingIsCanonical` | arachne-testsupport/src/state_machine.rs:223-258 | any accepted snapshot re-encodes to one that decodes alike, and to itself exactly when its keys ascend |
| `TestStateMachine.InMemoryStateMachine.Apply` | arachne-testsupport/src/state_machine.rs:120-154 | accepts exactly the next index with a well-formed command, inserts its pairs, and leaves the store alone otherwise |
| `TestStateMachine.InMemoryStateMachine.Lookup` | arachne-testsupport/src/state_machine.rs:156-164 | the stored value, or none |
| `TestStateMachine.InMemoryStateMachine.Snapshot` | arachne-testsupport/src/state_machine.rs:166-173 | the canonical snapshot of the store |
| `TestStateMachine.InMemoryStateMachine.Restore` | arachne-testsupport/src/state_machine.rs:175-187 | replaces the whole store by what the bytes hold, or leaves it alone |
| `TestStateMachine.AnswerIsStored` | arachne-testsupport/src/state_machine.rs:143-153 | a value reported by an apply is in the store after it |
| `TestStateMachine.AnswerIsLastValue` | arachne-testsupport/src/state_machine.rs:143-153 | an accepted command is answered with the value of its last pair, without a value exactly if it has none |
| `TestStateMachine.RefusalNamesNextIndex` | arachne-testsupport/src/state_machine.rs:132-141 | an out-of-order refusal names the one index in order, and refusals change nothing |
| `TestStateMachine.RecoveryEquivalence` | arachne-testsupport/src/state_machine.rs:120-187 | for every log and cut, snapshot, restore and replay of the rest give the answers, store and snapshot bytes of full replay |
| `TestStateMachine.AppliedCountsAccepted` | arachne-testsupport/src/state_machine.rs:120-154 | the applied index counts the accepted calls |
| `TestStateMachine.RefusedCallsLeaveNoTrace` | arachne-testsupport/src/state_machine.rs:120-154 | dropping the refused calls of a run gives the same store |
| `SnapshotStream.ChunkBytes` | arachne-transport-tonic/src/server.rs:99-101 | at least one byte, within the fixed bound and within half the message cap |
| `SnapshotStream.ChunkIsLargest` | arachne-transport-tonic/src/server.rs:99-101 | no larger chunk is within 256 KiB and fits twice into a message; a message of one byte or none gets a chunk of one |
| `RateLimiter.RefillKeepsBudget` | arachne-transport-tonic/src/snapshot.rs:97-102 | refilling keeps what passed plus what is left within the quota of every window |
| `RateLimiter.ReleaseKeepsBudget` | arachne-transport-tonic/src/snapshot.rs:103-106 | so does a release, and windows ending with it are within their quota |
| `RateLimiter.RateLimiter.constructor` | arachne-transport-tonic/src/snapshot.rs:78-86 | starts with one burst, of any size |
| `RateLimiter.RateLimiter.Acquire` | arachne-transport-tonic/src/snapshot.rs:89-111 | one sleep is always enough, except that a bucket below one token is never granted anything; a grant is one release, and every window of releases stays within burst plus rate times its length |
| `RateLimiter.EmptyBucketNeverSuffices` | arachne-transport-tonic/src/snapshot.rs:93-106 | with a bucket below one token no refill meets the least that is asked for |
| `SnapshotStream.FillChunk` | arachne-transport-tonic/src/server.rs:124-139 | whatever the reads return, the buffer holds the next bytes of the source, short only when the source has ended |
| `SnapshotStream.PacedStaysWithinQuota` | arachne-transport-tonic/src/snapshot.rs:89-111 | bytes sent since the start, and after any earlier chunk, are within the quota when each chunk is sent |
| `SnapshotStream.DeliveredGrows` | arachne-transport-tonic/src/server.rs:146-152 | what has been delivered at any moment is a prefix of what is delivered in the end |
| `SnapshotStream.StreamSnapshot` | arachne-transport-tonic/src/server.rs:110-155 | delivers non-empty bounded chunks that are a prefix of the source, complete exactly when it ends without error and the receiver stays, and within the quota |
| `SnapshotStream.FetchSnapshot` | arachne-transport-tonic/src/transport.rs:201-220 | succeeds exactly when no error arrives and every file operation succeeds, with the file the chunks together and its length; fails with the stream exactly when its error is reached |
| `SnapshotStream.Transfer` | arachne-transport-tonic/src/transport.rs:163-221 | end to end, a receiver that stays succeeds only on a complete stream, with the declared length of the source byte for byte; it fails with the stream only when that failed; and with a working file it succeeds exactly on a complete stream |
| `ForwardWire.CommandsRoundTrip` | arachne-transport-tonic/src/server.rs:309-339 | every command arrives as itself, and a request is a command exactly when its kind is known |
| `ForwardWire.ResultsRoundTrip` | arachne-transport-tonic/src/server.rs:408-424 | an apply outcome arrives as itself, except that no value becomes absent |
| `ForwardWire.BatchesRoundTrip` | arachne-transport-tonic/src/transport.rs:491-506 | a batch arrives as itself or, with the wrong number of values, is refused |
| `ForwardWire.ForwardRunsTheCommand` | arachne-transport-tonic/src/transport.rs:299-379 | forwarding is running the command at the other end: codes, redirects, refusals and outcomes, up to the two collapses |
| `ForwardWire.OnlyTwoCollapses` | arachne-transport-tonic/src/server.rs:341-384 | two outcomes arrive alike exactly when they differ by nothing but the two collapses |
| `ForwardWire.UnknownKindRunsNothing` | arachne-transport-tonic/src/server.rs:333-339 | a request of unknown kind is answered alike whatever the sink would do |
| `ForwardWire.NoSinkRunsNothing` | arachne-transport-tonic/src/server.rs:294-304 | without a sink every request comes back as unavailable |
| `KvMachine.KvStateMachine.Apply` | arachne/src/state_machine/kv.rs:933-1132 | accepts exactly the next index and a command that parses, with the new state and answer; refusals change nothing |
| `KvMachine.KvStateMachine.RemoveSessions` | arachne/src/state_machine/kv.rs:960-967 | removes exactly the listed sessions |
| `KvMachine.KvStateMachine.Execute` | arachne/src/state_machine/kv.rs:1085-1127 | executes a new session's write and records its outcome and index |
| `KvMachine.KvStateMachine.WriteBatch` | arachne/src/state_machine/kv.rs:977-1010 | writes all pairs, last one winning, with one event per key in key order |
| `KvMachine.KvStateMachine.CompareAndSwap` | arachne/src/state_machine/kv.rs:1019-1082 | writes exactly on a match and otherwise reports the state compared |
| `KvRuns.KnownIff` | arachne/src/state_machine/kv.rs:960-1127 | a session is in the table exactly when it was written and not collected since |
| `KvRuns.TableHasOrigin` | arachne/src/state_machine/kv.rs:1085-1127 | a recorded answer is that of the one entry that executed the session's write |
| `KvRuns.RecordStays` | arachne/src/state_machine/kv.rs:960-1127 | a recorded answer stays until its session is collected |
| `KvRuns.ReplayIsAnsweredAlike` | arachne/src/state_machine/kv.rs:933-1132 | exactly once: a repeated write gets the first outcome and index, changes nothing and has no events |
| `KvRuns.ExecutedIff` | arachne/src/state_machine/kv.rs:933-1132 | a write is executed exactly when its session was not written before, or was collected since |
| `KvRuns.RecordedOutcomeIff` | arachne/src/state_machine/kv.rs:977-1010 | a known session gets its recorded index, and its recorded outcome unless it is now used for a batch and that had a value |
| `KvRuns.BatchForgetsOutcome` | arachne/src/state_machine/kv.rs:1008-1009 | a session used for a put and then for a batch is answered without the put's value |
| `KvRuns.ReplaysAreNoops` | arachne/src/state_machine/kv.rs:933-1132 | turning repeated writes into no-ops changes neither the machine nor any event |
| `KvRuns.OutcomeIsHonest` | arachne/src/state_machine/kv.rs:1019-1127 | a first-time outcome says what happened to the store |
| `KvRuns.WriteTakesEffect` | arachne/src/state_machine/kv.rs:969-1131 | what a first-time put, delete or batch stores, answers and reports |
| `KvRuns.HousekeepingIsQuiet` | arachne/src/state_machine/kv.rs:953-968 | no-ops and collections answer no value and leave the store alone |
| `KvRuns.OtherKeysKeepTheirs` | arachne/src/state_machine/kv.rs:977-1127 | a write touches no key but its own |
| `KvRuns.WriteReplays` | arachne/src/state_machine/kv.rs:977-1127 | replaying a write's events has its effect, repeated keys in a batch included |
| `KvRuns.SnapshotAndEvents` | arachne/src/state_machine/kv.rs:889-932 | the store at any cut and the events after it give the store at the end |
| `KvRuns.StoredIsLastWritten` | arachne/src/state_machine/kv.rs:1019-1127 | what is stored under a key, and since which entry, is what its last event in the log says |
| `KvRuns.IndexGuardIsExact` | arachne/src/state_machine/kv.rs:1027-1037 | a swap guarded by an index goes through exactly when the key's last event is a put by that entry |
| `KvRuns.ValueGuardIsExact` | arachne/src/state_machine/kv.rs:1019-1082 | a swap guarded by a value goes through exactly when the key's last event put that value |
| `KvRuns.AbsenceGuardIsExact` | arachne/src/state_machine/kv.rs:1019-1082 | one guarded by absence, exactly when the key has no event or its last is a delete |
| `KvRuns.FailedSwapNamesState` | arachne/src/state_machine/kv.rs:1019-1082 | a failed swap is told the value and index the key's last event left, or that there is none |
| `KvRuns.SwapIsItsWrite` | arachne/src/state_machine/kv.rs:1019-1082 | a swap that goes through has the events, answer and effect of its put or delete |
| `KvRuns.AtMostOneSwapWins` | arachne/src/state_machine/kv.rs:1019-1082 | of all swaps of a key guarded by one index at most one goes through in any log |
| `WalFormat.DecodeInvertsEncode` | arachne/src/storage/format.rs:129-192 | a record of admissible size decodes to itself |
| `WalFormat.EncodeInvertsDecode` | arachne/src/storage/format.rs:152-192 | an accepted buffer is the encoding of its content |
| `WalFormat.PayloadRoundTrip` | arachne/src/storage/format.rs:199-297 | entry and hard-state payloads decode to themselves |
| `WireLayouts.RecordLayout` | arachne/src/storage/format.rs:129-275 | every byte of a written record: length, checksum, type, little-endian fields |
| `WireLayouts.SizeLimit` | arachne/src/storage/wal.rs:1633-1650 | an entry is small enough exactly when its record, with length and checksum, is at most 64 MiB |
| `WireLayouts.RecordRefusedIff` | arachne/src/storage/format.rs:152-192 | exactly why a buffer is not a record |
| `WireLayouts.CommandLayout` | arachne-testsupport/src/state_machine.rs:197-220 | every byte of a command: big-endian lengths before keys and values |
| `WireLayouts.SnapshotLayout` | arachne-testsupport/src/state_machine.rs:223-236 | every byte of a snapshot: applied index, count, pairs in key order |
| `WireLayouts.RequestLayout` | arachne-transport-tonic/src/transport.rs:240-295 | the kind number and fields of the request of every command |
| `WalRecovery.ScanOfCut` | arachne/src/storage/wal.rs:652-760 | wherever a segment is cut, exactly the complete records are read and the rest is a tear |
| `WalRecovery.Directory.RecoverWal` | arachne/src/storage/wal.rs:632-764 | the replayed entries and hard state, or refusal; the only change on disk is cutting a tear off the last segment |
| `WalRecovery.ReplaySegment` | arachne/src/storage/wal.rs:652-760 | replays the records of a segment up to where reading stops |
| `WalRecovery.EntriesInOrder` | arachne/src/storage/wal.rs:728-741 | replayed entries keep their log order |
| `WalRecovery.HardStateIsLast` | arachne/src/storage/wal.rs:717-727 | the recovered hard state is the last one written |
| `WalRecovery.VerifyContinuity` | arachne/src/storage/wal.rs:772-788 | accepts exactly entries without a gap |
| `WalRecovery.CrashRecovery` | arachne/src/storage/wal.rs:632-764 | for any written log cut at any byte of its last segment: what is recovered, when it is refused, and the files afterwards |
| `WalRecovery.RecoveryIsStable` | arachne/src/storage/wal.rs:632-764 | recovering again gives the same records with nothing more to cut |
| `WalRecovery.CommittedSurvive` | arachne/src/storage/wal.rs:681-703 | after a truncation every retained index up to the commit index is still there |
| `WalRecovery.TearRefusedIff` | arachne/src/storage/wal.rs:681-703 | a tear is refused exactly when the index after the last complete entry is at most one past the commit index |
| `WalRecovery.TornAfterCommitted` | arachne/src/storage/wal.rs:681-703 | an entry, its commit and a torn second entry are refused |
| `WalRecovery.CorruptSegmentIsRefused` | arachne/src/storage/wal.rs:748-757 | a complete record that does not read back in any segment, or a tear in any but the last, makes recovery refuse |
| `WalRecovery.ScanOfFrame` | arachne/src/storage/wal.rs:706-760 | a frame of admissible size is read, or stops the scan, exactly as it decodes |
| `WalRecovery.TornTailIsCut` | arachne/src/storage/wal.rs:653-703 | after good records, anything in the last segment that looks torn is cut off, or refused exactly in the commit window |
| `WalRecovery.LongLengthIsTorn` | arachne/src/storage/wal.rs:653-668 | a record with another length looks torn exactly when that points past the end of the segment |
| `WalRecovery.ShortLengthIsRefused` | arachne/src/storage/wal.rs:706-757 | a length that stays within the segment is refused unless the stored checksum is that of the bytes it selects |
| `WalRecovery.IntactRecordsAreDropped` | arachne/src/storage/wal.rs:653-703 | an entry, an entry with a damaged length and any intact records after it recover to the first entry alone |
| `WalDamage.StoredCrcDetects` | arachne/src/storage/format.rs:173-180 | a change of up to four consecutive body bytes changes the stored checksum |
| `WalDamage.StoredCheckValue` | arachne/src/storage/format.rs:129-150 | the stored checksum of "123456789" is its check value, lowest byte first |
| `WalDamage.MismatchedFrameIsRefused` | arachne/src/storage/format.rs:173-180 | a frame whose checksum is not that of its body, anywhere and whatever follows, makes recovery refuse |
| `WalDamage.DamagedRecordIsRefused` | arachne/src/storage/wal.rs:748-757 | so does a record damaged within four consecutive bytes of its body |
| `WalDamage.DamagedChecksumIsRefused` | arachne/src/storage/format.rs:173-180 | so does a record with any damage confined to its stored checksum |
| `WalDamage.EntryReadAsHardState` | arachne/src/storage/format.rs:129-192 | an entry of 105 bytes with an index of 1 modulo 256, damaged in four consecutive bytes across checksum and body, is replayed as a hard state |
| `WalLog.AboveIsSuffix` | arachne/src/storage/wal.rs:457 | of consecutive entries, those above an index are the last ones |
| `WalLog.CutAfter` | arachne/src/storage/wal.rs:885-918 | the records up to and including the entry kept, none if it is not on disk |
| `WalLog.CutEntries` | arachne/src/storage/wal.rs:885-950 | cutting the disk of an uncompacted log after an entry leaves exactly the entries up to it |
| `WalLog.CompactedOnDisk` | arachne/src/storage/wal.rs:1944-1949 | removing old records and old entries together keeps memory and disk in agreement |
| `WalLog.OverwriteKeepsHardStateIff` | arachne/src/storage/wal.rs:920-947 | the hard state on disk survives an overwrite exactly when none was written after the last entry kept, or it repeats the one before |
| `WalLog.CompactionKeepsHardStateIff` | arachne/src/storage/wal.rs:1937-1949 | the hard state on disk survives compaction exactly when one is left in the segments kept, or there was none |
| `WalSegments.BatchKeepsDisk` | arachne/src/storage/wal.rs:832-861 | appending with a rollover before any entries keeps memory and disk in agreement, segment names in order, and in every segment exactly the entries from its name up to the next |
| `WalSegments.CutKeepsSegments` | arachne/src/storage/wal.rs:920-947 | so does cutting the log back and removing the later segments |
| `WalSegments.DropSegments` | arachne/src/storage/wal.rs:920-947 | keeps the segments up to the one that holds the last record kept, or one fresh segment |
| `WalSegments.RetainedBytes` | arachne/src/storage/wal.rs:1114-1124 | the bytes in the segments from a name on |
| `WalSegments.SegmentsBelow` | arachne/src/storage/wal.rs:1410-1425 | exactly the oldest segments that lie wholly up to the watermark |
| `WalSegments.SegmentsBeyond` | arachne/src/storage/wal.rs:1956-1975 | of those, exactly as many from the oldest on as leave the window |
| `WalSegments.GoneIsBounded` | arachne/src/storage/wal.rs:1405-1425 | no deleted segment holds an entry that is kept |
| `WalSegments.CompactionKeepsDiskIff` | arachne/src/storage/wal.rs:1911-1982 | memory and disk agree after compaction exactly when the watermark did not go back |
| `WalSegments.DeletionStaysTidy` | arachne/src/storage/wal.rs:1950-1982 | while no segment but the first starts up to the watermark, compaction with any window never moves it back, and leaves the same |
| `WalSegments.UntidyGoesBack` | arachne/src/storage/wal.rs:1950-1982 | otherwise there is a window with which compaction moves the watermark back |
| `WalAppend.WalStorage.SetHardState` | arachne/src/storage/wal.rs:1671-1687 | the hard state is on disk and in memory |
| `WalAppend.WalStorage.TruncateTo` | arachne/src/storage/wal.rs:875-952 | disk is cut after the entry kept, memory by position, and later segments are removed |
| `WalAppend.WalStorage.Compact` | arachne/src/storage/wal.rs:1911-1982 | accepted exactly for entries a durable snapshot covers; with and without a trailing window, which segments go, where the watermark is and what is in memory afterwards; memory and disk still agree exactly when the watermark did not go back |
| `WalAppend.WalStorage.MakeRoom` | arachne/src/storage/wal.rs:1585-1617 | refuses to take back compacted or committed entries, and otherwise cuts disk and memory as truncation does |
| `WalAppend.WalStorage.Append` | arachne/src/storage/wal.rs:1578-1669 | exactly which batches are accepted, the log then overwritten from their first index on with memory, disk and segments in agreement; and for every call, refused ones too, what is in memory and on disk afterwards |
| `WalAppend.WalStorage.CommittedStays` | arachne/src/storage/wal.rs:1585-1617 | an accepted batch leaves every committed entry where it is |
| `WalAppend.WalStorage.AppendEach` | arachne/src/storage/wal.rs:1618-1667 | appends exactly the longest part of the batch that follows the last entry and fits, rolling over full segments, and succeeds exactly when that is all of it |
| `WalAppend.OverwriteNeedsUncompacted` | arachne/src/storage/wal.rs:1585-1617 | overwriting an uncommitted suffix is accepted exactly when nothing was compacted; refused, it leaves disk cut and memory in disagreement with it |
| `WalAppend.OverwriteAfterCompaction` | arachne/src/storage/wal.rs:875-952 | a well-formed overwrite refused after a compaction, with the replaced entry gone from disk and still in memory |
| `WalAppend.OverwriteForgetsVote` | arachne/src/storage/wal.rs:920-947 | a vote that is gone from disk after an overwrite while memory still has it |
| `WalAppend.CompactionForgetsVote` | arachne/src/storage/wal.rs:1937-1949 | a vote that is gone from disk after a compaction while memory still has it |
| `WalReopen.SegmentsReadBack` | arachne/src/storage/wal.rs:632-764 | however records are spread over segments, recovery reads all of them back and changes nothing |
| `WalReopen.OpenLog` | arachne/src/storage/wal.rs:421-476 | recovers the directory and returns the entries the snapshot does not cover, refusing gaps and commits past the end |
| `WalReopen.ReopenedStorage` | arachne/src/storage/wal.rs:421-476 | for any valid storage, any segments and any snapshot at or above its watermark: recovery returns its records, and opening its entries above the snapshot and the hard state on disk, unless that commits more than is there |
| `WalReopen.Reopen` | arachne/src/storage/wal.rs:421-535 | opens exactly what the checks on the recovered log allow, over an unchanged disk |
| `WalReopen.ReopenedIsValidIff` | arachne/src/storage/wal.rs:421-476 | the opened storage is valid exactly when the log on disk is empty or reaches up to the snapshot |
| `WalReopen.ReopenAgainIff` | arachne/src/storage/wal.rs:1782-1816 | opening, appending and opening again works exactly when nothing was appended or the log did not end before the snapshot; otherwise it is refused next to any snapshot |
| `WalReopen.StaleLogStopsOpening` | arachne/src/storage/wal.rs:1807-1814 | a log that opens next to an installed snapshot, takes an entry, and never opens again |
| `WalReopen.WatermarkGoesBack` | arachne/src/storage/wal.rs:1950-1982 | a reopened log whose watermark goes back in a compaction with a window |
| `WalReopen.ReopenedAfterOverwrite` | arachne/src/storage/wal.rs:875-952 | overwriting and opening again gives the new log, and the hard state that was on disk before exactly when the cut dropped none that differs from the last one kept |

## Left out

- The consensus node, the runtime actor, timers, channels and the HTTP server: the properties here are of the parts that can be stated without them.
- Locks and their poisoning: every operation is modelled as one step under its lock.
- Clocks, deadlines and the network: times are parameters, a timed-out wait is one more reply, a sleep lasts at least as long as asked.
- Floating-point rounding in the rate limiter: tokens and seconds are reals.
- RateLimiter.RateLimiter.Acquire: waiting forever is modelled as still waiting after any given number of sleeps.
- Overflow of the 32-bit redirect counters, and of log indexes other than where the code guards against it; log indexes in appended batches start at 1.
- The byte encoding of key-value commands and of key-value machine snapshots: commands are taken as parsed. The same kinds of round trip are proved for the reference state machine and the log records.
- The `check_lost_writes` and `check_durability` oracle checks, the order of a combined report, report rendering and JSON lines: single comparisons and formatting.
- The handshake before a forwarded command and the channel cache; how socket addresses are printed is a parameter that can be read back.
- META, membership and snapshot files, preallocation, off-thread flushes and forced recovery; opening takes the index of the snapshot it loaded as a parameter.
- WalAppend.WalStorage.Append: writes to disk succeed; before which entries the active segment is full is a parameter.
- WalAppend.WalStorage.Compact: deletions succeed; the sizes of segment files are a parameter.
- DurableStorage.FaultyStorage.AppendEntries: the wrapped storage answers any verdict per call, and how much of its log an append leaves in place is a parameter.
- WitnessMinimality.WitnessIsMinimal: one direction; a witness may also be minimal although a write of a key it reads was dropped behind a kept point.
- ClientRouting.RouteIgnoresPayload: the write, read and batched-read loops of the source are the same loop over different payloads, and are modelled once.
- SnapshotStream.StreamSnapshot: the source is read from its start, and it returns nothing only at its end.
