# InduRTDB: a Dafny model of its hard core

InduRTDB is an industrial real-time database in C. Points (typed values with a name, a partition, a quality and
timestamps) live in one shared memory segment beside a name index and per-point meta data. A sequence lock lets any
number of processes write and read them. A daemon serves the segment over a socket and pushes changes to
subscribers; a client library queues writes while the daemon is away; a log carries registrations over a restart;
a Python tool rebuilds segments of an older layout.

This project models the parts whose correctness rests on agreement between two representations, on interleavings or
on arithmetic, and proves what each is for:

| file | part | main results |
|---|---|---|
| `Layout.dfy` | section arithmetic of the segment | `OffsetsExactIff`, `BucketsLeastPowerOfTwo` |
| `HeaderCrc.dfy` | header seal, bit by bit | `BurstDetected`, `OneFieldChangeFails`, `PolynomialExponents` |
| `NameIndex.dfy` | open-addressing name index | `FindIsExact`, `PlaceIsReachable` |
| `Registry.dfy` | create, delete, rename, find, configuration load | `RunRefines`, `CreateKeepsInvIff`, `RenameKeepsInvIff`, `LoadKeepsInvIff`, `CreateClears` |
| `Contention.dfy` | the same when a lock is not to be had | `CreateUnderKeepsInvIff`, `RenameUnderKeepsInvIff`, `CreateUnderAnswers` |
| `KeyHash.dfy`, `OverlongNames.dfy` | the hash, and names longer than the field | `CyclesFillIndex`, `RealNamesSpoil` |
| `DeltaLog.dfy` | registration log and replay | `ReplayRebuilds`, `EveryStartRebuilds`, `ShortWriteForgesRecord` |
| `Seqlock.dfy` | sequence lock as interleaved steps | `WriterExclusion`, `AcceptedIsSnapshot`, `SequenceMonotone` |
| `OddSequence.dfy` | who meets an odd sequence | `OddExitWasRejected`, `OddLoadNeverAcquires` |
| `Recovery.dfy` | recoveries that overlap | `ExclusionLostIff`, `SafeUntilOverlap` |
| `LockedReads.dfy` | the readers as programs of word loads | `AcceptedCopyIsBlock`, `AcceptedProbeIsSearch` |
| `LiveLookup.dfy` | lookups while the registry changes | `AcceptedLookupIsFind`, `SectionOnMap` |
| `ReadProgress.dfy` | that reads end, and how | `UndisturbedRead`, `AttemptsCount`, `LookupGoesThrough` |
| `TimeoutScan.dfy` | timeout scan among writers | `StoreIsSafeIff`, `ScanMarksOverdue`, `RescanFindsNothingIff` |
| `ClientQueue.dfy` | write-behind queue of the client | `AsyncRunLaw`, `FlushReaches`, `SyncWriteKeepsLawIff` |
| `Rbe.dfy` | report by exception | `DecideRefines`, `SuppressedIffNear` |
| `OutQueue.dfy` | outbound notification ring | `WireIsWholeFrames`, `FlushReaches` |
| `Daemon.dfy` | connection table and accounting | `AccountsBalance`, `StepTallies`, `FirstValueIsPushed` |
| `IndexRebuild.dfy` | index rebuild in Python | `RebuiltIndexIsExact`, `LayoutsAgreeIff` |
| `Paging.dfy` | listing page by page | `ListingCompleteIff`, `PageIsExact` |
| `Policy.dfy` | write policy file | `LoadOfPrinted`, `LoadsIff`, `RuleIsRead`, `FirstErrorIsBlamed` |
| `Common.dfy` | types shared by all | |

Where the C code works in place, a class or an array method does the same and is proved equal to a function on values;
the properties are then lemmas about that function. `Registry`, `DeltaLog` and `Daemon` run such functions over
sequences of commands. `dafny verify dfyconfig.toml` checks everything.

## What the proofs found

Each of these is proved, with the exact condition where there is one.

- Names longer than 63 bytes are hashed whole but stored and compared cut (`src/core/irt_index.c:105`,
  `src/api/indurtdb.c:559`). Create then leaves a good registry exactly when cutting does not change the hash
  (`Registry.CreateKeepsInvIff`); rename also needs the cut name to differ from the current one, otherwise it kills
  the slot it has just refreshed (`Registry.RenameKeepsInvIff`, `Registry.RenameOntoOwnPrefix`). A caller then cannot
  find the point under the name it is listed by, and deleting it leaves its slot behind, so that creating and deleting
  one point fills the table (`OverlongNames.ListedNameIsNotFound`, `OverlongNames.CyclesFillIndex`). Names at which
  the code's own hash does this are in `OverlongNames.RealNamesSpoil` and `OverlongNames.EightLongNamesFillIndex`.
- Loading a configuration over a named point leaves its old slot stale; `Registry.LoadKeepsInvIff` says exactly when
  an entry is safe.
- A create or rename whose duplicate check ends BUSY goes on as if the name were free, and a create that can neither
  index its point nor take it back leaves it named but not indexed (`Contention.CreateUnderKeepsInvIff`,
  `Contention.RenameUnderKeepsInvIff`).
- The comment at `src/api/indurtdb.c:536-540` says that replay stops at a half-written record. That holds only for
  fragments shorter than 8 bytes or at the end of the file: a longer fragment followed by further records is
  completed with their bytes and applied (`DeltaLog.ShortWriteForgesRecord`).
- A create, delete or rename in another partition is logged like one in partition 0, and its record is replayed there
  (`DeltaLog.RecordLosesPartition`).
- `irt_seqlock_write_begin` does not load the sequence again while it backs off from an odd value, so the back-off
  that should give the holder time to finish never leads to the lock (`OddSequence.OddLoadNeverAcquires`;
  `src/internal/irt_seqlock.h:21-24`).
- A `do … while` reader can leave its loop with an odd sequence, with no copy or with a torn one
  (`OddSequence.OddExitHasNoCopy`, `LockedReads.OddExitTears`), never with one it has validated
  (`OddSequence.OddExitWasRejected`). On exits with an even sequence it is as safe as the `for` readers.
- Two recoveries that overlap take the lock from a live writer (`Recovery.OverlappingRecoveriesBreak`). Exclusion can be
  lost exactly while a store of recovery is pending and a live writer is inside, or is alive and the sequence is even or
  a second such store is pending (`Recovery.ExclusionLostIff`); when recoveries start only after the holder has died, that
  is while two of them overlap (`Recovery.SafeUntilOverlap`). Processes that attach to a segment with an even sequence may
  do so together.
- A repeated timeout scan counts every point with a limit code again (`TimeoutScan.RescanFindsNothingIff`). A writer
  that stalls between reading the clock and storing the time can have its new value marked, exactly when the reading
  lies more than the timeout before the scan's own (`TimeoutScan.StoreIsSafeIff`).
- A point created in the place of a deleted one keeps its time stamp, and the next scan can mark it as timed out before
  anybody has written it (`TimeoutScan.ReusedPlaceTimesOut`); its value is cleared (`Registry.CreateClears`).
- A synchronous write beside a pending value of the same point is undone by the next flush
  (`ClientQueue.SyncWriteKeepsLawIff`).
- Point 0 can miss its first notification after subscribing (`Rbe.ZeroLosesFirstValue`); no other point does, even when
  point 0 is used beside it (`Daemon.FirstValueIsPushed`).
- A notification that finds the queue full behind a partly sent head is dropped, yet its value counts as told, so that
  later values near it are suppressed (`Daemon.RefusedValueIsLost`).
- Paging with a page size above 1024 stops after the first page (`Paging.ListingCompleteIff`).
- The library and the Python tool agree on all offsets up to 23488101 points and no further
  (`IndexRebuild.LayoutsAgreeIff`).
- `rtdbd/src/policy.h:17-22` says that every over-long line of a policy file fails the load. A line with 127 blanks
  before its rule is passed over without an error (`Policy.OverlongLine`, `Policy.IndentedRuleIsLost`).

## Model

| member | source | states |
|---|---|---|
| Layout.MaskIsRemainder | src/core/irt_index.c:128 | masking with capacity - 1 is the remainder modulo the capacity when that is a power of two |
| Layout.LayoutBuckets | src/core/irt_shm.h:34-40 | the doubling loop returns the specified bucket count |
| Layout.BucketsLeastPowerOfTwo | src/core/irt_shm.h:34-40 | for every 32-bit point count the bucket count is the least power of two that is at least 8 and twice the points, up to 2^31; it is at least twice the points iff there are at most 2^30 |
| Layout.OffsetsAreWrappedPositions | src/core/irt_shm.h:51-69 | each 32-bit offset is the true position of its section modulo 2^32 |
| Layout.OffsetsExactIff | src/core/irt_shm.h:51-78 | sections are adjacent, disjoint and end at the total size iff there are at most 23488101 points; beyond that an offset wraps |
| Layout.DaemonLayout | src/core/irt_shm.h:34-78 | up to the daemon's one million points: exact offsets, load at most one half, meta 32-aligned, subscribers 16-aligned |
| HeaderCrc.Crc32Byte | src/core/irt_shm.c:27-30 | absorbs one byte as eight steps of the register |
| HeaderCrc.Crc32Update | src/core/irt_shm.c:23-33 | the byte loop folds the bytes into the register in order |
| HeaderCrc.BitStepInjective | src/core/irt_shm.c:28-30 | each bit step of the register is injective |
| HeaderCrc.AbsorbAtOnce | src/core/irt_shm.c:27-30 | up to 32 message bits may be added first and stepped over afterwards |
| HeaderCrc.PolynomialExponents | src/core/irt_shm.c:20-29 | the polynomial is that of IEEE 802.3, exponent by exponent, reflected |
| HeaderCrc.CheckValue | src/core/irt_shm.c:47-55 | with the start value and the final addition of the code, the CRC of four bytes 0xFF is 0xFFFFFFFF |
| HeaderCrc.UpdateIsSerial | src/core/irt_shm.c:23-33 | the byte-wise loop is the bit-serial machine of the generator polynomial on the message bits |
| HeaderCrc.SerialInjective | src/core/irt_shm.c:23-33 | different registers stay different under the same further message |
| HeaderCrc.BurstDetected | src/core/irt_shm.c:23-33 | two messages that differ only inside a window of at most 32 bits, at any bit position, never have the same CRC |
| HeaderCrc.CrcIsOneRun | tools/irt_migrate/irt_migrate/layout.py:142-171 | the two-part CRC of the C code is one CRC over the concatenated covered bytes, as the tool computes it |
| HeaderCrc.HeaderCrc32Of | src/core/irt_shm.c:47-55 | computes the CRC of bytes [0,16) and [48,72) |
| HeaderCrc.HeaderSeal | src/core/irt_shm.c:57-63 | sealing in place changes only the CRC field and writes the CRC there |
| HeaderCrc.HeaderVerify | src/core/irt_shm.c:65-70 | answers whether magic and CRC fit |
| HeaderCrc.SealedVerifies | src/core/irt_shm.c:57-70 | a sealed header verifies iff its magic is 0x1DBA1DBA; sealing touches no byte outside [44,48) |
| HeaderCrc.UncoveredChangesVerify | src/internal/irt_types.h:35-57 | bytes outside [0,16), [44,48) and [48,72) do not influence verification, in either direction |
| HeaderCrc.CoveredBurstFails | src/core/irt_shm.c:47-70 | a verifying header altered inside one window of at most 32 covered bits no longer verifies |
| HeaderCrc.OneFieldChangeFails | src/internal/irt_types.h:35-57 | a verifying header in which exactly one covered 32-bit field has another value, whatever it is, no longer verifies |
| NameIndex.ProbeVisitsAllOnce | src/core/irt_index.c:131-132 | one probe sequence reaches every slot exactly once, at a known distance from home |
| NameIndex.MaskedPositions | src/core/irt_index.c:127-132 | home and probe positions by mask are the modular positions |
| NameIndex.FindIsExact | src/core/irt_index.c:201-219 | on a chained table the probe loop finds a matching slot iff one exists anywhere |
| NameIndex.NotFoundMeansNoMatch | src/core/irt_index.c:211-218 | stopping at an EMPTY slot or after a full round leaves no matching slot behind |
| NameIndex.PlaceAgreesWithFind | src/core/irt_index.c:131-151 | insertion refreshes a slot iff a search for the key would stop at it |
| NameIndex.PlaceIsReachable | src/core/irt_index.c:131-159 | a free slot is chosen with no EMPTY slot before it, the first tombstone if one was passed; no room only if all slots are live |
| NameIndex.NoRoomMeansAllLive | src/core/irt_index.c:153-159 | insertion reports FULL only when every slot is live, however many tombstones there were |
| NameIndex.PutKeepsChained | src/core/irt_index.c:135-157 | filling a reachable free slot keeps every live slot reachable |
| NameIndex.OverwriteKeepsChained | src/core/irt_index.c:187-188 | a tombstone instead of EMPTY, or a refreshed id, keeps every live slot reachable |
| NameIndex.DistinctIdsBounded | src/core/irt_index.c:111-164 | live slots with distinct ids below n are at most n |
| NameIndex.InsertAnswers | src/core/irt_index.c:96-164 | insertion fails for an empty name or an id out of range, or as FULL; on success one slot holds hash and id of the key, and the count grows iff that slot was not live |
| NameIndex.Segment.constructor | src/core/irt_index.c:46-55 | a new segment has cleared points, EMPTY slots and count 0 |
| NameIndex.Segment.Probe | src/core/irt_index.c:207-218 | the loop over masked positions is the specified search |
| NameIndex.Segment.ProbeForInsert | src/core/irt_index.c:131-151 | the loop that remembers the first tombstone is the specified placement |
| NameIndex.Segment.InsertLocked | src/core/irt_index.c:111-164 | the new segment and result code are those of the specified insertion, on every path |
| NameIndex.Segment.RemoveLocked | src/core/irt_index.c:166-198 | the new segment and result code are those of the specified removal; points untouched |
| NameIndex.Segment.IndexLookup | src/core/irt_index.c:249-279 | lookup in an undisturbed window answers as the search does |
| Registry.SearchIsExact | src/core/irt_index.c:201-219 | a search answers exactly which indexed point carries the key, also while one point is being rewritten |
| Registry.NeverFull | src/core/irt_index.c:126-159 | with fewer points than slots insertion always finds room |
| Registry.CreateKeepsInvIff | src/api/indurtdb.c:572-625 | a failed create changes nothing; a successful one keeps the invariant iff cutting the name to 63 bytes keeps its hash |
| Registry.CreateClears | src/api/indurtdb.c:546-562 | a created point has a zero value of good quality, unit 0, the type, access and partition asked for and the first 63 bytes of the name; every other point is as before |
| Registry.DeleteKeepsInv | src/api/indurtdb.c:644-678 | delete keeps the invariant for all arguments; success frees exactly that point |
| Registry.RenameStep | src/api/indurtdb.c:714-721 | between insert and remove the id occupies two slots; the removal kills one of them and, also when both names share a hash, a slot with the new hash is left |
| Registry.RenameKeepsInv | src/api/indurtdb.c:684-727 | rename to a name that fits keeps the invariant and changes exactly the name, or nothing on error |
| Registry.RenameOntoOwnPrefix | src/api/indurtdb.c:708-721 | renaming to an over-long name that cuts to the current one and shares its hash reports success and loses the point's slot |
| Registry.RenameKeepsInvIff | src/api/indurtdb.c:684-727 | exactly when a successful rename leaves a good registry, for names of any length |
| Registry.LoadKeepsInvIff | src/api/indurtdb.c:418-433 | exactly when loading one configuration entry leaves a good registry, including over named points |
| Registry.ConfigStops | src/api/indurtdb.c:395-438 | entry by entry: an id out of range or an unknown type is passed over, an unreadable number ends the load, and so does a name for which every slot is live and none matches |
| Registry.DistinctConfigLoads | src/api/indurtdb.c:378-456 | a configuration with distinct ids and names, over unnamed points, gives a good registry; it is accepted iff no effective entry has an unreadable number, and then every effective entry has its name, type, unit and access in partition 0 |
| Registry.FreshRegistryInv | src/core/irt_index.c:46-55 | a cleared segment satisfies the invariant |
| Registry.IndexNeverFull | src/core/irt_index.c:126-159 | in every good state, so after any run, insertion cannot report FULL |
| Registry.ExactlyOneReachableSlot | src/core/irt_index.c:96-164 | every named point has exactly one slot, with its key's hash and no EMPTY slot before it on the probe sequence |
| Registry.CountIsRegistered | src/core/irt_index.c:161-192 | index_count is the number of registered points |
| Registry.InvIsInjective | src/api/indurtdb.c:582-587 | no two points share partition and name |
| Registry.LookupRefines | src/core/irt_index.c:249-279 | lookup answers exactly what the map (partition, name) to id says, with the right code |
| Registry.CreateRefines | src/api/indurtdb.c:572-625 | create acts on the abstract map as specified, with all error cases in order |
| Registry.DeleteRefines | src/api/indurtdb.c:644-678 | delete acts on the abstract map as specified, with all error cases |
| Registry.RenameRefines | src/api/indurtdb.c:684-727 | rename acts on the abstract map as specified, with all error cases |
| Registry.WriteRefines | src/core/irt_point_manager.c:27-83 | a value write changes no key and no registration, only the point's type |
| Registry.WriteStores | src/core/irt_point_manager.c:27-83 | a value write is refused iff the id is out of range or the point is read-only; it sets value, quality and type of that point and nothing else |
| Registry.StepRefines | src/api/indurtdb.c:572-727 | every command keeps the invariant and acts as on the map |
| Registry.RunRefines | src/api/indurtdb.c:572-727 | over every run of create, delete, rename, find and write from a good state, table and points refine the map and all answers are the map's |
| Registry.CreatePointIn | src/api/indurtdb.c:572-625 | the in-place create is the specified one |
| Registry.DeletePointIn | src/api/indurtdb.c:644-678 | the in-place delete is the specified one |
| Registry.RenamePointIn | src/api/indurtdb.c:684-727 | the in-place rename is the specified one |
| Registry.FindByNameIn | src/api/indurtdb.c:468-480 | find by name is the specified lookup |
| KeyHash.GrowingHash | src/core/irt_index.c:71-90 | in partition 0 CB0rk followed by any number of z has one hash |
| KeyHash.HashWithByte | src/core/irt_index.c:71-90 | such a name with one more byte: the hash in closed form |
| OverlongNames.ListedNameIsNotFound | src/api/indurtdb.c:559-608 | a point created under an over-long name whose hash the cut changes is found under the name given and not under the one it is listed by |
| OverlongNames.CycleLeaks | src/api/indurtdb.c:572-678 | creating under such a name and deleting leaves one live slot that belongs to no point |
| OverlongNames.CyclesFillIndex | src/core/irt_index.c:126-159 | so create and delete cycles with such names fill the table: names as before, next creation refused as FULL |
| OverlongNames.RealNamesSpoil | src/api/indurtdb.c:418-431 | with the code's own hash, in a registry of any size: creating at a given 64-byte name, renaming to one, and reloading another name over a point each break the registry |
| OverlongNames.EightLongNamesFillIndex | src/core/irt_index.c:126-159 | with the code's own hash, eight given names leave a one-point registry empty and full |
| Contention.QuietIsPlain | src/api/indurtdb.c:572-727 | without contention the operations are those of Registry |
| Contention.CreateUnderKeepsInvIff | src/api/indurtdb.c:572-625 | exactly when create leaves a good registry while others hold the lock: unless it wrote the point and could neither index it nor take it back, or indexed it though a BUSY check hid that the name was taken |
| Contention.RenameUnderKeepsInvIff | src/api/indurtdb.c:684-727 | exactly when rename does: unless a BUSY check hid that the name was taken |
| Contention.DeleteUnderKeepsInv | src/api/indurtdb.c:644-678 | delete always does, and changes nothing unless it succeeds |
| Contention.CreateUnderAnswers | src/api/indurtdb.c:572-625 | the code of create: bad arguments, a taken name unless the check was BUSY, BUSY, a taken id, BUSY while indexing, OK, in that order |
| Contention.CreateUnderLeaves | src/api/indurtdb.c:589-625 | on success the new point and no other; on failure nothing changes, except that a point that could not be indexed loses its name again, or stays when the roll-back finds no lock |
| Contention.RenameUnderAnswers | src/api/indurtdb.c:684-727 | the code of rename, and that it changes exactly the name or nothing |
| Contention.DeleteUnderAnswers | src/api/indurtdb.c:644-678 | the code of delete, and that it clears exactly the name or nothing |
| Contention.TakeLock | src/api/indurtdb.c:592-594 | the retry loop takes the lock iff write_begin gives up fewer than three times |
| Contention.CreatePointUnder | src/api/indurtdb.c:572-625 | the in-place create with its two locked sections and the roll-back is the specified one |
| DeltaLog.DecodeOfEncode | src/core/irt_delta.h:17-34 | every record with a name of at most 63 non-NUL bytes survives the 80-byte file format |
| DeltaLog.RecordBytes | src/core/irt_delta.h:17-34 | where every field of a record stands in its 80 bytes, little-endian, with a zero-padded name |
| DeltaLog.ReplayLogsNothing | src/api/indurtdb.c:760-778 | replay adds no record to the log and leaves logging as it was, whatever the file holds |
| DeltaLog.FragmentIgnored | src/core/irt_delta.c:63-67 | fewer than 80 bytes behind whole records change neither registry nor count |
| DeltaLog.SpecStepOnIdentities | src/api/indurtdb.c:736-758 | create, delete and rename act alike on two registries that differ only in point types |
| DeltaLog.RecordIsCommand | src/api/indurtdb.c:736-758 | a logged record is replayed as the very command that was logged |
| DeltaLog.RecordLosesPartition | src/api/indurtdb.c:520-544 | a command is logged iff it succeeded and is a create, a delete, or a rename to another name, in any partition; its record stands for the same command in partition 0 |
| DeltaLog.UnloggedKeepsIdentities | src/api/indurtdb.c:596-711 | a command that leaves no record changes no id, name, partition or access |
| DeltaLog.ReplayFollowsRun | src/core/irt_delta.c:36-86 | replaying what a run appended leads to the identities the run ended with and applies every record |
| DeltaLog.ReplayCountsCommands | src/api/indurtdb.c:777 | an undisturbed replay of what a run appended returns the number of its logged commands |
| DeltaLog.ReplaySplits | src/core/irt_delta.c:36-86 | replaying a log that is used up whole, and then more, is replaying the rest on what the first part gave |
| DeltaLog.RunRestores | src/api/indurtdb.c:520-544 | a log that restores the registry still does after any further run, whatever records it held before |
| DeltaLog.ReplayRebuilds | src/api/indurtdb.c:736-778 | after any partition-0 run on a log with or without earlier records, reloading the base and replaying the log, even with a torn last record, gives the same id to (name, access) registry and the same find results |
| DeltaLog.EveryStartRebuilds | rtdbd/src/rtdbd.c:1393-1407 | over any number of restarts on one log file, every start finds the registry the life before ended with, types aside, and the same find results |
| DeltaLog.ShortWriteForgesRecord | src/core/irt_delta.c:24-34 | a k-byte fragment followed by a whole record stops replay iff k < 8; from 8 bytes on a record with the torn one's operation is applied |
| DeltaLog.Instance.constructor | src/api/indurtdb.c:92-96 | a new handle has logging off and an empty log |
| DeltaLog.Instance.Append | src/core/irt_delta.c:24-34 | what one write puts into the file, whole or short, stays there; success iff the whole record was written and synced, or the log is off |
| DeltaLog.Instance.Create | src/api/indurtdb.c:572-625 | create with its log record and result code, as specified |
| DeltaLog.Instance.Delete | src/api/indurtdb.c:644-678 | delete with its log record and result code, as specified |
| DeltaLog.Instance.Rename | src/api/indurtdb.c:684-727 | rename with its log record and result code, as specified |
| DeltaLog.Instance.Apply | src/api/indurtdb.c:736-758 | applying a record is the logged command step |
| DeltaLog.Instance.ReadRecord | src/core/irt_delta.c:48-59 | short reads are put together to a whole record or the rest of the file; fails iff a byte it needs cannot be read |
| DeltaLog.Instance.ReplayRecords | src/core/irt_delta.c:43-85 | the read-check-apply loop is the specified replay of the readable part; -1 iff it runs into the unreadable one |
| DeltaLog.Instance.DeltaReplay | src/api/indurtdb.c:760-778 | replay with logging switched off and restored is the specified one, with the error after a failed read |
| Seqlock.SequenceMonotone | src/internal/irt_seqlock.h:25-50 | no step lowers the sequence; a protected word changes only while it is odd and only by the writer inside |
| Seqlock.WritesThrough | src/internal/irt_seqlock.h:25-50 | from every state with an even sequence a writer can go through its section: its words are in memory, the lock is free again, the sequence two further, and nobody else is touched |
| Seqlock.WriterStepKeeps | src/internal/irt_seqlock.h:25-50 | every step of write_begin, the section and write_end, and a crash at any point, keeps mutual exclusion |
| Seqlock.AttachStepKeeps | src/core/irt_shm.c:148-153 | recovery releases the lock of the crashed holder and of nobody else; processes that attach over an even sequence may overlap |
| Seqlock.StepInv | src/internal/irt_seqlock.h:25-50 | every step of writers, readers and recoveries keeps the invariant |
| Seqlock.RunInv | src/internal/irt_seqlock.h:25-50 | the invariant holds and the sequence does not fall over every run |
| Seqlock.WriterExclusion | src/internal/irt_seqlock.h:25-50 | in every reachable state the sequence is odd iff exactly one writer, live or crashed, is inside, and then it is that writer's seq0 + 1 |
| Seqlock.AcceptedIsSnapshot | src/core/irt_point_manager.c:161-197 | in every interleaving an accepted read is its program's result on the memory of one instant with no writer inside; a do-while exit with even s0 always has a result |
| ReadProgress.UndisturbedRead | src/core/irt_shm.c:221-230 | while the sequence is even and stays, whatever else goes on, each step of the reader is possible when it is its turn, and its first check accepts what its program gives on the memory |
| ReadProgress.ReadsThrough | src/core/irt_shm.c:221-230 | from every state with an even sequence and at every attempt a reader can go through by its own steps, touching nothing else, and then has that result |
| ReadProgress.AttemptsCount | src/core/irt_index.c:264-278 | in every interleaving a `for` reader is Busy exactly when sixteen attempts met an odd sequence, or one that changed during the attempt; before that the attempt number is the number of failures |
| OddSequence.OddExitHasNoCopy | src/core/irt_point_manager.c:166-175 | a run in which a do-while reader exits with odd s0 and nothing copied |
| OddSequence.OddExitWasRejected | src/core/irt_point_manager.c:166-175 | over every run a do-while exit with odd s0 carries no copy, and then s0 is 1, or one that the reader itself has rejected at a check that saw s0 |
| OddSequence.OddLoadLeavesIff | src/core/irt_point_manager.c:166-175 | a do-while reader that loads an odd sequence leaves iff it is the value of its last check, 1 before any |
| Recovery.OverlappingRecoveriesBreak | src/core/irt_shm.c:148-153 | a run in which two overlapping recoveries lower the sequence and take the lock from a live writer |
| Recovery.ExclusionLostIff | src/core/irt_shm.c:148-153 | for every state with mutual exclusion, exactly when it can still be lost: a store of recovery is pending, and a live writer is inside, or one is alive and the sequence is even or a second such store is pending |
| Recovery.SafeUntilOverlap | src/core/irt_shm.c:148-153 | with recoveries started at will once the holder is dead, exclusion holds up to the first overlap, where the condition above decides |
| Recovery.AttachesAlone | src/core/irt_shm.c:148-153 | attaching alone changes nothing over an even sequence; over an odd one it makes it the next even value and frees the lock of whoever crashed inside |
| Recovery.CrashStops | src/core/irt_shm.c:148-153 | a crash stops a writer for good, inside the lock iff it held it |
| OddSequence.OddLoadNeverAcquires | src/internal/irt_seqlock.h:25-46 | a writer that has loaded an odd value never enters in that call, whatever the others do |
| OddSequence.GivesUpAtFourth | src/internal/irt_seqlock.h:36-46 | a writer that meets an odd sequence backs off three times and gives up at the fourth |
| LockedReads.SnapshotUnique | src/core/irt_shm.c:221-229 | a reader has at most one result on a given memory |
| LockedReads.CopySnapshotIsBlock | src/core/irt_shm.c:221-229 | the word-by-word copy of one memory is its block |
| LockedReads.AcceptedCopyIsBlock | src/core/irt_shm.c:212-230 | what irt_meta_get accepts, and irt_pm_read and irt_pm_peek on even exits, is the block in memory at that moment with no writer inside |
| ReadProgress.CopyGoesThrough | src/core/irt_shm.c:221-230 | where no writer moves, reading a block of n words gives it back after n loads |
| LockedReads.OddExitTears | src/core/irt_point_manager.c:166-175 | a run in which a do-while reader returns the old first and the new second word of a section that is not finished |
| LockedReads.ComparesNames | src/core/irt_index.c:105-106 | the byte-by-byte comparison decides agreement on 63 bytes |
| LockedReads.ProbesOneSlot | src/core/irt_index.c:96-107 | the loads of one slot match decide as the specified match does |
| LockedReads.AcceptedProbeIsSearch | src/core/irt_index.c:249-279 | what irt_index_lookup accepts is the search result on the registry in memory at that moment with no writer inside |
| LiveLookup.SectionKeeps | src/api/indurtdb.c:572-727 | each locked section, create's two among them, keeps table and points in step, apart from the point just registered |
| LiveLookup.SectionOnMap | src/api/indurtdb.c:589-721 | what each locked section does to the map of points a lookup can see |
| LiveLookup.TwoSectionsCreate | src/api/indurtdb.c:589-609 | registering and indexing together are the create of the map |
| LiveLookup.SearchInPhase | src/core/irt_index.c:201-219 | between any two sections a search answers what the map of indexed points says |
| LiveLookup.AcceptedLookupIsFind | src/core/irt_index.c:249-279 | in every interleaving with writers whose sections are registry operations an accepted lookup is the answer of the map of points of that moment |
| ReadProgress.LookupGoesThrough | src/core/irt_index.c:264-278 | where no writer moves, a lookup comes to an end and gives the answer of the map of points |
| TimeoutScan.MarkingKeepsLimit | src/core/irt_point_manager.c:262-264 | marking sets the base code TIMEOUT, keeps limit code and time, and equals plain TIMEOUT iff there was no limit code |
| TimeoutScan.DueIsOverdue | src/core/irt_point_manager.c:233-256 | due means written, longer ago than the timeout, and a quality byte other than 2 |
| TimeoutScan.Manager.CheckOne | src/core/irt_point_manager.c:217-268 | the loop body marks the point iff it was due when looked at, the lock was had, and it is due still; counts a skip iff due and not had; touches no other point |
| TimeoutScan.Manager.CheckTimeouts | src/core/irt_point_manager.c:204-271 | an undisturbed scan marks exactly the due points, returns their number, adds it to the counter, counts the skipped |
| TimeoutScan.ScanMarksOverdue | src/core/irt_point_manager.c:233-265 | per point, in terms of its time and quality byte: what one scan makes of it, whether it counts it and whether it counts it as skipped |
| TimeoutScan.RescanFindsNothingIff | src/core/irt_point_manager.c:233-239 | a repeated scan at the same time finds nothing iff no due point carries a limit code |
| TimeoutScan.RescanFindsLimited | src/core/irt_point_manager.c:233-239 | a repeated scan detects exactly what the first one marked with limit bits |
| TimeoutScan.StepKeepsInv | src/core/irt_point_manager.c:219-269 | every step of scan and writers keeps the scan's invariant |
| TimeoutScan.CellsChangeUnderLock | src/core/irt_point_manager.c:243-265 | the scan changes a point only by marking it, under the lock, while it is due; the limit code stays |
| TimeoutScan.WrittenPointIsNeverMarked | src/core/irt_point_manager.c:251-260 | a point with no time, or one at most the timeout before the scan's now, is never marked by that scan, over every interleaving |
| TimeoutScan.StoreAfterNowIsRecent | src/core/irt_point_manager.c:70 | a time read after now makes the point one of those |
| TimeoutScan.StoreIsSafeIff | src/core/irt_point_manager.c:70 | exactly which stores the running scan can never mark: the scan has passed the point, or the clock reading is none or at most the timeout before now |
| TimeoutScan.ScanAccounts | src/core/irt_point_manager.c:266-270 | the returned number is the number of marks, each point at most once and due when marked, and what the scan added to stats.timeouts |
| TimeoutScan.ScanGoesThrough | src/core/irt_point_manager.c:219-270 | undisturbed, the interleaved scan can go through, and then it has marked and counted what the scan as a function does |
| TimeoutScan.ScanVisitsInOrder | src/core/irt_point_manager.c:219-269 | in every interleaving the scan goes from one point to the next and leaves none out |
| TimeoutScan.ReusedPlaceTimesOut | src/api/indurtdb.c:549-562 | a point registered in the place of a deleted one keeps its time, so that the next scan can mark it although nobody wrote it |
| TimeoutScan.LookDecides | src/core/irt_point_manager.c:222-240 | the unlocked look asks for the lock iff what it returned is overdue |
| TimeoutScan.WriteSection | src/core/irt_point_manager.c:60-83 | a value write alone stores time and quality of its point and nothing else |
| TimeoutScan.OthersCount | src/core/irt_point_manager.c:266-270 | another scan's count moves the shared counter at any time, and nothing this scan returns |
| TimeoutScan.CrashKeepsLock | src/core/irt_shm.c:148-153 | a writer that crashes inside keeps the lock from everybody until recovery, which changes no point |
| ClientQueue.OverlayAt | client/src/client.c:21-47 | point by point, a pending entry wins over the store |
| ClientQueue.OverlayReplaced | client/src/client.c:28-36 | overwriting the pending entry of a point in place equals writing the point last |
| ClientQueue.PendingHidesEffect | client/src/client.c:271-286 | a submit that took effect without an answer is invisible while its entry is pending |
| ClientQueue.PushKeepsLaw | client/src/client.c:23-47 | an accepted push writes the point in the overlay, keeps one entry per point in first-enqueue order; a refused one changes nothing |
| ClientQueue.WriteAnswers | client/src/client.c:206-224 | an asynchronous write is QUEUED iff its point is pending, whose value it replaces, or there is room, and FULL otherwise; a synchronous one has the code and the effect of its submit |
| ClientQueue.CodeMeans | client/src/client.c:112-129 | what request and response give each code, with the constants of protocol version 3 |
| ClientQueue.SubmitKeepsLaw | client/src/client.c:271-287 | a round of the flush loop keeps the overlay, also when a reply is lost and the entry retried |
| ClientQueue.FlushKeepsLaw | client/src/client.c:259-290 | a flush keeps the overlay of server and queue |
| ClientQueue.FlushSplitsQueue | client/src/client.c:259-290 | the flush loop splits the queue into a submitted prefix the server has taken in order and a retained rest, of which at most the first entry took effect |
| ClientQueue.FlushReaches | client/src/client.c:259-290 | a flush submits exactly up to the first entry that is not answered OK at once or after one reconnect, nothing without a connection; queue, connection and server after it, whatever took effect |
| ClientQueue.FlushDrains | client/src/client.c:259-290 | when every entry is answered OK, one flush replays the whole queue |
| ClientQueue.AsyncStepKeepsLaw | client/src/client.c:206-290 | every asynchronous write or flush keeps the law |
| ClientQueue.AsyncRunLaw | client/src/client.c:206-290 | after any run, server overlaid with queue equals the base overlaid with all accepted writes in order |
| ClientQueue.DrainedServerHasAll | client/src/client.c:259-290 | with the queue drained the server alone has every accepted write |
| ClientQueue.SyncWriteKeepsLawIff | client/src/client.c:216-223 | exactly when a synchronous write keeps the law |
| ClientQueue.Client.constructor | client/src/client.c:134-157 | an empty ring of the given capacity, 256 for 0 |
| ClientQueue.Client.Init | client/src/client.c:134-157 | a capacity beyond 4096 is refused; any other gives the empty client |
| ClientQueue.Client.FindPending | client/src/client.c:25-36 | the scan of the ring finds the pending entry of a point, or none |
| ClientQueue.Client.QPush | client/src/client.c:23-47 | the ring operation is the specified push |
| ClientQueue.Client.QPop | client/src/client.c:50-58 | pops the oldest entry, which stays in its cell |
| ClientQueue.Client.SubmitOne | client/src/client.c:98-130 | OK iff the request was sent whole and a well-formed OK response came back, and then an honest server has exactly the entry; DENIED, I/O and protocol errors iff their cause; after any of them the server has the entry or is as before |
| ClientQueue.Client.WriteEntry | client/src/client.c:206-224 | asynchronous and synchronous write as specified, with the connection flag |
| ClientQueue.Client.SubmitTwice | client/src/client.c:272-279 | after an I/O error one reconnect and one retry |
| ClientQueue.Client.SubmitHead | client/src/client.c:271-287 | one round: on failure the count is restored and the entry is at the front again |
| ClientQueue.Client.FlushLoop | client/src/client.c:269-289 | the loop is the specified flush |
| ClientQueue.Client.FlushQueue | client/src/client.c:259-290 | the flush in place, with the connection check, is the specified one |
| Rbe.LocateIsExact | rtdbd/src/rbe.c:34-38 | the search gives the point's first slot, if it has none the first free slot, and nothing iff there is neither |
| Rbe.FallbackUnreachable | rtdbd/src/rbe.c:39 | as long as point 0 was never reported, a subscribed point other than 0 always finds a slot |
| Rbe.DecideRefines | rtdbd/src/rbe.c:30-83 | for a subscribed point other than 0, whatever slots of point 0 there are: reports iff nothing was reported yet or the value exceeds; remembers exactly the reported value if a slot was found; touches no other point |
| Rbe.DecideZeroKeepsOthers | rtdbd/src/rbe.c:30-83 | deciding on point 0 leaves what is remembered of every other point alone |
| Rbe.ClearRefines | rtdbd/src/rbe.c:19-28 | forgets the point and nothing else |
| Rbe.SuppressedIffNear | rtdbd/src/rbe.c:50-82 | over every value sequence a value after a last report is suppressed iff it is near that report, unless no mode is on |
| Rbe.ExceedsIsNotNear | src/core/irt_semantics.c:29-50 | the code's test is: outside the deadband in absolute or percent mode, or in another EU-range zone; and always true without meta data or mode |
| Rbe.EurangeZones | src/core/irt_semantics.c:29-36 | the zone of a value: below the range, above it, or neither, and neither while the check is off |
| Rbe.ZeroLosesFirstValue | rtdbd/src/rbe.c:34-48 | a run in which point 0 inherits a stale slot and its first value is suppressed |
| Rbe.StateInit | rtdbd/src/rbe.c:10-17 | all slots empty |
| Rbe.ClearPoint | rtdbd/src/rbe.c:19-28 | the in-place clear is the specified one |
| Rbe.Locate | rtdbd/src/rbe.c:34-38 | the search loop is the specified one |
| Rbe.DecideInPlace | rtdbd/src/rbe.c:30-83 | the in-place decision is the specified one |
| OutQueue.FlushCounts | rtdbd/src/rtdbd.c:243-278 | a flush completes a prefix of the queue and keeps the rest, or on failure discards it; nothing is lost uncounted |
| OutQueue.FlushReaches | rtdbd/src/rtdbd.c:243-278 | a flush goes on until the queue is empty or a send would block, fails or takes only a part; how many frames it completed and what stays queued and sent |
| OutQueue.FramesCompleted | rtdbd/src/rtdbd.c:243-278 | the frames completed are the whole frames of 44 bytes on the wire |
| OutQueue.FlushSendsWholeFrames | rtdbd/src/rtdbd.c:243-278 | the sent part of the head followed by the bytes of a flush is whole frames in order and the sent part of the new head |
| OutQueue.PartialHeadStays | rtdbd/src/rtdbd.c:211-221 | a partly sent head is neither evicted nor replaced by a push |
| OutQueue.PushKeepsLinkOk | rtdbd/src/rtdbd.c:209-231 | a push keeps the law of the wire |
| OutQueue.FlushKeepsLinkOk | rtdbd/src/rtdbd.c:243-278 | a flush keeps the law of the wire for every behaviour of the socket |
| OutQueue.RunKeepsLinkOk | rtdbd/src/rtdbd.c:209-278 | so does every run |
| OutQueue.WireIsWholeFrames | rtdbd/src/rtdbd.c:209-278 | over every run the wire holds whole frames of a subsequence of the pushed notifications, in push order, then the first sent bytes of the current head |
| OutQueue.Ring.constructor | rtdbd/src/rtdbd.c:152-162 | an empty ring |
| OutQueue.Ring.PushNote | rtdbd/src/rtdbd.c:209-231 | the ring operation is the specified push, with its outcome |
| OutQueue.Ring.Discard | rtdbd/src/rtdbd.c:194-206 | empties the ring and tells how many were dropped |
| OutQueue.Ring.SendOnce | rtdbd/src/rtdbd.c:246-275 | one send from where the last one stopped |
| OutQueue.Ring.FlushAll | rtdbd/src/rtdbd.c:243-278 | the loop is the specified flush |
| Daemon.StepSound | rtdbd/src/rtdbd.c:1534-1585 | every step of accept, subscribe, broadcast, flush and close keeps accounts and table sound |
| Daemon.StepTallies | rtdbd/src/rtdbd.c:194-315 | every step moves every counter by just what happened in it: connections told and of them refused, queued and evicting, whole frames sent, notifications lost with a socket or a connection |
| Daemon.AccountsBalance | rtdbd/src/rtdbd.c:152-327 | over every run n_notifies, notify_drop and notify_send_fail are the notifications queued, the notifications lost and the failed sockets, counted from the events; everything pushed went out whole, waits or is in notify_drop; conn_table_check never fires |
| Daemon.ToldIsDue | rtdbd/src/rtdbd.c:305-314 | for a non-zero point those told are those to whom the value is due |
| Daemon.StepOnConn | rtdbd/src/rtdbd.c:1534-1585 | what a step means for one connection: closed by its own end or a failed flush and by nothing else, leaving nothing behind; subscriptions, reports and queue change by nothing but their own causes |
| Daemon.AcceptTakesFirstFree | rtdbd/src/rtdbd.c:1534-1548 | a new connection takes the first free place, with no subscription, report or queued notification |
| Daemon.FullTableRefuses | rtdbd/src/rtdbd.c:1534-1548 | without a free place nothing changes |
| Daemon.SubscribeAnswers | rtdbd/src/rtdbd.c:172-178 | subscribing succeeds iff the point is subscribed or fewer than 32 are, and adds it at the end |
| Daemon.UnsubscribeForgets | rtdbd/src/rtdbd.c:180-189 | unsubscribing takes away the point and what was reported of it, and nothing else |
| Daemon.DelSubEffect | rtdbd/src/rtdbd.c:180-189 | moving the last subscription into the gap removes exactly the one point and keeps them distinct |
| Daemon.NotifyConnRbe | rtdbd/src/rtdbd.c:305-314 | a broadcast of a point other than 0 pushes to the connection iff the value is due, also beside slots of point 0; no other point is touched |
| Daemon.StepRbe | rtdbd/src/rtdbd.c:164-189 | every step keeps the slots of points other than 0 within the distinct subscriptions, also when point 0 is used |
| Daemon.RunRbe | rtdbd/src/rtdbd.c:1534-1585 | so does every run |
| Daemon.SlotsWithinSubscriptions | rtdbd/src/rtdbd.c:164-189 | in every reachable state the non-zero points with a report slot are distinct subscriptions, and unless point 0 was broadcast every subscribed one finds a slot |
| Daemon.BroadcastReachesDueSubscribers | rtdbd/src/rtdbd.c:283-315 | in every reachable state a broadcast of a non-zero point is pushed to exactly the open subscribers to whom it is due, is queued unless the queue is full behind a partly sent head, and is remembered as told either way |
| Daemon.RefusedValueIsLost | rtdbd/src/rtdbd.c:217-221 | a due value that is refused counts as told: the next one is suppressed unless it exceeds it |
| Daemon.AwaitingKeptByRun | rtdbd/src/rtdbd.c:283-315 | a fresh subscription to a non-zero point keeps waiting for its first value while other connections act and its own subscribes and unsubscribes other points |
| Daemon.FirstValueIsPushed | rtdbd/src/rtdbd.c:172-189 | in every reachable state, after a (re)subscription to a non-zero point and any such run, its first value is pushed; it is queued iff the queue is not full behind a partly sent head |
| Daemon.FlushSurvives | rtdbd/src/rtdbd.c:243-278 | a flush fails only if the socket fails |
| Daemon.Connection.constructor | rtdbd/src/rtdbd.c:152-162 | a free connection: no subscriptions, no slots, empty queue |
| Daemon.Connection.HasSub | rtdbd/src/rtdbd.c:164-170 | the scan decides membership |
| Daemon.Connection.AddSubscription | rtdbd/src/rtdbd.c:172-178 | adds the point once, refuses beyond 32 |
| Daemon.Connection.DelSubscription | rtdbd/src/rtdbd.c:180-189 | the in-place removal is the specified one and clears the report slot |
| Daemon.Connection.Notify | rtdbd/src/rtdbd.c:305-314 | the loop body for one connection is the specified one; it pushes iff the connection is open, subscribed and the value is due |
| IndexRebuild.PyBuckets | tools/irt_migrate/irt_migrate/layout.py:44-49 | the doubling loop is the specified one, without the library's 32-bit cap |
| IndexRebuild.PyDoubledSame | tools/irt_migrate/irt_migrate/layout.py:44-49 | tool and library double alike for up to 2^30 points |
| IndexRebuild.LayoutsAgreeIff | tools/irt_migrate/irt_migrate/layout.py:44-78 | tool and library agree on buckets iff at most 2^30 points and on all offsets iff at most 23488101 |
| IndexRebuild.SearchFindsGreatest | tools/irt_migrate/irt_migrate/layout.py:235-301 | a search in the table built so far finds the greatest of the points with the key, or none |
| IndexRebuild.AddPointKeepsTable | tools/irt_migrate/irt_migrate/layout.py:235-282 | one more point keeps that, given room for a new key |
| IndexRebuild.BuiltTable | tools/irt_migrate/irt_migrate/layout.py:235-282 | so it holds after every number of points |
| IndexRebuild.PyProbeIsFind | tools/irt_migrate/irt_migrate/layout.py:286-301 | the tool's probe, which compares names whole, finds what the library's probe finds |
| IndexRebuild.RebuiltIndexIsExact | tools/irt_migrate/irt_migrate/layout.py:235-301 | probing the rebuilt index gives the greatest id carrying partition and name, None if there is none; index_count is the number of distinct keys |
| IndexRebuild.BucketsHaveRoom | tools/irt_migrate/irt_migrate/layout.py:44-49 | the tool's bucket count always has room |
| IndexRebuild.ScanSlots | tools/irt_migrate/irt_migrate/layout.py:256-276 | the inner probe loop is the specified placement |
| IndexRebuild.BuildIndex | tools/irt_migrate/irt_migrate/layout.py:235-282 | the mutating build loop is the specified build |
| IndexRebuild.IndexProbe | tools/irt_migrate/irt_migrate/layout.py:286-301 | the probe loop is the specified probe |
| Paging.DoList | rtdbd/src/rtdbd.c:447-473 | returns the specified page |
| Paging.ListPoints | tools/rtdb-monitor/rtdb_client.py:216-245 | the paging loop terminates and returns the specified list |
| Paging.PageReaches | rtdbd/src/rtdbd.c:458-472 | the last entry of a page lies at least as far on as the page is long |
| Paging.PageLeavesOut | rtdbd/src/rtdbd.c:458-472 | a page leaves a listed point out only when full and entirely before it |
| Paging.PageIsExact | rtdbd/src/rtdbd.c:447-473 | a page is the named points of the partition from the offset on, in order, as many as there are or as asked for, with 1024 for 0 and more |
| Paging.ListCovers | tools/rtdb-monitor/rtdb_client.py:216-245 | with a page size up to 1024, or 0, advancing by the number of entries misses no listed point |
| Paging.ListingCompleteIff | tools/rtdb-monitor/rtdb_client.py:216-245 | only named points of the partition are returned; all of them iff the page size is at most 1024 or there are no more than 1024 |
| Policy.ParseDecimal | rtdbd/src/policy.c:29-41 | the loop is the specified parse |
| Policy.ParseIsValue | rtdbd/src/policy.c:29-41 | accepts exactly the non-empty digit strings whose value fits in 32 bits and returns the value |
| Policy.PrintedNumberBack | rtdbd/src/policy.c:29-41 | decimal round trip up to the uint32 limit and no further |
| Policy.TrimText | rtdbd/src/policy.c:44-62 | the two loops take away the blanks at both ends |
| Policy.TrimPadded | rtdbd/src/policy.c:44-62 | padding of blanks around a text that begins and ends with something else is taken away, no more |
| Policy.WhichBlanks | rtdbd/src/policy.c:44-62 | a line is trimmed of space, tab, CR and line end, a field of space and tab only |
| Policy.TrimIsExact | rtdbd/src/policy.c:44-62 | trimming takes away all blanks at both ends and nothing else |
| Policy.SplitFields | rtdbd/src/policy.c:101-116 | counts all fields and keeps the first four |
| Policy.SplitIsExact | rtdbd/src/policy.c:101-116 | the fields hold no colon and joined by colons are the text |
| Policy.RuleIsRead | rtdbd/src/policy.c:118-156 | which lines are rules, and with which numbers: four fields whose trimmed texts are numbers within 32 bits, the second may be a star, in order; otherwise the error of fields, number or range, in that order |
| Policy.ReadRule | rtdbd/src/policy.c:118-145 | field, number and range checks in that order, as specified |
| Policy.ReadLine | rtdbd/src/policy.c:77-97 | the 128-byte buffer and the dropped rest: the whole line is consumed, overlong iff it has 127 characters or more |
| Policy.LineBack | rtdbd/src/policy.c:77-145 | a printed rule line reads as its rule, a blank or comment line of any length as nothing |
| Policy.LoadOfPrinted | rtdbd/src/policy.c:64-158 | loading a printed file gives back exactly its rules in order, up to 32; beyond that it is rejected with the first 32 kept |
| Policy.LoadsIff | rtdbd/src/policy.c:64-158 | a file loads iff no line is an error and there are at most 32 rules, and then every rule of every line is there in order |
| Policy.FirstErrorIsBlamed | rtdbd/src/policy.c:64-158 | a rejection names the first line that is an error or has a rule too many, with its error, and keeps the rules of the lines before it |
| Policy.LastLineEnd | rtdbd/src/policy.c:77-82 | the last line end may be missing |
| Policy.OverlongLine | rtdbd/src/policy.c:82-97 | a line of 127 or more characters is an error iff a non-blank precedes any # in its first 127 characters, and is passed over otherwise |
| Policy.ShortLine | rtdbd/src/policy.c:84-99 | a shorter line is nothing iff it is blank up to any #, otherwise what its fields say |
| Policy.IndentedRuleIsLost | rtdbd/src/policy.h:17-22 | a rule behind 127 blanks is lost without an error |
| Policy.PolicyTable.Load | rtdbd/src/policy.c:64-158 | the loading loop is the specified load; the table holds the outcome's rules |
| Policy.PolicyTable.Allows | rtdbd/src/policy.c:160-174 | permits a request iff some rule is for the user, for the partition or any, and for a range with the id in it |

## Left out

- Sockets, poll, signals, fork and exec, shared memory mapping, fsync and clocks: foreign calls. What `send`, a submit,
  a file read and a clock return is a parameter of the model.
- The hash function is an arbitrary function of the key outside `KeyHash` and `OverlongNames`; nothing else depends on it.
- Registry.CreatePointIn: takes its two locked sections as one step and always gets the lock; `Contention.CreatePointUnder`
  is the same with BUSY results, and `LiveLookup` the same with lookups in between. Configuration loading is modelled
  without contention only.
- NULL arguments and closed handles, which every operation rejects first.
- Recovery while a live writer holds the lock (`src/core/irt_shm.c:148-153` does not check): `Seqlock` lets recovery
  start only after the holder has crashed, except in `Recovery.ExclusionLostIff`, which is about any state.
- Weak memory ordering, wrap-around of the 64-bit sequence, termination of `write_begin` under contention.
- Seqlock.AcceptedIsSnapshot: says nothing about do-while exits with an odd sequence, where it fails
  (`LockedReads.OddExitTears`), and assumes that recovery starts only after the holder has died and that two
  processes never recover at once; `Recovery.ExclusionLostIff` and `Recovery.SafeUntilOverlap` say what happens otherwise.
- LiveLookup.AcceptedLookupIsFind: assumes that no writer crashes inside the lock, which would leave half an operation in
  memory, and that create, delete and rename come from one caller at a time.
- The sequence lock is modelled as a state machine on values, because its claims are about interleavings; the
  registry's classes model the same sections in place.
- Floating-point rounding and NaN: values, deadbands and ranges are real numbers.
- Value bytes of each point type: a value write stores an arbitrary byte string. The points of `Registry` have no time
  stamps; those are in `TimeoutScan`.
- Registry.RunRefines: is for names of at most 63 bytes; longer ones are covered step by step by the exact conditions
  and in `OverlongNames`.
- Registry.DistinctConfigLoads: the meta data a configuration also writes are not part of the registry.
- DeltaLog.ReplayRebuilds: is for partition 0, since log records carry no partition, and does not restore point types,
  which value writes change without a record.
- DeltaLog.EveryStartRebuilds: every start begins with a new segment into which the base is loaded; no life but the last
  ends in a torn record, because a start appends behind one (`DeltaLog.ShortWriteForgesRecord`).
- DeltaLog.Instance.Create: its append succeeds, as in Delete and Rename; failures are in `DeltaLog.Instance.Append`.
- Rbe.FallbackUnreachable: is for non-zero point ids, as are the report-by-exception results of `Daemon`, because 0 marks
  an empty slot; and it needs that point 0 was not reported, since a slot that holds a value of point 0 is not free.
- Responses written to a socket that also carries notifications: a response can fall inside a partly sent frame, so the
  framing claim is about the bytes of `outq_flush`.
- ClientQueue.AsyncRunLaw: assumes that the server applies a write it acknowledges and none it refuses, and that a reply
  may be lost either way.
- IndexRebuild.RebuiltIndexIsExact: is for names that end within their 64-byte field; the C code always writes one NUL.
- TimeoutScan.Manager.CheckTimeouts: nobody writes during the call; the interleaved scan is the state machine below it.
  Which unlocked looks are torn is left open there, since no result depends on it. The scanning process does not crash.
- Policy.PolicyTable.Load: the file is open and holds no NUL character, which would end a C string early. The in-place
  NULs of the line buffer are modelled as cut strings.
- Paging: the registry does not change while it is listed.
- Alert and subscriber callbacks that re-enter the library.
- The v1 API, per-type wrappers, OPC UA status mapping, self-check, web monitor, command line, diagnostics, benchmarks
  and YAML parsing: input and output, or easy.
- The audit and log rings of the daemon: the outbound ring already shows the harder case.
