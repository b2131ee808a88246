# scrollz: a model of the storage core, with proofs

scrollz is a compressed filesystem for session logs. This project models its five connected cores in Dafny and
proves what they promise.

1. **Crash-safe archives** (`Bytes`, `Layout`, `Superblock`, `Journal`, `Reader`, `BlockIo`, `UpdaterSpec`, `Updater`,
   `VersionSpec`, `DiskSafety`, `Denotation`, `OpSafety`, `ArchiveRuns`, `CrashTheorems`, `UntornCrashes`,
   `OpeningLaws`, `RunLaws`, `SequenceNumbers`, `ProtocolProgress`, `ProtocolLimits`, `Writer`). An append-only file
   with two superblock slots, written between two barriers. The device is durable bytes plus an ordered list of
   unsynced writes. A run is any sequence of updater operations, armed write and barrier failures, reopenings and
   power losses; a power loss keeps any subset of the unsynced writes, each whole or cut to a prefix. All of it is at
   the level of bytes. The updater is a class whose methods are proved equal to the functions of `UpdaterSpec`; the
   safety theorems are about those functions.
2. **Read-modify-write and the write session** (`Chunk`, `Codec`, `Store`, `Rmw`, `Session`, `SessionRuns`).
   Chunked, compressed, buffered writes against a flat byte string.
3. **The read path, its block cache and the inode locks** (`Positions`, `BlockCache`, `CacheRuns`, `ReadPath`,
   `TruncateReads`, `LogFiles`, `InodeLocks`, `LockLaws`).
4. **The lossless merge of two session files** (`MergeSpec`, `MergeTheorems`, `MergeLaws`, `Merge`).
5. **Offline re-chunking** (`Pieces`, `Rechunk`, `RechunkLimits`, `DecodeCap`).

The definitions the methods are proved against are pinned down in turn, in terms of bytes, lines, inodes and numbers and
without those definitions, in `OpeningLaws`, `RunLaws`, `LockLaws`, `MergeLaws` and the lemmas named `...Exactly` or
`...Does`.

The checksum is an arbitrary function parameter and the compressor an arbitrary pair of functions, so that every
theorem holds for all of them; the incompressibility rule and the decompression cap around it are the code's own and
are modelled. Two hypotheses are named where they are used: `Codec.Faithful` (the compressor gives back what it
compressed; for a file, `RoundTrips`: no block of its chunk size is lost to the cap) and `DiskSafety.TearingDetected`
(a superblock slot left half-written by a power loss does not parse). The second is needed only for a torn slot: over
power losses that keep each write whole or not at all, the crash theorems hold for every checksum function
(`UntornCrashes`). A power loss in the middle of an operation is the failure of the device call it interrupts followed
by the power loss: a failed call leaves nothing behind.

## Where the code stops short of what is said of it

Each is proved, with the exact condition under which the promise does hold or with what holds in its place.

- `commit_journal` asserts only that the dirty flag is down. A `set_block` whose gap-fill fails part-way leaves
  entries in the index with the flag still down; the slot published then does not validate, and the commit that
  returned success is not what the archive opens to (`JournalCommitReadable`, `OpenedCommitCanBeLost`).
- The next sequence number is not always above both slots' numbers. It is if and only if no commit has lost its second
  barrier since the archive was last opened or committed (`NextExceedsBoth`, action by action `StepStrict`; the
  failing run is `StrictnessLost`). Safety needs only what always holds (`NextSequenceNumber`).
- A journal record of 2^32 bytes or more does not round-trip: its length is cast to 32 bits (`RecordRoundTrip`).
- An all-zero head cache reads back as none (`SuperblockRoundTrip`).
- `read_range` refuses some sound files: a write that starts past an unfinished last block leaves that block short
  inside the file. Of all writes, tail buffer on or off, exactly those end a file's readability (`ReadsNeverFail`,
  `WriteLocked`, `SparseWriteThenRead`).
- So does a truncation that grows a file from an aligned end whose last block is short; of all truncations of a
  readable file, exactly those (`TruncateLocked`, `TruncateThenRead`).
- A block above the 256 MiB decompression cap that is worth compressing is stored and never decodes again. `seal_file`
  and `compact_file` put such blocks in place of a file that reads, for a target or a tail above the cap: their output
  reads if and only if it has none (`SealFile`, `CompactFile`; the files are `SealUnreadable`, `CompactUnreadable`).
- `seal_file` joins blocks end to end, so that a short interior block shifts what follows it (`SealPreserves`; a file
  that two writes produce is `SealLosesAPlace`); `compact_file` keeps the places but not an end that lies past the
  last block (`CompactPreserves`; a file extended by truncation is `CompactLosesTheEnd`).
- A memory budget of zero does not empty the block cache, although its documentation says so
  (`ZeroBudgetKeepsOthers`).

## Model

| member | source | states |
|---|---|---|
| `Journal.ReplayJournal` | crates/scrollz/src/archive/journal.rs:35-57 | The replay loop ends on every buffer and returns the payloads of the longest run of complete, checksum-correct records from the start, with the number of bytes they occupy |
| `Journal.ReplayParses` | crates/scrollz/src/archive/journal.rs:35-57 | For every buffer: the consumed part is exactly the serialization of the recognised records, `plain` is their payloads in order, every one is below 2^32 bytes, and no complete valid record starts where the replay stopped |
| `Journal.RecordsUnique` | crates/scrollz/src/archive/journal.rs:15-57 | No other list of encodable records serializes to the consumed part |
| `Journal.ReplaySerialized` | crates/scrollz/src/archive/journal.rs:15-57 | Any list of records below 2^32 bytes, followed by anything that is not a whole record, replays fully and stops there |
| `Journal.RecordRoundTrip` | crates/scrollz/src/archive/journal.rs:15-21 | One record replays to its payload if and only if the payload is below 2^32 bytes, where the 32-bit length field begins to truncate |
| `Journal.ReplayAppend` | crates/scrollz/src/archive/journal.rs:15-57 | Appending a record to a fully replayable region appends exactly its payload to the replayed tail |
| `Superblock.SuperblockRoundTrip` | crates/scrollz/src/archive/superblock.rs:37-116 | Parsing inverts serializing for every superblock, checksum function and field value if and only if the head cache is not the all-zero triple, which comes back as none |
| `Superblock.ParsedHead` | crates/scrollz/src/archive/superblock.rs:100-116 | No superblock that parses carries the unrepresentable head cache |
| `Reader.SerializeIndex` | crates/scrollz/src/archive/reader.rs:268-277 | The index loop writes each entry's 24 bytes in order |
| `Reader.IndexRoundTrip` | crates/scrollz/src/archive/reader.rs:249-277 | Parsing a serialized index gives back every entry |
| `Reader.LoadActive` | crates/scrollz/src/archive/reader.rs:147-164 | The candidate loop (parse both slots, order by descending sequence number, first that validates) computes the specification's choice |
| `Reader.OpenSelectsBest` | crates/scrollz/src/archive/reader.rs:147-231 | On any bytes: opening fails only if neither slot fully validates; the chosen slot has the highest sequence number among those that do, A on a tie; when both validate the choice is `pick_active`'s |
| `Reader.OpenedReadsStayInside` | crates/scrollz/src/archive/reader.rs:86-118 | On any bytes that open: every block and head-cache read stays inside the file without 64-bit overflow, and a block is refused exactly when its checksum disagrees |
| `Reader.ValidRegions` | crates/scrollz/src/archive/reader.rs:169-231 | Index, blocks, journal and head cache of a validating superblock lie inside the file, blocks before the index |
| `Reader.NewIndexLoads` | crates/scrollz/src/archive/reader.rs:169-277 | An index appended at the end of an image, described by its offset, length and checksum, loads back |
| `Reader.ValidateFrame` | crates/scrollz/src/archive/reader.rs:169-231 | Growing a file without touching existing data bytes changes neither a superblock's validity nor what it means |
| `OpeningLaws.ParsesExactly` | crates/scrollz/src/archive/superblock.rs:68-79 | The 128 bytes of a slot parse if and only if they start with ZSB2 and end with the checksum of the rest |
| `OpeningLaws.HeaderExactly` | crates/scrollz/src/archive/reader.rs:38-52 | The header is accepted if and only if the first twelve bytes are exactly magic and version |
| `OpeningLaws.ValidatesExactly` | crates/scrollz/src/archive/reader.rs:169-231 | A slot validates if and only if the chunk size is not zero; the index, 24 bytes per block, lies in the file behind the slots, has its checksum, and every entry as it stands on disk names bytes between slots and index; and the journal region is empty, or lies in the file and is a list of records to its last byte |
| `OpeningLaws.ReplaysWholeExactly` | crates/scrollz/src/archive/journal.rs:35-57 | A region replays to its last byte if and only if it is the serialization of some list of records |
| `OpeningLaws.OpensExactly` | crates/scrollz/src/archive/reader.rs:147-164 | An archive opens with a superblock if and only if that one is good, in those terms, and no good one has a higher sequence number, or as high a one in slot A |
| `OpeningLaws.ClosedExactly` | crates/scrollz/src/archive/reader.rs:147-164 | It does not open if and only if neither slot is good |
| `OpeningLaws.DamagedIndexFallsBack` | crates/scrollz/src/archive/reader.rs:191-196 | When the newer slot's index bytes do not have their checksum and the older slot is good, the older one is opened |
| `OpeningLaws.RecoveredExactly` | crates/scrollz/src/archive/reader.rs:86-260 | What is read back: chunk size and size of the best slot; stored bytes, flags and checksum of each index entry as it stands on disk; the payloads of the journal's records; the head cache if its region lies between slots and index |
| `BlockIo.FaultIo.Write` | crates/scrollz/src/blockio.rs:202-232 | A write joins the unsynced list in order, or fails when it overlaps the armed range (once) or ends past the largest file offset |
| `BlockIo.FaultIo.ReadView` | crates/scrollz/src/blockio.rs:233-246 | Reads see the durable bytes under all unsynced writes, in write order |
| `BlockIo.FaultIo.Len` | crates/scrollz/src/blockio.rs:268-275 | The reported length is that of the view |
| `BlockIo.FaultIo.SyncAll` | crates/scrollz/src/blockio.rs:247-267 | A barrier makes the view durable and empties the unsynced list, or fails when armed and leaves both |
| `BlockIo.FaultIo.CrashWith` | crates/scrollz/src/blockio.rs:179-188 | The image after a power loss: durable bytes under any subset of the unsynced writes, each possibly cut to a prefix |
| `BlockIo.CrashKeepingAll` | crates/scrollz/src/blockio.rs:179-188 | Losing no write leaves what the process saw |
| `BlockIo.WriteDoes` | crates/scrollz/src/blockio.rs:202-232 | A write fails if and only if it shares a byte with the armed range or ends past the largest file, and then shows nothing; otherwise its bytes show and all others are as before |
| `BlockIo.SyncDoes` | crates/scrollz/src/blockio.rs:247-267 | A barrier fails if and only if it is the armed one, and then makes nothing durable; otherwise what shows is durable and nothing is unsynced; it never changes what shows |
| `BlockIo.CrashShape` | crates/scrollz/src/blockio.rs:107-282 | If all unsynced writes but a first slot write lie past the durable end, no power loss changes a durable data byte or the other slot |
| `BlockIo.CrashBytes` | crates/scrollz/src/blockio.rs:179-188 | Byte by byte, the image after a power loss has the byte of the last write that left one there (nothing, all or a prefix of each write is left), else the durable byte |
| `BlockIo.CrashReaches` | crates/scrollz/src/blockio.rs:179-188 | It is as long as the durable bytes and the writes not lost reach |
| `BlockIo.CrashLosingAll` | crates/scrollz/src/blockio.rs:179-188 | Losing every write leaves the durable bytes |
| `ArchiveUpdaters.ArchiveUpdater.FromIo` | crates/scrollz/src/archive/updater.rs:73-114 | Opening succeeds exactly when header and a slot are valid, and sets cursor, active sequence number, other slot, committed index, head cache and journal region from it |
| `ArchiveUpdaters.ArchiveUpdater.AppendJournal` | crates/scrollz/src/archive/updater.rs:162-189 | Device and fields afterwards are the specification's: region copied to the end of the file when the cursor has left it, then one record appended; each failure point leaves what it leaves in the code |
| `ArchiveUpdaters.ArchiveUpdater.FillGap` | crates/scrollz/src/archive/updater.rs:246-262 | The zero-block loop, with the entries pushed before a failed write left behind |
| `ArchiveUpdaters.ArchiveUpdater.SetBlock` | crates/scrollz/src/archive/updater.rs:237-279 | New block bytes at the end of the file, entry replaced or added, size and dirty flag set, only when every write succeeded |
| `ArchiveUpdaters.ArchiveUpdater.Truncate` | crates/scrollz/src/archive/updater.rs:282-301 | Index cut, size and dirty flag set, head cache dropped when it covers bytes past the new size |
| `ArchiveUpdaters.ArchiveUpdater.CommitJournal` | crates/scrollz/src/archive/updater.rs:130-158 | Barrier, inactive slot with the committed index and the new journal region, barrier, then the slots swap roles |
| `ArchiveUpdaters.ArchiveUpdater.Commit` | crates/scrollz/src/archive/updater.rs:305-361 | Head cache and index appended, barrier, inactive slot, barrier, then the committed fields change and the slots swap |
| `ArchiveUpdaters.ArchiveUpdater.Publish` | crates/scrollz/src/archive/updater.rs:130-158 | The two barriers around the slot write; any failure stops there |
| `ArchiveUpdaters.ArchiveUpdater.PutIndex` | crates/scrollz/src/archive/updater.rs:315-340 | Head cache then index at the cursor, described by where and what was written |
| `ArchiveUpdaters.ArchiveUpdater.ResetJournal` | crates/scrollz/src/archive/updater.rs:193-196 | The region is forgotten |
| `ArchiveUpdaters.ArchiveUpdater.ClearHeadCache` | crates/scrollz/src/archive/updater.rs:210-213 | Pending and committed head cache are both dropped |
| `DiskSafety.SettledRecovers` | crates/scrollz/src/archive/reader.rs:147-164 | An image with one settled slot opens to an allowed version |
| `DiskSafety.CrashSettled` | crates/scrollz/src/archive/updater.rs:4-8 | Under the disk invariant every image a power loss can leave is settled on the slot that was not being written |
| `DiskSafety.ViewSettled` | crates/scrollz/src/archive/updater.rs:73-124 | The running process always sees its active slot valid, with the sequence number it remembers, the other at most one above |
| `DiskSafety.AppendKeeps` | crates/scrollz/src/archive/updater.rs:237-279 | An append at the end keeps the disk invariant whether or not the write fails |
| `DiskSafety.SyncKeeps` | crates/scrollz/src/archive/updater.rs:364-366 | A barrier keeps it, failed or not |
| `DiskSafety.SlotWriteKeeps` | crates/scrollz/src/archive/updater.rs:130-158 | A superblock write over settled data makes its version possible and loses none |
| `DiskSafety.SlotSyncPublishes` | crates/scrollz/src/archive/updater.rs:130-158 | The barrier after it makes that version the only possible one |
| `Denotation.OpenDenotes` | crates/scrollz/src/archive/updater.rs:73-114 | After opening, the updater's fields denote exactly the version read back |
| `Denotation.BlockStored` | crates/scrollz/src/archive/updater.rs:237-279 | `set_block` denotes replacing or appending that block, zero blocks filling the gap |
| `Denotation.RelocatedDenotes` | crates/scrollz/src/archive/updater.rs:162-189 | Copying the journal region changes the tail by nothing |
| `Denotation.RecordDenotes` | crates/scrollz/src/archive/updater.rs:162-189 | A record at the end of the region extends the tail by exactly the delta |
| `Denotation.JournalSbMeans` | crates/scrollz/src/archive/updater.rs:130-158 | With the index unchanged since the last commit, the superblock of a journal-only commit means the draft with the committed head cache |
| `Denotation.CommitSbMeans` | crates/scrollz/src/archive/updater.rs:305-361 | The superblock of a full commit means the draft |
| `OpSafety.SetBlockSafe` | crates/scrollz/src/archive/updater.rs:237-279 | `set_block` keeps the whole invariant at every failure point and changes no existing byte |
| `OpSafety.AppendJournalSafe` | crates/scrollz/src/archive/updater.rs:162-189 | `append_journal` keeps it; on success the tail has grown by the delta and the region ends at the cursor, on failure the tail is what it was |
| `OpSafety.PublishSafe` | crates/scrollz/src/archive/updater.rs:130-158 | Barrier, slot, barrier: the new version becomes possible, on success the only possible one |
| `OpSafety.CommitJournalSafe` | crates/scrollz/src/archive/updater.rs:130-158 | The journal-only commit keeps the invariant while the index is the committed one |
| `OpSafety.CommitSafe` | crates/scrollz/src/archive/updater.rs:305-361 | The full commit keeps the invariant; on success the draft is the only version a power loss can bring back |
| `ArchiveRuns.StartInv` | crates/scrollz/src/archive/updater.rs:73-114 | The invariant holds when a sound archive is opened |
| `ArchiveRuns.PowerLossInv` | crates/scrollz/src/archive/updater.rs:73-114 | Any power loss leaves an image that opens to an allowed version, and opening it re-establishes the invariant with that version as the only one |
| `ArchiveRuns.ReopenInv` | crates/scrollz/src/archive/updater.rs:73-114 | Reopening without a power loss, with a superblock possibly still unsynced, keeps the invariant whichever slot opening selects |
| `ArchiveRuns.StepInv` | crates/scrollz/src/archive/updater.rs:73-366 | Each of the fourteen actions (operations, armed failures, reopening, power loss) keeps the invariant |
| `ArchiveRuns.RunInv` | crates/scrollz/src/archive/updater.rs:73-366 | So does every run |
| `RunLaws.EnabledExactly` | crates/scrollz/src/archive/updater.rs:130-366 | In every reachable state every action can be taken but: increments of 2^32 bytes, commits after the last sequence number, a journal-only commit over a changed index, a power loss torn unnoticed |
| `RunLaws.SetBlockDoes` | crates/scrollz/src/archive/updater.rs:237-279 | Index by index: the block is there with its flag and checksum, the others are as they were, zero blocks fill the gap |
| `RunLaws.TruncateDoes` | crates/scrollz/src/archive/updater.rs:282-301 | The first blocks stay; the head cache, pending or else committed, goes if and only if it covers bytes past the new size |
| `RunLaws.FieldsDo` | crates/scrollz/src/archive/updater.rs:162-235 | Size, head cache, journal: each operation changes its part and nothing else, a failed append nothing |
| `RunLaws.CommitDoes` | crates/scrollz/src/archive/updater.rs:130-361 | What counts as written after a commit: on success exactly the draft, on failure the draft possibly |
| `RunLaws.SetBlockSucceeds` | crates/scrollz/src/archive/updater.rs:237-279 | With no failure armed a block is set if and only if gap and block fit in the file |
| `RunLaws.AppendSucceeds` | crates/scrollz/src/archive/updater.rs:162-189 | With no failure armed an increment is appended if and only if it fits, with the copy of the region when the cursor has left its end |
| `RunLaws.BatchSucceeds` | crates/scrollz/src/archive/updater.rs:162-189 | So is a batch that fits as a whole |
| `RunLaws.SetCommitRead` | crates/scrollz/src/archive/updater.rs:237-361 | End to end: a compressed block set and committed, after any power loss, decodes to what was stored; all other blocks, tail and head are the draft's |
| `CrashTheorems.CrashAtomicity` | crates/scrollz/src/archive/updater.rs:130-361 | From any sound archive, after any run, every image a power loss can leave opens and reads back as the version last acknowledged or one some commit has tried since: all blocks, flags, size, tail and head cache |
| `CrashTheorems.NoRollback` | crates/scrollz/src/archive/updater.rs:130-361 | After a commit returned success no older version ever comes back, through any later run with further power losses |
| `CrashTheorems.TriedExactly` | crates/scrollz/src/archive/updater.rs:130-361 | The versions tried by a run are the candidates of its commits, each in the state its commit was called in |
| `CrashTheorems.Durability` | crates/scrollz/src/archive/updater.rs:130-361 | With no later commit, exactly the committed version comes back |
| `UntornCrashes.UntornDetected` | crates/scrollz/src/blockio.rs:179-188 | When a power loss tears nothing, each slot holds what it durably held or a whole superblock write: `TearingDetected` holds for every checksum function |
| `UntornCrashes.UntornRunsRun` | crates/scrollz/src/blockio.rs:179-188 | So a run all of whose power losses keep writes whole or not at all needs no hypothesis to run and to keep the invariant |
| `RunLaws.UntornExactly` | crates/scrollz/src/blockio.rs:179-188 | Those runs are exactly the runs in which no power loss cuts a write |
| `UntornCrashes.UntornAtomicity` | crates/scrollz/src/archive/updater.rs:130-361 | Crash atomicity over such runs, for every checksum function |
| `UntornCrashes.UntornNoRollback` | crates/scrollz/src/archive/updater.rs:130-361 | No rollback over such runs, for every checksum function |
| `UntornCrashes.UntornDurability` | crates/scrollz/src/archive/updater.rs:130-361 | Durability over such runs, for every checksum function |
| `CrashTheorems.StepAllowed` | crates/scrollz/src/archive/updater.rs:130-361 | Only a commit adds a version to what may be recovered, and a successful one leaves only its own |
| `CrashTheorems.AppendOnly` | crates/scrollz/src/archive/updater.rs:4-8 | Outside a power loss no action changes a data byte that exists |
| `CrashTheorems.ReachableBelowCursor` | crates/scrollz/src/archive/updater.rs:237-279 | Every region either parseable slot leads to is valid and lies below the write cursor |
| `CrashTheorems.AppendsExtendTail` | crates/scrollz/src/archive/updater.rs:162-189 | A batch of successful appends extends the tail by the concatenation of the deltas |
| `CrashTheorems.NoGhostRecord` | crates/scrollz/src/archive/updater.rs:160-189 | From any reachable archive, orphaned records of earlier losses included: the tail recovered after append, journal commit and power loss is the old tail followed by exactly the committed deltas |
| `CrashTheorems.JournalContiguous` | crates/scrollz/src/archive/updater.rs:160-189 | After every successful append the journal region ends at the write cursor |
| `ProtocolLimits.NextSequenceNumber` | crates/scrollz/src/archive/updater.rs:73-124 | In every reachable state the next sequence number exceeds the active slot's and is at least the other's; when it exceeds both is `SequenceNumbers.NextExceedsBoth` |
| `ProtocolLimits.NextSequenceNumberNotStrict` | crates/scrollz/src/archive/updater.rs:130-158 | A `commit_journal` whose second barrier fails leaves the other slot with the very number the next commit will use; when in general it does so is `SequenceNumbers.StepStrict` |
| `SequenceNumbers.PublishSlots` | crates/scrollz/src/archive/updater.rs:130-158 | Barrier, slot, barrier: the other slot stays as it was; the one written shows the new number exactly as soon as its write went out, and is untouched otherwise |
| `SequenceNumbers.CommitJournalStrict` | crates/scrollz/src/archive/updater.rs:130-158 | After a journal-only commit the next number is above both slots' if and only if it did not lose its second barrier, and it succeeded or the number was above both before |
| `SequenceNumbers.CommitFullStrict` | crates/scrollz/src/archive/updater.rs:305-361 | The same for the full commit |
| `SequenceNumbers.OpenedStrict` | crates/scrollz/src/archive/updater.rs:73-124 | Opening any image a crash or a running process can leave makes the next number exceed both slots', whichever slot is chosen |
| `SequenceNumbers.StepStrict` | crates/scrollz/src/archive/updater.rs:73-366 | For each of the fourteen actions: afterwards the next number is above both slots' if and only if the action was no commit that lost its second barrier, and it was so before or the action opened the archive or committed |
| `SequenceNumbers.RunStrict` | crates/scrollz/src/archive/updater.rs:73-366 | The same for every run from every reachable state |
| `SequenceNumbers.NextExceedsBoth` | crates/scrollz/src/archive/updater.rs:73-124 | From any archive just opened, after any run: the next sequence number exceeds both slots' numbers if and only if no commit has lost its second barrier since the archive was last opened or committed |
| `SequenceNumbers.StrictnessLost` | crates/scrollz/src/archive/updater.rs:130-158 | The failing run, from every archive just opened: arm the second barrier to fail, commit the journal |
| `SequenceNumbers.LoseBarrier` | crates/scrollz/src/archive/updater.rs:130-158 | The same two calls on the updater object |
| `ProtocolLimits.JournalCommitReadable` | crates/scrollz/src/archive/updater.rs:130-158 | With the dirty flag down (all that is asserted), the slot a journal-only commit publishes validates if and only if the block count still matches the committed index |
| `ProtocolLimits.AcknowledgedYetLost` | crates/scrollz/src/archive/updater.rs:130-158 | When it does not, the commit returned success and the archive still opens to an earlier version |
| `ProtocolLimits.SecondZeroBlockFails` | crates/scrollz/src/archive/updater.rs:246-262 | A `set_block` whose second gap block fails leaves one extra entry and the dirty flag down |
| `ProtocolLimits.JournalCommitCanBeLost` | crates/scrollz/src/archive/updater.rs:130-158 | From any committed archive that failure followed by `commit_journal` loses the commit |
| `ProtocolLimits.OpenedCommitCanBeLost` | crates/scrollz/src/archive/updater.rs:130-158 | The same from every archive just opened, given room for one zero block |
| `ProtocolProgress.SoundStarts` | crates/scrollz/src/archive/updater.rs:73-114 | Every sound archive opens into a state that runs may start from |
| `ProtocolProgress.CommitSucceeds` | crates/scrollz/src/archive/updater.rs:305-361 | With nothing armed, a full commit succeeds if and only if head cache and index fit in the file |
| `ProtocolProgress.CommittedComesBack` | crates/scrollz/src/archive/updater.rs:305-361 | What it committed comes back after any power loss |
| `ProtocolProgress.CommitLengthens` | crates/scrollz/src/archive/updater.rs:305-361 | A successful commit lengthens the file by exactly head cache and index |
| `Writer.ArchiveWriter.constructor` | crates/scrollz/src/archive/writer.rs:65-85 | Header and two empty slots, no blocks |
| `Writer.ArchiveWriter.AppendBlock` | crates/scrollz/src/archive/writer.rs:98-115 | Appends exactly that block, flag and checksum, and adds its length modulo 2^64; fails exactly past the largest file |
| `Writer.ArchiveWriter.Finish` | crates/scrollz/src/archive/writer.rs:118-157 | Fails exactly when head cache and index do not fit; the finished bytes open, slot A is chosen with number 0, and every block, flag, the 64-bit size and the head cache read back; the length is exact |
| `Writer.FinishedOpens` | crates/scrollz/src/archive/writer.rs:118-157 | Header, data, index and two equal slots make an archive that opens to those blocks and is a sound start for updater runs |
| `Writer.AppendAll` | crates/scrollz/src/archive/writer.rs:98-115 | Any list of `append_block` goes through if and only if the blocks fit in a file; then the writer holds exactly the list |
| `Writer.BuildArchive` | crates/scrollz/src/archive/writer.rs:65-157 | `new`, any list of `append_block` and `finish` give an archive if and only if the chunk size is not zero and the whole fits in a file; it opens to exactly that list, head and 64-bit size, and has exactly that length |
| `Chunk.RangeCovers` | crates/scrollz/src/core/chunk.rs:10-19 | `block_range` spans exactly the blocks that a non-empty range meets |
| `Chunk.InBlock` | crates/scrollz/src/core/chunk.rs:22-24 | A position lies in block i exactly when it lies between the block's bounds, at the offset `offset_in_block` gives |
| `Codec.CompressRoundTrip` | crates/scrollz/src/core/codec.rs:203-331 | Whatever the incompressibility rule decides, decompression gives the block back, except exactly the blocks above the 256 MiB cap that were worth compressing, which it refuses; what is stored is never longer |
| `Codec.SavesOrStays` | crates/scrollz/src/core/codec.rs:203-245 | A block is stored compressed if and only if that takes less than 95 percent, else as it is |
| `Codec.RoundTripsExactly` | crates/scrollz/src/core/codec.rs:203-331 | A chunk size loses no block if and only if nothing of up to that size, above the cap, is worth compressing; every chunk size up to the cap is safe |
| `Stores.Store.PutBlock` | crates/scrollz/src/store/mod.rs:130-132 | One block and the size change |
| `Stores.Store.TruncateBlocks` | crates/scrollz/src/store/mod.rs:134-136 | Blocks from `keep_from` on go, the size is set |
| `Stores.Store.AppendTail` | crates/scrollz/src/store/mod.rs:145-153 | The increment reaches the journal and the size is set; the tail's own block may look like anything, every other block is untouched |
| `Stores.Store.SealTailBlock` | crates/scrollz/src/store/mod.rs:155-165 | The block is stored and a supported journal is reset |
| `Rmw.LoadPlainBlock` | crates/scrollz/src/core/rmw.rs:60-75 | The decoded block, empty when absent |
| `Rmw.StorePlainBlock` | crates/scrollz/src/core/rmw.rs:78-100 | The compressed block is stored and no other block changes; it reads back as the bytes given if and only if the codec gives it back; one compression is counted |
| `Rmw.SealPlainBlock` | crates/scrollz/src/core/rmw.rs:105-127 | The same through `seal_tail_block`, journal reset where there is one |
| `Rmw.PatchedBlock` | crates/scrollz/src/core/rmw.rs:195-235 | The loop's buffer, old bytes fitted and data on top, is that block's slice of the flat target |
| `Rmw.WriteAt` | crates/scrollz/src/core/rmw.rs:156-242 | `write_at` succeeds exactly under the stated guards; then the file is the old bytes zero-extended to the offset, overwritten, tail kept; otherwise nothing changed; no block extends past chunk or file size; blocks before the write and the old end are untouched |
| `Rmw.ProgressShape` | crates/scrollz/src/core/rmw.rs:195-240 | After a write every stored block is as long as the file leaves room for, or is an old one outside the write; the old ones before it are all still there |
| `Rmw.TruncatedIsResized` | crates/scrollz/src/core/rmw.rs:249-320 | A file changed block by block as truncation does reads as the flat resize with zeros |
| `Rmw.ShapeOfTruncated` | crates/scrollz/src/core/rmw.rs:249-320 | After a truncation every stored block is as long as the file leaves room for, or an old one that, on growth, had its whole place in the old file; the old ones that end inside both files are all still there |
| `Rmw.Truncate` | crates/scrollz/src/core/rmw.rs:249-320 | `truncate` is the flat resize, both ways, aligned or not, and keeps the block invariant |
| `Session.WriteSession.Geometry` | crates/scrollz/src/core/wsession.rs:113-125 | The size includes the open tail: it is the length of what is shown |
| `Session.WriteSession.ReadTailBlock` | crates/scrollz/src/core/wsession.rs:132-142 | Exactly the open tail's bytes for its own block number |
| `Session.WriteSession.Materialize` | crates/scrollz/src/core/wsession.rs:327-350 | Sealing the tail changes nothing shown, one block at most, and compresses once unless the tail is empty |
| `Session.WriteSession.LoadTail` | crates/scrollz/src/core/wsession.rs:236-270 | The unfinished last block becomes the tail, cut or zero-filled to the file size, fully journaled; nothing shown changes |
| `Session.WriteSession.AppendRound` | crates/scrollz/src/core/wsession.rs:205-231 | One round of the append loop: as much as fits goes into the tail; the count of compressions, the full blocks behind and the untouched ones before are exact at every round |
| `Session.WriteSession.Refill` | crates/scrollz/src/core/wsession.rs:371-401 | The same after a write through the store: a tail is open afterwards if and only if the end is not aligned |
| `Session.WriteSession.AppendIntoTail` | crates/scrollz/src/core/wsession.rs:188-232 | The shown file grows by exactly the data; one compression per chunk boundary crossed; no block below the old end is touched; a tail stays open, below one chunk, if and only if the end is not aligned |
| `Session.WriteSession.WriteAt` | crates/scrollz/src/core/wsession.rs:149-184 | Any write acts on the shown file as on a flat byte string and answers as the plain read-modify-write does, tail buffer on or off; an append has the exact append cost; which blocks end up full and which short is that of a plain write on the file with the tail as its last block |
| `Session.WriteSession.WriteBehind` | crates/scrollz/src/core/wsession.rs:176-184 | Any other write with the buffer on: tail sealed, written through, new last block taken back; flat, with the same answer, and the block shape of a plain write |
| `Session.ShapeOfAppend` | crates/scrollz/src/core/wsession.rs:188-232 | A buffered append leaves the blocks a plain write at the end would: those before the old end stay, those filled since are full, the last one ends with the file |
| `Session.WriteSession.Seal` | crates/scrollz/src/core/wsession.rs:290-323 | Nothing shown changes. A journaling store receives exactly the unjournaled suffix, no block is compressed, and the journal's bytes since the tail was opened, behind the prefix it was loaded with, are then the whole tail; any other store gets the tail block, by one compression; an empty tail is dropped |
| `Session.WriteSession.Truncate` | crates/scrollz/src/core/wsession.rs:354-368 | The shown file becomes its flat resize; which blocks end up full and which short is that of a plain truncation of the file with the tail as its last block |
| `Session.ConservedJournaled` | crates/scrollz/src/core/wsession.rs:48-50 | The bytes handed to the journal since the tail was opened, after the prefix it was loaded with, stay equal to the journaled prefix of the tail |
| `Session.TailHides` | crates/scrollz/src/core/wsession.rs:132-142 | Whatever the backend does to the tail's own block while the tail is open does not show |
| `SessionRuns.RunAll` | crates/scrollz/src/core/wsession.rs:149-401 | Every run of writes, fsyncs and truncations gives the answers and the bytes of the flat run, keeps the session invariant and delta conservation, has nothing in memory only after a final fsync, and, for appends on a journaling store, compresses exactly floor(S1/chunk) - floor(S0/chunk) blocks, none below the old end |
| `SessionRuns.RunOnAndOff` | crates/scrollz/src/core/wsession.rs:73-80 | The same run with the tail buffer on and off gives the same answers and shows the same bytes |
| `SessionRuns.AppendsJoin` | crates/scrollz/src/core/wsession.rs:188-232 | However an append run is cut, the file is extended by the concatenation, so that its cost depends on the total length alone |
| `SessionRuns.CutsAreAppends` | crates/scrollz/src/core/wsession.rs:188-232 | However a log below 2^64 bytes is cut, writing the pieces one behind the other is a run of appends of the log |
| `SessionRuns.BoundedInRange` | crates/scrollz/src/core/wsession.rs:149-184 | Every run whose writes end below 2^64 is within the range the run theorems ask for |
| `SessionRuns.FsyncsDoNotShow` | crates/scrollz/src/core/wsession.rs:290-323 | Removing every fsync from a run leaves the same file |
| `BlockCaches.BlockCache.Get` | crates/scrollz/src/core/blockcache.rs:147-168 | Returns what is cached and moves the entry to the recent end of the list |
| `BlockCaches.BlockCache.Insert` | crates/scrollz/src/core/blockcache.rs:172-211 | A block of at most a positive budget is cached afterwards, with its bytes, as the most recent entry, behind the longest recent end of the other entries that it leaves room for; any other block only loses its key; the four structures stay exact and within the configured cap |
| `BlockCaches.BlockCache.MakeRoom` | crates/scrollz/src/core/blockcache.rs:187-197 | The eviction loop ends with enough room, and neither the empty-order guard nor the dangling-stamp branch is ever taken |
| `BlockCaches.BlockCache.Invalidate` | crates/scrollz/src/core/blockcache.rs:215-235 | Exactly the inode's entries go, order and byte count following |
| `BlockCaches.BlockCache.RemoveKey` | crates/scrollz/src/core/blockcache.rs:281-298 | Exactly that key goes from all four structures |
| `BlockCaches.BlockCache.RefreshEffectiveCap` | crates/scrollz/src/core/blockcache.rs:238-256 | The budget is min(configured, (available + own bytes - reserve) / 2) with saturation, only when a probe is due |
| `BlockCaches.EvictsShortestPrefix` | crates/scrollz/src/core/blockcache.rs:187-197 | What eviction drops is the shortest least-recent prefix that makes room |
| `BlockCaches.InsertedExactly` | crates/scrollz/src/core/blockcache.rs:172-211 | The same of the list the specification inserts into |
| `BlockCaches.KeepInOrder` | crates/scrollz/src/core/blockcache.rs:281-298 | Filtering keeps exactly the entries whose key qualifies, in their order |
| `BlockCaches.EffectiveCapExactly` | crates/scrollz/src/core/blockcache.rs:238-256 | The budget is the largest number up to the configured one of which two fit into what is free beyond 256 MiB, sums saturating |
| `BlockCaches.RestrictedList` | crates/scrollz/src/core/blockcache.rs:215-298 | Structures restricted to some keys are the list filtered by them, in order |
| `BlockCaches.OldestFirst` | crates/scrollz/src/core/blockcache.rs:187-197 | The smallest stamp heads the list |
| `CacheRuns.RunCache` | crates/scrollz/src/core/blockcache.rs:147-298 | Every run of calls and memory probes leaves the list the list-run leaves, within the configured budget |
| `CacheRuns.ZeroBudgetKeepsOthers` | crates/scrollz/src/core/blockcache.rs:181-184 | With a zero budget an insert drops its own key and no other entry; it empties the cache only if nothing else was in it |
| `ReadPath.ReadRange` | crates/scrollz/src/rwfs.rs:292-410 | Data returned is exactly the slice of the shown file, clipped at its end, and a read fails exactly when a byte it asks for cannot be given; the answer does not depend on what the cache holds or the memory probe says; the cache stays coherent for every file, and takes in only blocks the file goes on after |
| `ReadPath.ReadPieces` | crates/scrollz/src/rwfs.rs:340-410 | The loop gives all the bytes asked for, or stops exactly when one of the blocks is short though the file goes on |
| `ReadPath.DataIsExact` | crates/scrollz/src/rwfs.rs:292-410 | The specification's data answers are that slice; `ReadRange` gives it for the method |
| `ReadPath.ReadsExactly` | crates/scrollz/src/rwfs.rs:340-410 | A read succeeds if and only if every byte it asks for lies in the tail, in no stored block, in a block whose place reaches the end of the file, or within the bytes its block stores |
| `TruncateReads.ReadShortBlock` | crates/scrollz/src/rwfs.rs:395-408 | [7] at 0, [8, 9] at 2, chunks of two: byte 0 reads as 7, bytes 0 and 1 together are refused |
| `ReadPath.ReadsNeverFail` | crates/scrollz/src/rwfs.rs:395-408 | Reads never fail if and only if every stored block the file goes on after is full (absent blocks are fine) |
| `ReadPath.SparseWriteThenRead` | crates/scrollz/src/rwfs.rs:395-408 | In any session, tail buffer on or off: a write starting past the block of an unaligned end leaves that block short inside the file, and reading it is refused |
| `ReadPath.FetchBlock` | crates/scrollz/src/rwfs.rs:360-393 | Cache or store, the block is the decoded stored block; only strictly interior blocks enter the cache, and such a block is cached afterwards if the budget allows it at all |
| `ReadPath.WriteLocked` | crates/scrollz/src/rwfs.rs:172-182 | Invalidate, then write: the flat write with its exact answer, and no stale block of any file is cached. Of all writes to a file whose reads never fail, tail open or not, exactly those starting past a short last block make reads fail |
| `ReadPath.TruncateLocked` | crates/scrollz/src/rwfs.rs:781-796 | The flat resize, and no stale block of any file is cached. Afterwards reads never fail if and only if every stored block ending inside both files before the new end is full; for a file whose reads never failed, if and only if it does not grow from an aligned end with a short last block |
| `ReadPath.TruncateReadable` | crates/scrollz/src/rwfs.rs:395-408 | The first of these on the file as shown, for every file, readable before or not |
| `ReadPath.GapIsNotFull` | crates/scrollz/src/rwfs.rs:395-408 | The second from the first |
| `TruncateReads.TruncateThenRead` | crates/scrollz/src/core/rmw.rs:249-320 | In chunks of four, buffer on or off: write [1] at 0, write [9] at 4, truncate to 4: the first chunk reads 1 0 0 0. Truncate to 8: reading it is refused |
| `ReadPath.FsyncLocked` | crates/scrollz/src/rwfs.rs:891-906 | Nothing shown changes, no stale block is cached, and nothing of the file is in the tail buffer only: what is open is whole in the journal |
| `ReadPath.WriteKeepsReadable` | crates/scrollz/src/rwfs.rs:395-408 | The same on the file as shown, its tail in place as the last block |
| `ReadPath.ReadableView` | crates/scrollz/src/rwfs.rs:395-408 | Reads of a session never fail if and only if the file with the tail as its last block has no short interior block |
| `ReadPath.UnalignedGap` | crates/scrollz/src/rwfs.rs:395-408 | At an unaligned end that is: the last block is stored or open, and the write starts past the end of its place |
| `LogFiles.FullFilesRead` | crates/scrollz/src/rwfs.rs:395-408 | With every block before the end full, no read fails |
| `LogFiles.ReadLog` | crates/scrollz/src/rwfs.rs:292-410 | End to end: after any appends and fsyncs since the file was created, any read returns exactly the appended bytes there, clipped to the end, through tail buffer, compression, store and cache |
| `InodeLocks.LocksStep` | crates/scrollz/src/rwfs.rs:150-168 | Every live handle of an inode is the table's own lock, kept by each step, eviction included |
| `InodeLocks.ExclusiveStep` | crates/scrollz/src/rwfs.rs:150-182 | A writer has its inode to itself |
| `InodeLocks.CacheStep` | crates/scrollz/src/core/blockcache.rs:17-21 | Every cached block is the current one; none is cached behind a writer that has invalidated |
| `InodeLocks.RunInv` | crates/scrollz/src/rwfs.rs:150-410 | All of it holds in every interleaving of any number of handlers |
| `InodeLocks.NoStaleHit` | crates/scrollz/src/core/blockcache.rs:17-21 | In every reachable state a cache hit gives the file's current block |
| `InodeLocks.OneLiveLock` | crates/scrollz/src/rwfs.rs:150-168 | Two live handles belong to one inode exactly when they are one lock |
| `InodeLocks.ReadIsSnapshot` | crates/scrollz/src/rwfs.rs:292-310 | While a reader holds its lock its file does not change: all blocks it gathers belong to one version |
| `InodeLocks.EvictionGuardExact` | crates/scrollz/src/rwfs.rs:162-168 | Removing a table entry keeps the locks sound if and only if nobody holds that lock, which is the strong-count test |
| `InodeLocks.InvalidationExact` | crates/scrollz/src/rwfs.rs:170-182 | A writer may install any new version without leaving a stale block if and only if none of its file's blocks is cached |
| `LockLaws.MayExactly` | crates/scrollz/src/rwfs.rs:150-182 | When each step may be taken, told by inodes: readers keep out writers of their file, a writer everybody, other files play no part; a lock leaves the table only when nobody has its file at hand |
| `LockLaws.Enters` | crates/scrollz/src/rwfs.rs:150-182 | Getting a handle, the shared and the exclusive lock, and giving them back, each for the file asked for |
| `LockLaws.Reads` | crates/scrollz/src/rwfs.rs:340-393 | A reader gets the block as it is now, from cache or store, keeps those it has, and caches what it fetched |
| `LockLaws.Writes` | crates/scrollz/src/core/blockcache.rs:215-235 | Invalidation drops exactly the file's blocks; a mutation installs exactly the new version of exactly that file |
| `LockLaws.OthersStay` | crates/scrollz/src/rwfs.rs:150-182 | A step of one thread leaves the others where they are |
| `Merging.SessionMerge` | crates/scrollz/src/reconcile/merge.rs:104-219 | The loops over map, set and lists compute the specification's merged lines and conflicts |
| `Merging.Ingestion.IngestLine` | crates/scrollz/src/reconcile/merge.rs:150-211 | One line: timestamp inherited, longer variant of a uuid kept, earlier on a tie, the loser reported whole; lines without uuid once each |
| `Merging.SortItems` | crates/scrollz/src/reconcile/merge.rs:216-218 | The output is in order of timestamp and then position |
| `Merging.BaseCoveredByMerged` | crates/scrollz/src/reconcile/merge.rs:19-53 | The gate answers true exactly if every record of the base is in the merged lines |
| `MergeSpec.IngestIsIngested` | crates/scrollz/src/reconcile/merge.rs:146-214 | After any lines: one item per record, the earliest among its longest variants with its inherited timestamp, in input order; every line stands or is reported |
| `MergeSpec.TsOrder` | crates/scrollz/src/reconcile/merge.rs:217-217 | Timestamps, missing ones first, are totally ordered |
| `MergeTheorems.MergeFixedPoint` | crates/scrollz/src/reconcile/merge.rs:104-219 | Merging either input, or the result itself, into the result gives the same lines in the same order |
| `MergeTheorems.FixedPoint` | crates/scrollz/src/reconcile/merge.rs:104-219 | So does any further list of lines of the input, in any number and order |
| `MergeTheorems.InheritedAgain` | crates/scrollz/src/reconcile/merge.rs:155-165 | Timestamps inherited anew on the merged order never go back |
| `MergeTheorems.NothingLost` | crates/scrollz/src/reconcile/merge.rs:134-219 | Every input line is in the output or carried whole in a conflict |
| `MergeTheorems.OncePerRecord` | crates/scrollz/src/reconcile/merge.rs:166-206 | Each record is in the output exactly once, as the earliest among its longest variants |
| `MergeTheorems.OutputOrder` | crates/scrollz/src/reconcile/merge.rs:216-219 | The output is input lines of different records, by inherited timestamp and then input order |
| `MergeTheorems.FromInput` | crates/scrollz/src/reconcile/merge.rs:134-219 | Nothing is invented |
| `MergeTheorems.GateAccepts` | crates/scrollz/src/reconcile/merge.rs:19-53 | The gate accepts both inputs of every merge |
| `MergeTheorems.OneOrder` | crates/scrollz/src/reconcile/merge.rs:216-218 | The order leaves one possible output, so the table's own order does not matter |
| `MergeLaws.KeysExactly` | crates/scrollz/src/reconcile/record.rs:36-48 | Two lines are one record if and only if they are equal or parse to the same non-empty uuid |
| `MergeLaws.LexExactly` | crates/scrollz/src/reconcile/merge.rs:217-217 | Timestamps are in byte order: a prefix first, otherwise the first difference decides |
| `MergeLaws.TsAtIsLast` | crates/scrollz/src/reconcile/merge.rs:155-165 | A line is sorted by the timestamp of the last line up to it that parses to one |
| `MergeLaws.OutputExactly` | crates/scrollz/src/reconcile/merge.rs:104-219 | Of both files: only input lines; no two lines equal or with one uuid; of every record a line at least as long as any; so every uuid, and every line without one |
| `MergeLaws.BaseWins` | crates/scrollz/src/reconcile/merge.rs:166-186 | A record of the base is replaced only by a strictly longer line of the incoming file |
| `MergeLaws.NonBlankInOrder` | crates/scrollz/src/reconcile/merge.rs:104-133 | Blank lines go, all others stay in their order |
| `MergeLaws.ConflictsExactly` | crates/scrollz/src/reconcile/merge.rs:166-206 | Reported are exactly the input lines with a uuid that are not in the output, each under the uuid it parses to |
| `MergeLaws.CoveredExactly` | crates/scrollz/src/reconcile/merge.rs:19-53 | The gate's condition by lines: each line of the base has one of its record in the merged file |
| `PieceBytes.ReadsAsLaidOut` | crates/scrollz/src/seal.rs:128-178 | Blocks and tail laid end to end are the file as it reads if and only if every piece fills its place up to the end, equivalently if their lengths add up to the file size |
| `PieceBytes.DenseReads` | crates/scrollz/src/seal.rs:128-178 | Dense pieces end to end are the file |
| `PieceBytes.CutUpIsCut` | crates/scrollz/src/seal.rs:128-178 | Cut pieces are full but the last, and laid end to end are what was cut |
| `PieceBytes.CutUpFront` | crates/scrollz/src/seal.rs:149-153 | Full pieces taken from the front are the first of the cut, so that cutting through a buffer is cutting the whole |
| `Rechunk.Drain` | crates/scrollz/src/seal.rs:149-153 | The inner loop emits full blocks and keeps less than one, losing no byte; called with less than one block and one input piece in the buffer, which bounds it; it fails only when the blocks already exceed the largest file |
| `Rechunk.SealBlocks` | crates/scrollz/src/seal.rs:140-153 | Every block through the buffer: afterwards all of them have been read and decoded and only full blocks were written; it fails only on a block that does not read or on output past the largest file |
| `Rechunk.OpenedExactly` | crates/scrollz/src/archive/reader.rs:38-60 | A file is an archive if and only if it starts with magic and version and one of its slots is good |
| `Rechunk.SealFile` | crates/scrollz/src/seal.rs:116-178 | For every target: skipped exactly when not an archive, or already at the target with no tail. Otherwise rewritten exactly when every block reads and decodes and the output fits in a file: it holds the blocks and tail end to end in blocks of the larger size, all full but the last, compressed, and has exactly that length. The output reads if and only if each of these blocks is at most the decompression cap or stored as it is |
| `Rechunk.SealDenseFile` | crates/scrollz/src/seal.rs:116-178 | End to end: a dense readable archive, not sealed yet, whose output fits is rewritten with the same size. The new file reads if and only if no block above the cap was worth compressing, always for a target or a file within the cap, and then has the same bytes |
| `Rechunk.SealedReads` | crates/scrollz/src/seal.rs:116-178 | A sealed file reads if and only if all its blocks are decodable, and then its pieces are those it was cut into |
| `Rechunk.SmallIsDecodable` | crates/scrollz/src/seal.rs:116-178 | A target within the cap, or a file no longer than it, leaves no undecodable block |
| `Rechunk.SealPreserves` | crates/scrollz/src/seal.rs:116-178 | A sealed file that reads is the blocks and tail end to end, so that it reads as the original did if and only if the original reads so; among archives whose pieces keep within their places that is exactly the dense ones, which are also exactly those that keep their size |
| `Rechunk.SealTwice` | crates/scrollz/src/seal.rs:128-136 | Skipped if and only if the chunk size is at least the target and there is no tail; a readable archive with a tail whose output fits is rewritten at every target; the output has no tail and the larger chunk size, and is skipped at the same target |
| `Rechunk.CompactFile` | crates/scrollz/src/compact.rs:83-139 | Failed exactly when a block's checksum disagrees or the output fits in no file; rewritten exactly when neither holds and the output is shorter; skipped otherwise. The output has the same stored blocks and the compressed tail as one more block, and exactly the stated length. It reads if and only if the original does and the tail is at most the decompression cap or stored as it is |
| `Rechunk.CompactWholeFile` | crates/scrollz/src/compact.rs:83-147 | End to end: an archive whose blocks check, whose tail ends where the file does and which has something to reclaim is rewritten shorter, with the same size; it reads if and only if the original did and the tail is decodable, and with such a tail has the same bytes |
| `Rechunk.CompactedReads` | crates/scrollz/src/compact.rs:83-147 | A compacted file reads if and only if the original does and the tail is decodable; with such a tail its pieces are the original's |
| `Rechunk.CompactPreserves` | crates/scrollz/src/compact.rs:83-147 | The compacted file has the original's size if and only if the tail ends where the file does, and with a decodable tail reads as the original did exactly then |
| `DecodeCap.ZeroRunFaithful` | crates/scrollz/src/core/codec.rs:316-331 | There is a faithful compressor with such blocks: one that has a byte for a run of zeros |
| `DecodeCap.StoreUnreadable` | crates/scrollz/src/core/rmw.rs:78-100 | Any block the codec does not give back, of a file of any chunk size that has room for it, is stored all the same and does not decode: `RoundTrips` is what the chunk size has to meet |
| `DecodeCap.SealUnreadable` | crates/scrollz/src/seal.rs:116-178 | A dense archive that reads, two blocks at the cap or below, sealed with a target above it: rewritten, and the new file does not read |
| `DecodeCap.SealZeros` | crates/scrollz/src/seal.rs:116-178 | The same with that compressor and 256 MiB + 1 zeros |
| `DecodeCap.CompactUnreadable` | crates/scrollz/src/compact.rs:83-139 | A tail above the cap, appended, committed and reading as it is, compacted: rewritten, and the new file does not read |
| `DecodeCap.CompactZeros` | crates/scrollz/src/compact.rs:83-139 | The same with that compressor and 256 MiB + 1 zeros |
| `RechunkLimits.WriteShortBlock` | crates/scrollz/src/core/rmw.rs:156-242 | Two writes leave a file with a short block inside it: [7] and [8, 9] in chunks of two, reading 7 0 8 9 |
| `RechunkLimits.SealLosesAPlace` | crates/scrollz/src/seal.rs:144-153 | The archive of that file, sealed, reads 7 8 9 |
| `RechunkLimits.ExtendCommitted` | crates/scrollz/src/archive/updater.rs:282-361 | An opened archive whose size is set past its blocks by `truncate` and committed: same blocks, the new size, and the old index left behind as a hole |
| `RechunkLimits.CompactLosesTheEnd` | crates/scrollz/src/compact.rs:83-147 | Such an archive, reading 7 8 0 0 0, compacted, reads 7 8 |

## Left out

- BlockIo.FaultIo.Write: `tear_write_in` (a prefix is written, success is reported) is covered in the crash image, as a power loss cutting the write; that the running process then reads the cut bytes too is left out.
- BlockIo.FaultIo.SyncAll: barriers that report success and make nothing durable (`soften_syncs`) are left out: the guarantees are those of a device that keeps its barriers.
- `set_len`, `history` and the file-backed `BlockIo`: not used by the protocol.
- Opening by path, temp-file names, rename, directory fsync, restored timestamps, directory walks and statistics of seal and compact: I/O around the modelled rewriting.
- zstd, dictionaries and long-distance matching: the compressor is a parameter. Levels and windows do not appear.
- The shadow and container stores are not part of this model; the store is its trait contract. What a journaling backend shows for the tail's own block between `append_tail` and the seal is left open, and nothing is claimed about how a reopened backend reassembles block and journal.
- Store I/O failures inside the write session, and unlink, rename and forget racing with other handlers on an inode's state: outside the stated refinements.
- Rmw.StorePlainBlock: does not build the head cache that the code makes with block 0; in the archive model the head cache is carried as bytes.
- Rmw.SealPlainBlock: the same.
- ReadPath.ReadRange: the head-cache fast path is taken as absent: `read_head_cache` returns none, its trait default.
- ReadPath.WriteLocked: requires that an append with the buffer on ends below 2^64, as `WriteAt` of the session does.
- 64-bit overflow of block ends past 2^64 in the read and write paths, and of sequence numbers: sizes there are unbounded numbers, and a commit requires a next sequence number to exist.
- The operating system's time and memory probe: a probe's answer, or that none is due, is a parameter of `Insert`.
- Advisory parts of the merge (decision, evidence, counts of truncated lines): they do not influence the lines. Splitting text into lines and parsing JSON are parameters; a conflict is a uuid and a line, not the rendered message.
- FUSE callbacks, attributes, kernel cache notification, metrics, names, configuration and the command line: plumbing.
- Rmw.WriteAt: for a chunk size above the decompression cap only under `RoundTrips`, which such a chunk size meets exactly if nothing above the cap is worth compressing; otherwise a block stored there need not decode (`StoreUnreadable`), and what later writes make of such a file is left out.
- Rmw.Truncate: the same.
- LogFiles.ReadLog: the same.
- Session.WriteSession.WriteAt: requires that an append with the buffer on ends below 2^64; the code adds there without a check, and file offsets from the kernel are below 2^63.
- SessionRuns.RunAll: the same condition for every append of the run.
- InodeLocks.RunInv: models a handler's store access as one step per block and a mutation as one step; the lock rules make finer steps unobservable.
- Writer.ArchiveWriter.AppendBlock: the size adds modulo 2^64, as release builds do; a debug build would stop there.
- Merging.SessionMerge: line lengths and timestamp order are of bytes, as the code's are; blank lines are dropped by a predicate parameter.
