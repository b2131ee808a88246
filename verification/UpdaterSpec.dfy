/** The append-only updater as a state machine: each operation a function from the device and the
    in-memory fields to their new values (archive/updater.rs). */
module UpdaterSpec {
  import opened Bytes
  import opened Layout
  import opened Superblock
  import opened Journal
  import opened Reader
  import opened BlockIo

  datatype IndexDesc = IndexDesc(offset: u64, len: u64, crc: u32)

  datatype Updater = Updater(
    chunkSize: u32,
    index: seq<ChunkEntry>,
    uncompressedSize: u64,
    writeCursor: nat,
    headCache: Option<Head>,
    activeSeq: u64,
    inactiveOff: nat,
    committedIndex: IndexDesc,
    committedHead: Option<HeadCache>,
    journalOffset: Option<u64>,
    journalLen: u64,
    indexDirty: bool)

  datatype Arch = Arch(dev: FaultState, up: Updater)
  datatype Outcome = Outcome(s: Arch, ok: bool)

  /** `from_io` on what the device shows now. */
  function Open(crc: Crc, dev: FaultState): Option<Updater> {
    var img := View(dev);
    if !HeaderOk(img) then None
    else
      match LoadActiveSpec(crc, img)
      case None => None
      case Some(act) =>
        var sb := act.sb;
        Some(Updater(
          sb.chunkSize, act.loaded.index, sb.uncompressedSize, |img|, HeadOf(img, sb.indexOffset, sb.headCache),
          sb.seqno, OtherSlot(act.slot), IndexDesc(sb.indexOffset, sb.indexLen, sb.indexCrc), sb.headCache,
          if sb.tailJournalLen > 0 then Some(sb.tailJournalOffset) else None, sb.tailJournalLen, false))
  }

  /** Append at the write cursor, which advances only when the write succeeds. */
  function PutData(s: Arch, bytes: seq<byte>): (r: Outcome)
    ensures r.ok ==> r.s.up.writeCursor == s.up.writeCursor + |bytes| <= MAX_FILE_LEN
  {
    var w := WriteAt(s.dev, s.up.writeCursor, bytes);
    if w.ok then Outcome(Arch(w.dev, s.up.(writeCursor := s.up.writeCursor + |bytes|)), true)
    else Outcome(Arch(w.dev, s.up), false)
  }

  function SyncDev(s: Arch): Outcome {
    var w := Sync(s.dev);
    Outcome(s.(dev := w.dev), w.ok)
  }

  function PutSlot(crc: Crc, s: Arch, sb: SuperBlock): Outcome {
    var w := WriteAt(s.dev, s.up.inactiveOff, SerializeSuperblock(crc, sb));
    Outcome(s.(dev := w.dev), w.ok)
  }

  function FlipActive(up: Updater, newSeq: u64): Updater {
    up.(activeSeq := newSeq, inactiveOff := OtherSlot(up.inactiveOff))
  }

  function EntryFor(crc: Crc, offset: u64, stored: seq<byte>, verbatim: bool): ChunkEntry
    requires |stored| < U64_LIMIT
  {
    ChunkEntry(offset, |stored|, if verbatim then FLAG_VERBATIM else 0, crc(stored))
  }

  /** The gap loop of `set_block`: zero blocks until block `idx` is next. A failed write leaves the entries
      already pushed. */
  function FillGap(crc: Crc, s: Arch, idx: nat): (r: Outcome)
    ensures r.ok ==> |r.s.up.index| >= idx
    decreases idx - |s.up.index|
  {
    if |s.up.index| >= idx then Outcome(s, true)
    else
      var zeros := Zeros(s.up.chunkSize);
      var w := PutData(s, zeros);
      if !w.ok then w
      else
        var e := EntryFor(crc, s.up.writeCursor, zeros, true);
        FillGap(crc, w.s.(up := w.s.up.(index := w.s.up.index + [e])), idx)
  }

  function SetBlock(crc: Crc, s: Arch, idx: nat, stored: seq<byte>, verbatim: bool, newSize: u64): Outcome {
    var g := FillGap(crc, s, idx);
    if !g.ok then g
    else
      var w := PutData(g.s, stored);
      if !w.ok then w
      else
        var e := EntryFor(crc, g.s.up.writeCursor, stored, verbatim);
        var up := w.s.up;
        var index := if idx == |up.index| then up.index + [e] else up.index[idx := e];
        Outcome(w.s.(up := up.(index := index, uncompressedSize := newSize, indexDirty := true)), true)
  }

  function Truncate(up: Updater, keepFrom: nat, newSize: u64): Updater {
    var index := if keepFrom < |up.index| then up.index[..keepFrom] else up.index;
    var rawlen := if up.headCache.Some? then up.headCache.value.rawlen
                  else if up.committedHead.Some? then up.committedHead.value.rawlen else 0;
    var up := up.(index := index, uncompressedSize := newSize, indexDirty := true);
    if rawlen > 0 && newSize < rawlen then up.(headCache := None, committedHead := None) else up
  }

  /** The journal copy that keeps the region contiguous with the cursor. */
  function RelocateJournal(s: Arch): Outcome {
    if s.up.journalOffset.None? || s.up.writeCursor == s.up.journalOffset.value + s.up.journalLen then Outcome(s, true)
    else
      match ReadExact(View(s.dev), s.up.journalOffset.value, s.up.journalLen)
      case None => Outcome(s, false)
      case Some(committed) =>
        var w := PutData(s, committed);
        if !w.ok then w
        else Outcome(w.s.(up := w.s.up.(journalOffset := Some(s.up.writeCursor))), true)
  }

  ghost predicate JournalFieldsOk(up: Updater) {
    up.journalOffset.None? ==> up.journalLen == 0
  }

  /** The first record of a region fixes where the region starts. */
  function StartJournal(up: Updater): Updater
    requires up.writeCursor <= MAX_FILE_LEN
  {
    if up.journalOffset.None? then up.(journalOffset := Some(up.writeCursor)) else up
  }

  function PutRecord(crc: Crc, s: Arch, delta: seq<byte>): Outcome
    requires s.up.journalLen <= s.up.writeCursor
  {
    var rec := SerializeJournalRecord(crc, delta);
    var w := PutData(s, rec);
    if !w.ok then w
    else Outcome(w.s.(up := w.s.up.(journalLen := w.s.up.journalLen + |rec|)), true)
  }

  function AppendJournal(crc: Crc, s: Arch, delta: seq<byte>): Outcome
    requires JournalFieldsOk(s.up) && s.up.writeCursor <= MAX_FILE_LEN
  {
    var r := RelocateJournal(s);
    if !r.ok then r else PutRecord(crc, r.s.(up := StartJournal(r.s.up)), delta)
  }

  function ResetJournal(up: Updater): Updater {
    up.(journalOffset := None, journalLen := 0)
  }

  function SetHeadCache(up: Updater, head: Head): Updater {
    up.(headCache := Some(head))
  }

  function ClearHeadCache(up: Updater): Updater {
    up.(headCache := None, committedHead := None)
  }

  function SbFor(up: Updater, count: u64, desc: IndexDesc, head: Option<HeadCache>): SuperBlock
    requires up.activeSeq + 1 < U64_LIMIT
  {
    SuperBlock(up.activeSeq + 1, up.chunkSize, up.uncompressedSize, count, desc.offset, desc.len, desc.crc,
               if up.journalOffset.Some? then up.journalOffset.value else 0, up.journalLen, head)
  }

  /** Barrier, slot write, barrier: the shared end of both commits. */
  function Publish(crc: Crc, s: Arch, sb: SuperBlock): Outcome {
    var b1 := SyncDev(s);
    if !b1.ok then b1
    else
      var w := PutSlot(crc, b1.s, sb);
      if !w.ok then w else SyncDev(w.s)
  }

  function CommitJournal(crc: Crc, s: Arch): Outcome
    requires s.up.activeSeq + 1 < U64_LIMIT
  {
    var sb := SbFor(s.up, |s.up.index| % U64_LIMIT, s.up.committedIndex, s.up.committedHead);
    var p := Publish(crc, s, sb);
    if !p.ok then p else Outcome(p.s.(up := FlipActive(p.s.up, sb.seqno)), true)
  }

  /** Head cache then index, appended at the cursor. */
  function PutHead(s: Arch): Outcome {
    if s.up.headCache.None? then Outcome(s, true) else PutData(s, s.up.headCache.value.stored)
  }

  function HeadDesc(s: Arch): Option<HeadCache>
    requires PutHead(s).ok && s.up.writeCursor <= MAX_FILE_LEN
  {
    if s.up.headCache.None? then None
    else
      var h := s.up.headCache.value;
      Some(HeadCache(s.up.writeCursor, |h.stored|, h.rawlen, h.verbatim))
  }

  /** Head cache and new index appended: everything of a commit that precedes barrier 1. */
  function PutIndex(s: Arch): Outcome {
    var h := PutHead(s);
    if !h.ok then h else PutData(h.s, IndexBytes(s.up.index))
  }

  function NewIndexDesc(crc: Crc, s: Arch): IndexDesc
    requires PutIndex(s).ok && s.up.writeCursor <= MAX_FILE_LEN
  {
    var bytes := IndexBytes(s.up.index);
    IndexDesc(PutHead(s).s.up.writeCursor, |bytes|, crc(bytes))
  }

  function CommitSb(crc: Crc, s: Arch): SuperBlock
    requires PutIndex(s).ok && s.up.writeCursor <= MAX_FILE_LEN && s.up.activeSeq + 1 < U64_LIMIT
  {
    SbFor(s.up, |s.up.index|, NewIndexDesc(crc, s), HeadDesc(s))
  }

  function FinishCommit(up: Updater, desc: IndexDesc, head: Option<HeadCache>, newSeq: u64): Updater {
    FlipActive(up.(committedIndex := desc, committedHead := head, indexDirty := false), newSeq)
  }

  function Commit(crc: Crc, s: Arch): Outcome
    requires s.up.activeSeq + 1 < U64_LIMIT && s.up.writeCursor <= MAX_FILE_LEN
  {
    var i := PutIndex(s);
    if !i.ok then i
    else
      var sb := CommitSb(crc, s);
      var p := Publish(crc, i.s, sb);
      if !p.ok then p
      else Outcome(p.s.(up := FinishCommit(p.s.up, NewIndexDesc(crc, s), HeadDesc(s), sb.seqno)), true)
  }
}
