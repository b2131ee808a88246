/** The updater object: its methods change the fields and the device step by step, and each is the
    corresponding operation of UpdaterSpec (archive/updater.rs). */
module ArchiveUpdaters {
  import opened Bytes
  import opened Layout
  import opened Superblock
  import opened Journal
  import opened Reader
  import opened BlockIo
  import S = UpdaterSpec

  class ArchiveUpdater {
    const crc: Crc
    const io: FaultIo
    var chunkSize: u32
    var index: seq<ChunkEntry>
    var uncompressedSize: u64
    var writeCursor: nat
    var headCache: Option<Head>
    var activeSeq: u64
    var inactiveOff: nat
    var committedIndex: S.IndexDesc
    var committedHead: Option<HeadCache>
    var journalOffset: Option<u64>
    var journalLen: u64
    var indexDirty: bool

    function Fields(): S.Updater
      reads this
    {
      S.Updater(chunkSize, index, uncompressedSize, writeCursor, headCache, activeSeq, inactiveOff,
                committedIndex, committedHead, journalOffset, journalLen, indexDirty)
    }

    function State(): S.Arch
      reads this, io
    {
      S.Arch(io.State(), Fields())
    }

    constructor (crc: Crc, io: FaultIo, sb: SuperBlock, activeOff: nat, loadedIndex: seq<ChunkEntry>,
                 head: Option<Head>, eof: nat)
      ensures this.crc == crc && this.io == io
      ensures Fields() == S.Updater(
        sb.chunkSize, loadedIndex, sb.uncompressedSize, eof, head, sb.seqno, OtherSlot(activeOff),
        S.IndexDesc(sb.indexOffset, sb.indexLen, sb.indexCrc), sb.headCache,
        if sb.tailJournalLen > 0 then Some(sb.tailJournalOffset) else None, sb.tailJournalLen, false)
    {
      this.crc, this.io := crc, io;
      chunkSize, index, uncompressedSize, writeCursor := sb.chunkSize, loadedIndex, sb.uncompressedSize, eof;
      headCache, activeSeq := head, sb.seqno;
      inactiveOff := if activeOff == SB_A_OFFSET then SB_B_OFFSET else SB_A_OFFSET;
      committedIndex, committedHead := S.IndexDesc(sb.indexOffset, sb.indexLen, sb.indexCrc), sb.headCache;
      journalOffset := if sb.tailJournalLen > 0 then Some(sb.tailJournalOffset) else None;
      journalLen, indexDirty := sb.tailJournalLen, false;
    }

    /** `from_io`. */
    static method FromIo(crc: Crc, io: FaultIo) returns (r: Option<ArchiveUpdater>)
      ensures r.Some? <==> S.Open(crc, io.State()).Some?
      ensures r.Some? ==> r.value.crc == crc && r.value.io == io && fresh(r.value)
      ensures r.Some? ==> Some(r.value.Fields()) == S.Open(crc, io.State())
    {
      var totalLen := io.Len();
      if totalLen < DATA_START {
        return None;
      }
      var img := io.ReadView();
      if img[..8] != MAGIC || GetU32(img, 8) != VERSION {
        return None;
      }
      var act := LoadActive(crc, img);
      if act.None? {
        return None;
      }
      var sb := act.value.sb;
      var head := HeadOf(img, sb.indexOffset, sb.headCache);
      var up := new ArchiveUpdater(crc, io, sb, act.value.slot, act.value.loaded.index, head, totalLen);
      r := Some(up);
    }

    method AppendJournal(rawDelta: seq<byte>) returns (ok: bool)
      requires S.JournalFieldsOk(Fields()) && writeCursor <= MAX_FILE_LEN
      modifies this, io
      ensures S.Outcome(State(), ok) == S.AppendJournal(crc, old(State()), rawDelta)
    {
      if journalOffset.Some? {
        var committedEnd := journalOffset.value + journalLen;
        if writeCursor != committedEnd {
          var committed := io.Read(journalOffset.value, journalLen);
          if committed.None? {
            return false;
          }
          var newStart := writeCursor;
          ok := io.Write(newStart, committed.value);
          if !ok {
            return;
          }
          writeCursor := writeCursor + |committed.value|;
          journalOffset := Some(newStart);
        }
      }
      assert S.Outcome(State(), true) == S.RelocateJournal(old(State()));
      var rec := SerializeJournalRecord(crc, rawDelta);
      if journalOffset.None? {
        journalOffset := Some(writeCursor);
      }
      ok := io.Write(writeCursor, rec);
      if !ok {
        return;
      }
      writeCursor := writeCursor + |rec|;
      journalLen := journalLen + |rec|;
    }

    method ResetJournal()
      modifies this
      ensures Fields() == S.ResetJournal(old(Fields()))
    {
      journalOffset, journalLen := None, 0;
    }

    method SetSize(newSize: u64)
      modifies this
      ensures Fields() == old(Fields()).(uncompressedSize := newSize)
    {
      uncompressedSize := newSize;
    }

    method SetHeadCache(stored: seq<byte>, verbatim: bool, rawLen: u64)
      modifies this
      ensures Fields() == S.SetHeadCache(old(Fields()), Head(stored, verbatim, rawLen))
    {
      headCache := Some(Head(stored, verbatim, rawLen));
    }

    method ClearHeadCache()
      modifies this
      ensures Fields() == S.ClearHeadCache(old(Fields()))
    {
      headCache, committedHead := None, None;
    }

    /** Append at the cursor. */
    method PutData(bytes: seq<byte>) returns (ok: bool)
      modifies this`writeCursor, io
      ensures S.Outcome(State(), ok) == S.PutData(old(State()), bytes)
    {
      ok := io.Write(writeCursor, bytes);
      if ok {
        writeCursor := writeCursor + |bytes|;
      }
    }

    /** The gap loop of `set_block`. */
    method FillGap(idx: nat) returns (ok: bool)
      modifies this`writeCursor, this`index, io
      ensures S.Outcome(State(), ok) == S.FillGap(crc, old(State()), idx)
    {
      var zeros := Zeros(chunkSize);
      ok := true;
      while |index| < idx
        invariant ok
        invariant S.FillGap(crc, State(), idx) == S.FillGap(crc, old(State()), idx)
        invariant chunkSize == old(chunkSize)
        decreases idx - |index|
      {
        var offset := writeCursor;
        ok := PutData(zeros);
        if !ok {
          return;
        }
        index := index + [S.EntryFor(crc, offset, zeros, true)];
      }
    }

    method SetBlock(idx: nat, stored: seq<byte>, verbatim: bool, newSize: u64) returns (ok: bool)
      modifies this, io
      ensures S.Outcome(State(), ok) == S.SetBlock(crc, old(State()), idx, stored, verbatim, newSize)
    {
      ok := FillGap(idx);
      if !ok {
        return;
      }
      var offset := writeCursor;
      ok := PutData(stored);
      if !ok {
        return;
      }
      var entry := S.EntryFor(crc, offset, stored, verbatim);
      if idx == |index| {
        index := index + [entry];
      } else {
        index := index[idx := entry];
      }
      uncompressedSize := newSize;
      indexDirty := true;
    }

    method Truncate(keepFrom: nat, newSize: u64)
      modifies this
      ensures Fields() == S.Truncate(old(Fields()), keepFrom, newSize)
    {
      if keepFrom < |index| {
        index := index[..keepFrom];
      }
      uncompressedSize := newSize;
      indexDirty := true;
      var rawlen := if headCache.Some? then headCache.value.rawlen
                    else if committedHead.Some? then committedHead.value.rawlen else 0;
      if rawlen > 0 && newSize < rawlen {
        headCache, committedHead := None, None;
      }
    }

    /** Barrier 1, the inactive slot, barrier 2. */
    method Publish(sb: SuperBlock) returns (ok: bool)
      modifies io
      ensures S.Outcome(State(), ok) == S.Publish(crc, old(State()), sb)
    {
      ok := io.SyncAll();
      if !ok {
        return;
      }
      ok := io.Write(inactiveOff, SerializeSuperblock(crc, sb));
      if !ok {
        return;
      }
      ok := io.SyncAll();
    }

    method CommitJournal() returns (ok: bool)
      requires activeSeq + 1 < U64_LIMIT
      modifies this, io
      ensures S.Outcome(State(), ok) == S.CommitJournal(crc, old(State()))
    {
      var newSeq := activeSeq + 1;
      var sb := SuperBlock(newSeq, chunkSize, uncompressedSize, |index| % U64_LIMIT,
                           committedIndex.offset, committedIndex.len, committedIndex.crc,
                           if journalOffset.Some? then journalOffset.value else 0, journalLen, committedHead);
      assert sb == S.SbFor(Fields(), |index| % U64_LIMIT, committedIndex, committedHead);
      ok := Publish(sb);
      assert S.Outcome(State(), ok) == S.Publish(crc, old(State()), sb);
      if !ok {
        return;
      }
      FlipActive(newSeq);
    }

    method FlipActive(newSeq: u64)
      modifies this
      ensures Fields() == S.FlipActive(old(Fields()), newSeq)
    {
      activeSeq := newSeq;
      inactiveOff := if inactiveOff == SB_A_OFFSET then SB_B_OFFSET else SB_A_OFFSET;
    }

    method PutHead() returns (ok: bool, head: Option<HeadCache>)
      requires writeCursor <= MAX_FILE_LEN
      modifies this`writeCursor, io
      ensures S.Outcome(State(), ok) == S.PutHead(old(State()))
      ensures ok ==> head == S.HeadDesc(old(State()))
    {
      head, ok := None, true;
      if headCache.Some? {
        var h := headCache.value;
        var offset := writeCursor;
        ok := PutData(h.stored);
        if ok {
          head := Some(HeadCache(offset, |h.stored|, h.rawlen, h.verbatim));
        }
      }
    }

    /** Everything of a commit that precedes barrier 1. */
    method PutIndex() returns (ok: bool, desc: S.IndexDesc, head: Option<HeadCache>)
      requires writeCursor <= MAX_FILE_LEN
      modifies this`writeCursor, io
      ensures S.Outcome(State(), ok) == S.PutIndex(old(State()))
      ensures ok ==> head == S.HeadDesc(old(State())) && desc == S.NewIndexDesc(crc, old(State()))
    {
      desc := S.IndexDesc(0, 0, 0);
      ok, head := PutHead();
      if !ok {
        return;
      }
      var indexOffset := writeCursor;
      var indexBytes := SerializeIndex(index);
      ok := PutData(indexBytes);
      if ok {
        desc := S.IndexDesc(indexOffset, |indexBytes|, crc(indexBytes));
      }
    }

    method Commit() returns (ok: bool)
      requires activeSeq + 1 < U64_LIMIT && writeCursor <= MAX_FILE_LEN
      modifies this, io
      ensures S.Outcome(State(), ok) == S.Commit(crc, old(State()))
    {
      var desc, head;
      ok, desc, head := PutIndex();
      if !ok {
        return;
      }
      var newSeq := activeSeq + 1;
      var sb := SuperBlock(newSeq, chunkSize, uncompressedSize, |index|, desc.offset, desc.len, desc.crc,
                           if journalOffset.Some? then journalOffset.value else 0, journalLen, head);
      assert sb == S.CommitSb(crc, old(State()));
      ghost var staged := State();
      ok := Publish(sb);
      assert S.Outcome(State(), ok) == S.Publish(crc, staged, sb);
      if !ok {
        return;
      }
      FinishCommit(desc, head, newSeq);
    }

    method FinishCommit(desc: S.IndexDesc, head: Option<HeadCache>, newSeq: u64)
      modifies this
      ensures Fields() == S.FinishCommit(old(Fields()), desc, head, newSeq)
    {
      committedIndex := desc;
      committedHead := head;
      indexDirty := false;
      FlipActive(newSeq);
    }

    method SyncAll() returns (ok: bool)
      modifies io
      ensures S.Outcome(State(), ok) == S.SyncDev(old(State()))
    {
      ok := io.SyncAll();
    }
  }
}
