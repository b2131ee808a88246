/** The updater's fields and the bytes it can see denote a draft version, and every operation changes
    the draft the way VersionSpec says. */
module Denotation {
  import opened Bytes
  import opened Layout
  import opened Superblock
  import opened Journal
  import opened Reader
  import opened BlockIo
  import opened VersionSpec
  import opened UpdaterSpec

  /** The committed index descriptor still loads, and names a prefix of the in-memory index. */
  ghost predicate CommittedIndexOk(crc: Crc, img: seq<byte>, up: Updater) {
    var ci := up.committedIndex;
    && ci.len % INDEX_ENTRY_LEN == 0
    && var r := LoadIndex(crc, img, ci.len / INDEX_ENTRY_LEN, ci.offset, ci.len, ci.crc);
    && r.Some? && |r.value| <= |up.index| && r.value == up.index[..|r.value|]
  }

  ghost predicate JournalDenotes(crc: Crc, img: seq<byte>, up: Updater, tail: Option<seq<byte>>) {
    && (up.journalOffset.Some? ==> DATA_START <= up.journalOffset.value <= |img|)
    && JournalFieldsOk(up)
    && LoadTail(crc, img, if up.journalOffset.Some? then up.journalOffset.value else 0, up.journalLen) == Some(tail)
  }

  ghost predicate Denotes(crc: Crc, img: seq<byte>, up: Updater, d: Draft) {
    var v := d.version;
    && DATA_START <= |img| == up.writeCursor <= MAX_FILE_LEN
    && IsSlot(up.inactiveOff)
    && up.chunkSize == v.chunkSize && up.chunkSize != 0 && up.uncompressedSize == v.size
    && IndexInData(up.index, |img|) && BlocksOf(img, up.index) == v.blocks
    && JournalDenotes(crc, img, up, v.tail)
    && up.headCache == v.head
    && up.committedIndex.offset <= |img| && HeadRepresentable(up.committedHead)
    && d.carried == HeadOf(img, up.committedIndex.offset, up.committedHead)
    && (!up.indexDirty ==> CommittedIndexOk(crc, img, up))
  }

  lemma CursorAtEnd(crc: Crc, img: seq<byte>, up: Updater, d: Draft)
    requires Denotes(crc, img, up, d)
    ensures DATA_START <= |img| == up.writeCursor <= MAX_FILE_LEN && IsSlot(up.inactiveOff) && JournalFieldsOk(up)
  {
  }

  /** The fields of an updater that an append touches only through the cursor. */
  lemma DenotesGrown(crc: Crc, img: seq<byte>, img2: seq<byte>, up: Updater, d: Draft)
    requires Denotes(crc, img, up, d) && Extends(img, img2) && |img2| <= MAX_FILE_LEN
    ensures Denotes(crc, img2, up.(writeCursor := |img2|), d)
  {
    var off := if up.journalOffset.Some? then up.journalOffset.value else 0;
    BlocksFrame(img, img2, up.index);
    LoadTailFrame(crc, img, img2, off, up.journalLen);
    HeadFrame(img, img2, up.committedIndex.offset, up.committedHead);
    if !up.indexDirty {
      var ci := up.committedIndex;
      LoadIndexFrame(crc, img, img2, ci.len / INDEX_ENTRY_LEN, ci.offset, ci.len, ci.crc);
    }
  }

  /** Opening denotes the version read back, with its own head cache carried along. */
  lemma OpenDenotes(crc: Crc, dev: FaultState)
    requires Open(crc, dev).Some? && |View(dev)| <= MAX_FILE_LEN
    ensures Recovered(crc, View(dev)).Some?
    ensures var v := Recovered(crc, View(dev)).value;
      Denotes(crc, View(dev), Open(crc, dev).value, Draft(v, v.head))
  {
    var img := View(dev);
    var act := LoadActiveSpec(crc, img).value;
    LoadedInData(crc, img, act.sb);
    ParsedHead(crc, img[act.slot..act.slot + SB_LEN]);
    assert act.sb.indexLen == act.sb.chunkCount * INDEX_ENTRY_LEN;
    assert act.loaded.index[..|act.loaded.index|] == act.loaded.index;
  }

  /** The entry of a block just appended. */
  lemma AppendedBlock(crc: Crc, img: seq<byte>, stored: seq<byte>, verbatim: bool)
    requires DATA_START <= |img| && |img| + |stored| <= MAX_FILE_LEN
    ensures var e := EntryFor(crc, |img|, stored, verbatim);
      && EntryInData(e, |img + stored|)
      && BlockOf(img + stored, e) == Block(stored, if verbatim then FLAG_VERBATIM else 0, crc(stored))
  {
    assert (img + stored)[|img|..|img| + |stored|] == stored;
  }

  lemma IndexPushed(img: seq<byte>, index: seq<ChunkEntry>, e: ChunkEntry)
    requires IndexInData(index, |img|) && EntryInData(e, |img|)
    ensures IndexInData(index + [e], |img|)
    ensures BlocksOf(img, index + [e]) == BlocksOf(img, index) + [BlockOf(img, e)]
  {
  }

  lemma IndexReplaced(img: seq<byte>, index: seq<ChunkEntry>, i: nat, e: ChunkEntry)
    requires IndexInData(index, |img|) && EntryInData(e, |img|) && i < |index|
    ensures IndexInData(index[i := e], |img|)
    ensures BlocksOf(img, index[i := e]) == BlocksOf(img, index)[i := BlockOf(img, e)]
  {
  }

  /** One step of the gap loop. */
  lemma GapStep(crc: Crc, img: seq<byte>, up: Updater, d: Draft)
    requires Denotes(crc, img, up, d) && |img| + up.chunkSize <= MAX_FILE_LEN
    ensures var zeros := Zeros(up.chunkSize);
      var e := EntryFor(crc, up.writeCursor, zeros, true);
      var n := |d.version.blocks| + 1;
      Denotes(crc, img + zeros, up.(writeCursor := |img + zeros|, index := up.index + [e]),
              d.(version := PadTo(crc, d.version, n)))
  {
    var zeros := Zeros(up.chunkSize);
    var img2 := img + zeros;
    var e := EntryFor(crc, up.writeCursor, zeros, true);
    DenotesGrown(crc, img, img2, up, d);
    AppendedBlock(crc, img, zeros, true);
    IndexPushed(img2, up.index, e);
    var n := |d.version.blocks| + 1;
    var padded := seq(n - |d.version.blocks|, _ => ZeroBlock(crc, d.version.chunkSize));
    assert padded == [ZeroBlock(crc, d.version.chunkSize)];
    assert PadTo(crc, d.version, n).blocks == d.version.blocks + padded;
    if !up.indexDirty {
      var ci := up.committedIndex;
      var r := LoadIndex(crc, img2, ci.len / INDEX_ENTRY_LEN, ci.offset, ci.len, ci.crc);
      assert (up.index + [e])[..|r.value|] == up.index[..|r.value|];
    }
  }

  /** A block stored at `idx`, its bytes just appended. */
  lemma BlockStored(crc: Crc, img: seq<byte>, up: Updater, d: Draft, idx: nat, stored: seq<byte>, verbatim: bool,
      newSize: u64)
    requires Denotes(crc, img, up, d) && |img| + |stored| <= MAX_FILE_LEN && idx <= |up.index|
    ensures var e := EntryFor(crc, up.writeCursor, stored, verbatim);
      var index := if idx == |up.index| then up.index + [e] else up.index[idx := e];
      Denotes(crc, img + stored,
              up.(writeCursor := |img + stored|, index := index, uncompressedSize := newSize, indexDirty := true),
              d.(version := WithBlock(crc, d.version, idx, stored, verbatim, newSize)))
  {
    var img2 := img + stored;
    var e := EntryFor(crc, up.writeCursor, stored, verbatim);
    DenotesGrown(crc, img, img2, up, d);
    AppendedBlock(crc, img, stored, verbatim);
    if idx == |up.index| {
      IndexPushed(img2, up.index, e);
    } else {
      IndexReplaced(img2, up.index, idx, e);
    }
  }

  lemma TruncateDenotes(crc: Crc, img: seq<byte>, up: Updater, d: Draft, keepFrom: nat, newSize: u64)
    requires Denotes(crc, img, up, d)
    ensures Denotes(crc, img, Truncate(up, keepFrom, newSize), Truncated(d, keepFrom, newSize))
  {
    hide LoadTail, LoadIndex, ReadHead;
    var index := if keepFrom < |up.index| then up.index[..keepFrom] else up.index;
    assert IndexInData(index, |img|);
    assert BlocksOf(img, index) == if keepFrom < |up.index| then d.version.blocks[..keepFrom] else d.version.blocks;
    assert up.committedHead.None? ==> d.carried.None?;
    assert d.carried.Some? ==> d.carried.value.rawlen == up.committedHead.value.rawlen;
  }

  /** The committed journal bytes copied to the end of the file denote the same tail. */
  lemma RelocatedDenotes(crc: Crc, img: seq<byte>, up: Updater, d: Draft)
    requires Denotes(crc, img, up, d) && up.journalOffset.Some?
    requires |img| + up.journalLen <= MAX_FILE_LEN
    requires up.journalOffset.value + up.journalLen <= |img|
    ensures var copy := img[up.journalOffset.value..up.journalOffset.value + up.journalLen];
      Denotes(crc, img + copy, up.(writeCursor := |img + copy|, journalOffset := Some(|img|)), d)
  {
    hide BlocksOf, IndexInData, LoadIndex, HeadOf, ReplaySpec;
    var copy := img[up.journalOffset.value..up.journalOffset.value + up.journalLen];
    var img2 := img + copy;
    DenotesGrown(crc, img, img2, up, d);
    assert img2[|img|..|img| + up.journalLen] == copy;
  }

  /** The tail's region always lies inside the file, so the copy never fails to read it. */
  lemma JournalInFile(crc: Crc, img: seq<byte>, up: Updater, d: Draft)
    requires Denotes(crc, img, up, d) && up.journalOffset.Some?
    ensures up.journalOffset.value + up.journalLen <= |img|
  {
  }

  lemma TailExtended(crc: Crc, img: seq<byte>, off: u64, len: u64, tail: Option<seq<byte>>, delta: seq<byte>)
    requires LoadTail(crc, img, off, len) == Some(tail) && DATA_START <= off && off + len == |img|
      && |delta| < U32_LIMIT
    requires |img| + JOURNAL_REC_HEADER_LEN + |delta| <= MAX_FILE_LEN
    ensures var rec := SerializeJournalRecord(crc, delta);
      LoadTail(crc, img + rec, off, len + |rec|) == Some(Some((if tail.Some? then tail.value else []) + delta))
  {
    hide RecordAt;
    var rec := SerializeJournalRecord(crc, delta);
    var region := img[off..off + len];
    assert (img + rec)[off..off + (len + |rec|)] == region + rec;
    assert len == 0 ==> region == [] && ReplaySpec(crc, region) == JournalReplay([], 0);
    ReplayAppend(crc, region, delta);
  }

  /** A record appended right after the region extends the tail by its payload. */
  lemma RecordDenotes(crc: Crc, img: seq<byte>, up: Updater, d: Draft, delta: seq<byte>)
    requires Denotes(crc, img, up, d) && up.journalOffset.Some? && |delta| < U32_LIMIT
    requires up.journalOffset.value + up.journalLen == |img|
    requires |img| + JOURNAL_REC_HEADER_LEN + |delta| <= MAX_FILE_LEN
    ensures var rec := SerializeJournalRecord(crc, delta);
      Denotes(crc, img + rec, up.(writeCursor := |img + rec|, journalLen := up.journalLen + |rec|),
              d.(version := WithTail(d.version, delta)))
  {
    hide LoadTail, RecordAt, ReplaySpec;
    DenotesGrown(crc, img, img + SerializeJournalRecord(crc, delta), up, d);
    TailExtended(crc, img, up.journalOffset.value, up.journalLen, d.version.tail, delta);
  }

  /** Setting the start of an empty region changes nothing. */
  lemma JournalStarted(crc: Crc, img: seq<byte>, up: Updater, d: Draft)
    requires Denotes(crc, img, up, d) && up.journalOffset.None?
    ensures Denotes(crc, img, up.(journalOffset := Some(up.writeCursor)), d)
  {
  }

  /** What a commit hands to the device: `sb` encodes faithfully, validates over `img`, and means `v`. */
  ghost predicate SbMeans(crc: Crc, img: seq<byte>, sb: SuperBlock, v: Version) {
    && ParseSuperblock(crc, SerializeSuperblock(crc, sb)) == Some(sb)
    && Validate(crc, img, sb).Some?
    && IndexInData(Validate(crc, img, sb).value.index, |img|)
    && VersionOf(img, sb, Validate(crc, img, sb).value) == v
  }

  /** The superblock of a full commit, over the file that ends with the new index, means the draft. */
  lemma CommitSbMeans(crc: Crc, img: seq<byte>, up: Updater, d: Draft, hc: Option<HeadCache>)
    requires Denotes(crc, img, up, d) && up.activeSeq + 1 < U64_LIMIT
    requires var bytes := IndexBytes(up.index);
      |img| + |bytes| <= MAX_FILE_LEN && HeadOf(img, |img|, hc) == d.version.head && HeadRepresentable(hc)
    ensures var bytes := IndexBytes(up.index);
      SbMeans(crc, img + bytes, SbFor(up, |up.index|, IndexDesc(|img|, |bytes|, crc(bytes)), hc), d.version)
  {
    var bytes := IndexBytes(up.index);
    var img2 := img + bytes;
    var sb := SbFor(up, |up.index|, IndexDesc(|img|, |bytes|, crc(bytes)), hc);
    SuperblockRoundTrip(crc, sb);
    NewIndexLoads(crc, img, up.index);
    BlocksFrame(img, img2, up.index);
    LoadTailFrame(crc, img, img2, sb.tailJournalOffset, sb.tailJournalLen);
    HeadFrame(img, img2, |img|, hc);
    assert Validate(crc, img2, sb) == Some(Loaded(up.index, d.version.tail));
  }

  /** When a journal-only commit may be used: the index is the committed one. Besides the dirty flag this
      compares the block count, which a half-failed `set_block` can have raised without the flag. */
  predicate IndexUnchanged(up: Updater) {
    !up.indexDirty && |up.index| * INDEX_ENTRY_LEN == up.committedIndex.len
  }

  lemma CommittedIndexLoads(crc: Crc, img: seq<byte>, up: Updater)
    requires CommittedIndexOk(crc, img, up) && IndexUnchanged(up)
    ensures var ci := up.committedIndex;
      |up.index| < U64_LIMIT && LoadIndex(crc, img, |up.index|, ci.offset, ci.len, ci.crc) == Some(up.index)
  {
    assert up.committedIndex.len / INDEX_ENTRY_LEN == |up.index|;
    assert up.index[..|up.index|] == up.index;
  }

  lemma JournalSbValid(crc: Crc, img: seq<byte>, up: Updater, d: Draft, sb: SuperBlock)
    requires Denotes(crc, img, up, d) && IndexUnchanged(up) && up.activeSeq + 1 < U64_LIMIT
    requires |up.index| < U64_LIMIT && sb == SbFor(up, |up.index|, up.committedIndex, up.committedHead)
    ensures Validate(crc, img, sb) == Some(Loaded(up.index, d.version.tail))
  {
    CommittedIndexLoads(crc, img, up);
  }

  /** The superblock of a journal-only commit means the draft, with the carried head cache. */
  lemma JournalSbMeans(crc: Crc, img: seq<byte>, up: Updater, d: Draft)
    requires Denotes(crc, img, up, d) && up.activeSeq + 1 < U64_LIMIT
    requires IndexUnchanged(up)
    ensures |up.index| < U64_LIMIT
    ensures SbMeans(crc, img, SbFor(up, |up.index|, up.committedIndex, up.committedHead),
                    d.version.(head := d.carried))
  {
    CommittedIndexLoads(crc, img, up);
    var sb := SbFor(up, |up.index|, up.committedIndex, up.committedHead);
    SuperblockRoundTrip(crc, sb);
    JournalSbValid(crc, img, up, d, sb);
  }
}
