/** What a slot has to be for an archive to open, written out over the bytes of the file (archive/superblock.rs,
    archive/reader.rs): which damage is noticed, and what is opened instead. */
module OpeningLaws {
  import opened Bytes
  import opened Layout
  import opened Superblock
  import opened Journal
  import opened Reader

  // ---- one slot ----

  /** The 128 bytes of a slot parse exactly if they start with "ZSB2" and end with the checksum of the rest. */
  lemma ParsesExactly(crc: Crc, b: seq<byte>)
    requires |b| == SB_LEN
    ensures ParseSuperblock(crc, b).Some? <==> b[..4] == [0x5A, 0x53, 0x42, 0x32] && Le32(crc(b[..124])) == b[124..]
  {
    assert b[..SB_LEN] == b && b[0..4] == b[..4] && b[124..128] == b[124..];
    var m: seq<byte> := [0x5A, 0x53, 0x42, 0x32];
    MagicBytes();
    LeIs(SB_MAGIC, b[..4]);
    LeIs(crc(b[..124]), b[124..]);
  }

  lemma MagicBytes()
    ensures Le32(SB_MAGIC) == [0x5A, 0x53, 0x42, 0x32]
  {
    assert Le(0x3242535A, 4) == [0x5A] + Le(0x324253, 3);
    assert Le(0x324253, 3) == [0x53] + Le(0x3242, 2);
    assert Le(0x3242, 2) == [0x42] + Le(0x32, 1);
    assert Le(0x32, 1) == [0x32] + Le(0, 0);
  }

  /** Four bytes are the encoding of a number exactly if they decode to it. */
  lemma LeIs(v: u32, s: seq<byte>)
    requires |s| == 4
    ensures Le32(v) == s <==> FromLe(s) == v
  {
    Pow256Values();
    LeRoundTrip(v, 4);
    FromLeRoundTrip(s);
  }

  /** The header is the first twelve bytes, to the letter. */
  lemma HeaderExactly(img: seq<byte>)
    requires |img| >= DATA_START
    ensures HeaderOk(img) <==> img[..12] == [0x5A, 0x49, 0x50, 0x46, 0x53, 0x41, 0x52, 0x01, 2, 0, 0, 0]
  {
    assert img[..12] == img[..8] + img[8..12];
    VersionBytes();
    LeIs(2, img[8..12]);
    if HeaderOk(img) { assert img[..12] == MAGIC + Le32(2); }
    if img[..12] == MAGIC + Le32(2) {
      assert img[..12][..8] == img[..8] && img[..12][8..] == img[8..12];
    }
  }

  lemma VersionBytes()
    ensures Le32(2) == [2, 0, 0, 0]
  {
    assert Le(2, 4) == [2] + Le(0, 3);
    assert Le(0, 3) == [0] + Le(0, 2);
    assert Le(0, 2) == [0] + Le(0, 1);
  }

  // ---- what the slot leads to ----

  /** Index entry `i` as it stands in the file. */
  function EntryOnDisk(img: seq<byte>, sb: SuperBlock, i: nat): ChunkEntry
    requires sb.indexOffset + 24 * (i + 1) <= |img|
  {
    var at := sb.indexOffset + 24 * i;
    ChunkEntry(GetU64(img, at), GetU64(img, at + 8), GetU32(img, at + 16), GetU32(img, at + 20))
  }

  /** The index lies in the file behind the data, matches its checksum, and names blocks before it only. */
  ghost predicate IndexSound(crc: Crc, img: seq<byte>, sb: SuperBlock) {
    && sb.indexLen == 24 * sb.chunkCount && DATA_START <= sb.indexOffset
    && sb.indexOffset + sb.indexLen <= |img| && sb.indexOffset + sb.indexLen < U64_LIMIT
    && crc(img[sb.indexOffset..sb.indexOffset + sb.indexLen]) == sb.indexCrc
    && forall i: nat :: i < sb.chunkCount ==> BlockInData(img, sb, i)
  }

  ghost predicate BlockInData(img: seq<byte>, sb: SuperBlock, i: nat)
    requires sb.indexLen == 24 * sb.chunkCount && sb.indexOffset + sb.indexLen <= |img| && i < sb.chunkCount
  {
    var e := EntryOnDisk(img, sb, i);
    DATA_START <= e.offset && e.offset + e.clen <= sb.indexOffset
  }

  /** There is no journal, or its region lies in the file and is a list of records to the last byte. */
  ghost predicate JournalSound(crc: Crc, img: seq<byte>, sb: SuperBlock) {
    var off, len := sb.tailJournalOffset, sb.tailJournalLen;
    len == 0 ||
      (&& DATA_START <= off && off + len <= |img| && off + len < U64_LIMIT
       && exists records :: Encodable(records) && SerializeAll(crc, records) == img[off..off + len])
  }

  /** A slot validates exactly if its chunk size is not zero and index and journal are sound. */
  lemma ValidatesExactly(crc: Crc, img: seq<byte>, sb: SuperBlock)
    ensures Validate(crc, img, sb).Some? <==>
      sb.chunkSize != 0 && IndexSound(crc, img, sb) && JournalSound(crc, img, sb)
  {
    hide LoadIndex, LoadTail, IndexSound, JournalSound;
    IndexLoadsExactly(crc, img, sb);
    JournalLoadsExactly(crc, img, sb);
  }

  lemma IndexLoadsExactly(crc: Crc, img: seq<byte>, sb: SuperBlock)
    ensures LoadIndex(crc, img, sb.chunkCount, sb.indexOffset, sb.indexLen, sb.indexCrc).Some? <==>
      IndexSound(crc, img, sb)
    ensures IndexSound(crc, img, sb) ==>
      var index := LoadIndex(crc, img, sb.chunkCount, sb.indexOffset, sb.indexLen, sb.indexCrc).value;
      |index| == sb.chunkCount && forall i: nat :: i < |index| ==> index[i] == EntryOnDisk(img, sb, i)
  {
    hide EntryOnDisk;
    var n: nat, off: nat, len: nat := sb.chunkCount, sb.indexOffset, sb.indexLen;
    if len == 24 * n && off + len <= |img| {
      var index := ParseIndex(img[off..off + len], n);
      forall i: nat | i < n ensures index[i] == EntryOnDisk(img, sb, i) {
        EntryInPlace(img, sb, i);
      }
      if forall i: nat :: i < n ==> BlockInData(img, sb, i) {
        forall i | 0 <= i < |index| ensures EntryInData(index[i], off) {
          assert BlockInData(img, sb, i);
        }
      }
      if IndexInData(index, off) {
        forall i: nat | i < n ensures BlockInData(img, sb, i) {
          assert EntryInData(index[i], off);
        }
      }
    }
  }

  lemma EntryInPlace(img: seq<byte>, sb: SuperBlock, i: nat)
    requires sb.indexLen == 24 * sb.chunkCount && sb.indexOffset + sb.indexLen <= |img| && i < sb.chunkCount
    ensures EntryAt(img[sb.indexOffset..sb.indexOffset + sb.indexLen], i * INDEX_ENTRY_LEN) == EntryOnDisk(img, sb, i)
  {
    var a, b, p := sb.indexOffset, sb.indexOffset + sb.indexLen, i * 24;
    SliceOfSlice(img, a, b, p, p + 8);
    SliceOfSlice(img, a, b, p + 8, p + 16);
    SliceOfSlice(img, a, b, p + 16, p + 20);
    SliceOfSlice(img, a, b, p + 20, p + 24);
  }

  lemma JournalLoadsExactly(crc: Crc, img: seq<byte>, sb: SuperBlock)
    ensures LoadTail(crc, img, sb.tailJournalOffset, sb.tailJournalLen).Some? <==> JournalSound(crc, img, sb)
  {
    hide ReplaySpec, SerializeAll, Encodable;
    var off, len := sb.tailJournalOffset, sb.tailJournalLen;
    if len > 0 && off + len <= |img| {
      ReplaysWholeExactly(crc, img[off..off + len]);
    }
  }

  /** A region replays to its last byte exactly if it is a list of records. */
  lemma ReplaysWholeExactly(crc: Crc, region: seq<byte>)
    ensures ReplaySpec(crc, region).consumed == |region| <==>
      exists records :: Encodable(records) && SerializeAll(crc, records) == region
  {
    hide ReplaySpec, SerializeAll, Encodable, RecordAt;
    ReplayParses(crc, region);
    if ReplaySpec(crc, region).consumed == |region| {
      assert region[..|region|] == region;
    }
    if records :| Encodable(records) && SerializeAll(crc, records) == region {
      NoRecordInNothing(crc);
      ReplaySerialized(crc, records, []);
      assert region + [] == region;
      ReplaysToLength(crc, region, records, |region|);
    }
  }

  lemma NoRecordInNothing(crc: Crc)
    ensures RecordAt(crc, []).None?
  {
  }

  lemma ReplaysToLength(crc: Crc, buf: seq<byte>, records: seq<seq<byte>>, len: nat)
    requires ReplaysTo(crc, buf, records, len)
    ensures ReplaySpec(crc, buf).consumed == len
  {
  }

  // ---- the choice ----

  /** Slot `slot` parses to `sb`, and everything `sb` leads to is sound. */
  ghost predicate GoodSlot(crc: Crc, img: seq<byte>, slot: nat, sb: SuperBlock)
    requires |img| >= DATA_START && IsSlot(slot)
  {
    && ParseSuperblock(crc, img[slot..slot + SB_LEN]) == Some(sb)
    && sb.chunkSize != 0 && IndexSound(crc, img, sb) && JournalSound(crc, img, sb)
  }

  /** `sb` in `slot` is good, and no good slot is better: none has a higher sequence number, and B has none as high
      as A's. */
  ghost predicate BestSlot(crc: Crc, img: seq<byte>, slot: nat, sb: SuperBlock)
    requires |img| >= DATA_START && IsSlot(slot)
  {
    && GoodSlot(crc, img, slot, sb)
    && forall other :: GoodSlot(crc, img, OtherSlot(slot), other) ==>
         other.seqno < sb.seqno || (other.seqno == sb.seqno && slot == 12)
  }

  /** An archive opens with a superblock exactly if that one is the best good slot's. */
  lemma OpensExactly(crc: Crc, img: seq<byte>, slot: nat, sb: SuperBlock)
    requires |img| >= DATA_START && IsSlot(slot)
    ensures BestSlot(crc, img, slot, sb) <==>
      LoadActiveSpec(crc, img).Some? && LoadActiveSpec(crc, img).value.slot == slot
      && LoadActiveSpec(crc, img).value.sb == sb
  {
    hide IndexSound, JournalSound, Validate, ParseSuperblock;
    forall s, x | IsSlot(s) ensures GoodSlot(crc, img, s, x) <==>
        TrySlot(crc, img, s).Some? && TrySlot(crc, img, s).value.sb == x {
      ValidatesExactly(crc, img, x);
    }
    var o := OtherSlot(slot);
    if TrySlot(crc, img, o).Some? {
      assert GoodSlot(crc, img, o, TrySlot(crc, img, o).value.sb);
    }
  }

  /** It does not open exactly if neither slot is good. */
  lemma ClosedExactly(crc: Crc, img: seq<byte>)
    requires |img| >= DATA_START
    ensures LoadActiveSpec(crc, img).None? <==> forall slot, sb | IsSlot(slot) :: !GoodSlot(crc, img, slot, sb)
  {
    hide IndexSound, JournalSound, Validate, ParseSuperblock;
    forall s, x | IsSlot(s) ensures GoodSlot(crc, img, s, x) <==>
        TrySlot(crc, img, s).Some? && TrySlot(crc, img, s).value.sb == x {
      ValidatesExactly(crc, img, x);
    }
    forall s | IsSlot(s) ensures TrySlot(crc, img, s).Some? ==> GoodSlot(crc, img, s, TrySlot(crc, img, s).value.sb) {
    }
    if LoadActiveSpec(crc, img).Some? {
      var act := LoadActiveSpec(crc, img).value;
      assert IsSlot(act.slot) && GoodSlot(crc, img, act.slot, act.sb);
    }
  }

  /** Damage to the newer slot's index is noticed: with an older good slot, that one is opened, whatever the newer
      sequence number. */
  lemma DamagedIndexFallsBack(crc: Crc, img: seq<byte>, newer: nat, sb: SuperBlock, older: SuperBlock)
    requires |img| >= DATA_START && IsSlot(newer) && ParseSuperblock(crc, img[newer..newer + SB_LEN]) == Some(sb)
    requires sb.indexOffset + sb.indexLen <= |img|
    requires crc(img[sb.indexOffset..sb.indexOffset + sb.indexLen]) != sb.indexCrc
    requires GoodSlot(crc, img, OtherSlot(newer), older)
    ensures LoadActiveSpec(crc, img).Some?
    ensures LoadActiveSpec(crc, img).value.slot == OtherSlot(newer) && LoadActiveSpec(crc, img).value.sb == older
  {
    hide JournalSound, ParseSuperblock;
    assert forall x :: !GoodSlot(crc, img, newer, x);
    OpensExactly(crc, img, OtherSlot(newer), older);
  }

  // ---- what is read back ----

  /** The head cache a superblock names, if its region lies between the slots and the index. */
  function HeadOnDisk(img: seq<byte>, sb: SuperBlock): Option<Head> {
    match sb.headCache
    case None => None
    case Some(h) =>
      if DATA_START <= h.offset && h.offset + h.clen <= sb.indexOffset && h.offset + h.clen <= |img|
      then Some(Head(img[h.offset..h.offset + h.clen], h.verbatim, h.rawlen)) else None
  }

  /** Opening reads back: chunk size and size of the best slot, the bytes, flags and checksum of each index entry on
      disk, the payloads of the journal's records, and the head cache. */
  lemma RecoveredExactly(crc: Crc, img: seq<byte>, slot: nat, sb: SuperBlock, records: seq<seq<byte>>)
    requires |img| >= DATA_START && IsSlot(slot) && BestSlot(crc, img, slot, sb)
    requires sb.tailJournalLen > 0 ==>
      && Encodable(records)
      && SerializeAll(crc, records) == img[sb.tailJournalOffset..sb.tailJournalOffset + sb.tailJournalLen]
    ensures Recovered(crc, img).Some?
    ensures var v := Recovered(crc, img).value;
      && v.chunkSize == sb.chunkSize && v.size == sb.uncompressedSize && |v.blocks| == sb.chunkCount
      && (forall i: nat :: i < |v.blocks| ==> BlockOnDisk(img, sb, i, v.blocks[i]))
      && v.tail == (if sb.tailJournalLen > 0 then Some(Flatten(records)) else None)
      && v.head == HeadOnDisk(img, sb)
  {
    hide JournalSound, ParseSuperblock, ReplaySpec, SerializeAll, Flatten, Encodable, EntryOnDisk, EntryInData;
    OpensExactly(crc, img, slot, sb);
    IndexLoadsExactly(crc, img, sb);
    JournalLoadsExactly(crc, img, sb);
    ValidatesExactly(crc, img, sb);
    LoadedInData(crc, img, sb);
    if sb.tailJournalLen > 0 {
      TailReplays(crc, img[sb.tailJournalOffset..sb.tailJournalOffset + sb.tailJournalLen], records);
    }
    var v := Recovered(crc, img).value;
    forall i: nat | i < |v.blocks| ensures BlockOnDisk(img, sb, i, v.blocks[i]) {
      assert BlockInData(img, sb, i);
    }
  }

  ghost predicate BlockOnDisk(img: seq<byte>, sb: SuperBlock, i: nat, b: Block) {
    && sb.indexOffset + 24 * (i + 1) <= |img|
    && var e := EntryOnDisk(img, sb, i);
    && e.offset + e.clen <= |img|
    && b.stored == img[e.offset..e.offset + e.clen] && b.flags == e.flags && b.crc == e.blockCrc
  }

  lemma TailReplays(crc: Crc, region: seq<byte>, records: seq<seq<byte>>)
    requires Encodable(records) && SerializeAll(crc, records) == region
    ensures ReplaySpec(crc, region).plain == Flatten(records)
  {
    hide SerializeAll, Encodable, RecordAt, Flatten, ReplaySpec;
    NoRecordInNothing(crc);
    ReplaySerialized(crc, records, []);
    assert region + [] == region;
    ReplaysToPlain(crc, region, records, |region|);
  }

  lemma ReplaysToPlain(crc: Crc, buf: seq<byte>, records: seq<seq<byte>>, len: nat)
    requires ReplaysTo(crc, buf, records, len)
    ensures ReplaySpec(crc, buf).plain == Flatten(records)
  {
  }
}
