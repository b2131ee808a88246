/** Opening an archive: index codec, slot validation, the choice of the active slot, block and
    head-cache reads (archive/reader.rs). An image is the byte string of the whole file. */
module Reader {
  import opened Bytes
  import opened Layout
  import opened Superblock
  import opened Journal

  // ---- index codec ----

  function EntryBytes(e: ChunkEntry): (s: seq<byte>)
    ensures |s| == INDEX_ENTRY_LEN
  {
    Le64(e.offset) + Le64(e.clen) + Le32(e.flags) + Le32(e.blockCrc)
  }

  function IndexBytes(index: seq<ChunkEntry>): (s: seq<byte>)
    ensures |s| == |index| * INDEX_ENTRY_LEN
  {
    if |index| == 0 then [] else IndexBytes(index[..|index| - 1]) + EntryBytes(index[|index| - 1])
  }

  method SerializeIndex(index: seq<ChunkEntry>) returns (bytes: seq<byte>)
    ensures bytes == IndexBytes(index)
  {
    bytes := [];
    for i := 0 to |index|
      invariant bytes == IndexBytes(index[..i])
    {
      var e := index[i];
      assert index[..i + 1][..i] == index[..i];
      bytes := bytes + EntryBytes(e);
    }
    assert index[..|index|] == index;
  }

  function EntryAt(bytes: seq<byte>, base: nat): ChunkEntry
    requires base + INDEX_ENTRY_LEN <= |bytes|
  {
    ChunkEntry(GetU64(bytes, base), GetU64(bytes, base + 8), GetU32(bytes, base + 16), GetU32(bytes, base + 20))
  }

  function ParseIndex(bytes: seq<byte>, count: nat): (index: seq<ChunkEntry>)
    requires |bytes| == count * INDEX_ENTRY_LEN
    ensures |index| == count
  {
    seq(count, i requires 0 <= i < count => EntryAt(bytes, i * INDEX_ENTRY_LEN))
  }

  lemma EntryRoundTrip(bytes: seq<byte>, base: nat, e: ChunkEntry)
    requires At(bytes, base, EntryBytes(e))
    ensures base + INDEX_ENTRY_LEN <= |bytes| && EntryAt(bytes, base) == e
  {
    AtConcat(bytes, base, Le64(e.offset) + Le64(e.clen) + Le32(e.flags), Le32(e.blockCrc));
    AtConcat(bytes, base, Le64(e.offset) + Le64(e.clen), Le32(e.flags));
    AtConcat(bytes, base, Le64(e.offset), Le64(e.clen));
    GetLe64(bytes, base, e.offset);
    GetLe64(bytes, base + 8, e.clen);
    GetLe32(bytes, base + 16, e.flags);
    GetLe32(bytes, base + 20, e.blockCrc);
  }

  lemma {:induction false} EntryPosition(index: seq<ChunkEntry>, i: nat)
    requires i < |index|
    ensures At(IndexBytes(index), i * INDEX_ENTRY_LEN, EntryBytes(index[i]))
  {
    var n := |index| - 1;
    var front := index[..n];
    var all := IndexBytes(index);
    assert all[..n * INDEX_ENTRY_LEN] == IndexBytes(front);
    if i < n {
      EntryPosition(front, i);
      var a := i * INDEX_ENTRY_LEN;
      assert a + INDEX_ENTRY_LEN <= n * INDEX_ENTRY_LEN;
      SliceOfPrefix(all, n * INDEX_ENTRY_LEN, a, a + INDEX_ENTRY_LEN);
    } else {
      assert all[n * INDEX_ENTRY_LEN..n * INDEX_ENTRY_LEN + INDEX_ENTRY_LEN] == EntryBytes(index[n]);
    }
  }

  /** `parse_index` inverts `serialize_index`. */
  lemma IndexRoundTrip(index: seq<ChunkEntry>)
    ensures ParseIndex(IndexBytes(index), |index|) == index
  {
    var bytes := IndexBytes(index);
    var parsed := ParseIndex(bytes, |index|);
    forall i | 0 <= i < |index| ensures parsed[i] == index[i] {
      EntryPosition(index, i);
      EntryRoundTrip(bytes, i * INDEX_ENTRY_LEN, index[i]);
    }
  }

  // ---- slot validation ----

  datatype Loaded = Loaded(index: seq<ChunkEntry>, tail: Option<seq<byte>>)

  function CheckedAdd(a: u64, b: u64): Option<u64> {
    if a + b < U64_LIMIT then Some(a + b) else None
  }

  function CheckedMul(a: u64, b: u64): Option<u64> {
    if a * b < U64_LIMIT then Some(a * b) else None
  }

  predicate EntryInData(e: ChunkEntry, dataEnd: nat) {
    CheckedAdd(e.offset, e.clen).Some? && DATA_START <= e.offset && e.offset + e.clen <= dataEnd
  }

  predicate IndexInData(index: seq<ChunkEntry>, dataEnd: nat) {
    forall i :: 0 <= i < |index| ==> EntryInData(index[i], dataEnd)
  }

  /** The index a descriptor names, if its region lies in the file, matches its checksum and every
      block lies before it. */
  function LoadIndex(crc: Crc, img: seq<byte>, count: u64, offset: u64, len: u64,
      indexCrc: u32): (r: Option<seq<ChunkEntry>>)
    ensures r.Some? ==>
      && offset + len <= |img| && offset >= DATA_START && len == count * INDEX_ENTRY_LEN
      && |r.value| == count && IndexInData(r.value, offset)
  {
    var expectLen := CheckedMul(count, INDEX_ENTRY_LEN);
    if expectLen.None? then None
    else if len != expectLen.value || offset < DATA_START then None
    else
      var end := CheckedAdd(offset, len);
      if end.None? then None
      else if end.value > |img| then None
      else
        var bytes := img[offset..offset + len];
        if crc(bytes) != indexCrc then None
        else
          var index := ParseIndex(bytes, count);
          if IndexInData(index, offset) then Some(index) else None
  }

  /** The tail a journal region holds: absent when empty, and only if it replays to its last byte. */
  function LoadTail(crc: Crc, img: seq<byte>, offset: u64, len: u64): (r: Option<Option<seq<byte>>>)
    ensures r.Some? && len > 0 ==> offset + len <= |img| && offset >= DATA_START
  {
    if len == 0 then Some(None)
    else
      var end := CheckedAdd(offset, len);
      if end.None? then None
      else if offset < DATA_START || end.value > |img| then None
      else
        var replay := ReplaySpec(crc, img[offset..offset + len]);
        if replay.consumed != len then None else Some(Some(replay.plain))
  }

  /** `validate_and_load_index`. */
  function Validate(crc: Crc, img: seq<byte>, sb: SuperBlock): Option<Loaded> {
    if sb.chunkSize == 0 then None
    else
      match LoadIndex(crc, img, sb.chunkCount, sb.indexOffset, sb.indexLen, sb.indexCrc)
      case None => None
      case Some(index) =>
        match LoadTail(crc, img, sb.tailJournalOffset, sb.tailJournalLen)
        case None => None
        case Some(tail) => Some(Loaded(index, tail))
  }

  /** `read_sb_slot`. */
  function ReadSlot(crc: Crc, img: seq<byte>, slot: nat): Option<SuperBlock>
    requires slot + SB_LEN <= |img|
  {
    ParseSuperblock(crc, img[slot..slot + SB_LEN])
  }

  datatype Active = Active(sb: SuperBlock, slot: nat, loaded: Loaded)

  function TrySlot(crc: Crc, img: seq<byte>, slot: nat): (r: Option<Active>)
    requires slot + SB_LEN <= |img|
    ensures r.Some? ==>
      && ReadSlot(crc, img, slot) == Some(r.value.sb) && r.value.slot == slot
      && Validate(crc, img, r.value.sb) == Some(r.value.loaded)
  {
    match ReadSlot(crc, img, slot)
    case None => None
    case Some(sb) =>
      match Validate(crc, img, sb)
      case None => None
      case Some(loaded) => Some(Active(sb, slot, loaded))
  }

  /** The specification of `load_active`: among the slots that fully validate the one with the higher
      sequence number, slot A on a tie. */
  function LoadActiveSpec(crc: Crc, img: seq<byte>): Option<Active>
    requires |img| >= DATA_START
  {
    var a, b := TrySlot(crc, img, SB_A_OFFSET), TrySlot(crc, img, SB_B_OFFSET);
    if a.None? then b
    else if b.None? then a
    else if b.value.sb.seqno > a.value.sb.seqno then b else a
  }

  /** `load_active`: collect the slots that parse, order them by descending sequence number (stable),
      take the first that validates. */
  method LoadActive(crc: Crc, img: seq<byte>) returns (r: Option<Active>)
    requires |img| >= DATA_START
    ensures r == LoadActiveSpec(crc, img)
  {
    hide Validate, ReadSlot;
    var cands: seq<(SuperBlock, nat)> := [];
    var a := ReadSlot(crc, img, SB_A_OFFSET);
    if a.Some? { cands := cands + [(a.value, SB_A_OFFSET)]; }
    var b := ReadSlot(crc, img, SB_B_OFFSET);
    if b.Some? { cands := cands + [(b.value, SB_B_OFFSET)]; }
    if |cands| == 2 && cands[1].0.seqno > cands[0].0.seqno {
      cands := [cands[1], cands[0]];
    }
    assert |cands| == (if a.Some? then 1 else 0) + (if b.Some? then 1 else 0);
    var i := 0;
    while i < |cands|
      invariant i <= |cands|
      invariant forall k :: 0 <= k < i ==> Validate(crc, img, cands[k].0).None?
    {
      var v := Validate(crc, img, cands[i].0);
      if v.Some? {
        if i == 1 {
          assert Validate(crc, img, cands[0].0).None?;
        }
        return Some(Active(cands[i].0, cands[i].1, v.value));
      }
      i := i + 1;
    }
    assert forall k :: 0 <= k < |cands| ==> Validate(crc, img, cands[k].0).None?;
    assert a.Some? && b.Some? ==>
      (cands == [(a.value, SB_A_OFFSET), (b.value, SB_B_OFFSET)]
       || cands == [(b.value, SB_B_OFFSET), (a.value, SB_A_OFFSET)]);
    if a.Some? {
      assert cands[0].0 == a.value || cands[1].0 == a.value;
    }
    if b.Some? {
      assert cands[0].0 == b.value || cands[1].0 == b.value;
    }
    r := None;
  }

  /** `read_exact_at` over an image: fails past the end of the file. */
  function ReadExact(img: seq<byte>, offset: nat, len: nat): Option<seq<byte>> {
    if offset + len <= |img| then Some(img[offset..offset + len]) else None
  }

  // ---- reads through an opened archive ----

  datatype BlockRead = Absent | Corrupt | Stored(bytes: seq<byte>, entry: ChunkEntry)

  /** `read_block`. */
  function ReadBlock(crc: Crc, img: seq<byte>, index: seq<ChunkEntry>, idx: nat): BlockRead {
    if idx >= |index| then Absent
    else
      match ReadExact(img, index[idx].offset, index[idx].clen)
      case None => Corrupt
      case Some(bytes) => if crc(bytes) != index[idx].blockCrc then Corrupt else Stored(bytes, index[idx])
  }

  /** `read_head_cache_bytes`: a pointer out of bounds reads as "no cache". */
  function ReadHead(img: seq<byte>, indexOffset: u64, hc: HeadCache): Option<seq<byte>> {
    var end := CheckedAdd(hc.offset, hc.clen);
    if end.None? then None
    else if hc.offset < DATA_START || end.value > indexOffset then None
    else ReadExact(img, hc.offset, hc.clen)
  }

  // ---- what an image means ----

  datatype Block = Block(stored: seq<byte>, flags: u32, crc: u32)
  datatype Head = Head(stored: seq<byte>, verbatim: bool, rawlen: u64)

  /** The logical contents of an archive, free of offsets. */
  datatype Version = Version(chunkSize: u32, blocks: seq<Block>, size: u64, tail: Option<seq<byte>>, head: Option<Head>)

  function TailBytes(v: Version): seq<byte> {
    if v.tail.Some? then v.tail.value else []
  }

  function BlockOf(img: seq<byte>, e: ChunkEntry): Block
    requires e.offset + e.clen <= |img|
  {
    Block(img[e.offset..e.offset + e.clen], e.flags, e.blockCrc)
  }

  function BlocksOf(img: seq<byte>, index: seq<ChunkEntry>): (bs: seq<Block>)
    requires IndexInData(index, |img|)
    ensures |bs| == |index|
  {
    seq(|index|, i requires 0 <= i < |index| => BlockOf(img, index[i]))
  }

  function HeadOf(img: seq<byte>, indexOffset: u64, hc: Option<HeadCache>): Option<Head> {
    if hc.None? then None
    else
      match ReadHead(img, indexOffset, hc.value)
      case None => None
      case Some(bytes) => Some(Head(bytes, hc.value.verbatim, hc.value.rawlen))
  }

  function VersionOf(img: seq<byte>, sb: SuperBlock, loaded: Loaded): Version
    requires IndexInData(loaded.index, |img|)
  {
    Version(sb.chunkSize, BlocksOf(img, loaded.index), sb.uncompressedSize, loaded.tail,
            HeadOf(img, sb.indexOffset, sb.headCache))
  }

  lemma LoadedInData(crc: Crc, img: seq<byte>, sb: SuperBlock)
    requires Validate(crc, img, sb).Some?
    ensures IndexInData(Validate(crc, img, sb).value.index, |img|)
  {
    var index := Validate(crc, img, sb).value.index;
    assert IndexInData(index, sb.indexOffset);
  }

  /** What opening the image and reading everything back yields. */
  function Recovered(crc: Crc, img: seq<byte>): Option<Version>
    requires |img| >= DATA_START
  {
    match LoadActiveSpec(crc, img)
    case None => None
    case Some(act) =>
      LoadedInData(crc, img, act.sb);
      Some(VersionOf(img, act.sb, act.loaded))
  }

  /** The index just written loads back. */
  lemma NewIndexLoads(crc: Crc, img: seq<byte>, index: seq<ChunkEntry>)
    requires DATA_START <= |img| && IndexInData(index, |img|) && |img| + |IndexBytes(index)| < U64_LIMIT
    ensures var bytes := IndexBytes(index);
      LoadIndex(crc, img + bytes, |index|, |img|, |bytes|, crc(bytes)) == Some(index)
  {
    hide IndexBytes, ParseIndex, IndexInData;
    var bytes := IndexBytes(index);
    assert (img + bytes)[|img|..|img| + |bytes|] == bytes;
    IndexRoundTrip(index);
  }

  // ---- opening arbitrary bytes ----

  /** On every byte string: opening fails only if neither slot validates; it selects a validating slot
      with the highest sequence number, A on a tie; and when both slots validate the choice is the
      one `pick_active` makes. */
  lemma OpenSelectsBest(crc: Crc, img: seq<byte>)
    requires |img| >= DATA_START
    ensures var r := LoadActiveSpec(crc, img);
      var a, b := ReadSlot(crc, img, SB_A_OFFSET), ReadSlot(crc, img, SB_B_OFFSET);
      var okA, okB := a.Some? && Validate(crc, img, a.value).Some?, b.Some? && Validate(crc, img, b.value).Some?;
      && (r.None? <==> !okA && !okB)
      && (r.Some? && okA ==> r.value.sb.seqno >= a.value.seqno)
      && (r.Some? && okB ==> r.value.sb.seqno >= b.value.seqno)
      && (r.Some? && r.value.slot == SB_B_OFFSET && okA ==> r.value.sb.seqno > a.value.seqno)
      && (okA && okB ==> Some(r.value.sb) == PickActive(a, b))
  {
  }

  /** On every byte string that opens: each block read and the head-cache read stay inside the file,
      with every sum below 2^64; the stored bytes returned are those of the index entry, and a block
      is refused exactly when its checksum disagrees. */
  lemma OpenedReadsStayInside(crc: Crc, img: seq<byte>, idx: nat)
    requires |img| >= DATA_START && LoadActiveSpec(crc, img).Some?
    ensures var act := LoadActiveSpec(crc, img).value;
      && (idx < |act.loaded.index| ==>
           var e := act.loaded.index[idx];
           && DATA_START <= e.offset && e.offset + e.clen <= act.sb.indexOffset && e.offset + e.clen < U64_LIMIT
           && act.sb.indexOffset + act.sb.indexLen <= |img|
           && ReadExact(img, e.offset, e.clen).Some?
           && (ReadBlock(crc, img, act.loaded.index, idx).Corrupt? <==>
                crc(img[e.offset..e.offset + e.clen]) != e.blockCrc))
      && (idx >= act.sb.chunkCount <==> ReadBlock(crc, img, act.loaded.index, idx).Absent?)
      && (act.sb.headCache.Some? && ReadHead(img, act.sb.indexOffset, act.sb.headCache.value).Some? ==>
           act.sb.headCache.value.offset + act.sb.headCache.value.clen <= |img|)
  {
    hide ParseSuperblock, LoadTail, HeadOf;
    var act := LoadActiveSpec(crc, img).value;
    assert IndexInData(act.loaded.index, act.sb.indexOffset);
    if idx < |act.loaded.index| {
      assert EntryInData(act.loaded.index[idx], act.sb.indexOffset);
    }
  }

  /** Every region a superblock leads to: index, blocks, journal, head cache. */
  ghost predicate RegionsWithin(sb: SuperBlock, index: seq<ChunkEntry>, end: nat) {
    && DATA_START <= sb.indexOffset && sb.indexOffset + sb.indexLen <= end
    && (forall i :: 0 <= i < |index| ==> DATA_START <= index[i].offset && index[i].offset + index[i].clen <= end)
    && (sb.tailJournalLen > 0 ==> DATA_START <= sb.tailJournalOffset && sb.tailJournalOffset + sb.tailJournalLen <= end)
  }

  lemma ValidRegions(crc: Crc, img: seq<byte>, sb: SuperBlock)
    requires Validate(crc, img, sb).Some?
    ensures RegionsWithin(sb, Validate(crc, img, sb).value.index, |img|)
    ensures sb.headCache.Some? && ReadHead(img, sb.indexOffset, sb.headCache.value).Some? ==>
      DATA_START <= sb.headCache.value.offset && sb.headCache.value.offset + sb.headCache.value.clen <= |img|
  {
    var index := Validate(crc, img, sb).value.index;
    assert IndexInData(index, sb.indexOffset);
    forall i | 0 <= i < |index| ensures DATA_START <= index[i].offset && index[i].offset + index[i].clen <= |img| {
      assert EntryInData(index[i], sb.indexOffset);
    }
  }

  // ---- growing a file does not change what a valid slot means ----

  /** `img2` keeps every data byte of `img` and may be longer; the two slots may differ. */
  ghost predicate Extends(img: seq<byte>, img2: seq<byte>) {
    |img| <= |img2| && (forall i :: DATA_START <= i < |img| ==> img2[i] == img[i])
  }

  lemma ExtendsSlice(img: seq<byte>, img2: seq<byte>, a: nat, b: nat)
    requires Extends(img, img2) && DATA_START <= a <= b <= |img|
    ensures img2[a..b] == img[a..b]
  {
  }

  lemma ExtendsTransitive(a: seq<byte>, b: seq<byte>, c: seq<byte>)
    requires Extends(a, b) && Extends(b, c)
    ensures Extends(a, c)
  {
  }

  lemma LoadIndexFrame(crc: Crc, img: seq<byte>, img2: seq<byte>, count: u64, offset: u64, len: u64, indexCrc: u32)
    requires Extends(img, img2) && LoadIndex(crc, img, count, offset, len, indexCrc).Some?
    ensures LoadIndex(crc, img2, count, offset, len, indexCrc) == LoadIndex(crc, img, count, offset, len, indexCrc)
  {
    ExtendsSlice(img, img2, offset, offset + len);
  }

  lemma LoadTailFrame(crc: Crc, img: seq<byte>, img2: seq<byte>, offset: u64, len: u64)
    requires Extends(img, img2) && LoadTail(crc, img, offset, len).Some?
    ensures LoadTail(crc, img2, offset, len) == LoadTail(crc, img, offset, len)
  {
    if len > 0 {
      ExtendsSlice(img, img2, offset, offset + len);
    }
  }

  lemma BlocksFrame(img: seq<byte>, img2: seq<byte>, index: seq<ChunkEntry>)
    requires Extends(img, img2) && IndexInData(index, |img|)
    ensures IndexInData(index, |img2|) && BlocksOf(img2, index) == BlocksOf(img, index)
  {
    forall i | 0 <= i < |index|
      ensures EntryInData(index[i], |img2|) && BlockOf(img2, index[i]) == BlockOf(img, index[i]) {
      assert EntryInData(index[i], |img|);
      ExtendsSlice(img, img2, index[i].offset, index[i].offset + index[i].clen);
    }
  }

  lemma HeadFrame(img: seq<byte>, img2: seq<byte>, indexOffset: u64, hc: Option<HeadCache>)
    requires Extends(img, img2) && indexOffset <= |img|
    ensures HeadOf(img2, indexOffset, hc) == HeadOf(img, indexOffset, hc)
  {
    if hc.Some? && ReadHead(img2, indexOffset, hc.value).Some? {
      ExtendsSlice(img, img2, hc.value.offset, hc.value.offset + hc.value.clen);
    }
  }

  /** A valid superblock keeps validating, and keeps meaning the same version, as the file grows. */
  lemma ValidateFrame(crc: Crc, img: seq<byte>, img2: seq<byte>, sb: SuperBlock)
    requires Extends(img, img2) && Validate(crc, img, sb).Some?
    ensures Validate(crc, img2, sb) == Validate(crc, img, sb)
    ensures var l := Validate(crc, img, sb).value;
      IndexInData(l.index, |img|) && IndexInData(l.index, |img2|) && VersionOf(img2, sb, l) == VersionOf(img, sb, l)
  {
    LoadIndexFrame(crc, img, img2, sb.chunkCount, sb.indexOffset, sb.indexLen, sb.indexCrc);
    LoadTailFrame(crc, img, img2, sb.tailJournalOffset, sb.tailJournalLen);
    LoadedInData(crc, img, sb);
    BlocksFrame(img, img2, Validate(crc, img, sb).value.index);
    HeadFrame(img, img2, sb.indexOffset, sb.headCache);
  }
}
