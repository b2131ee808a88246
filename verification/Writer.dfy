/** The offline archive writer and what a reader makes of its output (archive/writer.rs). */
module Writer {
  import opened Bytes
  import opened Layout
  import opened Superblock
  import opened Reader
  import opened BlockIo
  import opened UpdaterSpec
  import opened ArchiveRuns

  datatype RawBlock = RawBlock(stored: seq<byte>, verbatim: bool, rawLen: u64)

  function StoredAs(crc: Crc, b: RawBlock): Block {
    Block(b.stored, if b.verbatim then FLAG_VERBATIM else 0, crc(b.stored))
  }

  function StoredAll(crc: Crc, blocks: seq<RawBlock>): (r: seq<Block>)
    ensures |r| == |blocks|
  {
    seq(|blocks|, i requires 0 <= i < |blocks| => StoredAs(crc, blocks[i]))
  }

  function TotalRaw(blocks: seq<RawBlock>): nat {
    if |blocks| == 0 then 0 else TotalRaw(blocks[..|blocks| - 1]) + blocks[|blocks| - 1].rawLen
  }

  /** 64-bit wrap-around. */
  function Wrap(n: nat): (r: u64)
    ensures n < U64_LIMIT ==> r == n
  {
    n % U64_LIMIT
  }

  lemma WrapTwice(a: nat, b: nat)
    ensures Wrap(Wrap(a) + b) == Wrap(a + b)
  {
  }

  /** The superblock `finish` writes into both slots. */
  function FinalSb(chunkSize: u32, size: u64, count: u64, desc: IndexDesc, head: Option<HeadCache>): SuperBlock {
    SuperBlock(0, chunkSize, size, count, desc.offset, desc.len, desc.crc, 0, 0, head)
  }

  /** Header and data with the superblock's bytes put into both slots. */
  function WithSlots(crc: Crc, out: seq<byte>, sb: SuperBlock): seq<byte>
    requires |out| >= DATA_START
  {
    var bytes := SerializeSuperblock(crc, sb);
    Apply(Apply(out, SB_A_OFFSET, bytes), SB_B_OFFSET, bytes)
  }

  lemma HeaderReads(img: seq<byte>)
    requires |img| >= DATA_START && img[..HEADER_LEN] == Header()
    ensures HeaderOk(img)
  {
    assert img[..8] == img[..HEADER_LEN][..8] == MAGIC;
    assert img[8..12] == img[..HEADER_LEN][8..12] == Le32(VERSION);
    GetLe32(img, 8, VERSION);
  }

  lemma SlotsWritten(crc: Crc, out: seq<byte>, sb: SuperBlock)
    requires |out| >= DATA_START && HeadRepresentable(sb.headCache)
    ensures var img := WithSlots(crc, out, sb);
      && |img| == |out| && Extends(out, img) && img[..HEADER_LEN] == out[..HEADER_LEN]
      && ReadSlot(crc, img, SB_A_OFFSET) == Some(sb) && ReadSlot(crc, img, SB_B_OFFSET) == Some(sb)
  {
    hide SerializeSuperblock, ParseSuperblock;
    SuperblockRoundTrip(crc, sb);
    var bytes := SerializeSuperblock(crc, sb);
    var img := WithSlots(crc, out, sb);
    assert img[SB_A_OFFSET..SB_A_OFFSET + SB_LEN] == bytes;
    assert img[SB_B_OFFSET..SB_B_OFFSET + SB_LEN] == bytes;
  }

  /** Round trip. A file made of header, data, index and two equal slots opens: slot A is chosen, every
      block, flag and checksum, the size and the head cache come back, and it is a sound start for runs. */
  lemma FinishedOpens(crc: Crc, out: seq<byte>, index: seq<ChunkEntry>, chunkSize: u32, size: u64,
      hc: Option<HeadCache>)
    requires |out| >= DATA_START && out[..HEADER_LEN] == Header() && chunkSize > 0
    requires IndexInData(index, |out|) && |out| + |IndexBytes(index)| <= MAX_FILE_LEN && HeadRepresentable(hc)
    ensures var bytes := IndexBytes(index);
      var sb := FinalSb(chunkSize, size, |index|, IndexDesc(|out|, |bytes|, crc(bytes)), hc);
      var img := WithSlots(crc, out + bytes, sb);
      && Sound(crc, img) && |img| == |out| + |bytes|
      && LoadActiveSpec(crc, img) == Some(Active(sb, SB_A_OFFSET, Loaded(index, None)))
      && ReadSlot(crc, img, SB_B_OFFSET) == Some(sb)
      && Recovered(crc, img) == Some(Version(chunkSize, BlocksOf(out, index), size, None, HeadOf(out, |out|, hc)))
  {
    hide ParseSuperblock, ParseIndex, IndexBytes, LoadIndex, WithSlots, BlocksOf, HeadOf, IndexInData, Extends;
    var bytes := IndexBytes(index);
    var sb := FinalSb(chunkSize, size, |index|, IndexDesc(|out|, |bytes|, crc(bytes)), hc);
    var img := WithSlots(crc, out + bytes, sb);
    SlotsWritten(crc, out + bytes, sb);
    assert img[..HEADER_LEN] == out[..HEADER_LEN];
    HeaderReads(img);
    NewIndexLoads(crc, out, index);
    LoadIndexFrame(crc, out + bytes, img, |index|, |out|, |bytes|, crc(bytes));
    BlocksFrame(out, out + bytes, index);
    BlocksFrame(out + bytes, img, index);
    ExtendsTransitive(out, out + bytes, img);
    HeadFrame(out, img, |out|, hc);
    assert Validate(crc, img, sb) == Some(Loaded(index, None));
  }

  lemma BlockAppended(crc: Crc, out: seq<byte>, index: seq<ChunkEntry>, b: RawBlock)
    requires DATA_START <= |out| && IndexInData(index, |out|) && |out| + |b.stored| <= MAX_FILE_LEN
    ensures var e := EntryFor(crc, |out|, b.stored, b.verbatim);
      && IndexInData(index + [e], |out + b.stored|)
      && BlocksOf(out + b.stored, index + [e]) == BlocksOf(out, index) + [StoredAs(crc, b)]
  {
    var e := EntryFor(crc, |out|, b.stored, b.verbatim);
    var img := out + b.stored;
    BlocksFrame(out, img, index);
    assert img[|out|..|out| + |b.stored|] == b.stored;
    assert EntryInData(e, |img|) && BlockOf(img, e) == StoredAs(crc, b);
  }

  class ArchiveWriter {
    const crc: Crc
    const chunkSize: u32
    var inner: seq<byte>
    /** Wraps around at 2^64, as release builds do. */
    var uncompressedSize: u64
    var cursor: nat
    var index: seq<ChunkEntry>
    var headCache: Option<Head>

    ghost predicate Valid()
      reads this
    {
      && chunkSize > 0
      && DATA_START <= |inner| == cursor <= MAX_FILE_LEN && inner[..HEADER_LEN] == Header()
      && IndexInData(index, |inner|)
    }

    /** The blocks written so far. */
    ghost function Blocks(): seq<Block>
      reads this
      requires Valid()
    {
      BlocksOf(inner, index)
    }

    /** A chunk size of zero is refused by Create. */
    constructor (crc: Crc, chunkSize: u32)
      requires chunkSize > 0
      ensures this.crc == crc && this.chunkSize == chunkSize
      ensures Valid() && Blocks() == [] && uncompressedSize == 0 && headCache.None? && cursor == DATA_START
    {
      this.crc, this.chunkSize := crc, chunkSize;
      inner := MAGIC + Le32(VERSION) + Zeros(2 * SB_LEN);
      uncompressedSize, cursor, index, headCache := 0, DATA_START, [], None;
      new;
      assert inner[..HEADER_LEN] == Header();
    }

    static method Create(crc: Crc, chunkSize: u32) returns (w: Option<ArchiveWriter>)
      ensures w.Some? <==> chunkSize != 0
      ensures w.Some? ==> fresh(w.value) && w.value.crc == crc && w.value.chunkSize == chunkSize
      ensures w.Some? ==> w.value.Valid() && w.value.Blocks() == []
      ensures w.Some? ==> w.value.uncompressedSize == 0 && w.value.headCache.None? && w.value.cursor == DATA_START
    {
      if chunkSize == 0 {
        return None;
      }
      var writer := new ArchiveWriter(crc, chunkSize);
      w := Some(writer);
    }

    method SetHeadCache(stored: seq<byte>, verbatim: bool, rawLen: u64)
      requires Valid()
      modifies this`headCache
      ensures headCache == Some(Head(stored, verbatim, rawLen))
    {
      headCache := Some(Head(stored, verbatim, rawLen));
    }

    method AppendBlock(b: RawBlock) returns (ok: bool)
      requires Valid()
      modifies this
      ensures Valid() && headCache == old(headCache)
      ensures ok <==> old(cursor) + |b.stored| <= MAX_FILE_LEN
      ensures Blocks() == if ok then old(Blocks()) + [StoredAs(crc, b)] else old(Blocks())
      ensures uncompressedSize == if ok then Wrap(old(uncompressedSize) + b.rawLen) else old(uncompressedSize)
      ensures cursor == old(cursor) + if ok then |b.stored| else 0
    {
      if cursor + |b.stored| > MAX_FILE_LEN {
        return false;
      }
      BlockAppended(crc, inner, index, b);
      assert (inner + b.stored)[..HEADER_LEN] == inner[..HEADER_LEN];
      inner := inner + b.stored;
      index := index + [EntryFor(crc, cursor, b.stored, b.verbatim)];
      cursor := cursor + |b.stored|;
      uncompressedSize := Wrap(uncompressedSize + b.rawLen);
      ok := true;
    }

    /** Head cache, index, then the superblock into both slots. None when the file would be too long. */
    method Finish() returns (r: Option<seq<byte>>)
      requires Valid()
      modifies this
      ensures r.Some? <==>
        old(cursor) + (if old(headCache).Some? then |old(headCache).value.stored| else 0)
          + old(|index|) * INDEX_ENTRY_LEN <= MAX_FILE_LEN
      ensures r.Some? ==> Sound(crc, r.value)
      ensures r.Some? ==>
        |r.value| == old(cursor) + (if old(headCache).Some? then |old(headCache).value.stored| else 0)
          + old(|index|) * INDEX_ENTRY_LEN
      ensures r.Some? ==>
        Recovered(crc, r.value) == Some(Version(chunkSize, old(Blocks()), old(uncompressedSize), None, old(headCache)))
      ensures r.Some? ==>
        var act := LoadActiveSpec(crc, r.value);
        act.Some? && act.value.slot == SB_A_OFFSET && act.value.sb.seqno == 0
        && ReadSlot(crc, r.value, SB_B_OFFSET) == Some(act.value.sb)
    {
      hide SerializeSuperblock, ParseSuperblock, Recovered, LoadActiveSpec, Sound, ReadSlot;
      var head: Option<HeadCache> := None;
      if headCache.Some? {
        var h := headCache.value;
        if cursor + |h.stored| > MAX_FILE_LEN {
          return None;
        }
        head := Some(HeadCache(cursor, |h.stored|, h.rawlen, h.verbatim));
        HeadStored(inner, index, h);
        inner := inner + h.stored;
        cursor := cursor + |h.stored|;
      }
      assert inner[..HEADER_LEN] == Header();
      assert HeadOf(inner, |inner|, head) == headCache && HeadRepresentable(head);
      assert IndexInData(index, |inner|) && BlocksOf(inner, index) == old(Blocks());
      var indexOffset := cursor;
      var indexBytes := SerializeIndex(index);
      if cursor + |indexBytes| > MAX_FILE_LEN {
        return None;
      }
      var sb := FinalSb(chunkSize, uncompressedSize, |index|, IndexDesc(indexOffset, |indexBytes|, crc(indexBytes)),
        head);
      FinishedOpens(crc, inner, index, chunkSize, uncompressedSize, head);
      inner := WithSlots(crc, inner + indexBytes, sb);
      r := Some(inner);
    }
  }

  lemma HeadStored(out: seq<byte>, index: seq<ChunkEntry>, h: Head)
    requires |out| >= DATA_START && |out| + |h.stored| <= MAX_FILE_LEN && IndexInData(index, |out|)
    ensures var img := out + h.stored;
      var hc := Some(HeadCache(|out|, |h.stored|, h.rawlen, h.verbatim));
      && HeadRepresentable(hc) && HeadOf(img, |img|, hc) == Some(h)
      && IndexInData(index, |img|) && BlocksOf(img, index) == BlocksOf(out, index)
      && img[..HEADER_LEN] == out[..HEADER_LEN]
  {
    var img := out + h.stored;
    assert img[|out|..|out| + |h.stored|] == h.stored;
    BlocksFrame(out, img, index);
  }

  /** How many bytes of stored blocks there are. */
  function StoredBytes(blocks: seq<RawBlock>): nat {
    if |blocks| == 0 then 0 else StoredBytes(blocks[..|blocks| - 1]) + |blocks[|blocks| - 1].stored|
  }

  /** The length of the archive made of these blocks. */
  function ArchiveLen(blocks: seq<RawBlock>, head: Option<Head>): nat {
    DATA_START + StoredBytes(blocks) + (if head.Some? then |head.value.stored| else 0) + |blocks| * INDEX_ENTRY_LEN
  }

  lemma {:induction false} StoredBytesGrow(blocks: seq<RawBlock>, n: nat)
    requires n <= |blocks|
    ensures StoredBytes(blocks[..n]) <= StoredBytes(blocks)
    decreases |blocks|
  {
    if n < |blocks| {
      var k := |blocks| - 1;
      StoredBytesGrow(blocks[..k], n);
      assert blocks[..k][..n] == blocks[..n];
    } else {
      assert blocks[..n] == blocks;
    }
  }

  /** Any list of `append_block`, up to the first that does not fit. */
  method AppendAll(w: ArchiveWriter, blocks: seq<RawBlock>) returns (ok: bool)
    requires w.Valid() && w.Blocks() == [] && w.uncompressedSize == 0 && w.cursor == DATA_START
    modifies w
    ensures w.Valid() && w.headCache == old(w.headCache)
    ensures ok <==> DATA_START + StoredBytes(blocks) <= MAX_FILE_LEN
    ensures ok ==> w.Blocks() == StoredAll(w.crc, blocks) && w.uncompressedSize == Wrap(TotalRaw(blocks))
    ensures ok ==> w.cursor == DATA_START + StoredBytes(blocks)
  {
    hide IndexInData, EntryFor, Wrap, BlocksOf, HeaderOk;
    for i := 0 to |blocks|
      invariant w.Valid() && w.headCache == old(w.headCache)
      invariant w.Blocks() == StoredAll(w.crc, blocks[..i])
      invariant w.uncompressedSize == Wrap(TotalRaw(blocks[..i]))
      invariant w.cursor == DATA_START + StoredBytes(blocks[..i]) <= MAX_FILE_LEN
    {
      assert blocks[..i + 1][..i] == blocks[..i];
      assert StoredAll(w.crc, blocks[..i + 1]) == StoredAll(w.crc, blocks[..i]) + [StoredAs(w.crc, blocks[i])];
      StoredBytesGrow(blocks, i + 1);
      WrapTwice(TotalRaw(blocks[..i]), blocks[i].rawLen);
      ok := w.AppendBlock(blocks[i]);
      if !ok {
        return;
      }
    }
    assert blocks[..|blocks|] == blocks;
    ok := true;
  }

  /** `new`, any list of `append_block`, `finish`: it fails exactly on a zero chunk size or when the archive would be
      longer than a file can be; otherwise what opens is the list. */
  method BuildArchive(crc: Crc, chunkSize: u32, blocks: seq<RawBlock>, head: Option<Head>)
      returns (r: Option<seq<byte>>)
    ensures r.Some? <==> chunkSize != 0 && ArchiveLen(blocks, head) <= MAX_FILE_LEN
    ensures r.Some? ==> |r.value| == ArchiveLen(blocks, head)
    ensures r.Some? ==> Sound(crc, r.value) && LoadActiveSpec(crc, r.value).value.sb.seqno == 0
    ensures r.Some? ==>
      Recovered(crc, r.value) == Some(Version(chunkSize, StoredAll(crc, blocks), Wrap(TotalRaw(blocks)), None, head))
  {
    hide Recovered, Sound, LoadActiveSpec, IndexInData, StoredBytes, StoredAll, TotalRaw, Wrap;
    var created := ArchiveWriter.Create(crc, chunkSize);
    if created.None? {
      return None;
    }
    var w := created.value;
    var ok := AppendAll(w, blocks);
    if !ok {
      return None;
    }
    assert |w.index| == |w.Blocks()| == |blocks|;
    if head.Some? {
      w.SetHeadCache(head.value.stored, head.value.verbatim, head.value.rawlen);
    }
    r := w.Finish();
  }
}
