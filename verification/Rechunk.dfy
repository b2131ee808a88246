/** Offline rewriting of an archive: `seal_file` re-cuts the file into larger blocks, `compact_file` keeps the
    blocks and drops everything superseded (seal.rs, compact.rs). */
module Rechunk {
  import opened Bytes
  import opened Layout
  import opened Superblock
  import opened Journal
  import opened Chunk
  import opened Codec
  import opened Reader
  import opened OpeningLaws
  import opened BlockIo
  import opened ArchiveRuns
  import opened Writer
  import opened PieceBytes

  /** Skipped: not an archive, or nothing to gain. Failed: a block does not read or decode, or the output would
      be too long; the original stays. */
  datatype Rewrite = Skipped | Failed | Rewritten(img: seq<byte>)

  /** What opening the file for reading finds: a header, and a slot that validates. */
  function Opened(crc: Crc, img: seq<byte>): Option<Version> {
    if !HeaderOk(img) then None else Recovered(crc, img)
  }

  /** Reading block `idx` through the index gives the version's block, if its checksum agrees. */
  lemma ReadsBlock(crc: Crc, img: seq<byte>, idx: nat)
    requires |img| >= DATA_START && LoadActiveSpec(crc, img).Some?
      && idx < |LoadActiveSpec(crc, img).value.loaded.index|
    ensures var act, v := LoadActiveSpec(crc, img).value, Recovered(crc, img).value;
      var r := ReadBlock(crc, img, act.loaded.index, idx);
      && |v.blocks| == |act.loaded.index| && !r.Absent?
      && (r.Stored? ==> r.bytes == v.blocks[idx].stored && r.entry.flags == v.blocks[idx].flags)
      && (r.Stored? <==> crc(v.blocks[idx].stored) == v.blocks[idx].crc)
  {
    OpenedReadsStayInside(crc, img, idx);
    var act := LoadActiveSpec(crc, img).value;
    LoadedInData(crc, img, act.sb);
    assert BlocksOf(img, act.loaded.index)[idx] == BlockOf(img, act.loaded.index[idx]);
  }

  /** Every block reads and decodes. */
  ghost predicate Readable(crc: Crc, z: Zstd, v: Version) {
    AllReadable(crc, z, v.blocks)
  }

  ghost predicate AllReadable(crc: Crc, z: Zstd, blocks: seq<Block>) {
    forall i :: 0 <= i < |blocks| ==> crc(blocks[i].stored) == blocks[i].crc && BlockPlain(z, blocks[i]).Some?
  }

  lemma OpenedVersion(crc: Crc, img: seq<byte>)
    requires |img| >= DATA_START && LoadActiveSpec(crc, img).Some?
    ensures Recovered(crc, img).Some?
    ensures var act, v := LoadActiveSpec(crc, img).value, Recovered(crc, img).value;
      v.chunkSize == act.sb.chunkSize > 0 && v.tail == act.loaded.tail && v.size == act.sb.uncompressedSize
      && |v.blocks| == |act.loaded.index| && |TailBytes(v)| < U64_LIMIT
  {
    hide ParseSuperblock, LoadIndex, ReplaySpec, IndexInData;
    var sb := LoadActiveSpec(crc, img).value.sb;
    if sb.tailJournalLen > 0 && sb.tailJournalOffset + sb.tailJournalLen <= |img| {
      ReplayShorter(crc, img[sb.tailJournalOffset..sb.tailJournalOffset + sb.tailJournalLen]);
    }
  }

  // ---- writing pieces ----

  /** How many bytes the pieces take once compressed. */
  function StoredLen(z: Zstd, pieces: seq<seq<byte>>): nat {
    if pieces == [] then 0
    else StoredLen(z, pieces[..|pieces| - 1]) + |CompressBlock(z, pieces[|pieces| - 1]).bytes|
  }

  /** The length of the archive made of these pieces. */
  function OutLen(z: Zstd, pieces: seq<seq<byte>>): nat {
    DATA_START + StoredLen(z, pieces) + |pieces| * INDEX_ENTRY_LEN
  }

  /** The blocks alone are more than a file can hold. */
  predicate TooLong(z: Zstd, pieces: seq<seq<byte>>) {
    DATA_START + StoredLen(z, pieces) > MAX_FILE_LEN
  }

  lemma StoredLenSnoc(z: Zstd, pieces: seq<seq<byte>>, piece: seq<byte>)
    ensures StoredLen(z, pieces + [piece]) == StoredLen(z, pieces) + |CompressBlock(z, piece).bytes|
  {
    assert (pieces + [piece])[..|pieces|] == pieces;
  }

  lemma {:induction false} StoredLenGrows(z: Zstd, pieces: seq<seq<byte>>, more: seq<seq<byte>>)
    ensures StoredLen(z, pieces) <= StoredLen(z, pieces + more)
    decreases |more|
  {
    if more == [] {
      assert pieces + more == pieces;
    } else {
      var n := |more| - 1;
      StoredLenGrows(z, pieces, more[..n]);
      assert (pieces + more)[..|pieces| + n] == pieces + more[..n];
    }
  }

  /** Full pieces that are too long already make the whole cut too long. */
  lemma TooLongWhole(z: Zstd, written: seq<seq<byte>>, whole: seq<byte>, cs: nat)
    requires cs > 0 && AllFull(written, cs) && Concat(written) <= whole && TooLong(z, written)
    ensures TooLong(z, CutUp(whole, cs)) && OutLen(z, CutUp(whole, cs)) > MAX_FILE_LEN
  {
    hide Concat, CutUp, StoredLen;
    var t := whole[|Concat(written)|..];
    assert whole == Concat(written) + t;
    CutUpFront(written, t, cs);
    StoredLenGrows(z, written, CutUp(t, cs));
  }

  /** The block a piece is stored as. */
  function CompressedAs(crc: Crc, z: Zstd, piece: seq<byte>): Block {
    Block(CompressBlock(z, piece).bytes, if CompressBlock(z, piece).verbatim then FLAG_VERBATIM else 0,
          crc(CompressBlock(z, piece).bytes))
  }

  function CompressedAll(crc: Crc, z: Zstd, pieces: seq<seq<byte>>): (r: seq<Block>)
    ensures |r| == |pieces|
  {
    seq(|pieces|, i requires 0 <= i < |pieces| => CompressedAs(crc, z, pieces[i]))
  }

  ghost predicate AllDecodable(z: Zstd, pieces: seq<seq<byte>>) {
    forall i :: 0 <= i < |pieces| ==> Decodable(z, pieces[i])
  }

  /** Compressed blocks all read if and only if none is above the cap and compressed; they are the pieces then. */
  lemma CompressedReads(crc: Crc, z: Zstd, pieces: seq<seq<byte>>)
    requires Faithful(z)
    ensures AllReadable(crc, z, CompressedAll(crc, z, pieces)) <==> AllDecodable(z, pieces)
    ensures AllDecodable(z, pieces) ==> PlainPieces(z, CompressedAll(crc, z, pieces)) == pieces
  {
    hide Faithful, CompressBlock, DecompressBlock, Decodable;
    var blocks := CompressedAll(crc, z, pieces);
    forall i | 0 <= i < |pieces|
      ensures BlockPlain(z, blocks[i]) == if Decodable(z, pieces[i]) then Some(pieces[i]) else None
      ensures crc(blocks[i].stored) == blocks[i].crc
    {
      CompressRoundTrip(z, pieces[i]);
      assert StoredBlock(blocks[i].stored, blocks[i].flags % 2 == 1) == CompressBlock(z, pieces[i]);
    }
  }

  /** What the writer holds: these pieces, compressed. */
  ghost predicate Holds(w: ArchiveWriter, z: Zstd, pieces: seq<seq<byte>>)
    reads w
  {
    && w.Valid() && w.headCache.None? && w.Blocks() == CompressedAll(w.crc, z, pieces)
    && w.uncompressedSize == Wrap(|Concat(pieces)|)
    && w.cursor == DATA_START + StoredLen(z, pieces)
  }

  lemma PieceStored(crc: Crc, z: Zstd, pieces: seq<seq<byte>>, piece: seq<byte>)
    ensures CompressedAll(crc, z, pieces + [piece]) ==
      CompressedAll(crc, z, pieces) + [CompressedAs(crc, z, piece)]
  {
    hide CompressedAs;
  }

  method AppendPiece(w: ArchiveWriter, z: Zstd, piece: seq<byte>, ghost pieces: seq<seq<byte>>) returns (ok: bool)
    requires |piece| < U64_LIMIT && Holds(w, z, pieces)
    modifies w
    ensures ok <==> !TooLong(z, pieces + [piece])
    ensures ok ==> Holds(w, z, pieces + [piece])
  {
    hide CompressBlock, CompressedAll, Concat, StoredLen, Wrap;
    var c := CompressBlock(z, piece);
    PieceStored(w.crc, z, pieces, piece);
    ConcatSnoc(pieces, piece);
    StoredLenSnoc(z, pieces, piece);
    WrapTwice(|Concat(pieces)|, |piece|);
    ok := w.AppendBlock(RawBlock(c.bytes, c.verbatim, |piece|));
  }

  /** Emit full blocks while the buffer holds one. The buffer comes in with less than one block and one source piece
      of `source` bytes, and is left with less than one block. It fails only on what no file can hold. */
  method Drain(w: ArchiveWriter, z: Zstd, buf: seq<byte>, cs: u32, ghost source: nat, ghost pieces: seq<seq<byte>>)
    returns (ok: bool, rest: seq<byte>, ghost written: seq<seq<byte>>)
    requires 0 < cs && Holds(w, z, pieces) && AllFull(pieces, cs)
    requires |buf| < cs + source
    modifies w
    ensures AllFull(written, cs) && Concat(written) + rest == Concat(pieces) + buf
    ensures ok ==> Holds(w, z, written) && |rest| < cs
    ensures !ok ==> TooLong(z, written)
  {
    hide Holds, Concat, TooLong;
    rest, written := buf, pieces;
    while |rest| >= cs
      invariant Holds(w, z, written) && AllFull(written, cs)
      invariant Concat(written) + rest == Concat(pieces) + buf
    {
      ConcatSnoc(written, rest[..cs]);
      assert Concat(written) + rest == Concat(written) + rest[..cs] + rest[cs..];
      ok := AppendPiece(w, z, rest[..cs], written);
      written := written + [rest[..cs]];
      rest := rest[cs..];
      if !ok {
        return;
      }
    }
    ok := true;
  }

  lemma PiecesSplit(z: Zstd, v: Version, n: nat)
    requires n <= |v.blocks|
    ensures n == |v.blocks| ==> Concat(Pieces(z, v)) == Concat(PlainPieces(z, v.blocks)[..n]) + TailBytes(v)
    ensures n < |v.blocks| ==>
      Concat(PlainPieces(z, v.blocks)[..n + 1]) == Concat(PlainPieces(z, v.blocks)[..n]) + PlainPieces(z, v.blocks)[n]
  {
    var plain := PlainPieces(z, v.blocks);
    if n < |v.blocks| {
      assert plain[..n + 1] == plain[..n] + [plain[n]];
      ConcatSnoc(plain[..n], plain[n]);
    } else {
      assert plain[..n] == plain;
      if TailPiece(v) != [] {
        ConcatSnoc(plain, TailBytes(v));
      } else {
        assert plain + [] == plain;
      }
    }
  }

  /** The input's blocks, one after the other, through the buffer; it never keeps a full target block. */
  method SealBlocks(w: ArchiveWriter, crc: Crc, z: Zstd, img: seq<byte>, cs: u32)
    returns (ok: bool, buf: seq<byte>, ghost written: seq<seq<byte>>)
    requires 0 < cs && Holds(w, z, [])
    requires |img| >= DATA_START && LoadActiveSpec(crc, img).Some? && Recovered(crc, img).Some?
    modifies w
    ensures AllFull(written, cs)
    ensures var v := Recovered(crc, img).value;
      ok ==>
        && Holds(w, z, written) && |buf| < cs && AllReadable(crc, z, v.blocks)
        && Concat(written) + buf == Concat(PlainPieces(z, v.blocks))
    ensures var v := Recovered(crc, img).value;
      !ok ==>
        || !AllReadable(crc, z, v.blocks)
        || (TooLong(z, written) && Concat(written) <= Concat(PlainPieces(z, v.blocks)))
  {
    hide Holds, Concat, LoadActiveSpec, Recovered, DecompressBlock, TooLong, AllFull;
    var act := LoadActive(crc, img);
    OpenedVersion(crc, img);
    ghost var v := Recovered(crc, img).value;
    var index := act.value.loaded.index;
    buf, written := [], [];
    NothingFull(cs);
    var idx := 0;
    while idx < |index|
      invariant 0 <= idx <= |index| == |v.blocks|
      invariant Holds(w, z, written) && AllFull(written, cs) && |buf| < cs
      invariant Concat(written) + buf == Concat(PlainPieces(z, v.blocks)[..idx])
      invariant AllReadable(crc, z, v.blocks[..idx])
    {
      ReadsBlock(crc, img, idx);
      PiecesSplit(z, v, idx);
      var got := ReadBlock(crc, img, index, idx);
      if !got.Stored? {
        return false, buf, written;
      }
      var plain := DecompressBlock(z, StoredBlock(got.bytes, got.entry.IsVerbatim()));
      if plain.None? {
        return false, buf, written;
      }
      assert PlainPieces(z, v.blocks)[idx] == plain.value;
      assert Concat(written) + buf + plain.value == Concat(written) + (buf + plain.value);
      ok, buf, written := Drain(w, z, buf + plain.value, cs, |plain.value|, written);
      if !ok {
        ConcatPrefix(PlainPieces(z, v.blocks), idx + 1);
        return;
      }
      assert v.blocks[..idx + 1] == v.blocks[..idx] + [v.blocks[idx]];
      idx := idx + 1;
    }
    assert v.blocks[..idx] == v.blocks && PlainPieces(z, v.blocks)[..idx] == PlainPieces(z, v.blocks);
    ok := true;
  }

  lemma NothingFull(cs: nat)
    ensures AllFull([], cs)
  {
  }

  function Effective(v: Version, sealChunk: u32): u32 {
    if v.chunkSize >= sealChunk then v.chunkSize else sealChunk
  }

  /** The blocks the output of `seal_file` is to hold. */
  function SealedPieces(z: Zstd, v: Version, sealChunk: u32): seq<seq<byte>>
    requires Effective(v, sealChunk) > 0
  {
    CutUp(Concat(Pieces(z, v)), Effective(v, sealChunk))
  }

  /** What `seal_file` promises of its output: the input's blocks and tail, end to end, in blocks of the larger of
      the two sizes, all full but the last. */
  ghost predicate Sealed(crc: Crc, z: Zstd, v: Version, img: seq<byte>, sealChunk: u32)
    requires Effective(v, sealChunk) > 0
  {
    && Sound(crc, img) && Opened(crc, img).Some?
    && var w := Opened(crc, img).value;
    && w.chunkSize == Effective(v, sealChunk) && w.tail.None? && w.head.None?
    && w.blocks == CompressedAll(crc, z, SealedPieces(z, v, sealChunk)) && w.size == Wrap(|Concat(Pieces(z, v))|)
  }

  /** The tail goes through the same buffer, and what is left at the end is the last block. */
  method SealRest(w: ArchiveWriter, z: Zstd, buf0: seq<byte>, tail: seq<byte>, cs: u32, ghost written: seq<seq<byte>>)
    returns (ok: bool)
    requires 0 < cs && Holds(w, z, written) && AllFull(written, cs) && |buf0| < cs
    modifies w
    ensures var all := CutUp(Concat(written) + buf0 + tail, cs);
      (ok ==> Holds(w, z, all)) && (!ok ==> TooLong(z, all) && OutLen(z, all) > MAX_FILE_LEN)
  {
    hide Holds, Concat, AllFull, TooLong, StoredLen;
    ghost var whole := Concat(written) + buf0 + tail;
    assert Concat(written) + (buf0 + tail) == whole;
    var buf;
    ghost var full;
    ok, buf, full := Drain(w, z, buf0 + tail, cs, |tail|, written);
    if !ok {
      TooLongWhole(z, full, whole, cs);
      return;
    }
    CutUpFront(full, buf, cs);
    if buf != [] {
      ok := AppendPiece(w, z, buf, full);
      TooLongOut(z, full + [buf]);
    } else {
      assert full + [] == full;
    }
  }

  lemma TooLongOut(z: Zstd, pieces: seq<seq<byte>>)
    ensures TooLong(z, pieces) ==> OutLen(z, pieces) > MAX_FILE_LEN
  {
  }

  lemma SoundLong(crc: Crc, img: seq<byte>)
    requires Sound(crc, img)
    ensures HeaderOk(img)
  {
  }

  ghost predicate SealSkips(v: Option<Version>, sealChunk: u32) {
    v.None? || (v.value.chunkSize >= sealChunk && TailBytes(v.value) == [])
  }

  /** `seal_file`: skipped when this is no archive or it is sealed already; otherwise rewritten exactly if every block
      reads and decodes and the output fits in a file. It does not look whether its output reads: that is so exactly if
      no block above the decompression cap was worth compressing. */
  method SealFile(crc: Crc, z: Zstd, img: seq<byte>, sealChunk: u32) returns (r: Rewrite)
    requires sealChunk > 0
    ensures r.Skipped? <==> SealSkips(Opened(crc, img), sealChunk)
    ensures r.Rewritten? <==>
      && !SealSkips(Opened(crc, img), sealChunk)
      && Readable(crc, z, Opened(crc, img).value)
      && OutLen(z, SealedPieces(z, Opened(crc, img).value, sealChunk)) <= MAX_FILE_LEN
    ensures r.Rewritten? ==>
      && Sealed(crc, z, Opened(crc, img).value, r.img, sealChunk)
      && |r.img| == OutLen(z, SealedPieces(z, Opened(crc, img).value, sealChunk))
    ensures r.Rewritten? && Faithful(z) ==>
      (Readable(crc, z, Opened(crc, r.img).value) <==>
       AllDecodable(z, SealedPieces(z, Opened(crc, img).value, sealChunk)))
  {
    hide Holds, Concat, Faithful, LoadActiveSpec, Recovered, DecompressBlock, Sound, AllReadable, PlainPieces, Pieces;
    hide TooLong, StoredLen, CutUp, AllFull, CompressedAll, AllDecodable;
    if !HeaderOk(img) {
      return Skipped;
    }
    var act := LoadActive(crc, img);
    if act.None? {
      NotOpened(crc, img);
      return Skipped;
    }
    OpenedVersion(crc, img);
    ghost var v := Recovered(crc, img).value;
    var curChunk := act.value.sb.chunkSize;
    var tail := if act.value.loaded.tail.Some? then act.value.loaded.tail.value else [];
    if curChunk >= sealChunk && tail == [] {
      return Skipped;
    }
    var effective := if curChunk >= sealChunk then curChunk else sealChunk;
    var created := ArchiveWriter.Create(crc, effective);
    var w := created.value;
    StartsEmpty(w, z);
    var ok, buf;
    ghost var written;
    ok, buf, written := SealBlocks(w, crc, z, img, effective);
    PiecesSplit(z, v, |v.blocks|);
    AllPieces(z, v);
    ReadableIff(crc, z, v);
    if !ok {
      if AllReadable(crc, z, v.blocks) {
        TooLongWhole(z, written, Concat(Pieces(z, v)), effective);
      }
      return Failed;
    }
    ok := SealRest(w, z, buf, tail, effective, written);
    if !ok {
      return Failed;
    }
    ghost var pieces := SealedPieces(z, v, sealChunk);
    HoldsMeans(w, z, pieces);
    CutUpIsCut(Concat(Pieces(z, v)), effective);
    ghost var blocks := w.Blocks();
    var out := w.Finish();
    if out.None? {
      return Failed;
    }
    SoundLong(crc, out.value);
    SealedFrom(crc, z, v, out.value, sealChunk, blocks);
    r := Rewritten(out.value);
    if Faithful(z) {
      ReadableIff(crc, z, Opened(crc, r.img).value);
      CompressedReads(crc, z, pieces);
    }
  }

  lemma HoldsMeans(w: ArchiveWriter, z: Zstd, pieces: seq<seq<byte>>)
    requires Holds(w, z, pieces)
    ensures w.Valid() && w.headCache.None? && |w.index| == |pieces|
    ensures w.Blocks() == CompressedAll(w.crc, z, pieces) && w.uncompressedSize == Wrap(|Concat(pieces)|)
    ensures w.cursor + |w.index| * INDEX_ENTRY_LEN == OutLen(z, pieces)
  {
    assert |w.Blocks()| == |w.index|;
  }

  lemma ReadableIff(crc: Crc, z: Zstd, v: Version)
    ensures Readable(crc, z, v) <==> AllReadable(crc, z, v.blocks)
  {
  }

  lemma SealedFrom(crc: Crc, z: Zstd, v: Version, img: seq<byte>, sealChunk: u32, blocks: seq<Block>)
    requires Sound(crc, img) && HeaderOk(img) && Effective(v, sealChunk) > 0
    requires Recovered(crc, img)
      == Some(Version(Effective(v, sealChunk), blocks, Wrap(|Concat(Pieces(z, v))|), None, None))
    requires blocks == CompressedAll(crc, z, SealedPieces(z, v, sealChunk))
    ensures Sealed(crc, z, v, img, sealChunk)
  {
    hide Sound, Recovered, Pieces, Concat, CutUp, Wrap, CompressedAll;
  }

  lemma NotOpened(crc: Crc, img: seq<byte>)
    requires |img| >= DATA_START && LoadActiveSpec(crc, img).None?
    ensures Opened(crc, img).None?
  {
  }

  lemma StartsEmpty(w: ArchiveWriter, z: Zstd)
    requires w.Valid() && w.headCache.None? && w.Blocks() == [] && w.uncompressedSize == 0 && w.cursor == DATA_START
    ensures Holds(w, z, [])
  {
  }

  lemma AllPieces(z: Zstd, v: Version)
    ensures Concat(PlainPieces(z, v.blocks)[..|v.blocks|]) == Concat(PlainPieces(z, v.blocks))
  {
    assert PlainPieces(z, v.blocks)[..|v.blocks|] == PlainPieces(z, v.blocks);
  }

  /** A sealed file reads if and only if every block it was cut into is within the cap or stored as it is; then its
      pieces are those blocks. */
  lemma SealedReads(crc: Crc, z: Zstd, v: Version, img: seq<byte>, sealChunk: u32)
    requires Faithful(z) && v.chunkSize > 0 && Sealed(crc, z, v, img, sealChunk)
    ensures var w, pieces := Opened(crc, img).value, SealedPieces(z, v, sealChunk);
      && (Readable(crc, z, w) <==> AllDecodable(z, pieces))
      && (Readable(crc, z, w) ==> Pieces(z, w) == pieces)
  {
    hide Pieces, Concat, CutUp, Sound, Recovered, AllReadable, AllDecodable, CompressedAll, Wrap;
    var w, pieces := Opened(crc, img).value, SealedPieces(z, v, sealChunk);
    CompressedReads(crc, z, pieces);
    ReadableIff(crc, z, w);
    NoTailPieces(z, w);
  }

  lemma NoTailPieces(z: Zstd, w: Version)
    requires w.tail.None?
    ensures Pieces(z, w) == PlainPieces(z, w.blocks)
  {
    assert PlainPieces(z, w.blocks) + [] == PlainPieces(z, w.blocks);
  }

  /** A target within the cap is always safe, and so is a file that is no longer than the cap. */
  lemma SmallIsDecodable(z: Zstd, v: Version, sealChunk: u32)
    requires v.chunkSize > 0
    requires Effective(v, sealChunk) <= MAX_DECOMPRESSED_BLOCK || |Concat(Pieces(z, v))| <= MAX_DECOMPRESSED_BLOCK
    ensures AllDecodable(z, SealedPieces(z, v, sealChunk))
  {
    hide Pieces, Concat, CutUp;
    var whole := Concat(Pieces(z, v));
    CutUpIsCut(whole, Effective(v, sealChunk));
    PieceWithin(SealedPieces(z, v, sealChunk));
  }

  /** No piece is longer than the whole. */
  lemma {:induction false} PieceWithin(pieces: seq<seq<byte>>)
    ensures forall i :: 0 <= i < |pieces| ==> |pieces[i]| <= |Concat(pieces)|
    decreases |pieces|
  {
    if pieces != [] {
      PieceWithin(pieces[..|pieces| - 1]);
    }
  }

  /** A sealed file that reads is the blocks and tail end to end: it reads as the original did if and only if the
      original reads so. Dense archives do; among archives no piece of which is longer than its place, no others do,
      and no others keep their size. */
  lemma SealPreserves(crc: Crc, z: Zstd, v: Version, img: seq<byte>, sealChunk: u32)
    requires Faithful(z) && v.chunkSize > 0 && Sealed(crc, z, v, img, sealChunk)
    ensures Opened(crc, img).value.chunkSize > 0
    ensures var w := Opened(crc, img).value;
      Readable(crc, z, w) && |Concat(Pieces(z, v))| < U64_LIMIT ==>
        && ArchiveBytes(z, w) == Concat(Pieces(z, v)) && Dense(Pieces(z, w), w.chunkSize, w.size)
        && (ArchiveBytes(z, w) == ArchiveBytes(z, v) <==> Concat(Pieces(z, v)) == ArchiveBytes(z, v))
    ensures Fits(Pieces(z, v), v.chunkSize, v.size) ==>
      && |Concat(Pieces(z, v))| < U64_LIMIT
      && (Concat(Pieces(z, v)) == ArchiveBytes(z, v) <==> Dense(Pieces(z, v), v.chunkSize, v.size))
      && (Opened(crc, img).value.size == v.size <==> Dense(Pieces(z, v), v.chunkSize, v.size))
  {
    hide Pieces, Concat, Cut, FlatOf, Sound, Readable, CutUp, RawLen, BlockStart, Wrap, CompressedAll, AllDecodable;
    var w := Opened(crc, img).value;
    var whole := Concat(Pieces(z, v));
    SealedReads(crc, z, v, img, sealChunk);
    if Readable(crc, z, w) && |whole| < U64_LIMIT {
      CutUpIsCut(whole, w.chunkSize);
      CutIsDense(Pieces(z, w), w.chunkSize);
      DenseReads(Pieces(z, w), w.chunkSize, w.size);
    }
    if Fits(Pieces(z, v), v.chunkSize, v.size) {
      SumBound(Pieces(z, v), v.chunkSize, v.size);
      ReadsAsLaidOut(Pieces(z, v), v.chunkSize, v.size);
    }
  }

  lemma DenseFits(pieces: seq<seq<byte>>, cs: nat, size: nat)
    ensures Dense(pieces, cs, size) ==> Fits(pieces, cs, size)
  {
  }

  /** End to end: a dense archive whose blocks all read, not sealed yet, and whose output fits in a file, is rewritten
      with the same size. The new file reads if and only if no block above the cap was worth compressing - always, for
      a target or a file within the cap - and then it has the same bytes. */
  method SealDenseFile(crc: Crc, z: Zstd, img: seq<byte>, sealChunk: u32) returns (r: Rewrite)
    requires Faithful(z) && sealChunk > 0 && !SealSkips(Opened(crc, img), sealChunk)
    requires var v := Opened(crc, img).value;
      && v.chunkSize > 0 && Readable(crc, z, v) && Dense(Pieces(z, v), v.chunkSize, v.size)
      && OutLen(z, SealedPieces(z, v, sealChunk)) <= MAX_FILE_LEN
    ensures r.Rewritten? && Opened(crc, r.img).Some?
    ensures var v, w := Opened(crc, img).value, Opened(crc, r.img).value;
      && w.chunkSize == Effective(v, sealChunk) && w.tail.None? && w.size == v.size
      && (Readable(crc, z, w) <==> AllDecodable(z, SealedPieces(z, v, sealChunk)))
      && (Effective(v, sealChunk) <= MAX_DECOMPRESSED_BLOCK || v.size <= MAX_DECOMPRESSED_BLOCK ==> Readable(crc, z, w))
      && (Readable(crc, z, w) ==>
            ArchiveBytes(z, w) == ArchiveBytes(z, v) && Dense(Pieces(z, w), w.chunkSize, w.size))
  {
    hide Pieces, Concat, Dense, Readable, Sound, CutUp, Opened, StoredLen, Fits, Wrap, AllDecodable, CompressedAll;
    r := SealFile(crc, z, img, sealChunk);
    ghost var v := Opened(crc, img).value;
    DenseFits(Pieces(z, v), v.chunkSize, v.size);
    SealPreserves(crc, z, v, r.img, sealChunk);
    ReadsAsLaidOut(Pieces(z, v), v.chunkSize, v.size);
    if Effective(v, sealChunk) <= MAX_DECOMPRESSED_BLOCK || v.size <= MAX_DECOMPRESSED_BLOCK {
      SmallIsDecodable(z, v, sealChunk);
    }
  }

  /** A file is an archive exactly if it has the header and one of its slots is good. */
  lemma OpenedExactly(crc: Crc, img: seq<byte>)
    ensures Opened(crc, img).Some? <==>
      && |img| >= DATA_START && img[..12] == [0x5A, 0x49, 0x50, 0x46, 0x53, 0x41, 0x52, 0x01, 2, 0, 0, 0]
      && exists slot, sb :: IsSlot(slot) && GoodSlot(crc, img, slot, sb)
  {
    hide GoodSlot, LoadActiveSpec, VersionOf, HeaderOk;
    if |img| >= DATA_START {
      HeaderExactly(img);
      ClosedExactly(crc, img);
    } else {
      ShortIsNone(img);
    }
  }

  lemma ShortIsNone(img: seq<byte>)
    ensures HeaderOk(img) ==> |img| >= DATA_START
  {
  }

  /** A tail is always folded in, at whatever target; once sealed at a target a file is left alone. */
  method SealTwice(crc: Crc, z: Zstd, img: seq<byte>, sealChunk: u32) returns (r: Rewrite, again: Rewrite)
    requires sealChunk > 0
    ensures r.Skipped? <==>
      Opened(crc, img).Some? ==>
        var v := Opened(crc, img).value; v.chunkSize >= sealChunk && (v.tail == None || v.tail == Some([]))
    ensures Opened(crc, img).Some? ==>
      var v := Opened(crc, img).value;
      (v.tail.Some? && v.tail.value != [] && Readable(crc, z, v) && v.chunkSize > 0
       && OutLen(z, SealedPieces(z, v, sealChunk)) <= MAX_FILE_LEN) ==> r.Rewritten?
    ensures r.Rewritten? ==>
      && Opened(crc, img).Some? && Opened(crc, r.img).Some?
      && var v, w := Opened(crc, img).value, Opened(crc, r.img).value;
      && w.tail == None && w.head == None && w.chunkSize >= sealChunk && w.chunkSize >= v.chunkSize
      && (w.chunkSize == sealChunk || w.chunkSize == v.chunkSize)
      && again.Skipped?
  {
    hide Opened, Readable, OutLen, CutUp, Concat, Pieces, CompressedAll, Sound, Faithful;
    r := SealFile(crc, z, img, sealChunk);
    again := r;
    if r.Rewritten? {
      again := SealFile(crc, z, r.img, sealChunk);
    }
  }

  // ---- compaction ----

  /** The part of the file its blocks cover. */
  function Covered(v: Version, n: nat): nat {
    if v.size < BlockStart(n, v.chunkSize) then v.size else BlockStart(n, v.chunkSize)
  }

  ghost predicate SameStored(a: Block, b: Block) {
    a.stored == b.stored && a.flags % 2 == b.flags % 2 && a.crc == b.crc
  }

  /** Every block's checksum agrees; compaction decodes none. */
  ghost predicate Checks(crc: Crc, blocks: seq<Block>) {
    forall i :: 0 <= i < |blocks| ==> crc(blocks[i].stored) == blocks[i].crc
  }

  function StoredSum(blocks: seq<Block>): nat {
    if blocks == [] then 0 else StoredSum(blocks[..|blocks| - 1]) + |blocks[|blocks| - 1].stored|
  }

  lemma {:induction false} StoredSumGrows(blocks: seq<Block>, n: nat)
    requires n <= |blocks|
    ensures StoredSum(blocks[..n]) <= StoredSum(blocks)
    decreases |blocks|
  {
    if n < |blocks| {
      var k := |blocks| - 1;
      StoredSumGrows(blocks[..k], n);
      assert blocks[..k][..n] == blocks[..n];
    } else {
      assert blocks[..n] == blocks;
    }
  }

  lemma StoredSumNext(blocks: seq<Block>, n: nat)
    requires n < |blocks|
    ensures StoredSum(blocks[..n + 1]) == StoredSum(blocks[..n]) + |blocks[n].stored|
  {
    assert blocks[..n + 1][..n] == blocks[..n];
  }

  /** The length of the compacted archive. */
  function CompactLen(z: Zstd, v: Version): nat {
    DATA_START + StoredSum(v.blocks) + (if TailBytes(v) == [] then 0 else |CompressBlock(z, TailBytes(v)).bytes|)
    + (|v.blocks| + |TailPiece(v)|) * INDEX_ENTRY_LEN
  }

  /** What `compact_file` promises of its output: the same stored blocks, the tail compressed as one more block, nothing
      else. */
  ghost predicate Compacted(crc: Crc, z: Zstd, v: Version, img: seq<byte>) {
    && Sound(crc, img) && Opened(crc, img).Some?
    && var w := Opened(crc, img).value;
    && w.chunkSize == v.chunkSize && w.tail.None? && w.head.None?
    && |w.blocks| == |v.blocks| + |TailPiece(v)|
    && (forall i :: 0 <= i < |v.blocks| ==> SameStored(w.blocks[i], v.blocks[i]))
    && w.blocks[|v.blocks|..] == CompressedAll(crc, z, TailPiece(v))
    && w.size == Wrap(Covered(v, |v.blocks|) + |TailBytes(v)|)
  }

  /** A compacted file reads if and only if the original did and its tail is within the cap or stored as it is; with
      such a tail its pieces are the original's. */
  lemma CompactedReads(crc: Crc, z: Zstd, v: Version, img: seq<byte>)
    requires Faithful(z) && Compacted(crc, z, v, img)
    ensures var w := Opened(crc, img).value;
      && (Readable(crc, z, w) <==> Readable(crc, z, v) && Decodable(z, TailBytes(v)))
      && (Decodable(z, TailBytes(v)) ==> Pieces(z, w) == Pieces(z, v))
  {
    hide Sound, Recovered, Faithful, CompressBlock, DecompressBlock, CompressedAll, Decodable, Wrap, BlockStart;
    var w, n := Opened(crc, img).value, |v.blocks|;
    CompressedReads(crc, z, TailPiece(v));
    NoTailPieces(z, w);
    NothingDecodes(z);
    assert AllDecodable(z, TailPiece(v)) <==> Decodable(z, TailBytes(v)) by {
      if TailPiece(v) != [] { assert TailPiece(v)[0] == TailBytes(v); }
    }
    assert w.blocks == w.blocks[..n] + w.blocks[n..];
    CopiedPieces(z, v, w.blocks[..n]);
    PlainPiecesJoin(z, w.blocks[..n], w.blocks[n..]);
    ReadableJoin(crc, z, w.blocks[..n], w.blocks[n..]);
    SameReadable(crc, z, w.blocks[..n], v.blocks);
  }

  lemma NothingDecodes(z: Zstd)
    ensures Decodable(z, [])
  {
  }

  lemma PlainPiecesJoin(z: Zstd, a: seq<Block>, b: seq<Block>)
    ensures PlainPieces(z, a + b) == PlainPieces(z, a) + PlainPieces(z, b)
  {
    hide BlockPlain;
  }

  lemma ReadableJoin(crc: Crc, z: Zstd, a: seq<Block>, b: seq<Block>)
    ensures AllReadable(crc, z, a + b) <==> AllReadable(crc, z, a) && AllReadable(crc, z, b)
  {
    hide BlockPlain;
    var all := a + b;
    if AllReadable(crc, z, all) {
      assert forall i :: 0 <= i < |a| ==> all[i] == a[i];
      assert forall i :: 0 <= i < |b| ==> all[|a| + i] == b[i];
    }
  }

  lemma SameReadable(crc: Crc, z: Zstd, a: seq<Block>, b: seq<Block>)
    requires |a| == |b| && forall i :: 0 <= i < |a| ==> SameStored(a[i], b[i])
    ensures AllReadable(crc, z, a) <==> AllReadable(crc, z, b)
  {
    hide DecompressBlock;
    assert forall i :: 0 <= i < |a| ==> BlockPlain(z, a[i]) == BlockPlain(z, b[i]);
  }

  /** Compaction keeps the size exactly if the tail ends where the file does, and, when the tail can be read back, the
      bytes exactly then. */
  lemma CompactPreserves(crc: Crc, z: Zstd, v: Version, img: seq<byte>)
    requires Faithful(z) && v.chunkSize > 0 && Compacted(crc, z, v, img) && |TailBytes(v)| < U64_LIMIT
    ensures var w := Opened(crc, img).value;
      && (Decodable(z, TailBytes(v)) ==>
            (ArchiveBytes(z, w) == ArchiveBytes(z, v) <==> Covered(v, |v.blocks|) + |TailBytes(v)| == v.size))
      && (w.size == v.size <==> Covered(v, |v.blocks|) + |TailBytes(v)| == v.size)
  {
    hide Pieces, Sound, BlockStart, Wrap, Decodable, CompressedAll, Readable, Faithful, TailPiece, FlatOf, SameStored;
    var w := Opened(crc, img).value;
    CompactedReads(crc, z, v, img);
    assert |ArchiveBytes(z, w)| == w.size && |ArchiveBytes(z, v)| == v.size;
    WrapBelow(Covered(v, |v.blocks|), |TailBytes(v)|);
  }

  /** A sum that wraps around comes out below either summand. */
  lemma WrapBelow(a: nat, b: nat)
    requires a < U64_LIMIT && b < U64_LIMIT
    ensures a + b >= U64_LIMIT ==> Wrap(a + b) < a
  {
    if a + b >= U64_LIMIT {
      assert Wrap(a + b) == a + b - U64_LIMIT;
    }
  }

  /** What has been written of the first `n` blocks. */
  ghost predicate Copied(w: ArchiveWriter, v: Version, n: nat)
    requires n <= |v.blocks|
    reads w
  {
    && w.Valid() && w.headCache.None? && |w.Blocks()| == n
    && (forall i :: 0 <= i < n ==> SameStored(w.Blocks()[i], v.blocks[i]))
    && w.uncompressedSize == Covered(v, n) && w.cursor == DATA_START + StoredSum(v.blocks[..n])
  }

  method CopyBlock(w: ArchiveWriter, ghost v: Version, idx: nat, got: BlockRead, rawLen: u64) returns (ok: bool)
    requires idx < |v.blocks| && Copied(w, v, idx) && got.Stored?
    requires got.bytes == v.blocks[idx].stored && got.entry.flags == v.blocks[idx].flags
    requires w.crc(got.bytes) == v.blocks[idx].crc && rawLen == RawLen(idx, v.chunkSize, v.size)
    modifies w
    ensures ok <==> DATA_START + StoredSum(v.blocks[..idx + 1]) <= MAX_FILE_LEN
    ensures ok ==> Copied(w, v, idx + 1)
  {
    hide BlockStart, RawLen, Wrap, StoredSum, IndexInData, BlocksOf;
    RawLenSum(idx, v.chunkSize, v.size);
    StoredSumNext(v.blocks, idx);
    ok := w.AppendBlock(RawBlock(got.bytes, got.entry.IsVerbatim(), rawLen));
  }

  method CopyBlocks(w: ArchiveWriter, crc: Crc, img: seq<byte>) returns (ok: bool)
    requires |img| >= DATA_START && LoadActiveSpec(crc, img).Some? && w.crc == crc
    requires Recovered(crc, img).Some? && Copied(w, Recovered(crc, img).value, 0)
    modifies w
    ensures var v := Recovered(crc, img).value;
      ok <==> Checks(crc, v.blocks) && DATA_START + StoredSum(v.blocks) <= MAX_FILE_LEN
    ensures var v := Recovered(crc, img).value;
      ok ==> Copied(w, v, |v.blocks|)
  {
    hide Copied, LoadActiveSpec, Recovered, BlockStart;
    var act := LoadActive(crc, img);
    OpenedVersion(crc, img);
    ghost var v := Recovered(crc, img).value;
    var index := act.value.loaded.index;
    var idx := 0;
    ok := true;
    assert v.blocks[..0] == [];
    while idx < |index|
      invariant 0 <= idx <= |index| == |v.blocks| && Copied(w, v, idx)
      invariant Checks(crc, v.blocks[..idx]) && DATA_START + StoredSum(v.blocks[..idx]) <= MAX_FILE_LEN
    {
      ReadsBlock(crc, img, idx);
      StoredSumGrows(v.blocks, idx + 1);
      var got := ReadBlock(crc, img, index, idx);
      if !got.Stored? {
        return false;
      }
      ok := CopyBlock(w, v, idx, got, RawLen(idx, act.value.sb.chunkSize, act.value.sb.uncompressedSize));
      if !ok {
        return;
      }
      assert v.blocks[..idx + 1] == v.blocks[..idx] + [v.blocks[idx]];
      idx := idx + 1;
    }
    assert v.blocks[..idx] == v.blocks;
    ok := true;
  }

  lemma CopiedPieces(z: Zstd, v: Version, blocks: seq<Block>)
    requires |blocks| == |v.blocks| && forall i :: 0 <= i < |blocks| ==> SameStored(blocks[i], v.blocks[i])
    ensures PlainPieces(z, blocks) == PlainPieces(z, v.blocks)
  {
  }

  /** The tail, if there is one, as a last block. */
  method CopyTail(w: ArchiveWriter, z: Zstd, tail: seq<byte>, ghost v: Version) returns (ok: bool)
    requires Copied(w, v, |v.blocks|) && tail == TailBytes(v) && |tail| < U64_LIMIT
    modifies w
    ensures !ok ==> CompactLen(z, v) > MAX_FILE_LEN
    ensures ok ==> w.Valid() && w.headCache.None? && w.cursor + |w.index| * INDEX_ENTRY_LEN == CompactLen(z, v)
    ensures ok ==> CopiedAll(w, z, v)
  {
    hide StoredSum, BlockStart, CompressBlock, Wrap;
    CopiedMeans(w, v);
    ok := true;
    if tail != [] {
      var c := CompressBlock(z, tail);
      ok := w.AppendBlock(RawBlock(c.bytes, c.verbatim, |tail|));
      assert CompressedAll(w.crc, z, [tail]) == [CompressedAs(w.crc, z, tail)];
    }
    assert ok ==> |w.index| == |w.Blocks()|;
  }

  /** All the blocks, and the tail's. */
  ghost predicate CopiedAll(w: ArchiveWriter, z: Zstd, v: Version)
    requires w.Valid()
    reads w
  {
    && |w.Blocks()| == |v.blocks| + |TailPiece(v)|
    && (forall i :: 0 <= i < |v.blocks| ==> SameStored(w.Blocks()[i], v.blocks[i]))
    && w.Blocks()[|v.blocks|..] == CompressedAll(w.crc, z, TailPiece(v))
    && w.uncompressedSize == Wrap(Covered(v, |v.blocks|) + |TailBytes(v)|)
  }

  /** `compact_file`: failed exactly if a block's checksum disagrees or the output fits in no file, skipped exactly if
      this is no archive or the output would not be shorter. It does not look whether its output reads: that is so
      exactly if the original does and the tail was not both above the decompression cap and worth compressing. */
  method CompactFile(crc: Crc, z: Zstd, img: seq<byte>) returns (r: Rewrite)
    ensures r.Failed? <==>
      && Opened(crc, img).Some?
      && (!Checks(crc, Opened(crc, img).value.blocks) || CompactLen(z, Opened(crc, img).value) > MAX_FILE_LEN)
    ensures r.Rewritten? <==>
      && Opened(crc, img).Some? && Checks(crc, Opened(crc, img).value.blocks)
      && CompactLen(z, Opened(crc, img).value) <= MAX_FILE_LEN && CompactLen(z, Opened(crc, img).value) < |img|
    ensures r.Rewritten? ==>
      && Compacted(crc, z, Opened(crc, img).value, r.img) && |r.img| == CompactLen(z, Opened(crc, img).value)
    ensures r.Rewritten? && Faithful(z) ==>
      (Readable(crc, z, Opened(crc, r.img).value) <==>
       Readable(crc, z, Opened(crc, img).value) && Decodable(z, TailBytes(Opened(crc, img).value)))
  {
    hide Copied, Faithful, LoadActiveSpec, Recovered, Sound, Checks, StoredSum, CompressBlock, CompressedAll, Decodable;
    hide BlockStart, SameStored, Readable, Wrap;
    if !HeaderOk(img) {
      return Skipped;
    }
    var act := LoadActive(crc, img);
    if act.None? {
      NotOpened(crc, img);
      return Skipped;
    }
    OpenedVersion(crc, img);
    ghost var v := Recovered(crc, img).value;
    var created := ArchiveWriter.Create(crc, act.value.sb.chunkSize);
    var w := created.value;
    NothingCopied(w, v);
    var ok := CopyBlocks(w, crc, img);
    if !ok {
      return Failed;
    }
    var tail := if act.value.loaded.tail.Some? then act.value.loaded.tail.value else [];
    ok := CopyTail(w, z, tail, v);
    if !ok {
      return Failed;
    }
    ghost var blocks := w.Blocks();
    var out := w.Finish();
    if out.None? {
      return Failed;
    }
    if |out.value| >= |img| {
      return Skipped;
    }
    SoundLong(crc, out.value);
    CompactedFrom(crc, z, v, out.value, blocks);
    r := Rewritten(out.value);
    if Faithful(z) {
      CompactedReads(crc, z, v, r.img);
    }
  }

  lemma NothingCopied(w: ArchiveWriter, v: Version)
    requires w.Valid() && w.headCache.None? && w.Blocks() == [] && w.uncompressedSize == 0 && w.cursor == DATA_START
    ensures Copied(w, v, 0)
  {
    StartZero(v.chunkSize);
    assert v.blocks[..0] == [];
  }

  lemma CopiedMeans(w: ArchiveWriter, v: Version)
    requires Copied(w, v, |v.blocks|)
    ensures w.Valid() && w.headCache.None? && |w.Blocks()| == |v.blocks| && w.uncompressedSize == Covered(v, |v.blocks|)
    ensures forall i :: 0 <= i < |v.blocks| ==> SameStored(w.Blocks()[i], v.blocks[i])
    ensures Covered(v, |v.blocks|) <= v.size && w.cursor == DATA_START + StoredSum(v.blocks)
  {
    assert v.blocks[..|v.blocks|] == v.blocks;
  }

  lemma CompactedFrom(crc: Crc, z: Zstd, v: Version, img: seq<byte>, blocks: seq<Block>)
    requires Sound(crc, img) && HeaderOk(img)
    requires Recovered(crc, img)
      == Some(Version(v.chunkSize, blocks, Wrap(Covered(v, |v.blocks|) + |TailBytes(v)|), None, None))
    requires |blocks| == |v.blocks| + |TailPiece(v)|
    requires forall i :: 0 <= i < |v.blocks| ==> SameStored(blocks[i], v.blocks[i])
    requires blocks[|v.blocks|..] == CompressedAll(crc, z, TailPiece(v))
    ensures Compacted(crc, z, v, img)
  {
    hide Sound, Recovered, CompressedAll, Wrap;
  }

  /** End to end: an archive whose blocks all check, whose tail ends where the file does, and which has something to
      give back, is rewritten shorter with the same size. The new file reads if and only if the original did and the
      tail was not both above the cap and worth compressing; with such a tail it has the same bytes. */
  method CompactWholeFile(crc: Crc, z: Zstd, img: seq<byte>) returns (r: Rewrite)
    requires Faithful(z) && Opened(crc, img).Some?
    requires var v := Opened(crc, img).value;
      && v.chunkSize > 0 && Checks(crc, v.blocks) && Covered(v, |v.blocks|) + |TailBytes(v)| == v.size
      && CompactLen(z, v) <= MAX_FILE_LEN && CompactLen(z, v) < |img|
    ensures r.Rewritten? && |r.img| < |img| && Opened(crc, r.img).Some?
    ensures var v, w := Opened(crc, img).value, Opened(crc, r.img).value;
      && w.chunkSize == v.chunkSize && w.tail.None? && w.head.None? && w.size == v.size
      && |w.blocks| == |v.blocks| + (if v.tail.Some? && v.tail.value != [] then 1 else 0)
      && (forall i :: 0 <= i < |v.blocks| ==> w.blocks[i].stored == v.blocks[i].stored)
      && (Readable(crc, z, w) <==> Readable(crc, z, v) && Decodable(z, TailBytes(v)))
      && (Decodable(z, TailBytes(v)) ==> ArchiveBytes(z, w) == ArchiveBytes(z, v))
  {
    hide Pieces, Checks, Sound, Opened, StoredSum, CompressBlock, CompressedAll, Readable, Decodable, Wrap;
    r := CompactFile(crc, z, img);
    CompactPreserves(crc, z, Opened(crc, img).value, r.img);
  }
}
