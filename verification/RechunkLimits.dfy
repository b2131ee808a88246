/** Archives that re-chunking does not keep: how the code comes to them, and what it makes of them (seal.rs,
    compact.rs, core/rmw.rs, archive/updater.rs). */
module RechunkLimits {
  import opened Bytes
  import opened Layout
  import opened Chunk
  import opened Codec
  import opened Reader
  import opened BlockIo
  import opened VersionSpec
  import opened UpdaterSpec
  import opened ArchiveUpdaters
  import opened ArchiveRuns
  import opened UntornCrashes
  import opened ProtocolProgress
  import W = Writer
  import opened PieceBytes
  import R = Rechunk
  import opened Stores
  import M = Rmw

  // ---- sealing a file with a short interior block ----

  /** A file that starts with the byte `b`, all of it in block 0. */
  lemma FirstByteBlock(z: Zstd, f: FileData, b: byte)
    requires FileOk(z, f) && f.chunkSize == 2 && Flat(z, f) == [b] && b != 0
    ensures 0 in f.blocks && Plain(z, f, 0) == [b]
  {
    M.FileOkAt(z, f, 0);
    InBlock(0, 0, 2);
    assert Flat(z, f)[0] == ByteAt(z, f, 0);
  }

  /** A full block, read off the file. */
  lemma SecondBlock(z: Zstd, f: FileData, a: byte, b: byte)
    requires FileOk(z, f) && f.chunkSize == 2 && f.size == 4 && Flat(z, f)[2] == a && Flat(z, f)[3] == b && b != 0
    ensures 1 in f.blocks && Plain(z, f, 1) == [a, b]
  {
    M.FileOkAt(z, f, 1);
    InBlock(2, 1, 2);
    InBlock(3, 1, 2);
    assert Flat(z, f)[2] == ByteAt(z, f, 2) && Flat(z, f)[3] == ByteAt(z, f, 3);
  }

  /** Two writes, the second starting a new chunk past the unfinished first one: the store holds [7] and [8, 9],
      and the file reads 7 0 8 9. */
  method WriteShortBlock(z: Zstd) returns (p0: seq<byte>, p1: seq<byte>, ghost f: FileData)
    requires Faithful(z)
    ensures p0 == [7] && p1 == [8, 9] && f.chunkSize == 2 && f.size == 4 && Flat(z, f) == [7, 0, 8, 9]
    ensures Plain(z, f, 0) == p0 && Plain(z, f, 1) == p1
  {
    hide FileOk, Plain, BlockStart, Flat, Faithful;
    var store := new Store(z, false);
    store.Create(1, 2);
    RoundTripsExactly(z, 2);
    var w1 := M.WriteAt(store, 1, 0, [7]);
    ghost var f1 := store.files[1];
    assert Splice([], 0, [7]) == [7];
    FirstByteBlock(z, f1, 7);
    var w2 := M.WriteAt(store, 1, 2, [8, 9]);
    f := store.files[1];
    SpliceTwo();
    Kept0(z, f1, f);
    SecondBlock(z, f, 8, 9);
    M.FileOkAt(z, f, 0);
    M.FileOkAt(z, f, 1);
    M.DecodesIfOk(z, f, 0);
    M.DecodesIfOk(z, f, 1);
    p0 := M.LoadPlainBlock(store, 1, 0);
    p1 := M.LoadPlainBlock(store, 1, 1);
  }

  lemma SpliceTwo()
    ensures Splice([7], 2, [8, 9]) == [7, 0, 8, 9]
  {
  }

  lemma Kept0(z: Zstd, f0: FileData, f: FileData)
    requires f0.chunkSize == 2 && f0.size == 1 && M.WriteShape(z, f0, f, 2, 2) && 0 in f0.blocks
      && Plain(z, f0, 0) == [7]
    ensures Plain(z, f, 0) == [7]
  {
    InBlock(2, 1, 2);
    DivCeilBounds(1, 2, 0);
    assert M.ShapeAt(z, f0, f, 2, 2, 0);
  }

  /** The archive of that file, sealed: the file read 7 0 8 9, the sealed one reads 7 8 9. */
  method SealLosesAPlace(crc: Crc, z: Zstd) returns (img: seq<byte>, r: R.Rewrite)
    requires Faithful(z)
    ensures R.Opened(crc, img).Some? && R.Opened(crc, img).value.chunkSize > 0
    ensures ArchiveBytes(z, R.Opened(crc, img).value) == [7, 0, 8, 9]
    ensures r.Rewritten? && R.Opened(crc, r.img).Some? && R.Opened(crc, r.img).value.chunkSize > 0
    ensures ArchiveBytes(z, R.Opened(crc, r.img).value) == [7, 8, 9]
  {
    hide Flat, Plain, Sound, Recovered, Faithful, R.StoredLen, R.AllDecodable, CutUp, Concat, FlatOf, Pieces;
    hide R.Readable;
    var p0, p1;
    ghost var f;
    p0, p1, f := WriteShortBlock(z);
    var blocks := [W.RawBlock(p0, true, 2), W.RawBlock(p1, true, 2)];
    TwoBlocks(crc, z, blocks);
    var built := W.BuildArchive(crc, 2, blocks, None);
    img := built.value;
    R.SoundLong(crc, img);
    ghost var v := R.Opened(crc, img).value;
    ShortPieces(crc, z, v, blocks);
    SealedShort(z, v);
    r := R.SealFile(crc, z, img, 4);
    R.SmallIsDecodable(z, v, 4);
    R.SealPreserves(crc, z, v, r.img, 4);
  }

  lemma TwoBlocks(crc: Crc, z: Zstd, blocks: seq<W.RawBlock>)
    requires blocks == [W.RawBlock([7], true, 2), W.RawBlock([8, 9], true, 2)]
    ensures W.TotalRaw(blocks) == 4 && W.ArchiveLen(blocks, None) <= MAX_FILE_LEN
  {
    assert blocks[..1] == [blocks[0]] && blocks[..1][..0] == [];
    assert W.TotalRaw(blocks[..1]) == 2 && W.StoredBytes(blocks[..1]) == 1;
  }

  lemma ShortPieces(crc: Crc, z: Zstd, v: Version, blocks: seq<W.RawBlock>)
    requires blocks == [W.RawBlock([7], true, 2), W.RawBlock([8, 9], true, 2)]
    requires v == Version(2, W.StoredAll(crc, blocks), 4, None, None)
    ensures Pieces(z, v) == [[7], [8, 9]] && R.Readable(crc, z, v) && ArchiveBytes(z, v) == [7, 0, 8, 9]
    ensures Concat(Pieces(z, v)) == [7, 8, 9] && Fits(Pieces(z, v), 2, 4) && TailBytes(v) == []
  {
    ShortBlockShifts();
    assert PlainPieces(z, v.blocks) == [[7], [8, 9]];
    assert PlainPieces(z, v.blocks) + [] == [[7], [8, 9]];
  }

  lemma SealedShort(z: Zstd, v: Version)
    requires Faithful(z) && v.chunkSize == 2 && Concat(Pieces(z, v)) == [7, 8, 9]
    ensures R.OutLen(z, R.SealedPieces(z, v, 4)) <= MAX_FILE_LEN
  {
    var s: seq<byte> := [7, 8, 9];
    assert CutUp(s, 4) == [s];
    assert [s][..0] == [];
    CompressRoundTrip(z, s);
    assert R.StoredLen(z, [s]) == R.StoredLen(z, []) + |CompressBlock(z, s).bytes|;
  }

  // ---- compacting a file extended past its blocks ----

  /** An archive just opened, its size set to `newSize` with all blocks kept, and committed: the blocks are the same,
      the size is the new one, and the file has grown by the new index. */
  lemma ExtendCommitted(crc: Crc, img: seq<byte>, w: World, newSize: u64)
    requires Start(crc, img, w) && w.arch.up.activeSeq + 1 < U64_LIMIT && w.acked.head.None?
    requires |img| + |IndexBytes(w.arch.up.index)| <= MAX_FILE_LEN
    ensures var w1 := Step(crc, w, DoTruncate(|w.acked.blocks|, newSize));
      && Enabled(crc, w1, DoCommit) && w1.arch.dev == w.arch.dev
      && w1.arch.up == Truncate(w.arch.up, |w.acked.blocks|, newSize)
      && Commit(crc, w1.arch).ok
      && |View(Commit(crc, w1.arch).s.dev)| == |img| + |IndexBytes(w.arch.up.index)|
      && HeaderOk(View(Commit(crc, w1.arch).s.dev))
      && Recovered(crc, View(Commit(crc, w1.arch).s.dev)) == Some(w.acked.(size := newSize))
  {
    hide Inv, Start, Commit, Recovered, View, IndexBytes, PowerLossPossible, Step, Truncate, CommitRoom, Opened;
    hide Open, LoadActiveSpec, HeaderOk;
    var a := DoTruncate(|w.acked.blocks|, newSize);
    StartInv(crc, img, w);
    StepInv(crc, w, a);
    StartFields(crc, img, w);
    StepTruncate(crc, w, newSize);
    CommitShows(crc, Step(crc, w, a));
  }

  /** With nothing armed and room enough, the process sees just what it committed. */
  lemma CommitShows(crc: Crc, w: World)
    requires Inv(crc, w) && Enabled(crc, w, DoCommit)
    requires w.arch.dev.failWrite.None? && w.arch.dev.failSyncAt.None?
    requires w.arch.up.writeCursor + CommitRoom(w.arch.up) <= MAX_FILE_LEN
    ensures Commit(crc, w.arch).ok
    ensures var view := View(Commit(crc, w.arch).s.dev);
      |view| == w.arch.up.writeCursor + CommitRoom(w.arch.up) && HeaderOk(view)
      && Recovered(crc, view) == Some(w.draft.version)
  {
    hide Inv, Commit, Recovered, View, PowerLossPossible, Step, CommitRoom, CrashImage, Opened, HeaderOk;
    CommitSucceeds(crc, w);
    CommitLengthens(crc, w);
    StepInv(crc, w, DoCommit);
    StepCommit(crc, w);
    var w2 := Step(crc, w, DoCommit);
    var fates := AllWhole(|w2.arch.dev.dirty|);
    InvDetects(crc, w2, fates);
    CommittedComesBack(crc, w, fates);
    CrashKeepingAll(w2.arch.dev.durable, w2.arch.dev.dirty);
    ViewIs(w2.arch.dev);
    InvView(crc, w2);
  }

  lemma StepTruncate(crc: Crc, w: World, newSize: u64)
    requires |w.arch.up.index| == |w.acked.blocks| && w.arch.up.headCache.None?
    requires w.draft == Draft(w.acked, None) && w.acked.head.None? && |w.acked.blocks| == |w.draft.version.blocks|
    ensures var w1 := Step(crc, w, DoTruncate(|w.acked.blocks|, newSize));
      && w1.arch.dev == w.arch.dev && w1.arch.up == Truncate(w.arch.up, |w.acked.blocks|, newSize)
      && w1.arch.up.activeSeq == w.arch.up.activeSeq && w1.arch.up.writeCursor == w.arch.up.writeCursor
      && w1.draft.version == w.acked.(size := newSize) && CommitRoom(w1.arch.up) == |IndexBytes(w.arch.up.index)|
  {
  }

  lemma StepCommit(crc: Crc, w: World)
    requires Enabled(crc, w, DoCommit)
    ensures Step(crc, w, DoCommit).arch == Commit(crc, w.arch).s
  {
    hide Commit;
  }

  lemma ViewIs(dev: FaultState)
    ensures View(dev) == ApplyAll(dev.durable, dev.dirty)
  {
  }

  lemma StartFields(crc: Crc, img: seq<byte>, w: World)
    requires Start(crc, img, w)
    ensures w.arch.up.writeCursor == |img| <= MAX_FILE_LEN && |w.arch.up.index| == |w.acked.blocks|
    ensures w.draft == Draft(w.acked, w.acked.head) && w.arch.up.headCache == w.acked.head
    ensures w.arch.dev == FreshDevice(img) && Open(crc, FreshDevice(img)) == Some(w.arch.up)
    ensures w.arch.up.activeSeq == LoadActiveSpec(crc, img).value.sb.seqno && Recovered(crc, img) == Some(w.acked)
  {
    hide Validate, IndexInData;
    assert View(FreshDevice(img)) == img;
  }

  /** One full block, the file extended by truncation to five bytes and committed: the superseded index is the hole to
      reclaim. The file read 7 8 0 0 0, the compacted one reads 7 8. */
  method CompactLosesTheEnd(crc: Crc, z: Zstd) returns (img: seq<byte>, r: R.Rewrite)
    requires Faithful(z)
    ensures R.Opened(crc, img).Some? && R.Opened(crc, img).value.chunkSize > 0
    ensures ArchiveBytes(z, R.Opened(crc, img).value) == [7, 8, 0, 0, 0]
    ensures r.Rewritten? && R.Opened(crc, r.img).Some? && R.Opened(crc, r.img).value.chunkSize > 0
    ensures ArchiveBytes(z, R.Opened(crc, r.img).value) == [7, 8]
  {
    hide Sound, Recovered, LoadActiveSpec, Start, Step, Faithful, Concat, FlatOf, Pieces, View, Inv, Commit, Open;
    hide IndexBytes, R.CompactLen, R.Checks;
    var blocks := [W.RawBlock([7, 8], true, 2)];
    OneBlock(blocks);
    var built := W.BuildArchive(crc, 2, blocks, None);
    R.SoundLong(crc, built.value);
    ghost var w := SoundStarts(crc, built.value);
    StartFields(crc, built.value, w);
    ExtendCommitted(crc, built.value, w, 5);
    var io := new FaultIo.FromBytes(built.value);
    var up := ArchiveUpdater.FromIo(crc, io);
    up.value.Truncate(1, 5);
    var ok := up.value.Commit();
    img := io.ReadView();
    LongEnough(crc, img, w.acked.(size := 5));
    ghost var v := R.Opened(crc, img).value;
    ExtendedPieces(crc, z, v, blocks);
    r := R.CompactFile(crc, z, img);
    R.CompactedReads(crc, z, v, r.img);
    CompactedShort(crc, z, v, R.Opened(crc, r.img).value);
  }

  lemma OneBlock(blocks: seq<W.RawBlock>)
    requires blocks == [W.RawBlock([7, 8], true, 2)]
    ensures W.TotalRaw(blocks) == 2 && W.ArchiveLen(blocks, None) == DATA_START + 2 + INDEX_ENTRY_LEN
  {
    assert blocks[..0] == [];
    assert W.StoredBytes(blocks[..0]) == 0;
  }

  lemma LongEnough(crc: Crc, img: seq<byte>, v: Version)
    requires HeaderOk(img) && Recovered(crc, img) == Some(v)
    ensures R.Opened(crc, img) == Some(v)
  {
  }

  lemma ExtendedPieces(crc: Crc, z: Zstd, v: Version, blocks: seq<W.RawBlock>)
    requires blocks == [W.RawBlock([7, 8], true, 2)]
    requires v == Version(2, W.StoredAll(crc, blocks), 5, None, None)
    ensures Pieces(z, v) == [[7, 8]] && R.Checks(crc, v.blocks) && ArchiveBytes(z, v) == [7, 8, 0, 0, 0]
    ensures R.CompactLen(z, v) == DATA_START + 2 + INDEX_ENTRY_LEN && R.Covered(v, 1) == 2
  {
    assert PlainPieces(z, v.blocks) == [[7, 8]];
    assert PlainPieces(z, v.blocks) + [] == [[7, 8]];
    assert v.blocks[..0] == [] && R.StoredSum(v.blocks[..0]) == 0;
    TwoBytes([[7, 8]], 5);
  }

  lemma TwoBytes(pieces: seq<seq<byte>>, size: nat)
    requires pieces == [[7, 8]]
    ensures size == 5 ==> FlatOf(pieces, 2, size) == [7, 8, 0, 0, 0]
    ensures size == 2 ==> FlatOf(pieces, 2, size) == [7, 8]
  {
    forall p: nat | p < size ensures FlatOf(pieces, 2, size)[p] == if p == 0 then 7 else if p == 1 then 8 else 0 {
      InBlock(p, BlockAt(p, 2), 2);
    }
  }

  lemma CompactedShort(crc: Crc, z: Zstd, v: Version, w: Version)
    requires v.chunkSize == 2 && |v.blocks| == 1 && v.tail.None? && Pieces(z, v) == [[7, 8]] && R.Covered(v, 1) == 2
    requires w.chunkSize == 2 && Pieces(z, w) == Pieces(z, v) && w.size == W.Wrap(R.Covered(v, 1) + 0)
    ensures ArchiveBytes(z, w) == [7, 8]
  {
    hide Pieces;
    TwoBytes([[7, 8]], 2);
  }
}
