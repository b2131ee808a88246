/** What the decompression cap costs: a block above it that was worth compressing is written and never decodes again
    (core/codec.rs, core/rmw.rs, seal.rs, compact.rs). */
module DecodeCap {
  import opened Bytes
  import opened Layout
  import opened Chunk
  import opened Codec
  import opened Reader
  import opened BlockIo
  import opened UpdaterSpec
  import opened ArchiveUpdaters
  import opened ArchiveRuns
  import opened ProtocolProgress
  import W = Writer
  import opened PieceBytes
  import R = Rechunk
  import RechunkLimits
  import opened Stores
  import M = Rmw

  /** A block above the cap that the incompressibility rule does not store as it is. */
  ghost predicate Oversized(z: Zstd, x: seq<byte>) {
    MAX_DECOMPRESSED_BLOCK < |x| < U32_LIMIT && !CompressBlock(z, x).verbatim
  }

  // ---- such blocks exist ----

  /** A compressor that has one byte for a run of `n` zeros and stores everything else behind a marker. */
  function ZeroRun(n: nat): Zstd {
    Zstd((x: seq<byte>) => if x == Zeros(n) then [0] else [1] + x,
         (y: seq<byte>) => if y == [0] then Some(Zeros(n)) else if |y| > 0 && y[0] == 1 then Some(y[1..]) else None)
  }

  lemma ZeroRunFaithful(n: nat)
    ensures Faithful(ZeroRun(n))
  {
    var z := ZeroRun(n);
    forall x: seq<byte> ensures z.unzip(z.zip(x)) == Some(x) {
      if x != Zeros(n) {
        assert ([1] + x)[0] == 1 && ([1] + x)[1..] == x;
      }
    }
  }

  lemma ZerosOversized()
    ensures Oversized(ZeroRun(MAX_DECOMPRESSED_BLOCK + 1), Zeros(MAX_DECOMPRESSED_BLOCK + 1))
  {
  }

  // ---- one block ----

  /** Wherever `RoundTrips` fails there is such a block: storing it succeeds, loading it does not. */
  method StoreUnreadable(z: Zstd, cs: nat, x: seq<byte>) returns (store: Store)
    requires |x| <= cs && cs > 0 && !GivesBack(z, x)
    ensures !RoundTrips(z, cs)
    ensures fresh(store) && store.z == z && 0 in store.files && store.files[0].chunkSize == cs
    ensures 0 in store.files[0].blocks && store.files[0].blocks[0] == CompressBlock(z, x)
    ensures Plain(z, store.files[0], 0) != x || !M.BlockDecodes(z, store.files[0], 0)
    ensures Faithful(z) ==> !M.BlockDecodes(z, store.files[0], 0)
  {
    hide Faithful;
    store := new Store(z, false);
    store.Create(0, cs);
    M.StorePlainBlock(store, 0, 0, x, |x|);
    if Faithful(z) { CompressRoundTrip(z, x); }
  }

  // ---- sealing ----

  /** A dense archive that reads, sealed with a target above the cap: written over, and never to be read again. */
  method SealUnreadable(crc: Crc, z: Zstd, x: seq<byte>) returns (img: seq<byte>, r: R.Rewrite)
    requires Faithful(z) && Oversized(z, x) && |x| <= 2 * MAX_DECOMPRESSED_BLOCK
    ensures R.Opened(crc, img).Some? && R.Opened(crc, img).value.chunkSize > 0
    ensures R.Readable(crc, z, R.Opened(crc, img).value) && ArchiveBytes(z, R.Opened(crc, img).value) == x
    ensures r.Rewritten? && R.Opened(crc, r.img).Some? && !R.Readable(crc, z, R.Opened(crc, r.img).value)
  {
    hide Sound, Recovered, Faithful, R.StoredLen, R.AllDecodable, CutUp, Concat, FlatOf, Pieces, R.Readable, Dense;
    var cap := MAX_DECOMPRESSED_BLOCK;
    var blocks := [W.RawBlock(x[..cap], true, cap), W.RawBlock(x[cap..], true, |x| - cap)];
    TwoHalves(blocks, x);
    var built := W.BuildArchive(crc, cap, blocks, None);
    img := built.value;
    R.SoundLong(crc, img);
    ghost var v := R.Opened(crc, img).value;
    HalvesRead(crc, z, v, blocks, x);
    OnePiece(z, v, x);
    r := R.SealDenseFile(crc, z, img, |x|);
  }

  lemma TwoHalves(blocks: seq<W.RawBlock>, x: seq<byte>)
    requires MAX_DECOMPRESSED_BLOCK < |x| <= 2 * MAX_DECOMPRESSED_BLOCK
    requires var cap := MAX_DECOMPRESSED_BLOCK;
      blocks == [W.RawBlock(x[..cap], true, cap), W.RawBlock(x[cap..], true, |x| - cap)]
    ensures W.TotalRaw(blocks) == |x| && W.ArchiveLen(blocks, None) <= MAX_FILE_LEN
  {
    assert blocks[..1] == [blocks[0]] && blocks[..1][..0] == [];
    assert W.TotalRaw(blocks[..1]) == MAX_DECOMPRESSED_BLOCK && W.StoredBytes(blocks[..1]) == MAX_DECOMPRESSED_BLOCK;
  }

  lemma HalvesRead(crc: Crc, z: Zstd, v: Version, blocks: seq<W.RawBlock>, x: seq<byte>)
    requires MAX_DECOMPRESSED_BLOCK < |x| <= 2 * MAX_DECOMPRESSED_BLOCK
    requires var cap := MAX_DECOMPRESSED_BLOCK;
      && blocks == [W.RawBlock(x[..cap], true, cap), W.RawBlock(x[cap..], true, |x| - cap)]
      && v == Version(cap, W.StoredAll(crc, blocks), |x|, None, None)
    ensures R.Readable(crc, z, v) && Dense(Pieces(z, v), v.chunkSize, v.size) && TailBytes(v) == []
    ensures Concat(Pieces(z, v)) == x && ArchiveBytes(z, v) == x
  {
    var cap := MAX_DECOMPRESSED_BLOCK;
    var pieces: seq<seq<byte>> := [x[..cap], x[cap..]];
    assert PlainPieces(z, v.blocks) == pieces;
    assert PlainPieces(z, v.blocks) + [] == pieces;
    assert pieces[..1] == [x[..cap]] && pieces[..1][..0] == [];
    assert Concat(pieces[..1]) == x[..cap];
    assert x[..cap] + x[cap..] == x;
    assert BlockStart(0, cap) == 0 && BlockStart(1, cap) == cap && BlockStart(2, cap) == 2 * cap;
    DenseReads(pieces, cap, |x|);
  }

  lemma OnePiece(z: Zstd, v: Version, x: seq<byte>)
    requires Faithful(z) && Oversized(z, x) && v.chunkSize < |x| && Concat(Pieces(z, v)) == x
    ensures R.OutLen(z, R.SealedPieces(z, v, |x|)) <= MAX_FILE_LEN
    ensures !R.AllDecodable(z, R.SealedPieces(z, v, |x|))
  {
    hide Faithful, CompressBlock, Concat, Pieces;
    assert x[..|x|] == x && x[|x|..] == [];
    assert CutUp(x, |x|) == [x] + CutUp([], |x|) == [x];
    CompressRoundTrip(z, x);
    assert [x][..0] == [];
    assert R.StoredLen(z, [x]) == R.StoredLen(z, []) + |CompressBlock(z, x).bytes|;
    assert R.SealedPieces(z, v, |x|)[0] == x;
  }

  /** With the compressor above and a run of zeros. */
  method SealZeros(crc: Crc) returns (z: Zstd, img: seq<byte>, r: R.Rewrite)
    ensures Faithful(z) && R.Opened(crc, img).Some? && R.Readable(crc, z, R.Opened(crc, img).value)
    ensures r.Rewritten? && R.Opened(crc, r.img).Some? && !R.Readable(crc, z, R.Opened(crc, r.img).value)
  {
    hide Faithful, Oversized, R.Opened, R.Readable, ZeroRun;
    z := ZeroRun(MAX_DECOMPRESSED_BLOCK + 1);
    ZeroRunFaithful(MAX_DECOMPRESSED_BLOCK + 1);
    ZerosOversized();
    img, r := SealUnreadable(crc, z, Zeros(MAX_DECOMPRESSED_BLOCK + 1));
  }

  // ---- compacting ----

  /** A journaled tail above the cap, committed: it reads as it is. Compacted, it does not read any more. */
  method CompactUnreadable(crc: Crc, z: Zstd, x: seq<byte>) returns (img: seq<byte>, r: R.Rewrite)
    requires Faithful(z) && Oversized(z, x)
    ensures R.Opened(crc, img).Some? && R.Opened(crc, img).value.chunkSize > 0
    ensures R.Readable(crc, z, R.Opened(crc, img).value) && ArchiveBytes(z, R.Opened(crc, img).value) == x
    ensures r.Rewritten? && R.Opened(crc, r.img).Some? && !R.Readable(crc, z, R.Opened(crc, r.img).value)
  {
    hide Sound, Recovered, LoadActiveSpec, Start, Step, Faithful, Concat, FlatOf, Pieces, View, Inv, Commit, Open;
    hide IndexBytes, R.CompactLen, R.Checks, AppendJournal, CompressBlock, R.Readable;
    var built := W.BuildArchive(crc, |x|, [], None);
    R.SoundLong(crc, built.value);
    ghost var w := SoundStarts(crc, built.value);
    RechunkLimits.StartFields(crc, built.value, w);
    TailCommitted(crc, built.value, w, x);
    var io := new FaultIo.FromBytes(built.value);
    var up := ArchiveUpdater.FromIo(crc, io);
    var ok := up.value.AppendJournal(x);
    up.value.SetSize(|x|);
    ok := up.value.Commit();
    img := io.ReadView();
    RechunkLimits.LongEnough(crc, img, w.acked.(tail := Some(x), size := |x|));
    ghost var v := R.Opened(crc, img).value;
    OnlyTail(crc, z, v, x);
    r := R.CompactFile(crc, z, img);
  }

  /** The tail appended, the size set, and both committed. */
  lemma TailCommitted(crc: Crc, img: seq<byte>, w: World, x: seq<byte>)
    requires Start(crc, img, w) && w.arch.up.activeSeq + 1 < U64_LIMIT && w.acked.head.None? && w.acked.tail.None?
    requires |x| < U32_LIMIT && |w.arch.up.index| == 0 && |img| + JOURNAL_REC_HEADER_LEN + |x| <= MAX_FILE_LEN
    ensures JournalFieldsOk(w.arch.up) && w.arch.up.writeCursor <= MAX_FILE_LEN
    ensures var o := AppendJournal(crc, w.arch, x);
      && o.ok && o.s.up.activeSeq + 1 < U64_LIMIT && o.s.up.writeCursor <= MAX_FILE_LEN
      && var c := Commit(crc, o.s.(up := o.s.up.(uncompressedSize := |x|)));
      && c.ok && |View(c.s.dev)| == |img| + JOURNAL_REC_HEADER_LEN + |x| && HeaderOk(View(c.s.dev))
      && Recovered(crc, View(c.s.dev)) == Some(w.acked.(tail := Some(x), size := |x|))
  {
    hide Inv, Start, Commit, Recovered, View, IndexBytes, Step, CommitRoom, Opened, AppendJournal, Steppable, Enabled;
    StartInv(crc, img, w);
    RechunkLimits.StartFields(crc, img, w);
    Journaled(crc, img, w, x);
    StepInv(crc, w, DoAppendJournal(x));
    SizedCommit(crc, Step(crc, w, DoAppendJournal(x)), |x|);
  }

  /** Setting the size and committing, with nothing armed. */
  lemma SizedCommit(crc: Crc, w: World, n: u64)
    requires Inv(crc, w) && w.arch.up.activeSeq + 1 < U64_LIMIT
    requires w.arch.dev.failWrite.None? && w.arch.dev.failSyncAt.None?
    requires CommitRoom(w.arch.up) == 0 && w.arch.up.writeCursor <= MAX_FILE_LEN
    ensures var c := Commit(crc, w.arch.(up := w.arch.up.(uncompressedSize := n)));
      && c.ok && |View(c.s.dev)| == w.arch.up.writeCursor && HeaderOk(View(c.s.dev))
      && Recovered(crc, View(c.s.dev)) == Some(w.draft.version.(size := n))
  {
    hide Inv, Commit, Recovered, View, Step, CommitRoom, Opened;
    StepInv(crc, w, DoSetSize(n));
    SizeSet(crc, w, n);
    RechunkLimits.CommitShows(crc, Step(crc, w, DoSetSize(n)));
  }

  lemma SizeSet(crc: Crc, w: World, n: u64)
    ensures Step(crc, w, DoSetSize(n)) ==
      WithUp(w, w.arch.up.(uncompressedSize := n), w.draft.(version := w.draft.version.(size := n)))
    ensures CommitRoom(w.arch.up.(uncompressedSize := n)) == CommitRoom(w.arch.up)
  {
  }

  lemma Journaled(crc: Crc, img: seq<byte>, w: World, x: seq<byte>)
    requires Start(crc, img, w) && w.acked.head.None? && w.acked.tail.None?
    requires |x| < U32_LIMIT && |w.arch.up.index| == 0 && |img| + JOURNAL_REC_HEADER_LEN + |x| <= MAX_FILE_LEN
    ensures Enabled(crc, w, DoAppendJournal(x)) && AppendJournal(crc, w.arch, x).ok
    ensures var w1 := Step(crc, w, DoAppendJournal(x));
      && w1.arch == AppendJournal(crc, w.arch, x).s && w1.arch.dev.failWrite.None? && w1.arch.dev.failSyncAt.None?
      && w1.draft.version == w.acked.(tail := Some(x)) && w1.arch.up.activeSeq == w.arch.up.activeSeq
      && w1.arch.up.writeCursor == |img| + JOURNAL_REC_HEADER_LEN + |x| && CommitRoom(w1.arch.up) == 0
  {
    hide LoadIndex, IndexInData;
    RechunkLimits.StartFields(crc, img, w);
    assert View(FreshDevice(img)) == img;
    assert [] + x == x;
  }

  lemma OnlyTail(crc: Crc, z: Zstd, v: Version, x: seq<byte>)
    requires Faithful(z) && Oversized(z, x) && v == Version(|x|, [], |x|, Some(x), None)
    ensures R.Readable(crc, z, v) && R.Checks(crc, v.blocks) && ArchiveBytes(z, v) == x
    ensures TailBytes(v) == x && !Decodable(z, x)
    ensures R.CompactLen(z, v) < DATA_START + JOURNAL_REC_HEADER_LEN + |x|
  {
    assert PlainPieces(z, []) + [x] == [x];
    forall p: nat | p < |x| ensures FlatOf([x], |x|, |x|)[p] == x[p] {
      InBlock(p, 0, |x|);
    }
    assert R.StoredSum([]) == 0;
  }

  method CompactZeros(crc: Crc) returns (z: Zstd, img: seq<byte>, r: R.Rewrite)
    ensures Faithful(z) && R.Opened(crc, img).Some? && R.Readable(crc, z, R.Opened(crc, img).value)
    ensures r.Rewritten? && R.Opened(crc, r.img).Some? && !R.Readable(crc, z, R.Opened(crc, r.img).value)
  {
    hide Faithful, Oversized, R.Opened, R.Readable, ZeroRun;
    z := ZeroRun(MAX_DECOMPRESSED_BLOCK + 1);
    ZeroRunFaithful(MAX_DECOMPRESSED_BLOCK + 1);
    ZerosOversized();
    img, r := CompactUnreadable(crc, z, Zeros(MAX_DECOMPRESSED_BLOCK + 1));
  }
}
