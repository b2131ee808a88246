/** A truncation, too, can end a file's readability (rwfs.rs, core/rmw.rs). */
module TruncateReads {
  import opened Bytes
  import opened Codec
  import opened Chunk
  import opened Stores
  import opened Rmw
  import opened Session
  import opened BlockCaches
  import opened ReadPath

  /** Two writes, the second past the unfinished first chunk, a truncation back to the end of that chunk, and one to
      the end of the next: the first chunk reads 1 0 0 0 after the third step, and after the fourth reading it is
      refused. */
  method TruncateThenRead(z: Zstd, enabled: bool, cap: nat) returns (before: ReadResult, after: ReadResult)
    requires Faithful(z)
    ensures before == Data([1, 0, 0, 0]) && after == IoError
  {
    hide FileOk, Plain, BlockStart, Flat, Content, SessionOk, ReadSpec, Overlay, Indexed, ByIno, ListOf, TotalBytes;
    hide Keep, LeavesGap, Coherent, TruncateShape, FullBefore, GrowsGap, Conserved, InteriorFull, OneByte, Resize;
    SpliceSteps();
    var session, store, cache := TwoWrites(z, enabled, cap, 4, 1, [9]);
    ShownIsView(z, store.files[0], session.tail);
    ghost var v2 := Overlay(store.files[0], session.tail);
    TruncateLocked(session, store, cache, 0, 4);
    ghost var v3 := Overlay(store.files[0], session.tail);
    StaysShort(z, v2, v3);
    ReadsNeverFail(z, store.files[0], session.tail);
    before := ReadRange(session, store, cache, 0, 0, 4);
    TruncateLocked(session, store, cache, 0, 8);
    ShortInside(z, v3, store.files[0], session.tail);
    after := ReadRange(session, store, cache, 0, 0, 4);
  }

  /** What a short block inside the file does hold can be read: [7], then [8, 9] at 2, in chunks of two. Its first
      byte reads as 7, both its bytes are refused. */
  method ReadShortBlock(z: Zstd, enabled: bool, cap: nat) returns (held: ReadResult, whole: ReadResult)
    requires Faithful(z)
    ensures held == Data([7]) && whole == IoError
  {
    hide FileOk, Plain, BlockStart, Flat, Content, SessionOk, ReadSpec, Overlay, Indexed, ByIno, ListOf, TotalBytes;
    hide Keep, Coherent, Conserved, OneByte, ByteGiven;
    assert Splice([7], 2, [8, 9]) == [7, 0, 8, 9];
    var session, store, cache := TwoWrites(z, enabled, cap, 2, 7, [8, 9]);
    HeldOnly(z, store.files[0], session.tail);
    ReadsExactly(z, store.files[0], session.tail, 0, 2);
    held := ReadRange(session, store, cache, 0, 0, 1);
    whole := ReadRange(session, store, cache, 0, 0, 2);
  }

  /** Of a one-byte block inside a file of four bytes only the first can be given. */
  lemma HeldOnly(z: Zstd, f: FileData, t: Option<Tail>)
    requires SessionOk(z, f, t) && f.chunkSize == 2 && |Content(z, f, t)| == 4 && OneByte(z, Overlay(f, t))
    ensures ByteGiven(z, f, t, 0) && !ByteGiven(z, f, t, 1)
  {
    hide Plain, FileOk, Flat;
    PlainOfView(z, f, t, 0);
    InBlock(0, 0, 2);
    InBlock(1, 0, 2);
  }

  /** One byte, then a write that starts the next chunk. */
  method TwoWrites(z: Zstd, enabled: bool, cap: nat, cs: nat, first: byte, second: seq<byte>)
      returns (session: WriteSession, store: Store, cache: BlockCache)
    requires Faithful(z) && 2 <= cs <= 16 && first != 0 && 0 < |second| <= 16
    ensures fresh(session) && fresh(store) && fresh(cache) && store.z == z && 0 in store.files
    ensures session.Valid(store, 0) && cache.Valid() && AllCoherent(cache, store)
    ensures session.Shown(store, 0) == Splice([first], cs, second)
    ensures OneByte(z, Overlay(store.files[0], session.tail)) && store.files[0].chunkSize == cs
  {
    hide FileOk, Plain, BlockStart, Flat, Splice, Content, SessionOk, Overlay, Indexed, ByIno, ListOf, TotalBytes;
    hide Keep, LeavesGap, Coherent, WriteShape, Conserved, InteriorFull, OneByte, Faithful, RoundTrips;
    store := new Store(z, false);
    store.Create(0, cs);
    RoundTripsExactly(z, cs);
    session := new WriteSession(enabled);
    cache := new BlockCache(cap);
    StartsSound(session, store, cache, cs);
    ghost var v0 := Overlay(store.files[0], session.tail);
    assert Splice([], 0, [first]) == [first] by { SpliceAppends([], [first]); }
    var w := WriteLocked(session, store, cache, 0, 0, [first]);
    ghost var v1 := Overlay(store.files[0], session.tail);
    ShownIsView(store.z, store.files[0], session.tail);
    ShapeSizes(z, v0, v1, 0, 1);
    FirstShort(z, v1, first);
    w := WriteLocked(session, store, cache, 0, cs, second);
    ShownIsView(store.z, store.files[0], session.tail);
    StillOneByte(z, v1, Overlay(store.files[0], session.tail), |second|);
  }

  lemma StartsSound(session: WriteSession, store: Store, cache: BlockCache, cs: nat)
    requires store.files.Keys == {0} && session.tail == None && cache.nodes == map[]
    requires store.files[0] == FileData(map[], 0, cs, []) && FileOk(store.z, store.files[0])
    ensures session.Valid(store, 0) && AllCoherent(cache, store)
    ensures Overlay(store.files[0], session.tail) == store.files[0] && session.Shown(store, 0) == []
  {
  }

  lemma SpliceSteps()
    ensures Splice([1], 4, [9]) == [1, 0, 0, 0, 9] && Resize([1, 0, 0, 0, 9], 4) == [1, 0, 0, 0]
  {
  }

  lemma ShownIsView(z: Zstd, f: FileData, t: Option<Tail>)
    requires SessionOk(z, f, t)
    ensures var v := Overlay(f, t);
      FileOk(z, v) && v.chunkSize == f.chunkSize > 0 && Flat(z, v) == Content(z, f, t)
  {
    ViewBounds(z, f, t);
  }

  lemma ShapeSizes(z: Zstd, v0: FileData, v: FileData, offset: nat, len: nat)
    requires WriteShape(z, v0, v, offset, len)
    ensures v.chunkSize == v0.chunkSize
  {
  }

  ghost predicate OneByte(z: Zstd, v: FileData) {
    0 in v.blocks && |Plain(z, v, 0)| == 1
  }

  /** The first write leaves one byte in block 0. */
  lemma FirstShort(z: Zstd, v: FileData, first: byte)
    requires FileOk(z, v) && Flat(z, v) == [first] && first != 0
    ensures OneByte(z, v) && v.size == 1
  {
    FileOkAt(z, v, 0);
    InBlock(0, 0, v.chunkSize);
    assert Flat(z, v)[0] == ByteAt(z, v, 0);
  }

  /** The second write leaves block 0 alone. */
  lemma StillOneByte(z: Zstd, v1: FileData, v2: FileData, len: nat)
    requires v1.chunkSize >= 2 && v1.size == 1 && OneByte(z, v1) && WriteShape(z, v1, v2, v1.chunkSize, len)
    ensures OneByte(z, v2) && v2.chunkSize == v1.chunkSize
  {
    hide Plain;
    DivCeilBounds(1, v1.chunkSize, 0);
    InBlock(v1.chunkSize, 1, v1.chunkSize);
    assert ShapeAt(z, v1, v2, v1.chunkSize, len, 0);
  }

  /** So does the truncation, and nothing ends before the new end. */
  lemma StaysShort(z: Zstd, v2: FileData, v3: FileData)
    requires v2.chunkSize == 4 && v2.size == 5 && OneByte(z, v2) && TruncateShape(z, v2, v3, 4)
    ensures OneByte(z, v3) && FullBefore(z, v2, 4) && v3.size == v3.chunkSize == 4
  {
    hide Plain;
    assert CutShapeAt(z, v2, v3, 4, 0);
  }

  /** Growing leaves it short inside the file. */
  lemma ShortInside(z: Zstd, v: FileData, f: FileData, t: Option<Tail>)
    requires v.chunkSize == v.size == 4 && OneByte(z, v) && TruncateShape(z, v, Overlay(f, t), 8) && SessionOk(z, f, t)
    ensures f.chunkSize > 0 && ReadSpec(z, f, t, 0, 4) == IoError
  {
    hide Plain, FileOk, Flat;
    assert CutShapeAt(z, v, Overlay(f, t), 8, 0);
    PlainOfView(z, f, t, 0);
    SessionBounds(z, f, t);
    assert ShortInterior(z, f, t, 0, 4, |Content(z, f, t)|, 0);
  }
}
