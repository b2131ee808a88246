/** The write session: an uncompressed open tail block in front of the store (core/wsession.rs). */
module Session {
  import opened Bytes
  import opened Codec
  import opened Chunk
  import opened Stores
  import opened Rmw

  /** The buffered tail block; `journaledLen` bytes of it have been handed to the tail journal. */
  datatype Tail = Tail(idx: nat, plain: seq<byte>, chunkSize: nat, fileSize: nat, journaledLen: nat)

  /** The file as the session shows it: the tail block in place of whatever the store has for it. */
  function Overlay(f: FileData, t: Option<Tail>): FileData {
    if t.None? then f
    else f.(blocks := f.blocks[t.value.idx := StoredBlock(t.value.plain, true)], size := t.value.fileSize)
  }

  function Content(z: Zstd, f: FileData, t: Option<Tail>): (r: seq<byte>)
    requires f.chunkSize > 0
  {
    Flat(z, Overlay(f, t))
  }

  /** The tail is the file's last block: its size invariant, and an empty tail hides nothing. */
  ghost predicate TailOk(z: Zstd, f: FileData, t: Option<Tail>) {
    t.Some? ==>
      && t.value.chunkSize == f.chunkSize && |t.value.plain| <= f.chunkSize
      && t.value.fileSize == BlockStart(t.value.idx, f.chunkSize) + |t.value.plain|
      && t.value.journaledLen <= |t.value.plain|
      && (t.value.plain == [] ==> FileOk(z, f) && f.size == t.value.fileSize)
  }

  ghost predicate SessionOk(z: Zstd, f: FileData, t: Option<Tail>) {
    TailOk(z, f, t) && FileOk(z, Overlay(f, t))
  }

  /** What the journal holds of the open tail: the prefix it was loaded with, then every increment once. */
  ghost predicate Conserved(f: FileData, t: Option<Tail>, loaded: seq<byte>, base: nat) {
    t.Some? ==>
      base <= |f.journal| && t.value.journaledLen <= |t.value.plain|
      && loaded + f.journal[base..] == t.value.plain[..t.value.journaledLen]
  }

  // ---- lemmas about the overlay ----

  /** Blocks below the tail belong to the store, and every one of them is sound. */
  lemma BelowTail(z: Zstd, f: FileData, t: Tail, i: nat)
    requires SessionOk(z, f, Some(t)) && i != t.idx
    ensures BlockDecodes(z, f, i) && Plain(z, f, i) == Plain(z, Overlay(f, Some(t)), i)
  {
    FileOkAt(z, Overlay(f, Some(t)), i);
  }

  /** Putting the tail's bytes where the overlay has them turns the overlay into the file. */
  lemma Materialized(z: Zstd, f: FileData, t: Tail, f2: FileData)
    requires SessionOk(z, f, Some(t))
    requires f2.size == t.fileSize && f2.chunkSize == f.chunkSize
    requires BlockDecodes(z, f2, t.idx) && Plain(z, f2, t.idx) == t.plain && SameBlocksExcept(f, f2, t.idx)
    ensures FileOk(z, f2) && Flat(z, f2) == Content(z, f, Some(t))
  {
    hide FileOk, Plain, BlockStart;
    var v := Overlay(f, Some(t));
    forall i: nat ensures BlockOk(z, f2, i) && Plain(z, f2, i) == Plain(z, v, i) {
      FileOkAt(z, v, i);
      if i != t.idx {
        assert SameBlock(f, f2, i);
        SamePlain(z, v, f2, i);
      } else {
        TailPlain(z, f, t);
      }
    }
    FileOkAt(z, v, 0);
    FileOkIf(z, f2);
    assert forall p: nat :: p < f2.size ==> ByteAt(z, f2, p) == ByteAt(z, v, p);
  }

  lemma TailPlain(z: Zstd, f: FileData, t: Tail)
    ensures Plain(z, Overlay(f, Some(t)), t.idx) == t.plain
  {
  }

  /** An empty tail can be dropped or added without changing what is shown. */
  lemma EmptyTail(z: Zstd, f: FileData, t: Tail)
    requires t.plain == [] && FileOk(z, f) && f.size == t.fileSize == BlockStart(t.idx, f.chunkSize)
    ensures FileOk(z, Overlay(f, Some(t))) && Content(z, f, Some(t)) == Flat(z, f)
  {
    hide BlockStart, Plain, FileOk, BlockAt, OffsetInBlock;
    var v := Overlay(f, Some(t));
    TailPlain(z, f, t);
    FileOkAt(z, f, 0);
    forall i: nat ensures BlockOk(z, v, i) && (i != t.idx ==> Plain(z, v, i) == Plain(z, f, i)) {
      FileOkAt(z, f, i);
      if i != t.idx { SamePlain(z, f, v, i); }
    }
    FileOkIf(z, v);
    forall p: nat | p < f.size ensures ByteAt(z, v, p) == ByteAt(z, f, p) {
      InBlock(p, BlockAt(p, f.chunkSize), f.chunkSize);
      assert BlockAt(p, f.chunkSize) != t.idx;
    }
  }

  /** A tail loaded from the store - cut or zero-filled to the file size - shows what the store shows. */
  lemma LoadedTail(z: Zstd, f: FileData, t: Tail)
    requires FileOk(z, f) && t.fileSize == f.size == BlockStart(t.idx, f.chunkSize) + |t.plain|
      && |t.plain| <= f.chunkSize
    requires t.plain == Resize(Plain(z, f, t.idx), |t.plain|)
    ensures FileOk(z, Overlay(f, Some(t))) && Content(z, f, Some(t)) == Flat(z, f)
  {
    hide BlockStart, Plain, FileOk, BlockAt, OffsetInBlock, Resize;
    var v := Overlay(f, Some(t));
    TailPlain(z, f, t);
    FileOkAt(z, f, 0);
    forall i: nat ensures BlockOk(z, v, i) && (i != t.idx ==> Plain(z, v, i) == Plain(z, f, i)) {
      FileOkAt(z, f, i);
      if i != t.idx { SamePlain(z, f, v, i); }
    }
    FileOkIf(z, v);
    forall p: nat | p < f.size ensures ByteAt(z, v, p) == ByteAt(z, f, p) {
      var i := BlockAt(p, f.chunkSize);
      InBlock(p, i, f.chunkSize);
      if i == t.idx { ResizeAt(Plain(z, f, i), |t.plain|, OffsetInBlock(p, f.chunkSize)); }
    }
  }

  lemma ResizeAt(s: seq<byte>, n: nat, k: nat)
    requires k < n
    ensures Resize(s, n)[k] == if k < |s| then s[k] else 0
  {
  }

  /** Bytes pushed onto the tail are bytes appended to the file. */
  lemma TailExtended(z: Zstd, f: FileData, t: Tail, more: seq<byte>)
    requires SessionOk(z, f, Some(t)) && |more| > 0 && |t.plain| + |more| <= f.chunkSize
    ensures var t2 := t.(plain := t.plain + more, fileSize := t.fileSize + |more|);
      SessionOk(z, f, Some(t2)) && Content(z, f, Some(t2)) == Content(z, f, Some(t)) + more
  {
    hide BlockStart, Plain, FileOk, BlockAt, OffsetInBlock;
    var t2 := t.(plain := t.plain + more, fileSize := t.fileSize + |more|);
    var v, v2 := Overlay(f, Some(t)), Overlay(f, Some(t2));
    TailPlain(z, f, t);
    TailPlain(z, f, t2);
    FileOkAt(z, v, 0);
    forall i: nat ensures BlockOk(z, v2, i) && (i != t.idx ==> Plain(z, v2, i) == Plain(z, v, i)) {
      FileOkAt(z, v, i);
      if i != t.idx { SamePlain(z, v, v2, i); }
    }
    FileOkIf(z, v2);
    forall p: nat | p < v2.size ensures ByteAt(z, v2, p) == (Flat(z, v) + more)[p] {
      var i := BlockAt(p, f.chunkSize);
      InBlock(p, i, f.chunkSize);
      InBlock(p, t.idx, f.chunkSize);
      if p < v.size { assert Flat(z, v)[p] == ByteAt(z, v, p); }
    }
    FlatIs(z, v2, Flat(z, v) + more);
  }

  /** What the backend does to the tail's own block while the tail is open does not show. */
  lemma TailHides(z: Zstd, f: FileData, f2: FileData, t: Tail)
    requires SessionOk(z, f, Some(t)) && t.plain != []
    requires f2.chunkSize == f.chunkSize && SameBlocksExcept(f, f2, t.idx)
    ensures SessionOk(z, f2, Some(t)) && Content(z, f2, Some(t)) == Content(z, f, Some(t))
  {
    hide FileOk, Plain, BlockStart;
    var v, v2 := Overlay(f, Some(t)), Overlay(f2, Some(t));
    forall i: nat ensures BlockOk(z, v2, i) && Plain(z, v2, i) == Plain(z, v, i) {
      FileOkAt(z, v, i);
      assert i != t.idx ==> SameBlock(f, f2, i);
      assert SameBlock(v, v2, i);
      SamePlain(z, v, v2, i);
    }
    FileOkAt(z, v, 0);
    FileOkIf(z, v2);
    assert forall p: nat :: p < v2.size ==> ByteAt(z, v2, p) == ByteAt(z, v, p);
  }

  lemma JournalIgnored(z: Zstd, f: FileData, t: Tail, len: nat)
    requires SessionOk(z, f, Some(t)) && len <= |t.plain|
    ensures SessionOk(z, f, Some(t.(journaledLen := len)))
      && Content(z, f, Some(t.(journaledLen := len))) == Content(z, f, Some(t))
  {
    assert Overlay(f, Some(t.(journaledLen := len))) == Overlay(f, Some(t));
  }

  /** The block the end of the file falls into is the tail's own, until the tail is full. */
  lemma TailBlock(t: Tail)
    requires t.chunkSize > 0 && t.fileSize == BlockStart(t.idx, t.chunkSize) + |t.plain| && |t.plain| <= t.chunkSize
    ensures BlockAt(t.fileSize, t.chunkSize) == if |t.plain| < t.chunkSize then t.idx else t.idx + 1
    ensures |t.plain| < t.chunkSize ==> OffsetInBlock(t.fileSize, t.chunkSize) == |t.plain|
  {
    hide BlockAt, OffsetInBlock;
    InBlock(t.fileSize, t.idx, t.chunkSize);
    InBlock(t.fileSize, t.idx + 1, t.chunkSize);
    assert BlockStart(t.idx + 1, t.chunkSize) == BlockStart(t.idx, t.chunkSize) + t.chunkSize;
  }

  /** Nothing but this file changed, and its chunk size stayed. */
  twostate predicate OnlyFile(store: Store, ino: nat)
    reads store
  {
    && ino in old(store.files) && ino in store.files && store.files == old(store.files)[ino := store.files[ino]]
    && store.files[ino].chunkSize == old(store.files)[ino].chunkSize
  }

  ghost predicate KeptBelow(f0: FileData, f: FileData, idx: nat) {
    forall i: nat :: i < idx ==> SameBlock(f0, f, i)
  }

  lemma KeptAll(f: FileData, idx: nat)
    ensures KeptBelow(f, f, idx)
  {
  }

  lemma KeptStep(f0: FileData, f1: FileData, f: FileData, low: nat, idx: nat)
    requires KeptBelow(f0, f1, low) && SameBlocksExcept(f1, f, idx) && idx >= low
    ensures KeptBelow(f0, f, low)
  {
    forall i: nat | i < low ensures SameBlock(f0, f, i) {
      assert SameBlock(f0, f1, i) && SameBlock(f1, f, i);
    }
  }

  /** What an append of `len` bytes at size `s0` costs: one compression per chunk boundary crossed, none of
      them of a block below the old end. */
  twostate predicate AppendCost(store: Store, ino: nat, s0: nat, len: nat)
    requires OnlyFile(store, ino) && store.files[ino].chunkSize > 0
    reads store
  {
    var cs := store.files[ino].chunkSize;
    && store.compressCount == old(store.compressCount) + BlockAt(s0 + len, cs) - BlockAt(s0, cs)
    && KeptBelow(old(store.files)[ino], store.files[ino], BlockAt(s0, cs))
  }

  /** The first `n` blocks are stored, and full. */
  ghost predicate FullBelow(z: Zstd, f: FileData, n: nat) {
    forall i: nat :: i < n ==> |Plain(z, f, i)| == f.chunkSize
  }

  lemma FullBelowKept(z: Zstd, f0: FileData, f: FileData, n: nat)
    requires FullBelow(z, f0, n) && KeptBelow(f0, f, n) && f.chunkSize == f0.chunkSize
    ensures FullBelow(z, f, n)
  {
    forall i: nat | i < n ensures |Plain(z, f, i)| == f.chunkSize {
      assert SameBlock(f0, f, i);
      SamePlain(z, f0, f, i);
    }
  }

  /** Blocks `lo` to `hi` are stored, and full. */
  ghost predicate FullBetween(z: Zstd, f: FileData, lo: nat, hi: nat) {
    forall i: nat :: lo <= i < hi ==> |Plain(z, f, i)| == f.chunkSize
  }

  lemma NoneBetween(z: Zstd, f: FileData, lo: nat)
    ensures FullBetween(z, f, lo, lo)
  {
  }

  /** Filling the block at the end of the full ones makes one more full one. */
  lemma FullNext(z: Zstd, f0: FileData, f: FileData, lo: nat, idx: nat, n: nat)
    requires FullBetween(z, f0, lo, idx) && SameBlocksExcept(f0, f, idx) && f.chunkSize == f0.chunkSize
    requires n == idx || (n == idx + 1 && |Plain(z, f, idx)| == f.chunkSize)
    ensures FullBetween(z, f, lo, n)
  {
    forall i: nat | lo <= i < n ensures |Plain(z, f, i)| == f.chunkSize {
      if i != idx {
        assert SameBlock(f0, f, i);
        SamePlain(z, f0, f, i);
      }
    }
  }

  /** Full blocks kept, and full blocks after them. */
  lemma FullBelowGrown(z: Zstd, f0: FileData, f: FileData, lo: nat, hi: nat)
    requires KeptBelow(f0, f, lo) && FullBetween(z, f, lo, hi) && f.chunkSize == f0.chunkSize
    ensures FullBelow(z, f0, lo) ==> FullBelow(z, f, hi)
  {
    if FullBelow(z, f0, lo) {
      FullBelowKept(z, f0, f, lo);
    }
  }

  /** An append of `len` bytes to a file whose blocks before the end are full leaves such a file. */
  twostate predicate KeepsFull(store: Store, ino: nat, s0: nat, len: nat)
    requires OnlyFile(store, ino) && store.files[ino].chunkSize > 0
    reads store
  {
    var cs := store.files[ino].chunkSize;
    FullBelow(store.z, old(store.files)[ino], BlockAt(s0, cs)) ==>
      FullBelow(store.z, store.files[ino], BlockAt(s0 + len, cs))
  }

  /** The blocks of `f` are those of the view `v`, of which only an empty one past the end may be missing. */
  ghost predicate SameView(z: Zstd, v: FileData, f: FileData) {
    && f.size == v.size && f.chunkSize == v.chunkSize
    && forall i: nat :: SameViewAt(z, v, f, i)
  }

  ghost predicate SameViewAt(z: Zstd, v: FileData, f: FileData, i: nat) {
    && (i in f.blocks ==> OldBlock(z, v, f, i))
    && (i in v.blocks && BlockStart(i, v.chunkSize) < v.size ==> OldBlock(z, v, f, i))
  }

  lemma DroppedView(z: Zstd, f: FileData, t: Tail)
    requires SessionOk(z, f, Some(t)) && t.plain == []
    ensures SameView(z, Overlay(f, Some(t)), f)
  {
    hide BlockStart;
    FileOkAt(z, f, t.idx);
  }

  lemma SealedView(z: Zstd, f0: FileData, t: Tail, f: FileData)
    requires f.size == t.fileSize && f.chunkSize == f0.chunkSize && t.idx in f.blocks && Plain(z, f, t.idx) == t.plain
    requires SameBlocksExcept(f0, f, t.idx)
    ensures SameView(z, Overlay(f0, Some(t)), f)
  {
    hide BlockStart;
    forall i: nat ensures SameViewAt(z, Overlay(f0, Some(t)), f, i) {
      if i != t.idx { assert SameBlock(f0, f, i); }
    }
  }

  lemma OverlayChunk(f: FileData, t: Option<Tail>)
    ensures Overlay(f, t).chunkSize == f.chunkSize
  {
  }

  lemma OverlayNone(f: FileData)
    ensures Overlay(f, None) == f
  {
  }

  lemma NoTailView(z: Zstd, f: FileData)
    ensures SameView(z, Overlay(f, None), f)
  {
  }

  /** A write after the view was sealed into the file is a write to the view. */
  lemma ShapeOfView(z: Zstd, v: FileData, f: FileData, f2: FileData, offset: nat, len: nat)
    requires SameView(z, v, f) && WriteShape(z, f, f2, offset, len)
    ensures WriteShape(z, v, f2, offset, len)
  {
    hide BlockStart, Plain, BlockAt, DivCeil;
    if v.chunkSize > 0 {
      forall i: nat ensures ShapeAt(z, v, f2, offset, len, i) {
        assert ShapeAt(z, f, f2, offset, len, i);
        assert SameViewAt(z, v, f, i);
        DivCeilBounds(v.size, v.chunkSize, i);
      }
    }
  }

  /** And a truncation is one of the view. */
  lemma TruncateOfView(z: Zstd, v: FileData, f: FileData, f2: FileData, n: nat)
    requires SameView(z, v, f) && TruncateShape(z, f, f2, n) && v.chunkSize > 0
    ensures TruncateShape(z, v, f2, n)
  {
    hide BlockStart, Plain;
    forall i: nat ensures CutShapeAt(z, v, f2, n, i) {
      assert CutShapeAt(z, f, f2, n, i);
      assert SameViewAt(z, v, f, i);
    }
  }

  /** Loading the unfinished last block leaves the shape of the write. */
  lemma ShapeRefilled(z: Zstd, v: FileData, f: FileData, t: Option<Tail>, offset: nat, len: nat)
    requires WriteShape(z, v, f, offset, len) && v.chunkSize > 0
    requires t.Some? ==> t.value.idx == BlockAt(f.size, f.chunkSize) && t.value.fileSize == f.size
    requires t.Some? ==>
      BlockStart(t.value.idx, f.chunkSize) + |t.value.plain| == f.size && |t.value.plain| < f.chunkSize
    ensures WriteShape(z, v, Overlay(f, t), offset, len)
  {
    hide BlockStart, Plain, BlockAt, DivCeil;
    if t.Some? {
      var f2 := Overlay(f, t);
      TailPlain(z, f, t.value);
      OffsetBelow(offset, f.size, f.chunkSize);
      forall i: nat ensures ShapeAt(z, v, f2, offset, len, i) {
        assert ShapeAt(z, v, f, offset, len, i);
        if i != t.value.idx { SamePlain(z, f, f2, i); }
      }
    }
  }

  lemma OffsetBelow(a: nat, b: nat, cs: nat)
    requires cs > 0 && a <= b
    ensures BlockAt(a, cs) <= BlockAt(b, cs)
  {
    hide BlockAt, BlockStart;
    InBlock(a, BlockAt(a, cs), cs);
    InBlock(b, BlockAt(b, cs), cs);
    if BlockAt(b, cs) < BlockAt(a, cs) { BlockSpan(BlockAt(b, cs), BlockAt(a, cs), cs); }
  }

  /** An append has the shape of a write at the end: the blocks before the old end stay, the ones filled since are full,
      and the last one ends with the file. */
  lemma ShapeOfAppend(z: Zstd, f0: FileData, t0: Option<Tail>, f: FileData, t: Option<Tail>, len: nat)
    requires SessionOk(z, f0, t0) && SessionOk(z, f, t) && f.chunkSize == f0.chunkSize > 0 && len > 0
    requires Overlay(f, t).size == Overlay(f0, t0).size + len
    requires var cs, s := f0.chunkSize, Overlay(f0, t0).size;
      && (t0.Some? ==> t0.value.idx == BlockAt(s, cs))
      && (t.Some? ==> t.value.idx == BlockAt(s + len, cs))
      && (t.None? ==> OffsetInBlock(s + len, cs) == 0)
      && KeptBelow(f0, f, BlockAt(s, cs)) && FullBetween(z, f, BlockAt(s, cs), BlockAt(s + len, cs))
    ensures WriteShape(z, Overlay(f0, t0), Overlay(f, t), Overlay(f0, t0).size, len)
  {
    hide BlockStart, Plain, BlockAt, DivCeil, OffsetInBlock, FileOk;
    var v0, v, cs := Overlay(f0, t0), Overlay(f, t), f0.chunkSize;
    forall i: nat ensures ShapeAt(z, v0, v, v0.size, len, i) {
      FileOkAt(z, v, i);
      OffsetBelow(v0.size, v.size, cs);
      if i < BlockAt(v0.size, cs) {
        assert SameBlock(f0, f, i);
        SamePlain(z, f0, v0, i);
        SamePlain(z, f, v, i);
        SamePlain(z, f0, f, i);
        InBlock(v0.size, BlockAt(v0.size, cs), cs);
        BlockSpan(i, BlockAt(v0.size, cs), cs);
        DivCeilBounds(v0.size, cs, i);
      } else if i in v.blocks {
        AppendedExact(z, f, t, i, BlockAt(v0.size, cs));
      }
    }
  }

  lemma AppendedExact(z: Zstd, f: FileData, t: Option<Tail>, i: nat, lo: nat)
    requires SessionOk(z, f, t) && f.chunkSize > 0 && i in Overlay(f, t).blocks && lo <= i
    requires var cs, s := f.chunkSize, Overlay(f, t).size;
      && (t.Some? ==> t.value.idx == BlockAt(s, cs)) && (t.None? ==> OffsetInBlock(s, cs) == 0)
      && FullBetween(z, f, lo, BlockAt(s, cs))
    ensures Exact(z, Overlay(f, t), i)
  {
    hide BlockStart, Plain, BlockAt, OffsetInBlock, FileOk;
    var v, cs := Overlay(f, t), f.chunkSize;
    var e := BlockAt(v.size, cs);
    FileOkAt(z, v, i);
    Aligned(v.size, cs);
    InBlock(v.size, e, cs);
    if i < e {
      SamePlain(z, f, v, i);
      BlockSpan(i, e, cs);
    } else if i > e {
      BlockSpan(e, i, cs);
    } else if t.Some? {
      TailPlain(z, f, t.value);
    }
  }

  lemma ConservedExtended(f: FileData, t: Tail, more: seq<byte>, loaded: seq<byte>, base: nat)
    requires Conserved(f, Some(t), loaded, base)
    ensures Conserved(f, Some(t.(plain := t.plain + more, fileSize := t.fileSize + |more|)), loaded, base)
  {
    assert (t.plain + more)[..t.journaledLen] == t.plain[..t.journaledLen];
  }

  /** Handing the rest of the tail to the journal keeps the count exact. */
  lemma ConservedJournaled(f: FileData, f2: FileData, t: Tail, loaded: seq<byte>, base: nat)
    requires Conserved(f, Some(t), loaded, base) && t.journaledLen <= |t.plain|
    requires f2.journal == f.journal + t.plain[t.journaledLen..]
    ensures Conserved(f2, Some(t.(journaledLen := |t.plain|)), loaded, base)
  {
    var n := t.journaledLen;
    assert f2.journal[base..] == f.journal[base..] + t.plain[n..];
    assert t.plain[..|t.plain|] == t.plain[..n] + t.plain[n..];
    assert loaded + f2.journal[base..] == (loaded + f.journal[base..]) + t.plain[n..];
  }

  lemma TailBounds(z: Zstd, f: FileData, t: Option<Tail>)
    requires SessionOk(z, f, t) && t.Some?
    ensures var s := t.value;
      s.chunkSize == f.chunkSize && |s.plain| <= s.chunkSize && s.journaledLen <= |s.plain|
      && s.fileSize == BlockStart(s.idx, s.chunkSize) + |s.plain|
  {
  }

  /** Without a tail the session shows the store. */
  lemma NoTail(z: Zstd, f: FileData)
    ensures SessionOk(z, f, None) <==> FileOk(z, f)
    ensures f.chunkSize > 0 ==> Content(z, f, None) == Flat(z, f)
  {
  }

  lemma SpliceNothing(flat: seq<byte>, offset: nat, data: seq<byte>)
    requires |data| == 0
    ensures Splice(flat, offset, data) == flat
  {
  }

  lemma SpliceAppends(flat: seq<byte>, data: seq<byte>)
    ensures Splice(flat, |flat|, data) == flat + data
  {
  }

  lemma EmptyTailOk(z: Zstd, f: FileData, t: Tail)
    requires SessionOk(z, f, Some(t)) && t.plain == []
    ensures FileOk(z, f) && f.size == t.fileSize == BlockStart(t.idx, f.chunkSize)
  {
  }

  /** The tail's block number, for a tail that is not full. */
  lemma TailEnd(z: Zstd, f: FileData, t: Tail)
    requires SessionOk(z, f, Some(t))
    ensures 0 < f.chunkSize == t.chunkSize && |Content(z, f, Some(t))| == t.fileSize
    ensures |t.plain| < t.chunkSize ==> BlockAt(t.fileSize, t.chunkSize) == t.idx
  {
    hide BlockAt, BlockStart, Flat;
    SessionBounds(z, f, Some(t));
    TailBounds(z, f, Some(t));
    TailBlock(t);
  }

  /** A tail just filled ends where the next block starts. */
  lemma NextAligned(idx: nat, cs: nat, end: nat)
    requires cs > 0 && end == BlockStart(idx, cs) + cs
    ensures OffsetInBlock(end, cs) == 0 && BlockAt(end, cs) == idx + 1
  {
    hide BlockAt, OffsetInBlock;
    assert BlockStart(idx + 1, cs) == BlockStart(idx, cs) + cs;
    InBlock(end, idx + 1, cs);
  }

  /** A tail with room for `n` more bytes ends aligned exactly when they fill it. */
  lemma FilledAligned(t: Tail, n: nat)
    requires t.fileSize == BlockStart(t.idx, t.chunkSize) + |t.plain| && 0 < n && |t.plain| + n <= t.chunkSize
    ensures OffsetInBlock(t.fileSize + n, t.chunkSize) == 0 <==> |t.plain| + n == t.chunkSize
  {
    hide BlockStart;
    InBlock(t.fileSize + n, t.idx, t.chunkSize);
    if |t.plain| + n == t.chunkSize { NextAligned(t.idx, t.chunkSize, t.fileSize + n); }
  }

  /** Where an append starts: the file, the loaded tail with its journal count, the compressions so far, the content. */
  datatype AppendStart = AppendStart(f: FileData, t: Tail, loaded: seq<byte>, base: nat, count: nat, flat: seq<byte>)

  class WriteSession {
    const enabled: bool
    var tail: Option<Tail>
    /** The prefix the open tail was loaded with, and how long the journal was then. */
    ghost var loaded: seq<byte>
    ghost var base: nat

    constructor (enabled: bool)
      ensures this.enabled == enabled && tail == None
    {
      this.enabled, tail := enabled, None;
      loaded, base := [], 0;
    }

    /** Sound, though the tail may just have been filled. */
    ghost predicate Ready(store: Store, ino: nat)
      reads this, store
    {
      && ino in store.files
      && (!enabled ==> tail == None)
      && SessionOk(store.z, store.files[ino], tail) && Conserved(store.files[ino], tail, loaded, base)
    }

    ghost predicate Valid(store: Store, ino: nat)
      reads this, store
    {
      Ready(store, ino) && (tail.Some? ==> |tail.value.plain| < tail.value.chunkSize)
    }

    /** Nothing is in memory only: with a tail open, the journal's bytes since it was opened, behind the prefix it was
        loaded with, are the whole of it. */
    ghost predicate Settled(store: Store, ino: nat)
      reads this, store
    {
      tail.Some? ==>
        && store.tailJournal && ino in store.files && base <= |store.files[ino].journal|
        && loaded + store.files[ino].journal[base..] == tail.value.plain
    }

    ghost function Shown(store: Store, ino: nat): seq<byte>
      requires Ready(store, ino)
      reads this, store
    {
      SessionBounds(store.z, store.files[ino], tail);
      Content(store.z, store.files[ino], tail)
    }

    method Geometry(store: Store, ino: nat) returns (r: Option<(nat, nat)>)
      requires ino in store.files ==> Ready(store, ino)
      requires ino !in store.files ==> tail == None
      ensures r == if ino in store.files then Some((|Shown(store, ino)|, store.files[ino].chunkSize)) else None
    {
      if enabled && tail.Some? {
        return Some((tail.value.fileSize, tail.value.chunkSize));
      }
      r := store.BlockGeometry(ino);
    }

    /** The open tail's bytes when block `idx` is the tail. */
    method ReadTailBlock(idx: nat) returns (r: Option<seq<byte>>)
      ensures r == if enabled && tail.Some? && tail.value.idx == idx then Some(tail.value.plain) else None
    {
      if !enabled || tail.None? || tail.value.idx != idx {
        return None;
      }
      r := Some(tail.value.plain);
    }

    /** Seal the open tail into the store and close it; what is shown stays the same. */
    method Materialize(store: Store, ino: nat)
      requires Ready(store, ino)
      modifies this, store`files, store`compressCount
      ensures Ready(store, ino) && tail == None && Shown(store, ino) == old(Shown(store, ino))
      ensures store.files == old(store.files)[ino := store.files[ino]]
      ensures store.files[ino].chunkSize == old(store.files)[ino].chunkSize
      ensures old(tail).None? ==> store.files == old(store.files)
      ensures SameView(store.z, old(Overlay(store.files[ino], tail)), store.files[ino])
      ensures old(tail).Some? ==> SameBlocksExcept(old(store.files)[ino], store.files[ino], old(tail).value.idx)
      ensures old(tail).Some? && old(tail).value.plain != [] ==>
        Plain(store.z, store.files[ino], old(tail).value.idx) == old(tail).value.plain
      ensures store.compressCount == old(store.compressCount)
        + if old(tail).Some? && old(tail).value.plain != [] then 1 else 0
    {
      hide FileOk, Plain, BlockStart, OffsetInBlock, BlockOk, Flat;
      if !enabled || tail.None? {
        return;
      }
      var t := tail.value;
      ghost var f0 := store.files[ino];
      SessionBounds(store.z, f0, tail);
      TailBlock(t);
      if t.plain == [] && OffsetInBlock(t.fileSize, t.chunkSize) == 0 {
        EmptyTail(store.z, f0, t);
        DroppedView(store.z, f0, t);
        tail := None;
        return;
      }
      SealPlainBlock(store, ino, t.idx, t.plain, t.fileSize);
      Materialized(store.z, f0, t, store.files[ino]);
      SealedView(store.z, f0, t, store.files[ino]);
      tail := None;
    }

    /** A new empty tail at an aligned end of file. */
    method StartEmptyTail(ghost store: Store, ghost ino: nat, size: nat, cs: nat)
      requires enabled && Ready(store, ino) && tail == None
      requires size == store.files[ino].size && cs == store.files[ino].chunkSize && cs > 0
        && OffsetInBlock(size, cs) == 0
      modifies this
      ensures Valid(store, ino) && Shown(store, ino) == old(Shown(store, ino))
      ensures tail == Some(Tail(BlockAt(size, cs), [], cs, size, 0))
      ensures loaded == [] && base == |store.files[ino].journal|
    {
      hide FileOk, Plain, BlockStart, OffsetInBlock, BlockAt, BlockOk, Flat;
      Aligned(size, cs);
      var t := Tail(BlockAt(size, cs), [], cs, size, 0);
      EmptyTail(store.z, store.files[ino], t);
      tail := Some(t);
      loaded, base := [], |store.files[ino].journal|;
    }

    /** Take the unfinished last block out of the store; all of it counts as journaled. */
    method LoadTail(store: Store, ino: nat, size: nat, cs: nat)
      requires enabled && Ready(store, ino) && tail == None
      requires size == store.files[ino].size && cs == store.files[ino].chunkSize && cs > 0
        && OffsetInBlock(size, cs) != 0
      modifies this
      ensures Valid(store, ino) && Shown(store, ino) == old(Shown(store, ino))
      ensures tail.Some? && tail.value.idx == BlockAt(size, cs) && tail.value.fileSize == size
      ensures tail.value.journaledLen == |tail.value.plain| == OffsetInBlock(size, cs)
      ensures loaded == tail.value.plain && base == |store.files[ino].journal|
    {
      hide FileOk, Plain, BlockStart, OffsetInBlock, BlockAt, BlockOk, Flat;
      var idx := BlockAt(size, cs);
      var tailLen := OffsetInBlock(size, cs);
      Aligned(size, cs);
      FileOkAt(store.z, store.files[ino], idx);
      DecodesIfOk(store.z, store.files[ino], idx);
      var plain := LoadPlainBlock(store, ino, idx);
      if |plain| != tailLen {
        plain := Resize(plain, tailLen);
      }
      var t := Tail(idx, plain, cs, size, |plain|);
      LoadedTail(store.z, store.files[ino], t);
      tail := Some(t);
      loaded, base := plain, |store.files[ino].journal|;
    }

    method EnsureTailLoaded(store: Store, ino: nat, cs: nat, curSize: nat)
      requires enabled && Valid(store, ino) && curSize == |Shown(store, ino)| && cs == store.files[ino].chunkSize
      modifies this
      ensures Valid(store, ino) && tail.Some? && Shown(store, ino) == old(Shown(store, ino))
      ensures old(tail).Some? ==> tail == old(tail) && loaded == old(loaded) && base == old(base)
    {
      hide FileOk, Plain, OffsetInBlock, BlockAt;
      if tail.Some? {
        return;
      }
      SessionBounds(store.z, store.files[ino], tail);
      if curSize == 0 || OffsetInBlock(curSize, cs) == 0 {
        ZeroAligned(cs);
        StartEmptyTail(store, ino, curSize, cs);
        return;
      }
      LoadTail(store, ino, curSize, cs);
    }

    /** Reload the unfinished last block after a write that went through the store. */
    method Refill(store: Store, ino: nat)
      requires enabled && Ready(store, ino) && tail == None
      modifies this
      ensures Valid(store, ino) && Shown(store, ino) == old(Shown(store, ino))
      ensures store.files[ino].chunkSize > 0
      ensures tail.Some? <==> OffsetInBlock(store.files[ino].size, store.files[ino].chunkSize) != 0
      ensures var f := store.files[ino];
        tail.Some? ==>
          && f.chunkSize > 0 && tail.value.idx == BlockAt(f.size, f.chunkSize) && tail.value.fileSize == f.size
          && BlockStart(tail.value.idx, f.chunkSize) + |tail.value.plain| == f.size && |tail.value.plain| < f.chunkSize
    {
      hide FileOk, Plain, OffsetInBlock, BlockAt, BlockStart;
      var geometry := store.BlockGeometry(ino);
      var (size, cs) := geometry.value;
      SessionBounds(store.z, store.files[ino], tail);
      ZeroAligned(cs);
      if size == 0 || OffsetInBlock(size, cs) == 0 {
        return;
      }
      LoadTail(store, ino, size, cs);
    }

    /** Push bytes onto the open tail. */
    method ExtendTail(ghost store: Store, ghost ino: nat, more: seq<byte>)
      requires enabled && Valid(store, ino) && tail.Some? && |more| > 0
      requires |tail.value.plain| + |more| <= tail.value.chunkSize
      modifies this`tail
      ensures Ready(store, ino) && Shown(store, ino) == old(Shown(store, ino)) + more
      ensures tail
        == Some(old(tail).value.(plain := old(tail).value.plain + more, fileSize := old(tail).value.fileSize + |more|))
    {
      hide FileOk, Plain, BlockStart, Content, Flat, TailOk, SessionOk, Conserved, Overlay;
      var t := tail.value;
      var t2 := t.(plain := t.plain + more, fileSize := t.fileSize + |more|);
      SessionBounds(store.z, store.files[ino], tail);
      TailBounds(store.z, store.files[ino], tail);
      TailExtended(store.z, store.files[ino], t, more);
      ConservedExtended(store.files[ino], t, more, loaded, base);
      tail := Some(t2);
    }

    /** One round of the append: push a piece that fits, seal the tail if that filled it, and open the next
        one if there is `more` to come. */
    method FillTail(store: Store, ino: nat, piece: seq<byte>, more: bool)
      requires enabled && Valid(store, ino) && tail.Some? && |piece| > 0
      requires |tail.value.plain| + |piece| <= tail.value.chunkSize
      requires more ==> |tail.value.plain| + |piece| == tail.value.chunkSize
      modifies this, store`files, store`compressCount
      ensures Valid(store, ino) && Shown(store, ino) == old(Shown(store, ino)) + piece
      ensures OnlyFile(store, ino) && (more ==> tail.Some?)
      ensures !more ==> (tail.None? <==> |old(tail).value.plain| + |piece| == old(tail).value.chunkSize)
      ensures SameBlocksExcept(old(store.files)[ino], store.files[ino], old(tail).value.idx)
      ensures var cs, end := store.files[ino].chunkSize, |old(Shown(store, ino))| + |piece|;
        && cs > 0 && BlockAt(end, cs) >= old(tail).value.idx
        && store.compressCount == old(store.compressCount) + BlockAt(end, cs) - old(tail).value.idx
        && (tail.Some? ==> tail.value.idx == BlockAt(end, cs)) && (tail.None? ==> OffsetInBlock(end, cs) == 0)
        && (BlockAt(end, cs) == old(tail).value.idx
            || (BlockAt(end, cs) == old(tail).value.idx + 1
              && |Plain(store.z, store.files[ino], old(tail).value.idx)| == cs))
      ensures tail.Some? && tail.value.idx == old(tail).value.idx ==>
        loaded == old(loaded) && base == old(base) && tail.value.journaledLen == old(tail).value.journaledLen
    {
      hide FileOk, Plain, OffsetInBlock, BlockAt, BlockOk, Flat, BlockStart, SessionOk, Content, Conserved;
      SessionBounds(store.z, store.files[ino], tail);
      TailBounds(store.z, store.files[ino], tail);
      ExtendTail(store, ino, piece);
      var t := tail.value;
      TailBlock(t);
      if |t.plain| == t.chunkSize {
        Materialize(store, ino);
        NextAligned(t.idx, t.chunkSize, t.fileSize);
        if more {
          SessionBounds(store.z, store.files[ino], tail);
          StartEmptyTail(store, ino, t.fileSize, t.chunkSize);
        }
      }
    }

    /** How far an append that started at `s` has come when `done` is written: the tail is the block of the end, the
        blocks filled since are full, those before are as they were, and each boundary crossed cost a compression. */
    ghost predicate Appended(store: Store, ino: nat, s: AppendStart, done: seq<byte>)
      reads this, store
    {
      && Valid(store, ino) && s.f.chunkSize > 0 && Shown(store, ino) == s.flat + done
      && var f, cs, at := store.files[ino], s.f.chunkSize, BlockAt(|s.flat| + |done|, s.f.chunkSize);
      && f.chunkSize == cs && at >= s.t.idx && store.compressCount == s.count + at - s.t.idx
      && KeptBelow(s.f, f, s.t.idx) && FullBetween(store.z, f, s.t.idx, at)
      && (tail.Some? ==> tail.value.idx == at) && (tail.None? ==> OffsetInBlock(|s.flat| + |done|, cs) == 0)
      && (tail.Some? && tail.value.idx == s.t.idx ==>
            loaded == s.loaded && base == s.base && tail.value.journaledLen == s.t.journaledLen)
    }

    lemma AppendStarts(store: Store, ino: nat)
      requires Valid(store, ino) && tail.Some?
      ensures Appended(store, ino,
        AppendStart(store.files[ino], tail.value, loaded, base, store.compressCount, Shown(store, ino)), [])
    {
      hide FileOk, Plain, OffsetInBlock, BlockAt, BlockOk, Flat, BlockStart, Content, Conserved;
      var f := store.files[ino];
      TailEnd(store.z, f, tail.value);
      KeptAll(f, tail.value.idx);
      NoneBetween(store.z, f, tail.value.idx);
      assert Shown(store, ino) + [] == Shown(store, ino);
    }

    /** One round of the append: as much as fits into the tail. */
    method AppendRound(store: Store, ino: nat, data: seq<byte>, cs: nat, written: nat, ghost s: AppendStart)
      returns (next: nat)
      requires enabled && written < |data| && tail.Some? && cs == s.f.chunkSize
      requires Appended(store, ino, s, data[..written])
      modifies this, store`files, store`compressCount
      ensures written < next <= |data| && OnlyFile(store, ino) && Appended(store, ino, s, data[..next])
      ensures next < |data| ==> tail.Some?
      ensures next == |data| ==> (tail.None? <==> OffsetInBlock(|s.flat| + |data|, cs) == 0)
    {
      hide FileOk, Plain, OffsetInBlock, BlockAt, BlockOk, Flat, BlockStart, SessionOk, Content, Conserved, KeptBelow;
      hide FullBetween;
      ghost var f, idx := store.files[ino], tail.value.idx;
      TailEnd(store.z, f, tail.value);
      var take := Min(cs - |tail.value.plain|, |data| - written);
      next := written + take;
      assert data[..written] + data[written..next] == data[..next];
      ghost var t := tail.value;
      TailBounds(store.z, f, tail);
      FilledAligned(t, take);
      FillTail(store, ino, data[written..next], next < |data|);
      KeptStep(s.f, f, store.files[ino], s.t.idx, idx);
      FullNext(store.z, f, store.files[ino], s.t.idx, idx, BlockAt(|s.flat| + next, cs));
    }

    /** The append fast path: fill the tail, seal it each time it is full, leave the rest open. One block is
        compressed for each chunk boundary crossed, and no block below the old end is touched. */
    method AppendIntoTail(store: Store, ino: nat, data: seq<byte>, cs: nat, curSize: nat)
      requires enabled && Valid(store, ino) && curSize == |Shown(store, ino)| && cs == store.files[ino].chunkSize > 0
      modifies this, store`files, store`compressCount
      ensures Valid(store, ino) && Shown(store, ino) == old(Shown(store, ino)) + data
      ensures OnlyFile(store, ino) && AppendCost(store, ino, curSize, |data|) && KeepsFull(store, ino, curSize, |data|)
      ensures FullBetween(store.z, store.files[ino], BlockAt(curSize, cs), BlockAt(curSize + |data|, cs))
      ensures tail.Some? ==> tail.value.idx == BlockAt(curSize + |data|, cs)
      ensures tail.None? <==> |data| > 0 && OffsetInBlock(curSize + |data|, cs) == 0
      ensures tail.Some? && old(tail).Some? && tail.value.idx == old(tail).value.idx ==>
        loaded == old(loaded) && base == old(base) && tail.value.journaledLen == old(tail).value.journaledLen
    {
      hide FileOk, Plain, OffsetInBlock, BlockAt, BlockOk, Flat, BlockStart, SessionOk, Content, Conserved, KeptBelow;
      hide FullBelow, FullBetween, Appended;
      EnsureTailLoaded(store, ino, cs, curSize);
      ghost var f0 := store.files[ino];
      ghost var s := AppendStart(f0, tail.value, loaded, base, store.compressCount, Shown(store, ino));
      TailEnd(store.z, f0, s.t);
      AppendStarts(store, ino);
      var total := |data|;
      var written := 0;
      assert data[..written] == [];
      while written < total
        invariant 0 <= written <= total && OnlyFile(store, ino)
        invariant Appended(store, ino, s, data[..written])
        invariant written < total || total == 0 ==> tail.Some?
        invariant written == total > 0 ==> (tail.None? <==> OffsetInBlock(curSize + total, cs) == 0)
      {
        written := AppendRound(store, ino, data, cs, written, s);
      }
      assert data[..written] == data;
      AppendedMeans(store, ino, s, data);
    }

    lemma AppendedMeans(store: Store, ino: nat, s: AppendStart, data: seq<byte>)
      requires Appended(store, ino, s, data)
      ensures Valid(store, ino) && Shown(store, ino) == s.flat + data && s.f.chunkSize > 0
      ensures var f, at := store.files[ino], BlockAt(|s.flat| + |data|, s.f.chunkSize);
        && at >= s.t.idx && store.compressCount == s.count + at - s.t.idx
        && KeptBelow(s.f, f, s.t.idx) && FullBetween(store.z, f, s.t.idx, at)
        && (FullBelow(store.z, s.f, s.t.idx) ==> FullBelow(store.z, f, at))
        && (tail.Some? ==> tail.value.idx == at)
        && (tail.None? ==> OffsetInBlock(|s.flat| + |data|, s.f.chunkSize) == 0)
      ensures tail.Some? && tail.value.idx == s.t.idx ==>
        loaded == s.loaded && base == s.base && tail.value.journaledLen == s.t.journaledLen
    {
      hide FileOk, Plain, OffsetInBlock, BlockAt, BlockOk, Flat, BlockStart, SessionOk, Content, Conserved, KeptBelow;
      hide FullBelow, FullBetween;
      FullBelowGrown(store.z, s.f, store.files[ino], s.t.idx, BlockAt(|s.flat| + |data|, s.f.chunkSize));
    }

    /** `write_at_locked`. The shown file changes as a flat byte string does, and the answer is the one the plain
        read-modify-write gives; an append costs one compression per chunk boundary crossed. */
    method WriteAt(store: Store, ino: nat, offset: nat, data: seq<byte>) returns (r: WriteResult)
      requires ino in store.files ==> Valid(store, ino)
      requires ino !in store.files ==> tail == None
      requires enabled && ino in store.files && offset == |Shown(store, ino)| ==> offset + |data| < U64_LIMIT
      modifies this, store`files, store`compressCount
      ensures ino in old(store.files) ==> Valid(store, ino) && OnlyFile(store, ino)
      ensures ino !in old(store.files) ==> store.files == old(store.files) && tail == None
      ensures r == if |data| == 0 then Written(0) else if ino !in old(store.files) then NotFound
                   else if offset + |data| >= U64_LIMIT || offset > |old(Shown(store, ino))| + MAX_SPARSE_EXTENSION
                     then InvalidInput
                   else Written(|data|)
      ensures ino in old(store.files) ==>
        Shown(store, ino) == if r.Written? then Splice(old(Shown(store, ino)), offset, data) else old(Shown(store, ino))
      ensures enabled && ino in old(store.files) && offset == |old(Shown(store, ino))| ==>
        store.files[ino].chunkSize > 0
        && AppendCost(store, ino, offset, |data|)
        && KeepsFull(store, ino, offset, |data|)
      ensures ino in old(store.files) && r.Written? && |data| > 0 ==>
        WriteShape(store.z, old(Overlay(store.files[ino], tail)), Overlay(store.files[ino], tail), offset, |data|)
    {
      hide FileOk, Plain, BlockAt, OffsetInBlock, BlockStart, BlockOk, Flat, KeptBelow, SessionOk, Content, Splice,
        Conserved;
      hide FullBelow, FullBetween, WriteShape, SameView, Overlay;
      if !enabled {
        r := WriteThrough(store, ino, offset, data);
        return;
      }
      ghost var f0, t0 := if ino in store.files then store.files[ino] else FileData(map[], 0, 0, []), tail;
      if ino in store.files {
        SessionBounds(store.z, store.files[ino], tail);
      }
      if |data| == 0 {
        if ino in store.files {
          KeptAll(store.files[ino], BlockAt(offset, store.files[ino].chunkSize));
          SpliceNothing(Shown(store, ino), offset, data);
        }
        return Written(0);
      }
      var geometry := Geometry(store, ino);
      if geometry.None? {
        return NotFound;
      }
      var (curSize, cs) := geometry.value;
      ViewSize(store.z, f0, t0);
      if offset == curSize {
        SpliceAppends(Shown(store, ino), data);
        AppendIntoTail(store, ino, data, cs, curSize);
        ViewSize(store.z, store.files[ino], tail);
        ShapeOfAppend(store.z, f0, t0, store.files[ino], tail, |data|);
        return Written(|data|);
      }
      r := WriteBehind(store, ino, offset, data);
    }

    /** Any other write with the buffer on: seal the tail, write through the store, take the new last block back. */
    method WriteBehind(store: Store, ino: nat, offset: nat, data: seq<byte>) returns (r: WriteResult)
      requires enabled && Valid(store, ino) && |data| > 0
      modifies this, store`files, store`compressCount
      ensures Valid(store, ino) && OnlyFile(store, ino)
      ensures
        r == if offset + |data| >= U64_LIMIT || offset > |old(Shown(store, ino))| + MAX_SPARSE_EXTENSION
             then InvalidInput else Written(|data|)
      ensures
        Shown(store, ino) == if r.Written? then Splice(old(Shown(store, ino)), offset, data) else old(Shown(store, ino))
      ensures r.Written? ==>
        WriteShape(store.z, old(Overlay(store.files[ino], tail)), Overlay(store.files[ino], tail), offset, |data|)
      ensures store.files[ino].chunkSize > 0
      ensures r.Written? ==>
        (tail.Some? <==> OffsetInBlock(|Shown(store, ino)|, store.files[ino].chunkSize) != 0)
    {
      hide FileOk, Plain, BlockAt, OffsetInBlock, BlockStart, BlockOk, Flat, SessionOk, Content, Splice, Conserved;
      hide WriteShape, SameView, Overlay;
      ghost var f0, t0 := store.files[ino], tail;
      SessionBounds(store.z, f0, t0);
      OverlayChunk(f0, t0);
      Materialize(store, ino);
      ghost var f1 := store.files[ino];
      r := WriteThrough(store, ino, offset, data);
      if r.Written? {
        Refill(store, ino);
        SessionBounds(store.z, store.files[ino], tail);
        ShapeOfView(store.z, Overlay(f0, t0), f1, store.files[ino], offset, |data|);
        ShapeRefilled(store.z, Overlay(f0, t0), store.files[ino], tail, offset, |data|);
      }
    }

    /** Read-modify-write straight to the store, no tail being open. */
    method WriteThrough(store: Store, ino: nat, offset: nat, data: seq<byte>) returns (r: WriteResult)
      requires ino in store.files ==> Ready(store, ino)
      requires tail == None
      modifies store`files, store`compressCount
      ensures ino in old(store.files) ==> Ready(store, ino) && OnlyFile(store, ino)
      ensures ino !in old(store.files) ==> store.files == old(store.files)
      ensures r == if |data| == 0 then Written(0) else if ino !in old(store.files) then NotFound
                   else if offset + |data| >= U64_LIMIT || offset > |old(Shown(store, ino))| + MAX_SPARSE_EXTENSION
                     then InvalidInput
                   else Written(|data|)
      ensures ino in old(store.files) ==>
        Shown(store, ino) == if r.Written? then Splice(old(Shown(store, ino)), offset, data) else old(Shown(store, ino))
      ensures ino in old(store.files) && r.Written? && |data| > 0 ==>
        && WriteShape(store.z, old(store.files)[ino], store.files[ino], offset, |data|)
        && Overlay(store.files[ino], tail) == store.files[ino]
        && old(Overlay(store.files[ino], tail)) == old(store.files)[ino]
    {
      hide FileOk, BlockAt, OffsetInBlock, BlockStart, Flat, SessionOk, Content, Splice, WriteShape;
      if ino in store.files {
        NoTail(store.z, store.files[ino]);
        SessionBounds(store.z, store.files[ino], tail);
        if |data| == 0 {
          SpliceNothing(Shown(store, ino), offset, data);
        }
      }
      r := Rmw.WriteAt(store, ino, offset, data);
      if ino in store.files {
        NoTail(store.z, store.files[ino]);
        assert store.files == old(store.files)[ino := store.files[ino]];
      }
    }

    /** `seal_locked`, the fsync path. A journaling store gets exactly the bytes it does not have yet, no block is
        compressed, and the tail stays open with nothing left to journal; otherwise the tail block is stored. */
    method Seal(store: Store, ino: nat)
      requires Valid(store, ino)
      modifies this, store`files, store`compressCount
      ensures Valid(store, ino) && OnlyFile(store, ino) && Shown(store, ino) == old(Shown(store, ino))
      ensures old(tail).None? ==> tail.None? && store.files == old(store.files)
      ensures old(tail).Some? ==> SameBlocksExcept(old(store.files)[ino], store.files[ino], old(tail).value.idx)
      ensures tail.Some? ==>
        && store.tailJournal && tail.value.journaledLen == |tail.value.plain|
        && old(tail).Some? && tail.value.(journaledLen := old(tail).value.journaledLen) == old(tail).value
        && loaded == old(loaded) && base == old(base)
      ensures store.tailJournal ==> store.compressCount == old(store.compressCount)
      ensures old(tail).Some? && old(tail).value.plain == [] ==>
        tail == None && store.files == old(store.files) && store.compressCount == old(store.compressCount)
      ensures old(tail).Some? && old(tail).value.plain != [] ==>
        && (tail.Some? <==> store.tailJournal)
        && store.compressCount == old(store.compressCount) + if store.tailJournal then 0 else 1
      ensures store.tailJournal && old(tail).Some? && old(tail).value.journaledLen <= |old(tail).value.plain| ==>
        store.files[ino].journal == old(store.files)[ino].journal
          + old(tail).value.plain[old(tail).value.journaledLen..]
      ensures Settled(store, ino)
    {
      hide FileOk, Plain, BlockAt, OffsetInBlock, BlockStart, BlockOk, Flat, Content, SessionOk;
      if !enabled || tail.None? {
        return;
      }
      var t := tail.value;
      ghost var f0 := store.files[ino];
      SessionBounds(store.z, f0, tail);
      TailBounds(store.z, f0, tail);
      TailBlock(t);
      if t.plain == [] && OffsetInBlock(t.fileSize, t.chunkSize) == 0 {
        EmptyTailOk(store.z, f0, t);
        EmptyTail(store.z, f0, t);
        NoTail(store.z, f0);
        tail := None;
        return;
      }
      if store.tailJournal {
        if t.journaledLen < |t.plain| {
          store.AppendTail(ino, t.plain[t.journaledLen..], t.fileSize, t.idx);
          TailHides(store.z, f0, store.files[ino], t);
          JournalIgnored(store.z, store.files[ino], t, |t.plain|);
          ConservedJournaled(f0, store.files[ino], t, loaded, base);
          tail := Some(t.(journaledLen := |t.plain|));
        }
        return;
      }
      StorePlainBlock(store, ino, t.idx, t.plain, t.fileSize);
      Materialized(store.z, f0, t, store.files[ino]);
      NoTail(store.z, store.files[ino]);
      tail := None;
    }

    /** `truncate_locked`. */
    method Truncate(store: Store, ino: nat, newSize: nat) returns (r: WriteResult)
      requires ino in store.files ==> Valid(store, ino)
      requires ino !in store.files ==> tail == None
      modifies this, store`files, store`compressCount
      ensures r == if ino in old(store.files) then Written(0) else NotFound
      ensures ino in old(store.files) ==>
        Valid(store, ino) && OnlyFile(store, ino) && Shown(store, ino) == Resize(old(Shown(store, ino)), newSize)
      ensures ino in old(store.files) ==>
        TruncateShape(store.z, old(Overlay(store.files[ino], tail)), Overlay(store.files[ino], tail), newSize)
      ensures ino !in old(store.files) ==> store.files == old(store.files) && tail == None
    {
      hide FileOk, Plain, BlockAt, OffsetInBlock, BlockStart, BlockOk, Flat, Resize, SessionOk, Content;
      hide TruncateShape, SameView, Overlay;
      ghost var v := if ino in store.files then Overlay(store.files[ino], tail) else FileData(map[], 0, 0, []);
      if ino in store.files {
        SessionBounds(store.z, store.files[ino], tail);
        OverlayChunk(store.files[ino], tail);
      }
      if enabled && ino in store.files {
        Materialize(store, ino);
      }
      ghost var f1 := v;
      if ino in store.files {
        f1 := store.files[ino];
        NoTailView(store.z, f1);
        NoTail(store.z, f1);
        SessionBounds(store.z, f1, tail);
        OverlayNone(f1);
      }
      r := Rmw.Truncate(store, ino, newSize);
      if ino in store.files {
        NoTail(store.z, store.files[ino]);
        OverlayNone(store.files[ino]);
        TruncateOfView(store.z, v, f1, store.files[ino], newSize);
        assert store.files == old(store.files)[ino := store.files[ino]];
      }
    }

    /** Drop the open tail unsealed. */
    method Forget()
      modifies this`tail
      ensures tail == None
    {
      tail := None;
    }
  }

  /** The view's size is the length of what is shown, and a tail that is not full is the block of the end. */
  lemma ViewSize(z: Zstd, f: FileData, t: Option<Tail>)
    requires SessionOk(z, f, t) && (t.Some? ==> |t.value.plain| < t.value.chunkSize)
    ensures f.chunkSize > 0 && |Content(z, f, t)| == Overlay(f, t).size && Overlay(f, t).chunkSize == f.chunkSize
    ensures t.Some? ==> t.value.idx == BlockAt(Overlay(f, t).size, f.chunkSize)
  {
    if t.Some? { TailEnd(z, f, t.value); }
  }

  lemma ZeroAligned(cs: nat)
    requires cs > 0
    ensures OffsetInBlock(0, cs) == 0
  {
  }

  /** The size invariant, read off the overlay. */
  lemma SessionBounds(z: Zstd, f: FileData, t: Option<Tail>)
    requires SessionOk(z, f, t)
    ensures 0 < f.chunkSize && RoundTrips(z, f.chunkSize)
    ensures t.Some? ==> t.value.chunkSize == f.chunkSize && |Content(z, f, t)| == t.value.fileSize
    ensures t.None? ==> |Content(z, f, t)| == f.size
  {
  }
}
