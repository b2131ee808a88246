/** Random write, append and truncation by read-modify-write of whole blocks (core/rmw.rs): chunked,
    compressed storage behaves like a flat byte array. */
module Rmw {
  import opened Bytes
  import opened Codec
  import opened Chunk
  import opened Stores

  const MAX_SPARSE_EXTENSION: nat := 0x4000_0000

  datatype WriteResult = Written(n: nat) | NotFound | InvalidInput

  method LoadPlainBlock(store: Store, ino: nat, idx: nat) returns (plain: seq<byte>)
    requires ino in store.files && BlockDecodes(store.z, store.files[ino], idx)
    ensures plain == Plain(store.z, store.files[ino], idx)
  {
    var b := store.GetBlock(ino, idx);
    if b.None? {
      return [];
    }
    var d := DecompressBlock(store.z, b.value);
    plain := if d.Some? then d.value else [];
  }

  /** Storing a block changes that block and the size, nothing else. */
  twostate predicate OnlyStored(store: Store, ino: nat, idx: nat, newSize: nat)
    reads store
    requires ino in old(store.files)
  {
    && ino in store.files && store.files == old(store.files)[ino := store.files[ino]]
    && var f, f0 := store.files[ino], old(store.files)[ino];
    && f.size == newSize && f.chunkSize == f0.chunkSize && idx in f.blocks && SameBlocksExcept(f0, f, idx)
  }

  /** And the block reads back. */
  twostate predicate OnlyBlock(store: Store, ino: nat, idx: nat, plain: seq<byte>, newSize: nat)
    reads store
    requires ino in old(store.files)
  {
    && OnlyStored(store, ino, idx, newSize)
    && Plain(store.z, store.files[ino], idx) == plain && BlockDecodes(store.z, store.files[ino], idx)
  }

  ghost predicate BlockDecodes(z: Zstd, f: FileData, idx: nat) {
    idx in f.blocks ==> DecompressBlock(z, f.blocks[idx]).Some?
  }

  ghost predicate SameBlocksExcept(f0: FileData, f: FileData, idx: nat) {
    forall i: nat :: i != idx ==> SameBlock(f0, f, i)
  }

  method StorePlainBlock(store: Store, ino: nat, idx: nat, plain: seq<byte>, newSize: nat)
    requires ino in store.files
    modifies store`files, store`compressCount
    ensures OnlyStored(store, ino, idx, newSize) && store.files[ino].blocks[idx] == CompressBlock(store.z, plain)
    ensures GivesBack(store.z, plain) <==> OnlyBlock(store, ino, idx, plain, newSize)
    ensures store.files[ino].journal == old(store.files[ino].journal)
    ensures store.compressCount == old(store.compressCount) + 1
  {
    store.compressCount := store.compressCount + 1;
    store.PutBlock(ino, idx, CompressBlock(store.z, plain), newSize);
  }

  method SealPlainBlock(store: Store, ino: nat, idx: nat, plain: seq<byte>, newSize: nat)
    requires ino in store.files
    modifies store`files, store`compressCount
    ensures OnlyStored(store, ino, idx, newSize) && store.files[ino].blocks[idx] == CompressBlock(store.z, plain)
    ensures GivesBack(store.z, plain) <==> OnlyBlock(store, ino, idx, plain, newSize)
    ensures store.tailJournal ==> store.files[ino].journal == []
    ensures store.compressCount == old(store.compressCount) + 1
  {
    store.compressCount := store.compressCount + 1;
    store.SealTailBlock(ino, idx, CompressBlock(store.z, plain), newSize);
  }

  // ---- one block of a write ----

  function Max(a: nat, b: nat): nat { if a < b then b else a }
  function Min(a: nat, b: nat): nat { if a < b then a else b }

  /** The byte a write leaves at `p`. */
  function TargetByte(before: seq<byte>, offset: nat, data: seq<byte>, p: nat): byte {
    if offset <= p < offset + |data| then data[p - offset] else if p < |before| then before[p] else 0
  }

  lemma SpliceAt(before: seq<byte>, offset: nat, data: seq<byte>, p: nat)
    requires |data| > 0 && p < Max(|before|, offset + |data|)
    ensures |Splice(before, offset, data)| == Max(|before|, offset + |data|)
    ensures Splice(before, offset, data)[p] == TargetByte(before, offset, data, p)
  {
  }

  /** The buffer of one block: the old bytes fitted to `len`, the data that falls into the block on top. */
  function PatchBlock(old0: seq<byte>, start: nat, end: nat, len: nat, offset: nat, data: seq<byte>): (r: seq<byte>)
    requires start + len <= end
    requires var wEnd := Max(Min(offset + |data|, end), Max(offset, start));
      wEnd > Max(offset, start) ==> wEnd <= start + len
    ensures |r| == len
    ensures forall k :: 0 <= k < len ==>
      r[k] == if offset <= start + k < offset + |data| then data[start + k - offset]
              else if k < |old0| then old0[k] else 0
  {
    var wStart := Max(offset, start);
    var wEnd := Max(Min(offset + |data|, end), wStart);
    var fitted := Resize(old0, len);
    if wEnd > wStart then fitted[..wStart - start] + data[wStart - offset..wEnd - offset] + fitted[wEnd - start..]
      else fitted
  }

  /** One block of the loop is right: if the old buffer shows the bytes of the file that the write does not
      replace, the patched buffer is the block's slice of the target. */
  lemma PatchedBlock(before: seq<byte>, offset: nat, data: seq<byte>, cs: nat, idx: nat, old0: seq<byte>,
      plain: seq<byte>)
    requires cs > 0 && |data| > 0
    requires var total := Max(|before|, offset + |data|);
      BlockStart(idx, cs) < total && |plain| == Min(BlockStart(idx, cs) + cs, total) - BlockStart(idx, cs)
    requires forall k :: 0 <= k < |plain| ==>
      var p := BlockStart(idx, cs) + k;
      plain[k] == if offset <= p < offset + |data| then data[p - offset] else if k < |old0| then old0[k] else 0
    requires OldShows(before, offset, |data|, BlockStart(idx, cs), old0, |plain|)
    ensures plain == Slice(Splice(before, offset, data), cs, idx)
  {
    hide Splice, BlockStart;
    var target := Splice(before, offset, data);
    var start := BlockStart(idx, cs);
    SpliceAt(before, offset, data, offset);
    var want := Slice(target, cs, idx);
    forall k: nat | k < |plain| ensures plain[k] == want[k] {
      SpliceAt(before, offset, data, start + k);
      assert !(offset <= start + k < offset + |data|) ==> OldShowsAt(before, start, old0, k);
    }
  }

  /** Outside the written range the buffer shows the file, zeros past its end. */
  ghost predicate OldShows(before: seq<byte>, offset: nat, dataLen: nat, start: nat, old0: seq<byte>, len: nat) {
    forall k: nat :: k < len && !(offset <= start + k < offset + dataLen) ==> OldShowsAt(before, start, old0, k)
  }

  ghost predicate OldShowsAt(before: seq<byte>, start: nat, old0: seq<byte>, k: nat) {
    (if k < |old0| then old0[k] else 0) == (if start + k < |before| then before[start + k] else 0)
  }

  /** What a stored block says about the flat file. */
  lemma PlainShows(z: Zstd, f: FileData, idx: nat, k: nat)
    requires FileOk(z, f) && k < f.chunkSize
    ensures var b := Plain(z, f, idx);
      var p := BlockStart(idx, f.chunkSize) + k;
      (if k < |b| then b[k] else 0) == (if p < f.size then Flat(z, f)[p] else 0)
  {
    hide BlockStart, BlockAt, OffsetInBlock;
    var p := BlockStart(idx, f.chunkSize) + k;
    assert BlockOk(z, f, idx);
    InBlock(p, idx, f.chunkSize);
  }

  // ---- the whole write ----

  /** Part-way through the loop: blocks `lo..idx` hold their slices of the target, the others are as before. */
  ghost predicate Progress(z: Zstd, f0: FileData, f: FileData, target: seq<byte>, lo: nat, idx: nat) {
    && f.chunkSize == f0.chunkSize && f.journal == f0.journal
    && forall i: nat :: BlockProgress(z, f0, f, target, i, lo, idx)
  }

  ghost predicate BlockProgress(z: Zstd, f0: FileData, f: FileData, target: seq<byte>, i: nat, lo: nat, idx: nat) {
    if lo <= i < idx then i in f.blocks && BlockDecodes(z, f, i) && Plain(z, f, i) == Slice(target, f.chunkSize, i)
    else SameBlock(f0, f, i)
  }

  ghost predicate SameBlock(f0: FileData, f: FileData, i: nat) {
    (i in f.blocks <==> i in f0.blocks) && (i in f.blocks ==> f.blocks[i] == f0.blocks[i])
  }

  /** When the loop has covered every block the write reaches, the file is the target. */
  lemma WriteComplete(z: Zstd, f0: FileData, f: FileData, offset: nat, data: seq<byte>, lo: nat, last: nat)
    requires FileOk(z, f0) && |data| > 0
    requires Progress(z, f0, f, Splice(Flat(z, f0), offset, data), lo, last + 1)
    requires f.size == Max(f0.size, offset + |data|)
    requires last == BlockRange(offset, |data|, f0.chunkSize).1 && lo <= BlockRange(offset, |data|, f0.chunkSize).0
    ensures FileOk(z, f) && Flat(z, f) == Splice(Flat(z, f0), offset, data)
  {
    hide Splice, Flat, Plain, Slice, FileOk, BlockProgress, BlockRange, BlockStart, BlockAt, OffsetInBlock, ByteAt,
      BlockOk;
    FileOkAt(z, f0, 0);
    var target := Splice(Flat(z, f0), offset, data);
    SpliceAt(Flat(z, f0), offset, data, offset);
    forall i: nat ensures BlockOk(z, f, i) {
      BlockAfterWrite(z, f0, f, offset, data, lo, last, i);
    }
    forall p: nat | p < f.size ensures ByteAt(z, f, p) == target[p] {
      ByteAfterWrite(z, f0, f, offset, data, lo, last, p);
    }
    FlatIs(z, f, target);
    FileOkIf(z, f);
  }

  lemma BlockAfterWrite(z: Zstd, f0: FileData, f: FileData, offset: nat, data: seq<byte>, lo: nat, last: nat, i: nat)
    requires FileOk(z, f0) && |data| > 0
    requires Progress(z, f0, f, Splice(Flat(z, f0), offset, data), lo, last + 1)
    requires f.size == Max(f0.size, offset + |data|)
    requires last == BlockRange(offset, |data|, f0.chunkSize).1 && lo <= BlockRange(offset, |data|, f0.chunkSize).0
    ensures BlockOk(z, f, i)
  {
    hide Splice, Flat, Slice, BlockRange, BlockStart;
    var cs := f0.chunkSize;
    assert BlockOk(z, f0, i);
    assert BlockProgress(z, f0, f, Splice(Flat(z, f0), offset, data), i, lo, last + 1);
    if lo <= i < last + 1 {
      SpliceAt(Flat(z, f0), offset, data, offset);
      ReachedBlock(offset, |data|, cs, i);
    }
  }

  /** No block up to the last one reached starts past the end of the write. */
  lemma ReachedBlock(offset: nat, len: nat, cs: nat, i: nat)
    requires cs > 0 && len > 0 && i <= BlockRange(offset, len, cs).1
    ensures BlockStart(i, cs) < offset + len
  {
    var last := BlockRange(offset, len, cs).1;
    InBlock(offset + len - 1, last, cs);
    if i < last { BlockSpan(i, last, cs); }
  }

  lemma FileOkAt(z: Zstd, f: FileData, i: nat)
    requires FileOk(z, f)
    ensures BlockOk(z, f, i) && 0 < f.chunkSize && RoundTrips(z, f.chunkSize)
  {
  }

  lemma FileOkIf(z: Zstd, f: FileData)
    requires 0 < f.chunkSize && RoundTrips(z, f.chunkSize) && forall i: nat :: BlockOk(z, f, i)
    ensures FileOk(z, f)
  {
  }

  lemma FlatIs(z: Zstd, f: FileData, target: seq<byte>)
    requires f.chunkSize > 0 && |target| == f.size && forall p: nat :: p < f.size ==> ByteAt(z, f, p) == target[p]
    ensures Flat(z, f) == target
  {
  }

  lemma ByteAfterWrite(z: Zstd, f0: FileData, f: FileData, offset: nat, data: seq<byte>, lo: nat, last: nat, p: nat)
    requires FileOk(z, f0) && |data| > 0
    requires Progress(z, f0, f, Splice(Flat(z, f0), offset, data), lo, last + 1)
    requires f.size == Max(f0.size, offset + |data|) && p < f.size
    requires last == BlockRange(offset, |data|, f0.chunkSize).1 && lo <= BlockRange(offset, |data|, f0.chunkSize).0
    ensures |Splice(Flat(z, f0), offset, data)| == f.size
    ensures ByteAt(z, f, p) == Splice(Flat(z, f0), offset, data)[p]
  {
    hide Splice, Slice, Flat, BlockRange, BlockStart, BlockAt, OffsetInBlock, FileOk;
    FileOkAt(z, f0, 0);
    var cs := f0.chunkSize;
    var i := BlockAt(p, cs);
    InBlock(p, i, cs);
    SpliceAt(Flat(z, f0), offset, data, p);
    assert BlockProgress(z, f0, f, Splice(Flat(z, f0), offset, data), i, lo, last + 1);
    if lo <= i < last + 1 {
      SliceShows(z, f, Splice(Flat(z, f0), offset, data), i, p);
    } else {
      RangeCovers(offset, |data|, cs, i);
      assert p < offset || p >= offset + |data|;
      PlainShows(z, f0, i, OffsetInBlock(p, cs));
    }
  }

  /** Block `i` is stored in both, with the same bytes. */
  ghost predicate OldBlock(z: Zstd, f0: FileData, f: FileData, i: nat) {
    i in f0.blocks && i in f.blocks && Plain(z, f, i) == Plain(z, f0, i)
  }

  /** Block `i` is as long as the file leaves room for. */
  ghost predicate Exact(z: Zstd, f: FileData, i: nat) {
    BlockStart(i, f.chunkSize) <= f.size && |Plain(z, f, i)| == Min(f.chunkSize, f.size - BlockStart(i, f.chunkSize))
  }

  /** Block `i` comes before the one a write at `offset` starts in, and before the old end. */
  ghost predicate Before(f0: FileData, offset: nat, i: nat)
    requires f0.chunkSize > 0
  {
    i < BlockAt(offset, f0.chunkSize) && i < DivCeil(f0.size, f0.chunkSize)
  }

  /** What a write does to the blocks: every one stored afterwards is as long as the file leaves room for, or is an old
      one outside the write; and the old ones before it are all still there. */
  ghost predicate WriteShape(z: Zstd, f0: FileData, f: FileData, offset: nat, len: nat) {
    && f.chunkSize == f0.chunkSize && f.size == Max(f0.size, offset + len)
    && (f0.chunkSize > 0 ==> forall i: nat :: ShapeAt(z, f0, f, offset, len, i))
  }

  ghost predicate ShapeAt(z: Zstd, f0: FileData, f: FileData, offset: nat, len: nat, i: nat)
    requires f0.chunkSize > 0
  {
    && (i in f.blocks ==>
          || Exact(z, f, i)
          || (OldBlock(z, f0, f, i) && (Before(f0, offset, i) || BlockStart(i, f0.chunkSize) >= offset + len)))
    && (i in f0.blocks && Before(f0, offset, i) ==> OldBlock(z, f0, f, i))
  }

  lemma ProgressShape(z: Zstd, f0: FileData, f: FileData, offset: nat, data: seq<byte>, lo: nat, last: nat)
    requires FileOk(z, f0) && |data| > 0
    requires Progress(z, f0, f, Splice(Flat(z, f0), offset, data), lo, last + 1)
    requires f.size == Max(f0.size, offset + |data|)
    requires last == BlockRange(offset, |data|, f0.chunkSize).1
    requires lo == Min(BlockRange(offset, |data|, f0.chunkSize).0, DivCeil(f0.size, f0.chunkSize))
    ensures WriteShape(z, f0, f, offset, |data|)
  {
    hide Splice, Flat, Slice, BlockRange, BlockStart, DivCeil, FileOk, Plain, BlockAt;
    FileOkAt(z, f0, 0);
    var cs := f0.chunkSize;
    var target := Splice(Flat(z, f0), offset, data);
    SpliceAt(Flat(z, f0), offset, data, offset);
    FirstIsAt(offset, |data|, cs);
    forall i: nat ensures ShapeAt(z, f0, f, offset, |data|, i) {
      assert BlockProgress(z, f0, f, target, i, lo, last + 1);
      if lo <= i <= last {
        ReachedBlock(offset, |data|, cs, i);
      } else {
        SamePlain(z, f0, f, i);
      }
      LaterStart(offset, |data|, cs, i);
    }
  }

  lemma FirstIsAt(offset: nat, len: nat, cs: nat)
    requires cs > 0
    ensures BlockRange(offset, len, cs).0 == BlockAt(offset, cs)
  {
  }

  /** Blocks past the last one reached start past the end of the write. */
  lemma LaterStart(offset: nat, len: nat, cs: nat, i: nat)
    requires cs > 0 && len > 0
    ensures i > BlockRange(offset, len, cs).1 ==> BlockStart(i, cs) >= offset + len
  {
    var last := BlockRange(offset, len, cs).1;
    InBlock(offset + len - 1, last, cs);
    if i > last { BlockSpan(last, i, cs); }
  }

  /** `write_at`. On success the file is the old one zero-extended to the offset, overwritten by the data, the
      rest kept; otherwise nothing has changed. */
  method WriteAt(store: Store, ino: nat, offset: nat, data: seq<byte>) returns (r: WriteResult)
    requires ino in store.files ==> store.Ok(ino)
    modifies store`files, store`compressCount
    ensures (ino in old(store.files) ==> store.Ok(ino)) && store.files.Keys == old(store.files.Keys)
    ensures forall j :: j in store.files && j != ino ==> store.files[j] == old(store.files)[j]
    ensures r == if |data| == 0 then Written(0) else if ino !in old(store.files) then NotFound
                 else if offset + |data| >= U64_LIMIT || offset > old(store.files)[ino].size + MAX_SPARSE_EXTENSION
                   then InvalidInput
                 else Written(|data|)
    ensures r != Written(|data|) || |data| == 0 ==> store.files == old(store.files)
    ensures r == Written(|data|) && |data| > 0 ==>
      && Flat(store.z, store.files[ino]) == Splice(Flat(store.z, old(store.files)[ino]), offset, data)
      && store.files[ino].chunkSize == old(store.files)[ino].chunkSize
      && store.files[ino].journal == old(store.files)[ino].journal
      && WriteShape(store.z, old(store.files)[ino], store.files[ino], offset, |data|)
  {
    hide Splice, Flat, Progress, BlockOk, Plain;
    if |data| == 0 {
      return Written(0);
    }
    var geometry := store.BlockGeometry(ino);
    if geometry.None? {
      return NotFound;
    }
    var (oldSize, cs) := geometry.value;
    var writeEnd := offset + |data|;
    if writeEnd >= U64_LIMIT {
      return InvalidInput;
    }
    var newSize := Max(oldSize, writeEnd);
    if offset > oldSize && offset - oldSize > MAX_SPARSE_EXTENSION {
      return InvalidInput;
    }
    var (first, last) := BlockRange(offset, |data|, cs);
    RangeCovers(offset, |data|, cs, first);
    var oldBlockCount := DivCeil(oldSize, cs);
    var loopStart := Min(first, oldBlockCount);
    ghost var f0 := store.files[ino];
    ghost var target := Splice(Flat(store.z, f0), offset, data);
    NoProgress(store.z, f0, target, loopStart);
    var idx := loopStart;
    while idx <= last
      invariant loopStart <= idx <= last + 1
      invariant ino in store.files && store.files == old(store.files)[ino := store.files[ino]]
      invariant Progress(store.z, f0, store.files[ino], target, loopStart, idx)
      invariant idx > loopStart ==> store.files[ino].size == newSize
    {
      WriteBlock(store, ino, f0, offset, data, loopStart, idx, cs, newSize);
      idx := idx + 1;
    }
    WriteComplete(store.z, f0, store.files[ino], offset, data, loopStart, last);
    ProgressKeeps(store.z, f0, store.files[ino], target, loopStart, idx);
    ProgressShape(store.z, f0, store.files[ino], offset, data, loopStart, last);
    r := Written(|data|);
  }

  lemma NoProgress(z: Zstd, f0: FileData, target: seq<byte>, lo: nat)
    ensures Progress(z, f0, f0, target, lo, lo)
  {
  }

  lemma ProgressKeeps(z: Zstd, f0: FileData, f: FileData, target: seq<byte>, lo: nat, idx: nat)
    requires Progress(z, f0, f, target, lo, idx)
    ensures f.chunkSize == f0.chunkSize && f.journal == f0.journal
    ensures forall i: nat :: i < lo ==> SameBlock(f0, f, i)
  {
    forall i: nat | i < lo ensures SameBlock(f0, f, i) {
      assert BlockProgress(z, f0, f, target, i, lo, idx);
    }
  }

  lemma ProgressStep(z: Zstd, f0: FileData, f1: FileData, f: FileData, target: seq<byte>, lo: nat, idx: nat)
    requires Progress(z, f0, f1, target, lo, idx) && lo <= idx
    requires f.chunkSize == f1.chunkSize && f.journal == f1.journal && idx in f.blocks
    requires SameBlocksExcept(f1, f, idx) && BlockDecodes(z, f, idx)
      && Plain(z, f, idx) == Slice(target, f.chunkSize, idx)
    ensures Progress(z, f0, f, target, lo, idx + 1)
  {
    hide Slice;
    var next := idx + 1;
    forall i: nat ensures BlockProgress(z, f0, f, target, i, lo, next) {
      assert BlockProgress(z, f0, f1, target, i, lo, idx);
      assert i != idx ==> SameBlock(f1, f, i);
    }
  }

  /** What the buffer holds before the patch: nothing when the write covers the whole block, else the old block. */
  lemma OldBytesShow(z: Zstd, f0: FileData, offset: nat, dataLen: nat, idx: nat, old0: seq<byte>, len: nat)
    requires FileOk(z, f0) && len <= f0.chunkSize
    requires old0 == Plain(z, f0, idx)
             || (offset <= BlockStart(idx, f0.chunkSize) && BlockStart(idx, f0.chunkSize) + len <= offset + dataLen)
    ensures OldShows(Flat(z, f0), offset, dataLen, BlockStart(idx, f0.chunkSize), old0, len)
  {
    hide Plain, Flat, BlockStart, FileOk;
    FileOkAt(z, f0, idx);
    if old0 == Plain(z, f0, idx) {
      var before, start := Flat(z, f0), BlockStart(idx, f0.chunkSize);
      forall k: nat | k < len ensures OldShowsAt(before, start, old0, k) {
        PlainShows(z, f0, idx, k);
      }
    }
  }

  /** The buffer of one block: load or skip the old block, fit, patch. */
  method BlockBuffer(store: Store, ino: nat, ghost f0: FileData, offset: nat, data: seq<byte>, idx: nat, cs: nat,
      newSize: nat)
    returns (plain: seq<byte>)
    requires FileOk(store.z, f0) && cs == f0.chunkSize && |data| > 0
    requires newSize == Max(f0.size, offset + |data|) && idx <= BlockRange(offset, |data|, cs).1
    requires ino in store.files && BlockDecodes(store.z, store.files[ino], idx)
    requires Plain(store.z, store.files[ino], idx) == Plain(store.z, f0, idx)
    ensures plain == Slice(Splice(Flat(store.z, f0), offset, data), cs, idx)
  {
    hide Splice, Flat, Slice, FileOk, BlockStart, BlockRange, Plain, Resize, OldShows, PatchBlock;
    FileOkAt(store.z, f0, idx);
    ReachedBlock(offset, |data|, cs, idx);
    var blockStart := BlockStart(idx, cs);
    var blockEnd := blockStart + cs;
    var writeEnd := offset + |data|;
    var wStart := Max(offset, blockStart);
    var wEnd := Max(Min(writeEnd, blockEnd), wStart);
    var blockLogicalEnd := Min(blockEnd, newSize);
    var blockLogicalLen := blockLogicalEnd - blockStart;
    var fullOverwrite := wStart <= blockStart && wEnd >= blockLogicalEnd;
    var old0: seq<byte> := [];
    if !fullOverwrite {
      old0 := LoadPlainBlock(store, ino, idx);
    }
    plain := PatchBlock(old0, blockStart, blockEnd, blockLogicalLen, offset, data);
    OldBytesShow(store.z, f0, offset, |data|, idx, old0, blockLogicalLen);
    PatchedBlock(Flat(store.z, f0), offset, data, cs, idx, old0, plain);
  }

  /** The loop body. */
  method WriteBlock(store: Store, ino: nat, ghost f0: FileData, offset: nat, data: seq<byte>, ghost lo: nat, idx: nat,
      cs: nat, newSize: nat)
    requires FileOk(store.z, f0) && cs == f0.chunkSize && |data| > 0
    requires newSize == Max(f0.size, offset + |data|) && lo <= idx <= BlockRange(offset, |data|, cs).1
    requires ino in store.files
      && Progress(store.z, f0, store.files[ino], Splice(Flat(store.z, f0), offset, data), lo, idx)
    modifies store`files, store`compressCount
    ensures ino in store.files && store.files == old(store.files)[ino := store.files[ino]]
    ensures Progress(store.z, f0, store.files[ino], Splice(Flat(store.z, f0), offset, data), lo, idx + 1)
    ensures store.files[ino].size == newSize
    ensures store.compressCount == old(store.compressCount) + 1
  {
    hide Splice, Flat, Slice, FileOk, Progress, RoundTrips, BlockRange, BlockOk, Plain;
    FileOkAt(store.z, f0, idx);
    ghost var target := Splice(Flat(store.z, f0), offset, data);
    ghost var f1 := store.files[ino];
    ProgressAt(store.z, f0, f1, target, lo, idx);
    var plain := BlockBuffer(store, ino, f0, offset, data, idx, cs, newSize);
    StorePlainBlock(store, ino, idx, plain, newSize);
    ProgressStep(store.z, f0, f1, store.files[ino], target, lo, idx);
  }

  lemma ProgressAt(z: Zstd, f0: FileData, f: FileData, target: seq<byte>, lo: nat, idx: nat)
    requires Progress(z, f0, f, target, lo, idx) && BlockOk(z, f0, idx)
    ensures f.chunkSize == f0.chunkSize && Plain(z, f, idx) == Plain(z, f0, idx) && BlockDecodes(z, f, idx)
  {
    assert BlockProgress(z, f0, f, target, idx, lo, idx);
  }

  // ---- truncation ----

  /** Block `i` reads as the bytes of `target`, as far as `target` goes. */
  ghost predicate Reads(z: Zstd, f: FileData, target: seq<byte>, i: nat) {
    forall k: nat :: k < f.chunkSize && BlockStart(i, f.chunkSize) + k < |target| ==> ReadsAt(z, f, target, i, k)
  }

  ghost predicate ReadsAt(z: Zstd, f: FileData, target: seq<byte>, i: nat, k: nat)
    requires BlockStart(i, f.chunkSize) + k < |target|
  {
    (if k < |Plain(z, f, i)| then Plain(z, f, i)[k] else 0) == target[BlockStart(i, f.chunkSize) + k]
  }

  lemma FlatFromReads(z: Zstd, f: FileData, target: seq<byte>)
    requires f.chunkSize > 0 && f.size == |target| && forall i: nat :: Reads(z, f, target, i)
    ensures Flat(z, f) == target
  {
    hide Plain, BlockStart, BlockAt, OffsetInBlock;
    forall p: nat | p < f.size ensures ByteAt(z, f, p) == target[p] {
      var i := BlockAt(p, f.chunkSize);
      InBlock(p, i, f.chunkSize);
      Aligned(p, f.chunkSize);
      assert Reads(z, f, target, i);
      assert ReadsAt(z, f, target, i, OffsetInBlock(p, f.chunkSize));
    }
    FlatIs(z, f, target);
  }

  /** A block kept as it was reads as the resized file, if it ends inside both or reads zeros beyond. */
  lemma KeptReads(z: Zstd, f0: FileData, f: FileData, n: nat, i: nat)
    requires FileOk(z, f0) && f.chunkSize == f0.chunkSize && SameBlock(f0, f, i)
    ensures Reads(z, f, Resize(Flat(z, f0), n), i)
  {
    hide BlockStart, Plain;
    assert Plain(z, f, i) == Plain(z, f0, i) by { SamePlain(z, f0, f, i); }
    FileOkAt(z, f0, i);
    var target := Resize(Flat(z, f0), n);
    forall k: nat | k < f.chunkSize && BlockStart(i, f.chunkSize) + k < |target| ensures ReadsAt(z, f, target, i, k) {
      PlainShows(z, f0, i, k);
    }
  }

  lemma SamePlain(z: Zstd, f0: FileData, f: FileData, i: nat)
    requires SameBlock(f0, f, i)
    ensures Plain(z, f, i) == Plain(z, f0, i) && (BlockDecodes(z, f0, i) ==> BlockDecodes(z, f, i))
  {
  }

  /** A block whose bytes were fitted to the resized file reads as it. */
  lemma FittedReads(z: Zstd, f0: FileData, f: FileData, n: nat, i: nat, want: nat)
    requires FileOk(z, f0) && f.chunkSize == f0.chunkSize && want <= f.chunkSize
    requires Plain(z, f, i) == Resize(Plain(z, f0, i), want)
    requires want < f.chunkSize ==> BlockStart(i, f.chunkSize) + want == n
    ensures Reads(z, f, Resize(Flat(z, f0), n), i)
  {
    hide BlockStart, Plain;
    FileOkAt(z, f0, i);
    var target := Resize(Flat(z, f0), n);
    forall k: nat | k < f.chunkSize && BlockStart(i, f.chunkSize) + k < |target| ensures ReadsAt(z, f, target, i, k) {
      PlainShows(z, f0, i, k);
    }
  }

  /** An absent block past the old end or past the new one reads as the resized file. */
  lemma AbsentReads(z: Zstd, f0: FileData, f: FileData, n: nat, i: nat)
    requires FileOk(z, f0) && f.chunkSize == f0.chunkSize && i !in f.blocks
    requires BlockStart(i, f0.chunkSize) >= n || BlockStart(i, f0.chunkSize) >= f0.size
    ensures Reads(z, f, Resize(Flat(z, f0), n), i)
  {
  }

  ghost predicate Kept(z: Zstd, f0: FileData, f: FileData, n: nat, i: nat) {
    SameBlock(f0, f, i) && (i in f.blocks ==> BlockStart(i, f0.chunkSize) + |Plain(z, f0, i)| <= n)
  }

  ghost predicate Dropped(f0: FileData, f: FileData, n: nat, i: nat) {
    i !in f.blocks && (BlockStart(i, f0.chunkSize) >= n || BlockStart(i, f0.chunkSize) >= f0.size)
  }

  /** What `truncate` leaves behind, block by block: `touched` (if any) fitted to `want` bytes, every other
      block as it was and ending in time, or dropped from beyond one of the two ends. */
  ghost predicate Truncated(z: Zstd, f0: FileData, f: FileData, n: nat, touched: Option<nat>, want: nat) {
    && f.size == n && f.chunkSize == f0.chunkSize && f.journal == f0.journal
    && (touched.Some? ==>
          && BlockDecodes(z, f, touched.value)
          && Plain(z, f, touched.value) == Resize(Plain(z, f0, touched.value), want)
          && want <= f0.chunkSize && BlockStart(touched.value, f0.chunkSize) + want <= n
          && (want < f0.chunkSize ==> BlockStart(touched.value, f0.chunkSize) + want == n))
    && forall i: nat :: Some(i) != touched ==> Kept(z, f0, f, n, i) || Dropped(f0, f, n, i)
  }

  lemma TruncatedIsResized(z: Zstd, f0: FileData, f: FileData, n: nat, touched: Option<nat>, want: nat)
    requires FileOk(z, f0) && Truncated(z, f0, f, n, touched, want)
    ensures FileOk(z, f) && Flat(z, f) == Resize(Flat(z, f0), n)
  {
    hide BlockStart, Flat, Reads, FileOk, Resize;
    FileOkAt(z, f0, 0);
    var target := Resize(Flat(z, f0), n);
    forall i: nat ensures Reads(z, f, target, i) && BlockOk(z, f, i) {
      FileOkAt(z, f0, i);
      if touched == Some(i) {
        FittedReads(z, f0, f, n, i, want);
      } else if Kept(z, f0, f, n, i) {
        KeptReads(z, f0, f, n, i);
      } else {
        assert Dropped(f0, f, n, i);
        AbsentReads(z, f0, f, n, i);
      }
    }
    FlatFromReads(z, f, target);
    FileOkIf(z, f);
  }

  /** What truncation does to the blocks: every one stored afterwards is as long as the file leaves room for, or is an
      old one, which on growth had all its place inside the old file; and the old ones that end inside both files are
      all still there. */
  ghost predicate TruncateShape(z: Zstd, f0: FileData, f: FileData, n: nat) {
    && f.chunkSize == f0.chunkSize && f.size == n
    && forall i: nat :: CutShapeAt(z, f0, f, n, i)
  }

  ghost predicate CutShapeAt(z: Zstd, f0: FileData, f: FileData, n: nat, i: nat) {
    var end := BlockStart(i, f0.chunkSize) + f0.chunkSize;
    && (i in f.blocks ==> Exact(z, f, i) || (OldBlock(z, f0, f, i) && (n <= f0.size || end <= f0.size)))
    && (i in f0.blocks && end <= f0.size && end <= n ==> OldBlock(z, f0, f, i))
  }

  /** On growth only the touched block may have reached past the old end. */
  ghost predicate GrowthInside(f0: FileData, f: FileData, n: nat, touched: Option<nat>, i: nat) {
    n > f0.size && i in f.blocks ==>
      (Some(i) == touched <==> BlockStart(i, f0.chunkSize) + f0.chunkSize > f0.size)
  }

  lemma ShapeOfTruncated(z: Zstd, f0: FileData, f: FileData, n: nat, touched: Option<nat>, want: nat)
    requires FileOk(z, f0) && Truncated(z, f0, f, n, touched, want)
    requires touched.Some? ==> touched.value in f.blocks && (want < f0.chunkSize || n > f0.size)
    requires forall i: nat :: GrowthInside(f0, f, n, touched, i)
    ensures TruncateShape(z, f0, f, n)
  {
    hide BlockStart, FileOk, Resize, Plain;
    FileOkAt(z, f0, 0);
    forall i: nat ensures CutShapeAt(z, f0, f, n, i) {
      assert GrowthInside(f0, f, n, touched, i);
      if touched == Some(i) {
        assert Exact(z, f, i);
      } else {
        assert Kept(z, f0, f, n, i) || Dropped(f0, f, n, i);
        if i in f.blocks { SamePlain(z, f0, f, i); }
      }
    }
  }

  lemma ShapeUnchanged(z: Zstd, f: FileData)
    ensures TruncateShape(z, f, f, f.size)
  {
  }

  lemma DecodesIfOk(z: Zstd, f: FileData, i: nat)
    requires BlockOk(z, f, i)
    ensures BlockDecodes(z, f, i)
  {
  }

  /** The block that holds the last byte of an unaligned size, and where the others lie. */
  lemma LastKeptBlock(n: nat, cs: nat)
    requires cs > 0 && n > 0 && OffsetInBlock(n, cs) != 0
    ensures var b := BlockAt(n - 1, cs);
      && BlockStart(b, cs) + OffsetInBlock(n, cs) == n && OffsetInBlock(n, cs) < cs
      && (forall i: nat :: i > b ==> BlockStart(i, cs) >= n)
      && (forall i: nat :: i < b ==> BlockStart(i, cs) + cs <= n)
  {
    hide BlockStart, BlockAt, OffsetInBlock;
    Aligned(n, cs);
    var b := BlockAt(n - 1, cs);
    InBlock(n - 1, BlockAt(n, cs), cs);
    forall i: nat | i > b ensures BlockStart(i, cs) >= n { BlockSpan(b, i, cs); }
    forall i: nat | i < b ensures BlockStart(i, cs) + cs <= n { BlockSpan(i, b, cs); }
  }

  lemma AlignedCut(n: nat, cs: nat)
    requires cs > 0 && (n == 0 || OffsetInBlock(n, cs) == 0)
    ensures forall i: nat :: i >= DivCeil(n, cs) ==> BlockStart(i, cs) >= n
    ensures forall i: nat :: i < DivCeil(n, cs) ==> BlockStart(i, cs) + cs <= n
  {
    hide DivCeil, BlockAt, OffsetInBlock, BlockStart;
    Aligned(n, cs);
    forall i: nat ensures i < DivCeil(n, cs) <==> BlockStart(i, cs) < n { DivCeilBounds(n, cs, i); }
    forall i: nat | i < DivCeil(n, cs) ensures BlockStart(i, cs) + cs <= n {
      BlockBelowAligned(n, cs, i);
    }
  }

  /** Below an aligned end, every block that starts also ends. */
  lemma BlockBelowAligned(n: nat, cs: nat, i: nat)
    requires cs > 0 && OffsetInBlock(n, cs) == 0 && BlockStart(i, cs) < n
    ensures BlockStart(i, cs) + cs <= n
  {
    hide BlockAt, OffsetInBlock, BlockStart;
    var b := BlockAt(n, cs);
    Aligned(n, cs);
    if i < b { BlockSpan(i, b, cs); } else if i > b { BlockSpan(b, i, cs); }
  }

  /** `truncate`: the file becomes its flat resize, zeros added when it grows. */
  method Truncate(store: Store, ino: nat, newSize: nat) returns (r: WriteResult)
    requires ino in store.files ==> store.Ok(ino)
    modifies store`files, store`compressCount
    ensures (ino in old(store.files) ==> store.Ok(ino)) && store.files.Keys == old(store.files.Keys)
    ensures forall j :: j in store.files && j != ino ==> store.files[j] == old(store.files)[j]
    ensures r == if ino in old(store.files) then Written(0) else NotFound
    ensures ino !in old(store.files) ==> store.files == old(store.files)
    ensures ino in old(store.files) ==>
      && Flat(store.z, store.files[ino]) == Resize(Flat(store.z, old(store.files)[ino]), newSize)
      && store.files[ino].chunkSize == old(store.files)[ino].chunkSize
      && store.files[ino].journal == old(store.files)[ino].journal
      && TruncateShape(store.z, old(store.files)[ino], store.files[ino], newSize)
  {
    hide Flat, Plain, BlockOk, BlockStart, BlockAt, OffsetInBlock, DivCeil, RoundTrips, Truncated, TruncateShape;
    var geometry := store.BlockGeometry(ino);
    if geometry.None? {
      return NotFound;
    }
    var (oldSize, cs) := geometry.value;
    r := Written(0);
    ghost var f0 := store.files[ino];
    if newSize == oldSize {
      assert Resize(Flat(store.z, f0), newSize) == Flat(store.z, f0);
      ShapeUnchanged(store.z, f0);
      return;
    }
    if newSize < oldSize {
      TruncateDown(store, ino, newSize, oldSize, cs);
    } else {
      TruncateUp(store, ino, newSize, oldSize, cs);
    }
  }

  method TruncateDown(store: Store, ino: nat, newSize: nat, oldSize: nat, cs: nat)
    requires store.Ok(ino) && oldSize == store.files[ino].size && cs == store.files[ino].chunkSize && newSize < oldSize
    modifies store`files, store`compressCount
    ensures store.Ok(ino) && store.files == old(store.files)[ino := store.files[ino]]
    ensures Flat(store.z, store.files[ino]) == Resize(Flat(store.z, old(store.files)[ino]), newSize)
    ensures TruncateShape(store.z, old(store.files)[ino], store.files[ino], newSize)
    ensures store.files[ino].chunkSize == old(store.files)[ino].chunkSize
    ensures store.files[ino].journal == old(store.files)[ino].journal
  {
    hide Flat, Plain, BlockOk, BlockStart, BlockAt, OffsetInBlock, DivCeil, Resize, Truncated, TruncateShape;
    ghost var f0 := store.files[ino];
    var lastKept := if newSize == 0 then 0 else BlockAt(newSize - 1, cs);
    var boundary := OffsetInBlock(newSize, cs);
    if newSize != 0 && boundary != 0 {
      LastKeptBlock(newSize, cs);
      FileOkAt(store.z, f0, lastKept);
      DecodesIfOk(store.z, f0, lastKept);
      var plain := LoadPlainBlock(store, ino, lastKept);
      plain := Resize(plain, boundary);
      StorePlainBlock(store, ino, lastKept, plain, newSize);
      ghost var f1 := store.files[ino];
      store.TruncateBlocks(ino, lastKept + 1, newSize);
      CutAfter(store.z, f0, f1, newSize, lastKept, boundary);
      TruncatedIsResized(store.z, f0, store.files[ino], newSize, Some(lastKept), boundary);
      ShapeOfTruncated(store.z, f0, store.files[ino], newSize, Some(lastKept), boundary);
    } else {
      var keepFrom := DivCeil(newSize, cs);
      store.TruncateBlocks(ino, keepFrom, newSize);
      CutAligned(store.z, f0, newSize);
      TruncatedIsResized(store.z, f0, store.files[ino], newSize, None, 0);
      ShapeOfTruncated(store.z, f0, store.files[ino], newSize, None, 0);
    }
  }

  /** Cutting after a fitted last block. */
  lemma CutAfter(z: Zstd, f0: FileData, f1: FileData, n: nat, idx: nat, want: nat)
    requires FileOk(z, f0) && f1.chunkSize == f0.chunkSize && f1.journal == f0.journal
    requires idx in f1.blocks && BlockDecodes(z, f1, idx) && Plain(z, f1, idx) == Resize(Plain(z, f0, idx), want)
    requires SameBlocksExcept(f0, f1, idx)
    requires want <= f0.chunkSize && BlockStart(idx, f0.chunkSize) + want == n
    requires forall i: nat :: i > idx ==> BlockStart(i, f0.chunkSize) >= n
    requires forall i: nat :: i < idx ==> BlockStart(i, f0.chunkSize) + f0.chunkSize <= n
    ensures Truncated(z, f0, Cut(f1, idx + 1, n), n, Some(idx), want)
  {
    hide BlockStart, Resize;
    var f := Cut(f1, idx + 1, n);
    assert Plain(z, f, idx) == Plain(z, f1, idx);
    forall i: nat | i != idx ensures Kept(z, f0, f, n, i) || Dropped(f0, f, n, i) {
      assert SameBlock(f0, f1, i);
      FileOkAt(z, f0, i);
    }
  }

  lemma CutAligned(z: Zstd, f0: FileData, n: nat)
    requires FileOk(z, f0) && (n == 0 || OffsetInBlock(n, f0.chunkSize) == 0)
    ensures Truncated(z, f0, Cut(f0, DivCeil(n, f0.chunkSize), n), n, None, 0)
  {
    hide BlockStart, DivCeil, OffsetInBlock;
    AlignedCut(n, f0.chunkSize);
    var f := Cut(f0, DivCeil(n, f0.chunkSize), n);
    forall i: nat ensures Kept(z, f0, f, n, i) || Dropped(f0, f, n, i) {
      FileOkAt(z, f0, i);
    }
  }

  method TruncateUp(store: Store, ino: nat, newSize: nat, oldSize: nat, cs: nat)
    requires store.Ok(ino) && oldSize == store.files[ino].size && cs == store.files[ino].chunkSize && newSize > oldSize
    modifies store`files, store`compressCount
    ensures store.Ok(ino) && store.files == old(store.files)[ino := store.files[ino]]
    ensures Flat(store.z, store.files[ino]) == Resize(Flat(store.z, old(store.files)[ino]), newSize)
    ensures TruncateShape(store.z, old(store.files)[ino], store.files[ino], newSize)
    ensures store.files[ino].chunkSize == old(store.files)[ino].chunkSize
    ensures store.files[ino].journal == old(store.files)[ino].journal
  {
    hide Flat, Plain, BlockStart, BlockAt, OffsetInBlock, DivCeil, Resize, Truncated, TruncateShape;
    ghost var f0 := store.files[ino];
    var oldLast := if oldSize == 0 then 0 else BlockAt(oldSize - 1, cs);
    var oldLastEnd := BlockStart(oldLast, cs) + cs;
    if oldSize > 0 { InBlock(oldSize - 1, oldLast, cs); }
    if oldSize > 0 && oldSize < oldLastEnd {
      var targetInBlock := Min(oldLastEnd, newSize);
      FileOkAt(store.z, f0, oldLast);
      DecodesIfOk(store.z, f0, oldLast);
      var plain := LoadPlainBlock(store, ino, oldLast);
      var want := targetInBlock - BlockStart(oldLast, cs);
      ShortPlain(store.z, f0, oldLast, want);
      if |plain| < want {
        plain := Resize(plain, want);
      }
      StorePlainBlock(store, ino, oldLast, plain, newSize);
      GrownLast(store.z, f0, store.files[ino], newSize, oldLast, want);
      TruncatedIsResized(store.z, f0, store.files[ino], newSize, Some(oldLast), want);
      OnlyLastReaches(store.z, f0, store.files[ino], newSize, oldLast);
      ShapeOfTruncated(store.z, f0, store.files[ino], newSize, Some(oldLast), want);
    } else {
      var keepAll := DivCeil(oldSize, cs);
      store.TruncateBlocks(ino, keepAll, newSize);
      GrownAligned(store.z, f0, newSize);
      TruncatedIsResized(store.z, f0, store.files[ino], newSize, None, 0);
      NoneReaches(store.z, f0, newSize, oldLast);
      ShapeOfTruncated(store.z, f0, store.files[ino], newSize, None, 0);
    }
  }

  /** Of the blocks after growth, other than the unfinished last one, none reaches past the old end. */
  lemma OnlyLastReaches(z: Zstd, f0: FileData, f: FileData, n: nat, idx: nat)
    requires FileOk(z, f0) && SameBlocksExcept(f0, f, idx)
    requires BlockStart(idx, f0.chunkSize) < f0.size < BlockStart(idx, f0.chunkSize) + f0.chunkSize
    ensures forall i: nat :: GrowthInside(f0, f, n, Some(idx), i)
  {
    hide BlockStart, Plain;
    var cs := f0.chunkSize;
    forall i: nat ensures GrowthInside(f0, f, n, Some(idx), i) {
      FileOkAt(z, f0, i);
      assert i != idx ==> SameBlock(f0, f, i);
      if i < idx { BlockSpan(i, idx, cs); }
      if i > idx { BlockSpan(idx, i, cs); }
    }
  }

  lemma NoneReaches(z: Zstd, f0: FileData, n: nat, oldLast: nat)
    requires FileOk(z, f0)
    requires f0.size > 0 ==>
      BlockStart(oldLast, f0.chunkSize) < f0.size && f0.size == BlockStart(oldLast, f0.chunkSize) + f0.chunkSize
    ensures var f := Cut(f0, DivCeil(f0.size, f0.chunkSize), n);
      forall i: nat :: GrowthInside(f0, f, n, None, i)
  {
    hide BlockStart, DivCeil, Plain;
    var cs := f0.chunkSize;
    forall i: nat ensures GrowthInside(f0, Cut(f0, DivCeil(f0.size, cs), n), n, None, i) {
      DivCeilBounds(f0.size, cs, i);
      if i < oldLast { BlockSpan(i, oldLast, cs); }
      if i > oldLast { BlockSpan(oldLast, i, cs); }
    }
  }

  /** The old last block is no longer than the file leaves room for. */
  lemma ShortPlain(z: Zstd, f0: FileData, idx: nat, want: nat)
    requires BlockOk(z, f0, idx) && BlockStart(idx, f0.chunkSize) + want >= f0.size
    ensures |Plain(z, f0, idx)| <= want
    ensures |Plain(z, f0, idx)| == want ==> Resize(Plain(z, f0, idx), want) == Plain(z, f0, idx)
  {
  }

  lemma GrownLast(z: Zstd, f0: FileData, f: FileData, n: nat, idx: nat, want: nat)
    requires FileOk(z, f0) && n > f0.size && f.size == n && f.chunkSize == f0.chunkSize && f.journal == f0.journal
    requires BlockDecodes(z, f, idx) && Plain(z, f, idx) == Resize(Plain(z, f0, idx), want)
      && SameBlocksExcept(f0, f, idx)
    requires want <= f0.chunkSize && BlockStart(idx, f0.chunkSize) + want <= n
    requires want < f0.chunkSize ==> BlockStart(idx, f0.chunkSize) + want == n
    ensures Truncated(z, f0, f, n, Some(idx), want)
  {
    hide BlockStart, Resize;
    forall i: nat | i != idx ensures Kept(z, f0, f, n, i) {
      assert SameBlock(f0, f, i);
      FileOkAt(z, f0, i);
    }
  }

  lemma GrownAligned(z: Zstd, f0: FileData, n: nat)
    requires FileOk(z, f0) && n > f0.size
    ensures Truncated(z, f0, Cut(f0, DivCeil(f0.size, f0.chunkSize), n), n, None, 0)
  {
    hide BlockStart, DivCeil;
    var f := Cut(f0, DivCeil(f0.size, f0.chunkSize), n);
    forall i: nat ensures Kept(z, f0, f, n, i) || Dropped(f0, f, n, i) {
      FileOkAt(z, f0, i);
      DivCeilBounds(f0.size, f0.chunkSize, i);
    }
  }
}
