/** The storage contract: per file a map from block number to stored block, and a size (store/mod.rs). */
module Stores {
  import opened Bytes
  import opened Codec
  import opened Chunk

  /** `journal` collects the increments handed to `append_tail` since the tail was last sealed. */
  datatype FileData = FileData(blocks: map<nat, StoredBlock>, size: nat, chunkSize: nat, journal: seq<byte>)

  /** The decoded block, empty when there is none. */
  function Plain(z: Zstd, f: FileData, idx: nat): seq<byte> {
    if idx !in f.blocks then []
    else
      var d := DecompressBlock(z, f.blocks[idx]);
      if d.Some? then d.value else []
  }

  /** A stored block decodes, and extends past neither the chunk size nor the file size. */
  ghost predicate BlockOk(z: Zstd, f: FileData, idx: nat) {
    idx in f.blocks ==>
      && DecompressBlock(z, f.blocks[idx]).Some?
      && |Plain(z, f, idx)| <= f.chunkSize && BlockStart(idx, f.chunkSize) + |Plain(z, f, idx)| <= f.size
  }

  /** The codec gives back whatever fits in a chunk, and every stored block is sound. */
  ghost predicate FileOk(z: Zstd, f: FileData) {
    && 0 < f.chunkSize && RoundTrips(z, f.chunkSize)
    && forall idx: nat :: BlockOk(z, f, idx)
  }

  /** The byte at `p`: absent blocks and the missing end of a short block read as zero. */
  function ByteAt(z: Zstd, f: FileData, p: nat): byte
    requires f.chunkSize > 0
  {
    var b, o := Plain(z, f, BlockAt(p, f.chunkSize)), OffsetInBlock(p, f.chunkSize);
    if o < |b| then b[o] else 0
  }

  /** The file as a flat byte string. */
  function Flat(z: Zstd, f: FileData): (r: seq<byte>)
    requires f.chunkSize > 0
    ensures |r| == f.size
  {
    seq(f.size, p requires 0 <= p < f.size => ByteAt(z, f, p))
  }

  /** The part of a flat file that block `i` covers. */
  function Slice(flat: seq<byte>, cs: nat, i: nat): (r: seq<byte>)
    ensures |r| <= cs
    ensures BlockStart(i, cs) <= |flat| ==>
      |r| == if BlockStart(i, cs) + cs <= |flat| then cs else |flat| - BlockStart(i, cs)
    ensures forall k :: 0 <= k < |r| ==> BlockStart(i, cs) + k < |flat| && r[k] == flat[BlockStart(i, cs) + k]
  {
    var lo := BlockStart(i, cs);
    var hi := if lo + cs <= |flat| then lo + cs else |flat|;
    if lo <= hi then flat[lo..hi] else []
  }

  /** A block that equals its slice of `flat` shows the bytes of `flat`. */
  lemma SliceShows(z: Zstd, f: FileData, flat: seq<byte>, i: nat, p: nat)
    requires f.chunkSize > 0 && Plain(z, f, i) == Slice(flat, f.chunkSize, i)
    requires p < |flat| && BlockAt(p, f.chunkSize) == i
    ensures ByteAt(z, f, p) == flat[p]
  {
    InBlock(p, i, f.chunkSize);
  }

  /** Writing to a flat file: zero-extend to the offset, overwrite, keep the tail. */
  function Splice(flat: seq<byte>, offset: nat, data: seq<byte>): seq<byte> {
    if |data| == 0 then flat else Apply(flat, offset, data)
  }

  function Resize(flat: seq<byte>, n: nat): (r: seq<byte>)
    ensures |r| == n
  {
    if n <= |flat| then flat[..n] else flat + Zeros(n - |flat|)
  }

  class Store {
    const z: Zstd
    const tailJournal: bool
    var files: map<nat, FileData>
    /** How many blocks have been compressed into the store. */
    var compressCount: nat

    constructor (z: Zstd, tailJournal: bool)
      ensures this.z == z && this.tailJournal == tailJournal && files == map[] && compressCount == 0
    {
      this.z, this.tailJournal := z, tailJournal;
      files, compressCount := map[], 0;
    }

    ghost predicate Ok(ino: nat)
      reads this
    {
      ino in files && FileOk(z, files[ino])
    }

    method Create(ino: nat, chunkSize: nat)
      requires ino !in files && chunkSize > 0
      modifies this`files
      ensures files == old(files)[ino := FileData(map[], 0, chunkSize, [])]
      ensures Flat(z, files[ino]) == [] && (FileOk(z, files[ino]) <==> RoundTrips(z, chunkSize))
    {
      files := files[ino := FileData(map[], 0, chunkSize, [])];
    }

    method GetBlock(ino: nat, idx: nat) returns (r: Option<StoredBlock>)
      ensures r == if ino in files && idx in files[ino].blocks then Some(files[ino].blocks[idx]) else None
    {
      if ino in files && idx in files[ino].blocks {
        return Some(files[ino].blocks[idx]);
      }
      r := None;
    }

    method BlockGeometry(ino: nat) returns (r: Option<(nat, nat)>)
      ensures r == if ino in files then Some((files[ino].size, files[ino].chunkSize)) else None
    {
      if ino !in files {
        return None;
      }
      r := Some((files[ino].size, files[ino].chunkSize));
    }

    method PutBlock(ino: nat, idx: nat, blk: StoredBlock, newSize: nat)
      requires ino in files
      modifies this`files
      ensures files ==
        old(files)[ino := old(files[ino]).(blocks := old(files[ino]).blocks[idx := blk], size := newSize)]
    {
      var f := files[ino];
      files := files[ino := f.(blocks := f.blocks[idx := blk], size := newSize)];
    }

    method TruncateBlocks(ino: nat, keepFrom: nat, newSize: nat)
      requires ino in files
      modifies this`files
      ensures files == old(files)[ino := Cut(old(files[ino]), keepFrom, newSize)]
    {
      files := files[ino := Cut(files[ino], keepFrom, newSize)];
    }

    /** Durable append of raw tail bytes. The contract fixes the size and what is journaled; what `get_block`
        answers meanwhile for the tail's own block number is left to the backend, so it is arbitrary here. */
    method AppendTail(ino: nat, delta: seq<byte>, newSize: nat, tailIdx: nat)
      requires ino in files && tailJournal
      modifies this`files
      ensures ino in files && files == old(files)[ino := files[ino]]
      ensures var f, f0 := files[ino], old(files[ino]);
        && f.size == newSize && f.chunkSize == f0.chunkSize && f.journal == f0.journal + delta
        && forall i :: i != tailIdx ==>
          (i in f.blocks <==> i in f0.blocks) && (i in f.blocks ==> f.blocks[i] == f0.blocks[i])
    {
      var f := files[ino];
      var shown: bool := *;
      var blk: StoredBlock := *;
      var blocks := if shown then f.blocks[tailIdx := blk] else f.blocks - {tailIdx};
      files := files[ino := f.(blocks := blocks, size := newSize, journal := f.journal + delta)];
    }

    method SealTailBlock(ino: nat, idx: nat, blk: StoredBlock, newSize: nat)
      requires ino in files
      modifies this`files
      ensures files ==
        old(files)[ino := FileData(old(files[ino]).blocks[idx := blk], newSize, old(files[ino]).chunkSize,
                                   if tailJournal then [] else old(files[ino]).journal)]
    {
      var f := files[ino];
      files := files[ino := FileData(f.blocks[idx := blk], newSize, f.chunkSize,
        if tailJournal then [] else f.journal)];
    }
  }

  function Cut(f: FileData, keepFrom: nat, newSize: nat): FileData {
    f.(blocks := map i | i in f.blocks && i < keepFrom :: f.blocks[i], size := newSize)
  }
}
