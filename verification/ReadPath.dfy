/** The read path over tail buffer, block cache and store (rwfs.rs): what a read returns, when it fails, and that
    the cache makes no difference. */
module ReadPath {
  import opened Bytes
  import opened Codec
  import opened Chunk
  import opened Stores
  import opened Rmw
  import opened Session
  import opened BlockCaches

  datatype ReadResult = Data(bytes: seq<byte>) | NoEntry | IoError

  /** What the cache holds of this file are its stored blocks, decoded. */
  ghost predicate Coherent(cache: BlockCache, z: Zstd, f: FileData, ino: nat)
    reads cache
  {
    NodesCoherent(cache.nodes, z, f, ino)
  }

  ghost predicate NodesCoherent(nodes: map<Key, Node>, z: Zstd, f: FileData, ino: nat) {
    forall i: nat :: Key(ino, i) in nodes ==> i in f.blocks && nodes[Key(ino, i)].bytes == Plain(z, f, i)
  }

  /** A stored block other than the tail that is too short for the part of it the read wants, though the file
      goes on after it. */
  ghost predicate ShortInterior(z: Zstd, f: FileData, t: Option<Tail>, offset: nat, end: nat, size: nat, idx: nat)
    requires f.chunkSize > 0
  {
    var start := BlockStart(idx, f.chunkSize);
    && !(t.Some? && t.value.idx == idx) && idx in f.blocks
    && start < end && offset < start + f.chunkSize < size
    && |Plain(z, f, idx)| < Min(end, start + f.chunkSize) - start
  }

  /** What a read returns, with no mention of the cache. */
  ghost function ReadSpec(z: Zstd, f: FileData, t: Option<Tail>, offset: nat, size: nat): (r: ReadResult)
    requires f.chunkSize > 0
  {
    var flat := Content(z, f, t);
    var end := Min(offset + size, |flat|);
    if offset >= |flat| || size == 0 then Data([])
    else if exists idx: nat :: ShortInterior(z, f, t, offset, end, |flat|, idx) then IoError
    else Data(flat[offset..end])
  }

  /** Whatever is returned as data is the exact slice of the file, clipped at its end. */
  lemma DataIsExact(z: Zstd, f: FileData, t: Option<Tail>, offset: nat, size: nat)
    requires f.chunkSize > 0
    ensures var flat := Content(z, f, t);
      ReadSpec(z, f, t, offset, size).Data? ==>
        ReadSpec(z, f, t, offset, size).bytes == flat[Min(offset, |flat|)..Min(offset + size, |flat|)]
  {
    var flat := Content(z, f, t);
    if size == 0 { assert flat[Min(offset, |flat|)..Min(offset, |flat|)] == []; }
  }

  lemma ReadSpecIs(z: Zstd, f: FileData, t: Option<Tail>, offset: nat, size: nat)
    requires f.chunkSize > 0
    ensures var flat := Content(z, f, t);
      var r, end := ReadSpec(z, f, t, offset, size), Min(offset + size, |flat|);
      && (offset >= |flat| || size == 0 ==> r == Data([]))
      && (offset < |flat| && size > 0 && (forall idx: nat :: !ShortInterior(z, f, t, offset, end, |flat|, idx)) ==>
            r == Data(flat[offset..end]))
      && forall idx: nat :: offset < |flat| && size > 0 && ShortInterior(z, f, t, offset, end, |flat|, idx) ==>
        r == IoError
  {
    hide Content, ShortInterior;
  }

  /** The byte at `p` can be given: it lies in the tail, or in no stored block, or in a block whose place reaches the
      end of the file, or inside the bytes its block stores. */
  ghost predicate ByteGiven(z: Zstd, f: FileData, t: Option<Tail>, p: nat)
    requires f.chunkSize > 0
  {
    var i := BlockAt(p, f.chunkSize);
    || (t.Some? && t.value.idx == i)
    || i !in f.blocks
    || |Content(z, f, t)| <= BlockStart(i, f.chunkSize) + f.chunkSize
    || OffsetInBlock(p, f.chunkSize) < |Plain(z, f, i)|
  }

  /** Which reads fail, byte by byte: past the end, or of nothing, none does; any other succeeds exactly if every byte
      it asks for can be given. */
  lemma ReadsExactly(z: Zstd, f: FileData, t: Option<Tail>, offset: nat, size: nat)
    requires f.chunkSize > 0
    ensures ReadSpec(z, f, t, offset, size).Data? <==>
      forall p: nat :: offset <= p < offset + size && p < |Content(z, f, t)| ==> ByteGiven(z, f, t, p)
    ensures ReadSpec(z, f, t, offset, size).Data? || ReadSpec(z, f, t, offset, size).IoError?
  {
    hide Content, Plain, BlockStart, BlockAt, OffsetInBlock;
    var cs, total := f.chunkSize, |Content(z, f, t)|;
    var end := Min(offset + size, total);
    if idx: nat :| offset < total && size > 0 && ShortInterior(z, f, t, offset, end, total, idx) {
      var p := Min(end, BlockStart(idx, cs) + cs) - 1;
      InBlock(p, idx, cs);
      assert !ByteGiven(z, f, t, p);
    }
    if p: nat :| offset <= p < offset + size && p < total && !ByteGiven(z, f, t, p) {
      var i := BlockAt(p, cs);
      InBlock(p, i, cs);
      assert ShortInterior(z, f, t, offset, end, total, i);
    }
  }

  /** Every stored block that the file goes on after is full. */
  ghost predicate InteriorFull(z: Zstd, f: FileData, t: Option<Tail>)
    requires f.chunkSize > 0
  {
    forall i: nat :: InteriorBlockFull(z, f, t, i)
  }

  ghost predicate InteriorBlockFull(z: Zstd, f: FileData, t: Option<Tail>, i: nat)
    requires f.chunkSize > 0
  {
    i in f.blocks && !(t.Some? && t.value.idx == i) && BlockStart(i, f.chunkSize) + f.chunkSize < |Content(z, f, t)| ==>
      |Plain(z, f, i)| >= f.chunkSize
  }

  /** Reads never fail on such a file, and only on such a file do they never fail. */
  lemma ReadsNeverFail(z: Zstd, f: FileData, t: Option<Tail>)
    requires f.chunkSize > 0
    ensures InteriorFull(z, f, t) <==> forall offset: nat, size: nat :: ReadSpec(z, f, t, offset, size).Data?
  {
    hide Content, Plain, BlockStart;
    var flat := Content(z, f, t);
    if InteriorFull(z, f, t) {
      forall offset: nat, size: nat ensures ReadSpec(z, f, t, offset, size).Data? {
        var end := Min(offset + size, |flat|);
        forall idx: nat ensures !ShortInterior(z, f, t, offset, end, |flat|, idx) {
          assert InteriorBlockFull(z, f, t, idx);
        }
      }
    } else {
      var i: nat :| !InteriorBlockFull(z, f, t, i);
      var start := BlockStart(i, f.chunkSize);
      assert ShortInterior(z, f, t, start, Min(start + f.chunkSize, |flat|), |flat|, i);
      assert !ReadSpec(z, f, t, start, f.chunkSize).Data?;
    }
  }

  /** The piece `from..to` of a block, zero-filled past its end. */
  function Fit(plain: seq<byte>, from: nat, to: nat): (r: seq<byte>)
    requires from <= to
    ensures |r| == to - from
    ensures forall k :: 0 <= k < |r| ==> r[k] == if from + k < |plain| then plain[from + k] else 0
  {
    var stop := Min(to, |plain|);
    if from < stop then plain[from..stop] + Zeros(to - stop) else Zeros(to - from)
  }

  /** The fitted piece of a block is the file's slice there. */
  lemma FitShows(z: Zstd, v: FileData, idx: nat, lo: nat, hi: nat)
    requires FileOk(z, v) && lo <= hi <= v.size
    requires BlockStart(idx, v.chunkSize) <= lo && hi <= BlockStart(idx, v.chunkSize) + v.chunkSize
    ensures Fit(Plain(z, v, idx), lo - BlockStart(idx, v.chunkSize), hi - BlockStart(idx, v.chunkSize))
      == Flat(z, v)[lo..hi]
  {
    hide FileOk, Plain, BlockStart, Flat, Fit;
    FileOkAt(z, v, 0);
    var start := BlockStart(idx, v.chunkSize);
    var piece := Fit(Plain(z, v, idx), lo - start, hi - start);
    forall k: nat | k < |piece| ensures piece[k] == Flat(z, v)[lo + k] {
      PlainShows(z, v, idx, lo - start + k);
    }
  }

  /** One block from the cache, or from the store and then into the cache if it is a strictly interior one: such a block
      is cached afterwards, if the budget allows it at all. */
  method FetchBlock(store: Store, cache: BlockCache, ino: nat, idx: nat, tailIdx: nat)
      returns (plain: Option<seq<byte>>)
    requires ino in store.files && cache.Valid() && Coherent(cache, store.z, store.files[ino], ino)
    requires BlockDecodes(store.z, store.files[ino], idx)
    modifies cache
    ensures cache.Valid() && Coherent(cache, store.z, store.files[ino], ino)
    ensures plain == if idx in store.files[ino].blocks then Some(Plain(store.z, store.files[ino], idx)) else None
    ensures NewBefore(old(cache.nodes), cache.nodes, ino, tailIdx)
    ensures forall k :: k in cache.nodes ==> k in old(cache.nodes) || k == Key(ino, idx)
    ensures old(cache.Cached(Key(ino, idx))).Some? ==> cache.nodes.Keys == old(cache.nodes).Keys
    ensures OthersFrom(old(cache.nodes), cache.nodes, ino)
    ensures
      plain.Some? && idx < tailIdx && cache.configuredCap > 0 && cache.effCap > 0 && |plain.value| <= cache.effCap ==>
        cache.Cached(Key(ino, idx)) == plain
  {
    hide Keep, Inserted, ListOf, TotalBytes, Indexed, ByIno, EffectiveCap, InsertLeaves;
    plain := cache.Get(ino, idx);
    assert forall k :: k in cache.nodes ==> cache.Cached(k) == old(cache.Cached(k));
    if plain.Some? {
      return;
    }
    var stored := store.GetBlock(ino, idx);
    if stored.None? {
      return;
    }
    plain := DecompressBlock(store.z, stored.value);
    if idx < tailIdx {
      var probe: Option<Option<nat>> := *;
      cache.Insert(ino, idx, plain.value, probe);
    }
  }

  /** `read_range`. The answer is `ReadSpec`, whatever the cache holds and whatever the memory probe says. */
  method ReadRange(session: WriteSession, store: Store, cache: BlockCache, ino: nat, offset: nat, size: nat)
      returns (r: ReadResult)
    requires ino in store.files ==> session.Valid(store, ino) && Coherent(cache, store.z, store.files[ino], ino)
    requires ino !in store.files ==> session.tail == None
    requires cache.Valid()
    modifies cache
    ensures cache.Valid() && (ino in store.files ==> Coherent(cache, store.z, store.files[ino], ino))
    ensures old(AllCoherent(cache, store)) ==> AllCoherent(cache, store)
    ensures forall k :: k in cache.nodes && k !in old(cache.nodes) ==>
      && k.ino == ino && ino in store.files
      && BlockStart(k.idx, store.files[ino].chunkSize) + store.files[ino].chunkSize < |session.Shown(store, ino)|
    ensures ino !in store.files ==> r == NoEntry
    ensures ino in store.files ==>
      store.files[ino].chunkSize > 0 && r == ReadSpec(store.z, store.files[ino], session.tail, offset, size)
    ensures ino in store.files ==>
      (r.Data? <==>
       forall p: nat :: offset <= p < offset + size && p < |session.Shown(store, ino)| ==>
         ByteGiven(store.z, store.files[ino], session.tail, p))
    ensures ino in store.files && r.Data? ==>
      var flat := session.Shown(store, ino);
      r.bytes == flat[Min(offset, |flat|)..Min(offset + size, |flat|)]
  {
    hide SessionOk, Content, FileOk, ShortInterior, Coherent, NodesCoherent, AllCoherent, ReadSpec, OthersFrom;
    hide ByteGiven;
    ghost var nodes0 := cache.nodes;
    if AllCoherent(cache, store) { AllNodes(cache, store); }
    if ino in store.files {
      SessionBounds(store.z, store.files[ino], session.tail);
    }
    var geometry := session.Geometry(store, ino);
    if geometry.None? {
      return NoEntry;
    }
    var (fileSize, cs) := geometry.value;
    DataIsExact(store.z, store.files[ino], session.tail, offset, size);
    ReadSpecIs(store.z, store.files[ino], session.tail, offset, size);
    ReadsExactly(store.z, store.files[ino], session.tail, offset, size);
    if offset >= fileSize || size == 0 {
      return Data([]);
    }
    var end := Min(offset + size, fileSize);
    var out := ReadPieces(session, store, cache, ino, offset, end, fileSize, cs);
    if old(AllCoherent(cache, store)) {
      StaysCoherent(cache, store, nodes0, ino);
    }
    forall k | k in cache.nodes && k !in nodes0 ensures BlockStart(k.idx, cs) + cs < fileSize {
      BeforeLast(fileSize, cs, k.idx);
    }
    if out.None? {
      return IoError;
    }
    r := Data(out.value);
  }

  /** What has come in are blocks of this file before block `limit`. */
  ghost predicate NewBefore(nodes0: map<Key, Node>, nodes: map<Key, Node>, ino: nat, limit: nat) {
    forall k :: k in nodes && k !in nodes0 ==> k.ino == ino && k.idx < limit
  }

  lemma NewTwice(nodes0: map<Key, Node>, nodes1: map<Key, Node>, nodes2: map<Key, Node>, ino: nat, limit: nat)
    requires NewBefore(nodes0, nodes1, ino, limit) && NewBefore(nodes1, nodes2, ino, limit)
    ensures NewBefore(nodes0, nodes2, ino, limit)
  {
  }

  /** Blocks before the one that holds the last byte are those the file goes on after. */
  lemma BeforeLast(size: nat, cs: nat, i: nat)
    requires cs > 0 && size > 0
    ensures i < BlockAt(size - 1, cs) <==> BlockStart(i, cs) + cs < size
  {
    hide BlockAt, BlockStart;
    var b := BlockAt(size - 1, cs);
    InBlock(size - 1, b, cs);
    if i < b { BlockSpan(i, b, cs); }
    if i > b { BlockSpan(b, i, cs); }
  }

  /** The entries of other files are as they were, or gone. */
  ghost predicate OthersFrom(nodes0: map<Key, Node>, nodes: map<Key, Node>, ino: nat) {
    forall k :: k in nodes && k.ino != ino ==> k in nodes0 && nodes[k].bytes == nodes0[k].bytes
  }

  lemma OthersTwice(nodes0: map<Key, Node>, nodes1: map<Key, Node>, nodes2: map<Key, Node>, ino: nat)
    requires OthersFrom(nodes0, nodes1, ino) && OthersFrom(nodes1, nodes2, ino)
    ensures OthersFrom(nodes0, nodes2, ino)
  {
  }

  lemma NothingNew(nodes: map<Key, Node>, ino: nat, limit: nat)
    ensures NewBefore(nodes, nodes, ino, limit)
  {
  }

  lemma OthersSame(nodes: map<Key, Node>, ino: nat)
    ensures OthersFrom(nodes, nodes, ino)
  {
  }

  lemma AllNodes(cache: BlockCache, store: Store)
    requires AllCoherent(cache, store)
    ensures forall j :: j in store.files ==> NodesCoherent(cache.nodes, store.z, store.files[j], j)
  {
    forall j | j in store.files ensures NodesCoherent(cache.nodes, store.z, store.files[j], j) {
      assert Coherent(cache, store.z, store.files[j], j);
    }
  }

  lemma StaysCoherent(cache: BlockCache, store: Store, nodes0: map<Key, Node>, ino: nat)
    requires OthersFrom(nodes0, cache.nodes, ino)
    requires ino in store.files && Coherent(cache, store.z, store.files[ino], ino)
    requires forall j :: j in store.files ==> NodesCoherent(nodes0, store.z, store.files[j], j)
    ensures AllCoherent(cache, store)
  {
    forall j | j in store.files ensures Coherent(cache, store.z, store.files[j], j) {
      assert NodesCoherent(nodes0, store.z, store.files[j], j);
    }
  }

  /** The loop over the blocks: all the bytes asked for, or nothing if one of the blocks is too short. */
  method ReadPieces(session: WriteSession, store: Store, cache: BlockCache, ino: nat, offset: nat, end: nat,
                    fileSize: nat, cs: nat) returns (out: Option<seq<byte>>)
    requires session.Valid(store, ino) && Coherent(cache, store.z, store.files[ino], ino) && cache.Valid()
    requires cs == store.files[ino].chunkSize > 0 && fileSize == |session.Shown(store, ino)| && offset < end <= fileSize
    modifies cache
    ensures cache.Valid() && Coherent(cache, store.z, store.files[ino], ino)
    ensures OthersFrom(old(cache.nodes), cache.nodes, ino)
    ensures NewBefore(old(cache.nodes), cache.nodes, ino, BlockAt(fileSize - 1, cs))
    ensures out.Some? ==>
      && out.value == session.Shown(store, ino)[offset..end]
      && forall i: nat :: !ShortInterior(store.z, store.files[ino], session.tail, offset, end, fileSize, i)
    ensures out.None? ==>
      exists i: nat :: ShortInterior(store.z, store.files[ino], session.tail, offset, end, fileSize, i)
  {
    hide SessionOk, Content, FileOk, BlockStart, BlockAt, ShortInterior, Coherent, NoShortBelow, Upto, BlockRange;
    hide OthersFrom, NewBefore, Indexed, ByIno, ListOf, TotalBytes;
    var (first, last) := BlockRange(offset, end - offset, cs);
    var tailIdx := BlockAt(fileSize - 1, cs);
    ghost var z, f, t := store.z, store.files[ino], session.tail;
    ghost var flat := session.Shown(store, ino);
    var bytes := [];
    var idx := first;
    ReadStarts(z, f, t, offset, end, fileSize);
    OthersSame(cache.nodes, ino);
    NothingNew(cache.nodes, ino, tailIdx);
    while idx <= last
      invariant first <= idx <= last + 1
      invariant cache.Valid() && Coherent(cache, z, f, ino) && OthersFrom(old(cache.nodes), cache.nodes, ino)
      invariant NewBefore(old(cache.nodes), cache.nodes, ino, tailIdx)
      invariant bytes == flat[offset..Upto(offset, end, BlockStart(idx, cs))]
      invariant NoShortBelow(z, f, t, offset, end, fileSize, idx)
    {
      RangeCovers(offset, end - offset, cs, idx);
      ghost var nodes1 := cache.nodes;
      var piece := ReadPiece(session, store, cache, ino, idx, offset, end, fileSize, cs, tailIdx);
      OthersTwice(old(cache.nodes), nodes1, cache.nodes, ino);
      NewTwice(old(cache.nodes), nodes1, cache.nodes, ino, tailIdx);
      if piece.None? {
        return None;
      }
      NextPiece(flat, offset, end, idx, cs);
      NoShortStep(z, f, t, offset, end, fileSize, idx);
      bytes := bytes + piece.value;
      idx := idx + 1;
    }
    ReadEnds(z, f, t, offset, end, fileSize);
    out := Some(bytes);
  }

  ghost predicate NoShortBelow(z: Zstd, f: FileData, t: Option<Tail>, offset: nat, end: nat, size: nat, idx: nat)
    requires f.chunkSize > 0
  {
    forall i: nat :: i < idx ==> !ShortInterior(z, f, t, offset, end, size, i)
  }

  lemma NoShortStep(z: Zstd, f: FileData, t: Option<Tail>, offset: nat, end: nat, size: nat, idx: nat)
    requires f.chunkSize > 0 && NoShortBelow(z, f, t, offset, end, size, idx)
    requires !ShortInterior(z, f, t, offset, end, size, idx)
    ensures NoShortBelow(z, f, t, offset, end, size, idx + 1)
  {
  }

  /** How far the output reaches when the loop stands at a block that begins at `start`. */
  function Upto(offset: nat, end: nat, start: nat): (r: nat)
    ensures offset <= r && (offset <= end ==> r <= end)
  {
    Max(offset, Min(end, start))
  }

  lemma ReadStarts(z: Zstd, f: FileData, t: Option<Tail>, offset: nat, end: nat, size: nat)
    requires f.chunkSize > 0 && offset < end
    ensures var first := BlockRange(offset, end - offset, f.chunkSize).0;
      && Upto(offset, end, BlockStart(first, f.chunkSize)) == offset
      && NoShortBelow(z, f, t, offset, end, size, first)
      && first <= BlockRange(offset, end - offset, f.chunkSize).1
  {
    hide BlockRange, BlockStart, Plain;
    var first := BlockRange(offset, end - offset, f.chunkSize).0;
    RangeCovers(offset, end - offset, f.chunkSize, first);
    RangeStarts(offset, end - offset, f.chunkSize);
    forall i: nat | i < first ensures !ShortInterior(z, f, t, offset, end, size, i) {
      RangeCovers(offset, end - offset, f.chunkSize, i);
    }
  }

  lemma RangeStarts(offset: nat, len: nat, cs: nat)
    requires cs > 0 && len > 0
    ensures BlockStart(BlockRange(offset, len, cs).0, cs) <= offset
    ensures BlockStart(BlockRange(offset, len, cs).1 + 1, cs) >= offset + len
  {
    var (first, last) := BlockRange(offset, len, cs);
    InBlock(offset, first, cs);
    InBlock(offset + len - 1, last, cs);
    BlockSpan(last, last + 1, cs);
  }

  lemma ReadEnds(z: Zstd, f: FileData, t: Option<Tail>, offset: nat, end: nat, size: nat)
    requires f.chunkSize > 0 && offset < end
    requires NoShortBelow(z, f, t, offset, end, size, BlockRange(offset, end - offset, f.chunkSize).1 + 1)
    ensures Upto(offset, end, BlockStart(BlockRange(offset, end - offset, f.chunkSize).1 + 1, f.chunkSize)) == end
    ensures forall i: nat :: !ShortInterior(z, f, t, offset, end, size, i)
  {
    hide BlockRange, BlockStart, Plain;
    RangeStarts(offset, end - offset, f.chunkSize);
    forall i: nat ensures !ShortInterior(z, f, t, offset, end, size, i) {
      RangeCovers(offset, end - offset, f.chunkSize, i);
    }
  }

  lemma NextPiece(flat: seq<byte>, offset: nat, end: nat, idx: nat, cs: nat)
    requires offset < end <= |flat| && BlockStart(idx, cs) < end && offset < BlockStart(idx, cs) + cs
    ensures var start := BlockStart(idx, cs);
      flat[offset..Upto(offset, end, start)] + flat[Max(offset, start)..Min(end, start + cs)]
        == flat[offset..Upto(offset, end, BlockStart(idx + 1, cs))]
  {
    assert BlockStart(idx + 1, cs) == BlockStart(idx, cs) + cs;
  }

  /** What a read sees of one block is the file's own view of it. */
  lemma PlainOfView(z: Zstd, f: FileData, t: Option<Tail>, idx: nat)
    requires SessionOk(z, f, t)
    ensures FileOk(z, Overlay(f, t)) && f.chunkSize > 0
    ensures t.Some? && t.value.idx == idx ==>
      && Plain(z, Overlay(f, t), idx) == t.value.plain
      && BlockStart(idx, f.chunkSize) + f.chunkSize >= t.value.fileSize
    ensures !(t.Some? && t.value.idx == idx) ==>
      BlockDecodes(z, f, idx) && Plain(z, Overlay(f, t), idx) == Plain(z, f, idx)
  {
    hide BlockStart;
    if t.Some? && t.value.idx == idx {
      TailPlain(z, f, t.value);
    } else if t.Some? {
      BelowTail(z, f, t.value, idx);
    } else {
      FileOkAt(z, f, idx);
    }
  }

  /** One round of the loop: this block's part of the answer, or nothing if the block is too short. */
  method ReadPiece(session: WriteSession, store: Store, cache: BlockCache, ino: nat, idx: nat, offset: nat, end: nat,
                   fileSize: nat, cs: nat, tailIdx: nat) returns (piece: Option<seq<byte>>)
    requires session.Valid(store, ino) && Coherent(cache, store.z, store.files[ino], ino) && cache.Valid()
    requires cs == store.files[ino].chunkSize > 0 && fileSize == |session.Shown(store, ino)|
    requires offset < end <= fileSize && BlockStart(idx, cs) < end && offset < BlockStart(idx, cs) + cs
    modifies cache
    ensures cache.Valid() && Coherent(cache, store.z, store.files[ino], ino)
    ensures OthersFrom(old(cache.nodes), cache.nodes, ino) && NewBefore(old(cache.nodes), cache.nodes, ino, tailIdx)
    ensures piece == if ShortInterior(store.z, store.files[ino], session.tail, offset, end, fileSize, idx) then None
                     else Some(
                       session.Shown(store, ino)[Max(offset, BlockStart(idx, cs))..Min(end, BlockStart(idx, cs) + cs)])
  {
    hide SessionOk, FileOk, Plain, BlockStart, Flat, Fit, OthersFrom, NewBefore, Coherent, Indexed, ByIno, ListOf;
    hide TotalBytes, Conserved;
    ghost var z, f, t := store.z, store.files[ino], session.tail;
    OthersSame(cache.nodes, ino);
    NothingNew(cache.nodes, ino, tailIdx);
    var start := BlockStart(idx, cs);
    var lo, hi := Max(offset, start), Min(end, start + cs);
    PlainOfView(z, f, t, idx);
    FitShows(z, Overlay(f, t), idx, lo, hi);
    var tailBytes := session.ReadTailBlock(idx);
    if tailBytes.Some? {
      return Some(Fit(tailBytes.value, lo - start, hi - start));
    }
    var plain := FetchBlock(store, cache, ino, idx, tailIdx);
    if plain.None? {
      AbsentPlain(z, f, idx);
      FitNothing(lo - start, hi - start);
      return Some(Zeros(hi - lo));
    }
    if |plain.value| < hi - start && start + cs < fileSize {
      return None;
    }
    piece := Some(Fit(plain.value, lo - start, hi - start));
  }

  lemma AbsentPlain(z: Zstd, f: FileData, idx: nat)
    requires idx !in f.blocks
    ensures Plain(z, f, idx) == []
  {
  }

  lemma FitNothing(from: nat, to: nat)
    requires from <= to
    ensures Fit([], from, to) == Zeros(to - from)
  {
  }

  // ---- the writers: every change drops the file's cached blocks first ----

  /** `write_at_locked`: the cache holds nothing stale of any file afterwards. Of all writes to a file whose reads never
      fail, tail open or not, exactly those that start past a short last block - stored, or still in the tail - make
      reads fail. */
  method WriteLocked(session: WriteSession, store: Store, cache: BlockCache, ino: nat, offset: nat, data: seq<byte>)
    returns (r: WriteResult)
    requires ino in store.files && session.Valid(store, ino) && cache.Valid() && AllCoherent(cache, store)
    requires session.enabled && offset == |session.Shown(store, ino)| ==> offset + |data| < U64_LIMIT
    modifies session, cache, store`files, store`compressCount
    ensures ino in store.files && session.Valid(store, ino) && cache.Valid() && AllCoherent(cache, store)
    ensures r == if |data| == 0 then Written(0)
                 else if offset + |data| >= U64_LIMIT
                   || offset > |old(session.Shown(store, ino))| + MAX_SPARSE_EXTENSION then InvalidInput
                 else Written(|data|)
    ensures session.Shown(store, ino) ==
      if r.Written? then Splice(old(session.Shown(store, ino)), offset, data) else old(session.Shown(store, ino))
    ensures r.Written? && |data| > 0 ==>
      WriteShape(store.z, old(Overlay(store.files[ino], session.tail)), Overlay(store.files[ino], session.tail),
        offset, |data|)
    ensures r.Written? && |data| > 0 && old(Readable(session, store, ino)) ==>
      (Readable(session, store, ino) <==> !LeavesGap(store.z, old(Overlay(store.files[ino], session.tail)), offset))
  {
    hide SessionOk, Content, Conserved, Splice, Plain, Keep, ListOf, TotalBytes, Indexed, ByIno, KeptBelow;
    hide WriteShape, Overlay, InteriorFull, LeavesGap, FileOk;
    ghost var files, t0 := store.files, session.tail;
    ViewBounds(store.z, files[ino], t0);
    ReadableView(store.z, files[ino], t0);
    cache.Invalidate(ino);
    r := session.WriteAt(store, ino, offset, data);
    OthersCoherent(cache, store, files, ino);
    ViewBounds(store.z, store.files[ino], session.tail);
    ReadableView(store.z, store.files[ino], session.tail);
    if r.Written? && |data| > 0 && InteriorFull(store.z, files[ino], t0) {
      WriteKeepsReadable(store.z, Overlay(files[ino], t0), Overlay(store.files[ino], session.tail), offset, |data|);
    }
  }

  lemma ViewBounds(z: Zstd, f: FileData, t: Option<Tail>)
    requires SessionOk(z, f, t)
    ensures f.chunkSize > 0 && Overlay(f, t).chunkSize == f.chunkSize && FileOk(z, Overlay(f, t))
  {
  }

  /** No read of the file fails. */
  ghost predicate Readable(session: WriteSession, store: Store, ino: nat)
    requires ino in store.files
    reads session, store
  {
    store.files[ino].chunkSize > 0 && InteriorFull(store.z, store.files[ino], session.tail)
  }

  /** `truncate_locked` behind the cache. Reads of the file never fail afterwards exactly if every stored block that
      ends inside both the old file and the new one, before the new end, is full. For a file whose reads never failed:
      exactly unless it grows from an aligned end whose last block - stored, or still in the tail - is short. */
  method TruncateLocked(session: WriteSession, store: Store, cache: BlockCache, ino: nat, newSize: nat)
    requires ino in store.files && session.Valid(store, ino) && cache.Valid() && AllCoherent(cache, store)
    modifies session, cache, store`files, store`compressCount
    ensures ino in store.files && session.Valid(store, ino) && cache.Valid() && AllCoherent(cache, store)
    ensures session.Shown(store, ino) == Resize(old(session.Shown(store, ino)), newSize)
    ensures
      TruncateShape(store.z, old(Overlay(store.files[ino], session.tail)),
        Overlay(store.files[ino], session.tail), newSize)
    ensures Readable(session, store, ino) <==>
      FullBefore(store.z, old(Overlay(store.files[ino], session.tail)), newSize)
    ensures old(Readable(session, store, ino)) ==>
      (Readable(session, store, ino) <==> !GrowsGap(store.z, old(Overlay(store.files[ino], session.tail)), newSize))
  {
    hide SessionOk, Content, Conserved, Resize, Plain, Keep, ListOf, TotalBytes, Indexed, ByIno;
    hide TruncateShape, Overlay, InteriorFull, GrowsGap, FullBefore, FileOk;
    ghost var files, t0 := store.files, session.tail;
    ViewBounds(store.z, files[ino], t0);
    ReadableView(store.z, files[ino], t0);
    cache.Invalidate(ino);
    var r := session.Truncate(store, ino, newSize);
    OthersCoherent(cache, store, files, ino);
    ViewBounds(store.z, store.files[ino], session.tail);
    ReadableView(store.z, store.files[ino], session.tail);
    ghost var v0, v := Overlay(files[ino], t0), Overlay(store.files[ino], session.tail);
    TruncateReadable(store.z, v0, v, newSize);
    if InteriorFull(store.z, files[ino], t0) {
      GapIsNotFull(store.z, v0, newSize);
    }
  }

  /** Every stored block whose place ends inside the file, and before `n`, is full. */
  ghost predicate FullBefore(z: Zstd, f: FileData, n: nat) {
    forall i: nat :: FullBeforeAt(z, f, n, i)
  }

  ghost predicate FullBeforeAt(z: Zstd, f: FileData, n: nat, i: nat) {
    var end := BlockStart(i, f.chunkSize) + f.chunkSize;
    i in f.blocks && end <= f.size && end < n ==> |Plain(z, f, i)| >= f.chunkSize
  }

  /** The file ends aligned, its last block is stored short, and the new size is larger. */
  ghost predicate GrowsGap(z: Zstd, f: FileData, n: nat) {
    n > f.size && f.chunkSize > 0 && OffsetInBlock(f.size, f.chunkSize) == 0 && exists i: nat :: LastShort(z, f, i)
  }

  lemma TruncateReadable(z: Zstd, f0: FileData, f: FileData, n: nat)
    requires FileOk(z, f0) && TruncateShape(z, f0, f, n)
    ensures f.chunkSize > 0 && (InteriorFull(z, f, None) <==> FullBefore(z, f0, n))
  {
    hide Plain, BlockStart, FileOk, Flat;
    FileOkAt(z, f0, 0);
    if FullBefore(z, f0, n) {
      forall i: nat ensures InteriorBlockFull(z, f, None, i) {
        assert CutShapeAt(z, f0, f, n, i) && FullBeforeAt(z, f0, n, i);
      }
    } else {
      var i: nat :| !FullBeforeAt(z, f0, n, i);
      assert CutShapeAt(z, f0, f, n, i);
      assert !InteriorBlockFull(z, f, None, i);
    }
  }

  /** For a file whose reads never fail only the last block can be in the way, and only at an aligned end. */
  lemma GapIsNotFull(z: Zstd, f: FileData, n: nat)
    requires FileOk(z, f) && f.chunkSize > 0 && InteriorFull(z, f, None)
    ensures FullBefore(z, f, n) <==> !GrowsGap(z, f, n)
  {
    hide Plain, BlockStart, FileOk, Flat, OffsetInBlock, BlockAt;
    var cs := f.chunkSize;
    if GrowsGap(z, f, n) {
      var i: nat :| LastShort(z, f, i);
      BlockBelowAligned(f.size, cs, i);
      assert !FullBeforeAt(z, f, n, i);
    } else {
      forall i: nat ensures FullBeforeAt(z, f, n, i) {
        assert InteriorBlockFull(z, f, None, i);
        if BlockStart(i, cs) + cs == f.size { NextAligned(i, cs, f.size); }
        assert LastShort(z, f, i) ==> OffsetInBlock(f.size, cs) != 0 || n <= f.size;
      }
    }
  }

  /** `fsync`: afterwards nothing of the file is in the tail buffer only. */
  method FsyncLocked(session: WriteSession, store: Store, cache: BlockCache, ino: nat)
    requires ino in store.files && session.Valid(store, ino) && cache.Valid() && AllCoherent(cache, store)
    modifies session, cache, store`files, store`compressCount
    ensures ino in store.files && session.Valid(store, ino) && cache.Valid() && AllCoherent(cache, store)
    ensures session.Shown(store, ino) == old(session.Shown(store, ino)) && session.Settled(store, ino)
  {
    hide SessionOk, Content, Conserved, Plain, Keep, ListOf, TotalBytes, Indexed, ByIno;
    ghost var files := store.files;
    cache.Invalidate(ino);
    session.Seal(store, ino);
    OthersCoherent(cache, store, files, ino);
  }

  ghost predicate AllCoherent(cache: BlockCache, store: Store)
    reads cache, store
  {
    forall ino :: ino in store.files ==> Coherent(cache, store.z, store.files[ino], ino)
  }

  lemma OthersCoherent(cache: BlockCache, store: Store, before: map<nat, FileData>, ino: nat)
    requires ino in before && ino in store.files && store.files == before[ino := store.files[ino]]
    requires forall k :: k in cache.nodes ==> k.ino != ino
    requires forall j :: j in before && j != ino ==> Coherent(cache, store.z, before[j], j)
    ensures AllCoherent(cache, store)
  {
    forall j | j in store.files ensures Coherent(cache, store.z, store.files[j], j) {
      if j == ino {
        assert forall i: nat :: Key(ino, i) !in cache.nodes;
      }
    }
  }

  /** The last block is stored short, and a write at `offset` would start past it. */
  ghost predicate LeavesGap(z: Zstd, f: FileData, offset: nat)
    requires f.chunkSize > 0
  {
    exists i: nat :: LastShort(z, f, i) && BlockStart(i, f.chunkSize) + f.chunkSize <= offset
  }

  ghost predicate LastShort(z: Zstd, f: FileData, i: nat) {
    && i in f.blocks && |Plain(z, f, i)| < f.chunkSize
    && BlockStart(i, f.chunkSize) < f.size <= BlockStart(i, f.chunkSize) + f.chunkSize
  }

  /** Of all writes to a file whose reads never fail, exactly those that start past a short last block end that. */
  lemma WriteKeepsReadable(z: Zstd, f0: FileData, f: FileData, offset: nat, len: nat)
    requires FileOk(z, f0) && len > 0 && WriteShape(z, f0, f, offset, len) && InteriorFull(z, f0, None)
    ensures f.chunkSize > 0 && (InteriorFull(z, f, None) <==> !LeavesGap(z, f0, offset))
  {
    hide Plain, BlockStart, BlockAt, DivCeil, FileOk, Flat;
    FileOkAt(z, f0, 0);
    var cs := f0.chunkSize;
    if i: nat :| LastShort(z, f0, i) && BlockStart(i, cs) + cs <= offset {
      var b := BlockAt(offset, cs);
      InBlock(offset, b, cs);
      if b < i { BlockSpan(b, i, cs); }
      DivCeilBounds(f0.size, cs, i);
      assert ShapeAt(z, f0, f, offset, len, i);
      assert !InteriorBlockFull(z, f, None, i);
    } else {
      forall i: nat ensures InteriorBlockFull(z, f, None, i) {
        assert ShapeAt(z, f0, f, offset, len, i);
        assert InteriorBlockFull(z, f0, None, i);
        DivCeilBounds(f0.size, cs, i);
        InBlock(offset, BlockAt(offset, cs), cs);
        if i < BlockAt(offset, cs) { BlockSpan(i, BlockAt(offset, cs), cs); }
        assert !LastShort(z, f0, i) || BlockStart(i, cs) + cs > offset;
      }
    }
  }

  /** Whether reads can fail shows in the view, with the tail as its last block. */
  lemma ReadableView(z: Zstd, f: FileData, t: Option<Tail>)
    requires SessionOk(z, f, t) && f.chunkSize > 0
    ensures InteriorFull(z, f, t) <==> InteriorFull(z, Overlay(f, t), None)
  {
    hide FileOk, Plain, BlockStart, Flat;
    var v := Overlay(f, t);
    forall i: nat ensures InteriorBlockFull(z, f, t, i) <==> InteriorBlockFull(z, v, None, i) {
      PlainOfView(z, f, t, i);
    }
  }

  /** For an unaligned end the gap is simple: the last block is there, and the write starts past it. */
  lemma UnalignedGap(z: Zstd, f: FileData, offset: nat)
    requires FileOk(z, f) && OffsetInBlock(f.size, f.chunkSize) != 0
    ensures var last := BlockAt(f.size, f.chunkSize);
      LeavesGap(z, f, offset) <==> last in f.blocks && BlockStart(last, f.chunkSize) + f.chunkSize <= offset
  {
    hide Plain, BlockStart, BlockAt, OffsetInBlock;
    var last, cs := BlockAt(f.size, f.chunkSize), f.chunkSize;
    FileOkAt(z, f, last);
    Aligned(f.size, cs);
    InBlock(f.size, last, cs);
    if i: nat :| LastShort(z, f, i) && BlockStart(i, cs) + cs <= offset {
      if i < last { BlockSpan(i, last, cs); }
      if i > last { BlockSpan(last, i, cs); }
    }
    if last in f.blocks && BlockStart(last, cs) + cs <= offset {
      assert LastShort(z, f, last);
    }
  }

  /** Where reads do fail on a sound file: a write that starts past an unfinished last block, open in the tail or
      stored, leaves that block short inside the file, and reading it whole is refused although every byte of it is
      defined. */
  method SparseWriteThenRead(session: WriteSession, store: Store, cache: BlockCache, ino: nat, offset: nat,
      data: seq<byte>)
    returns (r: ReadResult)
    requires ino in store.files && session.Valid(store, ino) && cache.Valid() && AllCoherent(cache, store)
    requires var v := Overlay(store.files[ino], session.tail);
      && v.chunkSize > 0 && OffsetInBlock(v.size, v.chunkSize) != 0 && BlockAt(v.size, v.chunkSize) in v.blocks
      && BlockStart(BlockAt(v.size, v.chunkSize), v.chunkSize) + v.chunkSize <= offset
      && |data| > 0 && offset + |data| < U64_LIMIT && offset <= v.size + MAX_SPARSE_EXTENSION
    modifies session, cache, store`files, store`compressCount
    ensures r == IoError
  {
    hide FileOk, Plain, BlockStart, BlockAt, OffsetInBlock, DivCeil, Flat, Splice, Content, SessionOk, ReadSpec,
      WriteShape;
    hide Overlay, Indexed, ByIno, ListOf, TotalBytes, Keep, Readable, LeavesGap, Coherent;
    var geometry := session.Geometry(store, ino);
    var (size, cs) := geometry.value;
    ghost var v := Overlay(store.files[ino], session.tail);
    ViewSize(store.z, store.files[ino], session.tail);
    ViewBounds(store.z, store.files[ino], session.tail);
    var idx := BlockAt(size, cs);
    ShortLast(store.z, v, idx, offset);
    var w := WriteLocked(session, store, cache, ino, offset, data);
    ViewSize(store.z, store.files[ino], session.tail);
    StillShort(store.z, v, store.files[ino], session.tail, idx, offset, |data|);
    r := ReadRange(session, store, cache, ino, BlockStart(idx, cs), cs);
  }

  /** The unfinished last block ends with the file and lies before the write. */
  lemma ShortLast(z: Zstd, f: FileData, idx: nat, offset: nat)
    requires FileOk(z, f) && idx == BlockAt(f.size, f.chunkSize) && OffsetInBlock(f.size, f.chunkSize) != 0
    requires BlockStart(idx, f.chunkSize) + f.chunkSize <= offset
    ensures |Plain(z, f, idx)| < f.chunkSize || idx !in f.blocks
    ensures idx < BlockAt(offset, f.chunkSize) && idx < DivCeil(f.size, f.chunkSize)
    ensures f.size < offset
  {
    hide Plain, BlockStart, BlockAt, OffsetInBlock, DivCeil;
    FileOkAt(z, f, idx);
    Aligned(f.size, f.chunkSize);
    DivCeilBounds(f.size, f.chunkSize, idx);
    var b := BlockAt(offset, f.chunkSize);
    InBlock(offset, b, f.chunkSize);
    if b < idx { BlockSpan(b, idx, f.chunkSize); }
  }

  lemma StillShort(z: Zstd, v0: FileData, f: FileData, t: Option<Tail>, idx: nat, offset: nat, len: nat)
    requires SessionOk(z, f, t) && len > 0 && v0.chunkSize > 0 && WriteShape(z, v0, Overlay(f, t), offset, len)
    requires idx in v0.blocks && |Plain(z, v0, idx)| < v0.chunkSize
    requires idx < BlockAt(offset, v0.chunkSize) && idx < DivCeil(v0.size, v0.chunkSize)
    requires BlockStart(idx, v0.chunkSize) + v0.chunkSize <= offset
    ensures f.chunkSize == v0.chunkSize && ReadSpec(z, f, t, BlockStart(idx, f.chunkSize), f.chunkSize) == IoError
  {
    hide Plain, BlockStart, BlockAt, DivCeil, FileOk, Flat;
    assert ShapeAt(z, v0, Overlay(f, t), offset, len, idx);
    PlainOfView(z, f, t, idx);
    SessionBounds(z, f, t);
    var start := BlockStart(idx, f.chunkSize);
    assert ShortInterior(z, f, t, start, start + f.chunkSize, |Content(z, f, t)|, idx);
  }
}
