/** Whole runs of a write session: any mix of writes, fsyncs and truncations acts on the file as on a flat byte
    string, with the tail buffer on or off; a run of appends costs what its total length says, however it is cut. */
module SessionRuns {
  import opened Bytes
  import opened Chunk
  import opened Stores
  import opened Rmw
  import opened Session

  datatype Op = Write(offset: nat, data: seq<byte>) | Fsync | Truncate(newSize: nat)

  predicate Refused(flat: seq<byte>, offset: nat, len: nat) {
    offset + len >= U64_LIMIT || offset > |flat| + MAX_SPARSE_EXTENSION
  }

  /** The flat file after one operation. */
  function StepFlat(flat: seq<byte>, op: Op): seq<byte> {
    match op
    case Write(offset, data) => if |data| == 0 || Refused(flat, offset, |data|) then flat
      else Splice(flat, offset, data)
    case Fsync => flat
    case Truncate(n) => Resize(flat, n)
  }

  function StepResult(flat: seq<byte>, op: Op): WriteResult {
    match op
    case Write(offset, data) =>
      if |data| == 0 then Written(0) else if Refused(flat, offset, |data|) then InvalidInput else Written(|data|)
    case Fsync => Written(0)
    case Truncate(_) => Written(0)
  }

  function RunFlat(flat: seq<byte>, ops: seq<Op>): seq<byte>
    decreases |ops|
  {
    if ops == [] then flat else RunFlat(StepFlat(flat, ops[0]), ops[1..])
  }

  function RunResults(flat: seq<byte>, ops: seq<Op>): seq<WriteResult>
    decreases |ops|
  {
    if ops == [] then [] else [StepResult(flat, ops[0])] + RunResults(StepFlat(flat, ops[0]), ops[1..])
  }

  /** No append runs into the end of the 64-bit offset space. */
  predicate StepInRange(flat: seq<byte>, op: Op) {
    op.Write? && op.offset == |flat| ==> op.offset + |op.data| < U64_LIMIT
  }

  predicate InRange(flat: seq<byte>, ops: seq<Op>)
    decreases |ops|
  {
    ops == [] || (StepInRange(flat, ops[0]) && InRange(StepFlat(flat, ops[0]), ops[1..]))
  }

  /** A run whose writes all end below 2^64 is in range. */
  lemma {:induction false} BoundedInRange(flat: seq<byte>, ops: seq<Op>)
    requires forall i :: 0 <= i < |ops| && ops[i].Write? ==> ops[i].offset + |ops[i].data| < U64_LIMIT
    ensures InRange(flat, ops)
    decreases |ops|
  {
    if ops != [] { BoundedInRange(StepFlat(flat, ops[0]), ops[1..]); }
  }

  predicate AppendStep(flat: seq<byte>, op: Op) {
    op.Fsync? || (op.Write? && op.offset == |flat|)
  }

  predicate AppendOnly(flat: seq<byte>, ops: seq<Op>)
    decreases |ops|
  {
    ops == [] || (AppendStep(flat, ops[0]) && AppendOnly(StepFlat(flat, ops[0]), ops[1..]))
  }

  /** All the data written by a run, in order. */
  function Joined(ops: seq<Op>): seq<byte> {
    if ops == [] then [] else (if ops[0].Write? then ops[0].data else []) + Joined(ops[1..])
  }

  /** The pieces of a log, each written where the last one ended. */
  function AppendsOf(start: nat, pieces: seq<seq<byte>>): seq<Op>
    decreases |pieces|
  {
    if pieces == [] then [] else [Write(start, pieces[0])] + AppendsOf(start + |pieces[0]|, pieces[1..])
  }

  function JoinedPieces(pieces: seq<seq<byte>>): seq<byte> {
    if pieces == [] then [] else pieces[0] + JoinedPieces(pieces[1..])
  }

  /** However a log is cut, writing the pieces one behind the other is a run of appends, and appends the log. */
  lemma {:induction false} CutsAreAppends(flat: seq<byte>, pieces: seq<seq<byte>>)
    requires |flat| + |JoinedPieces(pieces)| < U64_LIMIT
    ensures var ops := AppendsOf(|flat|, pieces);
      AppendOnly(flat, ops) && InRange(flat, ops) && Joined(ops) == JoinedPieces(pieces)
    decreases |pieces|
  {
    if pieces != [] {
      var next := StepFlat(flat, Write(|flat|, pieces[0]));
      assert next == flat + pieces[0] by {
        if pieces[0] != [] { SpliceAppends(flat, pieces[0]); } else { assert flat + [] == flat; }
      }
      CutsAreAppends(next, pieces[1..]);
      var ops := AppendsOf(|flat|, pieces);
      assert ops[1..] == AppendsOf(|next|, pieces[1..]);
    }
  }

  /** A run of appends leaves the file extended by everything appended: how it was cut does not show. */
  lemma {:induction false} AppendsJoin(flat: seq<byte>, ops: seq<Op>)
    requires AppendOnly(flat, ops) && InRange(flat, ops)
    ensures RunFlat(flat, ops) == flat + Joined(ops)
    decreases |ops|
  {
    if ops != [] {
      var next := StepFlat(flat, ops[0]);
      AppendsJoin(next, ops[1..]);
      if ops[0].Write? {
        SpliceAppends(flat, ops[0].data);
        assert next == flat + ops[0].data;
      }
      assert RunFlat(flat, ops) == flat + Joined(ops);
    }
  }

  /** Fsyncs are invisible: without them the run ends in the same file. */
  function WithoutFsyncs(ops: seq<Op>): seq<Op> {
    if ops == [] then [] else (if ops[0].Fsync? then [] else [ops[0]]) + WithoutFsyncs(ops[1..])
  }

  lemma {:induction false} FsyncsDoNotShow(flat: seq<byte>, ops: seq<Op>)
    ensures RunFlat(flat, WithoutFsyncs(ops)) == RunFlat(flat, ops)
    ensures forall op :: op in WithoutFsyncs(ops) ==> op in ops && !op.Fsync?
    decreases |ops|
  {
    if ops != [] {
      FsyncsDoNotShow(StepFlat(flat, ops[0]), ops[1..]);
      var rest := WithoutFsyncs(ops[1..]);
      if !ops[0].Fsync? {
        assert ([ops[0]] + rest)[1..] == rest;
      } else {
        assert [] + rest == rest;
      }
    }
  }

  lemma SizeGrowsBlock(a: nat, b: nat, cs: nat)
    requires cs > 0 && a <= b
    ensures BlockAt(a, cs) <= BlockAt(b, cs)
  {
    hide BlockAt, BlockStart;
    InBlock(a, BlockAt(a, cs), cs);
    InBlock(b, BlockAt(b, cs), cs);
    if BlockAt(b, cs) < BlockAt(a, cs) { BlockSpan(BlockAt(b, cs), BlockAt(a, cs), cs); }
  }

  method Perform(session: WriteSession, store: Store, ino: nat, op: Op) returns (r: WriteResult)
    requires session.Valid(store, ino) && StepInRange(session.Shown(store, ino), op)
    modifies session, store`files, store`compressCount
    ensures session.Valid(store, ino) && OnlyFile(store, ino)
    ensures session.Shown(store, ino) == StepFlat(old(session.Shown(store, ino)), op)
    ensures r == StepResult(old(session.Shown(store, ino)), op)
    ensures op.Fsync? ==> session.Settled(store, ino)
    ensures store.files[ino].chunkSize > 0
    ensures session.enabled && store.tailJournal && AppendStep(old(session.Shown(store, ino)), op) ==>
      AppendCost(store, ino, |old(session.Shown(store, ino))|,
        |session.Shown(store, ino)| - |old(session.Shown(store, ino))|)
    ensures session.enabled && AppendStep(old(session.Shown(store, ino)), op) ==>
      |session.Shown(store, ino)| >= |old(session.Shown(store, ino))|
      && KeepsFull(store, ino, |old(session.Shown(store, ino))|,
        |session.Shown(store, ino)| - |old(session.Shown(store, ino))|)
  {
    hide SessionOk, Content, Conserved, Splice, Resize, BlockAt, KeptBelow, FullBelow;
    SessionBounds(store.z, store.files[ino], session.tail);
    match op
    case Write(offset, data) =>
      ghost var before := session.Shown(store, ino);
      r := session.WriteAt(store, ino, offset, data);
      if offset == |before| {
        SpliceAppends(before, data);
      }
      if |data| == 0 {
        SpliceNothing(before, offset, data);
      }
    case Fsync =>
      ghost var f0, t0 := store.files[ino], session.tail;
      session.Seal(store, ino);
      KeptAll(f0, BlockAt(|session.Shown(store, ino)|, f0.chunkSize));
      if t0.Some? {
        TailEnd(store.z, f0, t0.value);
        KeptStep(f0, f0, store.files[ino], t0.value.idx, t0.value.idx);
      }
      if FullBelow(store.z, f0, BlockAt(|session.Shown(store, ino)|, f0.chunkSize)) {
        FullBelowKept(store.z, f0, store.files[ino], BlockAt(|session.Shown(store, ino)|, f0.chunkSize));
      }
      r := Written(0);
    case Truncate(n) =>
      r := session.Truncate(store, ino, n);
  }

  /** Every run, of any operations in any order: the answers and the file are those of the flat run, and a
      run of appends compresses exactly one block per chunk boundary its total length crosses. */
  method RunAll(session: WriteSession, store: Store, ino: nat, ops: seq<Op>) returns (results: seq<WriteResult>)
    requires session.Valid(store, ino) && InRange(session.Shown(store, ino), ops)
    modifies session, store`files, store`compressCount
    ensures session.Valid(store, ino) && OnlyFile(store, ino)
    ensures session.Shown(store, ino) == RunFlat(old(session.Shown(store, ino)), ops)
    ensures results == RunResults(old(session.Shown(store, ino)), ops)
    ensures ops == [] && old(session.Settled(store, ino)) ==> session.Settled(store, ino)
    ensures ops != [] && ops[|ops| - 1].Fsync? ==> session.Settled(store, ino)
    ensures store.files[ino].chunkSize > 0
    ensures session.enabled && store.tailJournal && AppendOnly(old(session.Shown(store, ino)), ops) ==>
      AppendCost(store, ino, |old(session.Shown(store, ino))|, |Joined(ops)|)
    ensures session.enabled && AppendOnly(old(session.Shown(store, ino)), ops) ==>
      KeepsFull(store, ino, |old(session.Shown(store, ino))|, |Joined(ops)|)
    decreases |ops|
  {
    hide SessionOk, Content, Conserved, StepFlat, BlockAt, KeptBelow, FullBelow, FileOk, Flat, Overlay;
    SessionBounds(store.z, store.files[ino], session.tail);
    ghost var start, f0 := session.Shown(store, ino), store.files[ino];
    if ops == [] {
      KeptAll(f0, BlockAt(|start|, f0.chunkSize));
      return [];
    }
    var r := Perform(session, store, ino, ops[0]);
    ghost var f1 := store.files[ino];
    ghost var low := BlockAt(|start|, f0.chunkSize);
    ghost var mid := session.Shown(store, ino);
    var rest := RunAll(session, store, ino, ops[1..]);
    results := [r] + rest;
    if session.enabled && AppendOnly(start, ops) {
      AppendsJoin(start, ops);
      AppendsJoin(mid, ops[1..]);
    }
    if session.enabled && store.tailJournal && AppendOnly(start, ops) {
      SizeGrowsBlock(|start|, |mid|, f0.chunkSize);
      KeptThrough(f0, f1, store.files[ino], low, BlockAt(|mid|, f0.chunkSize));
    }
  }

  lemma KeptThrough(f0: FileData, f1: FileData, f2: FileData, low: nat, mid: nat)
    requires KeptBelow(f0, f1, low) && KeptBelow(f1, f2, mid) && low <= mid
    ensures KeptBelow(f0, f2, low)
  {
    forall i: nat | i < low ensures SameBlock(f0, f2, i) {
      assert SameBlock(f0, f1, i) && SameBlock(f1, f2, i);
    }
  }

  /** The tail buffer makes no difference: two files that show the same bytes, one driven with the buffer and
      one without, give the same answers and show the same bytes after any run. */
  method RunOnAndOff(on: WriteSession, a: Store, off: WriteSession, b: Store, ino: nat, ops: seq<Op>)
    returns (ra: seq<WriteResult>, rb: seq<WriteResult>)
    requires on != off && a != b && on.enabled && !off.enabled
    requires on.Valid(a, ino) && off.Valid(b, ino) && on.Shown(a, ino) == off.Shown(b, ino)
    requires InRange(on.Shown(a, ino), ops)
    modifies on, off, a`files, a`compressCount, b`files, b`compressCount
    ensures on.Valid(a, ino) && off.Valid(b, ino)
    ensures ra == rb && on.Shown(a, ino) == off.Shown(b, ino)
  {
    ra := RunAll(on, a, ino, ops);
    rb := RunAll(off, b, ino, ops);
  }
}
