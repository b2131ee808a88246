/** The bytes of an archived file: block by block as a reader places them, and end to end as the re-chunker sees
    them; when the two agree (seal.rs, compact.rs). */
module PieceBytes {
  import opened Bytes
  import opened Chunk
  import opened Codec
  import opened Reader

  function BlockPlain(z: Zstd, b: Block): Option<seq<byte>> {
    DecompressBlock(z, StoredBlock(b.stored, b.flags % 2 == 1))
  }

  function PlainPieces(z: Zstd, blocks: seq<Block>): (r: seq<seq<byte>>)
    ensures |r| == |blocks|
  {
    seq(|blocks|, i requires 0 <= i < |blocks| => if BlockPlain(z, blocks[i]).Some?
      then BlockPlain(z, blocks[i]).value else [])
  }

  function TailPiece(v: Version): seq<seq<byte>> {
    if v.tail.Some? && v.tail.value != [] then [v.tail.value] else []
  }

  /** The decoded blocks, then the tail: it sits where the next block would. */
  function Pieces(z: Zstd, v: Version): seq<seq<byte>> {
    PlainPieces(z, v.blocks) + TailPiece(v)
  }

  function Concat(pieces: seq<seq<byte>>): seq<byte> {
    if pieces == [] then [] else Concat(pieces[..|pieces| - 1]) + pieces[|pieces| - 1]
  }

  function PieceByte(pieces: seq<seq<byte>>, cs: nat, p: nat): byte
    requires cs > 0
  {
    var i, o := BlockAt(p, cs), OffsetInBlock(p, cs);
    if i < |pieces| && o < |pieces[i]| then pieces[i][o] else 0
  }

  /** The file as it reads: piece `i` starts at block `i`, zeros where there is nothing, cut at the size. */
  function FlatOf(pieces: seq<seq<byte>>, cs: nat, size: nat): (r: seq<byte>)
    requires cs > 0
    ensures |r| == size
  {
    seq(size, p requires 0 <= p < size => PieceByte(pieces, cs, p))
  }

  function ArchiveBytes(z: Zstd, v: Version): (r: seq<byte>)
    requires v.chunkSize > 0
    ensures |r| == v.size
  {
    FlatOf(Pieces(z, v), v.chunkSize, v.size)
  }

  /** What a file of that size leaves for block `i` (`block_rawlen`). */
  function RawLen(i: nat, cs: nat, size: nat): nat {
    var rest := if size > BlockStart(i, cs) then size - BlockStart(i, cs) else 0;
    if rest < cs then rest else cs
  }

  /** No piece is longer than its place. */
  ghost predicate Fits(pieces: seq<seq<byte>>, cs: nat, size: nat) {
    forall i :: 0 <= i < |pieces| ==> |pieces[i]| <= RawLen(i, cs, size)
  }

  /** Every piece fills its place, up to the end of the file. */
  ghost predicate Dense(pieces: seq<seq<byte>>, cs: nat, size: nat) {
    (forall i :: 0 <= i < |pieces| ==> |pieces[i]| == RawLen(i, cs, size)) && size <= BlockStart(|pieces|, cs)
  }

  lemma RawLenSum(n: nat, cs: nat, size: nat)
    ensures var covered := if size < BlockStart(n, cs) then size else BlockStart(n, cs);
      covered + RawLen(n, cs, size) == if size < BlockStart(n + 1, cs) then size else BlockStart(n + 1, cs)
  {
    assert BlockStart(n + 1, cs) == BlockStart(n, cs) + cs;
  }

  lemma StartZero(cs: nat)
    ensures BlockStart(0, cs) == 0
  {
  }

  /** Pieces that fit add up to no more than the part of the file they cover, and to all of it only if every one
      fills its place. */
  lemma {:induction false} SumBound(pieces: seq<seq<byte>>, cs: nat, size: nat)
    requires Fits(pieces, cs, size)
    ensures var covered := if size < BlockStart(|pieces|, cs) then size else BlockStart(|pieces|, cs);
      && |Concat(pieces)| <= covered
      && (|Concat(pieces)| == covered <==> forall i :: 0 <= i < |pieces| ==> |pieces[i]| == RawLen(i, cs, size))
    decreases |pieces|
  {
    hide BlockStart, RawLen;
    if pieces == [] {
      StartZero(cs);
    } else {
      var n := |pieces| - 1;
      SumBound(pieces[..n], cs, size);
      RawLenSum(n, cs, size);
      assert |pieces[n]| <= RawLen(n, cs, size);
      assert forall i :: 0 <= i < n ==> pieces[..n][i] == pieces[i];
    }
  }

  /** The blocks before the last, within the part of the file they cover. */
  lemma DenseFront(pieces: seq<seq<byte>>, cs: nat, size: nat)
    requires cs > 0 && pieces != [] && Dense(pieces, cs, size)
    ensures var n := |pieces| - 1;
      var covered := if size < BlockStart(n, cs) then size else BlockStart(n, cs);
      Dense(pieces[..n], cs, covered) && |pieces[n]| == size - covered
  {
    hide BlockStart;
    var n := |pieces| - 1;
    RawLenSum(n, cs, size);
    forall i | 0 <= i < n
      ensures |pieces[i]| == RawLen(i, cs, if size < BlockStart(n, cs) then size else BlockStart(n, cs)) {
      BlockSpan(i, n, cs);
    }
  }

  /** Dense pieces laid end to end are the file as it reads. */
  lemma {:induction false} DenseReads(pieces: seq<seq<byte>>, cs: nat, size: nat)
    requires cs > 0 && Dense(pieces, cs, size)
    ensures Concat(pieces) == FlatOf(pieces, cs, size)
    decreases |pieces|
  {
    hide BlockStart, BlockAt, OffsetInBlock, Dense;
    if pieces == [] {
      StartZero(cs);
      DenseBound(pieces, cs, size);
    } else {
      var n := |pieces| - 1;
      var covered := if size < BlockStart(n, cs) then size else BlockStart(n, cs);
      DenseFront(pieces, cs, size);
      DenseReads(pieces[..n], cs, covered);
      DenseBound(pieces, cs, size);
      assert |Concat(pieces)| == size;
      forall p: nat | p < size ensures Concat(pieces)[p] == FlatOf(pieces, cs, size)[p] {
        if p < covered {
          InBlock(p, BlockAt(p, cs), cs);
          BelowStart(p, n, cs);
          assert FlatOf(pieces[..n], cs, covered)[p] == PieceByte(pieces[..n], cs, p);
        } else {
          assert BlockStart(n + 1, cs) == BlockStart(n, cs) + cs by { NextStart(n, cs); }
          InBlock(p, n, cs);
        }
      }
    }
  }

  lemma DenseBound(pieces: seq<seq<byte>>, cs: nat, size: nat)
    requires Dense(pieces, cs, size)
    ensures size <= BlockStart(|pieces|, cs)
  {
  }

  lemma NextStart(n: nat, cs: nat)
    ensures BlockStart(n + 1, cs) == BlockStart(n, cs) + cs
  {
  }

  lemma BelowStart(p: nat, n: nat, cs: nat)
    requires cs > 0 && p < BlockStart(n, cs)
    ensures BlockAt(p, cs) < n
  {
    hide BlockStart, BlockAt;
    var i := BlockAt(p, cs);
    InBlock(p, i, cs);
    if i > n { BlockSpan(n, i, cs); }
  }

  /** End to end and block by block agree exactly for dense pieces. */
  lemma ReadsAsLaidOut(pieces: seq<seq<byte>>, cs: nat, size: nat)
    requires cs > 0 && Fits(pieces, cs, size)
    ensures Concat(pieces) == FlatOf(pieces, cs, size) <==> Dense(pieces, cs, size)
    ensures |Concat(pieces)| == size <==> Dense(pieces, cs, size)
  {
    hide BlockStart, RawLen;
    SumBound(pieces, cs, size);
    if Dense(pieces, cs, size) { DenseReads(pieces, cs, size); }
  }

  // ---- what the re-chunker writes ----

  /** Full pieces, then one shorter one if anything is left. */
  ghost predicate Cut(pieces: seq<seq<byte>>, cs: nat) {
    && (forall i :: 0 <= i < |pieces| ==> 0 < |pieces[i]| <= cs)
    && (forall i :: 0 <= i < |pieces| - 1 ==> |pieces[i]| == cs)
  }

  lemma {:induction false} FullLength(pieces: seq<seq<byte>>, cs: nat)
    requires forall i :: 0 <= i < |pieces| ==> |pieces[i]| == cs
    ensures |Concat(pieces)| == BlockStart(|pieces|, cs)
    decreases |pieces|
  {
    hide BlockStart;
    StartZero(cs);
    if pieces != [] {
      FullLength(pieces[..|pieces| - 1], cs);
      NextStart(|pieces| - 1, cs);
    }
  }

  /** Pieces so cut are dense at their total length. */
  lemma CutIsDense(pieces: seq<seq<byte>>, cs: nat)
    requires Cut(pieces, cs)
    ensures Dense(pieces, cs, |Concat(pieces)|)
  {
    hide BlockStart;
    StartZero(cs);
    if pieces != [] {
      var n := |pieces| - 1;
      FullLength(pieces[..n], cs);
      NextStart(n, cs);
      forall i | 0 <= i < n ensures |pieces[i]| == RawLen(i, cs, |Concat(pieces)|) { BlockSpan(i, n, cs); }
    }
  }

  /** The cutting itself: full pieces from the front, the remainder last. */
  function CutUp(s: seq<byte>, cs: nat): seq<seq<byte>>
    requires cs > 0
    decreases |s|
  {
    if s == [] then [] else if |s| < cs then [s] else [s[..cs]] + CutUp(s[cs..], cs)
  }

  ghost predicate AllFull(pieces: seq<seq<byte>>, cs: nat) {
    forall i :: 0 <= i < |pieces| ==> |pieces[i]| == cs
  }

  lemma {:induction false} ConcatCons(piece: seq<byte>, pieces: seq<seq<byte>>)
    ensures Concat([piece] + pieces) == piece + Concat(pieces)
    decreases |pieces|
  {
    if pieces == [] {
      assert [piece] + pieces == [piece] && [piece][..0] == [];
    } else {
      var n := |pieces| - 1;
      ConcatCons(piece, pieces[..n]);
      assert ([piece] + pieces)[..n + 1] == [piece] + pieces[..n];
    }
  }

  /** Cut pieces laid end to end are what was cut. */
  lemma {:induction false} CutUpIsCut(s: seq<byte>, cs: nat)
    requires cs > 0
    ensures Cut(CutUp(s, cs), cs) && Concat(CutUp(s, cs)) == s
    decreases |s|
  {
    if s != [] && |s| >= cs {
      CutUpIsCut(s[cs..], cs);
      var rest := CutUp(s[cs..], cs);
      ConcatCons(s[..cs], rest);
      var all := [s[..cs]] + rest;
      forall j | 0 <= j < |all| ensures 0 < |all[j]| <= cs {
        if j > 0 { assert all[j] == rest[j - 1]; }
      }
    } else if s != [] {
      assert [s][..0] == [] && Concat([s]) == Concat([]) + s;
    }
  }

  /** Full pieces already taken from the front are the first of the cut. */
  lemma {:induction false} CutUpFront(written: seq<seq<byte>>, t: seq<byte>, cs: nat)
    requires cs > 0 && AllFull(written, cs)
    ensures CutUp(Concat(written) + t, cs) == written + CutUp(t, cs)
    decreases |written|
  {
    if written == [] {
      assert Concat(written) + t == t;
    } else {
      var rest := written[1..];
      CutUpFront(rest, t, cs);
      assert written == [written[0]] + rest;
      ConcatCons(written[0], rest);
      var s := Concat(written) + t;
      assert s == written[0] + (Concat(rest) + t);
      assert s[..cs] == written[0] && s[cs..] == Concat(rest) + t;
    }
  }

  lemma {:induction false} ConcatPrefix(pieces: seq<seq<byte>>, n: nat)
    requires n <= |pieces|
    ensures Concat(pieces[..n]) <= Concat(pieces)
    decreases |pieces|
  {
    if n < |pieces| {
      var k := |pieces| - 1;
      ConcatPrefix(pieces[..k], n);
      assert pieces[..k][..n] == pieces[..n];
    } else {
      assert pieces[..n] == pieces;
    }
  }

  lemma ConcatSnoc(pieces: seq<seq<byte>>, piece: seq<byte>)
    ensures Concat(pieces + [piece]) == Concat(pieces) + piece
  {
    assert (pieces + [piece])[..|pieces|] == pieces;
  }

  /** A block stored short with another one after it: laid end to end the file loses a byte's place. */
  lemma ShortBlockShifts()
    ensures var pieces: seq<seq<byte>> := [[7], [8, 9]];
      Fits(pieces, 2, 4) && FlatOf(pieces, 2, 4) == [7, 0, 8, 9] && Concat(pieces) == [7, 8, 9]
  {
    var pieces: seq<seq<byte>> := [[7], [8, 9]];
    assert pieces[..1] == [[7]] && pieces[..1][..0] == [];
    assert Concat([[7]]) == [7];
    assert Concat(pieces) == Concat(pieces[..1]) + [8, 9];
    assert RawLen(0, 2, 4) == 2 && RawLen(1, 2, 4) == 2;
    forall p: nat | p < 4 ensures FlatOf(pieces, 2, 4)[p] == [7, 0, 8, 9][p] {
      InBlock(p, p / 2, 2);
    }
  }
}
