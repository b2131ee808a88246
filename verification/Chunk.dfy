/** Block arithmetic of a file cut into fixed-size chunks (core/chunk.rs). */
module Chunk {

  function BlockStart(i: nat, cs: nat): nat {
    i * cs
  }

  /** The block a position lies in. */
  function BlockAt(p: nat, cs: nat): nat
    requires cs > 0
  {
    p / cs
  }

  function OffsetInBlock(p: nat, cs: nat): nat
    requires cs > 0
  {
    p % cs
  }

  function DivCeil(n: nat, cs: nat): nat
    requires cs > 0
  {
    (n + cs - 1) / cs
  }

  /** First and last block touched by `[offset, offset + len)`; an empty range touches its own block. */
  function BlockRange(offset: nat, len: nat, cs: nat): (nat, nat)
    requires cs > 0
  {
    if len == 0 then (BlockAt(offset, cs), BlockAt(offset, cs))
    else (BlockAt(offset, cs), BlockAt(offset + len - 1, cs))
  }

  lemma MulMonotone(a: nat, b: nat, cs: nat)
    requires a <= b
    ensures a * cs <= b * cs
  {
  }

  /** Consecutive blocks do not overlap. */
  lemma BlockSpan(i: nat, j: nat, cs: nat)
    requires i < j
    ensures BlockStart(i, cs) + cs <= BlockStart(j, cs)
  {
    MulMonotone(i + 1, j, cs);
    assert (i + 1) * cs == i * cs + cs;
  }

  /** Position `p` lies in block `i` exactly when it lies between the block's bounds. */
  lemma InBlock(p: nat, i: nat, cs: nat)
    requires cs > 0
    ensures BlockAt(p, cs) == i <==> BlockStart(i, cs) <= p < BlockStart(i, cs) + cs
    ensures BlockAt(p, cs) == i ==> OffsetInBlock(p, cs) == p - BlockStart(i, cs)
  {
    var q := p / cs;
    assert p == q * cs + p % cs;
    if BlockStart(i, cs) <= p < BlockStart(i, cs) + cs {
      if q < i { BlockSpan(q, i, cs); }
      if q > i { BlockSpan(i, q, cs); }
    }
  }

  /** A non-empty range reaches exactly the blocks from the first to the last of `BlockRange`. */
  lemma RangeCovers(offset: nat, len: nat, cs: nat, i: nat)
    requires cs > 0 && len > 0
    ensures var (first, last) := BlockRange(offset, len, cs);
      && first <= last
      && (first <= i <= last <==> BlockStart(i, cs) < offset + len && offset < BlockStart(i, cs) + cs)
  {
    var (first, last) := BlockRange(offset, len, cs);
    InBlock(offset, first, cs);
    InBlock(offset + len - 1, last, cs);
    if last < first { BlockSpan(last, first, cs); }
    if i < first { BlockSpan(i, first, cs); }
    if i > first { BlockSpan(first, i, cs); }
    if i > last { BlockSpan(last, i, cs); }
    if i < last { BlockSpan(i, last, cs); }
  }

  /** `div_ceil` counts the blocks that start inside the file. */
  lemma DivCeilBounds(n: nat, cs: nat, i: nat)
    requires cs > 0
    ensures i < DivCeil(n, cs) <==> BlockStart(i, cs) < n
  {
    var c := DivCeil(n, cs);
    InBlock(n + cs - 1, c, cs);
    if i < c { BlockSpan(i, c, cs); }
    if i > c { BlockSpan(c, i, cs); }
  }

  /** An aligned size ends where a block starts. */
  lemma Aligned(n: nat, cs: nat)
    requires cs > 0
    ensures OffsetInBlock(n, cs) == 0 <==> BlockStart(BlockAt(n, cs), cs) == n
    ensures n == BlockStart(BlockAt(n, cs), cs) + OffsetInBlock(n, cs) && OffsetInBlock(n, cs) < cs
  {
    InBlock(n, BlockAt(n, cs), cs);
  }
}
