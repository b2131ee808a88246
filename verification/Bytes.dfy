/** Fixed-width little-endian integers and byte slices (archive/format.rs). */
module Bytes {

  type byte = x: int | 0 <= x < 256
  type u32 = x: int | 0 <= x < 0x1_0000_0000
  type u64 = x: int | 0 <= x < 0x1_0000_0000_0000_0000

  const U32_LIMIT: int := 0x1_0000_0000
  const U64_LIMIT: int := 0x1_0000_0000_0000_0000

  /** The checksum is a parameter of the whole archive model: every result holds for every function
      from byte strings to 32-bit values, CRC-32 among them. */
  type Crc = seq<byte> -> u32

  datatype Option<+T> = None | Some(value: T)

  function Zeros(n: nat): (s: seq<byte>)
    ensures |s| == n
    ensures forall i :: 0 <= i < n ==> s[i] == 0
  {
    seq(n, _ => 0)
  }

  /** One write applied to an image, extending it with zeros when it reaches past the end. */
  function Apply(buf: seq<byte>, off: nat, bytes: seq<byte>): (r: seq<byte>)
    ensures |r| == if |buf| < off + |bytes| then off + |bytes| else |buf|
  {
    var end := off + |bytes|;
    var buf := if |buf| < end then buf + Zeros(end - |buf|) else buf;
    buf[..off] + bytes + buf[end..]
  }

  function Pow256(n: nat): (p: nat)
    ensures p > 0
  {
    if n == 0 then 1 else 256 * Pow256(n - 1)
  }

  lemma Pow256Values()
    ensures Pow256(4) == U32_LIMIT
    ensures Pow256(8) == U64_LIMIT
  {
    assert Pow256(2) == 65536;
    assert Pow256(4) == 256 * (256 * Pow256(2));
    assert Pow256(6) == 256 * (256 * Pow256(4));
    assert Pow256(8) == 256 * (256 * Pow256(6));
  }

  /** `to_le_bytes` of the low `n` bytes of `v`; higher bytes are dropped, as an `as` cast drops them. */
  function Le(v: nat, n: nat): (s: seq<byte>)
    ensures |s| == n
    decreases n, v
  {
    if n == 0 then [] else [v % 256] + Le(v / 256, n - 1)
  }

  /** `from_le_bytes`. */
  function FromLe(s: seq<byte>): nat
  {
    if |s| == 0 then 0 else s[0] + 256 * FromLe(s[1..])
  }

  lemma {:induction false} LeRoundTrip(v: nat, n: nat)
    requires v < Pow256(n)
    ensures FromLe(Le(v, n)) == v
    decreases n, v
  {
    if n > 0 {
      assert v / 256 < Pow256(n - 1);
      LeRoundTrip(v / 256, n - 1);
      assert Le(v, n)[1..] == Le(v / 256, n - 1);
    }
  }

  /** Distinct byte strings of one length carry distinct numbers. */
  lemma {:induction false} FromLeRoundTrip(s: seq<byte>)
    ensures FromLe(s) < Pow256(|s|)
    ensures Le(FromLe(s), |s|) == s
  {
    if |s| > 0 {
      FromLeRoundTrip(s[1..]);
      var v := FromLe(s);
      assert v % 256 == s[0] && v / 256 == FromLe(s[1..]);
      assert s == [s[0]] + s[1..];
    }
  }

  function Le32(v: u32): (s: seq<byte>)
    ensures |s| == 4
  {
    Le(v, 4)
  }

  function Le64(v: u64): (s: seq<byte>)
    ensures |s| == 8
  {
    Le(v, 8)
  }

  function GetU32(s: seq<byte>, p: nat): (v: u32)
    requires p + 4 <= |s|
  {
    FromLeRoundTrip(s[p..p + 4]);
    Pow256Values();
    FromLe(s[p..p + 4])
  }

  function GetU64(s: seq<byte>, p: nat): (v: u64)
    requires p + 8 <= |s|
  {
    FromLeRoundTrip(s[p..p + 8]);
    Pow256Values();
    FromLe(s[p..p + 8])
  }

  /** Reading back what was written, wherever it lies. */
  lemma GetLe32(s: seq<byte>, p: nat, v: u32)
    requires At(s, p, Le32(v))
    ensures p + 4 <= |s| && GetU32(s, p) == v
  {
    Pow256Values();
    LeRoundTrip(v, 4);
  }

  lemma GetLe64(s: seq<byte>, p: nat, v: u64)
    requires At(s, p, Le64(v))
    ensures p + 8 <= |s| && GetU64(s, p) == v
  {
    Pow256Values();
    LeRoundTrip(v, 8);
  }

  lemma SliceOfPrefix(s: seq<byte>, n: nat, i: nat, j: nat)
    requires i <= j <= n <= |s|
    ensures s[..n][i..j] == s[i..j]
  {
  }

  lemma SliceOfSlice(s: seq<byte>, a: nat, b: nat, i: nat, j: nat)
    requires a <= b <= |s| && i <= j <= b - a
    ensures s[a..b][i..j] == s[a + i..a + j]
  {
    var x, y := s[a..b][i..j], s[a + i..a + j];
    assert |x| == |y| && forall k :: 0 <= k < |x| ==> x[k] == y[k];
  }

  /** `x` lies in `s` at `p`. */
  ghost predicate At(s: seq<byte>, p: nat, x: seq<byte>) {
    p + |x| <= |s| && s[p..p + |x|] == x
  }

  lemma AtConcat(s: seq<byte>, p: nat, x: seq<byte>, y: seq<byte>)
    requires At(s, p, x + y)
    ensures At(s, p, x) && At(s, p + |x|, y)
  {
    var w := s[p..p + |x + y|];
    assert s[p..p + |x|] == w[..|x|];
    assert s[p + |x|..p + |x| + |y|] == w[|x|..];
  }

  lemma GetU32Shift(s: seq<byte>, a: nat, p: nat)
    requires a + p + 4 <= |s|
    ensures GetU32(s[a..], p) == GetU32(s, a + p)
  {
    assert s[a..][p..p + 4] == s[a + p..a + p + 4];
  }

  lemma GetU32Prefix(s: seq<byte>, t: seq<byte>, p: nat)
    requires p + 4 <= |s|
    ensures GetU32(s + t, p) == GetU32(s, p)
  {
    assert (s + t)[p..p + 4] == s[p..p + 4];
  }
}
