/** What the updater's operations mean for the logical contents of an archive, with no offsets and no
    device: the reference the byte-level machine is compared with. */
module VersionSpec {
  import opened Bytes
  import opened Layout
  import opened Reader

  function ZeroBlock(crc: Crc, chunkSize: u32): Block {
    Block(Zeros(chunkSize), FLAG_VERBATIM, crc(Zeros(chunkSize)))
  }

  /** The first `n` blocks exist; missing ones are zero blocks. */
  function PadTo(crc: Crc, v: Version, n: nat): (r: Version)
    ensures |r.blocks| == if |v.blocks| < n then n else |v.blocks|
  {
    if |v.blocks| >= n then v
    else v.(blocks := v.blocks + seq(n - |v.blocks|, _ => ZeroBlock(crc, v.chunkSize)))
  }

  function WithBlock(crc: Crc, v: Version, idx: nat, stored: seq<byte>, verbatim: bool, newSize: u64): Version {
    var p := PadTo(crc, v, idx);
    var b := Block(stored, if verbatim then FLAG_VERBATIM else 0, crc(stored));
    p.(blocks := if idx == |p.blocks| then p.blocks + [b] else p.blocks[idx := b], size := newSize)
  }

  /** The tail grows by exactly the delta. */
  function WithTail(v: Version, delta: seq<byte>): Version {
    v.(tail := Some((if v.tail.Some? then v.tail.value else []) + delta))
  }

  /** The version under construction, and the head cache a journal-only commit carries along. */
  datatype Draft = Draft(version: Version, carried: Option<Head>)

  function Truncated(d: Draft, keepFrom: nat, newSize: u64): Draft {
    var v := d.version;
    var blocks := if keepFrom < |v.blocks| then v.blocks[..keepFrom] else v.blocks;
    var rawlen := if v.head.Some? then v.head.value.rawlen else if d.carried.Some? then d.carried.value.rawlen else 0;
    var cut := v.(blocks := blocks, size := newSize);
    if rawlen > 0 && newSize < rawlen then Draft(cut.(head := None), None) else d.(version := cut)
  }
}
