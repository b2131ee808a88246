/** Block compression: the incompressibility rule around an external compressor (core/codec.rs). */
module Codec {
  import opened Bytes

  /** The external compressor, as two functions. */
  datatype Zstd = Zstd(zip: seq<byte> -> seq<byte>, unzip: seq<byte> -> Option<seq<byte>>)

  const MAX_DECOMPRESSED_BLOCK: nat := 256 * 1024 * 1024

  /** The one hypothesis about it: what it compresses it gives back. */
  ghost predicate Faithful(z: Zstd) {
    forall x: seq<byte> :: z.unzip(z.zip(x)) == Some(x)
  }

  datatype StoredBlock = StoredBlock(bytes: seq<byte>, verbatim: bool)

  predicate IsIncompressible(rawLen: nat, clen: nat) {
    clen * 100 >= rawLen * 95
  }

  function CompressBlock(z: Zstd, raw: seq<byte>): StoredBlock {
    if |raw| == 0 then StoredBlock([], true)
    else
      var compressed := z.zip(raw);
      if IsIncompressible(|raw|, |compressed|) then StoredBlock(raw, true) else StoredBlock(compressed, false)
  }

  /** Output beyond the cap counts as a corrupt block (`decode_capped`). */
  function Capped(d: Option<seq<byte>>): Option<seq<byte>> {
    if d.Some? && |d.value| > MAX_DECOMPRESSED_BLOCK then None else d
  }

  function DecompressBlock(z: Zstd, b: StoredBlock): Option<seq<byte>> {
    if b.verbatim then Some(b.bytes) else Capped(z.unzip(b.bytes))
  }

  /** Not both above the cap and worth compressing. */
  predicate Decodable(z: Zstd, raw: seq<byte>) {
    |raw| <= MAX_DECOMPRESSED_BLOCK || CompressBlock(z, raw).verbatim
  }

  /** Decompression gives the block back, or refuses it: exactly the blocks above the cap that were worth compressing.
      What is stored is never longer than the block. */
  lemma CompressRoundTrip(z: Zstd, raw: seq<byte>)
    requires Faithful(z)
    ensures DecompressBlock(z, CompressBlock(z, raw)) == if Decodable(z, raw) then Some(raw) else None
    ensures |CompressBlock(z, raw).bytes| <= |raw|
  {
  }

  /** What is stored compressed is less than nineteen twentieths of the block; any other block is stored as it is. */
  lemma SavesOrStays(z: Zstd, raw: seq<byte>)
    ensures var b := CompressBlock(z, raw);
      if raw != [] && 20 * |z.zip(raw)| < 19 * |raw|
      then !b.verbatim && b.bytes == z.zip(raw) else b.verbatim && b.bytes == raw
  {
  }

  ghost predicate GivesBack(z: Zstd, raw: seq<byte>) {
    DecompressBlock(z, CompressBlock(z, raw)) == Some(raw)
  }

  /** No block of this chunk size is lost. */
  ghost predicate RoundTrips(z: Zstd, cs: nat) {
    forall x: seq<byte> :: |x| <= cs ==> GivesBack(z, x)
  }

  /** Every chunk size up to the cap is safe; a larger one exactly if nothing above the cap is worth compressing. */
  lemma RoundTripsExactly(z: Zstd, cs: nat)
    requires Faithful(z)
    ensures RoundTrips(z, cs) <==> forall x: seq<byte> :: MAX_DECOMPRESSED_BLOCK < |x| <= cs ==> Decodable(z, x)
    ensures cs <= MAX_DECOMPRESSED_BLOCK ==> RoundTrips(z, cs)
  {
    hide Faithful, CompressBlock, DecompressBlock;
    forall x: seq<byte> ensures GivesBack(z, x) <==> Decodable(z, x) {
      CompressRoundTrip(z, x);
    }
  }
}
