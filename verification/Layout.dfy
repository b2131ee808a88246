/** Archive layout: constants and the records shared by reader, writer and updater (archive/mod.rs). */
module Layout {
  import opened Bytes

  const MAGIC: seq<byte> := [0x5A, 0x49, 0x50, 0x46, 0x53, 0x41, 0x52, 0x01]  // "ZIPFSAR\x01"
  const VERSION: u32 := 2
  const HEADER_LEN: nat := 12
  const SB_LEN: nat := 128
  const SB_A_OFFSET: nat := HEADER_LEN
  const SB_B_OFFSET: nat := HEADER_LEN + SB_LEN
  const DATA_START: nat := HEADER_LEN + 2 * SB_LEN
  const INDEX_ENTRY_LEN: nat := 24
  const FLAG_VERBATIM: u32 := 1
  const JOURNAL_REC_HEADER_LEN: nat := 8

  datatype ChunkEntry = ChunkEntry(offset: u64, clen: u64, flags: u32, blockCrc: u32) {
    predicate IsVerbatim() { flags % 2 == 1 }
  }

  datatype HeadCache = HeadCache(offset: u64, clen: u64, rawlen: u64, verbatim: bool)

  datatype SuperBlock = SuperBlock(
    seqno: u64,
    chunkSize: u32,
    uncompressedSize: u64,
    chunkCount: u64,
    indexOffset: u64,
    indexLen: u64,
    indexCrc: u32,
    tailJournalOffset: u64,
    tailJournalLen: u64,
    headCache: Option<HeadCache>)

  /** The slot that is not `slot`. */
  function OtherSlot(slot: nat): nat {
    if slot == SB_A_OFFSET then SB_B_OFFSET else SB_A_OFFSET
  }

  predicate IsSlot(slot: nat) { slot == SB_A_OFFSET || slot == SB_B_OFFSET }

  function Header(): (s: seq<byte>)
    ensures |s| == HEADER_LEN
  {
    MAGIC + Le32(VERSION)
  }

  predicate HeaderOk(img: seq<byte>) {
    |img| >= DATA_START && img[..8] == MAGIC && GetU32(img, 8) == VERSION
  }
}
