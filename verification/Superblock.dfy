/** Superblock slots: encoding, decoding and the choice between two slots (archive/superblock.rs). */
module Superblock {
  import opened Bytes
  import opened Layout

  const SB_MAGIC: u32 := 0x3242535A  // "ZSB2", little-endian
  const SB_CRC_OFFSET: nat := SB_LEN - 4

  const NO_HEAD := HeadCache(0, 0, 0, false)

  function HeadFields(h: Option<HeadCache>): HeadCache {
    if h.Some? then h.value else NO_HEAD
  }

  /** The 96 bytes of fields. */
  function SbFields(sb: SuperBlock): (s: seq<byte>)
    ensures |s| == 96
  {
    var hc := HeadFields(sb.headCache);
    Le32(SB_MAGIC) + Le64(sb.seqno) + Le32(sb.chunkSize) + Le64(sb.uncompressedSize)
    + Le64(sb.chunkCount) + Le64(sb.indexOffset) + Le64(sb.indexLen) + Le32(sb.indexCrc)
    + Le64(sb.tailJournalOffset) + Le64(sb.tailJournalLen)
    + Le64(hc.offset) + Le64(hc.clen) + Le64(hc.rawlen) + Le32(if hc.verbatim then 1 else 0)
  }

  function SerializeSuperblock(crc: Crc, sb: SuperBlock): (s: seq<byte>)
    ensures |s| == SB_LEN
  {
    var body := SbFields(sb) + Zeros(28);
    body + Le32(crc(body))
  }

  /** `parse_superblock`: None for a short buffer, a foreign magic or a checksum mismatch. */
  function ParseSuperblock(crc: Crc, b: seq<byte>): Option<SuperBlock> {
    if |b| < SB_LEN then None
    else
      var buf := b[..SB_LEN];
      if GetU32(buf, 0) != SB_MAGIC then None
      else if crc(buf[..SB_CRC_OFFSET]) != GetU32(buf, SB_CRC_OFFSET) then None
      else Some(DecodeFields(buf))
  }

  function DecodeFields(buf: seq<byte>): SuperBlock
    requires |buf| == SB_LEN
  {
    var hc := HeadCache(GetU64(buf, 68), GetU64(buf, 76), GetU64(buf, 84), GetU32(buf, 92) % 2 == 1);
    SuperBlock(
      GetU64(buf, 4), GetU32(buf, 12), GetU64(buf, 16), GetU64(buf, 24), GetU64(buf, 32),
      GetU64(buf, 40), GetU32(buf, 48), GetU64(buf, 52), GetU64(buf, 60),
      if hc.offset == 0 && hc.clen == 0 && hc.rawlen == 0 then None else Some(hc))
  }

  /** The head caches the format can carry: the all-zero triple stands for "none". */
  predicate HeadRepresentable(h: Option<HeadCache>) {
    h.Some? ==> !(h.value.offset == 0 && h.value.clen == 0 && h.value.rawlen == 0)
  }

  /** Where the cursor of the decoder finds each field. */
  lemma FieldPositions(sb: SuperBlock, b: seq<byte>)
    requires At(b, 0, SbFields(sb))
    ensures At(b, 0, Le32(SB_MAGIC)) && At(b, 4, Le64(sb.seqno)) && At(b, 12, Le32(sb.chunkSize))
    ensures At(b, 16, Le64(sb.uncompressedSize)) && At(b, 24, Le64(sb.chunkCount))
    ensures At(b, 32, Le64(sb.indexOffset)) && At(b, 40, Le64(sb.indexLen)) && At(b, 48, Le32(sb.indexCrc))
    ensures At(b, 52, Le64(sb.tailJournalOffset)) && At(b, 60, Le64(sb.tailJournalLen))
    ensures var hc := HeadFields(sb.headCache);
      At(b, 68, Le64(hc.offset)) && At(b, 76, Le64(hc.clen)) && At(b, 84, Le64(hc.rawlen))
      && At(b, 92, Le32(if hc.verbatim then 1 else 0))
  {
    var hc := HeadFields(sb.headCache);
    var p1 := Le32(SB_MAGIC);
    var p2 := p1 + Le64(sb.seqno);
    var p3 := p2 + Le32(sb.chunkSize);
    var p4 := p3 + Le64(sb.uncompressedSize);
    var p5 := p4 + Le64(sb.chunkCount);
    var p6 := p5 + Le64(sb.indexOffset);
    var p7 := p6 + Le64(sb.indexLen);
    var p8 := p7 + Le32(sb.indexCrc);
    var p9 := p8 + Le64(sb.tailJournalOffset);
    var p10 := p9 + Le64(sb.tailJournalLen);
    var p11 := p10 + Le64(hc.offset);
    var p12 := p11 + Le64(hc.clen);
    var p13 := p12 + Le64(hc.rawlen);
    AtConcat(b, 0, p13, Le32(if hc.verbatim then 1 else 0));
    AtConcat(b, 0, p12, Le64(hc.rawlen));
    AtConcat(b, 0, p11, Le64(hc.clen));
    AtConcat(b, 0, p10, Le64(hc.offset));
    AtConcat(b, 0, p9, Le64(sb.tailJournalLen));
    AtConcat(b, 0, p8, Le64(sb.tailJournalOffset));
    AtConcat(b, 0, p7, Le32(sb.indexCrc));
    AtConcat(b, 0, p6, Le64(sb.indexLen));
    AtConcat(b, 0, p5, Le64(sb.indexOffset));
    AtConcat(b, 0, p4, Le64(sb.chunkCount));
    AtConcat(b, 0, p3, Le64(sb.uncompressedSize));
    AtConcat(b, 0, p2, Le32(sb.chunkSize));
    AtConcat(b, 0, p1, Le64(sb.seqno));
  }

  /** Decoding inverts encoding exactly on the head caches the format can represent; the one other
      head cache, all zero, comes back as none. */
  lemma SuperblockRoundTrip(crc: Crc, sb: SuperBlock)
    ensures ParseSuperblock(crc, SerializeSuperblock(crc, sb)).Some?
    ensures ParseSuperblock(crc, SerializeSuperblock(crc, sb))
         == Some(if HeadRepresentable(sb.headCache) then sb else sb.(headCache := None))
    ensures ParseSuperblock(crc, SerializeSuperblock(crc, sb)) == Some(sb) <==> HeadRepresentable(sb.headCache)
  {
    var body := SbFields(sb) + Zeros(28);
    var b := SerializeSuperblock(crc, sb);
    assert b[..SB_LEN] == b;
    assert b[..SB_CRC_OFFSET] == body;
    assert At(b, 0, body + Le32(crc(body)));
    AtConcat(b, 0, body, Le32(crc(body)));
    AtConcat(b, 0, SbFields(sb), Zeros(28));
    GetLe32(b, SB_CRC_OFFSET, crc(body));
    FieldPositions(sb, b);
    var hc := HeadFields(sb.headCache);
    GetLe32(b, 0, SB_MAGIC);
    GetLe64(b, 4, sb.seqno); GetLe32(b, 12, sb.chunkSize); GetLe64(b, 16, sb.uncompressedSize);
    GetLe64(b, 24, sb.chunkCount); GetLe64(b, 32, sb.indexOffset); GetLe64(b, 40, sb.indexLen);
    GetLe32(b, 48, sb.indexCrc); GetLe64(b, 52, sb.tailJournalOffset); GetLe64(b, 60, sb.tailJournalLen);
    GetLe64(b, 68, hc.offset); GetLe64(b, 76, hc.clen); GetLe64(b, 84, hc.rawlen);
    GetLe32(b, 92, if hc.verbatim then 1 else 0);
  }

  /** No parsed superblock carries the unrepresentable head cache. */
  lemma ParsedHead(crc: Crc, b: seq<byte>)
    ensures ParseSuperblock(crc, b).Some? ==> HeadRepresentable(ParseSuperblock(crc, b).value.headCache)
  {
  }

  /** `pick_active`: the higher sequence number, A on a tie. */
  function PickActive(a: Option<SuperBlock>, b: Option<SuperBlock>): Option<SuperBlock> {
    match (a, b)
    case (Some(x), Some(y)) => Some(if y.seqno > x.seqno then y else x)
    case (Some(x), None) => Some(x)
    case (None, other) => other
  }
}
