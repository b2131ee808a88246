/** Tail journal records: raw increments of the unsealed tail block (archive/journal.rs). */
module Journal {
  import opened Bytes
  import opened Layout

  /** `[rec_len | rec_crc | raw]`; the length is cut to 32 bits, as the `as u32` cast does. */
  function SerializeJournalRecord(crc: Crc, raw: seq<byte>): (s: seq<byte>)
    ensures |s| == JOURNAL_REC_HEADER_LEN + |raw|
  {
    Le32(|raw| % U32_LIMIT) + Le32(crc(raw)) + raw
  }

  datatype JournalReplay = JournalReplay(plain: seq<byte>, consumed: nat)

  /** The payload length of the complete, valid record that starts `buf`, if one does. */
  function RecordAt(crc: Crc, buf: seq<byte>): (r: Option<nat>)
    ensures r.Some? ==> JOURNAL_REC_HEADER_LEN + r.value <= |buf|
  {
    if |buf| < JOURNAL_REC_HEADER_LEN then None
    else
      var n := GetU32(buf, 0);
      if JOURNAL_REC_HEADER_LEN + n > |buf| then None
      else if crc(buf[JOURNAL_REC_HEADER_LEN..JOURNAL_REC_HEADER_LEN + n]) != GetU32(buf, 4) then None
      else Some(n)
  }

  function ReplaySpec(crc: Crc, buf: seq<byte>): (r: JournalReplay)
    ensures r.consumed <= |buf|
    decreases |buf|
  {
    match RecordAt(crc, buf)
    case None => JournalReplay([], 0)
    case Some(n) =>
      var r := ReplaySpec(crc, buf[JOURNAL_REC_HEADER_LEN + n..]);
      JournalReplay(buf[JOURNAL_REC_HEADER_LEN..JOURNAL_REC_HEADER_LEN + n] + r.plain,
                    JOURNAL_REC_HEADER_LEN + n + r.consumed)
  }

  lemma {:induction false} ReplayShorter(crc: Crc, buf: seq<byte>)
    ensures |ReplaySpec(crc, buf).plain| <= ReplaySpec(crc, buf).consumed
    decreases |buf|
  {
    if RecordAt(crc, buf).Some? {
      ReplayShorter(crc, buf[JOURNAL_REC_HEADER_LEN + RecordAt(crc, buf).value..]);
    }
  }

  /** One record is peeled off the front of the unread part. */
  lemma ReplayStep(crc: Crc, buf: seq<byte>, at: nat, n: nat)
    requires at <= |buf| && RecordAt(crc, buf[at..]) == Some(n)
    ensures var next := at + JOURNAL_REC_HEADER_LEN + n;
      && next <= |buf|
      && ReplaySpec(crc, buf[at..])
         == JournalReplay(buf[at + JOURNAL_REC_HEADER_LEN..next] + ReplaySpec(crc, buf[next..]).plain,
                          JOURNAL_REC_HEADER_LEN + n + ReplaySpec(crc, buf[next..]).consumed)
  {
    var rest := buf[at..];
    var k := JOURNAL_REC_HEADER_LEN + n;
    assert rest[JOURNAL_REC_HEADER_LEN..k] == buf[at + JOURNAL_REC_HEADER_LEN..at + k];
    assert rest[k..] == buf[at + k..];
  }

  lemma RecordAtExtended(crc: Crc, buf: seq<byte>, more: seq<byte>)
    requires RecordAt(crc, buf).Some?
    ensures RecordAt(crc, buf + more) == RecordAt(crc, buf)
  {
    GetU32Prefix(buf, more, 0);
    GetU32Prefix(buf, more, 4);
    var n := RecordAt(crc, buf).value;
    assert (buf + more)[JOURNAL_REC_HEADER_LEN..JOURNAL_REC_HEADER_LEN + n]
        == buf[JOURNAL_REC_HEADER_LEN..JOURNAL_REC_HEADER_LEN + n];
  }

  /** A record's bytes are the serialization of its payload. */
  lemma RecordBytes(crc: Crc, buf: seq<byte>)
    requires RecordAt(crc, buf).Some?
    ensures var k := JOURNAL_REC_HEADER_LEN + RecordAt(crc, buf).value;
      && RecordAt(crc, buf).value < U32_LIMIT
      && buf[..k] == SerializeJournalRecord(crc, buf[JOURNAL_REC_HEADER_LEN..k])
  {
    var k := JOURNAL_REC_HEADER_LEN + RecordAt(crc, buf).value;
    FromLeRoundTrip(buf[0..4]);
    FromLeRoundTrip(buf[4..8]);
    HeaderSplit(buf, k);
  }

  lemma HeaderSplit(buf: seq<byte>, k: nat)
    requires JOURNAL_REC_HEADER_LEN <= k <= |buf|
    ensures buf[..k] == buf[0..4] + buf[4..8] + buf[JOURNAL_REC_HEADER_LEN..k]
  {
  }

  /** What the loop sees at its cursor. */
  lemma RecordAtCursor(crc: Crc, buf: seq<byte>, at: nat)
    requires at + JOURNAL_REC_HEADER_LEN <= |buf|
    ensures var n := GetU32(buf, at);
      var start := at + JOURNAL_REC_HEADER_LEN;
      RecordAt(crc, buf[at..]) ==
        if start + n > |buf| || crc(buf[start..start + n]) != GetU32(buf, at + 4) then None else Some(n)
  {
    GetU32Shift(buf, at, 0);
    GetU32Shift(buf, at, 4);
    var n := GetU32(buf, at);
    if at + JOURNAL_REC_HEADER_LEN + n <= |buf| {
      SliceOfSlice(buf, at, |buf|, JOURNAL_REC_HEADER_LEN, JOURNAL_REC_HEADER_LEN + n);
      assert buf[at..|buf|] == buf[at..];
    }
  }

  /** The loop invariant: the whole result is what was gathered followed by what is left. */
  ghost predicate Gathered(crc: Crc, buf: seq<byte>, plain: seq<byte>, consumed: nat)
    requires consumed <= |buf|
  {
    var rest := ReplaySpec(crc, buf[consumed..]);
    ReplaySpec(crc, buf) == JournalReplay(plain + rest.plain, consumed + rest.consumed)
  }

  lemma GatherOne(crc: Crc, buf: seq<byte>, plain: seq<byte>, at: nat, payload: seq<byte>, next: nat)
    requires at <= |buf| && RecordAt(crc, buf[at..]) == Some(|payload|)
    requires next == at + JOURNAL_REC_HEADER_LEN + |payload| <= |buf|
    requires payload == buf[at + JOURNAL_REC_HEADER_LEN..next]
    requires Gathered(crc, buf, plain, at)
    ensures Gathered(crc, buf, plain + payload, next)
  {
    hide ReplaySpec, RecordAt;
    ReplayStep(crc, buf, at, |payload|);
    var more := ReplaySpec(crc, buf[next..]).plain;
    assert plain + (payload + more) == (plain + payload) + more;
  }

  lemma GatheredAll(crc: Crc, buf: seq<byte>, plain: seq<byte>, at: nat)
    requires at <= |buf| && RecordAt(crc, buf[at..]).None?
    requires Gathered(crc, buf, plain, at)
    ensures ReplaySpec(crc, buf) == JournalReplay(plain, at)
  {
    assert plain + [] == plain;
  }

  /** The replay loop: one pass with a cursor, stopping at the first incomplete or damaged record. */
  method ReplayJournal(crc: Crc, buf: seq<byte>) returns (r: JournalReplay)
    ensures r == ReplaySpec(crc, buf)
  {
    var plain: seq<byte> := [];
    var consumed := 0;
    assert buf[0..] == buf;
    while consumed + JOURNAL_REC_HEADER_LEN <= |buf|
      invariant consumed <= |buf|
      invariant Gathered(crc, buf, plain, consumed)
      decreases |buf| - consumed
    {
      RecordAtCursor(crc, buf, consumed);
      var recLen := GetU32(buf, consumed);
      var recCrc := GetU32(buf, consumed + 4);
      var dataStart := consumed + JOURNAL_REC_HEADER_LEN;
      var dataEnd := dataStart + recLen;
      if dataEnd > |buf| {
        break;
      }
      var payload := buf[dataStart..dataEnd];
      if crc(payload) != recCrc {
        break;
      }
      GatherOne(crc, buf, plain, consumed, payload, dataEnd);
      plain := plain + payload;
      consumed := dataEnd;
    }
    GatheredAll(crc, buf, plain, consumed);
    r := JournalReplay(plain, consumed);
  }

  function SerializeAll(crc: Crc, records: seq<seq<byte>>): seq<byte> {
    if |records| == 0 then [] else SerializeJournalRecord(crc, records[0]) + SerializeAll(crc, records[1..])
  }

  function Flatten(records: seq<seq<byte>>): seq<byte> {
    if |records| == 0 then [] else records[0] + Flatten(records[1..])
  }

  ghost predicate Encodable(records: seq<seq<byte>>) {
    forall i :: 0 <= i < |records| ==> |records[i]| < U32_LIMIT
  }

  /** The records the replay recognises. */
  function Records(crc: Crc, buf: seq<byte>): seq<seq<byte>>
    decreases |buf|
  {
    match RecordAt(crc, buf)
    case None => []
    case Some(n) =>
      [buf[JOURNAL_REC_HEADER_LEN..JOURNAL_REC_HEADER_LEN + n]] + Records(crc, buf[JOURNAL_REC_HEADER_LEN + n..])
  }

  lemma RecordAtSerialized(crc: Crc, raw: seq<byte>, rest: seq<byte>)
    requires |raw| < U32_LIMIT
    ensures RecordAt(crc, SerializeJournalRecord(crc, raw) + rest) == Some(|raw|)
    ensures var s := SerializeJournalRecord(crc, raw) + rest;
      s[JOURNAL_REC_HEADER_LEN..JOURNAL_REC_HEADER_LEN + |raw|] == raw
      && s[JOURNAL_REC_HEADER_LEN + |raw|..] == rest
  {
    var s := SerializeJournalRecord(crc, raw) + rest;
    assert s[..8 + |raw|] == SerializeJournalRecord(crc, raw);
    assert At(s, 0, SerializeJournalRecord(crc, raw));
    AtConcat(s, 0, Le32(|raw| % U32_LIMIT) + Le32(crc(raw)), raw);
    AtConcat(s, 0, Le32(|raw| % U32_LIMIT), Le32(crc(raw)));
    GetLe32(s, 0, |raw|);
    GetLe32(s, 4, crc(raw));
  }

  ghost predicate ReplaysTo(crc: Crc, buf: seq<byte>, records: seq<seq<byte>>, len: nat) {
    ReplaySpec(crc, buf) == JournalReplay(Flatten(records), len) && Records(crc, buf) == records
  }

  lemma ReplaysToCons(crc: Crc, first: seq<byte>, tail: seq<byte>, records: seq<seq<byte>>, len: nat)
    requires |first| < U32_LIMIT && ReplaysTo(crc, tail, records, len)
    ensures ReplaysTo(crc, SerializeJournalRecord(crc, first) + tail, [first] + records,
                      JOURNAL_REC_HEADER_LEN + |first| + len)
  {
    RecordAtSerialized(crc, first, tail);
    assert ([first] + records)[1..] == records;
  }

  lemma EncodableRest(records: seq<seq<byte>>)
    requires Encodable(records) && |records| > 0
    ensures Encodable(records[1..]) && |records[0]| < U32_LIMIT
  {
  }

  /** Any list of records below 2^32 bytes replays fully, whatever incomplete bytes follow. */
  lemma {:induction false} ReplaySerialized(crc: Crc, records: seq<seq<byte>>, rest: seq<byte>)
    requires Encodable(records)
    requires RecordAt(crc, rest).None?
    ensures ReplaysTo(crc, SerializeAll(crc, records) + rest, records, |SerializeAll(crc, records)|)
  {
    if |records| == 0 {
      assert [] + rest == rest;
    } else {
      hide SerializeJournalRecord, RecordAt, ReplaySpec, ReplaysTo, Encodable;
      EncodableRest(records);
      var tail := SerializeAll(crc, records[1..]) + rest;
      ReplaySerialized(crc, records[1..], rest);
      ReplaysToCons(crc, records[0], tail, records[1..], |SerializeAll(crc, records[1..])|);
      assert SerializeAll(crc, records) + rest == SerializeJournalRecord(crc, records[0]) + tail;
      assert [records[0]] + records[1..] == records;
    }
  }

  /** Parse then print: what the replay consumed is exactly the serialization of the records it
      recognised, their payloads are `plain`, and no complete record starts where it stopped. */
  lemma {:induction false} ReplayParses(crc: Crc, buf: seq<byte>)
    ensures var r := ReplaySpec(crc, buf);
      && Encodable(Records(crc, buf))
      && buf[..r.consumed] == SerializeAll(crc, Records(crc, buf))
      && r.plain == Flatten(Records(crc, buf))
      && RecordAt(crc, buf[r.consumed..]).None?
    decreases |buf|
  {
    match RecordAt(crc, buf)
    case None =>
      assert buf[0..] == buf;
    case Some(n) =>
      var k := JOURNAL_REC_HEADER_LEN + n;
      var rest := buf[k..];
      ReplayParses(crc, rest);
      var r, rr := ReplaySpec(crc, buf), ReplaySpec(crc, rest);
      RecordBytes(crc, buf);
      assert buf[..r.consumed] == buf[..k] + rest[..rr.consumed];
      assert buf[r.consumed..] == rest[rr.consumed..];
      assert Records(crc, buf)[1..] == Records(crc, rest);
  }

  /** ... and it is the serialization of no other list of records. */
  lemma RecordsUnique(crc: Crc, buf: seq<byte>, records: seq<seq<byte>>)
    requires Encodable(records)
    requires buf[..ReplaySpec(crc, buf).consumed] == SerializeAll(crc, records)
    ensures records == Records(crc, buf)
  {
    var c := ReplaySpec(crc, buf).consumed;
    ReplayParses(crc, buf);
    assert buf == buf[..c] + buf[c..];
    ReplaySerialized(crc, records, buf[c..]);
  }

  /** A record survives the round trip exactly when its length fits the 32-bit field. */
  lemma RecordRoundTrip(crc: Crc, raw: seq<byte>)
    ensures var s := SerializeJournalRecord(crc, raw);
      ReplaySpec(crc, s) == JournalReplay(raw, |s|) <==> |raw| < U32_LIMIT
  {
    var s := SerializeJournalRecord(crc, raw);
    if |raw| < U32_LIMIT {
      RecordAtSerialized(crc, raw, []);
      assert s + [] == s;
      assert ReplaySpec(crc, s) == JournalReplay(raw + [], 8 + |raw| + 0);
    } else if ReplaySpec(crc, s) == JournalReplay(raw, |s|) {
      // One record would have to carry all of `raw`, but its length field is below 2^32.
      ReplayParses(crc, s);
      var rs := Records(crc, s);
      assert s[..|s|] == s;
      SerializedLength(crc, rs);
      FlattenSingle(rs);
    }
  }

  lemma {:induction false} SerializedLength(crc: Crc, records: seq<seq<byte>>)
    ensures |SerializeAll(crc, records)| == |Flatten(records)| + JOURNAL_REC_HEADER_LEN * |records|
  {
    if |records| > 0 {
      SerializedLength(crc, records[1..]);
    }
  }

  lemma FlattenSingle(records: seq<seq<byte>>)
    requires |records| == 1
    ensures Flatten(records) == records[0]
  {
    assert Flatten(records[1..]) == [];
  }

  ghost predicate AppendsPayload(crc: Crc, region: seq<byte>, raw: seq<byte>) {
    var s := region + SerializeJournalRecord(crc, raw);
    ReplaySpec(crc, s) == JournalReplay(ReplaySpec(crc, region).plain + raw, |s|)
  }

  /** Appending one record to a fully replayable region appends its payload. */
  lemma {:induction false} ReplayAppend(crc: Crc, region: seq<byte>, raw: seq<byte>)
    requires ReplaySpec(crc, region).consumed == |region|
    requires |raw| < U32_LIMIT
    ensures AppendsPayload(crc, region, raw)
    decreases |region|
  {
    if |region| == 0 {
      ReplayAppendFirst(crc, raw);
      assert region == [];
    } else {
      ReplayAppend(crc, region[JOURNAL_REC_HEADER_LEN + RecordAt(crc, region).value..], raw);
      ReplayAppendStep(crc, region, raw);
    }
  }

  lemma ReplayAppendFirst(crc: Crc, raw: seq<byte>)
    requires |raw| < U32_LIMIT
    ensures AppendsPayload(crc, [], raw)
  {
    RecordRoundTrip(crc, raw);
    var rec := SerializeJournalRecord(crc, raw);
    assert [] + rec == rec && [] + raw == raw;
    assert ReplaySpec(crc, []) == JournalReplay([], 0);
  }

  lemma ReplayAppendStep(crc: Crc, region: seq<byte>, raw: seq<byte>)
    requires RecordAt(crc, region).Some?
    requires AppendsPayload(crc, region[JOURNAL_REC_HEADER_LEN + RecordAt(crc, region).value..], raw)
    ensures AppendsPayload(crc, region, raw)
  {
    var rec := SerializeJournalRecord(crc, raw);
    RecordAtExtended(crc, region, rec);
    var k := JOURNAL_REC_HEADER_LEN + RecordAt(crc, region).value;
    assert (region + rec)[k..] == region[k..] + rec && (region + rec)[8..k] == region[8..k];
    var head, rest := region[8..k], ReplaySpec(crc, region[k..]).plain;
    assert head + (rest + raw) == head + rest + raw;
  }
}
