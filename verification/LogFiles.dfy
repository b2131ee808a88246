/** End to end, for the files the system is made for: a log that only grows, fsynced anywhere, always reads back
    exactly, through tail buffer, compression, store and block cache (wsession.rs, rwfs.rs). */
module LogFiles {
  import opened Bytes
  import opened Codec
  import opened Chunk
  import opened Stores
  import opened Rmw
  import opened Session
  import opened SessionRuns
  import opened BlockCaches
  import opened ReadPath

  /** With every block before the end full, no read fails. */
  lemma FullFilesRead(z: Zstd, f: FileData, t: Option<Tail>, offset: nat, size: nat)
    requires f.chunkSize > 0 && FullBelow(z, f, BlockAt(|Content(z, f, t)|, f.chunkSize))
    ensures ReadSpec(z, f, t, offset, size).Data?
  {
    hide Content, Plain, BlockStart, BlockAt, ReadSpec;
    var end := |Content(z, f, t)|;
    forall i: nat ensures InteriorBlockFull(z, f, t, i) {
      if BlockStart(i, f.chunkSize) + f.chunkSize < end {
        var b := BlockAt(end, f.chunkSize);
        InBlock(end, b, f.chunkSize);
        if b < i { BlockSpan(b, i, f.chunkSize); }
      }
    }
    ReadsNeverFail(z, f, t);
  }

  /** A growing log at any point of its life: after any appends and fsyncs since the file was created, any read
      returns exactly what was appended there, clipped to the end. */
  method ReadLog(session: WriteSession, store: Store, cache: BlockCache, ino: nat, chunkSize: nat, ops: seq<Op>,
      offset: nat, size: nat)
    returns (r: ReadResult)
    requires session.enabled && session.tail == None && ino !in store.files
    requires 0 < chunkSize && RoundTrips(store.z, chunkSize) && AppendOnly([], ops) && InRange([], ops)
    requires cache.Valid() && forall k :: k in cache.nodes ==> k.ino != ino
    modifies session, cache, store`files, store`compressCount
    ensures var log := Joined(ops);
      r == Data(log[Min(offset, |log|)..Min(offset + size, |log|)])
  {
    hide SessionOk, FileOk, FullBelow, KeptBelow, RunFlat, Joined, AppendOnly, InRange, Indexed, ByIno, ListOf,
      TotalBytes, BlockAt;
    store.Create(ino, chunkSize);
    NoTail(store.z, store.files[ino]);
    ghost var f0 := store.files[ino];
    StartsFull(store.z, f0);
    var results := RunAll(session, store, ino, ops);
    AppendsJoin([], ops);
    assert [] + Joined(ops) == Joined(ops);
    FullFilesRead(store.z, store.files[ino], session.tail, offset, size);
    DataIsExact(store.z, store.files[ino], session.tail, offset, size);
    r := ReadRange(session, store, cache, ino, offset, size);
  }

  lemma StartsFull(z: Zstd, f: FileData)
    requires f.chunkSize > 0
    ensures FullBelow(z, f, BlockAt(0, f.chunkSize))
  {
    InBlock(0, 0, f.chunkSize);
  }
}
