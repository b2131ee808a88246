/** The protocol also gets somewhere: every sound archive starts a run, and without armed failures a commit fails only
    for want of room (archive/updater.rs). */
module ProtocolProgress {
  import opened Bytes
  import opened Layout
  import opened Superblock
  import opened Reader
  import opened BlockIo
  import opened VersionSpec
  import opened UpdaterSpec
  import opened DiskSafety
  import opened Denotation
  import opened ArchiveRuns

  /** Every sound archive opens into a state that runs may start from. */
  lemma SoundStarts(crc: Crc, img: seq<byte>) returns (w: World)
    requires Sound(crc, img)
    ensures Start(crc, img, w) && Inv(crc, w)
  {
    hide ParseSuperblock, Validate, TrySlot, Inv;
    var dev := FreshDevice(img);
    assert View(dev) == img;
    var (arch, v) := Opened(crc, dev).value;
    w := World(arch, Draft(v, v.head), v, {});
    StartInv(crc, img, w);
  }

  /** The room a full commit needs past the cursor. */
  function CommitRoom(up: Updater): nat {
    (if up.headCache.Some? then |up.headCache.value.stored| else 0) + |IndexBytes(up.index)|
  }

  /** On a device with nothing armed a full commit succeeds exactly if head cache and index fit in the file. */
  lemma CommitSucceeds(crc: Crc, w: World)
    requires Inv(crc, w) && w.arch.up.activeSeq + 1 < U64_LIMIT && w.arch.up.writeCursor <= MAX_FILE_LEN
    requires w.arch.dev.failWrite.None? && w.arch.dev.failSyncAt.None?
    ensures Commit(crc, w.arch).ok <==> w.arch.up.writeCursor + CommitRoom(w.arch.up) <= MAX_FILE_LEN
  {
    hide DiskInv, IndexBytes, SerializeSuperblock;
    assert IsSlot(w.arch.up.inactiveOff);
  }

  /** What was committed on such a device comes back after any power loss. */
  lemma CommittedComesBack(crc: Crc, w: World, fates: seq<Fate>)
    requires Inv(crc, w) && Enabled(crc, w, DoCommit)
    requires w.arch.dev.failWrite.None? && w.arch.dev.failSyncAt.None?
    requires w.arch.up.writeCursor + CommitRoom(w.arch.up) <= MAX_FILE_LEN
    requires PowerLossPossible(crc, Step(crc, w, DoCommit).arch.dev, fates)
    ensures var dev := Step(crc, w, DoCommit).arch.dev;
      var img := CrashImage(dev.durable, dev.dirty, fates);
      |img| >= DATA_START && Recovered(crc, img) == Some(w.draft.version)
  {
    hide Inv, Commit, Recovered, Opened;
    CommitSucceeds(crc, w);
    StepInv(crc, w, DoCommit);
    PowerLossInv(crc, Step(crc, w, DoCommit), fates);
  }

  /** The file grows by exactly the head cache and the index. */
  lemma CommitLengthens(crc: Crc, w: World)
    requires Inv(crc, w) && Enabled(crc, w, DoCommit) && Commit(crc, w.arch).ok
    ensures |View(Commit(crc, w.arch).s.dev)| == w.arch.up.writeCursor + CommitRoom(w.arch.up)
  {
    hide DiskInv, IndexBytes, SerializeSuperblock, View;
    StepInv(crc, w, DoCommit);
    var s2 := Commit(crc, w.arch).s;
    CursorAtEnd(crc, View(s2.dev), s2.up, Draft(w.draft.version, w.draft.version.head));
  }
}
