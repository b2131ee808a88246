/** Where the protocol stops short of what is said of it: journal-only commits after a half-failed
    `set_block`, and the order of sequence numbers. */
module ProtocolLimits {
  import opened Bytes
  import opened Layout
  import opened Superblock
  import opened Reader
  import opened BlockIo
  import opened VersionSpec
  import opened UpdaterSpec
  import opened DiskSafety
  import opened Denotation
  import opened OpSafety
  import opened ArchiveRuns

  // ---- sequence numbers ----

  /** In every reachable state the next sequence number exceeds the active slot's and is at least the
      other slot's. */
  lemma NextSequenceNumber(crc: Crc, w: World)
    requires Inv(crc, w)
    ensures |View(w.arch.dev)| >= DATA_START && IsSlot(w.arch.up.inactiveOff)
    ensures var view, up := View(w.arch.dev), w.arch.up;
      && ReadSlot(crc, view, OtherSlot(up.inactiveOff)).Some?
      && ReadSlot(crc, view, OtherSlot(up.inactiveOff)).value.seqno == up.activeSeq
      && (ReadSlot(crc, view, up.inactiveOff).Some? ==>
          ReadSlot(crc, view, up.inactiveOff).value.seqno <= up.activeSeq + 1)
  {
    hide Settled, View;
    assert Denotes(crc, View(w.arch.dev), w.arch.up, w.draft);
    ViewSettled(crc, w.arch.dev, OtherSlot(w.arch.up.inactiveOff), w.arch.up.activeSeq, Allowed(w));
    ActiveSlotReads(crc, View(w.arch.dev), OtherSlot(w.arch.up.inactiveOff), Allowed(w));
    assert OtherSlot(OtherSlot(w.arch.up.inactiveOff)) == w.arch.up.inactiveOff;
  }

  lemma ActiveSlotReads(crc: Crc, img: seq<byte>, keep: nat, allowed: set<Version>)
    requires Settled(crc, img, keep, allowed)
    ensures ReadSlot(crc, img, keep).Some?
      && ReadSlot(crc, img, keep).value.seqno == Meaning(crc, img, keep).value.seqno
  {
  }

  /** It need not exceed both: after a commit whose second barrier fails, the slot just written carries the
      very number the next commit will use. The stable slot still has a lower one, which is all that
      recovery needs. */
  lemma NextSequenceNumberNotStrict(crc: Crc, s: Arch, d: Draft, allowed: set<Version>)
    requires ArchInv(crc, s, d, allowed) && IndexUnchanged(s.up) && s.up.activeSeq + 1 < U64_LIMIT
    requires s.dev.failWrite.None? && s.dev.failSyncAt == Some(s.dev.syncCalls + 2)
    ensures var o := CommitJournal(crc, s);
      && !o.ok && o.s.up.activeSeq == s.up.activeSeq
      && |View(o.s.dev)| >= DATA_START
      && ReadSlot(crc, View(o.s.dev), o.s.up.inactiveOff).Some?
      && ReadSlot(crc, View(o.s.dev), o.s.up.inactiveOff).value.seqno == o.s.up.activeSeq + 1
  {
    hide ArchInv, SerializeSuperblock, View, ReadSlot, Extends;
    var sb := JournalSb(s);
    CommittedHeadRepresentable(crc, s, d, allowed);
    SyncShowsSame(s.dev);
    var b1 := SyncDev(s).s;
    SlotShown(crc, b1, sb);
    SyncShowsSame(PutSlot(crc, b1, sb).s.dev);
  }

  /** The superblock a journal-only commit writes. */
  function JournalSb(s: Arch): SuperBlock
    requires s.up.activeSeq + 1 < U64_LIMIT
  {
    SbFor(s.up, |s.up.index| % U64_LIMIT, s.up.committedIndex, s.up.committedHead)
  }

  lemma ArchDisk(crc: Crc, s: Arch, d: Draft, allowed: set<Version>)
    requires ArchInv(crc, s, d, allowed)
    ensures DiskInv(crc, s.dev, OtherSlot(s.up.inactiveOff), s.up.activeSeq, allowed)
  {
  }

  lemma CommittedHeadRepresentable(crc: Crc, s: Arch, d: Draft, allowed: set<Version>)
    requires ArchInv(crc, s, d, allowed)
    ensures HeadRepresentable(s.up.committedHead) && IsSlot(s.up.inactiveOff) && |View(s.dev)| >= DATA_START
    ensures |View(s.dev)| <= MAX_FILE_LEN
  {
  }

  /** A slot write that succeeds reads back. */
  lemma SlotShown(crc: Crc, s: Arch, sb: SuperBlock)
    requires IsSlot(s.up.inactiveOff) && |View(s.dev)| >= DATA_START && HeadRepresentable(sb.headCache)
    requires PutSlot(crc, s, sb).ok
    ensures var view := View(PutSlot(crc, s, sb).s.dev);
      && |view| >= DATA_START && Extends(View(s.dev), view)
      && ReadSlot(crc, view, s.up.inactiveOff) == Some(sb)
      && SlotBytes(view, OtherSlot(s.up.inactiveOff)) == SlotBytes(View(s.dev), OtherSlot(s.up.inactiveOff))
  {
    hide SerializeSuperblock, ParseSuperblock, View, Apply;
    var bytes := SerializeSuperblock(crc, sb);
    SuperblockRoundTrip(crc, sb);
    ViewAfterWrite(s.dev, PendingWrite(s.up.inactiveOff, bytes));
    WrittenSlot(View(s.dev), s.up.inactiveOff, bytes);
  }

  // ---- journal-only commits ----

  /** What the two slots show after a journal-only commit that returned success. */
  lemma CommitJournalShows(crc: Crc, s: Arch, d: Draft, allowed: set<Version>)
    requires ArchInv(crc, s, d, allowed) && s.up.activeSeq + 1 < U64_LIMIT && CommitJournal(crc, s).ok
    ensures var view := View(CommitJournal(crc, s).s.dev);
      && |view| >= DATA_START && Extends(View(s.dev), view) && |view| == |View(s.dev)|
      && ReadSlot(crc, view, s.up.inactiveOff) == Some(JournalSb(s))
      && SlotBytes(view, OtherSlot(s.up.inactiveOff)) == SlotBytes(View(s.dev), OtherSlot(s.up.inactiveOff))
  {
    hide Settled, SlotsOk;
    var sb := JournalSb(s);
    CommittedHeadRepresentable(crc, s, d, allowed);
    SyncKeeps(crc, s.dev, OtherSlot(s.up.inactiveOff), s.up.activeSeq, allowed);
    var b1 := SyncDev(s);
    SlotShown(crc, b1.s, sb);
    SlotWriteView(b1.s.dev, s.up.inactiveOff, SerializeSuperblock(crc, sb));
    assert View(SyncDev(PutSlot(crc, b1.s, sb).s).s.dev) == View(PutSlot(crc, b1.s, sb).s.dev);
  }

  /** With the index unmarked as dirty - all that `commit_journal` asserts - the slot it publishes is
      readable exactly when the block count still agrees with the committed index. */
  lemma JournalCommitReadable(crc: Crc, s: Arch, d: Draft, allowed: set<Version>)
    requires ArchInv(crc, s, d, allowed) && s.up.activeSeq + 1 < U64_LIMIT && CommitJournal(crc, s).ok
    requires !s.up.indexDirty && |s.up.index| < U64_LIMIT
    ensures |View(CommitJournal(crc, s).s.dev)| >= DATA_START && IsSlot(s.up.inactiveOff)
    ensures TrySlot(crc, View(CommitJournal(crc, s).s.dev), s.up.inactiveOff).Some?
       <==> |s.up.index| * INDEX_ENTRY_LEN == s.up.committedIndex.len
  {
    hide Settled, SlotsOk, ParseSuperblock, CommitJournal;
    CommitJournalShows(crc, s, d, allowed);
    ModSmall(|s.up.index|, U64_LIMIT);
    if IndexUnchanged(s.up) {
      JournalSbMeans(crc, View(s.dev), s.up, d);
      ValidateFrame(crc, View(s.dev), View(CommitJournal(crc, s).s.dev), JournalSb(s));
    }
  }

  /** ... and when it is not, the commit that returned success is never read back: the archive opens to a
      version allowed before it. */
  lemma AcknowledgedYetLost(crc: Crc, s: Arch, d: Draft, allowed: set<Version>)
    requires ArchInv(crc, s, d, allowed) && s.up.activeSeq + 1 < U64_LIMIT && CommitJournal(crc, s).ok
    requires !s.up.indexDirty && |s.up.index| < U64_LIMIT
    requires |s.up.index| * INDEX_ENTRY_LEN != s.up.committedIndex.len
    ensures var view := View(CommitJournal(crc, s).s.dev);
      |view| >= DATA_START && Recovered(crc, view).Some? && Recovered(crc, view).value in allowed
  {
    hide SlotsOk, CommitJournal, ParseSuperblock;
    JournalCommitReadable(crc, s, d, allowed);
    CommitJournalShows(crc, s, d, allowed);
    var active := OtherSlot(s.up.inactiveOff);
    ViewSettled(crc, s.dev, active, s.up.activeSeq, allowed);
    assert OtherSlot(active) == s.up.inactiveOff;
    MeaningFrame(crc, View(s.dev), View(CommitJournal(crc, s).s.dev), active);
  }

  /** An archive just opened has its committed index. */
  lemma StartIndexUnchanged(crc: Crc, img: seq<byte>, w: World)
    requires Start(crc, img, w)
    ensures IndexUnchanged(w.arch.up) && w.draft.version.blocks == w.acked.blocks
    ensures w.arch.dev.failWrite.None? && w.arch.dev.failSyncAt.None?
  {
    hide ParseSuperblock, ParseIndex, IndexInData;
    assert View(FreshDevice(img)) == img;
  }

  /** How a run gets there: the second zero block of a gap cannot be written. `set_block` reports the
      failure and leaves the dirty flag down, but its first zero block stays in the index. */
  ghost function HalfFailed(crc: Crc, w: World, stored: seq<byte>, newSize: u64): World {
    var second := w.arch.up.writeCursor + w.arch.up.chunkSize;
    Step(crc, Step(crc, w, ArmWriteFailure(second, second + 1)),
         DoSetBlock(|w.arch.up.index| + 2, stored, true, newSize))
  }

  lemma SecondZeroBlockFails(crc: Crc, s: Arch, stored: seq<byte>, newSize: u64)
    requires s.up.chunkSize > 0 && s.up.writeCursor + s.up.chunkSize <= MAX_FILE_LEN
    requires var second := s.up.writeCursor + s.up.chunkSize; s.dev.failWrite == Some((second, second + 1))
    ensures var o := SetBlock(crc, s, |s.up.index| + 2, stored, true, newSize);
      && !o.ok && |o.s.up.index| == |s.up.index| + 1
      && o.s.up == s.up.(writeCursor := o.s.up.writeCursor, index := o.s.up.index)
      && o.s.dev.failWrite.None? && o.s.dev.failSyncAt == s.dev.failSyncAt
  {
    var zeros := Zeros(s.up.chunkSize);
    var p1 := PutData(s, zeros);
    assert p1.ok;
    var s2 := p1.s.(up := p1.s.up.(index := s.up.index + [EntryFor(crc, s.up.writeCursor, zeros, true)]));
    var p2 := PutData(s2, zeros);
    assert !p2.ok && p2.s.up == s2.up;
    GapFails(crc, s2, |s.up.index| + 2);
    assert FillGap(crc, s, |s.up.index| + 2) == FillGap(crc, s2, |s.up.index| + 2);
  }

  lemma GapFails(crc: Crc, s: Arch, idx: nat)
    requires |s.up.index| < idx && !PutData(s, Zeros(s.up.chunkSize)).ok
    ensures FillGap(crc, s, idx) == PutData(s, Zeros(s.up.chunkSize))
  {
  }

  /** A commit that returns success and is not what comes back. */
  ghost predicate LosesCommit(crc: Crc, w: World, before: Version) {
    && w.arch.up.activeSeq + 1 < U64_LIMIT && !w.arch.up.indexDirty
    && var o := CommitJournal(crc, w.arch);
    && o.ok && |View(o.s.dev)| >= DATA_START
    && Recovered(crc, View(o.s.dev)) == Some(before) && before != Publishing(w.draft)
  }

  /** From any archive whose index is the committed one: after the half-failed `set_block` a journal-only
      commit passes its assertion, returns success, and the archive still opens to the old version. */
  lemma JournalCommitCanBeLost(crc: Crc, w: World, stored: seq<byte>, newSize: u64)
    requires Inv(crc, w) && w.attempted == {} && IndexUnchanged(w.arch.up) && w.draft.version.blocks == w.acked.blocks
    requires w.arch.up.writeCursor + w.arch.up.chunkSize <= MAX_FILE_LEN
    requires w.arch.dev.failSyncAt.None? && w.arch.up.activeSeq + 1 < U64_LIMIT && |w.arch.up.index| + 1 < U64_LIMIT
    ensures LosesCommit(crc, HalfFailed(crc, w, stored, newSize), w.acked)
  {
    hide ArchInv, FillGap, SetBlock, CommitJournal, PadTo, WithBlock, View, Recovered;
    var second := w.arch.up.writeCursor + w.arch.up.chunkSize;
    var a1 := ArmWriteFailure(second, second + 1);
    var w1 := Step(crc, w, a1);
    var a2 := DoSetBlock(|w.arch.up.index| + 2, stored, true, newSize);
    var w2 := Step(crc, w1, a2);
    StepInv(crc, w, a1);
    StepInv(crc, w1, a2);
    BlocksCount(crc, w);
    SecondZeroBlockFails(crc, w1.arch, stored, newSize);
    CommitJournalUnfaulted(crc, w2);
    assert Allowed(w2) == {w.acked};
    AcknowledgedYetLost(crc, w2.arch, w2.draft, Allowed(w2));
    assert |w2.draft.version.blocks| == |w.draft.version.blocks| + 1;
  }

  lemma BlocksCount(crc: Crc, w: World)
    requires Inv(crc, w)
    ensures |w.draft.version.blocks| == |w.arch.up.index| && w.arch.up.chunkSize > 0
  {
  }

  lemma CommitJournalUnfaulted(crc: Crc, w: World)
    requires Inv(crc, w) && w.arch.up.activeSeq + 1 < U64_LIMIT
    requires w.arch.dev.failWrite.None? && w.arch.dev.failSyncAt.None?
    ensures CommitJournal(crc, w.arch).ok
  {
    hide DiskInv;
    assert IsSlot(w.arch.up.inactiveOff);
  }

  /** So it goes from every archive just opened, given room for one zero block. */
  lemma OpenedCommitCanBeLost(crc: Crc, img: seq<byte>, w: World, stored: seq<byte>, newSize: u64)
    requires Start(crc, img, w) && w.arch.up.activeSeq + 1 < U64_LIMIT
    requires |img| + w.arch.up.chunkSize <= MAX_FILE_LEN && |w.arch.up.index| + 1 < U64_LIMIT
    ensures LosesCommit(crc, HalfFailed(crc, w, stored, newSize), w.acked)
  {
    hide Inv, ArchInv, LosesCommit, Recovered, HalfFailed;
    StartInv(crc, img, w);
    StartIndexUnchanged(crc, img, w);
    StartCursor(crc, img, w);
    JournalCommitCanBeLost(crc, w, stored, newSize);
  }

  lemma StartCursor(crc: Crc, img: seq<byte>, w: World)
    requires Start(crc, img, w)
    ensures w.arch.up.writeCursor == |img|
  {
    hide Recovered, LoadActiveSpec, IndexInData;
    assert View(FreshDevice(img)) == img;
  }
}
