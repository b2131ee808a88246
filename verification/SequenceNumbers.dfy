/** When the next sequence number exceeds both slots' numbers: exactly while no commit has lost its second barrier since
    the archive was last opened or committed (archive/updater.rs). */
module SequenceNumbers {
  import opened Bytes
  import opened Layout
  import opened Superblock
  import opened Journal
  import opened Reader
  import opened BlockIo
  import opened VersionSpec
  import opened UpdaterSpec
  import opened DiskSafety
  import opened Denotation
  import opened OpSafety
  import opened ArchiveRuns
  import opened CrashTheorems
  import opened ProtocolLimits
  import opened ArchiveUpdaters

  /** The number the next commit will use is above that of the slot it will write; the other slot's is the active
      number itself. */
  ghost predicate Strict(crc: Crc, s: Arch) {
    && |View(s.dev)| >= DATA_START && IsSlot(s.up.inactiveOff)
    && SeqAtMost(crc, View(s.dev), s.up.inactiveOff, s.up.activeSeq)
  }

  /** The number the next commit will use exceeds every number either slot carries. */
  ghost predicate ExceedsBoth(crc: Crc, s: Arch) {
    |View(s.dev)| >= DATA_START
    && forall slot: nat | IsSlot(slot) && ReadSlot(crc, View(s.dev), slot).Some? ::
         ReadSlot(crc, View(s.dev), slot).value.seqno < s.up.activeSeq + 1
  }

  /** In every reachable state only the slot to be written is in question. */
  lemma StrictIsExceedsBoth(crc: Crc, w: World)
    requires Inv(crc, w)
    ensures Strict(crc, w.arch) <==> ExceedsBoth(crc, w.arch)
  {
    hide Inv, View, ParseSuperblock, ReadSlot;
    NextSequenceNumber(crc, w);
    var slot := w.arch.up.inactiveOff;
    assert forall other: nat :: IsSlot(other) ==> other == slot || other == OtherSlot(slot);
  }

  // ---- what each operation does to the slots ----

  /** Neither slot nor which one is active has changed. */
  ghost predicate SameSlots(s: Arch, t: Arch) {
    && |View(s.dev)| >= DATA_START && |View(t.dev)| >= DATA_START
    && t.up.inactiveOff == s.up.inactiveOff && t.up.activeSeq == s.up.activeSeq
    && t.up.writeCursor >= s.up.writeCursor
    && forall slot: nat | IsSlot(slot) :: SlotBytes(View(t.dev), slot) == SlotBytes(View(s.dev), slot)
  }

  ghost predicate PastSlots(s: Arch) {
    |View(s.dev)| >= DATA_START && s.up.writeCursor >= DATA_START
  }

  lemma SameSlotsStrict(crc: Crc, s: Arch, t: Arch)
    requires SameSlots(s, t)
    ensures Strict(crc, s) <==> Strict(crc, t)
  {
    hide ParseSuperblock, View;
    if IsSlot(s.up.inactiveOff) {
      assert SlotBytes(View(t.dev), s.up.inactiveOff) == SlotBytes(View(s.dev), s.up.inactiveOff);
    }
  }

  lemma SameSlotsTwice(s: Arch, t: Arch, u: Arch)
    requires SameSlots(s, t) && SameSlots(t, u)
    ensures SameSlots(s, u)
  {
  }

  lemma PutDataSlots(s: Arch, bytes: seq<byte>)
    requires PastSlots(s)
    ensures SameSlots(s, PutData(s, bytes).s) && PastSlots(PutData(s, bytes).s)
  {
    hide View, Apply;
    var o := PutData(s, bytes);
    if o.ok {
      var off := s.up.writeCursor;
      ViewAfterWrite(s.dev, PendingWrite(off, bytes));
      forall slot: nat | IsSlot(slot) ensures SlotBytes(View(o.s.dev), slot) == SlotBytes(View(s.dev), slot) {
        ApplyElsewhere(View(s.dev), off, bytes, slot, slot + SB_LEN);
      }
      ApplyElsewhere(View(s.dev), off, bytes, 0, DATA_START);
    } else {
      assert View(o.s.dev) == View(s.dev) by { SameWrites(s.dev, o.s.dev); }
    }
  }

  lemma SyncSlots(s: Arch)
    ensures View(SyncDev(s).s.dev) == View(s.dev)
  {
    hide View;
    SyncShowsSame(s.dev);
  }

  lemma {:induction false} FillGapSlots(crc: Crc, s: Arch, idx: nat)
    requires PastSlots(s)
    ensures SameSlots(s, FillGap(crc, s, idx).s) && PastSlots(FillGap(crc, s, idx).s)
    decreases idx - |s.up.index|
  {
    hide View, PutData;
    if |s.up.index| < idx {
      var zeros := Zeros(s.up.chunkSize);
      PutDataSlots(s, zeros);
      var w := PutData(s, zeros);
      if w.ok {
        var s1 := w.s.(up := w.s.up.(index := w.s.up.index + [EntryFor(crc, s.up.writeCursor, zeros, true)]));
        PutDataIndex(s, zeros);
        FillGapSlots(crc, s1, idx);
        SameSlotsTwice(s, s1, FillGap(crc, s1, idx).s);
      }
    }
  }

  lemma PutDataIndex(s: Arch, bytes: seq<byte>)
    ensures PutData(s, bytes).s.up.index == s.up.index
  {
  }

  lemma SetBlockSlots(crc: Crc, s: Arch, idx: nat, stored: seq<byte>, verbatim: bool, newSize: u64)
    requires PastSlots(s)
    ensures SameSlots(s, SetBlock(crc, s, idx, stored, verbatim, newSize).s)
  {
    hide View, FillGap;
    FillGapSlots(crc, s, idx);
    var g := FillGap(crc, s, idx);
    if g.ok {
      PutDataSlots(g.s, stored);
      SameSlotsTwice(s, g.s, PutData(g.s, stored).s);
    }
  }

  lemma AppendJournalSlots(crc: Crc, s: Arch, delta: seq<byte>)
    requires PastSlots(s) && JournalFieldsOk(s.up) && s.up.writeCursor <= MAX_FILE_LEN
    ensures SameSlots(s, AppendJournal(crc, s, delta).s)
  {
    hide View, SerializeJournalRecord;
    var r := RelocateJournal(s);
    if s.up.journalOffset.Some? {
      var copy := ReadExact(View(s.dev), s.up.journalOffset.value, s.up.journalLen);
      if copy.Some? { PutDataSlots(s, copy.value); }
    }
    assert SameSlots(s, r.s) && PastSlots(r.s);
    if r.ok {
      var s1 := r.s.(up := StartJournal(r.s.up));
      PutDataSlots(s1, SerializeJournalRecord(crc, delta));
    }
  }

  lemma PutIndexSlots(s: Arch)
    requires PastSlots(s)
    ensures SameSlots(s, PutIndex(s).s) && PastSlots(PutIndex(s).s)
  {
    hide View, IndexBytes;
    if s.up.headCache.Some? { PutDataSlots(s, s.up.headCache.value.stored); }
    var h := PutHead(s);
    if h.ok { PutDataSlots(h.s, IndexBytes(s.up.index)); }
  }

  /** The slot write of a commit went out. */
  predicate SlotWritten(crc: Crc, s: Arch, sb: SuperBlock) {
    SyncDev(s).ok && PutSlot(crc, SyncDev(s).s, sb).ok
  }

  /** The other slot stays; the one written shows the new number if the write went out, and is unchanged if not. */
  lemma PublishSlots(crc: Crc, s: Arch, sb: SuperBlock)
    requires |View(s.dev)| >= DATA_START && IsSlot(s.up.inactiveOff)
    ensures var o := Publish(crc, s, sb);
      && o.s.up == s.up && |View(o.s.dev)| >= DATA_START
      && SlotBytes(View(o.s.dev), OtherSlot(s.up.inactiveOff)) == SlotBytes(View(s.dev), OtherSlot(s.up.inactiveOff))
      && (o.ok ==> SlotWritten(crc, s, sb))
      && (!SlotWritten(crc, s, sb) ==> SameSlots(s, o.s))
      && (SlotWritten(crc, s, sb) ==>
            && ReadSlot(crc, View(o.s.dev), s.up.inactiveOff).Some?
            && ReadSlot(crc, View(o.s.dev), s.up.inactiveOff).value.seqno == sb.seqno)
  {
    hide View, SerializeSuperblock, ParseSuperblock, Apply;
    var b1 := SyncDev(s);
    SyncSlots(s);
    if b1.ok {
      var bytes := SerializeSuperblock(crc, sb);
      var slot := s.up.inactiveOff;
      var w := PutSlot(crc, b1.s, sb);
      if w.ok {
        ViewAfterWrite(b1.s.dev, PendingWrite(slot, bytes));
        var view := View(w.s.dev);
        WrittenSlot(View(s.dev), slot, bytes);
        SuperblockRoundTrip(crc, sb);
        SyncSlots(w.s);
      } else {
        SameWrites(b1.s.dev, w.s.dev);
      }
    }
  }

  // ---- the events ----

  /** The commit's slot write went out and its second barrier failed. */
  ghost predicate LosesBarrier(crc: Crc, w: World, a: Action)
    requires Steppable(w, a)
  {
    match a
    case DoCommit =>
      PutIndex(w.arch).ok && SlotWritten(crc, PutIndex(w.arch).s, CommitSb(crc, w.arch)) && !Commit(crc, w.arch).ok
    case DoCommitJournal => SlotWritten(crc, w.arch, JournalSb(w.arch)) && !CommitJournal(crc, w.arch).ok
    case _ => false
  }

  /** The archive is opened anew, or a commit succeeds. */
  ghost predicate Restarts(crc: Crc, w: World, a: Action)
    requires Enabled(crc, w, a)
  {
    a.Reopen? || a.PowerLoss? || (IsCommit(a) && CommitOk(crc, w, a))
  }

  lemma CommitJournalStrict(crc: Crc, w: World)
    requires Inv(crc, w) && Enabled(crc, w, DoCommitJournal)
    ensures Strict(crc, Step(crc, w, DoCommitJournal).arch)
       <==> !LosesBarrier(crc, w, DoCommitJournal) && (Strict(crc, w.arch) || CommitJournal(crc, w.arch).ok)
  {
    hide Inv, View, Publish, SlotWritten, ReadSlot;
    var s := w.arch;
    NextSequenceNumber(crc, w);
    PublishSlots(crc, s, JournalSb(s));
    CommitStrict(crc, s, s, JournalSb(s), CommitJournal(crc, s));
  }

  lemma CommitFullStrict(crc: Crc, w: World)
    requires Inv(crc, w) && Enabled(crc, w, DoCommit)
    ensures Strict(crc, Step(crc, w, DoCommit).arch)
       <==> !LosesBarrier(crc, w, DoCommit) && (Strict(crc, w.arch) || Commit(crc, w.arch).ok)
  {
    hide Inv, View, Publish, SlotWritten, ReadSlot, PutIndex, CommitSb, NewIndexDesc, HeadDesc;
    var s := w.arch;
    NextSequenceNumber(crc, w);
    InvPastSlots(crc, w);
    PutIndexSlots(s);
    var i := PutIndex(s);
    if i.ok {
      PublishSlots(crc, i.s, CommitSb(crc, s));
      CommitSbSeq(crc, s);
      CommitStrict(crc, s, i.s, CommitSb(crc, s), Commit(crc, s));
    } else {
      SameSlotsStrict(crc, s, i.s);
    }
  }

  lemma CommitSbSeq(crc: Crc, s: Arch)
    requires PutIndex(s).ok && s.up.writeCursor <= MAX_FILE_LEN && s.up.activeSeq + 1 < U64_LIMIT
    ensures CommitSb(crc, s).seqno == s.up.activeSeq + 1
  {
  }

  lemma InvPastSlots(crc: Crc, w: World)
    requires Inv(crc, w)
    ensures PastSlots(w.arch)
  {
    hide DiskInv, View;
  }

  /** The end both commits share: `o` is `Publish` of `sb` after `mid`, with the slots swapped on success. */
  lemma CommitStrict(crc: Crc, s: Arch, mid: Arch, sb: SuperBlock, o: Outcome)
    requires |View(s.dev)| >= DATA_START && IsSlot(s.up.inactiveOff) && SameSlots(s, mid)
    requires ReadSlot(crc, View(s.dev), OtherSlot(s.up.inactiveOff)).Some?
    requires ReadSlot(crc, View(s.dev), OtherSlot(s.up.inactiveOff)).value.seqno == s.up.activeSeq
    requires sb.seqno == s.up.activeSeq + 1
    requires var p := Publish(crc, mid, sb);
      && o.ok == p.ok && o.s.dev == p.s.dev
      && o.s.up.activeSeq == (if o.ok then sb.seqno else s.up.activeSeq)
      && o.s.up.inactiveOff == (if o.ok then OtherSlot(s.up.inactiveOff) else s.up.inactiveOff)
    ensures Strict(crc, o.s) <==> !(SlotWritten(crc, mid, sb) && !o.ok) && (Strict(crc, s) || o.ok)
  {
    hide View, Publish, SlotWritten, ParseSuperblock;
    PublishSlots(crc, mid, sb);
    var slot := s.up.inactiveOff;
    assert SlotBytes(View(mid.dev), OtherSlot(slot)) == SlotBytes(View(s.dev), OtherSlot(slot));
    if !SlotWritten(crc, mid, sb) {
      assert SlotBytes(View(o.s.dev), slot) == SlotBytes(View(mid.dev), slot);
    }
  }

  /** Whatever image a power loss or the running process leaves, opening it is strict: the slot not chosen, if it
      parses at all, is valid, and a higher number would have been chosen. */
  lemma OpenedStrict(crc: Crc, dev: FaultState, keep: nat, allowed: set<Version>)
    requires Settled(crc, View(dev), keep, allowed) && Opened(crc, dev).Some?
    ensures Strict(crc, Opened(crc, dev).value.0)
  {
    hide View, ParseSuperblock, Validate;
    var act := LoadActiveSpec(crc, View(dev)).value;
    assert act.slot == keep || act.slot == OtherSlot(keep);
    assert OtherSlot(OtherSlot(keep)) == keep;
  }

  lemma ReopenStrict(crc: Crc, w: World)
    requires Inv(crc, w)
    ensures Strict(crc, Step(crc, w, Reopen).arch)
  {
    hide Settled, Opened, Strict, View, ArchInv, DiskInv, SeqAtMost, Meaning;
    ReopenInv(crc, w);
    ArchDisk(crc, w.arch, w.draft, Allowed(w));
    ViewSettled(crc, w.arch.dev, OtherSlot(w.arch.up.inactiveOff), w.arch.up.activeSeq, Allowed(w));
    OpenedStrict(crc, w.arch.dev, OtherSlot(w.arch.up.inactiveOff), Allowed(w));
  }

  lemma PowerLossStrict(crc: Crc, w: World, fates: seq<Fate>)
    requires Inv(crc, w) && PowerLossPossible(crc, w.arch.dev, fates)
    ensures Strict(crc, Step(crc, w, PowerLoss(fates)).arch)
  {
    hide Settled, Opened, Strict, ArchInv, DiskInv, Recovered, CrashImage, TearingDetected;
    var dev := w.arch.dev;
    var active := OtherSlot(w.arch.up.inactiveOff);
    PowerLossInv(crc, w, fates);
    ArchDisk(crc, w.arch, w.draft, Allowed(w));
    CrashSettled(crc, dev, active, w.arch.up.activeSeq, Allowed(w), fates);
    var img := CrashImage(dev.durable, dev.dirty, fates);
    assert View(FreshDevice(img)) == img;
    OpenedStrict(crc, FreshDevice(img), StableSlot(dev, active), Allowed(w));
  }

  /** Every action that neither commits nor opens leaves both slots and their roles as they were. */
  lemma OtherSlots(crc: Crc, w: World, a: Action)
    requires Inv(crc, w) && Enabled(crc, w, a) && !IsCommit(a) && !a.Reopen? && !a.PowerLoss?
    ensures SameSlots(w.arch, Step(crc, w, a).arch)
  {
    hide Inv, View, SetBlock, AppendJournal, PadTo, WithBlock;
    InvPastSlots(crc, w);
    match a
    case ArmWriteFailure(_, _) => SameWrites(w.arch.dev, Step(crc, w, a).arch.dev);
    case ArmSyncFailure(_) => SameWrites(w.arch.dev, Step(crc, w, a).arch.dev);
    case DoSetBlock(idx, stored, verbatim, newSize) => SetBlockSlots(crc, w.arch, idx, stored, verbatim, newSize);
    case DoAppendJournal(delta) => AppendJournalSlots(crc, w.arch, delta);
    case DoSync => SyncSlots(w.arch);
    case _ =>
  }

  /** Action by action: strict afterwards exactly if this was no commit that lost its second barrier, and either it
      was strict before or this opened the archive or committed. */
  lemma StepStrict(crc: Crc, w: World, a: Action)
    requires Inv(crc, w) && Enabled(crc, w, a)
    ensures Strict(crc, Step(crc, w, a).arch)
       <==> !LosesBarrier(crc, w, a) && (Strict(crc, w.arch) || Restarts(crc, w, a))
  {
    hide Inv, Strict, Step, CommitJournal, Commit, PowerLossPossible;
    match a
    case DoCommit => CommitFullStrict(crc, w);
    case DoCommitJournal => CommitJournalStrict(crc, w);
    case Reopen => ReopenStrict(crc, w);
    case PowerLoss(fates) => PowerLossStrict(crc, w, fates);
    case _ =>
      OtherSlots(crc, w, a);
      SameSlotsStrict(crc, w.arch, Step(crc, w, a).arch);
  }

  // ---- runs ----

  /** The `i`-th action of a run loses its second barrier. */
  ghost predicate LosesAt(crc: Crc, w: World, run: seq<Action>, i: nat)
    requires Runs(crc, w, run) && i < |run|
    decreases i
  {
    if i == 0 then LosesBarrier(crc, w, run[0]) else LosesAt(crc, Step(crc, w, run[0]), run[1..], i - 1)
  }

  ghost predicate RestartsAt(crc: Crc, w: World, run: seq<Action>, i: nat)
    requires Runs(crc, w, run) && i < |run|
    decreases i
  {
    if i == 0 then Restarts(crc, w, run[0]) else RestartsAt(crc, Step(crc, w, run[0]), run[1..], i - 1)
  }

  /** Some commit has lost its second barrier, and the archive has not been opened or committed since. */
  ghost predicate LostSince(crc: Crc, w: World, run: seq<Action>)
    requires Runs(crc, w, run)
  {
    exists i: nat :: LostAfter(crc, w, run, i)
  }

  ghost predicate LostAfter(crc: Crc, w: World, run: seq<Action>, i: nat)
    requires Runs(crc, w, run)
  {
    i < |run| && LosesAt(crc, w, run, i) && forall j: nat | i < j < |run| :: !RestartsAt(crc, w, run, j)
  }

  ghost predicate Restarted(crc: Crc, w: World, run: seq<Action>)
    requires Runs(crc, w, run)
  {
    exists j: nat :: j < |run| && RestartsAt(crc, w, run, j)
  }

  lemma Later(crc: Crc, w: World, run: seq<Action>, j: nat)
    requires Runs(crc, w, run) && 0 < |run| && j < |run| - 1
    ensures var w1 := Step(crc, w, run[0]);
      && (LosesAt(crc, w, run, j + 1) <==> LosesAt(crc, w1, run[1..], j))
      && (RestartsAt(crc, w, run, j + 1) <==> RestartsAt(crc, w1, run[1..], j))
  {
  }

  lemma RestartedUnfolds(crc: Crc, w: World, run: seq<Action>)
    requires Runs(crc, w, run) && |run| > 0
    ensures Restarted(crc, w, run) <==> Restarts(crc, w, run[0]) || Restarted(crc, Step(crc, w, run[0]), run[1..])
  {
    hide Step, Restarts, Enabled, LosesBarrier;
    var w1, rest := Step(crc, w, run[0]), run[1..];
    if j: nat :| j < |rest| && RestartsAt(crc, w1, rest, j) {
      Later(crc, w, run, j);
      assert RestartsAt(crc, w, run, j + 1);
    }
    if Restarts(crc, w, run[0]) {
      assert RestartsAt(crc, w, run, 0);
    }
    if j: nat :| j < |run| && RestartsAt(crc, w, run, j) {
      if j > 0 { Later(crc, w, run, j - 1); }
    }
  }

  lemma LostUnfolds(crc: Crc, w: World, run: seq<Action>)
    requires Runs(crc, w, run) && |run| > 0
    ensures var w1, rest := Step(crc, w, run[0]), run[1..];
      LostSince(crc, w, run) <==>
        (LosesBarrier(crc, w, run[0]) && !Restarted(crc, w1, rest)) || LostSince(crc, w1, rest)
  {
    hide Step, Restarts, Enabled, LosesBarrier;
    var w1, rest := Step(crc, w, run[0]), run[1..];
    forall j: nat | j < |rest| ensures RestartsAt(crc, w, run, j + 1) <==> RestartsAt(crc, w1, rest, j) {
      Later(crc, w, run, j);
    }
    forall i: nat ensures LostAfter(crc, w, run, i + 1) <==> LostAfter(crc, w1, rest, i) {
      LostShift(crc, w, run, i);
    }
    if LosesBarrier(crc, w, run[0]) && !Restarted(crc, w1, rest) {
      forall j: nat | 0 < j < |run| ensures !RestartsAt(crc, w, run, j) { Later(crc, w, run, j - 1); }
      assert LostAfter(crc, w, run, 0);
    }
    if i: nat :| LostAfter(crc, w1, rest, i) { assert LostAfter(crc, w, run, i + 1); }
    if i: nat :| LostAfter(crc, w, run, i) {
      if i > 0 {
        assert LostAfter(crc, w1, rest, i - 1);
      } else {
        forall j: nat | j < |rest| ensures !RestartsAt(crc, w1, rest, j) { assert !RestartsAt(crc, w, run, j + 1); }
      }
    }
  }

  lemma LostShift(crc: Crc, w: World, run: seq<Action>, i: nat)
    requires Runs(crc, w, run) && |run| > 0
    ensures LostAfter(crc, w, run, i + 1) <==> LostAfter(crc, Step(crc, w, run[0]), run[1..], i)
  {
    hide Step, Restarts, Enabled, LosesBarrier;
    var w1, rest := Step(crc, w, run[0]), run[1..];
    if i < |rest| {
      Later(crc, w, run, i);
      forall j: nat | i < j < |rest| ensures RestartsAt(crc, w, run, j + 1) <==> RestartsAt(crc, w1, rest, j) {
        Later(crc, w, run, j);
      }
      if LostAfter(crc, w1, rest, i) {
        forall j: nat | i + 1 < j < |run| ensures !RestartsAt(crc, w, run, j) { Later(crc, w, run, j - 1); }
      }
      if LostAfter(crc, w, run, i + 1) {
        forall j: nat | i < j < |rest| ensures !RestartsAt(crc, w1, rest, j) { assert !RestartsAt(crc, w, run, j + 1); }
      }
    }
  }

  /** Run by run, from any reachable state: strict exactly if nothing has been lost since the last restart, and there
      was a restart or it was strict at first. */
  lemma {:induction false} RunStrict(crc: Crc, w: World, run: seq<Action>)
    requires Inv(crc, w) && Runs(crc, w, run)
    ensures Strict(crc, Run(crc, w, run).arch)
       <==> !LostSince(crc, w, run) && (Strict(crc, w.arch) || Restarted(crc, w, run))
    decreases |run|
  {
    hide Inv, Strict, Step, Enabled, LosesBarrier, Restarts, LostSince, Restarted;
    if |run| == 0 {
      NothingYet(crc, w, run);
    } else {
      StepStrict(crc, w, run[0]);
      StepInv(crc, w, run[0]);
      RunStrict(crc, Step(crc, w, run[0]), run[1..]);
      RestartedUnfolds(crc, w, run);
      LostUnfolds(crc, w, run);
      LosesOrRestarts(crc, w, run[0]);
    }
  }

  lemma LosesOrRestarts(crc: Crc, w: World, a: Action)
    requires Enabled(crc, w, a)
    ensures !(LosesBarrier(crc, w, a) && Restarts(crc, w, a))
  {
  }

  lemma NothingYet(crc: Crc, w: World, run: seq<Action>)
    requires |run| == 0
    ensures !LostSince(crc, w, run) && !Restarted(crc, w, run)
  {
  }

  /** From any archive just opened, whatever runs: the next sequence number exceeds both slots' numbers if and only
      if no commit has lost its second barrier since the archive was last opened or committed. */
  lemma NextExceedsBoth(crc: Crc, img: seq<byte>, w: World, run: seq<Action>)
    requires Start(crc, img, w) && Runs(crc, w, run)
    ensures ExceedsBoth(crc, Run(crc, w, run).arch) <==> !LostSince(crc, w, run)
  {
    hide Inv, Strict, ExceedsBoth, Step, LostSince, Restarted, Run;
    StartInv(crc, img, w);
    StartStrict(crc, img, w);
    RunStrict(crc, w, run);
    RunInv(crc, w, run);
    StrictIsExceedsBoth(crc, Run(crc, w, run));
  }

  lemma StartStrict(crc: Crc, img: seq<byte>, w: World)
    requires Start(crc, img, w)
    ensures Strict(crc, w.arch)
  {
    hide Validate, ParseSuperblock;
    assert View(FreshDevice(img)) == img;
  }

  lemma StepArmSync(crc: Crc, w: World, n: nat)
    ensures Step(crc, w, ArmSyncFailure(n))
      == w.(arch := w.arch.(dev := w.arch.dev.(failSyncAt := Some(w.arch.dev.syncCalls + n))))
  {
  }

  lemma StepCommitJournal(crc: Crc, w: World)
    requires Steppable(w, DoCommitJournal)
    ensures Step(crc, w, DoCommitJournal).arch == CommitJournal(crc, w.arch).s
  {
    hide CommitJournal;
  }

  /** One commit whose second barrier fails ends it, from any reachable state. */
  lemma BarrierLost(crc: Crc, w: World)
    requires Inv(crc, w) && Enabled(crc, w, DoCommitJournal)
    requires w.arch.dev.failWrite.None? && w.arch.dev.failSyncAt == Some(w.arch.dev.syncCalls + 2)
    ensures !CommitJournal(crc, w.arch).ok
    ensures !Strict(crc, Step(crc, w, DoCommitJournal).arch) && !ExceedsBoth(crc, Step(crc, w, DoCommitJournal).arch)
  {
    hide Inv, ArchInv, CommitJournal, Step, View, IndexUnchanged, ExceedsBoth, ReadSlot;
    InvMeans(crc, w);
    StepCommitJournal(crc, w);
    NextSequenceNumberNotStrict(crc, w.arch, w.draft, Allowed(w));
    StepInv(crc, w, DoCommitJournal);
    StrictIsExceedsBoth(crc, Step(crc, w, DoCommitJournal));
  }

  /** An archive just opened, its second barrier armed to fail, can be committed. */
  lemma Armed(crc: Crc, img: seq<byte>, w: World)
    requires Start(crc, img, w) && w.arch.up.activeSeq + 1 < U64_LIMIT
    ensures var w1 := Step(crc, w, ArmSyncFailure(2));
      && Enabled(crc, w, ArmSyncFailure(2)) && Inv(crc, w1) && Enabled(crc, w1, DoCommitJournal)
      && w1.arch.dev.failWrite.None? && w1.arch.dev.failSyncAt == Some(w1.arch.dev.syncCalls + 2)
  {
    hide Inv, Start, Step, IndexUnchanged;
    StartInv(crc, img, w);
    StartIndexUnchanged(crc, img, w);
    StartUnarmed(crc, img, w);
    StepArmSync(crc, w, 2);
    StepInv(crc, w, ArmSyncFailure(2));
  }

  lemma StartUnarmed(crc: Crc, img: seq<byte>, w: World)
    requires Start(crc, img, w)
    ensures w.arch.dev.failWrite.None?
  {
  }

  /** A failing run, from every archive just opened: the second barrier of the first journal-only commit fails. */
  lemma StrictnessLost(crc: Crc, img: seq<byte>, w: World)
    requires Start(crc, img, w) && w.arch.up.activeSeq + 1 < U64_LIMIT
    ensures var run := [ArmSyncFailure(2), DoCommitJournal];
      Runs(crc, w, run) && !Strict(crc, Run(crc, w, run).arch) && !ExceedsBoth(crc, Run(crc, w, run).arch)
  {
    hide Inv, Start, Step, Enabled, Strict, ExceedsBoth;
    var a := ArmSyncFailure(2);
    var run := [a, DoCommitJournal];
    Armed(crc, img, w);
    assert run[1..] == [DoCommitJournal] && run[1..][1..] == [];
    var w1 := Step(crc, w, a);
    BarrierLost(crc, w1);
    assert Run(crc, w1, run[1..]) == Step(crc, w1, DoCommitJournal);
  }

  /** The same on the updater itself: the commit reports its failure and leaves the number the next one will use in the
      other slot already. */
  method LoseBarrier(up: ArchiveUpdater, ghost img: seq<byte>, ghost w: World) returns (ok: bool)
    requires Start(up.crc, img, w) && w.arch == up.State() && up.activeSeq + 1 < U64_LIMIT
    modifies up, up.io
    ensures !ok && !Strict(up.crc, up.State()) && !ExceedsBoth(up.crc, up.State())
  {
    hide Start, Inv, Strict, ExceedsBoth, CommitJournal, Step;
    ghost var w1 := Step(up.crc, w, ArmSyncFailure(2));
    Armed(up.crc, img, w);
    BarrierLost(up.crc, w1);
    StepCommitJournal(up.crc, w1);
    up.io.FailSyncIn(2);
    assert up.State() == w1.arch by { StepArmSync(up.crc, w, 2); }
    ok := up.CommitJournal();
  }

  lemma InvMeans(crc: Crc, w: World)
    requires Inv(crc, w)
    ensures ArchInv(crc, w.arch, w.draft, Allowed(w))
  {
  }
}
