/** Whole runs of the archive: any sequence of updater operations, armed device failures, reopenings and
    power losses. */
module ArchiveRuns {
  import opened Bytes
  import opened Layout
  import opened Reader
  import opened BlockIo
  import opened VersionSpec
  import opened UpdaterSpec
  import opened DiskSafety
  import opened Denotation
  import opened OpSafety

  datatype Action =
    | ArmWriteFailure(lo: nat, hi: nat)
    | ArmSyncFailure(nth: nat)
    | DoSetBlock(idx: nat, stored: seq<byte>, verbatim: bool, newSize: u64)
    | DoTruncate(keepFrom: nat, newSize: u64)
    | DoSetSize(newSize: u64)
    | DoSetHead(head: Head)
    | DoClearHead
    | DoAppendJournal(delta: seq<byte>)
    | DoResetJournal
    | DoCommit
    | DoCommitJournal
    | DoSync
    | Reopen
    | PowerLoss(fates: seq<Fate>)

  /** The byte-level machine beside its meaning: the draft under construction, the version last
      acknowledged (by a successful commit or by recovery), and the versions some later commit tried. */
  datatype World = World(arch: Arch, draft: Draft, acked: Version, attempted: set<Version>)

  function Allowed(w: World): set<Version> {
    {w.acked} + w.attempted
  }

  function Publishing(d: Draft): Version {
    d.version.(head := d.carried)
  }

  /** What an action asks of the state it is taken in: increments fit their length field, sequence numbers are
      not exhausted, a journal-only commit follows no index change, and each unsynced write gets one fate. */
  ghost predicate Steppable(w: World, a: Action) {
    match a
    case DoAppendJournal(delta) =>
      |delta| < U32_LIMIT && JournalFieldsOk(w.arch.up) && w.arch.up.writeCursor <= MAX_FILE_LEN
    case DoCommit => w.arch.up.activeSeq + 1 < U64_LIMIT && w.arch.up.writeCursor <= MAX_FILE_LEN
    case DoCommitJournal => w.arch.up.activeSeq + 1 < U64_LIMIT && IndexUnchanged(w.arch.up)
    case PowerLoss(fates) => |fates| == |w.arch.dev.dirty|
    case _ => true
  }

  /** ... and, beyond that, of a power loss: no superblock is torn in a way the checksum misses. */
  ghost predicate Enabled(crc: Crc, w: World, a: Action): (r: bool)
    ensures r ==> Steppable(w, a)
  {
    Steppable(w, a) && (a.PowerLoss? ==> PowerLossPossible(crc, w.arch.dev, a.fates))
  }

  ghost predicate PowerLossPossible(crc: Crc, dev: FaultState, fates: seq<Fate>) {
    |fates| == |dev.dirty| && TearingDetected(crc, dev, fates)
  }

  function WithUp(w: World, up: Updater, d: Draft): World {
    w.(arch := w.arch.(up := up), draft := d)
  }

  function AfterCommit(w: World, o: Outcome, v: Version, d: Draft): World {
    if o.ok then World(o.s, d, v, {}) else w.(arch := o.s, attempted := w.attempted + {v})
  }

  /** The archive opened on `dev`; None when it does not open. */
  function Opened(crc: Crc, dev: FaultState): Option<(Arch, Version)> {
    if |View(dev)| < DATA_START then None
    else
      match (Open(crc, dev), Recovered(crc, View(dev)))
      case (Some(up), Some(v)) => Some((Arch(dev, up), v))
      case _ => None
  }

  ghost function Step(crc: Crc, w: World, a: Action): World
    requires Steppable(w, a)
  {
    var s, d := w.arch, w.draft;
    match a
    case ArmWriteFailure(lo, hi) => w.(arch := s.(dev := s.dev.(failWrite := Some((lo, hi)))))
    case ArmSyncFailure(n) => w.(arch := s.(dev := s.dev.(failSyncAt := Some(s.dev.syncCalls + n))))
    case DoSetBlock(idx, stored, verbatim, newSize) =>
      var o := SetBlock(crc, s, idx, stored, verbatim, newSize);
      var v := if o.ok then WithBlock(crc, d.version, idx, stored, verbatim, newSize)
               else PadTo(crc, d.version, |o.s.up.index|);
      w.(arch := o.s, draft := d.(version := v))
    case DoTruncate(k, n) => WithUp(w, Truncate(s.up, k, n), Truncated(d, k, n))
    case DoSetSize(n) => WithUp(w, s.up.(uncompressedSize := n), d.(version := d.version.(size := n)))
    case DoSetHead(h) => WithUp(w, SetHeadCache(s.up, h), d.(version := d.version.(head := Some(h))))
    case DoClearHead => WithUp(w, ClearHeadCache(s.up), Draft(d.version.(head := None), None))
    case DoAppendJournal(delta) =>
      var o := AppendJournal(crc, s, delta);
      w.(arch := o.s, draft := if o.ok then d.(version := WithTail(d.version, delta)) else d)
    case DoResetJournal => WithUp(w, ResetJournal(s.up), d.(version := d.version.(tail := None)))
    case DoCommit => AfterCommit(w, Commit(crc, s), d.version, Draft(d.version, d.version.head))
    case DoCommitJournal => AfterCommit(w, CommitJournal(crc, s), Publishing(d), d)
    case DoSync => w.(arch := SyncDev(s).s)
    case Reopen =>
      (match Opened(crc, s.dev)
       case None => w
       case Some((arch, v)) => w.(arch := arch, draft := Draft(v, v.head)))
    case PowerLoss(fates) =>
      (match Opened(crc, FreshDevice(CrashImage(s.dev.durable, s.dev.dirty, fates)))
       case None => w
       case Some((arch, v)) => World(arch, Draft(v, v.head), v, {}))
  }

  ghost predicate Runs(crc: Crc, w: World, run: seq<Action>)
    decreases |run|
  {
    |run| > 0 ==> Enabled(crc, w, run[0]) && Runs(crc, Step(crc, w, run[0]), run[1..])
  }

  ghost function Run(crc: Crc, w: World, run: seq<Action>): World
    requires Runs(crc, w, run)
    decreases |run|
  {
    if |run| == 0 then w else Run(crc, Step(crc, w, run[0]), run[1..])
  }

  ghost predicate Inv(crc: Crc, w: World) {
    ArchInv(crc, w.arch, w.draft, Allowed(w))
  }

  /** Archives a run may start from: they open, and each slot that parses also validates. */
  ghost predicate Sound(crc: Crc, img: seq<byte>) {
    && HeaderOk(img) && |img| <= MAX_FILE_LEN && LoadActiveSpec(crc, img).Some?
    && forall slot | IsSlot(slot) :: ReadSlot(crc, img, slot).Some? ==> TrySlot(crc, img, slot).Some?
  }

  ghost predicate Start(crc: Crc, img: seq<byte>, w: World) {
    && Sound(crc, img)
    && Opened(crc, FreshDevice(img)) == Some((w.arch, w.acked))
    && w.draft == Draft(w.acked, w.acked.head) && w.attempted == {}
  }

  // ---- the invariant holds initially and is kept by every action ----

  lemma OpenedInv(crc: Crc, dev: FaultState, active: nat, activeSeq: u64, allowed: set<Version>)
    requires |View(dev)| <= MAX_FILE_LEN && |View(dev)| >= DATA_START && HeaderOk(View(dev))
    requires LoadActiveSpec(crc, View(dev)).Some?
    requires var act := LoadActiveSpec(crc, View(dev)).value; active == act.slot && activeSeq == act.sb.seqno
    requires DiskInv(crc, dev, active, activeSeq, allowed)
    ensures Opened(crc, dev).Some?
    ensures var (arch, v) := Opened(crc, dev).value;
      ArchInv(crc, arch, Draft(v, v.head), allowed) && Recovered(crc, View(dev)) == Some(v)
  {
    OpenDenotes(crc, dev);
    assert OtherSlot(OtherSlot(active)) == active;
  }

  lemma StartInv(crc: Crc, img: seq<byte>, w: World)
    requires Start(crc, img, w)
    ensures Inv(crc, w)
  {
    hide ArchInv, DiskInv;
    var act := LoadActiveSpec(crc, img).value;
    var dev := FreshDevice(img);
    assert View(dev) == img;
    var v := Recovered(crc, img).value;
    assert IsSlot(act.slot);
    assert ReadSlot(crc, img, OtherSlot(act.slot)).Some? ==> TrySlot(crc, img, OtherSlot(act.slot)).Some?;
    assert Settled(crc, img, act.slot, {v});
    RecoveredPins(crc, img, act.slot, {v});
    OpenedInv(crc, dev, act.slot, act.sb.seqno, {v});
    assert Allowed(w) == {v};
  }

  /** Every image a power loss leaves opens, to an allowed version, and the invariant restarts with that
      version as the acknowledged one. */
  lemma PowerLossInv(crc: Crc, w: World, fates: seq<Fate>)
    requires Inv(crc, w) && PowerLossPossible(crc, w.arch.dev, fates)
    ensures var img := CrashImage(w.arch.dev.durable, w.arch.dev.dirty, fates);
      && |img| >= DATA_START && Recovered(crc, img).Some? && Recovered(crc, img).value in Allowed(w)
      && Opened(crc, FreshDevice(img)).Some?
      && ArchInv(crc, Opened(crc, FreshDevice(img)).value.0,
        Draft(Recovered(crc, img).value, Recovered(crc, img).value.head),
                 {Recovered(crc, img).value})
      && Opened(crc, FreshDevice(img)).value.1 == Recovered(crc, img).value
  {
    var dev := w.arch.dev;
    var active := OtherSlot(w.arch.up.inactiveOff);
    var img := CrashImage(dev.durable, dev.dirty, fates);
    CrashNotLonger(dev.durable, dev.dirty, fates);
    CrashSettled(crc, dev, active, w.arch.up.activeSeq, Allowed(w), fates);
    var keep := StableSlot(dev, active);
    SettledRecovers(crc, img, keep, Allowed(w));
    RecoveredPins(crc, img, keep, Allowed(w));
    assert View(FreshDevice(img)) == img;
    var act := LoadActiveSpec(crc, img).value;
    OpenedInv(crc, FreshDevice(img), act.slot, act.sb.seqno, {Recovered(crc, img).value});
  }

  /** If opening prefers the slot the updater does not call active, that slot may be called active too. */
  lemma SwapActive(crc: Crc, durable: seq<byte>, view: seq<byte>, pending: Option<PendingWrite>, active: nat,
      activeSeq: u64,
                   allowed: set<Version>)
    requires |durable| >= DATA_START && IsSlot(active) && (pending.Some? ==> IsSlot(pending.value.off))
    requires Shows(durable, pending, view)
    requires SlotsOk(crc, durable, pending, active, activeSeq, allowed)
    requires ActiveIn(crc, view, active, activeSeq, allowed)
    requires LoadActiveSpec(crc, view).Some? && LoadActiveSpec(crc, view).value.slot == OtherSlot(active)
    ensures SlotsOk(crc, durable, pending, OtherSlot(active), LoadActiveSpec(crc, view).value.sb.seqno, allowed)
  {
    hide Meaning, Settled;
    assert OtherSlot(OtherSlot(active)) == active;
    if pending.None? {
      SwapSettled(crc, durable, view, active, activeSeq, allowed);
    } else {
      var w := pending.value;
      var m :| PendingMeans(crc, durable, w.bytes, m) && m.version in allowed
         && PendingSeqs(crc, durable, w.off, m.seqno, active, activeSeq);
      SwapPending(crc, durable, view, w.off, w.bytes, m, active);
      assert PendingSeqs(crc, durable, w.off, m.seqno, OtherSlot(active), LoadActiveSpec(crc, view).value.sb.seqno);
    }
  }

  /** A pending superblock wins, having the higher sequence number. */
  lemma SwapPending(crc: Crc, durable: seq<byte>, view: seq<byte>, slot: nat, bytes: seq<byte>, m: SlotMeaning,
      active: nat)
    requires |durable| >= DATA_START && IsSlot(active) && IsSlot(slot)
    requires Shows(durable, Some(PendingWrite(slot, bytes)), view) && PendingMeans(crc, durable, bytes, m)
    requires Meaning(crc, durable, OtherSlot(slot)).Some?
    requires m.seqno == Meaning(crc, durable, OtherSlot(slot)).value.seqno + 1
    requires LoadActiveSpec(crc, view).Some? && LoadActiveSpec(crc, view).value.slot == OtherSlot(active)
    ensures OtherSlot(active) == slot && LoadActiveSpec(crc, view).value.sb.seqno == m.seqno
  {
    var other := OtherSlot(slot);
    PendingBecomes(crc, durable, view, slot, bytes, m);
    assert SlotBytes(view, other) == SlotBytes(durable, other);
    MeaningFrame(crc, durable, view, other);
    assert OtherSlot(active) == slot || OtherSlot(active) == other;
  }

  lemma SwapSettled(crc: Crc, durable: seq<byte>, view: seq<byte>, active: nat, activeSeq: u64, allowed: set<Version>)
    requires |durable| >= DATA_START && IsSlot(active) && Shows(durable, None, view)
    requires SlotsOk(crc, durable, None, active, activeSeq, allowed)
    requires LoadActiveSpec(crc, view).Some? && LoadActiveSpec(crc, view).value.slot == OtherSlot(active)
    ensures SlotsOk(crc, durable, None, OtherSlot(active), LoadActiveSpec(crc, view).value.sb.seqno, allowed)
  {
    var other := OtherSlot(active);
    assert OtherSlot(other) == active;
    assert SlotBytes(view, other) == SlotBytes(durable, other) && SlotBytes(view, active) == SlotBytes(durable, active);
    assert ReadSlot(crc, durable, other).Some?;
    MeaningFrame(crc, durable, view, other);
    MeaningFrame(crc, durable, view, active);
  }

  /** Whichever slot opening selects, the disk invariant holds with that slot as the active one. */
  lemma Reactivate(crc: Crc, dev: FaultState, active: nat, activeSeq: u64, allowed: set<Version>)
    requires DiskInv(crc, dev, active, activeSeq, allowed)
    ensures |View(dev)| >= DATA_START && LoadActiveSpec(crc, View(dev)).Some?
    ensures var act := LoadActiveSpec(crc, View(dev)).value;
      DiskInv(crc, dev, act.slot, act.sb.seqno, allowed)
  {
    hide SlotsOk, View, Settled;
    ViewSettled(crc, dev, active, activeSeq, allowed);
    ViewShows(dev);
    var view := View(dev);
    SettledRecovers(crc, view, active, allowed);
    LoadedSlot(crc, view, active, allowed);
    if LoadActiveSpec(crc, view).value.slot != active {
      SwapActive(crc, dev.durable, view, PendingSlot(dev), active, activeSeq, allowed);
    }
  }

  lemma LoadedSlot(crc: Crc, img: seq<byte>, keep: nat, allowed: set<Version>)
    requires Settled(crc, img, keep, allowed)
    ensures LoadActiveSpec(crc, img).Some?
    ensures var act := LoadActiveSpec(crc, img).value;
      && (act.slot == keep || act.slot == OtherSlot(keep))
      && (act.slot == keep ==> act.sb.seqno == Meaning(crc, img, keep).value.seqno)
  {
  }

  lemma ReopenInv(crc: Crc, w: World)
    requires Inv(crc, w)
    ensures Inv(crc, Step(crc, w, Reopen))
    ensures Opened(crc, w.arch.dev).Some?
  {
    hide DiskInv, ArchInv, Opened, LoadActiveSpec, View, HeaderOk;
    var dev := w.arch.dev;
    InvView(crc, w);
    Reactivate(crc, dev, OtherSlot(w.arch.up.inactiveOff), w.arch.up.activeSeq, Allowed(w));
    var act := LoadActiveSpec(crc, View(dev)).value;
    OpenedInv(crc, dev, act.slot, act.sb.seqno, Allowed(w));
  }

  /** What the process sees is an archive, within the largest file. */
  lemma InvView(crc: Crc, w: World)
    requires Inv(crc, w)
    ensures |View(w.arch.dev)| <= MAX_FILE_LEN && HeaderOk(View(w.arch.dev))
    ensures DiskInv(crc, w.arch.dev, OtherSlot(w.arch.up.inactiveOff), w.arch.up.activeSeq, Allowed(w))
  {
    hide DiskInv, View, Meaning, SeqAtMost, Prefers;
    ViewSettled(crc, w.arch.dev, OtherSlot(w.arch.up.inactiveOff), w.arch.up.activeSeq, Allowed(w));
  }

  lemma ArmedInv(crc: Crc, w: World, dev: FaultState)
    requires Inv(crc, w) && dev.durable == w.arch.dev.durable && dev.dirty == w.arch.dev.dirty
    ensures Inv(crc, w.(arch := w.arch.(dev := dev)))
  {
    assert View(dev) == View(w.arch.dev) && PendingSlot(dev) == PendingSlot(w.arch.dev);
  }

  lemma FieldsInv(crc: Crc, w: World, a: Action)
    requires Inv(crc, w)
    requires a.DoTruncate? || a.DoSetSize? || a.DoSetHead? || a.DoClearHead? || a.DoResetJournal?
    ensures Inv(crc, Step(crc, w, a))
  {
    hide DiskInv, View, BlocksOf, IndexInData;
    if a.DoTruncate? {
      TruncateDenotes(crc, View(w.arch.dev), w.arch.up, w.draft, a.keepFrom, a.newSize);
    }
  }

  lemma CommitInv(crc: Crc, w: World, a: Action)
    requires Inv(crc, w) && Enabled(crc, w, a) && (a.DoCommit? || a.DoCommitJournal?)
    ensures Inv(crc, Step(crc, w, a))
  {
    hide ArchInv, IndexUnchanged;
    var w2 := Step(crc, w, a);
    if a.DoCommit? {
      CommitSafe(crc, w.arch, w.draft, Allowed(w));
      assert Allowed(w2) == if Commit(crc, w.arch).ok then {w.draft.version} else Allowed(w) + {w.draft.version};
    } else {
      CommitJournalSafe(crc, w.arch, w.draft, Allowed(w));
      var v := Publishing(w.draft);
      assert Allowed(w2) == if CommitJournal(crc, w.arch).ok then {v} else Allowed(w) + {v};
    }
  }

  lemma SyncInv(crc: Crc, w: World)
    requires Inv(crc, w)
    ensures Inv(crc, Step(crc, w, DoSync))
  {
    hide DiskInv, Denotes, View;
    SyncKeeps(crc, w.arch.dev, OtherSlot(w.arch.up.inactiveOff), w.arch.up.activeSeq, Allowed(w));
  }

  /** Every action of every kind keeps the invariant. */
  lemma StepInv(crc: Crc, w: World, a: Action)
    requires Inv(crc, w) && Enabled(crc, w, a)
    ensures Inv(crc, Step(crc, w, a))
  {
    hide ArchInv;
    match a
    case ArmWriteFailure(_, _) => ArmedInv(crc, w, Step(crc, w, a).arch.dev);
    case ArmSyncFailure(_) => ArmedInv(crc, w, Step(crc, w, a).arch.dev);
    case DoSetBlock(idx, stored, verbatim, newSize) =>
      SetBlockSafe(crc, w.arch, w.draft, Allowed(w), idx, stored, verbatim, newSize);
    case DoAppendJournal(delta) => AppendJournalSafe(crc, w.arch, w.draft, Allowed(w), delta);
    case DoCommit => CommitInv(crc, w, a);
    case DoCommitJournal => CommitInv(crc, w, a);
    case DoSync => SyncInv(crc, w);
    case Reopen => ReopenInv(crc, w);
    case PowerLoss(fates) =>
      PowerLossInv(crc, w, fates);
      var v := Step(crc, w, a).acked;
      assert Allowed(Step(crc, w, a)) == {v};
    case _ => FieldsInv(crc, w, a);
  }

  lemma {:induction false} RunInv(crc: Crc, w: World, run: seq<Action>)
    requires Inv(crc, w) && Runs(crc, w, run)
    ensures Inv(crc, Run(crc, w, run))
    decreases |run|
  {
    if |run| > 0 {
      StepInv(crc, w, run[0]);
      RunInv(crc, Step(crc, w, run[0]), run[1..]);
    }
  }
}
