/** What the two superblock slots guarantee about every image a power loss can leave behind. */
module DiskSafety {
  import opened Bytes
  import opened Layout
  import opened Superblock
  import opened Reader
  import opened BlockIo

  datatype SlotMeaning = SlotMeaning(seqno: u64, version: Version)

  /** The version a slot stands for, if it parses and fully validates. */
  function Meaning(crc: Crc, img: seq<byte>, slot: nat): Option<SlotMeaning>
    requires IsSlot(slot) && |img| >= DATA_START
  {
    match TrySlot(crc, img, slot)
    case None => None
    case Some(act) =>
      LoadedInData(crc, img, act.sb);
      Some(SlotMeaning(act.sb.seqno, VersionOf(img, act.sb, act.loaded)))
  }

  /** `load_active` prefers slot `keep` over the other one. */
  predicate Prefers(keep: nat, keepSeq: u64, otherSeq: u64) {
    otherSeq < keepSeq || (otherSeq == keepSeq && keep == SB_A_OFFSET)
  }

  /** Slot `keep` is valid and stands for a version in `allowed`; the other slot does not parse, or is
      valid and either stands for a version in `allowed` too or is the one `load_active` passes over. */
  ghost predicate Settled(crc: Crc, img: seq<byte>, keep: nat, allowed: set<Version>) {
    && |img| >= DATA_START && IsSlot(keep) && HeaderOk(img)
    && var k := Meaning(crc, img, keep);
    && k.Some? && k.value.version in allowed
    && (ReadSlot(crc, img, OtherSlot(keep)).None? ||
        var o := Meaning(crc, img, OtherSlot(keep));
        && o.Some?
        && (o.value.version in allowed || Prefers(keep, k.value.seqno, o.value.seqno)))
  }

  /** A settled image opens, to an allowed version. */
  lemma SettledRecovers(crc: Crc, img: seq<byte>, keep: nat, allowed: set<Version>)
    requires Settled(crc, img, keep, allowed)
    ensures LoadActiveSpec(crc, img).Some?
    ensures Recovered(crc, img).Some? && Recovered(crc, img).value in allowed
  {
  }

  lemma MeaningFrame(crc: Crc, img: seq<byte>, img2: seq<byte>, slot: nat)
    requires IsSlot(slot) && |img| >= DATA_START && Extends(img, img2)
    requires SlotBytes(img2, slot) == SlotBytes(img, slot)
    requires Meaning(crc, img, slot).Some?
    ensures Meaning(crc, img2, slot) == Meaning(crc, img, slot)
  {
    ValidateFrame(crc, img, img2, TrySlot(crc, img, slot).value.sb);
  }

  /** Growth that touches neither slot keeps an image settled. */
  lemma SettledFrame(crc: Crc, img: seq<byte>, img2: seq<byte>, keep: nat, allowed: set<Version>)
    requires Settled(crc, img, keep, allowed) && Extends(img, img2)
    requires img2[..HEADER_LEN] == img[..HEADER_LEN]
    requires forall slot | IsSlot(slot) :: SlotBytes(img2, slot) == SlotBytes(img, slot)
    ensures Settled(crc, img2, keep, allowed)
  {
    HeaderFrame(img, img2);
    MeaningFrame(crc, img, img2, keep);
    if ReadSlot(crc, img, OtherSlot(keep)).Some? {
      MeaningFrame(crc, img, img2, OtherSlot(keep));
    } else {
      assert SlotBytes(img2, OtherSlot(keep)) == SlotBytes(img, OtherSlot(keep));
    }
  }

  lemma HeaderFrame(img: seq<byte>, img2: seq<byte>)
    requires HeaderOk(img) && |img2| >= DATA_START && img2[..HEADER_LEN] == img[..HEADER_LEN]
    ensures HeaderOk(img2)
  {
    SliceOfPrefix(img, HEADER_LEN, 0, 8);
    SliceOfPrefix(img2, HEADER_LEN, 0, 8);
    SliceOfPrefix(img, HEADER_LEN, 8, 12);
    SliceOfPrefix(img2, HEADER_LEN, 8, 12);
    assert img2[..8] == img2[0..8] && img[..8] == img[0..8];
  }

  /** The meaning a superblock write would have once it is whole: its bytes parse to a superblock that
      validates over the durable image. */
  ghost predicate PendingMeans(crc: Crc, durable: seq<byte>, bytes: seq<byte>, m: SlotMeaning) {
    && |bytes| == SB_LEN
    && var sb := ParseSuperblock(crc, bytes);
    && sb.Some? && sb.value.seqno == m.seqno
    && Validate(crc, durable, sb.value).Some?
    && IndexInData(Validate(crc, durable, sb.value).value.index, |durable|)
    && VersionOf(durable, sb.value, Validate(crc, durable, sb.value).value) == m.version
  }

  lemma PendingBecomes(crc: Crc, durable: seq<byte>, img: seq<byte>, slot: nat, bytes: seq<byte>, m: SlotMeaning)
    requires PendingMeans(crc, durable, bytes, m)
    requires IsSlot(slot) && |durable| >= DATA_START && Extends(durable, img) && SlotBytes(img, slot) == bytes
    ensures Meaning(crc, img, slot) == Some(m)
  {
    ValidateFrame(crc, durable, img, ParseSuperblock(crc, bytes).value);
  }

  /** The superblock write that is still unsynced, if there is one. */
  function PendingSlot(dev: FaultState): Option<PendingWrite> {
    if SlotPending(dev.durable, dev.dirty) then Some(dev.dirty[0]) else None
  }

  /** A slot that parses carries a sequence number of at most `bound`. */
  ghost predicate SeqAtMost(crc: Crc, img: seq<byte>, slot: nat, bound: nat)
    requires IsSlot(slot) && |img| >= DATA_START
  {
    ReadSlot(crc, img, slot).Some? ==> ReadSlot(crc, img, slot).value.seqno <= bound
  }

  /** Sequence numbers while a superblock is pending: it follows the stable slot's, and the updater counts
      as active either the pending slot (after a reopening) or the stable one (after a failed barrier). */
  ghost predicate PendingSeqs(crc: Crc, durable: seq<byte>, slot: nat, pendingSeq: u64, active: nat, activeSeq: u64)
    requires IsSlot(slot) && IsSlot(active) && |durable| >= DATA_START
  {
    var stable := Meaning(crc, durable, OtherSlot(slot));
    && stable.Some? && pendingSeq == stable.value.seqno + 1
    && activeSeq == if active == slot then pendingSeq else stable.value.seqno
  }

  /** Without a pending superblock the active slot is settled in the durable image. With one, the slot
      not being written is settled, and the pending superblock is valid over the durable image and
      stands for an allowed version. */
  ghost predicate SlotsOk(crc: Crc, durable: seq<byte>, pending: Option<PendingWrite>, active: nat, activeSeq: u64,
                          allowed: set<Version>)
    requires |durable| >= DATA_START && IsSlot(active)
    requires pending.Some? ==> IsSlot(pending.value.off)
  {
    match pending
    case None =>
      && Settled(crc, durable, active, allowed) && Meaning(crc, durable, active).value.seqno == activeSeq
      && SeqAtMost(crc, durable, OtherSlot(active), activeSeq + 1)
    case Some(w) =>
      && Settled(crc, durable, OtherSlot(w.off), allowed)
      && exists m :: PendingMeans(crc, durable, w.bytes, m) && m.version in allowed
           && PendingSeqs(crc, durable, w.off, m.seqno, active, activeSeq)
  }

  /** The disk invariant. */
  ghost predicate DiskInv(crc: Crc, dev: FaultState, active: nat, activeSeq: u64, allowed: set<Version>) {
    && |dev.durable| >= DATA_START && IsSlot(active)
    && Disciplined(dev.durable, dev.dirty)
    && SlotsOk(crc, dev.durable, PendingSlot(dev), active, activeSeq, allowed)
  }

  /** The one hypothesis about checksums: a slot that parses after a power loss holds what it durably held
      or the whole of a superblock write; one left half-written does not parse. */
  ghost predicate TearingDetected(crc: Crc, dev: FaultState, fates: seq<Fate>)
    requires |fates| == |dev.dirty|
  {
    var img := CrashImage(dev.durable, dev.dirty, fates);
    forall slot: nat | IsSlot(slot) && slot + SB_LEN <= |dev.durable| && slot + SB_LEN <= |img| ::
      var left := img[slot..slot + SB_LEN];
      ParseSuperblock(crc, left).None? || left == dev.durable[slot..slot + SB_LEN]
        || PendingWrite(slot, left) in dev.dirty
  }

  function StableSlot(dev: FaultState, active: nat): nat {
    if SlotPending(dev.durable, dev.dirty) then OtherSlot(dev.dirty[0].off) else active
  }

  /** Every image a power loss can leave is settled on the slot that was not being written. */
  lemma CrashSettled(crc: Crc, dev: FaultState, active: nat, activeSeq: u64, allowed: set<Version>, fates: seq<Fate>)
    requires DiskInv(crc, dev, active, activeSeq, allowed)
    requires |fates| == |dev.dirty| && TearingDetected(crc, dev, fates)
    ensures Settled(crc, CrashImage(dev.durable, dev.dirty, fates), StableSlot(dev, active), allowed)
  {
    CrashShape(dev.durable, dev.dirty, fates);
    var img := CrashImage(dev.durable, dev.dirty, fates);
    if SlotPending(dev.durable, dev.dirty) {
      var slot := dev.dirty[0].off;
      var keep := OtherSlot(slot);
      var m :| PendingMeans(crc, dev.durable, dev.dirty[0].bytes, m) && m.version in allowed;
      HeaderFrame(dev.durable, img);
      MeaningFrame(crc, dev.durable, img, keep);
      assert PendingWrite(slot, SlotBytes(img, slot)) in dev.dirty ==> SlotBytes(img, slot) == dev.dirty[0].bytes;
      if SlotBytes(img, slot) == dev.dirty[0].bytes {
        PendingBecomes(crc, dev.durable, img, slot, dev.dirty[0].bytes, m);
      } else if SlotBytes(img, slot) == SlotBytes(dev.durable, slot) {
        if ReadSlot(crc, dev.durable, slot).Some? {
          MeaningFrame(crc, dev.durable, img, slot);
        }
      }
    } else {
      SettledFrame(crc, dev.durable, img, active, allowed);
    }
  }

  /** `view` is the durable image grown, with the pending superblock in place. */
  ghost predicate Shows(durable: seq<byte>, pending: Option<PendingWrite>, view: seq<byte>)
    requires |durable| >= DATA_START && (pending.Some? ==> IsSlot(pending.value.off))
  {
    && Extends(durable, view) && view[..HEADER_LEN] == durable[..HEADER_LEN]
    && (forall slot | IsSlot(slot) && (pending.Some? ==> pending.value.off != slot) ::
          SlotBytes(view, slot) == SlotBytes(durable, slot))
    && (pending.Some? ==> SlotBytes(view, pending.value.off) == pending.value.bytes)
  }

  lemma ViewShows(dev: FaultState)
    requires |dev.durable| >= DATA_START && Disciplined(dev.durable, dev.dirty)
    ensures Shows(dev.durable, PendingSlot(dev), View(dev))
  {
    CrashKeepingAll(dev.durable, dev.dirty);
    CrashShape(dev.durable, dev.dirty, AllWhole(|dev.dirty|));
  }

  ghost predicate ActiveIn(crc: Crc, img: seq<byte>, active: nat, activeSeq: u64, allowed: set<Version>) {
    && Settled(crc, img, active, allowed) && Meaning(crc, img, active).value.seqno == activeSeq
    && SeqAtMost(crc, img, OtherSlot(active), activeSeq + 1)
  }

  lemma SettledShown(crc: Crc, durable: seq<byte>, view: seq<byte>, active: nat, activeSeq: u64, allowed: set<Version>)
    requires |durable| >= DATA_START && Shows(durable, None, view)
    requires ActiveIn(crc, durable, active, activeSeq, allowed)
    ensures ActiveIn(crc, view, active, activeSeq, allowed)
  {
    SettledFrame(crc, durable, view, active, allowed);
    MeaningFrame(crc, durable, view, active);
    assert SlotBytes(view, OtherSlot(active)) == SlotBytes(durable, OtherSlot(active));
  }

  /** With a superblock shown in slot `slot`, either slot may be the active one. */
  lemma PendingShown(crc: Crc, durable: seq<byte>, view: seq<byte>, slot: nat, bytes: seq<byte>, m: SlotMeaning,
                     active: nat, activeSeq: u64, allowed: set<Version>)
    requires |durable| >= DATA_START && IsSlot(slot) && IsSlot(active)
    requires Shows(durable, Some(PendingWrite(slot, bytes)), view)
    requires Settled(crc, durable, OtherSlot(slot), allowed)
    requires PendingMeans(crc, durable, bytes, m) && m.version in allowed
    requires PendingSeqs(crc, durable, slot, m.seqno, active, activeSeq)
    ensures ActiveIn(crc, view, active, activeSeq, allowed)
  {
    var other := OtherSlot(slot);
    assert OtherSlot(other) == slot;
    HeaderFrame(durable, view);
    PendingBecomes(crc, durable, view, slot, bytes, m);
    assert SlotBytes(view, other) == SlotBytes(durable, other);
    MeaningFrame(crc, durable, view, other);
    assert active == slot || active == other;
  }

  /** What the process sees is settled on the slot the updater calls active. */
  lemma ViewSettled(crc: Crc, dev: FaultState, active: nat, activeSeq: u64, allowed: set<Version>)
    requires DiskInv(crc, dev, active, activeSeq, allowed)
    ensures var view := View(dev);
      && |view| >= |dev.durable| && Extends(dev.durable, view)
      && ActiveIn(crc, view, active, activeSeq, allowed)
  {
    hide Settled, Meaning, PendingMeans, ActiveIn, View, SeqAtMost;
    ViewShows(dev);
    match PendingSlot(dev) {
      case None =>
        ActiveNow(crc, dev.durable, active, activeSeq, allowed);
        SettledShown(crc, dev.durable, View(dev), active, activeSeq, allowed);
      case Some(w) =>
        var m :| PendingMeans(crc, dev.durable, w.bytes, m) && m.version in allowed
          && PendingSeqs(crc, dev.durable, w.off, m.seqno, active, activeSeq);
        PendingShown(crc, dev.durable, View(dev), w.off, w.bytes, m, active, activeSeq, allowed);
    }
  }

  lemma ActiveNow(crc: Crc, durable: seq<byte>, active: nat, activeSeq: u64, allowed: set<Version>)
    requires |durable| >= DATA_START && IsSlot(active)
    ensures ActiveIn(crc, durable, active, activeSeq, allowed) <==>
      SlotsOk(crc, durable, None, active, activeSeq, allowed)
  {
  }

  /** The invariant looks only at the durable image and at the first unsynced write. */
  lemma InvAfterAppend(crc: Crc, dev: FaultState, dev2: FaultState, active: nat, activeSeq: u64, allowed: set<Version>)
    requires DiskInv(crc, dev, active, activeSeq, allowed)
    requires dev2.durable == dev.durable && |dev2.dirty| == |dev.dirty| + 1 && dev2.dirty[..|dev.dirty|] == dev.dirty
    requires dev2.dirty[|dev.dirty|].off >= |dev.durable|
    ensures DiskInv(crc, dev2, active, activeSeq, allowed)
  {
    hide SlotsOk;
    assert forall i :: 0 <= i < |dev.dirty| ==> dev2.dirty[i] == dev.dirty[i];
    assert PendingSlot(dev2) == PendingSlot(dev);
  }

  lemma ViewGrows(dev: FaultState, bytes: seq<byte>)
    ensures var w := WriteAt(dev, |View(dev)|, bytes);
      View(w.dev) == if w.ok then View(dev) + bytes else View(dev)
  {
    ViewAfterWrite(dev, PendingWrite(|View(dev)|, bytes));
    ApplyAtEnd(View(dev), bytes);
  }

  /** Appending at the end of what the process sees keeps the invariant and extends the view. */
  lemma AppendKeeps(crc: Crc, dev: FaultState, active: nat, activeSeq: u64, allowed: set<Version>, bytes: seq<byte>)
    requires DiskInv(crc, dev, active, activeSeq, allowed)
    ensures var w := WriteAt(dev, |View(dev)|, bytes);
      && DiskInv(crc, w.dev, active, activeSeq, allowed)
      && View(w.dev) == (if w.ok then View(dev) + bytes else View(dev))
  {
    hide SlotsOk, ActiveIn, View;
    ViewGrows(dev, bytes);
    ViewSettled(crc, dev, active, activeSeq, allowed);
    var w := WriteAt(dev, |View(dev)|, bytes);
    if w.ok {
      InvAfterAppend(crc, dev, w.dev, active, activeSeq, allowed);
    } else {
      assert w.dev.durable == dev.durable && w.dev.dirty == dev.dirty;
    }
  }

  /** A barrier, failed or not, keeps the invariant; a successful one leaves nothing unsynced. */
  lemma SyncKeeps(crc: Crc, dev: FaultState, active: nat, activeSeq: u64, allowed: set<Version>)
    requires DiskInv(crc, dev, active, activeSeq, allowed)
    ensures var w := Sync(dev);
      && DiskInv(crc, w.dev, active, activeSeq, allowed)
      && View(w.dev) == View(dev)
      && (w.ok ==> w.dev.durable == View(dev) && w.dev.dirty == [])
  {
    ViewSettled(crc, dev, active, activeSeq, allowed);
  }

  lemma SettledWider(crc: Crc, img: seq<byte>, keep: nat, allowed: set<Version>, more: set<Version>)
    requires Settled(crc, img, keep, allowed)
    ensures Settled(crc, img, keep, allowed + more)
  {
  }

  lemma SlotNowPending(crc: Crc, durable: seq<byte>, active: nat, activeSeq: u64, allowed: set<Version>,
                       bytes: seq<byte>, m: SlotMeaning)
    requires |durable| >= DATA_START && IsSlot(active)
    requires SlotsOk(crc, durable, None, active, activeSeq, allowed) && PendingMeans(crc, durable, bytes, m)
    requires m.seqno == activeSeq + 1
    ensures SlotsOk(crc, durable, Some(PendingWrite(OtherSlot(active), bytes)), active, activeSeq,
      allowed + {m.version})
  {
    hide Meaning, PendingMeans, SeqAtMost;
    SettledWider(crc, durable, active, allowed, {m.version});
    assert OtherSlot(OtherSlot(active)) == active;
    assert m.version in allowed + {m.version};
  }

  /** Writing the inactive slot right after a barrier keeps the invariant, with the new version allowed. */
  lemma SlotWriteKeeps(crc: Crc, dev: FaultState, active: nat, activeSeq: u64, allowed: set<Version>,
                       bytes: seq<byte>, m: SlotMeaning)
    requires DiskInv(crc, dev, active, activeSeq, allowed) && dev.dirty == []
    requires PendingMeans(crc, dev.durable, bytes, m) && m.seqno == activeSeq + 1
    ensures var w := WriteAt(dev, OtherSlot(active), bytes);
      && DiskInv(crc, w.dev, active, activeSeq, allowed + {m.version})
      && (w.ok ==> w.dev.durable == dev.durable && w.dev.dirty == [PendingWrite(OtherSlot(active), bytes)])
      && (!w.ok ==> w.dev.durable == dev.durable && w.dev.dirty == [])
  {
    var w := WriteAt(dev, OtherSlot(active), bytes);
    assert PendingSlot(dev) == None;
    if w.ok {
      SlotNowPending(crc, dev.durable, active, activeSeq, allowed, bytes, m);
      assert PendingSlot(w.dev) == Some(PendingWrite(OtherSlot(active), bytes));
    } else {
      SettledWider(crc, dev.durable, active, allowed, {m.version});
      assert PendingSlot(w.dev) == None;
    }
  }

  /** A slot write changes no data byte. */
  lemma SlotWriteView(dev: FaultState, slot: nat, bytes: seq<byte>)
    requires IsSlot(slot) && |bytes| == SB_LEN && |View(dev)| >= DATA_START
    ensures var w := WriteAt(dev, slot, bytes);
      Extends(View(dev), View(w.dev)) && |View(w.dev)| == |View(dev)|
  {
    ViewAfterWrite(dev, PendingWrite(slot, bytes));
  }

  /** Once the barrier after the slot write succeeds the new slot is active and only the new version
      can ever be recovered. */
  lemma SlotSyncPublishes(crc: Crc, dev: FaultState, active: nat, activeSeq: u64, allowed: set<Version>, m: SlotMeaning)
    requires DiskInv(crc, dev, active, activeSeq, allowed)
    requires |dev.dirty| == 1 && dev.dirty[0].off == OtherSlot(active)
    requires PendingMeans(crc, dev.durable, dev.dirty[0].bytes, m) && m.seqno > activeSeq
    requires Sync(dev).ok
    ensures DiskInv(crc, Sync(dev).dev, OtherSlot(active), m.seqno, {m.version})
  {
    ViewSettled(crc, dev, active, activeSeq, allowed);
    var view := View(dev);
    var slot := OtherSlot(active);
    CrashKeepingAll(dev.durable, dev.dirty);
    CrashShape(dev.durable, dev.dirty, AllWhole(1));
    PendingBecomes(crc, dev.durable, view, slot, dev.dirty[0].bytes, m);
    assert OtherSlot(slot) == active;
    assert Sync(dev).dev.durable == view;
  }

  /** A settled image that has just been opened after a power loss pins down the version found. */
  lemma RecoveredPins(crc: Crc, img: seq<byte>, keep: nat, allowed: set<Version>)
    requires Settled(crc, img, keep, allowed)
    ensures var act := LoadActiveSpec(crc, img).value;
      DiskInv(crc, FreshDevice(img), act.slot, act.sb.seqno, {Recovered(crc, img).value})
  {
    SettledRecovers(crc, img, keep, allowed);
    var act := LoadActiveSpec(crc, img).value;
    assert View(FreshDevice(img)) == img;
  }
}
