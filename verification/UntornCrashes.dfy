/** Power losses that keep each unsynced write whole or not at all, as `crash_with_mask` does: the guarantees hold for
    every checksum function, with no hypothesis about it (blockio.rs). */
module UntornCrashes {
  import opened Bytes
  import opened Layout
  import opened Superblock
  import opened BlockIo
  import opened DiskSafety
  import opened Denotation
  import opened ArchiveRuns
  import opened CrashTheorems

  predicate Untorn(fates: seq<Fate>) {
    forall i :: 0 <= i < |fates| ==> !fates[i].Torn?
  }

  /** With nothing torn each slot holds what it durably held or the whole of a superblock write. */
  lemma UntornDetected(crc: Crc, dev: FaultState, fates: seq<Fate>)
    requires |dev.durable| >= DATA_START && Disciplined(dev.durable, dev.dirty)
    requires |fates| == |dev.dirty| && Untorn(fates)
    ensures TearingDetected(crc, dev, fates)
  {
    hide ParseSuperblock;
    CrashShape(dev.durable, dev.dirty, fates);
    var img := CrashImage(dev.durable, dev.dirty, fates);
    forall slot: nat | IsSlot(slot) ensures SlotBytes(img, slot) == SlotBytes(dev.durable, slot)
      || PendingWrite(slot, SlotBytes(img, slot)) in dev.dirty
    {
      if SlotPending(dev.durable, dev.dirty) && dev.dirty[0].off == slot {
        assert dev.dirty[0] == PendingWrite(slot, dev.dirty[0].bytes);
      }
    }
  }

  ghost predicate PlainlyEnabled(w: World, a: Action) {
    Steppable(w, a) && (a.PowerLoss? ==> Untorn(a.fates))
  }

  /** A run all of whose power losses are untorn. */
  ghost predicate UntornRuns(crc: Crc, w: World, run: seq<Action>)
    decreases |run|
  {
    |run| > 0 ==> PlainlyEnabled(w, run[0]) && UntornRuns(crc, Step(crc, w, run[0]), run[1..])
  }

  lemma InvDetects(crc: Crc, w: World, fates: seq<Fate>)
    requires Inv(crc, w) && |fates| == |w.arch.dev.dirty| && Untorn(fates)
    ensures PowerLossPossible(crc, w.arch.dev, fates)
  {
    hide SlotsOk, Denotes, TearingDetected, CrashImage, Untorn;
    UntornDetected(crc, w.arch.dev, fates);
  }

  lemma PlainlyEnabledIsEnabled(crc: Crc, w: World, a: Action)
    requires Inv(crc, w) && PlainlyEnabled(w, a)
    ensures Enabled(crc, w, a)
  {
    hide Inv, PowerLossPossible;
    if a.PowerLoss? {
      InvDetects(crc, w, a.fates);
    }
  }

  /** In such a run the checksum hypothesis holds of itself. */
  lemma {:induction false} UntornRunsRun(crc: Crc, w: World, run: seq<Action>)
    requires Inv(crc, w) && UntornRuns(crc, w, run)
    ensures Runs(crc, w, run) && Inv(crc, Run(crc, w, run))
    decreases |run|
  {
    hide Inv, Step, PlainlyEnabled, Enabled;
    if |run| > 0 {
      PlainlyEnabledIsEnabled(crc, w, run[0]);
      StepInv(crc, w, run[0]);
      UntornRunsRun(crc, Step(crc, w, run[0]), run[1..]);
    }
  }

  /** Crash atomicity, unconditionally. */
  lemma UntornAtomicity(crc: Crc, img: seq<byte>, w: World, run: seq<Action>, fates: seq<Fate>)
    requires Start(crc, img, w) && UntornRuns(crc, w, run)
    ensures Inv(crc, w) && Runs(crc, w, run)
    ensures var w2 := Run(crc, w, run);
      |fates| == |w2.arch.dev.dirty| && Untorn(fates) ==>
        var v := RecoveredAfter(crc, w2, fates);
        v.Some? && (v.value == w2.acked || v.value in w2.attempted)
  {
    hide Inv, Start, Step, PowerLossPossible, Untorn;
    StartInv(crc, img, w);
    UntornRunsRun(crc, w, run);
    var w2 := Run(crc, w, run);
    if |fates| == |w2.arch.dev.dirty| && Untorn(fates) {
      InvDetects(crc, w2, fates);
      CrashAtomicity(crc, img, w, run, fates);
    }
  }

  /** No rollback, unconditionally. */
  lemma UntornNoRollback(crc: Crc, w: World, a: Action, after: seq<Action>, fates: seq<Fate>)
    requires Inv(crc, w) && IsCommit(a) && Enabled(crc, w, a) && CommitOk(crc, w, a)
    requires UntornRuns(crc, Step(crc, w, a), after)
    ensures Runs(crc, Step(crc, w, a), after)
    ensures var w2 := Run(crc, Step(crc, w, a), after);
      |fates| == |w2.arch.dev.dirty| && Untorn(fates) ==>
        var v := RecoveredAfter(crc, w2, fates);
        v.Some? && (v.value == Candidate(w, a) || v.value in Tried(crc, Step(crc, w, a), after))
  {
    hide Inv, Step, PowerLossPossible, Untorn, CommitOk, Candidate, PlainlyEnabled, Enabled;
    StepInv(crc, w, a);
    UntornRunsRun(crc, Step(crc, w, a), after);
    var w2 := Run(crc, Step(crc, w, a), after);
    if |fates| == |w2.arch.dev.dirty| && Untorn(fates) {
      InvDetects(crc, w2, fates);
      NoRollback(crc, w, a, after, fates);
    }
  }

  /** Durability, unconditionally. */
  lemma UntornDurability(crc: Crc, w: World, a: Action, after: seq<Action>, fates: seq<Fate>)
    requires Inv(crc, w) && IsCommit(a) && Enabled(crc, w, a) && CommitOk(crc, w, a)
    requires UntornRuns(crc, Step(crc, w, a), after) && forall i :: 0 <= i < |after| ==> !IsCommit(after[i])
    ensures Runs(crc, Step(crc, w, a), after)
    ensures var w2 := Run(crc, Step(crc, w, a), after);
      |fates| == |w2.arch.dev.dirty| && Untorn(fates) ==> RecoveredAfter(crc, w2, fates) == Some(Candidate(w, a))
  {
    hide Inv, Step, PowerLossPossible, Untorn, CommitOk, Candidate, PlainlyEnabled, Enabled;
    StepInv(crc, w, a);
    UntornRunsRun(crc, Step(crc, w, a), after);
    var w2 := Run(crc, Step(crc, w, a), after);
    if |fates| == |w2.arch.dev.dirty| && Untorn(fates) {
      InvDetects(crc, w2, fates);
      Durability(crc, w, a, after, fates);
    }
  }
}
