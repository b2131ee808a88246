/** The guarantees of the commit protocol over whole runs. */
module CrashTheorems {
  import opened Bytes
  import opened Layout
  import opened Journal
  import opened Reader
  import opened BlockIo
  import opened VersionSpec
  import opened UpdaterSpec
  import opened DiskSafety
  import opened Denotation
  import opened OpSafety
  import opened ArchiveRuns

  /** What is read back when power is lost in state `w` with the given fates of the unsynced writes. */
  function RecoveredAfter(crc: Crc, w: World, fates: seq<Fate>): Option<Version> {
    if |fates| != |w.arch.dev.dirty| then None
    else
      var img := CrashImage(w.arch.dev.durable, w.arch.dev.dirty, fates);
      if !HeaderOk(img) then None else Recovered(crc, img)
  }

  /** Crash atomicity. From any sound archive, after any run, every image a power loss can leave opens and
      reads back, block for block and byte for byte, as the version last acknowledged or one that some
      commit has tried since. */
  lemma CrashAtomicity(crc: Crc, img: seq<byte>, w: World, run: seq<Action>, fates: seq<Fate>)
    requires Start(crc, img, w) && Runs(crc, w, run)
    requires PowerLossPossible(crc, Run(crc, w, run).arch.dev, fates)
    ensures var w2 := Run(crc, w, run);
      var v := RecoveredAfter(crc, w2, fates);
      && v.Some? && (v.value == w2.acked || v.value in w2.attempted)
      && Opened(crc, FreshDevice(CrashImage(w2.arch.dev.durable, w2.arch.dev.dirty, fates))).Some?
  {
    hide Inv, PowerLossPossible, Step, Start;
    StartInv(crc, img, w);
    RunInv(crc, w, run);
    PowerLossRecovers(crc, Run(crc, w, run), fates);
  }

  lemma PowerLossRecovers(crc: Crc, w: World, fates: seq<Fate>)
    requires Inv(crc, w) && PowerLossPossible(crc, w.arch.dev, fates)
    ensures |fates| == |w.arch.dev.dirty|
    ensures var v := RecoveredAfter(crc, w, fates);
      && v.Some? && v.value in Allowed(w)
      && Opened(crc, FreshDevice(CrashImage(w.arch.dev.durable, w.arch.dev.dirty, fates))).Some?
  {
    hide ArchInv;
    PowerLossInv(crc, w, fates);
  }

  predicate IsCommit(a: Action) { a.DoCommit? || a.DoCommitJournal? }

  /** The version a commit action would publish. */
  function Candidate(w: World, a: Action): Version
    requires IsCommit(a)
  {
    if a.DoCommit? then w.draft.version else Publishing(w.draft)
  }

  ghost predicate CommitOk(crc: Crc, w: World, a: Action)
    requires Enabled(crc, w, a) && IsCommit(a)
  {
    if a.DoCommit? then Commit(crc, w.arch).ok else CommitJournal(crc, w.arch).ok
  }

  /** All versions the commits of a run try to publish. */
  ghost function Tried(crc: Crc, w: World, run: seq<Action>): set<Version>
    requires Runs(crc, w, run)
    decreases |run|
  {
    if |run| == 0 then {}
    else (if IsCommit(run[0]) then {Candidate(w, run[0])} else {}) + Tried(crc, Step(crc, w, run[0]), run[1..])
  }

  /** They are the candidates of its commits, each in the state the commit was called in. */
  lemma {:induction false} TriedExactly(crc: Crc, w: World, run: seq<Action>, v: Version)
    requires Runs(crc, w, run)
    ensures v in Tried(crc, w, run) <==> exists i: nat :: TriesAt(crc, w, run, i, v)
    decreases |run|
  {
    hide Step, Candidate;
    if |run| > 0 {
      var w1, rest := Step(crc, w, run[0]), run[1..];
      TriedExactly(crc, w1, rest, v);
      if i: nat :| TriesAt(crc, w1, rest, i, v) {
        assert run[..i + 1][0] == run[0] && run[..i + 1][1..] == rest[..i];
        assert TriesAt(crc, w, run, i + 1, v);
      }
      if i: nat :| TriesAt(crc, w, run, i, v) {
        if i > 0 {
          assert run[..i][0] == run[0] && run[..i][1..] == rest[..i - 1];
          assert TriesAt(crc, w1, rest, i - 1, v);
        } else {
          assert run[..0] == [];
        }
      }
      if IsCommit(run[0]) && v == Candidate(w, run[0]) {
        assert run[..0] == [];
        assert TriesAt(crc, w, run, 0, v);
      }
    }
  }

  /** The `i`-th action of the run is a commit of `v`. */
  ghost predicate TriesAt(crc: Crc, w: World, run: seq<Action>, i: nat, v: Version) {
    && i < |run| && IsCommit(run[i]) && Runs(crc, w, run[..i])
    && v == Candidate(Run(crc, w, run[..i]), run[i])
  }

  /** Only a commit, a power loss and a reopening touch what may be recovered. */
  lemma OtherAllowed(crc: Crc, w: World, a: Action)
    requires Steppable(w, a) && !IsCommit(a) && !a.PowerLoss? && !a.Reopen?
    ensures Allowed(Step(crc, w, a)) == Allowed(w)
  {
    hide SetBlock, AppendJournal, Truncate, Truncated, WithBlock, PadTo, WithTail;
  }

  lemma CommitAllowed(crc: Crc, w: World, a: Action)
    requires Enabled(crc, w, a) && IsCommit(a)
    ensures Allowed(Step(crc, w, a)) ==
      if CommitOk(crc, w, a) then {Candidate(w, a)} else Allowed(w) + {Candidate(w, a)}
  {
    hide Commit, CommitJournal;
    if CommitOk(crc, w, a) {
      assert Allowed(Step(crc, w, a)) == {Candidate(w, a)};
    } else {
      assert Allowed(Step(crc, w, a)) == Allowed(w) + {Candidate(w, a)};
    }
  }

  lemma ReopenAllowed(crc: Crc, w: World)
    requires Inv(crc, w)
    ensures Allowed(Step(crc, w, Reopen)) == Allowed(w)
  {
    hide Inv, Opened;
  }

  lemma PowerLossAllowed(crc: Crc, w: World, fates: seq<Fate>)
    requires Inv(crc, w) && PowerLossPossible(crc, w.arch.dev, fates)
    ensures Allowed(Step(crc, w, PowerLoss(fates))) <= Allowed(w)
  {
    hide ArchInv, Opened, Recovered, CrashImage;
    PowerLossInv(crc, w, fates);
  }

  lemma StepAllowed(crc: Crc, w: World, a: Action)
    requires Inv(crc, w) && Enabled(crc, w, a)
    ensures Allowed(Step(crc, w, a)) <= Allowed(w) + (if IsCommit(a) then {Candidate(w, a)} else {})
    ensures IsCommit(a) && CommitOk(crc, w, a) ==> Allowed(Step(crc, w, a)) == {Candidate(w, a)}
  {
    hide Inv, Step, Allowed, CommitOk, Candidate, PowerLossPossible;
    match a
    case PowerLoss(fates) => PowerLossAllowed(crc, w, fates);
    case Reopen => ReopenAllowed(crc, w);
    case DoCommit => CommitAllowed(crc, w, a);
    case DoCommitJournal => CommitAllowed(crc, w, a);
    case _ => OtherAllowed(crc, w, a);
  }

  lemma {:induction false} RunAllowed(crc: Crc, w: World, run: seq<Action>)
    requires Inv(crc, w) && Runs(crc, w, run)
    ensures Allowed(Run(crc, w, run)) <= Allowed(w) + Tried(crc, w, run)
    decreases |run|
  {
    hide Inv, Enabled, Step, Candidate;
    if |run| > 0 {
      StepAllowed(crc, w, run[0]);
      StepInv(crc, w, run[0]);
      RunAllowed(crc, Step(crc, w, run[0]), run[1..]);
    }
  }

  /** No rollback. Once a commit has returned success, whatever runs afterwards - further power losses
      included - only its version or one tried by a later commit is ever recovered. */
  lemma NoRollback(crc: Crc, w: World, a: Action, after: seq<Action>, fates: seq<Fate>)
    requires Inv(crc, w) && Enabled(crc, w, a) && IsCommit(a) && CommitOk(crc, w, a)
    requires Runs(crc, Step(crc, w, a), after)
    requires PowerLossPossible(crc, Run(crc, Step(crc, w, a), after).arch.dev, fates)
    ensures var v := RecoveredAfter(crc, Run(crc, Step(crc, w, a), after), fates);
      v.Some? && (v.value == Candidate(w, a) || v.value in Tried(crc, Step(crc, w, a), after))
  {
    hide Inv, Step, Enabled, PowerLossPossible, CommitOk, Candidate;
    StepAllowed(crc, w, a);
    StepInv(crc, w, a);
    RunAllowed(crc, Step(crc, w, a), after);
    RunInv(crc, Step(crc, w, a), after);
    PowerLossRecovers(crc, Run(crc, Step(crc, w, a), after), fates);
  }

  /** Durability, the case without later commits: exactly the committed version comes back. */
  lemma Durability(crc: Crc, w: World, a: Action, after: seq<Action>, fates: seq<Fate>)
    requires Inv(crc, w) && Enabled(crc, w, a) && IsCommit(a) && CommitOk(crc, w, a)
    requires Runs(crc, Step(crc, w, a), after) && forall i :: 0 <= i < |after| ==> !IsCommit(after[i])
    requires PowerLossPossible(crc, Run(crc, Step(crc, w, a), after).arch.dev, fates)
    ensures RecoveredAfter(crc, Run(crc, Step(crc, w, a), after), fates) == Some(Candidate(w, a))
  {
    hide Inv, Step, Enabled, PowerLossPossible, CommitOk, Candidate;
    NothingTried(crc, Step(crc, w, a), after);
    NoRollback(crc, w, a, after, fates);
  }

  lemma {:induction false} NothingTried(crc: Crc, w: World, run: seq<Action>)
    requires Runs(crc, w, run) && forall i :: 0 <= i < |run| ==> !IsCommit(run[i])
    ensures Tried(crc, w, run) == {}
    decreases |run|
  {
    if |run| > 0 {
      NothingTried(crc, Step(crc, w, run[0]), run[1..]);
    }
  }

  /** Append-only. Outside a power loss no action changes a data byte that exists: in particular none
      inside a region reachable from either slot, since each such region lies below the write cursor. */
  lemma AppendOnly(crc: Crc, w: World, a: Action)
    requires Inv(crc, w) && Enabled(crc, w, a) && !a.PowerLoss?
    ensures Extends(View(w.arch.dev), View(Step(crc, w, a).arch.dev))
  {
    hide ArchInv, IndexUnchanged, JournalFieldsOk;
    match a
    case ArmWriteFailure(_, _) =>
    case ArmSyncFailure(_) =>
    case DoSetBlock(idx, stored, verbatim, newSize) =>
      SetBlockSafe(crc, w.arch, w.draft, Allowed(w), idx, stored, verbatim, newSize);
    case DoAppendJournal(delta) => AppendJournalSafe(crc, w.arch, w.draft, Allowed(w), delta);
    case DoCommit => CommitSafe(crc, w.arch, w.draft, Allowed(w));
    case DoCommitJournal => CommitJournalSafe(crc, w.arch, w.draft, Allowed(w));
    case DoSync => SyncView(crc, w);
    case _ =>
  }

  lemma SyncView(crc: Crc, w: World)
    requires Inv(crc, w)
    ensures View(SyncDev(w.arch).s.dev) == View(w.arch.dev)
  {
    SyncKeeps(crc, w.arch.dev, OtherSlot(w.arch.up.inactiveOff), w.arch.up.activeSeq, Allowed(w));
  }

  /** Everything a slot leads to lies below the write cursor, and whatever parses is valid. */
  lemma ReachableBelowCursor(crc: Crc, w: World, slot: nat)
    requires Inv(crc, w) && IsSlot(slot)
    ensures |View(w.arch.dev)| >= DATA_START
    ensures var view := View(w.arch.dev);
      ReadSlot(crc, view, slot).Some? ==>
        var sb := ReadSlot(crc, view, slot).value;
        && Validate(crc, view, sb).Some?
        && RegionsWithin(sb, Validate(crc, view, sb).value.index, w.arch.up.writeCursor)
        && (sb.headCache.Some? && ReadHead(view, sb.indexOffset, sb.headCache.value).Some? ==>
              DATA_START <= sb.headCache.value.offset
              && sb.headCache.value.offset + sb.headCache.value.clen <= w.arch.up.writeCursor)
  {
    hide DiskInv, Denotes, LoadActiveSpec, RegionsWithin, ReadHead;
    var active := OtherSlot(w.arch.up.inactiveOff);
    var view := View(w.arch.dev);
    CursorAtEnd(crc, view, w.arch.up, w.draft);
    ViewSettled(crc, w.arch.dev, active, w.arch.up.activeSeq, Allowed(w));
    if ReadSlot(crc, view, slot).Some? {
      SettledSlot(crc, view, active, Allowed(w), slot);
      ValidRegions(crc, view, ReadSlot(crc, view, slot).value);
    }
  }

  lemma SettledSlot(crc: Crc, img: seq<byte>, keep: nat, allowed: set<Version>, slot: nat)
    requires Settled(crc, img, keep, allowed) && IsSlot(slot) && ReadSlot(crc, img, slot).Some?
    ensures Validate(crc, img, ReadSlot(crc, img, slot).value).Some?
  {
    assert slot == keep || slot == OtherSlot(keep);
  }

  // ---- the journal tail ----

  function Appends(deltas: seq<seq<byte>>): seq<Action> {
    seq(|deltas|, i requires 0 <= i < |deltas| => DoAppendJournal(deltas[i]))
  }

  ghost predicate AllAppend(crc: Crc, w: World, deltas: seq<seq<byte>>)
    decreases |deltas|
  {
    |deltas| > 0 ==>
      && Enabled(crc, w, DoAppendJournal(deltas[0])) && AppendJournal(crc, w.arch, deltas[0]).ok
      && AllAppend(crc, Step(crc, w, DoAppendJournal(deltas[0])), deltas[1..])
  }

  /** From `w` to `w2` the tail has grown by `bytes` and nothing else in the draft has changed. */
  ghost predicate TailGrown(w: World, w2: World, bytes: seq<byte>) {
    && TailBytes(w2.draft.version) == TailBytes(w.draft.version) + bytes
    && w2.draft.carried == w.draft.carried
    && w2.draft.version == w.draft.version.(tail := w2.draft.version.tail)
  }

  lemma TailGrownTwice(w: World, w1: World, w2: World, a: seq<byte>, b: seq<byte>)
    requires TailGrown(w, w1, a) && TailGrown(w1, w2, b)
    ensures TailGrown(w, w2, a + b)
  {
    var t := TailBytes(w.draft.version);
    assert t + (a + b) == t + a + b;
  }

  lemma {:induction false} AppendsExtendTail(crc: Crc, w: World, deltas: seq<seq<byte>>)
    requires Inv(crc, w) && AllAppend(crc, w, deltas)
    ensures Runs(crc, w, Appends(deltas))
    ensures var w2 := Run(crc, w, Appends(deltas));
      Inv(crc, w2) && TailGrown(w, w2, Flatten(deltas))
    decreases |deltas|
  {
    hide Inv, Step, TailGrown, AppendJournal, Enabled;
    if |deltas| > 0 {
      var a := DoAppendJournal(deltas[0]);
      StepInv(crc, w, a);
      AppendsExtendTail(crc, Step(crc, w, a), deltas[1..]);
      AppendsUnfold(crc, w, deltas);
      TailGrownTwice(w, Step(crc, w, a), Run(crc, w, Appends(deltas)), deltas[0], Flatten(deltas[1..]));
    } else {
      NothingGrown(w);
    }
  }

  lemma NothingGrown(w: World)
    ensures TailGrown(w, w, [])
  {
    assert TailBytes(w.draft.version) + [] == TailBytes(w.draft.version);
  }

  /** The first append of a batch, peeled off. */
  lemma AppendsUnfold(crc: Crc, w: World, deltas: seq<seq<byte>>)
    requires |deltas| > 0 && AllAppend(crc, w, deltas)
    requires Runs(crc, Step(crc, w, DoAppendJournal(deltas[0])), Appends(deltas[1..]))
    ensures var w1 := Step(crc, w, DoAppendJournal(deltas[0]));
      && Runs(crc, w, Appends(deltas)) && Run(crc, w, Appends(deltas)) == Run(crc, w1, Appends(deltas[1..]))
      && TailGrown(w, w1, deltas[0])
  {
    hide AppendJournal;
    assert Appends(deltas)[0] == DoAppendJournal(deltas[0]) && Appends(deltas)[1..] == Appends(deltas[1..]);
  }

  /** No ghost record. Take any reachable archive - for instance one just recovered, whose file still ends
      with records an earlier power loss orphaned. Append increments, commit the journal, then do anything
      but commit and lose power: the tail recovered is the old tail followed by exactly those increments. */
  lemma NoGhostRecord(crc: Crc, w: World, deltas: seq<seq<byte>>, after: seq<Action>, fates: seq<Fate>)
    requires Inv(crc, w) && AllAppend(crc, w, deltas) && Runs(crc, w, Appends(deltas))
    requires var w1 := Run(crc, w, Appends(deltas));
      && Enabled(crc, w1, DoCommitJournal) && CommitJournal(crc, w1.arch).ok
      && Runs(crc, Step(crc, w1, DoCommitJournal), after) && (forall i :: 0 <= i < |after| ==> !IsCommit(after[i]))
      && PowerLossPossible(crc, Run(crc, Step(crc, w1, DoCommitJournal), after).arch.dev, fates)
    ensures var w2 := Run(crc, Step(crc, Run(crc, w, Appends(deltas)), DoCommitJournal), after);
      var v := RecoveredAfter(crc, w2, fates);
      v.Some? && TailBytes(v.value) == TailBytes(w.draft.version) + Flatten(deltas)
      && v.value.blocks == w.draft.version.blocks && v.value.size == w.draft.version.size
  {
    hide Inv, Step, Enabled, AllAppend, RecoveredAfter, CommitJournal, PowerLossPossible;
    AppendsExtendTail(crc, w, deltas);
    Durability(crc, Run(crc, w, Appends(deltas)), DoCommitJournal, after, fates);
  }

  /** After every successful append the journal region ends at the write cursor. */
  lemma JournalContiguous(crc: Crc, w: World, delta: seq<byte>)
    requires Inv(crc, w) && Enabled(crc, w, DoAppendJournal(delta)) && AppendJournal(crc, w.arch, delta).ok
    ensures var up := Step(crc, w, DoAppendJournal(delta)).arch.up;
      up.journalOffset.Some? && up.journalOffset.value + up.journalLen == up.writeCursor
  {
    hide ArchInv;
    AppendJournalSafe(crc, w.arch, w.draft, Allowed(w), delta);
  }
}
