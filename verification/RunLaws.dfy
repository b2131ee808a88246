/** What the actions of a run do to the contents of an archive, and when they can be taken and succeed, told by blocks,
    bytes and numbers (archive/updater.rs). */
module RunLaws {
  import opened Bytes
  import opened Journal
  import opened Reader
  import opened BlockIo
  import opened VersionSpec
  import opened UpdaterSpec
  import opened DiskSafety
  import opened Denotation
  import opened ArchiveRuns
  import opened CrashTheorems
  import opened UntornCrashes
  import opened Codec
  import opened PieceBytes

  // ---- what can be done ----

  /** In every reachable state every action can be taken, but for increments of 2^32 bytes or more, commits after the
      last sequence number, journal-only commits over a changed index, and power losses torn unnoticed. */
  lemma EnabledExactly(crc: Crc, w: World, a: Action)
    requires Inv(crc, w)
    ensures Enabled(crc, w, a) <==>
      match a
      case DoAppendJournal(delta) => |delta| < 0x1_0000_0000
      case DoCommit => w.arch.up.activeSeq < 0xFFFF_FFFF_FFFF_FFFF
      case DoCommitJournal => w.arch.up.activeSeq < 0xFFFF_FFFF_FFFF_FFFF && IndexUnchanged(w.arch.up)
      case PowerLoss(fates) => |fates| == |w.arch.dev.dirty| && TearingDetected(crc, w.arch.dev, fates)
      case _ => true
  {
    hide DiskInv, BlocksOf, IndexInData, LoadTail;
  }

  /** A run is untorn exactly if it is a run and no power loss in it tears a write. */
  lemma {:induction false} UntornExactly(crc: Crc, w: World, run: seq<Action>)
    requires Inv(crc, w)
    ensures UntornRuns(crc, w, run) <==>
      Runs(crc, w, run)
      && forall i, k :: 0 <= i < |run| && run[i].PowerLoss? && 0 <= k < |run[i].fates| ==>
           run[i].fates[k] == Lost || run[i].fates[k] == Whole
    decreases |run|
  {
    hide Inv, Step, Steppable, PowerLossPossible;
    if |run| > 0 {
      var a, rest := run[0], run[1..];
      if PlainlyEnabled(w, a) { PlainlyEnabledIsEnabled(crc, w, a); }
      if Enabled(crc, w, a) {
        StepInv(crc, w, a);
        UntornExactly(crc, Step(crc, w, a), rest);
      }
      assert run == [a] + rest;
      forall f: Fate ensures !f.Torn? <==> f == Lost || f == Whole {
      }
    }
  }

  // ---- what it does ----

  /** A block set: it is there with its flag and checksum, the others are as they were, zero blocks fill the gap. */
  lemma SetBlockDoes(crc: Crc, w: World, idx: nat, stored: seq<byte>, verbatim: bool, newSize: u64)
    requires SetBlock(crc, w.arch, idx, stored, verbatim, newSize).ok
    ensures var v, d2 := w.draft.version, Step(crc, w, DoSetBlock(idx, stored, verbatim, newSize)).draft;
      && |d2.version.blocks| == (if |v.blocks| <= idx then idx + 1 else |v.blocks|)
      && (forall i: nat :: i < |d2.version.blocks| ==>
            d2.version.blocks[i] ==
              if i == idx then Block(stored, if verbatim then 1 else 0, crc(stored))
              else if i < |v.blocks| then v.blocks[i]
              else Block(Zeros(v.chunkSize), 1, crc(Zeros(v.chunkSize))))
      && d2.version == v.(blocks := d2.version.blocks, size := newSize) && d2.carried == w.draft.carried
  {
    hide SetBlock;
  }

  /** A truncation: the first blocks, the new size; the head cache, pending or else committed, goes if it covers bytes
      past the new size. */
  lemma TruncateDoes(crc: Crc, w: World, keep: nat, newSize: u64)
    ensures var v, d2 := w.draft.version, Step(crc, w, DoTruncate(keep, newSize)).draft;
      && |d2.version.blocks| == (if keep < |v.blocks| then keep else |v.blocks|)
      && (forall i: nat :: i < |d2.version.blocks| ==> d2.version.blocks[i] == v.blocks[i])
      && d2.version.size == newSize && d2.version.tail == v.tail && d2.version.chunkSize == v.chunkSize
      && (if exists h :: HeadAtHand(w.draft, h) && 0 < h.rawlen && newSize < h.rawlen
          then d2.version.head == None && d2.carried == None
          else d2.version.head == v.head && d2.carried == w.draft.carried)
  {
    var d := w.draft;
    if h :| HeadAtHand(d, h) && 0 < h.rawlen && newSize < h.rawlen {
    }
    if d.version.head.Some? { assert HeadAtHand(d, d.version.head.value); }
    if d.version.head.None? && d.carried.Some? { assert HeadAtHand(d, d.carried.value); }
  }

  ghost predicate HeadAtHand(d: Draft, h: Head) {
    d.version.head == Some(h) || (d.version.head == None && d.carried == Some(h))
  }

  /** The other changes of the draft. */
  lemma FieldsDo(crc: Crc, w: World, a: Action)
    requires Steppable(w, a)
    ensures var d, d2 := w.draft, Step(crc, w, a).draft;
      match a
      case DoSetSize(n) => d2 == d.(version := d.version.(size := n))
      case DoSetHead(h) => d2 == d.(version := d.version.(head := Some(h)))
      case DoClearHead => d2 == Draft(d.version.(head := None), None)
      case DoResetJournal => d2 == d.(version := d.version.(tail := None))
      case DoAppendJournal(delta) =>
        if AppendJournal(crc, w.arch, delta).ok
        then TailBytes(d2.version) == TailBytes(d.version) + delta && d2.version.tail.Some?
             && d2 == d.(version := d.version.(tail := d2.version.tail))
        else d2 == d
      case ArmWriteFailure(_, _) => d2 == d
      case ArmSyncFailure(_) => d2 == d
      case DoSync => d2 == d
      case _ => true
  {
    hide AppendJournal;
  }

  /** A commit: on success the draft is what counts as written, with its head cache now the committed one; on failure it
      may or may not be. A journal-only commit carries the committed head cache along. */
  lemma CommitDoes(crc: Crc, w: World, a: Action)
    requires Steppable(w, a) && (a.DoCommit? || a.DoCommitJournal?)
    ensures var d, w2 := w.draft, Step(crc, w, a);
      var v := if a.DoCommit? then d.version else d.version.(head := d.carried);
      if (if a.DoCommit? then Commit(crc, w.arch).ok else CommitJournal(crc, w.arch).ok)
      then w2.acked == v && w2.attempted == {} && w2.draft == Draft(d.version, v.head)
      else w2.acked == w.acked && w2.attempted == w.attempted + {v} && w2.draft == d
  {
    hide Commit, CommitJournal;
  }

  // ---- when it succeeds ----

  /** With no write failure armed, a block is set exactly if the zero blocks before it and the block fit in the file. */
  lemma SetBlockSucceeds(crc: Crc, s: Arch, idx: nat, stored: seq<byte>, verbatim: bool, newSize: u64)
    requires s.dev.failWrite.None?
    ensures SetBlock(crc, s, idx, stored, verbatim, newSize).ok <==>
      && s.up.writeCursor + Missing(s, idx) * s.up.chunkSize + |stored| <= MAX_FILE_LEN
      && (Missing(s, idx) > 0 ==> s.up.writeCursor + Missing(s, idx) * s.up.chunkSize <= MAX_FILE_LEN)
  {
    GapFills(crc, s, idx);
  }

  function Missing(s: Arch, idx: nat): nat {
    if |s.up.index| < idx then idx - |s.up.index| else 0
  }

  lemma {:induction false} GapFills(crc: Crc, s: Arch, idx: nat)
    requires s.dev.failWrite.None?
    ensures var g := FillGap(crc, s, idx);
      && (g.ok <==> Missing(s, idx) == 0 || s.up.writeCursor + Missing(s, idx) * s.up.chunkSize <= MAX_FILE_LEN)
      && (g.ok ==> g.s.dev.failWrite.None? && g.s.up.writeCursor == s.up.writeCursor + Missing(s, idx) * s.up.chunkSize)
    decreases Missing(s, idx)
  {
    if Missing(s, idx) > 0 {
      var zeros := Zeros(s.up.chunkSize);
      var w := PutData(s, zeros);
      if w.ok {
        var e := EntryFor(crc, s.up.writeCursor, zeros, true);
        var s2 := w.s.(up := w.s.up.(index := w.s.up.index + [e]));
        GapFills(crc, s2, idx);
        Times(Missing(s, idx), s.up.chunkSize);
      } else {
        Times(Missing(s, idx), s.up.chunkSize);
      }
    }
  }

  lemma Times(n: nat, c: nat)
    requires n > 0
    ensures n * c == (n - 1) * c + c >= c
  {
  }

  /** The bytes copied before the next record: the journal region, when the cursor has left its end. */
  function Copied(up: Updater): nat {
    if up.journalOffset.Some? && up.journalOffset.value + up.journalLen != up.writeCursor then up.journalLen else 0
  }

  /** With no write failure armed, an increment is appended exactly if it fits in the file, with the copy of the journal
      region before it; the cursor moves by just that, and nothing has to be copied for the next one. */
  lemma AppendSucceeds(crc: Crc, w: World, delta: seq<byte>)
    requires Inv(crc, w) && Enabled(crc, w, DoAppendJournal(delta)) && w.arch.dev.failWrite.None?
    ensures var o := AppendJournal(crc, w.arch, delta);
      && (o.ok <==> w.arch.up.writeCursor + Copied(w.arch.up) + 8 + |delta| <= MAX_FILE_LEN)
      && o.s.dev.failWrite.None?
      && (o.ok ==>
            && o.s.up.writeCursor == w.arch.up.writeCursor + Copied(w.arch.up) + 8 + |delta|
            && Copied(o.s.up) == 0)
  {
    hide DiskInv, BlocksOf, IndexInData, ReplaySpec, SerializeJournalRecord;
  }

  function BatchLen(deltas: seq<seq<byte>>): nat {
    if deltas == [] then 0 else 8 + |deltas[0]| + BatchLen(deltas[1..])
  }

  /** So does a batch of increments that fits. */
  lemma {:induction false} BatchSucceeds(crc: Crc, w: World, deltas: seq<seq<byte>>)
    requires Inv(crc, w) && w.arch.dev.failWrite.None? && forall i :: 0 <= i < |deltas| ==> |deltas[i]| < U32_LIMIT
    requires w.arch.up.writeCursor + Copied(w.arch.up) + BatchLen(deltas) <= MAX_FILE_LEN
    ensures AllAppend(crc, w, deltas)
    decreases |deltas|
  {
    hide Inv, AppendJournal, Enabled, Step;
    if |deltas| > 0 {
      var a := DoAppendJournal(deltas[0]);
      EnabledExactly(crc, w, a);
      AppendSucceeds(crc, w, deltas[0]);
      AppendedArch(crc, w, deltas[0]);
      StepInv(crc, w, a);
      BatchSucceeds(crc, Step(crc, w, a), deltas[1..]);
    }
  }

  lemma AppendedArch(crc: Crc, w: World, delta: seq<byte>)
    requires Enabled(crc, w, DoAppendJournal(delta))
    ensures Step(crc, w, DoAppendJournal(delta)).arch == AppendJournal(crc, w.arch, delta).s
  {
    hide AppendJournal;
  }

  // ---- end to end ----

  /** A block stored, committed, and read after any power loss decodes to what was stored. */
  lemma SetCommitRead(crc: Crc, z: Zstd, w: World, w1: World, idx: nat, plain: seq<byte>, newSize: u64,
      fates: seq<Fate>)
    requires Faithful(z) && Decodable(z, plain) && Inv(crc, w) && BlockWasSet(crc, z, w, w1, idx, plain, newSize)
    requires Enabled(crc, w1, DoCommit) && CommitOk(crc, w1, DoCommit)
    requires PowerLossPossible(crc, Step(crc, w1, DoCommit).arch.dev, fates)
    ensures ReadsBack(crc, z, w.draft.version, RecoveredAfter(crc, Step(crc, w1, DoCommit), fates), idx, plain, newSize)
  {
    hide Inv, Step, SetBlock, RecoveredAfter, PowerLossPossible, CompressBlock, DecompressBlock, Faithful, Enabled;
    hide Decodable, CommitOk, Candidate;
    var c := CompressBlock(z, plain);
    var a := DoSetBlock(idx, c.bytes, c.verbatim, newSize);
    SetBlockDoes(crc, w, idx, c.bytes, c.verbatim, newSize);
    assert Enabled(crc, w, a) by { EnabledExactly(crc, w, a); }
    StepInv(crc, w, a);
    NothingAfter(crc, Step(crc, w1, DoCommit));
    CommitsDraft(w1);
    Durability(crc, w1, DoCommit, [], fates);
    CompressRoundTrip(z, plain);
    assert StoredBlock(c.bytes, c.verbatim) == c;
  }

  /** The compressed block was set successfully. */
  ghost predicate BlockWasSet(crc: Crc, z: Zstd, w: World, w1: World, idx: nat, plain: seq<byte>, newSize: u64) {
    var c := CompressBlock(z, plain);
    && SetBlock(crc, w.arch, idx, c.bytes, c.verbatim, newSize).ok
    && w1 == Step(crc, w, DoSetBlock(idx, c.bytes, c.verbatim, newSize))
  }

  /** `r` is `v` with that block, which decodes and checks, and that size. */
  ghost predicate ReadsBack(crc: Crc, z: Zstd, v: Version, r: Option<Version>, idx: nat, plain: seq<byte>,
      newSize: u64) {
    && r.Some? && idx < |r.value.blocks| && BlockPlain(z, r.value.blocks[idx]) == Some(plain)
    && r.value.blocks[idx].crc == crc(r.value.blocks[idx].stored)
    && r.value.size == newSize && r.value.tail == v.tail && r.value.head == v.head
    && forall i: nat :: i < |v.blocks| && i != idx ==> i < |r.value.blocks| && r.value.blocks[i] == v.blocks[i]
  }

  lemma NothingAfter(crc: Crc, w: World)
    ensures Runs(crc, w, []) && Run(crc, w, []) == w
  {
  }

  lemma CommitsDraft(w: World)
    ensures IsCommit(DoCommit) && Candidate(w, DoCommit) == w.draft.version
  {
  }
}
