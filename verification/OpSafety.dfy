/** Every operation of the updater, whatever write or barrier fails inside it, keeps the disk
    invariant and changes the draft as VersionSpec says. */
module OpSafety {
  import opened Bytes
  import opened Layout
  import opened Superblock
  import opened Journal
  import opened Reader
  import opened BlockIo
  import opened VersionSpec
  import opened UpdaterSpec
  import opened DiskSafety
  import opened Denotation

  ghost predicate ArchInv(crc: Crc, s: Arch, d: Draft, allowed: set<Version>) {
    && Denotes(crc, View(s.dev), s.up, d)
    && DiskInv(crc, s.dev, OtherSlot(s.up.inactiveOff), s.up.activeSeq, allowed)
  }

  /** An operation that only appended leaves the view extended. */
  ghost predicate Grew(s: Arch, t: Arch) {
    Extends(View(s.dev), View(t.dev))
  }

  lemma PutDataSafe(crc: Crc, s: Arch, d: Draft, allowed: set<Version>, bytes: seq<byte>)
    requires ArchInv(crc, s, d, allowed)
    ensures var o := PutData(s, bytes);
      && ArchInv(crc, o.s, d, allowed) && Grew(s, o.s)
      && View(o.s.dev) == (if o.ok then View(s.dev) + bytes else View(s.dev))
      && o.s.up == (if o.ok then s.up.(writeCursor := s.up.writeCursor + |bytes|) else s.up)
  {
    var view := View(s.dev);
    AppendKeeps(crc, s.dev, OtherSlot(s.up.inactiveOff), s.up.activeSeq, allowed, bytes);
    var o := PutData(s, bytes);
    if o.ok {
      assert s.up.(writeCursor := |view + bytes|) == o.s.up;
      DenotesGrown(crc, view, view + bytes, s.up, d);
    }
  }

  lemma PadToTwice(crc: Crc, v: Version, n: nat, m: nat)
    requires n <= m
    ensures PadTo(crc, PadTo(crc, v, n), m) == PadTo(crc, v, m)
  {
    var a, b := PadTo(crc, PadTo(crc, v, n), m), PadTo(crc, v, m);
    assert |a.blocks| == |b.blocks| && forall i :: 0 <= i < |a.blocks| ==> a.blocks[i] == b.blocks[i];
  }

  /** The gap loop: on success and on failure alike, the draft is padded to the entries pushed. */
  lemma {:induction false} FillGapSafe(crc: Crc, s: Arch, d: Draft, allowed: set<Version>, idx: nat)
    requires ArchInv(crc, s, d, allowed)
    ensures var o := FillGap(crc, s, idx);
      && |o.s.up.index| >= |s.up.index| && |o.s.up.index| <= (if |s.up.index| < idx then idx else |s.up.index|)
      && ArchInv(crc, o.s, d.(version := PadTo(crc, d.version, |o.s.up.index|)), allowed)
      && Grew(s, o.s)
      && o.s.up.indexDirty == s.up.indexDirty
    decreases idx - |s.up.index|
  {
    if |s.up.index| >= idx {
      assert PadTo(crc, d.version, |s.up.index|) == d.version;
    } else {
      var zeros := Zeros(s.up.chunkSize);
      PutDataSafe(crc, s, d, allowed, zeros);
      var w := PutData(s, zeros);
      if w.ok {
        GapStep(crc, View(s.dev), s.up, d);
        var e := EntryFor(crc, s.up.writeCursor, zeros, true);
        var s1 := w.s.(up := w.s.up.(index := w.s.up.index + [e]));
        var n := |s.up.index| + 1;
        var d1 := d.(version := PadTo(crc, d.version, n));
        assert s1.up == s.up.(writeCursor := |View(s.dev) + zeros|, index := s.up.index + [e]);
        FillGapSafe(crc, s1, d1, allowed, idx);
        var o := FillGap(crc, s1, idx);
        PadToTwice(crc, d.version, n, |o.s.up.index|);
        ExtendsTransitive(View(s.dev), View(s1.dev), View(o.s.dev));
      } else {
        assert PadTo(crc, d.version, |s.up.index|) == d.version;
      }
    }
  }

  lemma SetBlockSafe(crc: Crc, s: Arch, d: Draft, allowed: set<Version>, idx: nat, stored: seq<byte>, verbatim: bool,
      newSize: u64)
    requires ArchInv(crc, s, d, allowed)
    ensures var o := SetBlock(crc, s, idx, stored, verbatim, newSize);
      && ArchInv(crc, o.s, d.(version := if o.ok then WithBlock(crc, d.version, idx, stored, verbatim, newSize)
                                         else PadTo(crc, d.version, |o.s.up.index|)), allowed)
      && Grew(s, o.s)
  {
    FillGapSafe(crc, s, d, allowed, idx);
    var g := FillGap(crc, s, idx);
    if g.ok {
      var d1 := d.(version := PadTo(crc, d.version, |g.s.up.index|));
      PutDataSafe(crc, g.s, d1, allowed, stored);
      var w := PutData(g.s, stored);
      ExtendsTransitive(View(s.dev), View(g.s.dev), View(w.s.dev));
      if w.ok {
        BlockStored(crc, View(g.s.dev), g.s.up, d1, idx, stored, verbatim, newSize);
        PadToTwice(crc, d.version, idx, |g.s.up.index|);
        assert PadTo(crc, d1.version, idx) == d1.version;
        assert PadTo(crc, d.version, idx) == d1.version;
      }
    }
  }

  /** Fields may change while the disk stays put, as long as they still denote. */
  lemma ReplaceUp(crc: Crc, s: Arch, up: Updater, d: Draft, allowed: set<Version>)
    requires DiskInv(crc, s.dev, OtherSlot(s.up.inactiveOff), s.up.activeSeq, allowed)
    requires up.inactiveOff == s.up.inactiveOff && up.activeSeq == s.up.activeSeq
    requires Denotes(crc, View(s.dev), up, d)
    ensures ArchInv(crc, s.(up := up), d, allowed)
  {
  }

  lemma FlipSafe(crc: Crc, dev: FaultState, up: Updater, d: Draft, allowed: set<Version>, newSeq: u64)
    requires Denotes(crc, View(dev), up, d) && DiskInv(crc, dev, up.inactiveOff, newSeq, allowed)
    ensures ArchInv(crc, Arch(dev, FlipActive(up, newSeq)), d, allowed)
  {
    assert OtherSlot(OtherSlot(up.inactiveOff)) == up.inactiveOff;
  }

  lemma CopySafe(crc: Crc, s: Arch, d: Draft, allowed: set<Version>)
    requires ArchInv(crc, s, d, allowed) && s.up.journalOffset.Some?
    requires s.up.journalOffset.value + s.up.journalLen <= |View(s.dev)|
    ensures var copy := View(s.dev)[s.up.journalOffset.value..s.up.journalOffset.value + s.up.journalLen];
      var w := PutData(s, copy);
      && Grew(s, w.s)
      && (!w.ok ==> ArchInv(crc, w.s, d, allowed))
      && (w.ok ==> ArchInv(crc, w.s.(up := w.s.up.(journalOffset := Some(s.up.writeCursor))), d, allowed))
  {
    hide Denotes, DiskInv, View;
    CursorAtEnd(crc, View(s.dev), s.up, d);
    var copy := View(s.dev)[s.up.journalOffset.value..s.up.journalOffset.value + s.up.journalLen];
    PutDataSafe(crc, s, d, allowed, copy);
    var w := PutData(s, copy);
    if w.ok {
      RelocatedDenotes(crc, View(s.dev), s.up, d);
      var up := w.s.up.(journalOffset := Some(s.up.writeCursor));
      assert up == s.up.(writeCursor := |View(s.dev) + copy|, journalOffset := Some(|View(s.dev)|));
      ReplaceUp(crc, w.s, up, d, allowed);
    }
  }

  ghost predicate JournalAtEnd(up: Updater) {
    up.journalOffset.Some? && up.journalOffset.value + up.journalLen == up.writeCursor
  }

  lemma RelocateSafe(crc: Crc, s: Arch, d: Draft, allowed: set<Version>)
    requires ArchInv(crc, s, d, allowed)
    ensures var o := RelocateJournal(s);
      && ArchInv(crc, o.s, d, allowed) && Grew(s, o.s)
      && (o.ok ==> o.s.up.journalOffset.None? || JournalAtEnd(o.s.up))
  {
    hide DiskInv, Denotes, View;
    CursorAtEnd(crc, View(s.dev), s.up, d);
    if s.up.journalOffset.Some? && s.up.writeCursor != s.up.journalOffset.value + s.up.journalLen {
      JournalInFile(crc, View(s.dev), s.up, d);
      var copy := View(s.dev)[s.up.journalOffset.value..s.up.journalOffset.value + s.up.journalLen];
      var w := PutData(s, copy);
      CopySafe(crc, s, d, allowed);
      assert RelocateJournal(s) ==
        if w.ok then Outcome(w.s.(up := w.s.up.(journalOffset := Some(s.up.writeCursor))), true) else w;
    } else {
      assert RelocateJournal(s) == Outcome(s, true);
    }
  }

  lemma RecordSafe(crc: Crc, s: Arch, d: Draft, allowed: set<Version>, delta: seq<byte>)
    requires ArchInv(crc, s, d, allowed) && |delta| < U32_LIMIT && JournalAtEnd(s.up)
    ensures var o := PutRecord(crc, s, delta);
      && Grew(s, o.s)
      && (!o.ok ==> ArchInv(crc, o.s, d, allowed))
      && (o.ok ==> ArchInv(crc, o.s, d.(version := WithTail(d.version, delta)), allowed) && JournalAtEnd(o.s.up))
  {
    hide Denotes, DiskInv, View, SerializeJournalRecord;
    CursorAtEnd(crc, View(s.dev), s.up, d);
    var rec := SerializeJournalRecord(crc, delta);
    PutDataSafe(crc, s, d, allowed, rec);
    var w := PutData(s, rec);
    if w.ok {
      RecordDenotes(crc, View(s.dev), s.up, d, delta);
      var up := w.s.up.(journalLen := w.s.up.journalLen + |rec|);
      assert up == s.up.(writeCursor := |View(s.dev) + rec|, journalLen := s.up.journalLen + |rec|);
      ReplaceUp(crc, w.s, up, d.(version := WithTail(d.version, delta)), allowed);
    }
  }

  lemma StartSafe(crc: Crc, s: Arch, d: Draft, allowed: set<Version>)
    requires ArchInv(crc, s, d, allowed) && (s.up.journalOffset.None? || JournalAtEnd(s.up))
    ensures ArchInv(crc, s.(up := StartJournal(s.up)), d, allowed) && JournalAtEnd(StartJournal(s.up))
  {
    if s.up.journalOffset.None? {
      JournalStarted(crc, View(s.dev), s.up, d);
      ReplaceUp(crc, s, StartJournal(s.up), d, allowed);
    } else {
      assert s.(up := StartJournal(s.up)) == s;
    }
  }

  /** After a successful append the region ends at the write cursor and the tail has grown by the delta;
      after a failed one the tail is what it was. */
  lemma AppendJournalSafe(crc: Crc, s: Arch, d: Draft, allowed: set<Version>, delta: seq<byte>)
    requires ArchInv(crc, s, d, allowed) && |delta| < U32_LIMIT
    ensures var o := AppendJournal(crc, s, delta);
      && ArchInv(crc, o.s, if o.ok then d.(version := WithTail(d.version, delta)) else d, allowed)
      && Grew(s, o.s)
      && (o.ok ==> JournalAtEnd(o.s.up))
  {
    hide Denotes, DiskInv, View;
    RelocateSafe(crc, s, d, allowed);
    var r := RelocateJournal(s);
    if r.ok {
      CursorAtEnd(crc, View(r.s.dev), r.s.up, d);
      StartSafe(crc, r.s, d, allowed);
      var s1 := r.s.(up := StartJournal(r.s.up));
      RecordSafe(crc, s1, d, allowed, delta);
      ExtendsTransitive(View(s.dev), View(r.s.dev), View(PutRecord(crc, s1, delta).s.dev));
    }
  }

  /** Barrier, slot write, barrier: the new version becomes possible, and on success it becomes the only
      possible one. No data byte changes. */
  lemma PublishSafe(crc: Crc, s: Arch, d: Draft, allowed: set<Version>, sb: SuperBlock, v: Version)
    requires ArchInv(crc, s, d, allowed) && SbMeans(crc, View(s.dev), sb, v)
    requires s.up.activeSeq + 1 < U64_LIMIT && sb.seqno == s.up.activeSeq + 1
    ensures var o := Publish(crc, s, sb);
      && o.s.up == s.up && Denotes(crc, View(o.s.dev), s.up, d) && Grew(s, o.s)
      && |View(o.s.dev)| == |View(s.dev)|
      && DiskInv(crc, o.s.dev, OtherSlot(s.up.inactiveOff), s.up.activeSeq, allowed + {v})
      && (o.ok ==> DiskInv(crc, o.s.dev, s.up.inactiveOff, sb.seqno, {v}))
  {
    var active := OtherSlot(s.up.inactiveOff);
    SyncKeeps(crc, s.dev, active, s.up.activeSeq, allowed);
    var b1 := SyncDev(s);
    if !b1.ok {
      AllowedWider(crc, b1.s.dev, active, s.up.activeSeq, allowed, v);
    } else {
      var bytes := SerializeSuperblock(crc, sb);
      var m := SlotMeaning(sb.seqno, v);
      assert PendingMeans(crc, b1.s.dev.durable, bytes, m);
      SlotWriteKeeps(crc, b1.s.dev, active, s.up.activeSeq, allowed, bytes, m);
      SlotWriteView(b1.s.dev, s.up.inactiveOff, bytes);
      assert OtherSlot(active) == s.up.inactiveOff;
      var w := PutSlot(crc, b1.s, sb);
      DenotesGrown(crc, View(s.dev), View(w.s.dev), s.up, d);
      if w.ok {
        SyncKeeps(crc, w.s.dev, active, s.up.activeSeq, allowed + {v});
        if Sync(w.s.dev).ok {
          SlotSyncPublishes(crc, w.s.dev, active, s.up.activeSeq, allowed + {v}, m);
        }
      }
    }
  }

  lemma AllowedWider(crc: Crc, dev: FaultState, active: nat, activeSeq: u64, allowed: set<Version>, v: Version)
    requires DiskInv(crc, dev, active, activeSeq, allowed)
    ensures DiskInv(crc, dev, active, activeSeq, allowed + {v})
  {
    match PendingSlot(dev) {
      case None => SettledWider(crc, dev.durable, active, allowed, {v});
      case Some(w) =>
        SettledWider(crc, dev.durable, OtherSlot(w.off), allowed, {v});
        var m :| PendingMeans(crc, dev.durable, w.bytes, m) && m.version in allowed
           && PendingSeqs(crc, dev.durable, w.off, m.seqno, active, activeSeq);
        assert m.version in allowed + {v};
    }
  }

  lemma ModSmall(n: nat, m: nat)
    requires n < m
    ensures n % m == n
  {
  }

  /** The journal-only commit, used while the index is the committed one. */
  lemma CommitJournalSafe(crc: Crc, s: Arch, d: Draft, allowed: set<Version>)
    requires ArchInv(crc, s, d, allowed) && IndexUnchanged(s.up) && s.up.activeSeq + 1 < U64_LIMIT
    ensures var o := CommitJournal(crc, s);
      var v := d.version.(head := d.carried);
      && ArchInv(crc, o.s, d, if o.ok then {v} else allowed + {v}) && Grew(s, o.s)
  {
    JournalSbMeans(crc, View(s.dev), s.up, d);
    var sb := SbFor(s.up, |s.up.index|, s.up.committedIndex, s.up.committedHead);
    ModSmall(|s.up.index|, U64_LIMIT);
    var v := d.version.(head := d.carried);
    PublishSafe(crc, s, d, allowed, sb, v);
    var p := Publish(crc, s, sb);
    if p.ok {
      FlipSafe(crc, p.s.dev, s.up, d, {v}, sb.seqno);
    } else {
      ReplaceUp(crc, p.s, s.up, d, allowed + {v});
    }
  }

  /** A head cache just appended reads back, with an index to follow it. */
  lemma HeadWritten(img: seq<byte>, h: Head)
    requires DATA_START <= |img| && |img| + |h.stored| <= MAX_FILE_LEN
    ensures var hc := Some(HeadCache(|img|, |h.stored|, h.rawlen, h.verbatim));
      HeadRepresentable(hc) && HeadOf(img + h.stored, |img + h.stored|, hc) == Some(h)
  {
    assert (img + h.stored)[|img|..|img| + |h.stored|] == h.stored;
  }

  lemma PutHeadSafe(crc: Crc, s: Arch, d: Draft, allowed: set<Version>)
    requires ArchInv(crc, s, d, allowed)
    ensures var o := PutHead(s);
      && ArchInv(crc, o.s, d, allowed) && Grew(s, o.s)
      && (o.ok ==>
           var img := View(o.s.dev);
           && o.s.up == s.up.(writeCursor := |img|)
           && HeadRepresentable(HeadDesc(s)) && HeadOf(img, |img|, HeadDesc(s)) == d.version.head)
  {
    if s.up.headCache.Some? {
      var h := s.up.headCache.value;
      PutDataSafe(crc, s, d, allowed, h.stored);
      if PutData(s, h.stored).ok {
        HeadWritten(View(s.dev), h);
      }
    } else {
      assert s.up == s.up.(writeCursor := |View(s.dev)|);
    }
  }

  /** After the index is appended, the superblock of the commit means the draft. */
  lemma PutIndexSafe(crc: Crc, s: Arch, d: Draft, allowed: set<Version>)
    requires ArchInv(crc, s, d, allowed) && s.up.activeSeq + 1 < U64_LIMIT
    ensures var o := PutIndex(s);
      && ArchInv(crc, o.s, d, allowed) && Grew(s, o.s)
      && o.s.up == s.up.(writeCursor := o.s.up.writeCursor) && (o.ok ==> PutHead(s).ok)
      && (o.ok ==>
           var img := View(o.s.dev);
           var desc := NewIndexDesc(crc, s);
           && o.s.up == s.up.(writeCursor := |img|)
           && CommitSb(crc, s).seqno == o.s.up.activeSeq + 1
           && SbMeans(crc, img, CommitSb(crc, s), d.version)
           && desc.offset <= |img| && HeadRepresentable(HeadDesc(s))
           && HeadOf(img, desc.offset, HeadDesc(s)) == d.version.head
           && LoadIndex(crc, img, |s.up.index|, desc.offset, desc.len, desc.crc) == Some(s.up.index))
  {
    hide DiskInv, View, LoadIndex, HeadOf, SbMeans, Validate;
    PutHeadSafe(crc, s, d, allowed);
    var h := PutHead(s);
    if h.ok {
      var bytes := IndexBytes(s.up.index);
      var base := View(h.s.dev);
      PutDataSafe(crc, h.s, d, allowed, bytes);
      var o := PutData(h.s, bytes);
      ExtendsTransitive(View(s.dev), base, View(o.s.dev));
      if o.ok {
        var desc := IndexDesc(|base|, |bytes|, crc(bytes));
        assert SbFor(h.s.up, |s.up.index|, desc, HeadDesc(s)) == CommitSb(crc, s);
        CommitSbMeans(crc, base, h.s.up, d, HeadDesc(s));
        NewIndexLoads(crc, base, s.up.index);
        HeadFrame(base, View(o.s.dev), |base|, HeadDesc(s));
      }
    }
  }

  lemma FinishCommitDenotes(crc: Crc, img: seq<byte>, up: Updater, d: Draft, desc: IndexDesc, head: Option<HeadCache>,
      newSeq: u64)
    requires Denotes(crc, img, up, d)
    requires desc.offset <= |img| && HeadRepresentable(head) && HeadOf(img, desc.offset, head) == d.version.head
    requires |up.index| < U64_LIMIT
      && LoadIndex(crc, img, |up.index|, desc.offset, desc.len, desc.crc) == Some(up.index)
    ensures Denotes(crc, img, FinishCommit(up, desc, head, newSeq), Draft(d.version, d.version.head))
  {
    assert desc.len / INDEX_ENTRY_LEN == |up.index|;
    assert up.index[..|up.index|] == up.index;
  }

  lemma CommitSafe(crc: Crc, s: Arch, d: Draft, allowed: set<Version>)
    requires ArchInv(crc, s, d, allowed) && s.up.activeSeq + 1 < U64_LIMIT
    ensures var o := Commit(crc, s);
      && ArchInv(crc, o.s, if o.ok then Draft(d.version, d.version.head) else d,
                 if o.ok then {d.version} else allowed + {d.version})
      && Grew(s, o.s)
  {
    hide Denotes, DiskInv, View, SbMeans, LoadIndex, HeadOf, PutIndex, CommitSb, NewIndexDesc, HeadDesc;
    CursorAtEnd(crc, View(s.dev), s.up, d);
    PutIndexSafe(crc, s, d, allowed);
    var i := PutIndex(s);
    if !i.ok {
      AllowedWider(crc, i.s.dev, OtherSlot(s.up.inactiveOff), s.up.activeSeq, allowed, d.version);
    } else {
      var sb := CommitSb(crc, s);
      PublishSafe(crc, i.s, d, allowed, sb, d.version);
      var p := Publish(crc, i.s, sb);
      ExtendsTransitive(View(s.dev), View(i.s.dev), View(p.s.dev));
      if p.ok {
        var desc := NewIndexDesc(crc, s);
        LoadIndexFrame(crc, View(i.s.dev), View(p.s.dev), |s.up.index|, desc.offset, desc.len, desc.crc);
        HeadFrame(View(i.s.dev), View(p.s.dev), desc.offset, HeadDesc(s));
        FinishSafe(crc, p.s, d, desc, HeadDesc(s), sb.seqno);
      } else {
        ReplaceUp(crc, p.s, i.s.up, d, allowed + {d.version});
      }
    }
  }

  lemma FinishSafe(crc: Crc, s: Arch, d: Draft, desc: IndexDesc, head: Option<HeadCache>, newSeq: u64)
    requires Denotes(crc, View(s.dev), s.up, d)
    requires DiskInv(crc, s.dev, s.up.inactiveOff, newSeq, {d.version})
    requires desc.offset <= |View(s.dev)| && HeadRepresentable(head)
    requires HeadOf(View(s.dev), desc.offset, head) == d.version.head
    requires |s.up.index| < U64_LIMIT
    requires LoadIndex(crc, View(s.dev), |s.up.index|, desc.offset, desc.len, desc.crc) == Some(s.up.index)
    ensures ArchInv(crc, s.(up := FinishCommit(s.up, desc, head, newSeq)), Draft(d.version, d.version.head),
      {d.version})
  {
    FinishCommitDenotes(crc, View(s.dev), s.up, d, desc, head, newSeq);
    assert OtherSlot(OtherSlot(s.up.inactiveOff)) == s.up.inactiveOff;
  }
}
