/** The device under the archive: a durable image plus an ordered page cache of unsynced writes, with
    armed write and sync failures, and the images a power loss can leave behind (blockio.rs). */
module BlockIo {
  import opened Bytes
  import opened Layout
  import opened Reader

  /** The largest file a positioned write can produce (signed 64-bit file offsets); past it a write fails. */
  const MAX_FILE_LEN: u64 := 0x7FFF_FFFF_FFFF_FFFF

  datatype PendingWrite = PendingWrite(off: nat, bytes: seq<byte>)

  datatype FaultState = FaultState(
    durable: seq<byte>,
    dirty: seq<PendingWrite>,
    failWrite: Option<(nat, nat)>,
    failSyncAt: Option<nat>,
    syncCalls: nat)

  datatype IoResult = IoResult(dev: FaultState, ok: bool)

  function ApplyAll(buf: seq<byte>, writes: seq<PendingWrite>): seq<byte> {
    if |writes| == 0 then buf
    else
      var n := |writes| - 1;
      Apply(ApplyAll(buf, writes[..n]), writes[n].off, writes[n].bytes)
  }

  /** What the process reads: durable bytes under all its own writes. */
  function View(dev: FaultState): seq<byte> {
    ApplyAll(dev.durable, dev.dirty)
  }

  function FreshDevice(img: seq<byte>): FaultState {
    FaultState(img, [], None, None, 0)
  }

  predicate HitsArmedWrite(dev: FaultState, off: nat, len: nat) {
    dev.failWrite.Some? && off < dev.failWrite.value.1 && dev.failWrite.value.0 < off + len
  }

  function WriteAt(dev: FaultState, off: nat, bytes: seq<byte>): IoResult {
    if HitsArmedWrite(dev, off, |bytes|) then IoResult(dev.(failWrite := None), false)
    else if off + |bytes| > MAX_FILE_LEN then IoResult(dev, false)
    else IoResult(dev.(dirty := dev.dirty + [PendingWrite(off, bytes)]), true)
  }

  function Sync(dev: FaultState): IoResult {
    var calls := dev.syncCalls + 1;
    if dev.failSyncAt == Some(calls) then IoResult(dev.(syncCalls := calls, failSyncAt := None), false)
    else IoResult(dev.(syncCalls := calls, durable := View(dev), dirty := []), true)
  }

  /** The byte at `p` is in the range armed to fail. */
  predicate Armed(dev: FaultState, p: nat) {
    dev.failWrite.Some? && dev.failWrite.value.0 <= p < dev.failWrite.value.1
  }

  /** A write of at least a byte fails exactly if the armed range and it share a byte, or it ends past the largest file;
      then nothing changes but the arming. Otherwise the process sees its bytes, and everything else as before. */
  lemma WriteDoes(dev: FaultState, off: nat, bytes: seq<byte>)
    requires bytes != [] && (dev.failWrite.Some? ==> dev.failWrite.value.0 < dev.failWrite.value.1)
    ensures var r := WriteAt(dev, off, bytes);
      && (r.ok <==> (off + |bytes| <= MAX_FILE_LEN && forall p: nat :: off <= p < off + |bytes| ==> !Armed(dev, p)))
      && r.dev.durable == dev.durable && r.dev.failSyncAt == dev.failSyncAt && r.dev.syncCalls == dev.syncCalls
      && (!r.ok ==> View(r.dev) == View(dev) && r.dev.dirty == dev.dirty)
      && (r.ok ==>
            && r.dev.failWrite == dev.failWrite && |View(r.dev)| >= off + |bytes| && |View(r.dev)| >= |View(dev)|
            && forall p: nat :: p < |View(r.dev)| ==>
                 View(r.dev)[p] == if off <= p < off + |bytes| then bytes[p - off]
                                   else if p < |View(dev)| then View(dev)[p] else 0)
  {
    if dev.failWrite.Some? {
      var (lo, hi) := dev.failWrite.value;
      var p := if lo < off then off else lo;
      if HitsArmedWrite(dev, off, |bytes|) { assert Armed(dev, p) && off <= p < off + |bytes|; }
    }
    if WriteAt(dev, off, bytes).ok {
      ViewAfterWrite(dev, PendingWrite(off, bytes));
    }
  }

  /** A barrier fails exactly when the armed one is reached, and then leaves the unsynced writes as they are; otherwise
      what the process sees is durable, and nothing is left unsynced. It sees the same either way. */
  lemma SyncDoes(dev: FaultState)
    ensures var r := Sync(dev);
      && (r.ok <==> dev.failSyncAt != Some(dev.syncCalls + 1)) && View(r.dev) == View(dev)
      && (r.ok ==> r.dev.durable == View(dev) && r.dev.dirty == [])
      && (!r.ok ==> r.dev.durable == dev.durable && r.dev.dirty == dev.dirty)
  {
  }

  // ---- power loss ----

  /** What a power loss does to one unsynced write. */
  datatype Fate = Lost | Whole | Torn(prefix: nat)

  function Survivor(w: PendingWrite, fate: Fate): (r: Option<seq<byte>>)
    ensures r.Some? ==> r.value <= w.bytes
  {
    match fate
    case Lost => None
    case Whole => Some(w.bytes)
    case Torn(k) => if k < |w.bytes| then Some(w.bytes[..k]) else Some(w.bytes)
  }

  /** The image after a power loss: the durable bytes with any subset of the unsynced writes on top, in
      write order, each possibly cut short. */
  function CrashImage(durable: seq<byte>, dirty: seq<PendingWrite>, fates: seq<Fate>): seq<byte>
    requires |fates| == |dirty|
  {
    if |dirty| == 0 then durable
    else
      var n := |dirty| - 1;
      var img := CrashImage(durable, dirty[..n], fates[..n]);
      match Survivor(dirty[n], fates[n])
      case None => img
      case Some(bytes) => Apply(img, dirty[n].off, bytes)
  }

  /** The bytes of an unsynced write that a power loss leaves: none, all, or those of a prefix. */
  function Left(w: PendingWrite, fate: Fate): nat {
    match fate
    case Lost => 0
    case Whole => |w.bytes|
    case Torn(k) => if k < |w.bytes| then k else |w.bytes|
  }

  /** Write `k` is the last to leave a byte at `p`. */
  ghost predicate LastAt(dirty: seq<PendingWrite>, fates: seq<Fate>, p: nat, k: nat)
    requires |fates| == |dirty|
  {
    && k < |dirty| && dirty[k].off <= p < dirty[k].off + Left(dirty[k], fates[k])
    && forall j :: k < j < |dirty| ==> !(dirty[j].off <= p < dirty[j].off + Left(dirty[j], fates[j]))
  }

  /** The image after a power loss, byte by byte: the byte of the last write that left one there, else the durable
      byte, else a zero that a write further on has put there. */
  lemma CrashBytes(durable: seq<byte>, dirty: seq<PendingWrite>, fates: seq<Fate>, p: nat)
    requires |fates| == |dirty| && p < |CrashImage(durable, dirty, fates)|
    ensures forall k: nat :: LastAt(dirty, fates, p, k) ==>
      CrashImage(durable, dirty, fates)[p] == dirty[k].bytes[p - dirty[k].off]
    ensures (forall k: nat :: !LastAt(dirty, fates, p, k)) ==>
      CrashImage(durable, dirty, fates)[p] == if p < |durable| then durable[p] else 0
  {
    hide CrashImage, ByteLeft;
    ImageByte(durable, dirty, fates, p);
    LastLeaves(durable, dirty, fates, p);
  }

  predicate Covers(w: PendingWrite, fate: Fate, p: nat) {
    w.off <= p < w.off + Left(w, fate)
  }

  /** The byte at `p`, looked for from the last write back. */
  function ByteLeft(durable: seq<byte>, dirty: seq<PendingWrite>, fates: seq<Fate>, p: nat): byte
    requires |fates| == |dirty|
  {
    if |dirty| == 0 then (if p < |durable| then durable[p] else 0)
    else
      var n := |dirty| - 1;
      if Covers(dirty[n], fates[n], p) then dirty[n].bytes[p - dirty[n].off]
      else ByteLeft(durable, dirty[..n], fates[..n], p)
  }

  lemma {:induction false} ImageByte(durable: seq<byte>, dirty: seq<PendingWrite>, fates: seq<Fate>, p: nat)
    requires |fates| == |dirty|
    ensures var img := CrashImage(durable, dirty, fates);
      ByteLeft(durable, dirty, fates, p) == if p < |img| then img[p] else 0
    decreases |dirty|
  {
    if |dirty| > 0 {
      ImageByte(durable, dirty[..|dirty| - 1], fates[..|dirty| - 1], p);
    }
  }

  lemma {:induction false} LastLeaves(durable: seq<byte>, dirty: seq<PendingWrite>, fates: seq<Fate>, p: nat)
    requires |fates| == |dirty|
    ensures forall k: nat :: LastAt(dirty, fates, p, k) ==>
      ByteLeft(durable, dirty, fates, p) == dirty[k].bytes[p - dirty[k].off]
    ensures (forall k: nat :: !LastAt(dirty, fates, p, k)) ==>
      ByteLeft(durable, dirty, fates, p) == if p < |durable| then durable[p] else 0
    decreases |dirty|
  {
    if |dirty| > 0 {
      var n := |dirty| - 1;
      if Covers(dirty[n], fates[n], p) {
        assert LastAt(dirty, fates, p, n);
      } else {
        LastLeaves(durable, dirty[..n], fates[..n], p);
        forall k: nat ensures LastAt(dirty, fates, p, k) <==> LastAt(dirty[..n], fates[..n], p, k) {
          LastAtFront(dirty, fates, p, k);
        }
      }
    }
  }

  lemma LastAtFront(dirty: seq<PendingWrite>, fates: seq<Fate>, p: nat, k: nat)
    requires |fates| == |dirty| > 0 && !Covers(dirty[|dirty| - 1], fates[|dirty| - 1], p)
    ensures LastAt(dirty, fates, p, k) <==> LastAt(dirty[..|dirty| - 1], fates[..|dirty| - 1], p, k)
  {
  }

  /** How long it is: as far as the durable bytes and the writes that were not lost reach. */
  lemma {:induction false} CrashReaches(durable: seq<byte>, dirty: seq<PendingWrite>, fates: seq<Fate>)
    requires |fates| == |dirty|
    ensures var img := CrashImage(durable, dirty, fates);
      && |img| >= |durable|
      && (forall k :: 0 <= k < |dirty| && fates[k] != Lost ==> |img| >= dirty[k].off + Left(dirty[k], fates[k]))
      && (|img| == |durable| ||
            exists k :: 0 <= k < |dirty| && fates[k] != Lost && |img| == dirty[k].off + Left(dirty[k], fates[k]))
    decreases |dirty|
  {
    if |dirty| > 0 {
      CrashReaches(durable, dirty[..|dirty| - 1], fates[..|dirty| - 1]);
    }
  }

  /** Losing every write leaves the durable bytes. */
  lemma CrashLosingAll(durable: seq<byte>, dirty: seq<PendingWrite>, fates: seq<Fate>)
    requires |fates| == |dirty| && forall k :: 0 <= k < |fates| ==> fates[k] == Lost
    ensures CrashImage(durable, dirty, fates) == durable
  {
    CrashReaches(durable, dirty, fates);
    forall p: nat | p < |durable| ensures CrashImage(durable, dirty, fates)[p] == durable[p] {
      CrashBytes(durable, dirty, fates, p);
    }
  }

  function AllWhole(n: nat): (f: seq<Fate>)
    ensures |f| == n
  {
    seq(n, _ => Whole)
  }

  /** Losing nothing leaves what the process saw. */
  lemma {:induction false} CrashKeepingAll(durable: seq<byte>, dirty: seq<PendingWrite>)
    ensures CrashImage(durable, dirty, AllWhole(|dirty|)) == ApplyAll(durable, dirty)
  {
    if |dirty| > 0 {
      var n := |dirty| - 1;
      assert AllWhole(|dirty|)[..n] == AllWhole(n);
      CrashKeepingAll(durable, dirty[..n]);
    }
  }

  /** Losing writes never makes the file longer. */
  lemma {:induction false} CrashNotLonger(durable: seq<byte>, dirty: seq<PendingWrite>, fates: seq<Fate>)
    requires |fates| == |dirty|
    ensures |CrashImage(durable, dirty, fates)| <= |ApplyAll(durable, dirty)|
  {
    if |dirty| > 0 {
      CrashNotLonger(durable, dirty[..|dirty| - 1], fates[..|dirty| - 1]);
    }
  }

  lemma ApplyAtEnd(buf: seq<byte>, bytes: seq<byte>)
    ensures Apply(buf, |buf|, bytes) == buf + bytes
  {
  }

  lemma ViewAfterWrite(dev: FaultState, w: PendingWrite)
    ensures View(dev.(dirty := dev.dirty + [w])) == Apply(View(dev), w.off, w.bytes)
  {
    assert (dev.dirty + [w])[..|dev.dirty|] == dev.dirty;
  }

  /** The discipline of the archive: every unsynced write lies past the durable image, except that the
      first may be one whole superblock slot. */
  ghost predicate Disciplined(durable: seq<byte>, dirty: seq<PendingWrite>) {
    forall i :: 0 <= i < |dirty| ==>
      dirty[i].off >= |durable| || (i == 0 && IsSlot(dirty[i].off) && |dirty[i].bytes| == SB_LEN)
  }

  predicate SlotPending(durable: seq<byte>, dirty: seq<PendingWrite>) {
    |dirty| > 0 && dirty[0].off < |durable|
  }

  function SlotBytes(img: seq<byte>, slot: nat): (s: seq<byte>)
    requires IsSlot(slot) && |img| >= DATA_START
    ensures |s| == SB_LEN
  {
    img[slot..slot + SB_LEN]
  }

  /** A write changes no range that it does not meet. */
  lemma ApplyElsewhere(buf: seq<byte>, off: nat, bytes: seq<byte>, lo: nat, hi: nat)
    requires lo <= hi <= |buf| && (hi <= off || off + |bytes| <= lo)
    ensures hi <= |Apply(buf, off, bytes)| && Apply(buf, off, bytes)[lo..hi] == buf[lo..hi]
  {
    assert forall i :: lo <= i < hi ==> Apply(buf, off, bytes)[i] == buf[i];
  }

  /** Whatever a power loss keeps, the durable data area is intact and only the pending slot can change. */
  lemma {:induction false} CrashShape(durable: seq<byte>, dirty: seq<PendingWrite>, fates: seq<Fate>)
    requires |fates| == |dirty| && |durable| >= DATA_START && Disciplined(durable, dirty)
    ensures var img := CrashImage(durable, dirty, fates);
      && |img| >= |durable| && Extends(durable, img) && img[..HEADER_LEN] == durable[..HEADER_LEN]
      && (forall slot | IsSlot(slot) && (SlotPending(durable, dirty) ==> dirty[0].off != slot) ::
            SlotBytes(img, slot) == SlotBytes(durable, slot))
      && (SlotPending(durable, dirty) && fates[0] == Whole ==> SlotBytes(img, dirty[0].off) == dirty[0].bytes)
      && (SlotPending(durable, dirty) && fates[0] == Lost ==>
            SlotBytes(img, dirty[0].off) == SlotBytes(durable, dirty[0].off))
  {
    if |dirty| > 0 {
      var n := |dirty| - 1;
      CrashShape(durable, dirty[..n], fates[..n]);
      var before := CrashImage(durable, dirty[..n], fates[..n]);
      var img := CrashImage(durable, dirty, fates);
      if dirty[n].off >= |durable| {
        assert forall i :: 0 <= i < |durable| ==> img[i] == before[i];
        assert img[..HEADER_LEN] == before[..HEADER_LEN];
        forall slot: nat | IsSlot(slot) ensures SlotBytes(img, slot) == SlotBytes(before, slot) {
          var kept := Survivor(dirty[n], fates[n]);
          if kept.Some? {
            ApplyElsewhere(before, dirty[n].off, kept.value, slot, slot + SB_LEN);
          }
        }
      } else {
        assert n == 0 && before == durable;
        forall slot: nat | IsSlot(slot) && slot != dirty[0].off
          ensures SlotBytes(img, slot) == SlotBytes(durable, slot) {
          var kept := Survivor(dirty[0], fates[0]);
          if kept.Some? {
            ApplyElsewhere(durable, dirty[0].off, kept.value, slot, slot + SB_LEN);
          }
        }
      }
    }
  }

  /** A barrier, failed or not, changes nothing the process sees. */
  lemma SyncShowsSame(dev: FaultState)
    ensures View(Sync(dev).dev) == View(dev)
  {
  }

  lemma SameWrites(d: FaultState, e: FaultState)
    requires d.durable == e.durable && d.dirty == e.dirty
    ensures View(d) == View(e)
  {
  }

  /** A slot write changes that slot and nothing else. */
  lemma WrittenSlot(view: seq<byte>, slot: nat, bytes: seq<byte>)
    requires |view| >= DATA_START && IsSlot(slot) && |bytes| == SB_LEN
    ensures var v2 := Apply(view, slot, bytes);
      |v2| == |view| && SlotBytes(v2, slot) == bytes
        && SlotBytes(v2, OtherSlot(slot)) == SlotBytes(view, OtherSlot(slot))
      && Extends(view, v2)
  {
    ApplyElsewhere(view, slot, bytes, OtherSlot(slot), OtherSlot(slot) + SB_LEN);
  }

  /** The simulator itself: one object shared by the archive and the test that drives it. */
  class FaultIo {
    var durable: seq<byte>
    var dirty: seq<PendingWrite>
    var failWrite: Option<(nat, nat)>
    var failSyncAt: Option<nat>
    var syncCalls: nat

    function State(): FaultState
      reads this
    {
      FaultState(durable, dirty, failWrite, failSyncAt, syncCalls)
    }

    constructor FromBytes(initial: seq<byte>)
      ensures State() == FreshDevice(initial)
    {
      durable, dirty, failWrite, failSyncAt, syncCalls := initial, [], None, None, 0;
    }

    method FailWriteIn(lo: nat, hi: nat)
      modifies this`failWrite
      ensures State() == old(State()).(failWrite := Some((lo, hi)))
    {
      failWrite := Some((lo, hi));
    }

    method FailSyncIn(nthFromNow: nat)
      modifies this`failSyncAt
      ensures State() == old(State()).(failSyncAt := Some(syncCalls + nthFromNow))
    {
      failSyncAt := Some(syncCalls + nthFromNow);
    }

    method Write(off: nat, buf: seq<byte>) returns (ok: bool)
      modifies this
      ensures IoResult(State(), ok) == WriteAt(old(State()), off, buf)
    {
      if failWrite.Some? {
        var (lo, hi) := failWrite.value;
        if off < hi && lo < off + |buf| {
          failWrite := None;
          return false;
        }
      }
      if off + |buf| > MAX_FILE_LEN {
        return false;
      }
      dirty := dirty + [PendingWrite(off, buf)];
      ok := true;
    }

    method ReadView() returns (view: seq<byte>)
      ensures view == View(State())
    {
      view := durable;
      for i := 0 to |dirty|
        invariant view == ApplyAll(durable, dirty[..i])
      {
        assert dirty[..i + 1][..i] == dirty[..i];
        view := Apply(view, dirty[i].off, dirty[i].bytes);
      }
      assert dirty[..|dirty|] == dirty;
    }

    method Read(off: nat, len: nat) returns (r: Option<seq<byte>>)
      ensures r == ReadExact(View(State()), off, len)
    {
      var view := ReadView();
      r := ReadExact(view, off, len);
    }

    method Len() returns (n: nat)
      ensures n == |View(State())|
    {
      n := |durable|;
      for i := 0 to |dirty|
        invariant n == |ApplyAll(durable, dirty[..i])|
      {
        assert dirty[..i + 1][..i] == dirty[..i];
        n := if n < dirty[i].off + |dirty[i].bytes| then dirty[i].off + |dirty[i].bytes| else n;
      }
      assert dirty[..|dirty|] == dirty;
    }

    method SyncAll() returns (ok: bool)
      modifies this
      ensures IoResult(State(), ok) == Sync(old(State()))
    {
      syncCalls := syncCalls + 1;
      if failSyncAt == Some(syncCalls) {
        failSyncAt := None;
        return false;
      }
      var writes := dirty;
      dirty := [];
      for i := 0 to |writes|
        modifies this`durable
        invariant durable == ApplyAll(old(durable), writes[..i])
      {
        assert writes[..i + 1][..i] == writes[..i];
        durable := Apply(durable, writes[i].off, writes[i].bytes);
      }
      assert writes[..|writes|] == writes;
      ok := true;
    }

    method CrashWith(fates: seq<Fate>) returns (img: seq<byte>)
      requires |fates| == |dirty|
      ensures img == CrashImage(durable, dirty, fates)
    {
      img := durable;
      for i := 0 to |dirty|
        invariant img == CrashImage(durable, dirty[..i], fates[..i])
      {
        assert dirty[..i + 1][..i] == dirty[..i] && fates[..i + 1][..i] == fates[..i];
        var s := Survivor(dirty[i], fates[i]);
        if s.Some? {
          img := Apply(img, dirty[i].off, s.value);
        }
      }
      assert dirty[..|dirty|] == dirty && fates[..|dirty|] == fates;
    }
  }
}
