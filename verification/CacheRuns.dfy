/** Whole runs of the block cache: the four structures act as one list, whatever the calls and the memory probes. */
module CacheRuns {
  import opened Bytes
  import opened BlockCaches

  datatype Op = Get(key: Key) | Insert(key: Key, bytes: seq<byte>, probe: Option<Option<nat>>) | Invalidate(ino: nat)

  /** The list, and the byte budget the last probe left. */
  datatype Lru = Lru(entries: seq<Entry>, cap: nat)

  function Find(l: seq<Entry>, k: Key): Option<seq<byte>> {
    if l == [] then None
    else if l[|l| - 1].key == k then Some(l[|l| - 1].bytes)
    else Find(l[..|l| - 1], k)
  }

  function StepLru(s: Lru, configured: nat, op: Op): Lru {
    match op
    case Get(k) =>
      var found := Find(s.entries, k);
      if found.None? then s else s.(entries := Keep(s.entries, NotKey(k)) + [Entry(k, found.value)])
    case Insert(k, bytes, probe) =>
      if configured == 0 then s
      else
        var cap := if probe.None? then s.cap else EffectiveCap(probe.value, TotalBytes(s.entries), configured);
        Lru(Inserted(s.entries, k, bytes, cap), cap)
    case Invalidate(ino) => s.(entries := Keep(s.entries, OtherIno(ino)))
  }

  function RunLru(s: Lru, configured: nat, ops: seq<Op>): Lru
    decreases |ops|
  {
    if ops == [] then s else RunLru(StepLru(s, configured, ops[0]), configured, ops[1..])
  }

  lemma {:induction false} FindIn(l: seq<Entry>, k: Key)
    ensures Find(l, k).Some? ==> Entry(k, Find(l, k).value) in l
    ensures Find(l, k).None? ==> forall e :: e in l ==> e.key != k
  {
    if l != [] {
      FindIn(l[..|l| - 1], k);
      assert l == l[..|l| - 1] + [l[|l| - 1]];
    }
  }

  method Perform(cache: BlockCache, op: Op) returns (r: Option<seq<byte>>)
    requires cache.Valid()
    modifies cache
    ensures cache.Valid()
    ensures Lru(cache.Lru(), cache.effCap) == StepLru(Lru(old(cache.Lru()), old(cache.effCap)), cache.configuredCap, op)
    ensures op.Get? ==> r == Find(old(cache.Lru()), op.key)
  {
    hide Keep, Inserted, TotalBytes, Indexed, ByIno, ListOf, Find;
    r := None;
    match op
    case Get(k) =>
      FoundIsCached(cache, k);
      r := cache.Get(k.ino, k.idx);
    case Insert(k, bytes, probe) =>
      cache.Insert(k.ino, k.idx, bytes, probe);
    case Invalidate(ino) =>
      cache.Invalidate(ino);
  }

  lemma FoundIsCached(cache: BlockCache, k: Key)
    requires cache.Valid()
    ensures Find(cache.Lru(), k) == cache.Cached(k)
  {
    hide ListOf, TotalBytes, ByIno;
    ListEntries(cache.order, cache.nodes, cache.clock + 1);
    FindIn(cache.Lru(), k);
    if k in cache.nodes {
      assert Entry(k, cache.nodes[k].bytes) in cache.Lru();
    }
  }

  /** Every run of calls leaves the list the specification's run leaves, within the configured budget. */
  method RunCache(configured: nat, ops: seq<Op>) returns (cache: BlockCache)
    ensures cache.Valid()
    ensures Lru(cache.Lru(), cache.effCap) == RunLru(Lru([], configured), configured, ops)
    ensures TotalBytes(cache.Lru()) <= configured
  {
    hide StepLru, ListOf, TotalBytes, Indexed, ByIno;
    cache := new BlockCache(configured);
    var i := 0;
    assert ops[i..] == ops;
    while i < |ops|
      invariant 0 <= i <= |ops| && cache.Valid() && fresh(cache) && cache.configuredCap == configured
      invariant RunLru(Lru(cache.Lru(), cache.effCap), configured, ops[i..]) ==
        RunLru(Lru([], configured), configured, ops)
    {
      var r := Perform(cache, ops[i]);
      assert ops[i..][0] == ops[i] && ops[i..][1..] == ops[i + 1..];
      i := i + 1;
    }
  }

  /** A zero budget does not empty the cache: an insert then drops its own key and leaves every other entry. */
  lemma {:induction false} ZeroBudgetKeepsOthers(l: seq<Entry>, k: Key, bytes: seq<byte>)
    ensures forall e :: e in Inserted(l, k, bytes, 0) <==> e in l && e.key != k
    ensures Inserted(l, k, bytes, 0) == [] <==> forall e :: e in l ==> e.key == k
  {
    KeepsMembers(l, NotKey(k));
    var r := Inserted(l, k, bytes, 0);
    if r != [] { assert r[0] in r; }
  }

  lemma {:induction false} KeepsMembers(l: seq<Entry>, p: Key -> bool)
    ensures forall e :: e in Keep(l, p) <==> e in l && p(e.key)
  {
    if l != [] {
      KeepsMembers(l[..|l| - 1], p);
      assert l == l[..|l| - 1] + [l[|l| - 1]];
    }
  }
}
