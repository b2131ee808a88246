/** Readers, writers and lock eviction interleaved step by step (rwfs.rs, core/blockcache.rs): the lock table hands
    out one live lock per inode, and the block cache never shows a block that is not the current one.

    The model takes every handler apart into its atomic steps and lets the steps of any number of threads run in
    any order. A thread holds a handle on a lock object, not on an inode: exclusion is between handles on the same
    lock, so that two handlers on one inode exclude each other only because the table keeps one lock for it. */
module InodeLocks {
  import opened Bytes
  import opened BlockCaches

  type Tid = nat
  type Ino = nat
  type LockId = nat

  /** A file as the cache is concerned with it: its decoded blocks and the number of the last one. */
  datatype File = File(blocks: map<nat, seq<byte>>, tailIdx: nat)

  datatype Thread =
    | Idle
    | Handle(ino: Ino, lock: LockId)
    | Reading(ino: Ino, lock: LockId, fetched: Option<nat>, got: map<nat, seq<byte>>)
    | Writing(ino: Ino, lock: LockId, invalidated: bool)

  datatype State = State(
    table: map<Ino, LockId>, nextLock: LockId, threads: map<Tid, Thread>,
    files: map<Ino, File>, cache: map<Key, seq<byte>>)

  datatype Action =
    | LockFor(t: Tid, ino: Ino)
    | AcquireRead(t: Tid)
    | AcquireWrite(t: Tid)
    | CacheGet(t: Tid, idx: nat)
    | Fetch(t: Tid, idx: nat)
    | CacheInsert(t: Tid)
    | Invalidate(t: Tid)
    | Mutate(t: Tid, file: File)
    | Unlock(t: Tid)
    | DropHandle(t: Tid)
    | EvictLock(ino: Ino)
    | CacheEvict(key: Key)

  function ThreadOf(s: State, t: Tid): Thread {
    if t in s.threads then s.threads[t] else Idle
  }

  function At(s: State, t: Tid, th: Thread): State {
    s.(threads := s.threads[t := th])
  }

  function BlockOf(s: State, ino: Ino, idx: nat): Option<seq<byte>> {
    if ino in s.files && idx in s.files[ino].blocks then Some(s.files[ino].blocks[idx]) else None
  }

  /** The thread keeps the lock object alive: it counts towards the handle's strong count. */
  predicate Holds(th: Thread, lock: LockId) {
    !th.Idle? && th.lock == lock
  }

  /** When a step may be taken: the reader-writer lock's rules, the handlers' order of steps, and
      `strong_count == 1` for eviction. */
  ghost predicate Enabled(s: State, a: Action) {
    match a
    case LockFor(t, ino) => ThreadOf(s, t).Idle?
    case AcquireRead(t) =>
      var th := ThreadOf(s, t);
      th.Handle? && forall u: Tid :: ThreadOf(s, u).Writing? ==> ThreadOf(s, u).lock != th.lock
    case AcquireWrite(t) =>
      var th := ThreadOf(s, t);
      th.Handle?
      && forall u: Tid :: ThreadOf(s, u).Writing? || ThreadOf(s, u).Reading? ==> ThreadOf(s, u).lock != th.lock
    case CacheGet(t, idx) => ThreadOf(s, t).Reading? && Key(ThreadOf(s, t).ino, idx) in s.cache
    case Fetch(t, idx) => ThreadOf(s, t).Reading? && BlockOf(s, ThreadOf(s, t).ino, idx).Some?
    case CacheInsert(t) =>
      var th := ThreadOf(s, t);
      th.Reading? && th.fetched.Some? && th.fetched.value in th.got
      && th.ino in s.files && th.fetched.value < s.files[th.ino].tailIdx
    case Invalidate(t) => ThreadOf(s, t).Writing?
    case Mutate(t, _) => ThreadOf(s, t).Writing? && ThreadOf(s, t).invalidated
    case Unlock(t) => ThreadOf(s, t).Reading? || ThreadOf(s, t).Writing?
    case DropHandle(t) => ThreadOf(s, t).Handle?
    case EvictLock(ino) => ino in s.table && forall u: Tid :: !Holds(ThreadOf(s, u), s.table[ino])
    case CacheEvict(key) => key in s.cache
  }

  function Next(s: State, a: Action): State {
    match a
    case LockFor(t, ino) =>
      if ino in s.table then At(s, t, Handle(ino, s.table[ino]))
      else At(s.(table := s.table[ino := s.nextLock], nextLock := s.nextLock + 1), t, Handle(ino, s.nextLock))
    case AcquireRead(t) =>
      var th := ThreadOf(s, t);
      if th.Handle? then At(s, t, Reading(th.ino, th.lock, None, map[])) else s
    case AcquireWrite(t) =>
      var th := ThreadOf(s, t);
      if th.Handle? then At(s, t, Writing(th.ino, th.lock, false)) else s
    case CacheGet(t, idx) =>
      var th := ThreadOf(s, t);
      if th.Reading? && Key(th.ino, idx) in s.cache
        then At(s, t, th.(got := th.got[idx := s.cache[Key(th.ino, idx)]])) else s
    case Fetch(t, idx) =>
      var th := ThreadOf(s, t);
      if th.Reading? && BlockOf(s, th.ino, idx).Some?
      then At(s, t, th.(fetched := Some(idx), got := th.got[idx := BlockOf(s, th.ino, idx).value])) else s
    case CacheInsert(t) =>
      var th := ThreadOf(s, t);
      if th.Reading? && th.fetched.Some? && th.fetched.value in th.got
      then s.(cache := s.cache[Key(th.ino, th.fetched.value) := th.got[th.fetched.value]]) else s
    case Invalidate(t) =>
      var th := ThreadOf(s, t);
      if th.Writing?
        then At(s.(cache := map k | k in s.cache && k.ino != th.ino :: s.cache[k]), t, th.(invalidated := true)) else s
    case Mutate(t, file) =>
      var th := ThreadOf(s, t);
      if th.Writing? then s.(files := s.files[th.ino := file]) else s
    case Unlock(t) =>
      var th := ThreadOf(s, t);
      if th.Reading? || th.Writing? then At(s, t, Handle(th.ino, th.lock)) else s
    case DropHandle(t) => At(s, t, Idle)
    case EvictLock(ino) => s.(table := s.table - {ino})
    case CacheEvict(key) => s.(cache := s.cache - {key})
  }

  // ---- the invariant ----

  /** Every live handle is the table's own lock for its inode, and no two inodes share a lock. */
  ghost predicate OneLockPerInode(s: State) {
    && (forall t: Tid :: HandleIsCurrent(s, t))
    && (forall i, j :: i in s.table && j in s.table && s.table[i] == s.table[j] ==> i == j)
    && (forall i :: i in s.table ==> s.table[i] < s.nextLock)
  }

  ghost predicate HandleIsCurrent(s: State, t: Tid) {
    var th := ThreadOf(s, t);
    !th.Idle? ==> th.ino in s.table && s.table[th.ino] == th.lock
  }

  /** A writer has its inode to itself. */
  ghost predicate Exclusive(s: State) {
    forall t: Tid, u: Tid :: ExcludeEachOther(s, t, u)
  }

  ghost predicate ExcludeEachOther(s: State, t: Tid, u: Tid) {
    var a, b := ThreadOf(s, t), ThreadOf(s, u);
    t != u && a.Writing? && (b.Writing? || b.Reading?) ==> a.ino != b.ino
  }

  /** Every cached block is the file's current block; behind a writer that has invalidated there is none. */
  ghost predicate CacheCurrent(s: State) {
    && (forall k :: k in s.cache ==> BlockOf(s, k.ino, k.idx) == Some(s.cache[k]))
    && (forall t: Tid :: NothingCachedBehind(s, t))
  }

  ghost predicate NothingCachedBehind(s: State, t: Tid) {
    var th := ThreadOf(s, t);
    th.Writing? && th.invalidated ==> forall k :: k in s.cache ==> k.ino != th.ino
  }

  /** Everything a reader holds, from cache or store, is current. */
  ghost predicate ReaderCurrent(s: State, t: Tid) {
    var th := ThreadOf(s, t);
    th.Reading? ==> forall i :: i in th.got ==> BlockOf(s, th.ino, i) == Some(th.got[i])
  }

  ghost predicate ReadersCurrent(s: State) {
    forall t: Tid :: ReaderCurrent(s, t)
  }

  ghost predicate Inv(s: State) {
    OneLockPerInode(s) && Exclusive(s) && CacheCurrent(s) && ReadersCurrent(s)
  }

  function Init(files: map<Ino, File>): State {
    State(map[], 0, map[], files, map[])
  }

  // ---- runs ----

  function RunFrom(s: State, run: seq<Action>): State
    decreases |run|
  {
    if run == [] then s else RunFrom(Next(s, run[0]), run[1..])
  }

  ghost predicate RunEnabled(s: State, run: seq<Action>)
    decreases |run|
  {
    run == [] || (Enabled(s, run[0]) && RunEnabled(Next(s, run[0]), run[1..]))
  }

  lemma InitInv(files: map<Ino, File>)
    ensures Inv(Init(files))
  {
  }

  lemma HandleStep(s: State, a: Action, t: Tid)
    requires HandleIsCurrent(s, t) && (forall i :: i in s.table ==> s.table[i] < s.nextLock) && Enabled(s, a)
    ensures HandleIsCurrent(Next(s, a), t)
  {
    if a.EvictLock? {
      assert !Holds(ThreadOf(s, t), s.table[a.ino]);
    } else if !a.LockFor? {
      SameHandle(s, Next(s, a), t);
    }
  }

  lemma LocksStep(s: State, a: Action)
    requires OneLockPerInode(s) && Enabled(s, a)
    ensures OneLockPerInode(Next(s, a))
  {
    hide HandleIsCurrent, Enabled, BlockOf;
    forall t: Tid ensures HandleIsCurrent(Next(s, a), t) {
      HandleStep(s, a, t);
    }
  }

  lemma SameHandle(s: State, s2: State, t: Tid)
    requires HandleIsCurrent(s, t) && s2.table == s.table
    requires var a, b := ThreadOf(s, t), ThreadOf(s2, t); b.Idle? || (!a.Idle? && b.ino == a.ino && b.lock == a.lock)
    ensures HandleIsCurrent(s2, t)
  {
  }

  lemma ExclusiveStep(s: State, a: Action)
    requires OneLockPerInode(s) && Exclusive(s) && Enabled(s, a)
    ensures Exclusive(Next(s, a))
  {
    hide BlockOf;
    var s2 := Next(s, a);
    forall t: Tid, u: Tid ensures ExcludeEachOther(s2, t, u) {
      assert ExcludeEachOther(s, t, u);
      assert HandleIsCurrent(s, t) && HandleIsCurrent(s, u);
    }
  }

  lemma CacheStep(s: State, a: Action)
    requires Exclusive(s) && CacheCurrent(s) && ReadersCurrent(s) && Enabled(s, a)
    ensures CacheCurrent(Next(s, a))
  {
    var s2 := Next(s, a);
    forall t: Tid ensures NothingCachedBehind(s2, t) {
      assert NothingCachedBehind(s, t);
      if a.CacheInsert? {
        assert ExcludeEachOther(s, t, a.t);
      }
    }
    forall k | k in s2.cache ensures BlockOf(s2, k.ino, k.idx) == Some(s2.cache[k]) {
      if a.CacheInsert? { assert ReaderCurrent(s, a.t); }
      if a.Mutate? { assert NothingCachedBehind(s, a.t); }
    }
  }

  lemma ReadersStep(s: State, a: Action)
    requires Exclusive(s) && CacheCurrent(s) && ReadersCurrent(s) && Enabled(s, a)
    ensures ReadersCurrent(Next(s, a))
  {
    var s2 := Next(s, a);
    forall t: Tid ensures ReaderCurrent(s2, t) {
      assert ReaderCurrent(s, t);
      if a.Mutate? {
        assert ExcludeEachOther(s, a.t, t);
      } else if ThreadOf(s2, t) == ThreadOf(s, t) {
        KeptReader(s, s2, t);
      } else if a.CacheGet? {
        HitIsCurrent(s, ThreadOf(s, t).ino, a.idx);
        GotOneMore(s, s2, t, a.idx, s.cache[Key(ThreadOf(s, t).ino, a.idx)]);
      } else if a.Fetch? {
        GotOneMore(s, s2, t, a.idx, BlockOf(s, ThreadOf(s, t).ino, a.idx).value);
      }
    }
  }

  lemma KeptReader(s: State, s2: State, t: Tid)
    requires ReaderCurrent(s, t) && s2.files == s.files && ThreadOf(s2, t) == ThreadOf(s, t)
    ensures ReaderCurrent(s2, t)
  {
  }

  lemma GotOneMore(s: State, s2: State, t: Tid, idx: nat, block: seq<byte>)
    requires ReaderCurrent(s, t) && s2.files == s.files && ThreadOf(s, t).Reading? && ThreadOf(s2, t).Reading?
    requires ThreadOf(s2, t).ino == ThreadOf(s, t).ino && ThreadOf(s2, t).got == ThreadOf(s, t).got[idx := block]
    requires BlockOf(s, ThreadOf(s, t).ino, idx) == Some(block)
    ensures ReaderCurrent(s2, t)
  {
  }

  lemma HitIsCurrent(s: State, ino: Ino, idx: nat)
    requires CacheCurrent(s) && Key(ino, idx) in s.cache
    ensures BlockOf(s, ino, idx) == Some(s.cache[Key(ino, idx)])
  {
    var k := Key(ino, idx);
    assert BlockOf(s, k.ino, k.idx) == Some(s.cache[k]);
  }

  lemma StepInv(s: State, a: Action)
    requires Inv(s) && Enabled(s, a)
    ensures Inv(Next(s, a))
  {
    LocksStep(s, a);
    ExclusiveStep(s, a);
    CacheStep(s, a);
    ReadersStep(s, a);
  }

  /** Under any interleaving of any number of handlers, from an empty table and cache. */
  lemma {:induction false} RunInv(s: State, run: seq<Action>)
    requires Inv(s) && RunEnabled(s, run)
    ensures Inv(RunFrom(s, run))
    decreases |run|
  {
    if run != [] {
      StepInv(s, run[0]);
      RunInv(Next(s, run[0]), run[1..]);
    }
  }

  /** No stale read: in every reachable state a cache hit gives the file's current block. */
  lemma NoStaleHit(files: map<Ino, File>, run: seq<Action>, t: Tid, idx: nat)
    requires RunEnabled(Init(files), run) && Enabled(RunFrom(Init(files), run), CacheGet(t, idx))
    ensures var s := RunFrom(Init(files), run);
      var th := ThreadOf(Next(s, CacheGet(t, idx)), t);
      th.Reading? && idx in th.got && BlockOf(s, th.ino, idx) == Some(th.got[idx])
  {
    InitInv(files);
    RunInv(Init(files), run);
  }

  /** One live lock: in every reachable state two threads that hold handles for one inode hold the same lock. */
  lemma OneLiveLock(files: map<Ino, File>, run: seq<Action>, t: Tid, u: Tid)
    requires RunEnabled(Init(files), run)
    ensures var a, b := ThreadOf(RunFrom(Init(files), run), t), ThreadOf(RunFrom(Init(files), run), u);
      !a.Idle? && !b.Idle? ==> (a.ino == b.ino <==> a.lock == b.lock)
  {
    InitInv(files);
    RunInv(Init(files), run);
    var s := RunFrom(Init(files), run);
    assert HandleIsCurrent(s, t) && HandleIsCurrent(s, u);
  }

  /** The reader `t` neither unlocks nor starts anew during the run. */
  ghost predicate StaysReading(s: State, run: seq<Action>, t: Tid)
    decreases |run|
  {
    ThreadOf(s, t).Reading? && (run == [] || (run[0] != Unlock(t) && StaysReading(Next(s, run[0]), run[1..], t)))
  }

  /** Nobody changes the file of a reader that goes on reading. */
  lemma SnapshotStep(s: State, a: Action, t: Tid)
    requires Inv(s) && Enabled(s, a) && a != Unlock(t) && ThreadOf(s, t).Reading? && ThreadOf(Next(s, a), t).Reading?
    ensures var ino := ThreadOf(s, t).ino;
      ThreadOf(Next(s, a), t).ino == ino && forall i: nat :: BlockOf(Next(s, a), ino, i) == BlockOf(s, ino, i)
  {
    hide OneLockPerInode, CacheCurrent, ReaderCurrent;
    if a.Mutate? { assert ExcludeEachOther(s, a.t, t); }
  }

  /** A read is a snapshot: while it holds its lock, whatever the others do, its file does not change, so that all
      the blocks it has gathered belong to one version. */
  lemma {:induction false} ReadIsSnapshot(s: State, run: seq<Action>, t: Tid)
    requires Inv(s) && RunEnabled(s, run) && StaysReading(s, run, t)
    ensures var s2 := RunFrom(s, run);
      && ThreadOf(s2, t).Reading? && ThreadOf(s2, t).ino == ThreadOf(s, t).ino
      && (forall i: nat :: BlockOf(s2, ThreadOf(s, t).ino, i) == BlockOf(s, ThreadOf(s, t).ino, i))
      && (forall i :: i in ThreadOf(s2, t).got ==> BlockOf(s, ThreadOf(s, t).ino, i) == Some(ThreadOf(s2, t).got[i]))
    decreases |run|
  {
    if run == [] {
      assert ReaderCurrent(s, t);
    } else {
      hide Inv, Next, Enabled, BlockOf, ThreadOf;
      StepInv(s, run[0]);
      SnapshotStep(s, run[0], t);
      ReadIsSnapshot(Next(s, run[0]), run[1..], t);
    }
  }

  /** The `strong_count == 1` test is exactly what is needed: removing a table entry keeps the locks sound if and
      only if nobody holds that lock. */
  lemma EvictionGuardExact(s: State, ino: Ino)
    requires OneLockPerInode(s) && ino in s.table
    ensures OneLockPerInode(Next(s, EvictLock(ino))) <==> Enabled(s, EvictLock(ino))
  {
    var s2 := Next(s, EvictLock(ino));
    if Enabled(s, EvictLock(ino)) {
      LocksStep(s, EvictLock(ino));
    } else {
      var u: Tid :| Holds(ThreadOf(s, u), s.table[ino]);
      assert HandleIsCurrent(s, u);
      assert !HandleIsCurrent(s2, u);
    }
  }

  /** So is invalidating first: a writer may put any new version in place without leaving a stale block behind if
      and only if none of its file's blocks is cached. */
  lemma InvalidationExact(s: State, t: Tid)
    requires Inv(s) && ThreadOf(s, t).Writing?
    ensures (forall file: File :: CacheCurrent(Next(s, Mutate(t, file)))) <==>
      (forall k :: k in s.cache ==> k.ino != ThreadOf(s, t).ino)
  {
    var ino := ThreadOf(s, t).ino;
    if k: Key :| k in s.cache && k.ino == ino {
      var s2 := Next(s, Mutate(t, File(map[], 0)));
      assert BlockOf(s2, k.ino, k.idx) == None;
      assert !CacheCurrent(s2);
    } else {
      forall file: File ensures CacheCurrent(Next(s, Mutate(t, file))) {
        var s2 := Next(s, Mutate(t, file));
        forall u: Tid ensures NothingCachedBehind(s2, u) { assert NothingCachedBehind(s, u); }
        forall k | k in s2.cache ensures BlockOf(s2, k.ino, k.idx) == Some(s2.cache[k]) {
          assert BlockOf(s, k.ino, k.idx) == Some(s.cache[k]);
        }
      }
    }
  }
}
