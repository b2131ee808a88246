/** What the lock protocol lets happen, told by inodes instead of lock objects, and what each step does (rwfs.rs,
    core/blockcache.rs). */
module LockLaws {
  import opened Bytes
  import opened BlockCaches
  import opened InodeLocks

  ghost predicate Alone(s: State, t: Tid, ino: Ino) {
    forall u: Tid :: (ThreadOf(s, u).Reading? || ThreadOf(s, u).Writing?) && ThreadOf(s, u).ino == ino ==> u == t
  }

  ghost predicate NoWriter(s: State, ino: Ino) {
    forall u: Tid :: ThreadOf(s, u).Writing? ==> ThreadOf(s, u).ino != ino
  }

  /** When a step may be taken, in every reachable state: readers of a file keep out its writers only, a writer keeps
      out everybody, and locks of other files play no part; a lock leaves the table only when nobody has its file at
      hand. */
  lemma MayExactly(s: State, a: Action)
    requires Inv(s)
    ensures Enabled(s, a) <==>
      match a
      case LockFor(t, _) => ThreadOf(s, t).Idle?
      case AcquireRead(t) => ThreadOf(s, t).Handle? && NoWriter(s, ThreadOf(s, t).ino)
      case AcquireWrite(t) => ThreadOf(s, t).Handle? && Alone(s, t, ThreadOf(s, t).ino)
      case CacheGet(t, idx) => ThreadOf(s, t).Reading? && Cached(s, ThreadOf(s, t).ino, idx).Some?
      case Fetch(t, idx) => ThreadOf(s, t).Reading? && Stored(s, ThreadOf(s, t).ino, idx).Some?
      case CacheInsert(t) => ThreadOf(s, t).Reading? && Insertable(s, ThreadOf(s, t))
      case Invalidate(t) => ThreadOf(s, t).Writing?
      case Mutate(t, _) => ThreadOf(s, t).Writing? && ThreadOf(s, t).invalidated
      case Unlock(t) => ThreadOf(s, t).Reading? || ThreadOf(s, t).Writing?
      case DropHandle(t) => ThreadOf(s, t).Handle?
      case EvictLock(ino) => ino in s.table && forall u: Tid :: ThreadOf(s, u).Idle? || ThreadOf(s, u).ino != ino
      case CacheEvict(k) => k in s.cache
  {
    hide CacheCurrent, ReadersCurrent, Exclusive;
    forall t: Tid, u: Tid | !ThreadOf(s, t).Idle? && !ThreadOf(s, u).Idle?
      ensures ThreadOf(s, t).lock == ThreadOf(s, u).lock <==> ThreadOf(s, t).ino == ThreadOf(s, u).ino
    {
      assert HandleIsCurrent(s, t) && HandleIsCurrent(s, u);
    }
    if a.EvictLock? && a.ino in s.table {
      forall u: Tid ensures Holds(ThreadOf(s, u), s.table[a.ino]) <==>
          !ThreadOf(s, u).Idle? && ThreadOf(s, u).ino == a.ino {
        assert HandleIsCurrent(s, u);
      }
    }
  }

  function Stored(s: State, ino: Ino, idx: nat): Option<seq<byte>> {
    if ino in s.files && idx in s.files[ino].blocks then Some(s.files[ino].blocks[idx]) else None
  }

  function Cached(s: State, ino: Ino, idx: nat): Option<seq<byte>> {
    if Key(ino, idx) in s.cache then Some(s.cache[Key(ino, idx)]) else None
  }

  /** The block fetched last lies before the last one of the file. */
  predicate Insertable(s: State, th: Thread) {
    th.Reading? && th.fetched.Some? && th.fetched.value in th.got
    && th.ino in s.files && th.fetched.value < s.files[th.ino].tailIdx
  }

  /** A step of one thread leaves the others where they are. */
  lemma OthersStay(s: State, a: Action, u: Tid)
    requires match a case EvictLock(_) => true case CacheEvict(_) => true case _ => u != a.t
    ensures ThreadOf(Next(s, a), u) == ThreadOf(s, u)
  {
  }

  /** Who gets in: a handle, the shared lock, the exclusive one; and out again. */
  lemma Enters(s: State, a: Action)
    requires Inv(s) && Enabled(s, a)
    ensures var s2 := Next(s, a);
      match a
      case LockFor(t, ino) => ThreadOf(s2, t).Handle? && ThreadOf(s2, t).ino == ino
      case AcquireRead(t) =>
        ThreadOf(s2, t).Reading? && ThreadOf(s2, t).ino == ThreadOf(s, t).ino && ThreadOf(s2, t).got == map[]
      case AcquireWrite(t) =>
        ThreadOf(s2, t).Writing? && ThreadOf(s2, t).ino == ThreadOf(s, t).ino && !ThreadOf(s2, t).invalidated
      case Unlock(t) => ThreadOf(s2, t).Handle? && ThreadOf(s2, t).ino == ThreadOf(s, t).ino
      case DropHandle(t) => ThreadOf(s2, t).Idle?
      case EvictLock(ino) => ino !in s2.table && s2.table.Keys == s.table.Keys - {ino}
      case _ => true
    ensures a.LockFor? || a.AcquireRead? || a.AcquireWrite? || a.Unlock? || a.DropHandle? || a.EvictLock? ==>
      Next(s, a).files == s.files && Next(s, a).cache == s.cache
  {
    hide CacheCurrent, ReadersCurrent, Exclusive, OneLockPerInode;
  }

  /** What a reader gets: the block as it is now, added to those it has; a cached one from the cache, and what it puts
      into the cache is the block it fetched. */
  lemma Reads(s: State, a: Action)
    requires Inv(s) && Enabled(s, a) && (a.CacheGet? || a.Fetch? || a.CacheInsert?)
    ensures var s2, ino := Next(s, a), ThreadOf(s, a.t).ino;
      && s2.files == s.files && ThreadOf(s2, a.t).Reading? && ThreadOf(s2, a.t).ino == ino
      && (a.CacheInsert? ==>
            && s2.cache.Keys == s.cache.Keys + {Key(ino, ThreadOf(s, a.t).fetched.value)}
            && ThreadOf(s2, a.t) == ThreadOf(s, a.t))
      && (!a.CacheInsert? ==>
            && s2.cache == s.cache && ThreadOf(s2, a.t).got.Keys == ThreadOf(s, a.t).got.Keys + {a.idx}
            && Stored(s, ino, a.idx) == Some(ThreadOf(s2, a.t).got[a.idx])
            && (a.Fetch? ==> ThreadOf(s2, a.t).fetched == Some(a.idx)))
      && (forall k: Key :: k in s2.cache ==> Stored(s, k.ino, k.idx) == Some(s2.cache[k]))
  {
    hide OneLockPerInode, Exclusive;
    StepInv(s, a);
    assert ReaderCurrent(Next(s, a), a.t);
    assert CacheCurrent(Next(s, a));
    forall k: Key | k in Next(s, a).cache ensures Stored(s, k.ino, k.idx) == Some(Next(s, a).cache[k]) {
      assert BlockOf(Next(s, a), k.ino, k.idx) == Some(Next(s, a).cache[k]);
    }
    if a.CacheGet? { HitIsCurrent(s, ThreadOf(s, a.t).ino, a.idx); }
  }

  /** What a writer does: invalidation drops exactly its file's blocks, and the new version is the file. */
  lemma Writes(s: State, a: Action)
    requires Inv(s) && Enabled(s, a) && (a.Invalidate? || a.Mutate?)
    ensures var s2, ino := Next(s, a), ThreadOf(s, a.t).ino;
      && ThreadOf(s2, a.t).Writing? && ThreadOf(s2, a.t).ino == ino && ThreadOf(s2, a.t).invalidated
      && (a.Invalidate? ==>
            s2.files == s.files
            && forall i: Ino, idx: nat :: Cached(s2, i, idx) == if i == ino then None else Cached(s, i, idx))
      && (a.Mutate? ==>
            && s2.cache == s.cache && ino in s2.files && s2.files[ino] == a.file
            && forall other :: other != ino ==>
                 (other in s2.files <==> other in s.files) && (other in s.files ==> s2.files[other] == s.files[other]))
  {
    hide OneLockPerInode, CacheCurrent, ReadersCurrent, Exclusive;
  }
}
