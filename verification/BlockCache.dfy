/** The decompressed-block cache: four mutually redundant structures that behave as one least-recently-used list
    under a byte budget (core/blockcache.rs). */
module BlockCaches {
  import opened Bytes
  import opened Positions

  datatype Key = Key(ino: nat, idx: nat)
  datatype Node = Node(bytes: seq<byte>, stamp: nat)

  const RESERVE_BYTES: nat := 256 * 1024 * 1024

  // ---- the specification: a list of entries, least recently used first ----

  datatype Entry = Entry(key: Key, bytes: seq<byte>)

  function TotalBytes(l: seq<Entry>): nat {
    if l == [] then 0 else TotalBytes(l[..|l| - 1]) + |l[|l| - 1].bytes|
  }

  /** The entries whose key satisfies `p`, in order. */
  function Keep(l: seq<Entry>, p: Key -> bool): seq<Entry> {
    if l == [] then []
    else
      var last := l[|l| - 1];
      if p(last.key) then Keep(l[..|l| - 1], p) + [last] else Keep(l[..|l| - 1], p)
  }

  function NotKey(k: Key): Key -> bool { (x: Key) => x != k }
  function OtherIno(ino: nat): Key -> bool { (x: Key) => x.ino != ino }

  /** Drop the oldest entries until `need` more bytes fit. */
  function Evict(l: seq<Entry>, need: nat, cap: nat): seq<Entry> {
    if l == [] || TotalBytes(l) + need <= cap then l else Evict(l[1..], need, cap)
  }

  function Inserted(l: seq<Entry>, k: Key, bytes: seq<byte>, cap: nat): seq<Entry> {
    var rest := Keep(l, NotKey(k));
    if cap == 0 || |bytes| > cap then rest else Evict(rest, |bytes|, cap) + [Entry(k, bytes)]
  }

  /** The byte budget after a memory probe; `None` when the probe has no answer. */
  function EffectiveCap(available: Option<nat>, curBytes: nat, configured: nat): (r: nat)
    ensures r <= configured
  {
    if available.None? then configured
    else
      var effective := if available.value + curBytes >= U64_LIMIT then U64_LIMIT - 1 else available.value + curBytes;
      var budget := (if effective > RESERVE_BYTES then effective - RESERVE_BYTES else 0) / 2;
      if budget < configured then budget else configured
  }

  lemma {:induction false} TotalSplit(l: seq<Entry>, n: nat)
    requires n <= |l|
    ensures TotalBytes(l) == TotalBytes(l[..n]) + TotalBytes(l[n..])
    decreases |l|
  {
    if n < |l| {
      var k := |l| - 1;
      TotalSplit(l[..k], n);
      assert l[..k][..n] == l[..n] && l[..k][n..] == l[n..][..k - n];
      assert l[n..][k - n] == l[k];
    } else {
      assert l[..n] == l;
    }
  }

  /** What is evicted is the shortest least-recent prefix that makes room. */
  lemma {:induction false} EvictsShortestPrefix(l: seq<Entry>, need: nat, cap: nat) returns (n: nat)
    requires need <= cap
    ensures n <= |l| && Evict(l, need, cap) == l[n..] && TotalBytes(l[n..]) + need <= cap
    ensures forall j: nat :: j < n ==> TotalBytes(l[j..]) + need > cap
    decreases |l|
  {
    if l == [] || TotalBytes(l) + need <= cap {
      assert l[0..] == l;
      return 0;
    }
    var m := EvictsShortestPrefix(l[1..], need, cap);
    n := m + 1;
    assert l[1..][m..] == l[n..];
    forall j: nat | j < n ensures TotalBytes(l[j..]) + need > cap {
      if j == 0 { assert l[0..] == l; } else { assert l[1..][j - 1..] == l[j..]; }
    }
  }

  /** `kept` is the longest recent end of `rest` within `room` bytes. */
  ghost predicate LongestRecent(rest: seq<Entry>, kept: seq<Entry>, room: int) {
    exists n: nat :: LongestFrom(rest, kept, room, n)
  }

  ghost predicate LongestFrom(rest: seq<Entry>, kept: seq<Entry>, room: int, n: nat) {
    n <= |rest| && kept == rest[n..] && TotalBytes(kept) <= room && (n > 0 ==> TotalBytes(rest[n - 1..]) > room)
  }

  /** What an insert leaves: a block within a positive budget comes last, behind the longest recent end of the other
      entries that it leaves room for; any other block only loses its key. */
  ghost predicate InsertLeaves(l: seq<Entry>, k: Key, bytes: seq<byte>, cap: nat, l2: seq<Entry>) {
    if 0 < cap && |bytes| <= cap then
      && |l2| > 0 && l2[|l2| - 1] == Entry(k, bytes)
      && LongestRecent(Keep(l, NotKey(k)), l2[..|l2| - 1], cap - |bytes|)
    else
      l2 == Keep(l, NotKey(k))
  }

  lemma InsertedExactly(l: seq<Entry>, k: Key, bytes: seq<byte>, cap: nat)
    ensures InsertLeaves(l, k, bytes, cap, Inserted(l, k, bytes, cap))
  {
    hide Keep, TotalBytes, Evict;
    if 0 < cap && |bytes| <= cap {
      var rest := Keep(l, NotKey(k));
      var n := EvictsShortestPrefix(rest, |bytes|, cap);
      assert LongestFrom(rest, Evict(rest, |bytes|, cap), cap - |bytes|, n);
    }
  }

  function OfKey(p: Key -> bool): Entry -> bool { (e: Entry) => p(e.key) }

  /** The entries kept are those whose key qualifies, in their order. */
  lemma {:induction false} KeepInOrder(l: seq<Entry>, p: Key -> bool) returns (at: seq<nat>)
    ensures Picks(l, OfKey(p), Keep(l, p), at)
    decreases |l|
  {
    hide Picks;
    if l == [] {
      at := [];
      PicksNothing(OfKey(p));
    } else {
      var n := |l| - 1;
      at := KeepInOrder(l[..n], p);
      PicksOneMore(l[..n], OfKey(p), Keep(l[..n], p), at, l[n]);
      assert l[..n] + [l[n]] == l;
      if p(l[n].key) { at := at + [n]; }
    }
  }

  /** The budget is half of what is free beyond the reserve, the cache's own bytes counting as free, sums saturating at
      64 bits; never above the configured one, and the configured one when the probe has no answer. */
  lemma EffectiveCapExactly(available: Option<nat>, curBytes: nat, configured: nat, cap: nat)
    ensures EffectiveCap(available, curBytes, configured) == cap <==>
      match available
      case None => cap == configured
      case Some(a) =>
        var free: int := (if a + curBytes < U64_LIMIT then a + curBytes else U64_LIMIT - 1) - 256 * 1024 * 1024;
        cap <= configured && (2 * cap <= free || cap == 0) && (cap < configured ==> free < 2 * (cap + 1))
  {
  }

  // ---- the list read off the real structures ----

  /** The entries with a stamp below `n`, by stamp. */
  function ListOf(order: map<nat, Key>, nodes: map<Key, Node>, n: nat): seq<Entry> {
    if n == 0 then []
    else
      var l := ListOf(order, nodes, n - 1);
      if n - 1 in order && order[n - 1] in nodes then l + [Entry(order[n - 1], nodes[order[n - 1]].bytes)] else l
  }

  /** `order` and `nodes` index each other exactly. */
  ghost predicate Indexed(order: map<nat, Key>, nodes: map<Key, Node>) {
    && (forall s :: s in order ==> order[s] in nodes && nodes[order[s]].stamp == s)
    && (forall k :: k in nodes ==> nodes[k].stamp in order && order[nodes[k].stamp] == k)
  }

  ghost predicate ByIno(byIno: map<nat, set<nat>>, nodes: map<Key, Node>) {
    && (forall n, i :: Key(n, i) in nodes <==> n in byIno && i in byIno[n])
    && (forall n :: n in byIno ==> byIno[n] != {})
  }

  /** The same structures with only the keys that satisfy `p`. */
  ghost predicate Restricted(order: map<nat, Key>, nodes: map<Key, Node>, order2: map<nat, Key>,
      nodes2: map<Key, Node>, p: Key -> bool) {
    && (forall s :: s in order2 <==> s in order && p(order[s]))
    && (forall s :: s in order2 ==> order2[s] == order[s])
    && (forall k :: k in nodes2 <==> k in nodes && p(k))
    && (forall k :: k in nodes2 ==> nodes2[k] == nodes[k])
  }

  lemma {:induction false} RestrictedList(order: map<nat, Key>, nodes: map<Key, Node>,
                                          order2: map<nat, Key>, nodes2: map<Key, Node>, p: Key -> bool, n: nat)
    requires Indexed(order, nodes) && Restricted(order, nodes, order2, nodes2, p)
    ensures ListOf(order2, nodes2, n) == Keep(ListOf(order, nodes, n), p)
  {
    if n > 0 {
      RestrictedList(order, nodes, order2, nodes2, p, n - 1);
      var l := ListOf(order, nodes, n - 1);
      if n - 1 in order {
        var e := Entry(order[n - 1], nodes[order[n - 1]].bytes);
        assert (l + [e])[..|l|] == l;
      }
    }
  }

  /** Stamps at or above `n` do not show below it. */
  lemma {:induction false} ListFrame(order: map<nat, Key>, nodes: map<Key, Node>, order2: map<nat, Key>,
      nodes2: map<Key, Node>, n: nat)
    requires forall s: nat :: s < n ==> (s in order <==> s in order2)
    requires forall s: nat :: s < n && s in order ==>
      order2[s] == order[s] && order[s] in nodes && order[s] in nodes2
        && nodes2[order[s]].bytes == nodes[order[s]].bytes
    ensures ListOf(order2, nodes2, n) == ListOf(order, nodes, n)
  {
    if n > 0 {
      ListFrame(order, nodes, order2, nodes2, n - 1);
    }
  }

  /** Entries are exactly the nodes, each once, by stamp. */
  lemma {:induction false} ListEntries(order: map<nat, Key>, nodes: map<Key, Node>, n: nat)
    requires Indexed(order, nodes)
    ensures forall e :: e in ListOf(order, nodes, n) <==>
      e.key in nodes && nodes[e.key].stamp < n && e.bytes == nodes[e.key].bytes
  {
    if n > 0 {
      ListEntries(order, nodes, n - 1);
      forall e ensures e in ListOf(order, nodes, n) <==>
        e.key in nodes && nodes[e.key].stamp < n && e.bytes == nodes[e.key].bytes {
        if e.key in nodes && nodes[e.key].stamp == n - 1 { assert order[n - 1] == e.key; }
      }
    }
  }

  lemma TotalSnoc(l: seq<Entry>, e: Entry)
    ensures TotalBytes(l + [e]) == TotalBytes(l) + |e.bytes|
  {
    assert (l + [e])[..|l|] == l;
  }

  lemma KeepSnoc(l: seq<Entry>, e: Entry, p: Key -> bool)
    ensures Keep(l + [e], p) == if p(e.key) then Keep(l, p) + [e] else Keep(l, p)
  {
    assert (l + [e])[..|l|] == l;
  }

  lemma ListSnoc(order: map<nat, Key>, nodes: map<Key, Node>, n: nat)
    requires n in order && order[n] in nodes
    ensures ListOf(order, nodes, n + 1) == ListOf(order, nodes, n) + [Entry(order[n], nodes[order[n]].bytes)]
  {
  }

  lemma ListSkip(order: map<nat, Key>, nodes: map<Key, Node>, n: nat)
    requires n !in order
    ensures ListOf(order, nodes, n + 1) == ListOf(order, nodes, n)
  {
  }

  /** Taking one key out of the list takes its bytes off the total. */
  lemma {:induction false} RemovedBytes(order: map<nat, Key>, nodes: map<Key, Node>, k: Key, n: nat)
    requires Indexed(order, nodes) && k in nodes
    ensures var l := ListOf(order, nodes, n);
      TotalBytes(l) == TotalBytes(Keep(l, NotKey(k))) + if nodes[k].stamp < n then |nodes[k].bytes| else 0
  {
    hide Keep, TotalBytes;
    if n == 0 {
      KeepNothing(NotKey(k));
    } else {
      hide ListOf;
      var m: nat := n - 1;
      RemovedBytes(order, nodes, k, m);
      var l := ListOf(order, nodes, m);
      if m in order {
        var e := Entry(order[m], nodes[order[m]].bytes);
        ListSnoc(order, nodes, m);
        TotalSnoc(l, e);
        KeepSnoc(l, e, NotKey(k));
        TotalSnoc(Keep(l, NotKey(k)), e);
      } else {
        ListSkip(order, nodes, m);
      }
    }
  }

  lemma KeepNothing(p: Key -> bool)
    ensures Keep([], p) == []
  {
  }

  /** The smallest stamp heads the list, and removing its key drops the head. */
  lemma {:induction false} OldestFirst(order: map<nat, Key>, nodes: map<Key, Node>, s: nat, n: nat)
    requires Indexed(order, nodes) && s in order && (forall t :: t in order ==> s <= t)
    ensures s < n ==> HeadDropped(ListOf(order, nodes, n), order[s])
    ensures n <= s ==> ListOf(order, nodes, n) == []
  {
    hide ListOf, Keep;
    if n == 0 {
      ListStarts(order, nodes);
    } else {
      var m: nat := n - 1;
      OldestFirst(order, nodes, s, m);
      if m in order {
        assert order[m] in nodes && nodes[order[m]].stamp == m;
        ListSnoc(order, nodes, m);
        HeadStays(ListOf(order, nodes, m), Entry(order[m], nodes[order[m]].bytes), order[s]);
      } else {
        ListSkip(order, nodes, m);
      }
    }
  }

  /** The head of the list has this key, and no other entry has. */
  ghost predicate HeadDropped(l: seq<Entry>, k: Key) {
    |l| > 0 && Keep(l, NotKey(k)) == l[1..]
  }

  lemma HeadStays(l: seq<Entry>, e: Entry, k: Key)
    ensures l == [] && e.key == k ==> HeadDropped(l + [e], k)
    ensures HeadDropped(l, k) && e.key != k ==> HeadDropped(l + [e], k)
  {
    hide Keep;
    KeepSnoc(l, e, NotKey(k));
    KeepNothing(NotKey(k));
    if l != [] { assert (l + [e])[1..] == l[1..] + [e]; }
  }

  lemma ListStarts(order: map<nat, Key>, nodes: map<Key, Node>)
    ensures ListOf(order, nodes, 0) == []
  {
  }

  /** A non-empty set of stamps has a smallest one. */
  lemma {:induction false} MinStamp(s: set<nat>) returns (m: nat)
    requires s != {}
    ensures m in s && forall t :: t in s ==> m <= t
    decreases s
  {
    var first :| first in s;
    var rest := s - {first};
    assert forall t :: t in s ==> t == first || t in rest;
    m := first;
    if rest != {} {
      var r := MinStamp(rest);
      if r < first { m := r; }
    }
  }

  /** The structures without one key, and what is left of the per-inode index. */
  function ByInoWithout(byIno: map<nat, set<nat>>, k: Key): map<nat, set<nat>> {
    if k.ino !in byIno then byIno
    else if byIno[k.ino] - {k.idx} == {} then byIno - {k.ino}
    else byIno[k.ino := byIno[k.ino] - {k.idx}]
  }

  lemma ByInoRemoved(byIno: map<nat, set<nat>>, nodes: map<Key, Node>, k: Key)
    requires ByIno(byIno, nodes)
    ensures ByIno(ByInoWithout(byIno, k), nodes - {k})
  {
    var b2 := ByInoWithout(byIno, k);
    forall n, i ensures Key(n, i) in nodes - {k} <==> n in b2 && i in b2[n] {
      assert Key(n, i) in nodes <==> n in byIno && i in byIno[n];
      assert Key(n, i) == k <==> n == k.ino && i == k.idx;
      if n == k.ino && n in byIno && i in byIno[n] && i != k.idx { assert i in byIno[n] - {k.idx}; }
    }
  }

  lemma ByInoAdded(byIno: map<nat, set<nat>>, nodes: map<Key, Node>, k: Key, node: Node)
    requires ByIno(byIno, nodes)
    ensures ByIno(byIno[k.ino := (if k.ino in byIno then byIno[k.ino] else {}) + {k.idx}], nodes[k := node])
  {
    var b2 := byIno[k.ino := (if k.ino in byIno then byIno[k.ino] else {}) + {k.idx}];
    assert k.idx in b2[k.ino];
    forall n, i ensures Key(n, i) in nodes[k := node] <==> n in b2 && i in b2[n] {
      assert Key(n, i) in nodes <==> n in byIno && i in byIno[n];
    }
  }

  lemma ByInoSameKeys(byIno: map<nat, set<nat>>, nodes: map<Key, Node>, k: Key, node: Node)
    requires ByIno(byIno, nodes) && k in nodes
    ensures ByIno(byIno, nodes[k := node])
  {
  }

  lemma Removed(order: map<nat, Key>, nodes: map<Key, Node>, k: Key, n: nat)
    requires Indexed(order, nodes) && k in nodes && (forall s :: s in order ==> s < n)
    ensures var order2, nodes2 := order - {nodes[k].stamp}, nodes - {k};
      && Indexed(order2, nodes2)
      && ListOf(order2, nodes2, n) == Keep(ListOf(order, nodes, n), NotKey(k))
      && TotalBytes(ListOf(order2, nodes2, n)) + |nodes[k].bytes| == TotalBytes(ListOf(order, nodes, n))
  {
    hide Keep, TotalBytes, ListOf;
    RestrictedList(order, nodes, order - {nodes[k].stamp}, nodes - {k}, NotKey(k), n);
    RemovedBytes(order, nodes, k, n);
  }

  lemma NotThere(order: map<nat, Key>, nodes: map<Key, Node>, k: Key, n: nat)
    requires Indexed(order, nodes) && k !in nodes
    ensures Keep(ListOf(order, nodes, n), NotKey(k)) == ListOf(order, nodes, n)
  {
    RestrictedList(order, nodes, order, nodes, NotKey(k), n);
  }

  /** A new key with the newest stamp goes to the recent end. */
  lemma Pushed(order: map<nat, Key>, nodes: map<Key, Node>, k: Key, bytes: seq<byte>, n: nat)
    requires Indexed(order, nodes) && k !in nodes && (forall s :: s in order ==> s < n)
    ensures var order2, nodes2 := order[n := k], nodes[k := Node(bytes, n)];
      && Indexed(order2, nodes2)
      && ListOf(order2, nodes2, n + 1) == ListOf(order, nodes, n) + [Entry(k, bytes)]
      && TotalBytes(ListOf(order2, nodes2, n + 1)) == TotalBytes(ListOf(order, nodes, n)) + |bytes|
  {
    var order2, nodes2 := order[n := k], nodes[k := Node(bytes, n)];
    ListFrame(order, nodes, order2, nodes2, n);
    var l := ListOf(order, nodes, n);
    assert (l + [Entry(k, bytes)])[..|l|] == l;
  }

  /** Restamping a key moves its entry to the recent end. */
  lemma Touched(order: map<nat, Key>, nodes: map<Key, Node>, byIno: map<nat, set<nat>>, k: Key, n: nat)
    requires Indexed(order, nodes) && ByIno(byIno, nodes) && k in nodes && (forall s :: s in order ==> s < n)
    ensures var order2, nodes2 := (order - {nodes[k].stamp})[n := k], nodes[k := Node(nodes[k].bytes, n)];
      && Indexed(order2, nodes2) && ByIno(byIno, nodes2) && (forall s :: s in order2 ==> s <= n)
      && ListOf(order2, nodes2, n + 1) == Keep(ListOf(order, nodes, n), NotKey(k)) + [Entry(k, nodes[k].bytes)]
      && TotalBytes(ListOf(order2, nodes2, n + 1)) == TotalBytes(ListOf(order, nodes, n))
  {
    hide Indexed, ListOf, Keep, TotalBytes;
    var node := nodes[k];
    Removed(order, nodes, k, n);
    Pushed(order - {node.stamp}, nodes - {k}, k, node.bytes, n);
    ByInoSameKeys(byIno, nodes, k, Node(node.bytes, n));
    assert nodes[k := Node(node.bytes, n)] == (nodes - {k})[k := Node(node.bytes, n)];
  }

  lemma {:induction false} NothingListed(n: nat)
    ensures ListOf(map[], map[], n) == []
  {
    if n > 0 { NothingListed(n - 1); }
  }

  lemma NonEmptyLru(order: map<nat, Key>, nodes: map<Key, Node>, n: nat)
    requires Indexed(order, nodes)
    ensures order == map[] ==> TotalBytes(ListOf(order, nodes, n)) == 0
    ensures forall s :: s in order ==> order[s] in nodes && nodes[order[s]].stamp == s
  {
    if order == map[] {
      ListFrame(order, nodes, map[], map[], n);
      NothingListed(n);
    }
  }

  lemma OldestKey(order: map<nat, Key>, nodes: map<Key, Node>, s: nat, n: nat)
    requires Indexed(order, nodes) && s in order && s < n && (forall t :: t in order ==> s <= t)
    ensures |ListOf(order, nodes, n)| > 0
      && Keep(ListOf(order, nodes, n), NotKey(order[s])) == ListOf(order, nodes, n)[1..]
  {
    OldestFirst(order, nodes, s, n);
  }

  lemma EvictStep(l: seq<Entry>, need: nat, cap: nat)
    requires l != [] && TotalBytes(l) + need > cap
    ensures Evict(l, need, cap) == Evict(l[1..], need, cap)
  {
  }

  lemma EvictDone(l: seq<Entry>, need: nat, cap: nat)
    requires TotalBytes(l) + need <= cap
    ensures Evict(l, need, cap) == l
  {
  }

  lemma NoSuchIno(order: map<nat, Key>, nodes: map<Key, Node>, byIno: map<nat, set<nat>>, ino: nat, n: nat)
    requires Indexed(order, nodes) && ByIno(byIno, nodes) && (nodes == map[] || ino !in byIno)
    ensures Keep(ListOf(order, nodes, n), OtherIno(ino)) == ListOf(order, nodes, n)
    ensures forall k :: k in nodes ==> k.ino != ino
  {
    forall k | k in nodes ensures k.ino != ino { assert Key(k.ino, k.idx) in nodes; }
    RestrictedList(order, nodes, order, nodes, OtherIno(ino), n);
  }

  function Remaining(ino: nat, idxs: set<nat>): Key -> bool { (x: Key) => x.ino != ino || x.idx in idxs }

  lemma RestrictedStart(order: map<nat, Key>, nodes: map<Key, Node>, byIno: map<nat, set<nat>>, ino: nat)
    requires Indexed(order, nodes) && ByIno(byIno, nodes) && ino in byIno
    ensures Restricted(order, nodes, order, nodes, Remaining(ino, byIno[ino]))
  {
    forall k | k in nodes ensures Remaining(ino, byIno[ino])(k) { assert Key(k.ino, k.idx) in nodes; }
  }

  lemma RestrictedStep(order: map<nat, Key>, nodes: map<Key, Node>, order2: map<nat, Key>, nodes2: map<Key, Node>,
                       ino: nat, idxs: set<nat>, idx: nat)
    requires Indexed(order, nodes) && Restricted(order, nodes, order2, nodes2, Remaining(ino, idxs)) && idx in idxs
    ensures Key(ino, idx) in nodes2 ==>
      Restricted(order, nodes, order2 - {nodes2[Key(ino, idx)].stamp}, nodes2 - {Key(ino, idx)},
        Remaining(ino, idxs - {idx}))
    ensures Key(ino, idx) !in nodes2 ==> Restricted(order, nodes, order2, nodes2, Remaining(ino, idxs - {idx}))
  {
    forall k: Key ensures Remaining(ino, idxs - {idx})(k) <==> Remaining(ino, idxs)(k) && k != Key(ino, idx) {
      assert k == Key(k.ino, k.idx);
    }
  }

  lemma InoGone(order: map<nat, Key>, nodes: map<Key, Node>, byIno: map<nat, set<nat>>,
                order2: map<nat, Key>, nodes2: map<Key, Node>, ino: nat, n: nat)
    requires Indexed(order, nodes) && ByIno(byIno, nodes)
      && Restricted(order, nodes, order2, nodes2, Remaining(ino, {}))
    ensures ByIno(byIno - {ino}, nodes2)
    ensures ListOf(order2, nodes2, n) == Keep(ListOf(order, nodes, n), OtherIno(ino))
    ensures forall k :: k in nodes2 <==> k in nodes && k.ino != ino
    ensures forall k :: k in nodes2 ==> nodes2[k] == nodes[k]
  {
    hide ListOf, Keep, TotalBytes, Indexed;
    RestrictedList(order, nodes, order2, nodes2, OtherIno(ino), n);
    forall m, i ensures Key(m, i) in nodes2 <==> m in byIno - {ino} && i in byIno[m] {
      assert Key(m, i) in nodes <==> m in byIno && i in byIno[m];
    }
  }

  class BlockCache {
    const configuredCap: nat
    var nodes: map<Key, Node>
    var order: map<nat, Key>
    var byIno: map<nat, set<nat>>
    var curBytes: nat
    var effCap: nat
    var clock: nat

    constructor (configuredCap: nat)
      ensures Valid() && this.configuredCap == configuredCap && effCap == configuredCap
      ensures Lru() == [] && nodes == map[]
    {
      this.configuredCap := configuredCap;
      nodes, order, byIno := map[], map[], map[];
      curBytes, effCap, clock := 0, configuredCap, 0;
      new;
      NothingListed(clock + 1);
    }

    /** All four structures agree, and the budget is kept. */
    ghost predicate Valid()
      reads this
    {
      && Indexed(order, nodes) && ByIno(byIno, nodes)
      && (forall s :: s in order ==> s <= clock)
      && curBytes == TotalBytes(Lru()) <= configuredCap && effCap <= configuredCap
      && (configuredCap == 0 ==> nodes == map[])
    }

    /** The cache as a list, least recently used first. */
    ghost function Lru(): seq<Entry>
      reads this
    {
      ListOf(order, nodes, clock + 1)
    }

    function Cached(k: Key): Option<seq<byte>>
      reads this
    {
      if k in nodes then Some(nodes[k].bytes) else None
    }

    method Get(ino: nat, idx: nat) returns (r: Option<seq<byte>>)
      requires Valid()
      modifies this`nodes, this`order, this`clock
      ensures Valid() && r == old(Cached(Key(ino, idx)))
      ensures Lru() == if r.None? then old(Lru())
        else Keep(old(Lru()), NotKey(Key(ino, idx))) + [Entry(Key(ino, idx), r.value)]
      ensures nodes.Keys == old(nodes).Keys && forall k :: Cached(k) == old(Cached(k))
    {
      hide ByIno, Indexed, ListOf, Keep, TotalBytes;
      if configuredCap == 0 {
        return None;
      }
      var key := Key(ino, idx);
      if key !in nodes {
        return None;
      }
      clock := clock + 1;
      var node := nodes[key];
      Touched(order, nodes, byIno, key, clock);
      nodes := nodes[key := Node(node.bytes, clock)];
      order := order - {node.stamp};
      order := order[clock := key];
      r := Some(node.bytes);
    }

    method RemoveKey(key: Key)
      requires Valid()
      modifies this`nodes, this`order, this`byIno, this`curBytes
      ensures Valid() && Lru() == Keep(old(Lru()), NotKey(key))
      ensures nodes == old(nodes) - {key}
    {
      hide ByIno, Indexed, ListOf, Keep, TotalBytes;
      if key in nodes {
        ByInoRemoved(byIno, nodes, key);
        DropNode(key);
        if key.ino in byIno {
          var rest := byIno[key.ino] - {key.idx};
          byIno := if rest == {} then byIno - {key.ino} else byIno[key.ino := rest];
        }
      } else {
        NotThere(order, nodes, key, clock + 1);
      }
    }

    /** `available` is the answer of the memory probe, or `None` when no probe is due yet. */
    method RefreshEffectiveCap(available: Option<Option<nat>>)
      modifies this`effCap
      ensures effCap == if available.None? then old(effCap) else EffectiveCap(available.value, curBytes, configuredCap)
    {
      if available.None? {
        return;
      }
      effCap := EffectiveCap(available.value, curBytes, configuredCap);
    }

    /** The smallest stamp still in use. */
    method OldestStamp() returns (s: Option<nat>)
      ensures s.None? ==> order == map[]
      ensures s.Some? ==> s.value in order && forall t :: t in order ==> s.value <= t
    {
      if order == map[] {
        return None;
      }
      ghost var m := MinStamp(order.Keys);
      var oldest :| oldest in order.Keys && forall t :: t in order.Keys ==> oldest <= t;
      s := Some(oldest);
    }

    /** Evict from the old end until `blen` more bytes fit. The two guards of the loop body against an empty
        order and against a dangling stamp never fire. */
    method MakeRoom(blen: nat)
      requires Valid() && blen <= effCap
      modifies this`nodes, this`order, this`byIno, this`curBytes
      ensures Valid() && Lru() == Evict(old(Lru()), blen, effCap) && curBytes + blen <= effCap
      ensures forall k :: k in nodes ==> k in old(nodes) && nodes[k] == old(nodes)[k]
    {
      hide ByIno, Indexed, ListOf, Keep, TotalBytes, Evict;
      while curBytes + blen > effCap
        invariant Valid() && Evict(Lru(), blen, effCap) == Evict(old(Lru()), blen, effCap)
        invariant forall k :: k in nodes ==> k in old(nodes) && nodes[k] == old(nodes)[k]
        decreases |Lru()|
      {
        NonEmptyLru(order, nodes, clock + 1);
        var oldest := OldestStamp();
        if oldest.None? {
          assert false;
          break;
        }
        var oldKey := order[oldest.value];
        OldestKey(order, nodes, oldest.value, clock + 1);
        if oldKey in nodes && nodes[oldKey].stamp == oldest.value {
          EvictStep(Lru(), blen, effCap);
          RemoveKey(oldKey);
        } else {
          assert false;
        }
      }
      EvictDone(Lru(), blen, effCap);
    }

    method Insert(ino: nat, idx: nat, bytes: seq<byte>, available: Option<Option<nat>>)
      requires Valid()
      modifies this`nodes, this`order, this`byIno, this`curBytes, this`effCap, this`clock
      ensures Valid()
      ensures configuredCap == 0 ==> Lru() == old(Lru()) && effCap == old(effCap)
      ensures configuredCap > 0 ==>
        && effCap == (if available.None? then old(effCap)
          else EffectiveCap(available.value, old(curBytes), configuredCap))
        && Lru() == Inserted(old(Lru()), Key(ino, idx), bytes, effCap)
      ensures configuredCap > 0 ==>
        && InsertLeaves(old(Lru()), Key(ino, idx), bytes, effCap, Lru())
        && Cached(Key(ino, idx)) == if 0 < effCap && |bytes| <= effCap then Some(bytes) else None
      ensures Key(ino, idx) in nodes ==> nodes[Key(ino, idx)].bytes == bytes
      ensures forall k :: k in nodes && k != Key(ino, idx) ==> k in old(nodes) && nodes[k] == old(nodes)[k]
    {
      hide ByIno, Indexed, ListOf, Keep, TotalBytes, Evict, InsertLeaves;
      if configuredCap == 0 {
        return;
      }
      RefreshEffectiveCap(available);
      var key := Key(ino, idx);
      var blen := |bytes|;
      InsertedExactly(Lru(), key, bytes, effCap);
      if effCap == 0 || blen > effCap {
        RemoveKey(key);
        return;
      }
      RemoveKey(key);
      MakeRoom(blen);
      Push(key, bytes);
    }

    /** The new entry goes to the recent end. */
    method Push(key: Key, bytes: seq<byte>)
      requires Valid() && key !in nodes && configuredCap > 0 && curBytes + |bytes| <= configuredCap
      modifies this`nodes, this`order, this`byIno, this`curBytes, this`clock
      ensures Valid() && Lru() == old(Lru()) + [Entry(key, bytes)]
      ensures nodes == old(nodes)[key := Node(bytes, clock)] && curBytes == old(curBytes) + |bytes|
    {
      hide ByIno, Indexed, ListOf, TotalBytes;
      clock := clock + 1;
      Pushed(order, nodes, key, bytes, clock);
      ByInoAdded(byIno, nodes, key, Node(bytes, clock));
      order := order[clock := key];
      nodes := nodes[key := Node(bytes, clock)];
      byIno := byIno[key.ino := (if key.ino in byIno then byIno[key.ino] else {}) + {key.idx}];
      curBytes := curBytes + |bytes|;
    }

    /** Out of the entries, the order and the byte count. */
    method DropNode(key: Key)
      requires Indexed(order, nodes) && key in nodes && (forall s :: s in order ==> s <= clock)
      requires curBytes == TotalBytes(Lru())
      modifies this`nodes, this`order, this`curBytes
      ensures nodes == old(nodes) - {key} && order == old(order) - {old(nodes)[key].stamp}
      ensures Indexed(order, nodes) && (forall s :: s in order ==> s <= clock)
      ensures Lru() == Keep(old(Lru()), NotKey(key)) && curBytes == TotalBytes(Lru()) <= old(curBytes)
    {
      hide Indexed, ListOf, Keep, TotalBytes;
      var node := nodes[key];
      Removed(order, nodes, key, clock + 1);
      nodes := nodes - {key};
      order := order - {node.stamp};
      curBytes := curBytes - |node.bytes|;
    }

    method Invalidate(ino: nat)
      requires Valid()
      modifies this`nodes, this`order, this`byIno, this`curBytes
      ensures Valid() && Lru() == Keep(old(Lru()), OtherIno(ino))
      ensures forall k :: k in nodes <==> k in old(nodes) && k.ino != ino
      ensures forall k :: k in nodes ==> nodes[k] == old(nodes)[k]
    {
      hide ByIno, Indexed, ListOf, Keep, TotalBytes, Restricted;
      if configuredCap == 0 || ino !in byIno {
        NoSuchIno(order, nodes, byIno, ino, clock + 1);
        return;
      }
      var idxs := byIno[ino];
      RestrictedStart(order, nodes, byIno, ino);
      byIno := byIno - {ino};
      while idxs != {}
        invariant byIno == old(byIno) - {ino}
        invariant Indexed(order, nodes) && (forall s :: s in order ==> s <= clock)
        invariant curBytes == TotalBytes(Lru()) <= configuredCap
        invariant Restricted(old(order), old(nodes), order, nodes, Remaining(ino, idxs))
        decreases |idxs|
      {
        var idx :| idx in idxs;
        var key := Key(ino, idx);
        RestrictedStep(old(order), old(nodes), order, nodes, ino, idxs, idx);
        if key in nodes {
          DropNode(key);
        }
        idxs := idxs - {idx};
      }
      InoGone(old(order), old(nodes), old(byIno), order, nodes, ino, clock + 1);
    }
  }
}
