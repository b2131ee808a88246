/** What the merge guarantees: nothing is lost, every record appears once, and merging again changes nothing. */
module MergeTheorems {
  import opened Bytes
  import opened MergeSpec

  // ---- sorting ----

  predicate Before(a: Item, b: Item) {
    TsLe(a.ts, b.ts) && (a.ts == b.ts ==> a.ord < b.ord)
  }

  ghost predicate InOrder(s: seq<Item>) {
    forall j, k :: 0 <= j < k < |s| ==> Before(s[j], s[k])
  }

  lemma {:induction false} InsertPosition(s: seq<Item>, x: Item) returns (p: nat)
    ensures p <= |s| && Insert(s, x) == s[..p] + [x] + s[p..]
    ensures p > 0 ==> TsLe(s[p - 1].ts, x.ts)
    ensures forall k :: p <= k < |s| ==> !TsLe(s[k].ts, x.ts)
    decreases |s|
  {
    var n := |s| - 1;
    if s == [] || TsLe(s[n].ts, x.ts) {
      p := |s|;
    } else {
      p := InsertPosition(s[..n], x);
      assert s[..n][..p] == s[..p] && s[..n][p..] + [s[n]] == s[p..];
    }
  }

  lemma InsertInOrder(s: seq<Item>, x: Item)
    requires InOrder(s) && forall k :: 0 <= k < |s| ==> s[k].ord < x.ord
    ensures InOrder(Insert(s, x)) && forall e :: e in Insert(s, x) <==> e in s || e == x
  {
    var p := InsertPosition(s, x);
    var r := Insert(s, x);
    forall k | 0 <= k < |s| ensures k < p ==> Before(s[k], x) {
      if k < p {
        TsOrder(s[k].ts, s[p - 1].ts, x.ts);
      }
    }
    forall k | 0 <= k < |s| ensures k >= p ==> Before(x, s[k]) {
      TsOrder(s[k].ts, x.ts, x.ts);
    }
    forall j, k | 0 <= j < k < |r| ensures Before(r[j], r[k]) {
      if j != p && k != p {
        assert Before(s[if j < p then j else j - 1], s[if k < p then k else k - 1]);
      }
    }
    forall e ensures e in r <==> e in s || e == x {
      assert s == s[..p] + s[p..];
    }
  }

  lemma {:induction false} SortInOrder(s: seq<Item>)
    requires Ordered(s)
    ensures InOrder(Sort(s)) && forall e :: e in Sort(s) <==> e in s
    decreases |s|
  {
    if s != [] {
      var n := |s| - 1;
      SortInOrder(s[..n]);
      var rest := Sort(s[..n]);
      forall k | 0 <= k < |rest| ensures rest[k].ord < s[n].ord {
        assert rest[k] in rest;
        var i: nat :| i < n && s[..n][i] == rest[k];
      }
      InsertInOrder(rest, s[n]);
      assert s == s[..n] + [s[n]];
    }
  }

  lemma {:induction false} SortedAlready(s: seq<Item>)
    requires forall j, k :: 0 <= j < k < |s| ==> TsLe(s[j].ts, s[k].ts)
    ensures Sort(s) == s
    decreases |s|
  {
    if s != [] {
      SortedAlready(s[..|s| - 1]);
    }
  }

  lemma InOrderDistinct(s: seq<Item>)
    requires InOrder(s)
    ensures forall j, k :: 0 <= j < k < |s| ==> s[j] != s[k]
  {
    forall j, k | 0 <= j < k < |s| ensures s[j] != s[k] {
      assert Before(s[j], s[k]);
    }
  }

  lemma AllButLast(front: seq<Item>, last: Item)
    requires InOrder(front + [last])
    ensures InOrder(front) && forall e :: e in front <==> e in front + [last] && e != last
  {
    var s := front + [last];
    InOrderDistinct(s);
    forall e | e in front ensures e != last {
      var j: nat :| j < |front| && front[j] == e;
      assert s[j] == e && s[|front|] == last;
    }
    forall j, k | 0 <= j < k < |front| ensures Before(front[j], front[k]) {
      assert Before(s[j], s[k]);
    }
  }

  /** The last of one list in order is the last of the other. */
  lemma SameLast(a: seq<Item>, b: seq<Item>)
    requires InOrder(a) && InOrder(b) && a != [] && b != [] && forall e :: e in a <==> e in b
    ensures a[|a| - 1] == b[|b| - 1]
  {
    var x, y := a[|a| - 1], b[|b| - 1];
    assert x in b && y in a;
    var j: nat :| j < |b| && b[j] == x;
    var k: nat :| k < |a| && a[k] == y;
    if x != y {
      assert Before(x, y) && Before(y, x);
      TsOrder(x.ts, y.ts, x.ts);
    }
  }

  /** The order leaves no choice: two lists in order with the same items are the same list. */
  lemma {:induction false} OneOrder(a: seq<Item>, b: seq<Item>)
    requires InOrder(a) && InOrder(b) && forall e :: e in a <==> e in b
    ensures a == b
    decreases |a|
  {
    assert b != [] ==> b[0] in b;
    if a != [] {
      assert a[0] in b;
      SameLast(a, b);
      var x, a1, b1 := a[|a| - 1], a[..|a| - 1], b[..|b| - 1];
      assert a == a1 + [x] && b == b1 + [x];
      AllButLast(a1, x);
      AllButLast(b1, x);
      OneOrder(a1, b1);
    }
  }

  // ---- nothing is lost, nothing is doubled ----

  /** Every input line is in the output or carried whole in a conflict. */
  lemma NothingLost(v: View, lines: seq<Line>, x: Line)
    requires x in lines
    ensures
      || x in Merged(v, lines)
      || exists j :: 0 <= j < |Ingest(v, lines).conflicts| && Ingest(v, lines).conflicts[j].dropped == x
  {
    hide Ingest, ItemOk, StandsFor;
    var st := Ingest(v, lines);
    IngestIsIngested(v, lines);
    SortInOrder(st.items);
    var q: nat :| q < |lines| && lines[q] == x;
    assert Kept(st.items, st.conflicts, lines[q]);
    if j: nat :| j < |st.items| && st.items[j].line == x {
      assert st.items[j] in Sort(st.items);
      var k: nat :| k < |Sort(st.items)| && Sort(st.items)[k] == st.items[j];
      assert Merged(v, lines)[k] == x;
    }
  }

  /** Each record is in the output exactly once, and as the earliest among its longest variants. */
  lemma OncePerRecord(v: View, lines: seq<Line>, q: nat) returns (k: nat, p: nat)
    requires q < |lines|
    ensures var m := Merged(v, lines);
      && k < |m| && p < |lines| && m[k] == lines[p] && Chosen(v, lines, p) && KeyOf(v, lines[p]) == KeyOf(v, lines[q])
      && |m[k]| >= |lines[q]|
      && forall j :: 0 <= j < |m| && KeyOf(v, m[j]) == KeyOf(v, lines[q]) ==> j == k
  {
    hide Ingest, KeyOf, TsAt;
    var st := Ingest(v, lines);
    var sorted := Sort(st.items);
    IngestIsIngested(v, lines);
    SortInOrder(st.items);
    assert StandsFor(v, st.items, lines[q]);
    var i: nat :| i < |st.items| && KeyOf(v, st.items[i].line) == KeyOf(v, lines[q])
      && |st.items[i].line| >= |lines[q]|;
    assert st.items[i] in sorted;
    k :| k < |sorted| && sorted[k] == st.items[i];
    InOrderDistinct(sorted);
    p := st.items[i].ord;
    forall j | 0 <= j < |sorted| && KeyOf(v, sorted[j].line) == KeyOf(v, lines[q]) ensures j == k {
      SortedItem(v, lines, j);
      SortedItem(v, lines, k);
      OneItemPerRecord(v, lines, sorted[j], sorted[k]);
    }
  }

  lemma SortedItem(v: View, lines: seq<Line>, j: nat)
    requires j < |Sort(Ingest(v, lines).items)|
    ensures ItemOk(v, lines, Sort(Ingest(v, lines).items)[j])
  {
    hide Ingest, ItemOk;
    var st := Ingest(v, lines);
    IngestIsIngested(v, lines);
    SortInOrder(st.items);
    assert Sort(st.items)[j] in Sort(st.items);
    var i: nat :| i < |st.items| && st.items[i] == Sort(st.items)[j];
  }

  /** The output lines come from the input, in the order of their inherited timestamps and, among equal ones, of
      the input. */
  lemma OutputOrder(v: View, lines: seq<Line>, j: nat, k: nat) returns (p: nat, q: nat)
    requires j < k < |Merged(v, lines)|
    ensures p < |lines| && q < |lines| && Merged(v, lines)[j] == lines[p] && Merged(v, lines)[k] == lines[q]
    ensures TsLe(TsAt(v, lines, p), TsAt(v, lines, q)) && (TsAt(v, lines, p) == TsAt(v, lines, q) ==> p < q)
    ensures KeyOf(v, lines[p]) != KeyOf(v, lines[q])
  {
    hide Ingest, KeyOf, TsAt;
    var st := Ingest(v, lines);
    IngestIsIngested(v, lines);
    SortInOrder(st.items);
    var sorted := Sort(st.items);
    SortedItem(v, lines, j);
    SortedItem(v, lines, k);
    assert Before(sorted[j], sorted[k]);
    p, q := sorted[j].ord, sorted[k].ord;
    if KeyOf(v, lines[p]) == KeyOf(v, lines[q]) { OneItemPerRecord(v, lines, sorted[j], sorted[k]); }
  }

  // ---- the fixed point ----

  function FreshItems(v: View, m: seq<Line>): (r: seq<Item>)
    ensures |r| == |m| && forall k :: 0 <= k < |m| ==> r[k] == Item(TsAt(v, m, k), k, m[k])
  {
    seq(|m|, k requires 0 <= k < |m| => Item(TsAt(v, m, k), k, m[k]))
  }

  lemma NewRecord(v: View, st: State, line: Line)
    requires forall j :: 0 <= j < |st.items| ==> KeyOf(v, st.items[j].line) != KeyOf(v, line)
    ensures var st2 := IngestOne(v, st, line);
      st2.items == st.items + [Item(st2.lastTs, st.ord, line)] && st2.conflicts == st.conflicts
  {
  }

  /** Lines of pairwise different records are all taken as they come. */
  lemma {:induction false} AllFresh(v: View, m: seq<Line>)
    requires forall j, k :: 0 <= j < k < |m| ==> KeyOf(v, m[j]) != KeyOf(v, m[k])
    ensures Ingest(v, m).items == FreshItems(v, m) && Ingest(v, m).conflicts == []
    decreases |m|
  {
    hide KeyOf, TsAt, OwnTs, IngestOne, FreshItems, ItemOk, StandsFor, Kept;
    if m == [] {
      assert FreshItems(v, m) == [];
    } else {
      var n := |m| - 1;
      var before := m[..n];
      var st := Ingest(v, before);
      AllFresh(v, before);
      IngestIsIngested(v, before);
      NewRecord(v, st, m[n]);
      StepItems(v, before, st, m[n]);
      assert before + [m[n]] == m;
      FreshSnoc(v, before, m[n]);
    }
  }

  lemma FreshSnoc(v: View, m: seq<Line>, line: Line)
    ensures FreshItems(v, m + [line]) == FreshItems(v, m) + [Item(TsAt(v, m + [line], |m|), |m|, line)]
  {
    hide TsAt;
    forall k: nat | k < |m| ensures TsAt(v, m + [line], k) == TsAt(v, m, k) { TsAtPrefix(v, m, line, k); }
  }

  /** Timestamps inherited anew on a list in order never go back: each is the last own timestamp so far, and own
      timestamps are where the order put them. */
  lemma {:induction false} InheritedAgain(v: View, m: seq<Line>, sorted: seq<Item>, k: nat)
    requires k < |m| == |sorted| && InOrder(sorted)
    requires forall j :: 0 <= j < |m| ==> OwnTs(v, m[j]).Some? ==> sorted[j].ts == OwnTs(v, m[j])
    ensures TsLe(TsAt(v, m, k), sorted[k].ts)
    ensures forall j: nat :: j < k ==> TsLe(TsAt(v, m, j), TsAt(v, m, k))
  {
    hide OwnTs, TsLe;
    TsOrder(sorted[k].ts, sorted[k].ts, sorted[k].ts);
    NoneFirst(sorted[k].ts);
    if k > 0 {
      InheritedAgain(v, m, sorted, k - 1);
      BeforeTs(sorted[k - 1], sorted[k]);
      TsOrder(TsAt(v, m, k - 1), sorted[k - 1].ts, sorted[k].ts);
      TsOrder(TsAt(v, m, k - 1), TsAt(v, m, k - 1), TsAt(v, m, k - 1));
      forall j: nat | j < k ensures TsLe(TsAt(v, m, j), TsAt(v, m, k)) {
        TsOrder(TsAt(v, m, j), TsAt(v, m, k - 1), TsAt(v, m, k));
      }
    }
  }

  lemma NoneFirst(a: Option<Stamp>)
    ensures TsLe(None, a)
  {
  }

  lemma BeforeTs(a: Item, b: Item)
    requires Before(a, b)
    ensures TsLe(a.ts, b.ts)
  {
  }

  lemma OwnTsStays(v: View, lines: seq<Line>)
    ensures var m, sorted := Merged(v, lines), Sort(Ingest(v, lines).items);
      && |m| == |sorted| && InOrder(sorted)
      && forall j :: 0 <= j < |m| ==> OwnTs(v, m[j]).Some? ==> sorted[j].ts == OwnTs(v, m[j])
  {
    hide Ingest, Sort, OwnTs;
    var m, sorted := Merged(v, lines), Sort(Ingest(v, lines).items);
    IngestIsIngested(v, lines);
    SortInOrder(Ingest(v, lines).items);
    forall j | 0 <= j < |m| && OwnTs(v, m[j]).Some? ensures sorted[j].ts == OwnTs(v, m[j]) {
      SortedItem(v, lines, j);
    }
  }

  /** The merged lines merged alone are themselves. */
  lemma MergedAgain(v: View, lines: seq<Line>)
    ensures Ingest(v, Merged(v, lines)).items == FreshItems(v, Merged(v, lines))
    ensures Sort(FreshItems(v, Merged(v, lines))) == FreshItems(v, Merged(v, lines))
    ensures Lines(FreshItems(v, Merged(v, lines))) == Merged(v, lines)
  {
    hide Ingest, Merged, KeyOf, TsAt;
    var m := Merged(v, lines);
    forall j, k | 0 <= j < k < |m| ensures KeyOf(v, m[j]) != KeyOf(v, m[k]) {
      var p, q := OutputOrder(v, lines, j, k);
    }
    AllFresh(v, m);
    var again := FreshItems(v, m);
    OwnTsStays(v, lines);
    forall j: nat, k: nat | j < k < |m| ensures TsLe(again[j].ts, again[k].ts) {
      InheritedAgain(v, m, Sort(Ingest(v, lines).items), k);
    }
    SortedAlready(again);
  }

  /** Lines whose record is already there, at least as long, change no item. */
  lemma {:induction false} Absorbed(v: View, m: seq<Line>, more: seq<Line>)
    requires forall x :: x in more ==> StandsFor(v, Ingest(v, m).items, x)
    ensures Ingest(v, m + more).items == Ingest(v, m).items
    decreases |more|
  {
    hide KeyOf, OwnTs, StandsFor, Ingest;
    if more == [] {
      assert m + more == m;
    } else {
      var n := |more| - 1;
      Absorbed(v, m, more[..n]);
      assert (m + more)[..|m| + n] == m + more[..n];
      assert more[n] in more;
      IngestSnoc(v, m + more[..n], more[n]);
      assert m + more == m + more[..n] + [more[n]];
      IngestIsIngested(v, m);
      AbsorbedOne(v, m, Ingest(v, m + more[..n]), more[n]);
    }
  }

  lemma IngestSnoc(v: View, lines: seq<Line>, line: Line)
    ensures Ingest(v, lines + [line]) == IngestOne(v, Ingest(v, lines), line)
  {
    assert (lines + [line])[..|lines|] == lines;
  }

  lemma AbsorbedOne(v: View, lines: seq<Line>, st: State, line: Line)
    requires forall j :: 0 <= j < |st.items| ==> ItemOk(v, lines, st.items[j])
    requires StandsFor(v, st.items, line)
    ensures IngestOne(v, st, line).items == st.items
  {
    hide KeyOf, OwnTs, ItemOk;
    var at := IndexOf(v, st.items, KeyOf(v, line));
    var j: nat :| j < |st.items| && KeyOf(v, st.items[j].line) == KeyOf(v, line) && |st.items[j].line| >= |line|;
    OneItemPerRecord(v, lines, st.items[j], st.items[at.value]);
  }

  /** Merging any of the same lines again, in any number and order, gives the same lines in the same order. */
  lemma FixedPoint(v: View, lines: seq<Line>, more: seq<Line>)
    requires forall x :: x in more ==> x in lines
    ensures Merged(v, Merged(v, lines) + more) == Merged(v, lines)
  {
    hide Ingest, KeyOf, TsAt, Sort;
    var m := Merged(v, lines);
    MergedAgain(v, lines);
    var again := FreshItems(v, m);
    forall x | x in more ensures StandsFor(v, again, x) {
      var q: nat :| q < |lines| && lines[q] == x;
      var k, p := OncePerRecord(v, lines, q);
      assert again[k].line == m[k];
    }
    Absorbed(v, m, more);
  }

  lemma {:induction false} NonBlankLines(v: View, lines: seq<Line>)
    ensures forall x :: x in NonBlank(v, lines) <==> x in lines && !v.blank(x)
    decreases |lines|
  {
    if lines != [] {
      NonBlankLines(v, lines[..|lines| - 1]);
      assert lines == lines[..|lines| - 1] + [lines[|lines| - 1]];
    }
  }

  lemma {:induction false} NoneBlank(v: View, lines: seq<Line>)
    requires forall x :: x in lines ==> !v.blank(x)
    ensures NonBlank(v, lines) == lines
    decreases |lines|
  {
    if lines != [] {
      NoneBlank(v, lines[..|lines| - 1]);
      assert lines == lines[..|lines| - 1] + [lines[|lines| - 1]];
    }
  }

  /** The merged file is a fixed point: merging either input, or the merged file itself, into it again changes
      nothing. */
  lemma MergeFixedPoint(v: View, base: seq<Line>, incoming: seq<Line>)
    ensures var m := Merge(v, base, incoming);
      Merge(v, m, incoming) == m && Merge(v, m, base) == m && Merge(v, m, m) == m
  {
    hide Merged;
    var lines := NonBlank(v, base) + NonBlank(v, incoming);
    var m := Merge(v, base, incoming);
    NonBlankLines(v, base);
    NonBlankLines(v, incoming);
    forall x | x in m ensures x in lines {
      FromInput(v, lines, x);
    }
    NoneBlank(v, m);
    FixedPoint(v, lines, NonBlank(v, incoming));
    FixedPoint(v, lines, NonBlank(v, base));
    FixedPoint(v, lines, m);
  }

  /** Nothing is invented. */
  lemma FromInput(v: View, lines: seq<Line>, x: Line)
    requires x in Merged(v, lines)
    ensures x in lines
  {
    hide Ingest, Sort;
    var k: nat :| k < |Merged(v, lines)| && Merged(v, lines)[k] == x;
    SortedItem(v, lines, k);
  }

  // ---- the coverage gate ----

  ghost predicate Covered(v: View, lines: seq<Line>, merged: seq<Line>) {
    forall x :: x in lines && !v.blank(x) ==> exists m :: m in merged && !v.blank(m) && KeyOf(v, m) == KeyOf(v, x)
  }

  /** The gate that guards the write-back accepts both inputs of every merge. */
  lemma GateAccepts(v: View, base: seq<Line>, incoming: seq<Line>)
    ensures Covered(v, base, Merge(v, base, incoming)) && Covered(v, incoming, Merge(v, base, incoming))
  {
    hide Merged, KeyOf;
    var lines := NonBlank(v, base) + NonBlank(v, incoming);
    NonBlankLines(v, base);
    NonBlankLines(v, incoming);
    forall x | (x in base || x in incoming) && !v.blank(x)
      ensures exists m :: m in Merge(v, base, incoming) && !v.blank(m) && KeyOf(v, m) == KeyOf(v, x)
    {
      assert x in lines;
      var q: nat :| q < |lines| && lines[q] == x;
      var k, p := OncePerRecord(v, lines, q);
      assert lines[p] in lines;
    }
  }
}
