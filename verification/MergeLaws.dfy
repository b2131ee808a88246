/** What the merge promises in the terms of the lines themselves - what their parser reads from them - without the
    merge's own keys, order or bookkeeping (reconcile/merge.rs, reconcile/record.rs). */
module MergeLaws {
  import opened Bytes
  import opened MergeSpec
  import opened MergeTheorems
  import opened Positions

  // ---- records ----

  /** The line parses, and to an object with this uuid, a non-empty string. */
  ghost predicate HasUuid(v: View, line: Line, u: seq<byte>) {
    v.parse(line).Some? && v.parse(line).value.uuid == Some(u) && u != []
  }

  ghost predicate SameRecord(v: View, a: Line, b: Line) {
    a == b || exists u :: HasUuid(v, a, u) && HasUuid(v, b, u)
  }

  lemma UuidKey(v: View, line: Line, u: seq<byte>)
    ensures HasUuid(v, line, u) <==> KeyOf(v, line) == ByUuid(u)
  {
  }

  /** Two lines are one record exactly if they are equal or carry the same non-empty uuid. */
  lemma KeysExactly(v: View, a: Line, b: Line)
    ensures KeyOf(v, a) == KeyOf(v, b) <==> SameRecord(v, a, b)
  {
    hide KeyOf;
    if KeyOf(v, a).ByUuid? {
      UuidKey(v, a, KeyOf(v, a).uuid);
      UuidKey(v, b, KeyOf(v, a).uuid);
    } else {
      LineKey(v, a);
    }
    LineKey(v, b);
    if u :| HasUuid(v, a, u) && HasUuid(v, b, u) {
      UuidKey(v, a, u);
      UuidKey(v, b, u);
    }
  }

  lemma LineKey(v: View, line: Line)
    ensures KeyOf(v, line).ByLine? ==> KeyOf(v, line) == ByLine(line)
  {
  }

  // ---- timestamps ----

  /** The first difference of `a` and `b` is at `k`, and `a` is the smaller there. */
  ghost predicate FirstBelow(a: Stamp, b: Stamp, k: nat) {
    k < |a| && k < |b| && a[..k] == b[..k] && a[k] < b[k]
  }

  /** Byte order: a prefix comes first, otherwise the first difference decides. */
  lemma {:induction false} LexExactly(a: Stamp, b: Stamp)
    ensures LexLe(a, b) <==> a <= b || exists k: nat :: FirstBelow(a, b, k)
    decreases |a|
  {
    if a != [] && b != [] {
      hide FirstBelow;
      FirstBytes(a, b);
      if a[0] == b[0] {
        LexExactly(a[1..], b[1..]);
        if k: nat :| FirstBelow(a[1..], b[1..], k) { OneFurther(a, b, k); }
        if k: nat :| FirstBelow(a, b, k) { OneFurther(a, b, k - 1); }
      }
    } else {
      EmptyBelow(a, b);
    }
  }

  lemma FirstBytes(a: Stamp, b: Stamp)
    requires a != [] && b != []
    ensures FirstBelow(a, b, 0) <==> a[0] < b[0]
    ensures forall k: nat :: FirstBelow(a, b, k) && k > 0 ==> a[0] == b[0]
    ensures a <= b <==> a[0] == b[0] && a[1..] <= b[1..]
  {
    forall k: nat | FirstBelow(a, b, k) && k > 0 ensures a[0] == b[0] {
      assert a[..k][0] == b[..k][0];
    }
    assert a == [a[0]] + a[1..] && b == [b[0]] + b[1..];
  }

  lemma OneFurther(a: Stamp, b: Stamp, k: nat)
    requires a != [] && b != [] && a[0] == b[0]
    ensures FirstBelow(a, b, k + 1) <==> FirstBelow(a[1..], b[1..], k)
  {
    if k + 1 <= |a| && k + 1 <= |b| {
      assert a[..k + 1] == [a[0]] + a[1..][..k] && b[..k + 1] == [b[0]] + b[1..][..k];
    }
  }

  lemma EmptyBelow(a: Stamp, b: Stamp)
    requires a == [] || b == []
    ensures forall k: nat :: !FirstBelow(a, b, k)
  {
  }

  /** A line without timestamp, or before all that have one, comes first. */
  lemma MissingFirst(a: Option<Stamp>, b: Option<Stamp>)
    ensures TsLe(a, b) <==> a == None || (a.Some? && b.Some? && LexLe(a.value, b.value))
  {
  }

  ghost predicate HasTs(v: View, line: Line, ts: Stamp) {
    v.parse(line).Some? && v.parse(line).value.timestamp == Some(ts)
  }

  /** A line is sorted by the timestamp of the last line up to it that has one. */
  lemma {:induction false} TsAtIsLast(v: View, lines: seq<Line>, p: nat, ts: Stamp)
    requires p < |lines|
    ensures TsAt(v, lines, p) == Some(ts) <==>
      exists q: nat :: q <= p && HasTs(v, lines[q], ts) && NoneAfter(v, lines, q, p)
    decreases p
  {
    if !HasTs(v, lines[p], ts) {
      if p > 0 {
        TsAtIsLast(v, lines, p - 1, ts);
        if q: nat :| q <= p - 1 && HasTs(v, lines[q], ts) && NoneAfter(v, lines, q, p - 1) && OwnTs(v, lines[p]).None? {
          assert NoneAfter(v, lines, q, p);
        }
      }
      if q: nat :| q <= p && HasTs(v, lines[q], ts) && NoneAfter(v, lines, q, p) {
        assert q < p && NoneAfter(v, lines, q, p - 1);
        assert OwnTs(v, lines[p]).Some? ==> HasTs(v, lines[p], OwnTs(v, lines[p]).value);
      }
    } else {
      assert NoneAfter(v, lines, p, p);
    }
  }

  ghost predicate NoneAfter(v: View, lines: seq<Line>, q: nat, p: nat)
    requires p < |lines|
  {
    forall r: nat, ts :: q < r <= p ==> !HasTs(v, lines[r], ts)
  }

  // ---- the output ----

  /** The lines of a file that count. */
  ghost predicate In(v: View, line: Line, file: seq<Line>) {
    line in file && !v.blank(line)
  }

  /** What is in the merged file: input lines only; no two of one record; of every record a line at least as long as
      any; so every line without uuid, and some line with each uuid. */
  lemma OutputExactly(v: View, base: seq<Line>, incoming: seq<Line>)
    ensures var m := Merge(v, base, incoming);
      && (forall y :: y in m ==> In(v, y, base) || In(v, y, incoming))
      && (forall j: nat, k: nat :: j < k < |m| ==> !SameRecord(v, m[j], m[k]))
      && (forall x :: In(v, x, base) || In(v, x, incoming) ==> exists y :: y in m && SameRecord(v, x, y) && |y| >= |x|)
      && (forall x :: (In(v, x, base) || In(v, x, incoming)) && (forall u :: !HasUuid(v, x, u)) ==> x in m)
      && (forall x, u :: (In(v, x, base) || In(v, x, incoming)) && HasUuid(v, x, u) ==>
            exists y :: y in m && HasUuid(v, y, u) && |y| >= |x|)
  {
    hide Merged, KeyOf, HasUuid, SameRecord;
    var lines := NonBlank(v, base) + NonBlank(v, incoming);
    var m := Merge(v, base, incoming);
    NonBlankLines(v, base);
    NonBlankLines(v, incoming);
    forall y | y in m ensures In(v, y, base) || In(v, y, incoming) {
      FromInput(v, lines, y);
    }
    forall j: nat, k: nat | j < k < |m| ensures !SameRecord(v, m[j], m[k]) {
      var p, q := OutputOrder(v, lines, j, k);
      KeysExactly(v, m[j], m[k]);
    }
    forall x | In(v, x, base) || In(v, x, incoming)
      ensures exists y :: y in m && SameRecord(v, x, y) && |y| >= |x|
      ensures (forall u :: !HasUuid(v, x, u)) ==> x in m
      ensures forall u :: HasUuid(v, x, u) ==> exists y :: y in m && HasUuid(v, y, u) && |y| >= |x|
    {
      var y := Stands(v, lines, x);
      KeysExactly(v, x, y);
      SameUuids(v, x, y);
    }
  }

  lemma Stands(v: View, lines: seq<Line>, x: Line) returns (y: Line)
    requires x in lines
    ensures y in Merged(v, lines) && KeyOf(v, y) == KeyOf(v, x) && |y| >= |x|
  {
    hide Merged, KeyOf;
    var q: nat :| q < |lines| && lines[q] == x;
    var k, p := OncePerRecord(v, lines, q);
    y := Merged(v, lines)[k];
  }

  lemma SameUuids(v: View, x: Line, y: Line)
    requires SameRecord(v, x, y)
    ensures (forall u :: !HasUuid(v, x, u)) ==> x == y
    ensures forall u :: HasUuid(v, x, u) <==> HasUuid(v, y, u)
  {
  }

  /** The base wins: a record of the base is replaced only by a strictly longer line of the incoming file. */
  lemma BaseWins(v: View, base: seq<Line>, incoming: seq<Line>, x: Line, y: Line)
    requires In(v, x, base) && y in Merge(v, base, incoming) && SameRecord(v, x, y)
    requires forall z :: In(v, z, incoming) && SameRecord(v, z, x) ==> |z| <= |x|
    ensures In(v, y, base)
  {
    hide Merged, KeyOf, SameRecord, TsAt;
    var front := NonBlank(v, base);
    var lines := front + NonBlank(v, incoming);
    NonBlankLines(v, base);
    NonBlankLines(v, incoming);
    var q: nat :| q < |front| && front[q] == x;
    assert lines[q] == x;
    var k, p := OncePerRecord(v, lines, q);
    var y0 := lines[p];
    assert p < |front| ==> y0 in front;
    assert p >= |front| ==> y0 in NonBlank(v, incoming);
    KeysExactly(v, x, y);
    KeysExactly(v, y0, x);
    var j: nat :| j < |Merge(v, base, incoming)| && Merge(v, base, incoming)[j] == y;
    assert y == y0;
  }

  function NotBlank(v: View): Line -> bool { (x: Line) => !v.blank(x) }

  /** The blank lines are gone; the others are all there, in their order. */
  lemma {:induction false} NonBlankInOrder(v: View, lines: seq<Line>) returns (at: seq<nat>)
    ensures Picks(lines, NotBlank(v), NonBlank(v, lines), at)
    decreases |lines|
  {
    hide Picks;
    if lines == [] {
      at := [];
      PicksNothing(NotBlank(v));
    } else {
      var n := |lines| - 1;
      at := NonBlankInOrder(v, lines[..n]);
      PicksOneMore(lines[..n], NotBlank(v), NonBlank(v, lines[..n]), at, lines[n]);
      assert lines[..n] + [lines[n]] == lines && NonBlank(v, lines[..n]) + [] == NonBlank(v, lines[..n]);
      if NotBlank(v)(lines[n]) { at := at + [n]; }
    }
  }

  // ---- the conflicts ----

  /** Exactly the lines with a uuid that are not in the output are reported, each under its own uuid. */
  lemma ConflictsExactly(v: View, lines: seq<Line>, u: seq<byte>, d: Line)
    ensures Conflict(u, d) in Ingest(v, lines).conflicts <==>
      d in lines && HasUuid(v, d, u) && d !in Merged(v, lines)
  {
    hide Ingest, HasUuid, Merged, Standing;
    Reported(v, lines, u, d);
    StandingIsOutput(v, lines, d);
  }

  ghost predicate Standing(items: seq<Item>, d: Line) {
    exists j: nat :: j < |items| && items[j].line == d
  }

  lemma StandingIsOutput(v: View, lines: seq<Line>, d: Line)
    ensures Standing(Ingest(v, lines).items, d) <==> d in Merged(v, lines)
  {
    hide Ingest, Sort;
    var items := Ingest(v, lines).items;
    ItemsOrdered(v, lines);
    SortInOrder(items);
    var sorted := Sort(items);
    if j: nat :| j < |items| && items[j].line == d {
      assert items[j] in sorted;
      var k: nat :| k < |sorted| && sorted[k] == items[j];
      assert Merged(v, lines)[k] == d;
    }
    if k: nat :| k < |sorted| && Merged(v, lines)[k] == d {
      assert sorted[k] in sorted;
    }
  }

  lemma ItemsOrdered(v: View, lines: seq<Line>)
    ensures Ordered(Ingest(v, lines).items)
  {
    hide Ingest, ItemOk, StandsFor, Kept;
    IngestIsIngested(v, lines);
  }

  lemma {:induction false} Reported(v: View, lines: seq<Line>, u: seq<byte>, d: Line)
    ensures Conflict(u, d) in Ingest(v, lines).conflicts <==>
      d in lines && HasUuid(v, d, u) && !Standing(Ingest(v, lines).items, d)
    decreases |lines|
  {
    hide HasUuid, Standing, Ingested, IngestOne, Ingest;
    if lines == [] {
      NothingReported(v, u, d);
    } else {
      var n := |lines| - 1;
      var front, line := lines[..n], lines[n];
      Reported(v, front, u, d);
      IngestIsIngested(v, front);
      assert lines == front + [line];
      IngestSnoc(v, front, line);
      ReportedStep(v, front, Ingest(v, front), line, u, d);
    }
  }

  lemma NothingReported(v: View, u: seq<byte>, d: Line)
    ensures Conflict(u, d) !in Ingest(v, []).conflicts
  {
  }

  lemma ReportedStep(v: View, front: seq<Line>, st: State, line: Line, u: seq<byte>, d: Line)
    requires Ingested(v, front, st)
    requires Conflict(u, d) in st.conflicts <==> d in front && HasUuid(v, d, u) && !Standing(st.items, d)
    ensures var st2 := IngestOne(v, st, line);
      Conflict(u, d) in st2.conflicts <==>
        (d in front || d == line) && HasUuid(v, d, u) && !Standing(st2.items, d)
  {
    hide HasUuid, KeyOf, OwnTs, Ingested, Standing, IndexOf;
    UuidKey(v, d, u);
    UuidKey(v, line, u);
    Rivals(v, front, st, line, d);
    var j := IndexOf(v, st.items, KeyOf(v, line));
    var item := IngestOne(v, st, line).items;
    if j.None? {
      AddedStanding(st.items, Item(IngestOne(v, st, line).lastTs, st.ord, line), d);
    } else if |st.items[j.value].line| < |line| {
      var rest := Without(st.items, j.value);
      WithoutStanding(st.items, j.value, d);
      AddedStanding(rest, Item(IngestOne(v, st, line).lastTs, st.ord, line), d);
      UuidKey(v, st.items[j.value].line, u);
    }
  }

  lemma AddedStanding(items: seq<Item>, item: Item, d: Line)
    ensures Standing(items + [item], d) <==> Standing(items, d) || d == item.line
  {
    if j: nat :| j < |items| && items[j].line == d {
      assert (items + [item])[j].line == d;
    }
    assert (items + [item])[|items|] == item;
  }

  lemma WithoutStanding(items: seq<Item>, k: nat, d: Line)
    requires k < |items| && forall i: nat :: i < |items| && items[i].line == items[k].line ==> i == k
    ensures Standing(Without(items, k), d) <==> Standing(items, d) && d != items[k].line
  {
    var w := Without(items, k);
    if j: nat :| j < |items| && items[j].line == d && d != items[k].line {
      assert w[if j < k then j else j - 1].line == d;
    }
    if j: nat :| j < |w| && w[j].line == d {
      assert items[if j < k then j else j + 1].line == d;
    }
  }

  /** Of a line's record at most one line stands, an input line; if none does, the record is new. */
  lemma Rivals(v: View, front: seq<Line>, st: State, line: Line, d: Line)
    requires Ingested(v, front, st)
    ensures var j := IndexOf(v, st.items, KeyOf(v, line));
      && (j.None? && KeyOf(v, d) == KeyOf(v, line) ==> !Standing(st.items, d) && d !in front)
      && (j.Some? ==>
            && Standing(st.items, st.items[j.value].line) && st.items[j.value].line in front
            && (forall i: nat :: i < |st.items| && st.items[i].line == st.items[j.value].line ==> i == j.value)
            && (KeyOf(v, d) == KeyOf(v, line) && Standing(st.items, d) ==> d == st.items[j.value].line)
            && (KeyOf(v, d) == KeyOf(v, line) && d in front ==> |d| <= |st.items[j.value].line|))
  {
    hide KeyOf, OwnTs, TsAt, Kept, IndexOf, ItemOk;
    var j := IndexOf(v, st.items, KeyOf(v, line));
    if d in front {
      var q: nat :| q < |front| && front[q] == d;
      assert StandsFor(v, st.items, front[q]);
    }
    if j.Some? {
      assert ItemOk(v, front, st.items[j.value]);
      ItemLine(v, front, st.items[j.value]);
      forall i: nat | i < |st.items| && KeyOf(v, st.items[i].line) == KeyOf(v, line) ensures i == j.value {
        OneItemPerRecord(v, front, st.items[i], st.items[j.value]);
      }
    }
  }

  lemma ItemLine(v: View, front: seq<Line>, item: Item)
    requires ItemOk(v, front, item)
    ensures item.line in front
  {
  }

  // ---- the gate ----

  /** The gate's condition: every line of the base has a line of its record in the merged file. */
  lemma CoveredExactly(v: View, base: seq<Line>, merged: seq<Line>)
    ensures Covered(v, base, merged) <==>
      forall x :: In(v, x, base) ==> exists m :: In(v, m, merged) && SameRecord(v, m, x)
  {
    hide KeyOf, SameRecord;
    forall x, m ensures KeyOf(v, m) == KeyOf(v, x) <==> SameRecord(v, m, x) {
      KeysExactly(v, m, x);
    }
    if Covered(v, base, merged) {
      forall x | In(v, x, base) ensures exists m :: In(v, m, merged) && SameRecord(v, m, x) {
        var m :| m in merged && !v.blank(m) && KeyOf(v, m) == KeyOf(v, x);
        assert In(v, m, merged);
      }
    }
    if forall x :: In(v, x, base) ==> exists m :: In(v, m, merged) && SameRecord(v, m, x) {
      forall x | x in base && !v.blank(x) ensures exists m :: m in merged && !v.blank(m) && KeyOf(v, m) == KeyOf(v, x) {
        assert In(v, x, base);
        var m :| In(v, m, merged) && SameRecord(v, m, x);
      }
    }
  }
}
