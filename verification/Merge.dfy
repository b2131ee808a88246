/** The merge and its coverage gate as the program runs them: maps, sets and lists changed line by line, proved to
    compute what `MergeSpec` defines (reconcile/merge.rs). */
module Merging {
  import opened Bytes
  import opened MergeSpec
  import opened MergeTheorems

  /** `session_merge`'s working state. */
  class Ingestion {
    const v: View
    var byUuid: map<seq<byte>, Item>
    var seenLines: set<Line>
    var extras: seq<Item>
    var conflicts: seq<Conflict>
    var lastTs: Option<Stamp>
    var ord: nat

    constructor (v: View)
      ensures this.v == v && Holds([])
    {
      this.v := v;
      byUuid, seenLines, extras, conflicts := map[], {}, [], [];
      lastTs, ord := None, 0;
    }

    /** The state after ingesting `lines`: the two collections together hold exactly the specification's items. */
    ghost predicate Holds(lines: seq<Line>)
      reads this
    {
      var st := Ingest(v, lines);
      && ord == st.ord && lastTs == st.lastTs && conflicts == st.conflicts
      && SameItems(v, byUuid, seenLines, extras, st.items)
    }

    method IngestLines(recs: seq<Line>, ghost done: seq<Line>)
      requires Holds(done)
      modifies this
      ensures Holds(done + recs)
    {
      hide Ingest, SameItems;
      var i := 0;
      assert done + recs[..0] == done;
      while i < |recs|
        invariant 0 <= i <= |recs| && Holds(done + recs[..i])
      {
        IngestLine(recs[i], done + recs[..i]);
        assert done + recs[..i] + [recs[i]] == done + recs[..i + 1];
        i := i + 1;
      }
      assert recs[..i] == recs;
    }

    method IngestLine(line: Line, ghost done: seq<Line>)
      requires Holds(done)
      modifies this
      ensures Holds(done + [line])
    {
      hide Ingest, SameItems, OwnTs, IndexOf, Ordered;
      ghost var st := Ingest(v, done);
      IngestSnoc(v, done, line);
      OrderedItems(v, done);
      LineSlot(v, byUuid, seenLines, extras, st.items, line);
      var ownTs := OwnTs(v, line);
      if ownTs.Some? {
        lastTs := ownTs;
      }
      var ts := if ownTs.Some? then ownTs else lastTs;
      match Classify(v, line) {
      case Transcript(uuid) =>
        UuidSlot(v, byUuid, seenLines, extras, st.items, uuid);
        var item := Item(ts, ord, line);
        if uuid in byUuid && |byUuid[uuid].line| >= |line| {
          if byUuid[uuid].line != line {
            conflicts := conflicts + [Conflict(uuid, line)];
          }
        } else if uuid in byUuid {
          ReplaceUuid(v, byUuid, seenLines, extras, st.items, uuid, item, IndexOf(v, st.items, ByUuid(uuid)).value);
          conflicts := conflicts + [Conflict(uuid, byUuid[uuid].line)];
          byUuid := byUuid[uuid := item];
        } else {
          AddUuid(v, byUuid, seenLines, extras, st.items, uuid, item);
          byUuid := byUuid[uuid := item];
        }
      case NoUuid =>
        AddLine(line, ts, st);
      case Unparsable(truncated) =>
        AddLine(line, ts, st);
      }
      ord := ord + 1;
    }

    /** Whole-line deduplication of a line without a uuid. */
    method AddLine(line: Line, ts: Option<Stamp>, ghost st: State)
      requires SameItems(v, byUuid, seenLines, extras, st.items) && KeyOf(v, line) == ByLine(line)
      requires forall e :: e in st.items ==> e.ord < ord
      modifies this`seenLines, this`extras
      ensures line in old(seenLines) ==> seenLines == old(seenLines) && extras == old(extras)
      ensures line !in old(seenLines) ==> SameItems(v, byUuid, seenLines, extras, st.items + [Item(ts, ord, line)])
    {
      if line !in seenLines {
        AddExtra(v, byUuid, seenLines, extras, st.items, Item(ts, ord, line));
        seenLines := seenLines + {line};
        extras := extras + [Item(ts, ord, line)];
      }
    }
  }

  ghost predicate InMap(byUuid: map<seq<byte>, Item>, e: Item) {
    exists u :: u in byUuid && byUuid[u] == e
  }

  ghost predicate HasLine(extras: seq<Item>, line: Line) {
    exists j :: 0 <= j < |extras| && extras[j].line == line
  }

  ghost predicate SameItems(v: View, byUuid: map<seq<byte>, Item>, seen: set<Line>, extras: seq<Item>,
      items: seq<Item>) {
    && (forall e :: e in items <==> e in extras || InMap(byUuid, e))
    && (forall u :: u in byUuid ==> KeyOf(v, byUuid[u].line) == ByUuid(u))
    && (forall j :: 0 <= j < |extras| ==> KeyOf(v, extras[j].line) == ByLine(extras[j].line))
    && (forall l :: l in seen <==> HasLine(extras, l))
    && Ordered(extras)
  }

  lemma OrderedItems(v: View, lines: seq<Line>)
    ensures var st := Ingest(v, lines);
      Ordered(st.items) && forall e :: e in st.items ==> e.ord < st.ord
  {
    hide Ingest, TsAt;
    IngestIsIngested(v, lines);
  }

  /** The uuid table finds what the specification's search finds. */
  lemma UuidSlot(v: View, byUuid: map<seq<byte>, Item>, seen: set<Line>, extras: seq<Item>, items: seq<Item>,
      uuid: seq<byte>)
    requires SameItems(v, byUuid, seen, extras, items)
    ensures var at := IndexOf(v, items, ByUuid(uuid));
      (at.Some? <==> uuid in byUuid) && (at.Some? ==> items[at.value] == byUuid[uuid])
  {
    hide KeyOf, IndexOf;
    var at := IndexOf(v, items, ByUuid(uuid));
    if at.Some? {
      assert items[at.value] in items;
    }
    if uuid in byUuid {
      assert InMap(byUuid, byUuid[uuid]);
      assert byUuid[uuid] in items;
    }
  }

  /** The set of seen lines finds what the specification's search finds. */
  lemma LineSlot(v: View, byUuid: map<seq<byte>, Item>, seen: set<Line>, extras: seq<Item>, items: seq<Item>,
      line: Line)
    requires SameItems(v, byUuid, seen, extras, items)
    ensures var at := IndexOf(v, items, ByLine(line));
      (at.Some? <==> line in seen) && (at.Some? ==> items[at.value].line == line)
  {
    hide KeyOf, IndexOf;
    var at := IndexOf(v, items, ByLine(line));
    if at.Some? {
      var e := items[at.value];
      assert e in items;
      assert e in extras || InMap(byUuid, e);
      if e in extras {
        var j: nat :| j < |extras| && extras[j] == e;
        assert HasLine(extras, line);
      }
    }
    if line in seen {
      var j: nat :| j < |extras| && extras[j].line == line;
      assert extras[j] in extras;
      assert extras[j] in items;
    }
  }

  lemma AddUuid(v: View, byUuid: map<seq<byte>, Item>, seen: set<Line>, extras: seq<Item>, items: seq<Item>,
      uuid: seq<byte>, item: Item)
    requires SameItems(v, byUuid, seen, extras, items) && uuid !in byUuid && KeyOf(v, item.line) == ByUuid(uuid)
    ensures SameItems(v, byUuid[uuid := item], seen, extras, items + [item])
  {
    hide KeyOf;
    var b2 := byUuid[uuid := item];
    forall e ensures e in items + [item] <==> e in extras || InMap(b2, e) {
      if InMap(byUuid, e) { var u :| u in byUuid && byUuid[u] == e; assert u in b2 && b2[u] == e; }
      if e == item { assert b2[uuid] == e; }
    }
  }

  lemma ReplaceUuid(v: View, byUuid: map<seq<byte>, Item>, seen: set<Line>, extras: seq<Item>, items: seq<Item>,
                    uuid: seq<byte>, item: Item, j: nat)
    requires SameItems(v, byUuid, seen, extras, items) && uuid in byUuid && KeyOf(v, item.line) == ByUuid(uuid)
    requires Ordered(items) && j < |items| && items[j] == byUuid[uuid]
    ensures SameItems(v, byUuid[uuid := item], seen, extras, Without(items, j) + [item])
  {
    hide KeyOf;
    var b2 := byUuid[uuid := item];
    var rest := Without(items, j);
    forall e ensures e in rest <==> e in items && e != items[j] {
      if e in items && e != items[j] {
        var k: nat :| k < |items| && items[k] == e;
        assert rest[if k < j then k else k - 1] == e;
      }
    }
    forall e ensures e in rest + [item] <==> e in extras || InMap(b2, e) {
      if InMap(byUuid, e) && e != items[j] { var u :| u in byUuid && byUuid[u] == e; assert u in b2 && b2[u] == e; }
      if e in extras { var k: nat :| k < |extras| && extras[k] == e; }
      if e == item { assert b2[uuid] == e; }
      if InMap(b2, e) && e != item {
        var u :| u in b2 && b2[u] == e;
        assert u in byUuid && byUuid[u] == e;
        assert InMap(byUuid, e);
      }
    }
  }

  lemma AddExtra(v: View, byUuid: map<seq<byte>, Item>, seen: set<Line>, extras: seq<Item>, items: seq<Item>,
      item: Item)
    requires SameItems(v, byUuid, seen, extras, items) && KeyOf(v, item.line) == ByLine(item.line)
    requires forall e :: e in items ==> e.ord < item.ord
    ensures SameItems(v, byUuid, seen + {item.line}, extras + [item], items + [item])
  {
    hide KeyOf;
    var e2 := extras + [item];
    forall j | 0 <= j < |extras| ensures extras[j].ord < item.ord {
      assert extras[j] in extras && extras[j] in items;
    }
    forall l ensures l in seen + {item.line} <==> HasLine(e2, l) {
      if HasLine(extras, l) { var j: nat :| j < |extras| && extras[j].line == l; assert e2[j].line == l; }
      if l == item.line { assert e2[|extras|].line == l; }
    }
  }

  // ---- the result ----

  /** The order of the output, by comparison of timestamp and then position. */
  method SortItems(items: seq<Item>) returns (r: seq<Item>)
    requires forall j, k :: 0 <= j < k < |items| ==> items[j].ord != items[k].ord
    ensures InOrder(r) && forall e :: e in r <==> e in items
  {
    r := [];
    var i := 0;
    while i < |items|
      invariant 0 <= i <= |items| && InOrder(r) && forall e :: e in r <==> e in items[..i]
    {
      var x := items[i];
      var p := 0;
      while p < |r| && Before(r[p], x)
        invariant 0 <= p <= |r| && forall k :: 0 <= k < p ==> Before(r[k], x)
      {
        p := p + 1;
      }
      assert items[..i + 1] == items[..i] + [x];
      Placed(r, x, p, items[..i]);
      r := r[..p] + [x] + r[p..];
      i := i + 1;
    }
    assert items[..i] == items;
  }

  lemma Placed(r: seq<Item>, x: Item, p: nat, items: seq<Item>)
    requires InOrder(r) && p <= |r| && (forall e :: e in r <==> e in items)
    requires forall j :: 0 <= j < |items| ==> items[j].ord != x.ord
    requires (forall k :: 0 <= k < p ==> Before(r[k], x)) && (p < |r| ==> !Before(r[p], x))
    ensures InOrder(r[..p] + [x] + r[p..]) && forall e :: e in r[..p] + [x] + r[p..] <==> e in items + [x]
  {
    var s := r[..p] + [x] + r[p..];
    forall k | p <= k < |r| ensures Before(x, r[k]) {
      assert r[p] in r;
      assert r[p].ord != x.ord;
      TsOrder(x.ts, r[p].ts, r[k].ts);
      TsOrder(r[p].ts, x.ts, x.ts);
      if p < k { assert Before(r[p], r[k]); TsOrder(r[p].ts, r[k].ts, x.ts); TsOrder(r[k].ts, x.ts, x.ts); }
    }
    forall j, k | 0 <= j < k < |s| ensures Before(s[j], s[k]) {
      if j != p && k != p {
        assert Before(r[if j < p then j else j - 1], r[if k < p then k else k - 1]);
      }
    }
    assert r == r[..p] + r[p..];
  }

  /** The values of the uuid table after the other lines, in whatever order the table gives them. */
  method Collect(v: View, byUuid: map<seq<byte>, Item>, ghost seen: set<Line>, extras: seq<Item>,
      ghost items: seq<Item>)
    returns (r: seq<Item>)
    requires SameItems(v, byUuid, seen, extras, items) && Ordered(items)
    ensures forall e :: e in r <==> e in items
    ensures forall j, k :: 0 <= j < k < |r| ==> r[j].ord != r[k].ord
  {
    hide KeyOf, Ordered;
    DistinctExtras(v, byUuid, seen, extras, items);
    r := extras;
    forall u | u in byUuid ensures byUuid[u] in items { assert InMap(byUuid, byUuid[u]); }
    var keys := byUuid.Keys;
    while keys != {}
      invariant keys <= byUuid.Keys
      invariant forall e :: e in r ==> e in items
      invariant forall e :: e in extras ==> e in r
      invariant forall u :: u in byUuid && u !in keys ==> byUuid[u] in r
      invariant forall u :: u in keys ==> byUuid[u] !in r
      invariant forall j, k :: 0 <= j < k < |r| ==> r[j] != r[k]
      decreases |keys|
    {
      var u :| u in keys;
      r := r + [byUuid[u]];
      keys := keys - {u};
    }
    forall j, k | 0 <= j < k < |r| ensures r[j].ord != r[k].ord {
      assert r[j] in r && r[k] in r;
      DistinctOrds(items, r[j], r[k]);
    }
  }

  lemma DistinctExtras(v: View, byUuid: map<seq<byte>, Item>, seen: set<Line>, extras: seq<Item>, items: seq<Item>)
    requires SameItems(v, byUuid, seen, extras, items) && Ordered(items)
    ensures forall j, k :: 0 <= j < k < |extras| ==> extras[j] != extras[k]
  {
    hide KeyOf;
  }

  lemma DistinctOrds(items: seq<Item>, a: Item, b: Item)
    requires Ordered(items) && a in items && b in items && a != b
    ensures a.ord != b.ord
  {
    var j: nat :| j < |items| && items[j] == a;
    var k: nat :| k < |items| && items[k] == b;
    assert j < k || k < j;
  }

  method SessionMerge(v: View, base: seq<Line>, incoming: seq<Line>)
      returns (merged: seq<Line>, conflicts: seq<Conflict>)
    ensures merged == Merge(v, base, incoming)
    ensures conflicts == Ingest(v, NonBlank(v, base) + NonBlank(v, incoming)).conflicts
  {
    hide Ingest, SameItems, Sort;
    var baseRecs := FilterBlank(v, base);
    var incRecs := FilterBlank(v, incoming);
    var work := new Ingestion(v);
    work.IngestLines(baseRecs, []);
    assert [] + baseRecs == baseRecs;
    work.IngestLines(incRecs, baseRecs);
    ghost var all := baseRecs + incRecs;
    ghost var items := Ingest(v, all).items;
    OrderedItems(v, all);
    var collected := Collect(v, work.byUuid, work.seenLines, work.extras, items);
    SortInOrder(items);
    var sorted := SortItems(collected);
    OneOrder(sorted, Sort(items));
    merged := Lines(sorted);
    conflicts := work.conflicts;
  }

  method FilterBlank(v: View, lines: seq<Line>) returns (r: seq<Line>)
    ensures r == NonBlank(v, lines)
  {
    r := [];
    var i := 0;
    while i < |lines|
      invariant 0 <= i <= |lines| && r == NonBlank(v, lines[..i])
    {
      assert lines[..i + 1][..i] == lines[..i];
      if !v.blank(lines[i]) {
        r := r + [lines[i]];
      }
      i := i + 1;
    }
    assert lines[..i] == lines;
  }

  /** `base_covered_by_merged`: true exactly if every record of `base` is in `merged`. */
  method BaseCoveredByMerged(v: View, base: seq<Line>, merged: seq<Line>) returns (r: bool)
    ensures r <==> Covered(v, base, merged)
  {
    hide KeyOf;
    var mergedUuids: set<seq<byte>> := {};
    var mergedLines: set<Line> := {};
    var i := 0;
    while i < |merged|
      invariant 0 <= i <= |merged|
      invariant forall u :: u in mergedUuids <==> Recorded(v, merged[..i], ByUuid(u))
      invariant forall l :: Recorded(v, merged[..i], ByLine(l)) ==> l in mergedLines
      invariant forall l :: l in mergedLines ==> Recorded(v, merged[..i], KeyOf(v, l)) && KeyOf(v, l) == ByLine(l)
    {
      var line := merged[i];
      RecordedSnoc(v, merged[..i], line);
      assert merged[..i + 1] == merged[..i] + [line];
      KeyKinds(v, line);
      if !v.blank(line) {
        match Classify(v, line) {
        case Transcript(uuid) => mergedUuids := mergedUuids + {uuid};
        case _ => mergedLines := mergedLines + {line};
        }
      }
      i := i + 1;
    }
    assert merged[..i] == merged;
    i := 0;
    while i < |base|
      invariant 0 <= i <= |base|
      invariant forall j :: 0 <= j < i && !v.blank(base[j]) ==> Recorded(v, merged, KeyOf(v, base[j]))
    {
      var line := base[i];
      KeyKinds(v, line);
      if !v.blank(line) {
        var missing := match Classify(v, line)
          case Transcript(uuid) => uuid !in mergedUuids
          case _ => line !in mergedLines;
        if missing {
          NotCovered(v, base, merged, line);
          return false;
        }
      }
      i := i + 1;
    }
    r := true;
  }

  /** Some line of that record is among `lines`. */
  ghost predicate Recorded(v: View, lines: seq<Line>, key: RecordKey) {
    exists m :: m in lines && !v.blank(m) && KeyOf(v, m) == key
  }

  lemma RecordedSnoc(v: View, lines: seq<Line>, line: Line)
    ensures forall key :: Recorded(v, lines + [line], key) <==>
      Recorded(v, lines, key) || (!v.blank(line) && KeyOf(v, line) == key)
  {
    hide KeyOf;
    forall key ensures Recorded(v, lines + [line], key) <==>
      Recorded(v, lines, key) || (!v.blank(line) && KeyOf(v, line) == key) {
      if Recorded(v, lines, key) {
        var m :| m in lines && !v.blank(m) && KeyOf(v, m) == key;
        assert m in lines + [line];
      }
      assert line in lines + [line];
    }
  }

  lemma KeyKinds(v: View, line: Line)
    ensures KeyOf(v, line) == match Classify(v, line) case Transcript(u) => ByUuid(u) case _ => ByLine(line)
  {
  }

  lemma NotCovered(v: View, base: seq<Line>, merged: seq<Line>, line: Line)
    requires line in base && !v.blank(line) && !Recorded(v, merged, KeyOf(v, line))
    ensures !Covered(v, base, merged)
  {
  }
}
