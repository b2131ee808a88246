/** The lossless merge of two session files, on lines (reconcile/merge.rs, reconcile/record.rs): keyed union,
    inherited timestamps, one stable order; and what that merge promises. */
module MergeSpec {
  import opened Bytes

  type Line = seq<byte>
  type Stamp = seq<byte>

  /** What the JSON parser reads from a line, as far as the merge asks: string members only. */
  datatype Json = Json(uuid: Option<seq<byte>>, timestamp: Option<Stamp>)

  /** The parser and the blank test, both outside this model. */
  datatype View = View(parse: Line -> Option<Json>, blank: Line -> bool, truncated: Line -> bool)

  datatype Kind = Transcript(uuid: seq<byte>) | NoUuid | Unparsable(truncated: bool)

  /** Only a non-empty string uuid makes a transcript record. */
  function Classify(v: View, line: Line): Kind {
    match v.parse(line)
    case Some(json) => if json.uuid.Some? && json.uuid.value != [] then Transcript(json.uuid.value) else NoUuid
    case None => Unparsable(v.truncated(line))
  }

  function OwnTs(v: View, line: Line): Option<Stamp> {
    match v.parse(line)
    case Some(json) => json.timestamp
    case None => None
  }

  /** What makes two lines the same record: the uuid, or else the whole line. */
  datatype RecordKey = ByUuid(uuid: seq<byte>) | ByLine(line: Line)

  function KeyOf(v: View, line: Line): RecordKey {
    match Classify(v, line)
    case Transcript(u) => ByUuid(u)
    case NoUuid => ByLine(line)
    case Unparsable(_) => ByLine(line)
  }

  // ---- the order of timestamps ----

  predicate LexLe(a: Stamp, b: Stamp)
    decreases |a|
  {
    if a == [] then true
    else if b == [] then false
    else if a[0] != b[0] then a[0] < b[0]
    else LexLe(a[1..], b[1..])
  }

  /** A missing timestamp comes first. */
  predicate TsLe(a: Option<Stamp>, b: Option<Stamp>) {
    a.None? || (b.Some? && LexLe(a.value, b.value))
  }

  lemma {:induction false} LexTotal(a: Stamp, b: Stamp)
    ensures LexLe(a, b) || LexLe(b, a)
    ensures LexLe(a, b) && LexLe(b, a) ==> a == b
    decreases |a|
  {
    if a != [] && b != [] && a[0] == b[0] {
      LexTotal(a[1..], b[1..]);
      assert a == [a[0]] + a[1..] && b == [b[0]] + b[1..];
    }
  }

  lemma {:induction false} LexTrans(a: Stamp, b: Stamp, c: Stamp)
    requires LexLe(a, b) && LexLe(b, c)
    ensures LexLe(a, c)
    decreases |a|
  {
    if a != [] && a[0] == b[0] && b[0] == c[0] {
      LexTrans(a[1..], b[1..], c[1..]);
    }
  }

  /** Timestamps, missing ones included, are totally ordered. */
  lemma TsOrder(a: Option<Stamp>, b: Option<Stamp>, c: Option<Stamp>)
    ensures TsLe(a, b) || TsLe(b, a)
    ensures TsLe(a, b) && TsLe(b, a) ==> a == b
    ensures TsLe(a, b) && TsLe(b, c) ==> TsLe(a, c)
  {
    if a.Some? && b.Some? {
      LexTotal(a.value, b.value);
      if c.Some? && LexLe(a.value, b.value) && LexLe(b.value, c.value) { LexTrans(a.value, b.value, c.value); }
    }
  }

  // ---- ingesting ----

  datatype Item = Item(ts: Option<Stamp>, ord: nat, line: Line)
  datatype Conflict = Conflict(uuid: seq<byte>, dropped: Line)

  /** `items` in input order, one per record key. */
  datatype State = State(items: seq<Item>, lastTs: Option<Stamp>, ord: nat, conflicts: seq<Conflict>)

  function IndexOf(v: View, items: seq<Item>, key: RecordKey): (r: Option<nat>)
    ensures r.Some? ==> r.value < |items| && KeyOf(v, items[r.value].line) == key
    ensures r.None? ==> forall j :: 0 <= j < |items| ==> KeyOf(v, items[j].line) != key
  {
    if items == [] then None
    else
      var n := |items| - 1;
      if KeyOf(v, items[n].line) == key then Some(n) else IndexOf(v, items[..n], key)
  }

  function Without(items: seq<Item>, j: nat): seq<Item>
    requires j < |items|
  {
    items[..j] + items[j + 1..]
  }

  function Report(key: RecordKey, dropped: Line): seq<Conflict> {
    if key.ByUuid? then [Conflict(key.uuid, dropped)] else []
  }

  /** One line: it inherits the last timestamp if it has none; among lines of one record the longer stays, the
      earlier on a tie, and the other one is reported. */
  function IngestOne(v: View, st: State, line: Line): State {
    var ts := if OwnTs(v, line).Some? then OwnTs(v, line) else st.lastTs;
    var key := KeyOf(v, line);
    var item := Item(ts, st.ord, line);
    var j := IndexOf(v, st.items, key);
    if j.None? then State(st.items + [item], ts, st.ord + 1, st.conflicts)
    else
      var prev := st.items[j.value];
      if |prev.line| >= |line| then
        State(st.items, ts, st.ord + 1, st.conflicts + if prev.line != line then Report(key, line) else [])
      else
        State(Without(st.items, j.value) + [item], ts, st.ord + 1, st.conflicts + Report(key, prev.line))
  }

  function Ingest(v: View, lines: seq<Line>): State {
    if lines == [] then State([], None, 0, [])
    else IngestOne(v, Ingest(v, lines[..|lines| - 1]), lines[|lines| - 1])
  }

  // ---- the output order ----

  function Insert(s: seq<Item>, x: Item): seq<Item> {
    if s == [] || TsLe(s[|s| - 1].ts, x.ts) then s + [x]
    else Insert(s[..|s| - 1], x) + [s[|s| - 1]]
  }

  /** By timestamp, input order among equals. */
  function Sort(s: seq<Item>): seq<Item> {
    if s == [] then [] else Insert(Sort(s[..|s| - 1]), s[|s| - 1])
  }

  function Lines(s: seq<Item>): (r: seq<Line>)
    ensures |r| == |s| && forall k :: 0 <= k < |s| ==> r[k] == s[k].line
  {
    seq(|s|, k requires 0 <= k < |s| => s[k].line)
  }

  function NonBlank(v: View, lines: seq<Line>): seq<Line> {
    if lines == [] then []
    else NonBlank(v, lines[..|lines| - 1]) + if v.blank(lines[|lines| - 1]) then [] else [lines[|lines| - 1]]
  }

  function Merged(v: View, lines: seq<Line>): seq<Line> {
    Lines(Sort(Ingest(v, lines).items))
  }

  /** `session_merge`: the merged lines. */
  function Merge(v: View, base: seq<Line>, incoming: seq<Line>): seq<Line> {
    Merged(v, NonBlank(v, base) + NonBlank(v, incoming))
  }

  // ---- what the ingested items are ----

  /** The timestamp a position has after inheritance. */
  function TsAt(v: View, lines: seq<Line>, p: nat): Option<Stamp>
    requires p < |lines|
  {
    if OwnTs(v, lines[p]).Some? then OwnTs(v, lines[p]) else if p == 0 then None else TsAt(v, lines, p - 1)
  }

  /** Position `p` holds the earliest among the longest variants of its record. */
  ghost predicate Chosen(v: View, lines: seq<Line>, p: nat)
    requires p < |lines|
  {
    forall q: nat :: q < |lines| && KeyOf(v, lines[q]) == KeyOf(v, lines[p]) ==>
      |lines[q]| <= |lines[p]| && (q < p ==> |lines[q]| < |lines[p]|)
  }

  ghost predicate ItemOk(v: View, lines: seq<Line>, item: Item) {
    && item.ord < |lines| && item.line == lines[item.ord] && item.ts == TsAt(v, lines, item.ord)
    && Chosen(v, lines, item.ord)
  }

  /** Some item stands for the line's record, with a line at least as long. */
  ghost predicate StandsFor(v: View, items: seq<Item>, line: Line) {
    exists j :: 0 <= j < |items| && KeyOf(v, items[j].line) == KeyOf(v, line) && |items[j].line| >= |line|
  }

  ghost predicate Ordered(items: seq<Item>) {
    forall j, k :: 0 <= j < k < |items| ==> items[j].ord < items[k].ord
  }

  ghost predicate Kept(items: seq<Item>, conflicts: seq<Conflict>, line: Line) {
    (exists j :: 0 <= j < |items| && items[j].line == line)
      || (exists j :: 0 <= j < |conflicts| && conflicts[j].dropped == line)
  }

  ghost predicate Ingested(v: View, lines: seq<Line>, st: State) {
    && st.ord == |lines| && st.lastTs == (if lines == [] then None else TsAt(v, lines, |lines| - 1))
    && (forall j :: 0 <= j < |st.items| ==> ItemOk(v, lines, st.items[j]))
    && Ordered(st.items)
    && (forall q :: 0 <= q < |lines| ==> StandsFor(v, st.items, lines[q]))
    && (forall q :: 0 <= q < |lines| ==> Kept(st.items, st.conflicts, lines[q]))
  }

  lemma {:induction false} TsAtPrefix(v: View, lines: seq<Line>, line: Line, p: nat)
    requires p < |lines|
    ensures TsAt(v, lines + [line], p) == TsAt(v, lines, p)
  {
    if p > 0 { TsAtPrefix(v, lines, line, p - 1); }
  }

  /** An item stays what it claims when a line of another record, or one no longer than it, is added. */
  lemma ItemStays(v: View, lines: seq<Line>, line: Line, item: Item)
    requires ItemOk(v, lines, item)
    requires KeyOf(v, line) == KeyOf(v, item.line) ==> |line| <= |item.line|
    ensures ItemOk(v, lines + [line], item)
  {
    hide TsAt, KeyOf;
    TsAtPrefix(v, lines, line, item.ord);
    var more := lines + [line];
    forall q: nat | q < |more| && KeyOf(v, more[q]) == KeyOf(v, more[item.ord])
      ensures |more[q]| <= |more[item.ord]| && (q < item.ord ==> |more[q]| < |more[item.ord]|)
    {
      if q < |lines| { assert lines[q] == more[q]; }
    }
  }

  /** The new line's item is what it claims when every earlier line of its record is shorter. */
  lemma ItemNew(v: View, lines: seq<Line>, line: Line, ts: Option<Stamp>)
    requires forall q: nat :: q < |lines| && KeyOf(v, lines[q]) == KeyOf(v, line) ==> |lines[q]| < |line|
    requires ts == if OwnTs(v, line).Some? then OwnTs(v, line)
                   else if lines == [] then None else TsAt(v, lines, |lines| - 1)
    ensures ItemOk(v, lines + [line], Item(ts, |lines|, line)) && ts == TsAt(v, lines + [line], |lines|)
  {
    hide KeyOf, OwnTs;
    if lines != [] { TsAtPrefix(v, lines, line, |lines| - 1); }
    var more := lines + [line];
    forall q: nat | q < |more| && KeyOf(v, more[q]) == KeyOf(v, more[|lines|])
      ensures |more[q]| <= |more[|lines|]| && (q < |lines| ==> |more[q]| < |more[|lines|]|)
    {
      if q < |lines| { assert lines[q] == more[q]; }
    }
  }

  /** Two items of one record are one item. */
  lemma OneItemPerRecord(v: View, lines: seq<Line>, a: Item, b: Item)
    requires ItemOk(v, lines, a) && ItemOk(v, lines, b) && KeyOf(v, a.line) == KeyOf(v, b.line)
    ensures a == b
  {
    hide KeyOf, TsAt;
    assert Chosen(v, lines, a.ord) && Chosen(v, lines, b.ord);
    assert |lines[a.ord]| <= |lines[b.ord]| && |lines[b.ord]| <= |lines[a.ord]|;
  }

  /** What one step leaves in the list. */
  lemma StepItems(v: View, lines: seq<Line>, st: State, line: Line)
    requires Ingested(v, lines, st)
    ensures var st2 := IngestOne(v, st, line);
      && (forall j :: 0 <= j < |st2.items| ==> ItemOk(v, lines + [line], st2.items[j]))
      && Ordered(st2.items) && st2.lastTs == TsAt(v, lines + [line], |lines|) && st2.ord == |lines| + 1
  {
    hide KeyOf, OwnTs, TsAt, ItemOk, StandsFor, Kept, IndexOf;
    var st2 := IngestOne(v, st, line);
    var at := IndexOf(v, st.items, KeyOf(v, line));
    LastTs(v, lines, line, st2.lastTs);
    forall j | 0 <= j < |st.items| ensures st.items[j].ord < |lines| { OrdBound(v, lines, st.items[j]); }
    if at.None? || |st.items[at.value].line| < |line| {
      forall q: nat | q < |lines| && KeyOf(v, lines[q]) == KeyOf(v, line) ensures |lines[q]| < |line| {
        ShorterBefore(v, lines, st.items, line, q);
      }
      ItemNew(v, lines, line, st2.lastTs);
    }
    forall j | 0 <= j < |st2.items| && st2.items[j].ord < |lines| ensures ItemOk(v, lines + [line], st2.items[j]) {
      var moved := at.Some? && j >= at.value && |st2.items| == |st.items| && st2.items[j] != st.items[j];
      var i := if moved then j + 1 else j;
      assert st2.items[j] == st.items[i];
      if KeyOf(v, line) == KeyOf(v, st.items[i].line) {
        OneItemPerRecord(v, lines, st.items[i], st.items[at.value]);
      }
      ItemStays(v, lines, line, st.items[i]);
    }
  }

  lemma OrdBound(v: View, lines: seq<Line>, item: Item)
    requires ItemOk(v, lines, item)
    ensures item.ord < |lines|
  {
  }

  lemma LastTs(v: View, lines: seq<Line>, line: Line, ts: Option<Stamp>)
    requires ts == if OwnTs(v, line).Some? then OwnTs(v, line)
                   else if lines == [] then None else TsAt(v, lines, |lines| - 1)
    ensures ts == TsAt(v, lines + [line], |lines|)
  {
    if lines != [] { TsAtPrefix(v, lines, line, |lines| - 1); }
  }

  /** If no item holds its ground against `line`, every earlier line of its record is shorter. */
  lemma ShorterBefore(v: View, lines: seq<Line>, items: seq<Item>, line: Line, q: nat)
    requires forall j :: 0 <= j < |items| ==> ItemOk(v, lines, items[j])
    requires q < |lines| && KeyOf(v, lines[q]) == KeyOf(v, line) && StandsFor(v, items, lines[q])
    requires var at := IndexOf(v, items, KeyOf(v, line)); at.None? || |items[at.value].line| < |line|
    ensures |lines[q]| < |line|
  {
    hide KeyOf, ItemOk, IndexOf;
    var j :| 0 <= j < |items| && KeyOf(v, items[j].line) == KeyOf(v, lines[q]) && |items[j].line| >= |lines[q]|;
    var at := IndexOf(v, items, KeyOf(v, line));
    OneItemPerRecord(v, lines, items[j], items[at.value]);
  }

  /** Where an item goes in one step: it stays, or the longer new line takes its place and it is reported. */
  lemma ItemGoes(v: View, st: State, line: Line, j: nat) returns (i: nat)
    requires j < |st.items|
    ensures var st2 := IngestOne(v, st, line);
      && i < |st2.items|
      && (st2.items[i] == st.items[j]
          || (KeyOf(v, st2.items[i].line) == KeyOf(v, st.items[j].line) && |st2.items[i].line| > |st.items[j].line|
              && |st2.conflicts| > 0 && st2.conflicts[|st2.conflicts| - 1].dropped == st.items[j].line))
  {
    hide OwnTs;
    var at := IndexOf(v, st.items, KeyOf(v, line));
    if at.None? || |st.items[at.value].line| >= |line| || j < at.value {
      i := j;
    } else if j == at.value {
      i := |st.items| - 1;
    } else {
      i := j - 1;
    }
  }

  lemma NewLineStands(v: View, st: State, line: Line)
    ensures var st2 := IngestOne(v, st, line); StandsFor(v, st2.items, line) && Kept(st2.items, st2.conflicts, line)
  {
    hide OwnTs;
    var st2 := IngestOne(v, st, line);
    var at := IndexOf(v, st.items, KeyOf(v, line));
    if at.Some? && |st.items[at.value].line| >= |line| {
      assert st2.items[at.value] == st.items[at.value];
      if st.items[at.value].line != line {
        assert st2.conflicts[|st2.conflicts| - 1].dropped == line;
      }
    } else {
      assert st2.items[|st2.items| - 1].line == line;
    }
  }

  lemma ConflictsGrow(v: View, st: State, line: Line)
    ensures st.conflicts <= IngestOne(v, st, line).conflicts
  {
  }

  lemma StepCovers(v: View, st: State, line: Line, x: Line)
    requires x == line || (StandsFor(v, st.items, x) && Kept(st.items, st.conflicts, x))
    ensures var st2 := IngestOne(v, st, line); StandsFor(v, st2.items, x) && Kept(st2.items, st2.conflicts, x)
  {
    hide OwnTs, KeyOf, IngestOne;
    if x == line {
      NewLineStands(v, st, line);
    } else {
      var st2 := IngestOne(v, st, line);
      var j: nat :| j < |st.items| && KeyOf(v, st.items[j].line) == KeyOf(v, x) && |st.items[j].line| >= |x|;
      var i := ItemGoes(v, st, line, j);
      ConflictsGrow(v, st, line);
      if k: nat :| k < |st.items| && st.items[k].line == x {
        var i2 := ItemGoes(v, st, line, k);
      } else {
        var c: nat :| c < |st.conflicts| && st.conflicts[c].dropped == x;
        assert st2.conflicts[c] == st.conflicts[c];
      }
    }
  }

  lemma {:induction false} IngestIsIngested(v: View, lines: seq<Line>)
    ensures Ingested(v, lines, Ingest(v, lines))
    decreases |lines|
  {
    hide ItemOk, StandsFor, Kept, TsAt, IngestOne;
    if lines != [] {
      var n := |lines| - 1;
      var before, line := lines[..n], lines[n];
      IngestIsIngested(v, before);
      StepItems(v, before, Ingest(v, before), line);
      assert before + [line] == lines;
      forall q | 0 <= q < |lines|
        ensures StandsFor(v, Ingest(v, lines).items, lines[q])
          && Kept(Ingest(v, lines).items, Ingest(v, lines).conflicts, lines[q])
      {
        if q < n { assert before[q] == lines[q]; }
        StepCovers(v, Ingest(v, before), line, lines[q]);
      }
    }
  }
}
