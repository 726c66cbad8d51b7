/** The two connectors and the diff of one table, as it runs against them. */
module Reconcile {
  import opened Ids
  import opened Segments
  import opened Descent
  import opened DiffFindings
  import opened SegmentedDiff

  /** A legacy row, and when it last recorded a change. */
  datatype LegacyRow = LegacyRow(row: Row, changedAt: Option<int>)

  /** What is compared: the value columns' names, and the watermark the legacy side is as of, if any. */
  datatype TableSpec = TableSpec(names: seq<string>, watermark: Option<int>)

  predicate ChangedAfter(r: LegacyRow, watermark: Option<int>) {
    watermark.Some? && r.changedAt.Some? && r.changedAt.value > watermark.value
  }

  /** The legacy rows without those changed after the watermark; a row with no time of change stays. */
  function AsOf(table: seq<LegacyRow>, watermark: Option<int>): seq<Row> {
    if table == [] then []
    else
      var rest, last := AsOf(table[..|table| - 1], watermark), table[|table| - 1];
      if ChangedAfter(last, watermark) then rest else rest + [last.row]
  }

  function ChangedRows(table: seq<LegacyRow>, watermark: Option<int>): seq<LegacyRow> {
    if table == [] then []
    else
      var rest, last := ChangedRows(table[..|table| - 1], watermark), table[|table| - 1];
      if ChangedAfter(last, watermark) then rest + [last] else rest
  }

  /** The keys of legacy rows newer than the watermark. */
  function ChangedKeys(table: seq<LegacyRow>, watermark: Option<int>): set<string> {
    if table == [] then {}
    else
      var rest, last := ChangedKeys(table[..|table| - 1], watermark), table[|table| - 1];
      if ChangedAfter(last, watermark) then rest + {last.row.key} else rest
  }

  lemma {:induction false} NoneChanged(table: seq<LegacyRow>, watermark: Option<int>)
    ensures ChangedRows(table, watermark) == [] ==> ChangedKeys(table, watermark) == {}
  {
    if table != [] { NoneChanged(table[..|table| - 1], watermark); }
  }

  // -- The connectors ------------------------------------------------------------------

  /** The hashed rows Postgres keeps in a temporary table, and the watermark they are as of. */
  datatype Prepared = Prepared(watermark: Option<int>, rows: seq<Hashed>)

  class PostgresConnector {
    const hashing: Hashing
    var table: seq<LegacyRow>
    var prepared: Option<Prepared>

    constructor (hashing: Hashing, table: seq<LegacyRow>)
      ensures this.hashing == hashing && this.table == table && prepared.None?
    {
      this.hashing, this.table, prepared := hashing, table, None;
    }

    /** What is prepared for this watermark is what the table holds now. */
    ghost predicate Current(watermark: Option<int>)
      reads this
    {
      prepared.Some? && prepared.value.watermark == watermark
      ==> prepared.value.rows == HashAll(hashing, AsOf(table, watermark))
    }

    /** The application keeps writing; what is prepared is not touched. */
    method Write(rows: seq<LegacyRow>)
      modifies this`table
      ensures table == rows
    {
      table := rows;
    }

    method Forget()
      modifies this`prepared
      ensures prepared.None?
      ensures forall watermark :: Current(watermark)
    {
      prepared := None;
    }

    method Hashes(watermark: Option<int>) returns (rows: seq<Hashed>)
      modifies this`prepared
      ensures prepared == Some(Prepared(watermark, rows))
      ensures if old(prepared).Some? && old(prepared).value.watermark == watermark
              then rows == old(prepared).value.rows
              else rows == HashAll(hashing, AsOf(table, watermark))
    {
      if prepared.None? || prepared.value.watermark != watermark {
        prepared := Some(Prepared(watermark, HashAll(hashing, AsOf(table, watermark))));
      }
      rows := prepared.value.rows;
    }

    method Summarize(watermark: Option<int>, depth: nat, parents: set<Segment>) returns (answer: map<Segment, Summary>)
      requires 1 <= depth <= MAX_DEPTH && Current(watermark)
      modifies this`prepared
      ensures Current(watermark)
      ensures answer == Summaries(HashAll(hashing, AsOf(table, watermark)), depth, parents)
    {
      var rows := Hashes(watermark);
      answer := Summaries(rows, depth, parents);
    }

    /** How many rows are newer than the watermark. */
    method CountAfter(watermark: Option<int>) returns (n: nat)
      ensures n == |ChangedRows(table, watermark)|
    {
      n := 0;
      for i := 0 to |table|
        invariant n == |ChangedRows(table[..i], watermark)|
      {
        assert table[..i + 1][..i] == table[..i];
        if ChangedAfter(table[i], watermark) {
          n := n + 1;
        }
      }
      assert table[..|table|] == table;
    }

    method KeysAfter(watermark: Option<int>, depth: nat, segments: set<Segment>) returns (keys: set<string>)
      requires depth <= MAX_DEPTH
      ensures keys == set key | key in ChangedKeys(table, watermark) && SegmentAt(hashing.bucket(key), depth) in segments
    {
      keys := set key | key in ChangedKeys(table, watermark) && SegmentAt(hashing.bucket(key), depth) in segments;
    }
  }

  /** The copy, read with `FINAL`. */
  class ClickHouseConnector {
    const hashing: Hashing
    var table: seq<Row>

    constructor (hashing: Hashing, table: seq<Row>)
      ensures this.hashing == hashing && this.table == table
    {
      this.hashing, this.table := hashing, table;
    }

    method Summarize(depth: nat, parents: set<Segment>) returns (answer: map<Segment, Summary>)
      requires 1 <= depth <= MAX_DEPTH
      ensures answer == Summaries(HashAll(hashing, table), depth, parents)
    {
      answer := Summaries(HashAll(hashing, table), depth, parents);
    }
  }

  // -- The diff ------------------------------------------------------------------------

  /** How many rows segments of about `leafWidth` rows hold at a depth: `leafWidth * 16^d`. */
  function Capacity(leafWidth: nat, d: nat): nat {
    if d == 0 then leafWidth else 16 * Capacity(leafWidth, d - 1)
  }

  /** Where the descent ends: the segments there hold some `leafWidth` rows or fewer. */
  function LeafDepth(rows: nat, leafWidth: nat): (d: nat)
    ensures 1 <= d <= MAX_DEPTH
  {
    DeepestFrom(rows, leafWidth, 1)
  }

  function DeepestFrom(rows: nat, leafWidth: nat, d: nat): (found: nat)
    requires 1 <= d <= MAX_DEPTH
    ensures d <= found <= MAX_DEPTH
    decreases MAX_DEPTH - d
  {
    if d == MAX_DEPTH || rows <= Capacity(leafWidth, d) then d else DeepestFrom(rows, leafWidth, d + 1)
  }

  /** It is the first depth that is deep enough, or the deepest there is. */
  lemma {:induction false} LeafDepthIsEnough(rows: nat, leafWidth: nat, d: nat)
    requires 1 <= d <= MAX_DEPTH && (d > 1 ==> rows > Capacity(leafWidth, d - 1))
    ensures var found := DeepestFrom(rows, leafWidth, d);
      && (found < MAX_DEPTH ==> rows <= Capacity(leafWidth, found))
      && (found > 1 ==> rows > Capacity(leafWidth, found - 1))
    decreases MAX_DEPTH - d
  {
    if d < MAX_DEPTH && rows > Capacity(leafWidth, d) {
      LeafDepthIsEnough(rows, leafWidth, d + 1);
    }
  }

  /** A table of so many rows is cut into segments: 16, 256, 4096 and so on, as many as it takes for `leafWidth` in each. */
  lemma LeafDepthIs(rows: nat, leafWidth: nat)
    ensures LeafDepth(rows, leafWidth) == if rows <= 16 * leafWidth then 1
                                          else if rows <= 256 * leafWidth then 2
                                          else if rows <= 4_096 * leafWidth then 3
                                          else if rows <= 65_536 * leafWidth then 4
                                          else if rows <= 1_048_576 * leafWidth then 5
                                          else if rows <= 16_777_216 * leafWidth then 6
                                          else if rows <= 268_435_456 * leafWidth then 7
                                          else 8
  {
    var one, two, three := Capacity(leafWidth, 1), Capacity(leafWidth, 2), Capacity(leafWidth, 3);
    var four, five, six := Capacity(leafWidth, 4), Capacity(leafWidth, 5), Capacity(leafWidth, 6);
    assert Capacity(leafWidth, 0) == leafWidth;
    assert one == 16 * leafWidth && two == 16 * one && three == 16 * two && four == 16 * three && five == 16 * four;
    assert six == 16 * five && Capacity(leafWidth, 7) == 16 * six;
    LeafDepthIsEnough(rows, leafWidth, 1);
    assert DeepestFrom(rows, leafWidth, 8) == 8;
  }

  /** What one level of the descent saw: its depth, the segments compared, the segments differing. */
  datatype Level = Level(depth: nat, compared: nat, differing: nat)

  datatype TableDiff = TableDiff(sourceRows: nat, targetRows: nat, findings: Findings, afterWatermark: nat,
                                 levels: seq<Level>, summaryRows: nat, fetchedRows: nat, queries: nat)

  /** Every level down to `done`, top first. */
  function LevelsTo(s: seq<Hashed>, t: seq<Hashed>, done: nat): (levels: seq<Level>)
    requires done <= MAX_DEPTH
    ensures |levels| == done
  {
    if done == 0 then [] else LevelsTo(s, t, done - 1) + [LevelOf(s, t, done)]
  }

  function LevelOf(s: seq<Hashed>, t: seq<Hashed>, d: nat): Level
    requires 1 <= d <= MAX_DEPTH
  {
    Level(d, |Compared(s, t, d, if d == 1 then {} else Differing(s, t, d - 1))|, |Differing(s, t, d)|)
  }

  /** How many segments of a depth lie in segments that all differ, and how many of those differ too. */
  ghost function ReachedLevel(s: seq<Hashed>, t: seq<Hashed>, d: nat): Level
    requires 1 <= d <= MAX_DEPTH
  {
    Level(d, |ReachedAt(s, t, d, d - 1)|, |ReachedAt(s, t, d, d)|)
  }

  ghost predicate AreReached(s: seq<Hashed>, t: seq<Hashed>, levels: seq<Level>) {
    |levels| <= MAX_DEPTH && forall i :: 0 <= i < |levels| ==> levels[i] == ReachedLevel(s, t, i + 1)
  }

  lemma OneReachedMore(s: seq<Hashed>, t: seq<Hashed>, levels: seq<Level>, level: Level)
    requires AreReached(s, t, levels) && |levels| < MAX_DEPTH && level == ReachedLevel(s, t, |levels| + 1)
    ensures AreReached(s, t, levels + [level])
  {
    var more := levels + [level];
    forall i | 0 <= i < |more| ensures more[i] == ReachedLevel(s, t, i + 1) {
      if i < |levels| { assert more[i] == levels[i]; }
    }
  }

  lemma OneDepthMore(s: seq<Hashed>, t: seq<Hashed>, done: nat, rest: seq<Level>)
    requires 0 < done <= MAX_DEPTH && rest == LevelsTo(s, t, done - 1) && AreReached(s, t, rest)
    ensures AreReached(s, t, LevelsTo(s, t, done))
  {
    LevelOfIs(s, t, done);
    OneReachedMore(s, t, rest, LevelOf(s, t, done));
  }

  lemma NoDepth(s: seq<Hashed>, t: seq<Hashed>)
    ensures AreReached(s, t, LevelsTo(s, t, 0))
  {
  }

  /** At each depth the levels tell how many segments lie in segments that all differ, and how many of those differ too. */
  lemma {:induction false} LevelsAre(s: seq<Hashed>, t: seq<Hashed>, done: nat)
    requires done <= MAX_DEPTH
    ensures AreReached(s, t, LevelsTo(s, t, done))
    decreases done
  {
    if done == 0 {
      NoDepth(s, t);
    } else {
      LevelsAre(s, t, done - 1);
      OneDepthMore(s, t, done, LevelsTo(s, t, done - 1));
    }
  }

  lemma LevelOfIs(s: seq<Hashed>, t: seq<Hashed>, d: nat)
    requires 1 <= d <= MAX_DEPTH
    ensures LevelOf(s, t, d) == ReachedLevel(s, t, d)
  {
    DescentReaches(s, t, d);
  }

  /** The rows both sides hold, from the answers at depth 1. */
  method TotalRows(ghost side: seq<Hashed>, answer: map<Segment, Summary>) returns (total: nat)
    requires answer == Summaries(side, 1, {})
    ensures total == |side|
  {
    var rest := answer.Keys;
    ghost var done: set<Segment> := {};
    total := 0;
    SummaryNone(side, 1);
    while rest != {}
      invariant done + rest == answer.Keys && done !! rest
      invariant total == RowsIn(side, 1, done)
      decreases rest
    {
      var b :| b in rest;
      ghost var more := done + {b};
      SummarySplits(side, 1, done, {b}, more);
      total := total + answer[b].rows;
      rest := rest - {b};
      done := more;
    }
    forall r | r in side ensures SegmentAt(r.bucket, 1) in done {
      RowIsInSegment(side, 1, r);
      AskedIs(side, 1, {}, SegmentAt(r.bucket, 1));
    }
    SummaryAll(side, 1, done);
  }

  function RowsAt(grouped: map<string, seq<Row>>, key: string): seq<Row> {
    if key in grouped then grouped[key] else []
  }

  ghost predicate Grouped(grouped: map<string, seq<Row>>, rows: seq<Row>) {
    grouped.Keys == KeysOf(rows) && forall key :: RowsAt(grouped, key) == Copies(rows, key)
  }

  lemma GroupedOneMore(grouped: map<string, seq<Row>>, rows: seq<Row>, row: Row)
    requires Grouped(grouped, rows)
    ensures Grouped(grouped[row.key := RowsAt(grouped, row.key) + [row]], rows + [row])
  {
    var after := grouped[row.key := RowsAt(grouped, row.key) + [row]];
    KeysGrow(rows, row);
    forall key ensures RowsAt(after, key) == Copies(rows + [row], key) {
      CopiesGrow(rows, row, key);
      assert RowsAt(grouped, key) == Copies(rows, key);
    }
  }

  lemma KeysGrow(rows: seq<Row>, row: Row)
    ensures KeysOf(rows + [row]) == KeysOf(rows) + {row.key}
  {
    assert (rows + [row])[..|rows|] == rows;
  }

  lemma CopiesGrow(rows: seq<Row>, row: Row, key: string)
    ensures Copies(rows + [row], key) == if row.key == key then Copies(rows, key) + [row] else Copies(rows, key)
  {
    assert (rows + [row])[..|rows|] == rows;
  }

  /** The rows under their keys, copies side by side. */
  method GroupByKey(rows: seq<Row>) returns (grouped: map<string, seq<Row>>)
    ensures Grouped(grouped, rows)
  {
    grouped := map[];
    for i := 0 to |rows|
      invariant Grouped(grouped, rows[..i])
    {
      GroupedOneMore(grouped, rows[..i], rows[i]);
      assert rows[..i + 1] == rows[..i] + [rows[i]];
      var key := rows[i].key;
      grouped := grouped[key := RowsAt(grouped, key) + [rows[i]]];
    }
    assert rows[..|rows|] == rows;
  }

  lemma ComparedOneMore(byLeft: map<string, seq<Row>>, byRight: map<string, seq<Row>>, left: seq<Row>, right: seq<Row>,
                        changed: set<string>, names: seq<string>, keys: seq<string>, i: nat)
    requires Grouped(byLeft, left) && Grouped(byRight, right) && i < |keys|
    ensures var a, b := RowsAt(byLeft, keys[i]), RowsAt(byRight, keys[i]);
      Collect(Classify(left, right, changed, names), keys[..i + 1])
      == Add(Collect(Classify(left, right, changed, names), keys[..i]), keys[i], Show(keys[i], a, b, keys[i] in changed, names))
  {
    assert keys[..i + 1][..i] == keys[..i];
  }

  /** The rows of the leaves compared, key by key in order. */
  method CompareRows(left: seq<Row>, right: seq<Row>, changed: set<string>, names: seq<string>, keys: seq<string>)
    returns (f: Findings)
    ensures f == Collect(Classify(left, right, changed, names), keys)
  {
    var byKeyLeft := GroupByKey(left);
    var byKeyRight := GroupByKey(right);
    f := NoFindings();
    for i := 0 to |keys|
      invariant f == Collect(Classify(left, right, changed, names), keys[..i])
    {
      ComparedOneMore(byKeyLeft, byKeyRight, left, right, changed, names, keys, i);
      var a, b := RowsAt(byKeyLeft, keys[i]), RowsAt(byKeyRight, keys[i]);
      f := Add(f, keys[i], Show(keys[i], a, b, keys[i] in changed, names));
    }
    assert keys[..|keys|] == keys;
  }

  /** Asking which keys changed only when it matters answers the same. */
  lemma ChangedMatters(left: seq<Row>, right: seq<Row>, asked: set<string>, changed: set<string>, names: seq<string>)
    requires Enough(left, right, asked, changed)
    ensures Collect(Classify(left, right, asked, names), Sorted(KeysOf(left) + KeysOf(right)))
            == Whole(left, right, changed, names)
  {
    var keys := Sorted(KeysOf(left) + KeysOf(right));
    forall k | k in keys
      ensures Classify(left, right, asked, names)(k) == Classify(left, right, changed, names)(k)
    {
      KeyHasCopies(left, k);
    }
    CollectAgree(Classify(left, right, asked, names), Classify(left, right, changed, names), keys);
  }

  lemma NothingUnderNothing(s: seq<Hashed>, t: seq<Hashed>, d: nat)
    requires 1 < d <= MAX_DEPTH
    ensures DifferingUnder(s, t, d, {}) == {}
  {
    forall b ensures b !in DifferingUnder(s, t, d, {}) {
      DifferingIs(s, t, d, {}, b);
      AskedIs(s, d, {}, b);
      AskedIs(t, d, {}, b);
    }
  }

  lemma {:induction false} NothingBelow(s: seq<Hashed>, t: seq<Hashed>, d: nat, leaf: nat)
    requires 1 <= d <= leaf <= MAX_DEPTH
    ensures Differing(s, t, d) == {} ==> Differing(s, t, leaf) == {}
    decreases leaf
  {
    if d < leaf {
      NothingBelow(s, t, d, leaf - 1);
      NothingUnderNothing(s, t, leaf);
    }
  }

  lemma EqualTablesShowNothing(h: Hashing, s: seq<Row>, t: seq<Row>, changed: set<string>, names: seq<string>, leaf: nat)
    requires 1 <= leaf <= MAX_DEPTH && Leaves(h, s, t, leaf) == {}
    ensures Found(h, s, t, changed, names, leaf) == NoFindings()
  {
    FetchNone(h, s, leaf);
    FetchNone(h, t, leaf);
    assert KeysOf([]) + KeysOf([]) == {};
  }

  /** The descent: both sides asked level by level about the segments that differ, down to the leaves. */
  method Descend(source: PostgresConnector, target: ClickHouseConnector, watermark: Option<int>, leafWidth: nat)
    returns (leaf: nat, leaves: set<Segment>, sourceRows: nat, targetRows: nat, levels: seq<Level>, summaryRows: nat)
    requires source.hashing == target.hashing
    requires leafWidth > 0 && source.Current(watermark)
    modifies source`prepared
    ensures source.Current(watermark)
    ensures sourceRows == |AsOf(source.table, watermark)| && targetRows == |target.table|
    ensures leaf == LeafDepth(Max(sourceRows, targetRows), leafWidth)
    ensures leaves == Leaves(source.hashing, AsOf(source.table, watermark), target.table, leaf)
    ensures levels == LevelsTo(HashAll(source.hashing, AsOf(source.table, watermark)), HashAll(source.hashing, target.table),
                               if leaves == {} then 1 else leaf)
    ensures |levels| == if leaves == {} then 1 else leaf
    ensures summaryRows <= SummaryBound(|leaves|, leaf)
  {
    ghost var s := HashAll(source.hashing, AsOf(source.table, watermark));
    ghost var t := HashAll(target.hashing, target.table);
    var seen;
    ghost var depth;
    leaf, seen, sourceRows, targetRows, depth := DescendAll(source, target, watermark, leafWidth, s, t);
    StopsAtTheTop(s, t, depth, seen, leaf);
    leaves, levels, summaryRows := seen.parents, seen.levels, seen.summaryRows;
  }

  /** The loop itself: from depth 1 down, until nothing differs or the leaves are reached. */
  method DescendAll(source: PostgresConnector, target: ClickHouseConnector, watermark: Option<int>, leafWidth: nat,
                    ghost s: seq<Hashed>, ghost t: seq<Hashed>)
    returns (leaf: nat, seen: Progress, sourceRows: nat, targetRows: nat, ghost depth: nat)
    requires leafWidth > 0 && source.Current(watermark)
    requires s == HashAll(source.hashing, AsOf(source.table, watermark)) && t == HashAll(target.hashing, target.table)
    modifies source`prepared
    ensures source.Current(watermark) && sourceRows == |s| && targetRows == |t|
    ensures leaf == LeafDepth(Max(sourceRows, targetRows), leafWidth)
    ensures Ended(s, t, depth, leaf, seen)
  {
    var d := 1;
    leaf, seen, sourceRows, targetRows := 1, Progress({}, [], 0), 0, 0;
    while true
      invariant source.Current(watermark) && s == HashAll(source.hashing, AsOf(source.table, watermark))
      invariant d <= leaf <= MAX_DEPTH && GoingOn(s, t, d, seen)
      invariant d > 1 ==> Sized(|s|, |t|, leafWidth, sourceRows, targetRows, leaf)
      decreases MAX_DEPTH - d
    {
      ghost var above := seen;
      var left, right;
      seen, left, right := OneLevel(source, target, watermark, d, seen, s, t);
      if d == 1 {
        sourceRows, targetRows := left, right;
        leaf := LeafDepth(Max(sourceRows, targetRows), leafWidth);
        assert Sized(|s|, |t|, leafWidth, sourceRows, targetRows, leaf);
      }
      GoesOn(s, t, d, leaf, above, seen);
      if seen.parents == {} || d >= leaf {
        break;
      }
      d := d + 1;
    }
    depth := d;
  }

  /** From the top level on, both sides' rows and the depth of the leaves are known. */
  ghost predicate Sized(s: nat, t: nat, leafWidth: nat, sourceRows: nat, targetRows: nat, leaf: nat) {
    sourceRows == s && targetRows == t && leaf == LeafDepth(Max(s, t), leafWidth)
  }

  /** Before level `d` is seen, every level above it differs somewhere. */
  ghost predicate GoingOn(s: seq<Hashed>, t: seq<Hashed>, d: nat, seen: Progress) {
    1 <= d <= MAX_DEPTH && Seen(s, t, d - 1, seen) && (d > 1 ==> seen.parents != {})
  }

  /** The descent ended at a level: at the leaves, or where nothing differs. */
  ghost predicate Ended(s: seq<Hashed>, t: seq<Hashed>, d: nat, leaf: nat, seen: Progress) {
    && 1 <= d <= leaf <= MAX_DEPTH && Seen(s, t, d, seen) && (seen.parents == {} || d == leaf)
    && (d > 1 ==> Differing(s, t, d - 1) != {})
  }

  lemma GoesOn(s: seq<Hashed>, t: seq<Hashed>, d: nat, leaf: nat, above: Progress, seen: Progress)
    requires GoingOn(s, t, d, above) && Seen(s, t, d, seen) && d <= leaf <= MAX_DEPTH
    ensures if seen.parents == {} || d >= leaf then Ended(s, t, d, leaf, seen) else GoingOn(s, t, d + 1, seen)
  {
  }

  /** One level of the descent: both sides asked about the segments that differ, and the rows of both when it is the top. */
  method OneLevel(source: PostgresConnector, target: ClickHouseConnector, watermark: Option<int>, depth: nat, seen: Progress,
                  ghost s: seq<Hashed>, ghost t: seq<Hashed>)
    returns (next: Progress, sourceRows: nat, targetRows: nat)
    requires source.Current(watermark) && 1 <= depth <= MAX_DEPTH
    requires s == HashAll(source.hashing, AsOf(source.table, watermark)) && t == HashAll(target.hashing, target.table)
    requires GoingOn(s, t, depth, seen)
    modifies source`prepared
    ensures source.Current(watermark) && Seen(s, t, depth, next)
    ensures depth == 1 ==> sourceRows == |s| && targetRows == |t|
  {
    var left := source.Summarize(watermark, depth, seen.parents);
    var right := target.Summarize(depth, seen.parents);
    SeenOneMore(s, t, depth, seen, left, right);
    next := Next(seen, depth, left, right);
    sourceRows, targetRows := 0, 0;
    if depth == 1 {
      sourceRows := TotalRows(s, left);
      targetRows := TotalRows(t, right);
    }
  }

  /** Where the descent is: the segments to split next, and what the levels so far saw and cost. */
  datatype Progress = Progress(parents: set<Segment>, levels: seq<Level>, summaryRows: nat)

  /** What it knows once `done` levels are seen. */
  ghost predicate Seen(s: seq<Hashed>, t: seq<Hashed>, done: nat, p: Progress) {
    && done <= MAX_DEPTH
    && p.parents == (if done == 0 then {} else Differing(s, t, done))
    && p.summaryRows == (if done == 0 then 0 else SummaryRowsTo(s, t, done))
    && p.levels == LevelsTo(s, t, done)
  }

  /** The answers of a level are what the level is defined by. */
  lemma LevelSeen(s: seq<Hashed>, t: seq<Hashed>, depth: nat, parents: set<Segment>, left: map<Segment, Summary>,
                  right: map<Segment, Summary>)
    requires 1 <= depth <= MAX_DEPTH && parents == (if depth == 1 then {} else Differing(s, t, depth - 1))
    requires left == Summaries(s, depth, parents) && right == Summaries(t, depth, parents)
    ensures Unequal(left, right) == Differing(s, t, depth) && |left| + |right| == LevelRows(s, t, depth)
    ensures Level(depth, |left.Keys + right.Keys|, |Unequal(left, right)|) == LevelOf(s, t, depth)
  {
    UnequalAreDiffering(s, t, depth, parents);
    SizesAgree(s, t, depth, parents);
  }

  lemma OneLevelMore(s: seq<Hashed>, t: seq<Hashed>, depth: nat)
    requires 1 <= depth <= MAX_DEPTH
    ensures LevelsTo(s, t, depth) == LevelsTo(s, t, depth - 1) + [LevelOf(s, t, depth)]
    ensures SummaryRowsTo(s, t, depth) == (if depth == 1 then 0 else SummaryRowsTo(s, t, depth - 1)) + LevelRows(s, t, depth)
  {
  }

  function Next(p: Progress, depth: nat, left: map<Segment, Summary>, right: map<Segment, Summary>): Progress {
    Progress(Unequal(left, right), p.levels + [Level(depth, |left.Keys + right.Keys|, |Unequal(left, right)|)],
             p.summaryRows + |left| + |right|)
  }

  lemma SeenOneMore(s: seq<Hashed>, t: seq<Hashed>, depth: nat, p: Progress, left: map<Segment, Summary>,
                    right: map<Segment, Summary>)
    requires 1 <= depth <= MAX_DEPTH && Seen(s, t, depth - 1, p)
    requires left == Summaries(s, depth, p.parents) && right == Summaries(t, depth, p.parents)
    ensures Seen(s, t, depth, Next(p, depth, left, right))
  {
    LevelSeen(s, t, depth, p.parents, left, right);
    OneLevelMore(s, t, depth);
  }

  /** Below a level where something differs something differs. */
  lemma DiffersBelow(s: seq<Hashed>, t: seq<Hashed>, depth: nat)
    requires 1 <= depth < MAX_DEPTH && Differing(s, t, depth) != {}
    ensures Differing(s, t, depth + 1) != {}
  {
    var b :| b in Differing(s, t, depth);
    var c := DifferingChild(s, t, depth, b);
  }

  lemma StopsAtDepth(s: seq<Hashed>, t: seq<Hashed>, depth: nat, leaf: nat)
    requires 1 <= depth <= leaf <= MAX_DEPTH
    requires Differing(s, t, depth) == {} || depth == leaf
    requires depth > 1 ==> Differing(s, t, depth - 1) != {}
    ensures Differing(s, t, depth) == Differing(s, t, leaf) && depth == if Differing(s, t, depth) == {} then 1 else leaf
  {
    NothingBelow(s, t, depth, leaf);
    if depth > 1 { DiffersBelow(s, t, depth - 1); }
  }

  lemma CostsWithin(s: seq<Hashed>, t: seq<Hashed>, depth: nat, leaf: nat)
    requires 1 <= depth <= leaf <= MAX_DEPTH
    ensures SummaryRowsTo(s, t, depth) <= SummaryBound(|Differing(s, t, depth)|, leaf)
  {
    SummariesAreCheap(s, t, depth);
    BoundGrows(|Differing(s, t, depth)|, depth, leaf);
  }

  /** The descent ends at the leaves, or at the top because nothing differs there or anywhere. */
  lemma StopsAtTheTop(s: seq<Hashed>, t: seq<Hashed>, depth: nat, p: Progress, leaf: nat)
    requires Ended(s, t, depth, leaf, p)
    ensures p.parents == Differing(s, t, leaf) && p.levels == LevelsTo(s, t, if p.parents == {} then 1 else leaf)
    ensures p.summaryRows <= SummaryBound(|p.parents|, leaf)
  {
    StopsAtDepth(s, t, depth, leaf);
    CostsWithin(s, t, depth, leaf);
  }

  lemma SizesAgree(s: seq<Hashed>, t: seq<Hashed>, d: nat, parents: set<Segment>)
    requires 1 <= d <= MAX_DEPTH
    ensures |Summaries(s, d, parents)| == |Asked(s, d, parents)|
    ensures |Summaries(t, d, parents)| == |Asked(t, d, parents)|
    ensures Summaries(s, d, parents).Keys + Summaries(t, d, parents).Keys == Compared(s, t, d, parents)
  {
    assert Summaries(s, d, parents).Keys == Asked(s, d, parents);
    assert Summaries(t, d, parents).Keys == Asked(t, d, parents);
    assert |Summaries(s, d, parents)| == |Summaries(s, d, parents).Keys|;
    assert |Summaries(t, d, parents)| == |Summaries(t, d, parents).Keys|;
  }

  /** The keys of the leaves that changed after the watermark, asked for when the copy has a key the legacy side has not. */
  function AskedFor(h: Hashing, table: seq<LegacyRow>, copy: seq<Row>, watermark: Option<int>, leaf: nat, leaves: set<Segment>)
    : set<string>
    requires leaf <= MAX_DEPTH
  {
    if KeysOf(Fetch(h, copy, leaf, leaves)) - KeysOf(Fetch(h, AsOf(table, watermark), leaf, leaves)) == {} then {}
    else set key | key in ChangedKeys(table, watermark) && SegmentAt(h.bucket(key), leaf) in leaves
  }

  /** What is asked tells, of every key only the copy has, whether it changed. */
  ghost predicate Enough(left: seq<Row>, right: seq<Row>, asked: set<string>, changed: set<string>) {
    forall k :: k in KeysOf(right) && k !in KeysOf(left) ==> (k in asked <==> k in changed)
  }

  lemma AskedIsEnough(h: Hashing, table: seq<LegacyRow>, copy: seq<Row>, watermark: Option<int>, leaf: nat, leaves: set<Segment>)
    requires leaf <= MAX_DEPTH
    ensures Enough(Fetch(h, AsOf(table, watermark), leaf, leaves), Fetch(h, copy, leaf, leaves),
                   (set key | key in ChangedKeys(table, watermark) && SegmentAt(h.bucket(key), leaf) in leaves),
                   ChangedKeys(table, watermark))
  {
    KeysFetched(h, copy, leaf, leaves);
  }

  lemma NoneAsked(h: Hashing, table: seq<LegacyRow>, copy: seq<Row>, watermark: Option<int>, leaf: nat, leaves: set<Segment>)
    requires leaf <= MAX_DEPTH && ChangedRows(table, watermark) == []
    ensures AskedFor(h, table, copy, watermark, leaf, leaves) == {}
  {
    NoneChanged(table, watermark);
  }

  lemma NothingIsEnough(left: seq<Row>, right: seq<Row>, table: seq<LegacyRow>, watermark: Option<int>)
    requires ChangedRows(table, watermark) == [] || KeysOf(right) - KeysOf(left) == {}
    ensures Enough(left, right, {}, ChangedKeys(table, watermark))
  {
    NoneChanged(table, watermark);
    forall k | k in KeysOf(right) && k !in KeysOf(left) ensures k !in ChangedKeys(table, watermark) {
      assert k in KeysOf(right) - KeysOf(left);
    }
  }

  /** The rows of the leaves fetched and compared; which of their keys changed is asked only when the copy has one the
      legacy side has not. */
  method CompareLeaves(spec: TableSpec, source: PostgresConnector, target: ClickHouseConnector, leaf: nat, leaves: set<Segment>,
                       after: nat)
    returns (findings: Findings, fetchedRows: nat, queries: nat)
    requires source.hashing == target.hashing && 1 <= leaf <= MAX_DEPTH
    requires leaves == Leaves(source.hashing, AsOf(source.table, spec.watermark), target.table, leaf)
    requires after == |ChangedRows(source.table, spec.watermark)|
    ensures findings == Found(source.hashing, AsOf(source.table, spec.watermark), target.table,
                              ChangedKeys(source.table, spec.watermark), spec.names, leaf)
    ensures fetchedRows == |Fetch(source.hashing, AsOf(source.table, spec.watermark), leaf, leaves)|
                           + |Fetch(source.hashing, target.table, leaf, leaves)|
                           + |AskedFor(source.hashing, source.table, target.table, spec.watermark, leaf, leaves)|
    ensures 2 <= queries <= 3 && (after == 0 ==> queries == 2)
  {
    var h := source.hashing;
    var left := Fetch(h, AsOf(source.table, spec.watermark), leaf, leaves);
    var right := Fetch(h, target.table, leaf, leaves);
    var asked: set<string> := {};
    queries := 2;
    if after > 0 && KeysOf(right) - KeysOf(left) != {} {
      asked := source.KeysAfter(spec.watermark, leaf, leaves);
      queries := 3;
      AskedIsEnough(h, source.table, target.table, spec.watermark, leaf, leaves);
    } else {
      NothingIsEnough(left, right, source.table, spec.watermark);
      if KeysOf(right) - KeysOf(left) != {} { NoneAsked(h, source.table, target.table, spec.watermark, leaf, leaves); }
    }
    ChangedMatters(left, right, asked, ChangedKeys(source.table, spec.watermark), spec.names);
    findings := CompareRows(left, right, asked, spec.names, Sorted(KeysOf(left) + KeysOf(right)));
    fetchedRows := |left| + |right| + |asked|;
  }

  /** What crosses from the engines: the summary rows within the bound, the rows of the leaves and the keys asked for, by two
      queries a level, two for the rows and one for the keys. */
  ghost predicate Counted(r: TableDiff, h: Hashing, table: seq<LegacyRow>, copy: seq<Row>, watermark: Option<int>, leafWidth: nat)
    requires leafWidth > 0
  {
    var s := AsOf(table, watermark);
    var leaf := LeafDepth(Max(|s|, |copy|), leafWidth);
    var leaves := Leaves(h, s, copy, leaf);
    && r.levels == LevelsTo(HashAll(h, s), HashAll(h, copy), if leaves == {} then 1 else leaf)
    && r.summaryRows <= SummaryBound(|leaves|, leaf)
    && r.fetchedRows == (if leaves == {} then 0
                         else |Fetch(h, s, leaf, leaves)| + |Fetch(h, copy, leaf, leaves)|
                              + |AskedFor(h, table, copy, watermark, leaf, leaves)|)
    && (if leaves == {} then r.queries == 2 else 2 * leaf + 2 <= r.queries <= 2 * leaf + 3)
  }

  /** The diff of one table: what comparing the rows of the differing leaves finds. */
  method DiffTable(spec: TableSpec, source: PostgresConnector, target: ClickHouseConnector, leafWidth: nat)
    returns (r: TableDiff)
    requires source.hashing == target.hashing
    requires leafWidth > 0 && source.Current(spec.watermark)
    requires Wide(AsOf(source.table, spec.watermark), spec.names) && Wide(target.table, spec.names)
    modifies source`prepared
    ensures r.sourceRows == |AsOf(source.table, spec.watermark)| && r.targetRows == |target.table|
    ensures r.afterWatermark == |ChangedRows(source.table, spec.watermark)|
    ensures r.findings == Found(source.hashing, AsOf(source.table, spec.watermark), target.table,
                                ChangedKeys(source.table, spec.watermark), spec.names,
                                LeafDepth(Max(r.sourceRows, r.targetRows), leafWidth))
    ensures r.targetRows - r.sourceRows == Accounted(r.findings)
    ensures Counted(r, source.hashing, source.table, target.table, spec.watermark, leafWidth)
  {
    var after := source.CountAfter(spec.watermark);
    var leaf, leaves, sourceRows, targetRows, levels, summaryRows := Descend(source, target, spec.watermark, leafWidth);
    ghost var s, changed := AsOf(source.table, spec.watermark), ChangedKeys(source.table, spec.watermark);
    RowCountsAddUp(source.hashing, s, target.table, changed, spec.names, leaf);
    var findings, fetchedRows, queries := NoFindings(), 0, 0;
    if leaves == {} {
      EqualTablesShowNothing(source.hashing, s, target.table, changed, spec.names, leaf);
    } else {
      findings, fetchedRows, queries := CompareLeaves(spec, source, target, leaf, leaves, after);
    }
    r := TableDiff(sourceRows, targetRows, findings, after, levels, summaryRows, fetchedRows, 2 * |levels| + queries);
  }

  /** The next night: once forgotten, what was hashed before is hashed as it is written now. */
  method NextNight(spec: TableSpec, source: PostgresConnector, target: ClickHouseConnector, rows: seq<LegacyRow>, leafWidth: nat)
    returns (r: TableDiff)
    requires source.hashing == target.hashing && leafWidth > 0
    requires Wide(AsOf(rows, spec.watermark), spec.names) && Wide(target.table, spec.names)
    modifies source`table, source`prepared
    ensures source.table == rows
    ensures r.findings == Found(source.hashing, AsOf(rows, spec.watermark), target.table, ChangedKeys(rows, spec.watermark),
                                spec.names, LeafDepth(Max(|AsOf(rows, spec.watermark)|, |target.table|), leafWidth))
  {
    source.Write(rows);
    source.Forget();
    r := DiffTable(spec, source, target, leafWidth);
  }
}
