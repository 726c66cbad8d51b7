/** What comparing two whole tables reports, told by their rows one by one. */
module Comparing {
  import opened Ids
  import opened Segments
  import opened DiffFindings
  import opened SegmentedDiff
  import opened Reconcile

  /** A legacy row that is compared: one that did not change after the watermark, as far as it says when it changed. */
  ghost predicate Stays(table: seq<LegacyRow>, watermark: Option<int>, i: nat) {
    i < |table| && (watermark == None || table[i].changedAt == None || table[i].changedAt.value <= watermark.value)
  }

  /** Where a key's rows are that the legacy side compares, and the copy holds. */
  function LegacyAt(table: seq<LegacyRow>, watermark: Option<int>, key: string): set<nat> {
    set i | 0 <= i < |table| && (watermark == None || table[i].changedAt == None || table[i].changedAt.value <= watermark.value)
            && table[i].row.key == key
  }

  function CopyAt(rows: seq<Row>, key: string): set<nat> {
    set i | 0 <= i < |rows| && rows[i].key == key
  }

  lemma {:induction false} CopiesCounted(rows: seq<Row>, key: string)
    ensures |Copies(rows, key)| == |CopyAt(rows, key)|
    ensures forall r :: r in Copies(rows, key) <==> exists i :: i in CopyAt(rows, key) && rows[i] == r
  {
    if rows != [] {
      var n := |rows| - 1;
      CopiesCounted(rows[..n], key);
      OnePlaceMore(CopyAt(rows[..n], key), n, CopyAt(rows, key), rows[n].key == key);
      forall i | i in CopyAt(rows[..n], key) ensures i in CopyAt(rows, key) && rows[i] == rows[..n][i] {
      }
    }
  }

  lemma LegacyStep(rest: seq<LegacyRow>, last: LegacyRow, watermark: Option<int>, key: string)
    ensures var stays := watermark == None || last.changedAt == None || last.changedAt.value <= watermark.value;
      && AsOf(rest + [last], watermark) == (if stays then AsOf(rest, watermark) + [last.row] else AsOf(rest, watermark))
      && LegacyAt(rest + [last], watermark, key)
         == if stays && last.row.key == key then LegacyAt(rest, watermark, key) + {|rest|} else LegacyAt(rest, watermark, key)
  {
    assert (rest + [last])[..|rest|] == rest;
    forall i | 0 <= i < |rest| ensures (rest + [last])[i] == rest[i] {
    }
  }

  lemma {:induction false} LegacyCounted(table: seq<LegacyRow>, watermark: Option<int>, key: string)
    ensures |Copies(AsOf(table, watermark), key)| == |LegacyAt(table, watermark, key)|
  {
    if table != [] {
      var n := |table| - 1;
      var rest, last := table[..n], table[n];
      assert table == rest + [last];
      LegacyCounted(rest, watermark, key);
      LegacyStep(rest, last, watermark, key);
      CopiesStep(AsOf(rest, watermark), last.row, key);
      var stays := watermark == None || last.changedAt == None || last.changedAt.value <= watermark.value;
      OnePlaceMore(LegacyAt(rest, watermark, key), n, LegacyAt(table, watermark, key), stays && last.row.key == key);
    }
  }

  lemma {:induction false} LegacyListed(table: seq<LegacyRow>, watermark: Option<int>, key: string, r: Row)
    ensures r in Copies(AsOf(table, watermark), key) <==> exists i :: i in LegacyAt(table, watermark, key) && table[i].row == r
  {
    if table != [] {
      var n := |table| - 1;
      var rest, last := table[..n], table[n];
      assert table == rest + [last];
      LegacyListed(rest, watermark, key, r);
      LegacyStep(rest, last, watermark, key);
      CopiesStep(AsOf(rest, watermark), last.row, key);
      if i :| i in LegacyAt(rest, watermark, key) && rest[i].row == r {
        assert i in LegacyAt(table, watermark, key) && table[i].row == r;
      }
      if i :| i in LegacyAt(table, watermark, key) && table[i].row == r {
        if i < n { assert i in LegacyAt(rest, watermark, key) && rest[i].row == r; }
      }
    }
  }

  lemma CopiesStep(rows: seq<Row>, r: Row, key: string)
    ensures Copies(rows + [r], key) == if r.key == key then Copies(rows, key) + [r] else Copies(rows, key)
  {
    assert (rows + [r])[..|rows|] == rows;
  }

  /** A row of the key changed after the watermark. */
  ghost predicate Changed(table: seq<LegacyRow>, watermark: Option<int>, key: string) {
    exists i :: 0 <= i < |table| && table[i].row.key == key && !Stays(table, watermark, i)
  }

  lemma {:induction false} ChangedKeysAre(table: seq<LegacyRow>, watermark: Option<int>, key: string)
    ensures key in ChangedKeys(table, watermark) <==> Changed(table, watermark, key)
  {
    if table != [] {
      var n := |table| - 1;
      ChangedKeysAre(table[..n], watermark, key);
      if i :| 0 <= i < n && table[..n][i].row.key == key && !Stays(table[..n], watermark, i) {
        assert table[i].row.key == key && !Stays(table, watermark, i);
      }
      if i :| 0 <= i < |table| && table[i].row.key == key && !Stays(table, watermark, i) {
        if i < n { assert table[..n][i].row.key == key && !Stays(table[..n], watermark, i); }
      }
    }
  }

  // -- Each list ---------------------------------------------------------------------------

  ghost predicate Sides(table: seq<LegacyRow>, watermark: Option<int>, copy: seq<Row>, key: string, legacy: nat, copied: nat) {
    |LegacyAt(table, watermark, key)| == legacy && |CopyAt(copy, key)| == copied
  }

  /** One row of a key on either side, which differ in a column. */
  ghost predicate Differs(table: seq<LegacyRow>, watermark: Option<int>, copy: seq<Row>, names: seq<string>, c: CellDiff) {
    && Sides(table, watermark, copy, c.key, 1, 1)
    && exists i, j, n :: i in LegacyAt(table, watermark, c.key) && j in CopyAt(copy, c.key) && 0 <= n < |names|
         && n < |table[i].row.values| && n < |copy[j].values| && c.column == names[n]
         && c.source == table[i].row.values[n] && c.target == copy[j].values[n] && c.source != c.target
  }

  lemma OnlyOne(s: set<nat>, i: nat, j: nat)
    requires |s| == 1 && i in s && j in s
    ensures i == j
  {
    assert |s - {i}| == 0;
    assert j !in s - {i};
  }

  lemma DiffersShows(table: seq<LegacyRow>, watermark: Option<int>, copy: seq<Row>, names: seq<string>, i: nat, j: nat, c: CellDiff)
    requires i in LegacyAt(table, watermark, c.key) && j in CopyAt(copy, c.key) && Differs(table, watermark, copy, names, c)
    requires |table[i].row.values| == |names| == |copy[j].values|
    ensures c in CellsOf(c.key, names, table[i].row.values, copy[j].values)
  {
    var a, b, n :| a in LegacyAt(table, watermark, c.key) && b in CopyAt(copy, c.key) && 0 <= n < |names|
      && n < |table[a].row.values| && n < |copy[b].values| && c.column == names[n]
      && c.source == table[a].row.values[n] && c.target == copy[b].values[n] && c.source != c.target;
    OnlyOne(LegacyAt(table, watermark, c.key), i, a);
    OnlyOne(CopyAt(copy, c.key), j, b);
    CellsShow(c.key, names, table[i].row.values, copy[j].values);
  }

  lemma ShowsDiffers(table: seq<LegacyRow>, watermark: Option<int>, copy: seq<Row>, names: seq<string>, i: nat, j: nat, key: string,
                     c: CellDiff)
    requires Sides(table, watermark, copy, key, 1, 1) && i in LegacyAt(table, watermark, key) && j in CopyAt(copy, key)
    requires |table[i].row.values| == |names| == |copy[j].values|
    requires c in CellsOf(key, names, table[i].row.values, copy[j].values)
    ensures c.key == key && Differs(table, watermark, copy, names, c)
  {
    CellsShow(key, names, table[i].row.values, copy[j].values);
  }

  lemma CellsDiffer(table: seq<LegacyRow>, watermark: Option<int>, copy: seq<Row>, names: seq<string>, key: string, x: Row, y: Row,
                    c: CellDiff)
    requires Sides(table, watermark, copy, key, 1, 1) && |x.values| == |names| == |y.values|
    requires exists i :: i in LegacyAt(table, watermark, key) && table[i].row == x
    requires exists j :: j in CopyAt(copy, key) && copy[j] == y
    ensures c in CellsOf(key, names, x.values, y.values) <==> c.key == key && Differs(table, watermark, copy, names, c)
  {
    var i :| i in LegacyAt(table, watermark, key) && table[i].row == x;
    var j :| j in CopyAt(copy, key) && copy[j] == y;
    if c.key == key && Differs(table, watermark, copy, names, c) { DiffersShows(table, watermark, copy, names, i, j, c); }
    if c in CellsOf(key, names, x.values, y.values) { ShowsDiffers(table, watermark, copy, names, i, j, key, c); }
  }

  /** What a key shows, by how many rows of it each side has. */
  lemma ShownIs(table: seq<LegacyRow>, watermark: Option<int>, copy: seq<Row>, names: seq<string>, key: string)
    ensures var shown := Classify(AsOf(table, watermark), copy, ChangedKeys(table, watermark), names)(key);
      var a, b := |LegacyAt(table, watermark, key)|, |CopyAt(copy, key)|;
      && (shown == Missing <==> a == 1 && b == 0)
      && (shown == Extra <==> a == 0 && b == 1 && !Changed(table, watermark, key))
      && (shown == InFlight <==> a == 0 && b == 1 && Changed(table, watermark, key))
      && (shown.Duplicate? <==> a > 1 || b > 1)
      && (shown.Duplicate? ==> shown == Duplicate(a, b))
  {
    LegacyCounted(table, watermark, key);
    CopiesCounted(copy, key);
    ChangedKeysAre(table, watermark, key);
  }

  lemma ShowsCells(key: string, s: seq<Row>, t: seq<Row>, changed: bool, names: seq<string>, c: CellDiff)
    requires |s| == 1 && |t| == 1 ==> |s[0].values| == |names| == |t[0].values|
    ensures var shown := Show(key, s, t, changed, names);
      shown.Cells? && c in shown.cells <==> |s| == 1 && |t| == 1 && c in CellsOf(key, names, s[0].values, t[0].values)
  {
    if |s| == 1 && |t| == 1 && s[0].values == t[0].values { CellsShow(key, names, s[0].values, t[0].values); }
  }

  /** A cell is shown exactly when it is one of the key in which its only rows differ. */
  lemma CellShown(table: seq<LegacyRow>, watermark: Option<int>, copy: seq<Row>, names: seq<string>, key: string, c: CellDiff)
    requires Wide(AsOf(table, watermark), names) && Wide(copy, names)
    ensures var shown := Classify(AsOf(table, watermark), copy, ChangedKeys(table, watermark), names)(key);
      shown.Cells? && c in shown.cells <==> c.key == key && Differs(table, watermark, copy, names, c)
  {
    var s, t := Copies(AsOf(table, watermark), key), Copies(copy, key);
    LegacyCounted(table, watermark, key);
    CopiesCounted(copy, key);
    if |s| == 1 && |t| == 1 {
      OnlyCopies(AsOf(table, watermark), key, names);
      OnlyCopies(copy, key, names);
      LegacyListed(table, watermark, key, s[0]);
      CellsDiffer(table, watermark, copy, names, key, s[0], t[0], c);
    }
    ShowsCells(key, s, t, key in ChangedKeys(table, watermark), names, c);
  }

  lemma {:induction false} InCopies(rows: seq<Row>, key: string, r: Row)
    ensures r in Copies(rows, key) ==> r in rows
  {
    if rows != [] { InCopies(rows[..|rows| - 1], key, r); }
  }

  lemma OnlyCopies(rows: seq<Row>, key: string, names: seq<string>)
    requires Wide(rows, names) && |Copies(rows, key)| == 1
    ensures |Copies(rows, key)[0].values| == |names| && Copies(rows, key)[0] in Copies(rows, key)
  {
    InCopies(rows, key, Copies(rows, key)[0]);
  }

  /** The keys compared are those either side has a row of. */
  lemma ComparedKeys(table: seq<LegacyRow>, watermark: Option<int>, copy: seq<Row>, k: string)
    ensures k in Sorted(KeysOf(AsOf(table, watermark)) + KeysOf(copy)) <==> LegacyAt(table, watermark, k) != {} || CopyAt(copy, k) != {}
  {
    KeyHasCopies(AsOf(table, watermark), k);
    KeyHasCopies(copy, k);
    LegacyCounted(table, watermark, k);
    CopiesCounted(copy, k);
  }

  lemma KeyLists(table: seq<LegacyRow>, watermark: Option<int>, copy: seq<Row>, names: seq<string>, k: string)
    requires Wide(AsOf(table, watermark), names) && Wide(copy, names)
    ensures var f := Whole(AsOf(table, watermark), copy, ChangedKeys(table, watermark), names);
      && (k in f.missing <==> Sides(table, watermark, copy, k, 1, 0))
      && (k in f.extra <==> Sides(table, watermark, copy, k, 0, 1) && !Changed(table, watermark, k))
      && (k in f.inFlight <==> Sides(table, watermark, copy, k, 0, 1) && Changed(table, watermark, k))
  {
    CollectMeans(Classify(AsOf(table, watermark), copy, ChangedKeys(table, watermark), names),
                 Sorted(KeysOf(AsOf(table, watermark)) + KeysOf(copy)));
    ComparedKeys(table, watermark, copy, k);
    ShownIs(table, watermark, copy, names, k);
  }

  lemma DuplicateLists(table: seq<LegacyRow>, watermark: Option<int>, copy: seq<Row>, names: seq<string>, d: DuplicateKey)
    requires Wide(AsOf(table, watermark), names) && Wide(copy, names)
    ensures d in Whole(AsOf(table, watermark), copy, ChangedKeys(table, watermark), names).duplicates
       <==> Sides(table, watermark, copy, d.key, d.source, d.target) && (d.source > 1 || d.target > 1)
  {
    CollectMeans(Classify(AsOf(table, watermark), copy, ChangedKeys(table, watermark), names),
                 Sorted(KeysOf(AsOf(table, watermark)) + KeysOf(copy)));
    ComparedKeys(table, watermark, copy, d.key);
    ShownIs(table, watermark, copy, names, d.key);
  }

  lemma CellLists(table: seq<LegacyRow>, watermark: Option<int>, copy: seq<Row>, names: seq<string>, c: CellDiff)
    requires Wide(AsOf(table, watermark), names) && Wide(copy, names)
    ensures c in Whole(AsOf(table, watermark), copy, ChangedKeys(table, watermark), names).cells
       <==> Differs(table, watermark, copy, names, c)
  {
    var show, keys := Classify(AsOf(table, watermark), copy, ChangedKeys(table, watermark), names),
                      Sorted(KeysOf(AsOf(table, watermark)) + KeysOf(copy));
    CollectMeans(show, keys);
    ComparedKeys(table, watermark, copy, c.key);
    CellShown(table, watermark, copy, names, c.key, c);
    if k :| k in keys && show(k).Cells? && c in show(k).cells { CellShown(table, watermark, copy, names, k, c); }
  }

  /** A key is missing when the legacy side has one row of it and the copy none; extra when the copy has one and the legacy
      side none, or in flight if the key's row changed since; duplicated when either has more than one; and each cell is one
      in which the only rows of a key differ. A legacy row that never recorded a change is always compared. */
  lemma WholeIs(table: seq<LegacyRow>, watermark: Option<int>, copy: seq<Row>, names: seq<string>)
    requires Wide(AsOf(table, watermark), names) && Wide(copy, names)
    ensures var f := Whole(AsOf(table, watermark), copy, ChangedKeys(table, watermark), names);
      && (forall k :: k in f.missing <==> Sides(table, watermark, copy, k, 1, 0))
      && (forall k :: k in f.extra <==> Sides(table, watermark, copy, k, 0, 1) && !Changed(table, watermark, k))
      && (forall k :: k in f.inFlight <==> Sides(table, watermark, copy, k, 0, 1) && Changed(table, watermark, k))
      && (forall d :: d in f.duplicates <==> Sides(table, watermark, copy, d.key, d.source, d.target) && (d.source > 1 || d.target > 1))
      && (forall c :: c in f.cells <==> Differs(table, watermark, copy, names, c))
  {
    forall k
      ensures var f := Whole(AsOf(table, watermark), copy, ChangedKeys(table, watermark), names);
        && (k in f.missing <==> Sides(table, watermark, copy, k, 1, 0))
        && (k in f.extra <==> Sides(table, watermark, copy, k, 0, 1) && !Changed(table, watermark, k))
        && (k in f.inFlight <==> Sides(table, watermark, copy, k, 0, 1) && Changed(table, watermark, k))
    {
      KeyLists(table, watermark, copy, names, k);
    }
    forall d ensures d in Whole(AsOf(table, watermark), copy, ChangedKeys(table, watermark), names).duplicates
                     <==> Sides(table, watermark, copy, d.key, d.source, d.target) && (d.source > 1 || d.target > 1) {
      DuplicateLists(table, watermark, copy, names, d);
    }
    forall c ensures c in Whole(AsOf(table, watermark), copy, ChangedKeys(table, watermark), names).cells
                     <==> Differs(table, watermark, copy, names, c) {
      CellLists(table, watermark, copy, names, c);
    }
  }

  /** So a legacy row that says nothing of when it changed, and is the only one of its key, is missing when the copy has none. */
  lemma UntimedRowsAreCompared(table: seq<LegacyRow>, watermark: Option<int>, copy: seq<Row>, names: seq<string>, i: nat)
    requires Wide(AsOf(table, watermark), names) && Wide(copy, names)
    requires i < |table| && table[i].changedAt == None && forall j :: j in CopyAt(copy, table[i].row.key) ==> false
    requires forall j :: 0 <= j < |table| && table[j].row.key == table[i].row.key ==> j == i
    ensures table[i].row.key in Whole(AsOf(table, watermark), copy, ChangedKeys(table, watermark), names).missing
  {
    WholeIs(table, watermark, copy, names);
    assert LegacyAt(table, watermark, table[i].row.key) == {i};
    assert CopyAt(copy, table[i].row.key) == {};
  }
}
