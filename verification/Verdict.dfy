/** The verdict on one table: the row counts reconciled, the match rates, and the thresholds they are held to. */
module Verdict {
  import opened Ids
  import opened Segments
  import opened Descent
  import opened DiffFindings
  import opened SegmentedDiff
  import opened Reconcile

  /** One difference as it is judged; `column` is empty for a whole row. */
  datatype Discrepancy = Discrepancy(table: string, key: string, column: string, klass: string)

  const CLASSES := ["missing_in_target", "extra_in_target", "duplicate_key", "rounding", "timezone_shift", "whitespace",
                    "case_only", "value_mismatch"]

  datatype Thresholds = Thresholds(minRowRate: real, minColumnRate: real, maxLagHours: real, limits: map<string, nat>)

  /** The configuration is refused unless every class has a limit. */
  predicate EveryClass(t: Thresholds) {
    forall k :: k in CLASSES ==> k in t.limits
  }

  datatype Failure = BeyondTheRowsFound | TooFarBehind | RowRate | ColumnRate(name: string) | OverLimit(klass: string)

  // -- The discrepancies of a diff -------------------------------------------------------

  function OfKeys(table: string, keys: seq<string>, klass: string): seq<Discrepancy> {
    if keys == [] then [] else OfKeys(table, keys[..|keys| - 1], klass) + [Discrepancy(table, keys[|keys| - 1], "", klass)]
  }

  function OfDuplicates(table: string, ds: seq<DuplicateKey>): seq<Discrepancy> {
    if ds == [] then []
    else OfDuplicates(table, ds[..|ds| - 1]) + [Discrepancy(table, ds[|ds| - 1].key, "", "duplicate_key")]
  }

  function OfCells(table: string, cells: seq<CellDiff>, classify: CellDiff -> string): seq<Discrepancy> {
    if cells == [] then []
    else
      var last := cells[|cells| - 1];
      OfCells(table, cells[..|cells| - 1], classify) + [Discrepancy(table, last.key, last.column, classify(last))]
  }

  /** `discrepancies_of`; `classify` names a cell's class. */
  function DiscrepanciesOf(table: string, f: Findings, classify: CellDiff -> string): seq<Discrepancy> {
    OfKeys(table, f.missing, "missing_in_target") + OfKeys(table, f.extra, "extra_in_target")
    + OfDuplicates(table, f.duplicates) + OfCells(table, f.cells, classify)
  }

  function Mine(found: seq<Discrepancy>, table: string): seq<Discrepancy> {
    if found == [] then []
    else
      var rest, last := Mine(found[..|found| - 1], table), found[|found| - 1];
      if last.table == table then rest + [last] else rest
  }

  /** The rows, by key, that differ in some cell. */
  function RowsWithDiffs(mine: seq<Discrepancy>): set<string> {
    if mine == [] then {}
    else
      var rest, last := RowsWithDiffs(mine[..|mine| - 1]), mine[|mine| - 1];
      if last.column != "" then rest + {last.key} else rest
  }

  function PerColumn(mine: seq<Discrepancy>, name: string): nat {
    if mine == [] then 0
    else PerColumn(mine[..|mine| - 1], name) + if mine[|mine| - 1].column == name && name != "" then 1 else 0
  }

  function ByClass(mine: seq<Discrepancy>, klass: string): nat {
    if mine == [] then 0 else ByClass(mine[..|mine| - 1], klass) + if mine[|mine| - 1].klass == klass then 1 else 0
  }

  // -- The verdict -----------------------------------------------------------------------

  /** Legacy rows with a duplicated key: none of them is compared, so none matches. */
  function DuplicatedRows(ds: seq<DuplicateKey>): nat {
    if ds == [] then 0 else DuplicatedRows(ds[..|ds| - 1]) + ds[|ds| - 1].source
  }

  function InBoth(diff: TableDiff): int {
    diff.sourceRows - |diff.findings.missing| - DuplicatedRows(diff.findings.duplicates)
  }

  function Matched(diff: TableDiff, mine: seq<Discrepancy>): int {
    InBoth(diff) - |RowsWithDiffs(mine)|
  }

  function RowMatchRate(diff: TableDiff, mine: seq<Discrepancy>): real {
    if diff.sourceRows == 0 then 1.0 else Matched(diff, mine) as real / diff.sourceRows as real
  }

  function ColumnMatchRate(diff: TableDiff, mine: seq<Discrepancy>, name: string): real {
    if InBoth(diff) == 0 then 1.0 else 1.0 - PerColumn(mine, name) as real / InBoth(diff) as real
  }

  function ColumnFailures(diff: TableDiff, mine: seq<Discrepancy>, names: seq<string>, t: Thresholds): seq<Failure> {
    if names == [] then []
    else
      var rest, name := ColumnFailures(diff, mine, names[..|names| - 1], t), names[|names| - 1];
      if ColumnMatchRate(diff, mine, name) < t.minColumnRate then rest + [ColumnRate(name)] else rest
  }

  function ClassFailures(mine: seq<Discrepancy>, classes: seq<string>, t: Thresholds): seq<Failure>
    requires forall k :: k in classes ==> k in t.limits
  {
    if classes == [] then []
    else
      var rest, klass := ClassFailures(mine, classes[..|classes| - 1], t), classes[|classes| - 1];
      if ByClass(mine, klass) > t.limits[klass] then rest + [OverLimit(klass)] else rest
  }

  function TableFailures(diff: TableDiff, mine: seq<Discrepancy>, t: Thresholds, lagHours: Option<real>): seq<Failure> {
    (if diff.targetRows - diff.sourceRows != Accounted(diff.findings) then [BeyondTheRowsFound] else [])
    + (if lagHours.Some? && lagHours.value > t.maxLagHours then [TooFarBehind] else [])
    + (if RowMatchRate(diff, mine) < t.minRowRate then [RowRate] else [])
  }

  datatype TableVerdict = TableVerdict(table: string, sourceRows: nat, targetRows: nat, rowRate: real,
                                       columnRates: map<string, real>, byClass: map<string, nat>, failures: seq<Failure>)

  ghost predicate Classed(found: seq<Discrepancy>) {
    forall d :: d in found ==> d.klass in CLASSES
  }

  /** `verdict`: the rates, the counts, and why a pair fails; `lagHours` is how far the watermark is behind, if there is one. */
  method Judge(table: string, names: seq<string>, diff: TableDiff, found: seq<Discrepancy>, t: Thresholds, lagHours: Option<real>)
    returns (verdict: TableVerdict)
    requires EveryClass(t) && Classed(found)
    ensures var mine := Mine(found, table);
      && verdict.table == table && verdict.sourceRows == diff.sourceRows && verdict.targetRows == diff.targetRows
      && verdict.rowRate == RowMatchRate(diff, mine)
      && verdict.columnRates == (map name | name in names :: ColumnMatchRate(diff, mine, name))
      && verdict.byClass == Counts(mine, CLASSES)
      && verdict.rowRate == PartThatMatches(diff, found, table)
      && (forall k :: k in CLASSES ==> verdict.byClass[k] == |OfClass(found, table, k)|)
      && (forall name :: name in names && name != "" ==>
            verdict.columnRates[name] == 1.0 - PartThatDiffers(diff, found, table, name))
      && verdict.failures
         == TableFailures(diff, mine, t, lagHours) + ColumnFailures(diff, mine, names, t) + ClassFailures(mine, CLASSES, t)
    ensures "" !in names ==>
              forall failure :: failure in verdict.failures <==> FailsBy(diff, found, table, names, t, lagHours, failure)
  {
    var mine := Mine(found, table);
    MineAreFound(found, table);
    RatesAreThose(diff, found, table);
    var byClass := Tally(mine, CLASSES);
    var rowRate := RowMatchRate(diff, mine);
    var columnRates := map name | name in names :: ColumnMatchRate(diff, mine, name);
    var rows := JudgeRows(diff, mine, t, lagHours);
    var columns := JudgeColumns(diff, mine, names, t);
    var classes := JudgeClasses(mine, t);
    verdict := TableVerdict(table, diff.sourceRows, diff.targetRows, rowRate, columnRates, byClass, rows + columns + classes);
    if "" !in names {
      forall failure ensures failure in verdict.failures <==> FailsBy(diff, found, table, names, t, lagHours, failure) {
        FailuresAreThose(diff, found, table, names, t, lagHours, failure);
      }
    }
  }

  method JudgeRows(diff: TableDiff, mine: seq<Discrepancy>, t: Thresholds, lagHours: Option<real>) returns (failures: seq<Failure>)
    ensures failures == TableFailures(diff, mine, t, lagHours)
  {
    failures := [];
    if diff.targetRows - diff.sourceRows != Accounted(diff.findings) {
      failures := failures + [BeyondTheRowsFound];
    }
    if lagHours.Some? && lagHours.value > t.maxLagHours {
      failures := failures + [TooFarBehind];
    }
    if RowMatchRate(diff, mine) < t.minRowRate {
      failures := failures + [RowRate];
    }
  }

  lemma {:induction false} MineAreFound(found: seq<Discrepancy>, table: string)
    requires Classed(found)
    ensures Classed(Mine(found, table))
  {
    if found != [] {
      assert found[|found| - 1] in found;
      MineAreFound(found[..|found| - 1], table);
    }
  }

  function Counts(mine: seq<Discrepancy>, classes: seq<string>): map<string, nat> {
    map k | k in classes :: ByClass(mine, k)
  }

  lemma CountsStep(mine: seq<Discrepancy>, classes: seq<string>, i: nat)
    requires i < |mine| && mine[i].klass in classes
    ensures var before := Counts(mine[..i], classes);
      Counts(mine[..i + 1], classes) == before[mine[i].klass := before[mine[i].klass] + 1]
  {
    assert mine[..i + 1][..i] == mine[..i];
  }

  /** How many discrepancies each class has; every class is counted, whether it has any or not. */
  method Tally(mine: seq<Discrepancy>, classes: seq<string>) returns (byClass: map<string, nat>)
    requires forall d :: d in mine ==> d.klass in classes
    ensures byClass == Counts(mine, classes)
  {
    byClass := map k | k in classes :: 0;
    for i := 0 to |mine|
      invariant byClass == Counts(mine[..i], classes)
    {
      CountsStep(mine, classes, i);
      byClass := byClass[mine[i].klass := byClass[mine[i].klass] + 1];
    }
    assert mine[..|mine|] == mine;
  }

  method JudgeColumns(diff: TableDiff, mine: seq<Discrepancy>, names: seq<string>, t: Thresholds) returns (failures: seq<Failure>)
    ensures failures == ColumnFailures(diff, mine, names, t)
  {
    failures := [];
    for i := 0 to |names|
      invariant failures == ColumnFailures(diff, mine, names[..i], t)
    {
      assert names[..i + 1][..i] == names[..i];
      if ColumnMatchRate(diff, mine, names[i]) < t.minColumnRate {
        failures := failures + [ColumnRate(names[i])];
      }
    }
    assert names[..|names|] == names;
  }

  method JudgeClasses(mine: seq<Discrepancy>, t: Thresholds) returns (failures: seq<Failure>)
    requires EveryClass(t)
    ensures failures == ClassFailures(mine, CLASSES, t)
  {
    failures := [];
    for i := 0 to |CLASSES|
      invariant failures == ClassFailures(mine, CLASSES[..i], t)
    {
      assert CLASSES[..i + 1][..i] == CLASSES[..i];
      if ByClass(mine, CLASSES[i]) > t.limits[CLASSES[i]] {
        failures := failures + [OverLimit(CLASSES[i])];
      }
    }
    assert CLASSES[..|CLASSES|] == CLASSES;
  }

  lemma {:induction false} ColumnsFailByColumn(diff: TableDiff, mine: seq<Discrepancy>, names: seq<string>, t: Thresholds)
    ensures forall f :: f in ColumnFailures(diff, mine, names, t) ==> f.ColumnRate?
  {
    if names != [] { ColumnsFailByColumn(diff, mine, names[..|names| - 1], t); }
  }

  lemma {:induction false} ClassesFailByClass(mine: seq<Discrepancy>, classes: seq<string>, t: Thresholds)
    requires forall k :: k in classes ==> k in t.limits
    ensures forall f :: f in ClassFailures(mine, classes, t) ==> f.OverLimit?
  {
    if classes != [] { ClassesFailByClass(mine, classes[..|classes| - 1], t); }
  }

  // -- Why a pair fails ----------------------------------------------------------------

  /** The places of a table's differences of a class, in one column, and in any. */
  function OfClass(found: seq<Discrepancy>, table: string, klass: string): set<nat> {
    set i | 0 <= i < |found| && found[i].table == table && found[i].klass == klass
  }

  function InColumn(found: seq<Discrepancy>, table: string, name: string): set<nat> {
    set i | 0 <= i < |found| && found[i].table == table && found[i].column == name
  }

  lemma {:induction false} ByClassIsOfClass(found: seq<Discrepancy>, table: string, klass: string)
    ensures ByClass(Mine(found, table), klass) == |OfClass(found, table, klass)|
  {
    if found != [] {
      var n := |found| - 1;
      var rest, last := found[..n], found[n];
      ByClassIsOfClass(rest, table, klass);
      ClassStep(Mine(rest, table), last, klass);
      OfClassStep(rest, last, table, klass);
      assert found == rest + [last];
      OnePlaceMore(OfClass(rest, table, klass), n, OfClass(found, table, klass), last.table == table && last.klass == klass);
    }
  }

  lemma OfClassStep(rest: seq<Discrepancy>, last: Discrepancy, table: string, klass: string)
    ensures OfClass(rest + [last], table, klass)
         == OfClass(rest, table, klass) + if last.table == table && last.klass == klass then {|rest|} else {}
  {
  }

  lemma InColumnStep(rest: seq<Discrepancy>, last: Discrepancy, table: string, name: string)
    ensures InColumn(rest + [last], table, name)
         == InColumn(rest, table, name) + if last.table == table && last.column == name then {|rest|} else {}
  {
  }

  lemma ClassStep(mine: seq<Discrepancy>, d: Discrepancy, klass: string)
    ensures ByClass(mine + [d], klass) == ByClass(mine, klass) + if d.klass == klass then 1 else 0
  {
    assert (mine + [d])[..|mine|] == mine;
  }

  lemma {:induction false} PerColumnIsInColumn(found: seq<Discrepancy>, table: string, name: string)
    requires name != ""
    ensures PerColumn(Mine(found, table), name) == |InColumn(found, table, name)|
  {
    if found != [] {
      var n := |found| - 1;
      var rest, last := found[..n], found[n];
      PerColumnIsInColumn(rest, table, name);
      ColumnStep(Mine(rest, table), last, name);
      InColumnStep(rest, last, table, name);
      assert found == rest + [last];
      OnePlaceMore(InColumn(rest, table, name), n, InColumn(found, table, name), last.table == table && last.column == name);
    }
  }

  lemma ColumnStep(mine: seq<Discrepancy>, d: Discrepancy, name: string)
    ensures PerColumn(mine + [d], name) == PerColumn(mine, name) + if d.column == name && name != "" then 1 else 0
  {
    assert (mine + [d])[..|mine|] == mine;
  }

  lemma {:induction false} ClassesOverTheirLimits(mine: seq<Discrepancy>, classes: seq<string>, t: Thresholds, klass: string)
    requires forall k :: k in classes ==> k in t.limits
    ensures OverLimit(klass) in ClassFailures(mine, classes, t) <==> klass in classes && ByClass(mine, klass) > t.limits[klass]
  {
    if classes != [] {
      var n := |classes| - 1;
      assert classes == classes[..n] + [classes[n]];
      ClassesOverTheirLimits(mine, classes[..n], t, klass);
    }
  }

  lemma {:induction false} ColumnsUnderTheirRate(diff: TableDiff, mine: seq<Discrepancy>, names: seq<string>, t: Thresholds, name: string)
    ensures ColumnRate(name) in ColumnFailures(diff, mine, names, t)
       <==> name in names && ColumnMatchRate(diff, mine, name) < t.minColumnRate
  {
    if names != [] {
      var n := |names| - 1;
      assert names == names[..n] + [names[n]];
      ColumnsUnderTheirRate(diff, mine, names[..n], t, name);
    }
  }

  /** The rows a column is compared in: all of the legacy side but the missing and the duplicated. */
  function Compared(diff: TableDiff): int {
    diff.sourceRows - |diff.findings.missing| - SourceCopies(diff.findings.duplicates)
  }

  function SourceCopies(ds: seq<DuplicateKey>): nat {
    if ds == [] then 0 else ds[0].source + SourceCopies(ds[1..])
  }

  lemma {:induction false} SourceCopiesAppend(ds: seq<DuplicateKey>, d: DuplicateKey)
    ensures SourceCopies(ds + [d]) == SourceCopies(ds) + d.source
  {
    if ds == [] {
      assert [d][1..] == [] && ds + [d] == [d];
    } else {
      assert (ds + [d])[1..] == ds[1..] + [d];
      SourceCopiesAppend(ds[1..], d);
    }
  }

  lemma {:induction false} DuplicatedAreSourceCopies(ds: seq<DuplicateKey>)
    ensures DuplicatedRows(ds) == SourceCopies(ds)
  {
    if ds != [] {
      var n := |ds| - 1;
      assert ds == ds[..n] + [ds[n]];
      DuplicatedAreSourceCopies(ds[..n]);
      SourceCopiesAppend(ds[..n], ds[n]);
    }
  }

  /** The part of the compared rows that differ in a column; nothing compared, nothing differs. */
  function PartThatDiffers(diff: TableDiff, found: seq<Discrepancy>, table: string, name: string): real {
    if Compared(diff) == 0 then 0.0 else |InColumn(found, table, name)| as real / Compared(diff) as real
  }

  /** The keys of a table's rows that differ in some column. */
  function RowsThatDiffer(found: seq<Discrepancy>, table: string): set<string> {
    set i | 0 <= i < |found| && found[i].table == table && found[i].column != "" :: found[i].key
  }

  /** The part of the legacy rows that are compared and differ nowhere; an empty table matches. */
  function PartThatMatches(diff: TableDiff, found: seq<Discrepancy>, table: string): real {
    if diff.sourceRows == 0 then 1.0 else (Compared(diff) - |RowsThatDiffer(found, table)|) as real / diff.sourceRows as real
  }

  lemma {:induction false} RowsWithDiffsDiffer(found: seq<Discrepancy>, table: string)
    ensures RowsWithDiffs(Mine(found, table)) == RowsThatDiffer(found, table)
  {
    if found != [] {
      var n := |found| - 1;
      var rest, last := found[..n], found[n];
      RowsWithDiffsDiffer(rest, table);
      var mine := Mine(rest, table);
      assert (mine + [last])[..|mine|] == mine;
      assert RowsThatDiffer(found, table)
          == RowsThatDiffer(rest, table) + if last.table == table && last.column != "" then {last.key} else {};
    }
  }

  /** The rates and the counts of a verdict, by the rows and the differences found. */
  lemma RatesAreThose(diff: TableDiff, found: seq<Discrepancy>, table: string)
    ensures var mine := Mine(found, table);
      && RowMatchRate(diff, mine) == PartThatMatches(diff, found, table)
      && (forall name :: name != "" ==> ColumnMatchRate(diff, mine, name) == 1.0 - PartThatDiffers(diff, found, table, name))
      && forall klass :: ByClass(mine, klass) == |OfClass(found, table, klass)|
  {
    RowsWithDiffsDiffer(found, table);
    DuplicatedAreSourceCopies(diff.findings.duplicates);
    forall name | name != "" ensures ColumnMatchRate(diff, Mine(found, table), name) == 1.0 - PartThatDiffers(diff, found, table, name) {
      RateIsPart(diff, found, table, name);
    }
    forall klass ensures ByClass(Mine(found, table), klass) == |OfClass(found, table, klass)| {
      ByClassIsOfClass(found, table, klass);
    }
  }

  /** What fails a pair, and nothing else does. */
  ghost predicate FailsBy(diff: TableDiff, found: seq<Discrepancy>, table: string, names: seq<string>, t: Thresholds,
                          lagHours: Option<real>, failure: Failure)
    requires EveryClass(t)
  {
    match failure
    case BeyondTheRowsFound => diff.targetRows - diff.sourceRows != Accounted(diff.findings)
    case TooFarBehind => lagHours.Some? && lagHours.value > t.maxLagHours
    case RowRate => PartThatMatches(diff, found, table) < t.minRowRate
    case ColumnRate(name) => name in names && PartThatDiffers(diff, found, table, name) > 1.0 - t.minColumnRate
    case OverLimit(klass) => klass in CLASSES && |OfClass(found, table, klass)| > t.limits[klass]
  }

  lemma RateIsPart(diff: TableDiff, found: seq<Discrepancy>, table: string, name: string)
    requires name != ""
    ensures ColumnMatchRate(diff, Mine(found, table), name) == 1.0 - PartThatDiffers(diff, found, table, name)
  {
    PerColumnIsInColumn(found, table, name);
    DuplicatedAreSourceCopies(diff.findings.duplicates);
  }

  /** The failures are exactly those, each told by the rows and the differences found. */
  lemma FailuresAreThose(diff: TableDiff, found: seq<Discrepancy>, table: string, names: seq<string>, t: Thresholds,
                         lagHours: Option<real>, failure: Failure)
    requires EveryClass(t) && "" !in names
    ensures var mine := Mine(found, table);
      failure in TableFailures(diff, mine, t, lagHours) + ColumnFailures(diff, mine, names, t) + ClassFailures(mine, CLASSES, t)
      <==> FailsBy(diff, found, table, names, t, lagHours, failure)
  {
    var mine := Mine(found, table);
    ColumnsFailByColumn(diff, mine, names, t);
    ClassesFailByClass(mine, CLASSES, t);
    match failure {
      case OverLimit(klass) =>
        ClassesOverTheirLimits(mine, CLASSES, t, klass);
        ByClassIsOfClass(found, table, klass);
      case ColumnRate(name) =>
        ColumnsUnderTheirRate(diff, mine, names, t, name);
        if name != "" { RateIsPart(diff, found, table, name); }
      case RowRate => RatesAreThose(diff, found, table);
      case _ =>
    }
  }

  // -- What the discrepancies count ------------------------------------------------------

  function CellKeys(cells: seq<CellDiff>): set<string> {
    if cells == [] then {} else CellKeys(cells[..|cells| - 1]) + {cells[|cells| - 1].key}
  }

  lemma {:induction false} CellKeysAppend(a: seq<CellDiff>, b: seq<CellDiff>)
    ensures CellKeys(a + b) == CellKeys(a) + CellKeys(b)
  {
    if b == [] {
      assert a + b == a;
    } else {
      assert (a + b)[..|a + b| - 1] == a + b[..|b| - 1];
      CellKeysAppend(a, b[..|b| - 1]);
    }
  }

  lemma {:induction false} CellKeysOfOne(cells: seq<CellDiff>, key: string)
    requires cells != [] && forall c :: c in cells ==> c.key == key
    ensures CellKeys(cells) == {key}
  {
    if |cells| > 1 { CellKeysOfOne(cells[..|cells| - 1], key); }
  }

  lemma MineStep(found: seq<Discrepancy>, d: Discrepancy, table: string)
    ensures Mine(found + [d], table) == if d.table == table then Mine(found, table) + [d] else Mine(found, table)
  {
    assert (found + [d])[..|found|] == found;
  }

  lemma RowsStep(mine: seq<Discrepancy>, d: Discrepancy)
    ensures RowsWithDiffs(mine + [d]) == if d.column != "" then RowsWithDiffs(mine) + {d.key} else RowsWithDiffs(mine)
  {
    assert (mine + [d])[..|mine|] == mine;
  }

  lemma {:induction false} WholeRowsAddNone(before: seq<Discrepancy>, more: seq<Discrepancy>, table: string)
    requires forall d :: d in more ==> d.column == ""
    ensures RowsWithDiffs(Mine(before + more, table)) == RowsWithDiffs(Mine(before, table))
  {
    if more == [] {
      assert before + more == before;
    } else {
      var rest, last := more[..|more| - 1], more[|more| - 1];
      assert before + more == (before + rest) + [last];
      WholeRowsAddNone(before, rest, table);
      MineStep(before + rest, last, table);
      RowsStep(Mine(before + rest, table), last);
    }
  }

  lemma {:induction false} CellsAddTheirs(before: seq<Discrepancy>, table: string, cells: seq<CellDiff>, classify: CellDiff -> string)
    requires forall c :: c in cells ==> c.column != ""
    ensures RowsWithDiffs(Mine(before + OfCells(table, cells, classify), table))
         == RowsWithDiffs(Mine(before, table)) + CellKeys(cells)
  {
    if cells == [] {
      assert before + OfCells(table, cells, classify) == before;
    } else {
      var rest, last := cells[..|cells| - 1], cells[|cells| - 1];
      var listed, d := OfCells(table, rest, classify), Discrepancy(table, last.key, last.column, classify(last));
      assert before + OfCells(table, cells, classify) == (before + listed) + [d];
      CellsAddTheirs(before, table, rest, classify);
      MineStep(before + listed, d, table);
      RowsStep(Mine(before + listed, table), d);
    }
  }

  lemma {:induction false} OfKeysAreWholeRows(table: string, keys: seq<string>, klass: string)
    ensures forall d :: d in OfKeys(table, keys, klass) ==> d.column == ""
  {
    if keys != [] { OfKeysAreWholeRows(table, keys[..|keys| - 1], klass); }
  }

  lemma {:induction false} OfDuplicatesAreWholeRows(table: string, ds: seq<DuplicateKey>)
    ensures forall d :: d in OfDuplicates(table, ds) ==> d.column == ""
  {
    if ds != [] { OfDuplicatesAreWholeRows(table, ds[..|ds| - 1]); }
  }

  /** The rows that differ are those of the differing cells, each once. */
  lemma RowsWithDiffsAre(table: string, f: Findings, classify: CellDiff -> string)
    requires forall c :: c in f.cells ==> c.column != ""
    ensures RowsWithDiffs(Mine(DiscrepanciesOf(table, f, classify), table)) == CellKeys(f.cells)
  {
    var missing, extra := OfKeys(table, f.missing, "missing_in_target"), OfKeys(table, f.extra, "extra_in_target");
    var rows := missing + extra + OfDuplicates(table, f.duplicates);
    OfKeysAreWholeRows(table, f.missing, "missing_in_target");
    OfKeysAreWholeRows(table, f.extra, "extra_in_target");
    OfDuplicatesAreWholeRows(table, f.duplicates);
    assert [] + rows == rows;
    WholeRowsAddNone([], rows, table);
    CellsAddTheirs(rows, table, f.cells, classify);
  }

  // -- What does not match ---------------------------------------------------------------

  /** Legacy rows that do not match, as a finding tells it. */
  function Gone(f: Finding): nat {
    match f
    case Missing => 1
    case Duplicate(a, _) => a
    case Cells(_) => 1
    case Same => 0
    case Extra => 0
    case InFlight => 0
  }

  function AllGone(f: Findings): nat {
    |f.missing| + DuplicatedRows(f.duplicates) + |CellKeys(f.cells)|
  }

  lemma GoneAdds(f: Findings, key: string, finding: Finding)
    requires key !in CellKeys(f.cells)
    requires finding.Cells? ==> finding.cells != [] && forall c :: c in finding.cells ==> c.key == key
    ensures AllGone(Add(f, key, finding)) == AllGone(f) + Gone(finding)
    ensures CellKeys(Add(f, key, finding).cells) <= CellKeys(f.cells) + {key}
  {
    match finding {
      case Duplicate(a, b) => assert (f.duplicates + [DuplicateKey(key, a, b)])[..|f.duplicates|] == f.duplicates;
      case Cells(cells) =>
        CellKeysAppend(f.cells, cells);
        CellKeysOfOne(cells, key);
      case _ =>
    }
  }

  /** The keys that show something. */
  function Disputed(show: string -> Finding, keys: seq<string>): set<string> {
    if keys == [] then {}
    else
      var rest, last := Disputed(show, keys[..|keys| - 1]), keys[|keys| - 1];
      if show(last) != Same then rest + {last} else rest
  }

  lemma {:induction false} DisputedAre(show: string -> Finding, keys: seq<string>, k: string)
    ensures k in Disputed(show, keys) <==> k in keys && show(k) != Same
  {
    if keys != [] {
      DisputedAre(show, keys[..|keys| - 1], k);
      assert keys == keys[..|keys| - 1] + [keys[|keys| - 1]];
    }
  }

  lemma GoneIsAll(s: seq<Row>, t: seq<Row>, changed: set<string>, names: seq<string>, k: string)
    ensures var finding := Classify(s, t, changed, names)(k);
      Gone(finding) == if finding == Same then 0 else |Copies(s, k)|
  {
  }

  /** The findings leave out exactly the legacy rows of the keys that show something. */
  lemma {:induction false} GoneRows(s: seq<Row>, t: seq<Row>, changed: set<string>, names: seq<string>, keys: seq<string>)
    requires Ascending(keys)
    ensures var show := Classify(s, t, changed, names);
      && AllGone(Collect(show, keys)) == CountIn(s, Disputed(show, keys))
      && CellKeys(Collect(show, keys).cells) <= SetOf(keys)
  {
    if keys == [] {
      CountNone(s);
    } else {
      var n := |keys| - 1;
      var show, key := Classify(s, t, changed, names), keys[n];
      GoneRows(s, t, changed, names, keys[..n]);
      NotLast(keys, key);
      SetOfHas(keys[..n], key);
      DisputedAre(show, keys[..n], key);
      CopiesAdd(s, key, Disputed(show, keys[..n]));
      ClassifyShowsItsOwn(s, t, changed, names);
      GoneAdds(Collect(show, keys[..n]), key, show(key));
      GoneIsAll(s, t, changed, names, key);
    }
  }

  // -- What the rate means ---------------------------------------------------------------

  /** A legacy row the copy holds as it is: one of its key on either side, and no cell differs. */
  predicate Equal(s: seq<Row>, t: seq<Row>, r: Row) {
    Copies(s, r.key) == [r] && Copies(t, r.key) == [r]
  }

  function CountEqual(rows: seq<Row>, s: seq<Row>, t: seq<Row>): nat {
    if rows == [] then 0
    else CountEqual(rows[..|rows| - 1], s, t) + if Equal(s, t, rows[|rows| - 1]) then 1 else 0
  }

  lemma {:induction false} CopiesAre(rows: seq<Row>, key: string, r: Row)
    ensures r in Copies(rows, key) <==> r in rows && r.key == key
  {
    if rows != [] {
      CopiesAre(rows[..|rows| - 1], key, r);
      assert rows == rows[..|rows| - 1] + [rows[|rows| - 1]];
    }
  }

  /** One copy on each side shows nothing exactly when the two are the same row. */
  lemma OneEachIsSame(key: string, x: Row, y: Row, changed: bool, names: seq<string>)
    requires x.key == key && y.key == key && |x.values| == |names| && |y.values| == |names|
    ensures Show(key, [x], [y], changed, names) == Same <==> x == y
  {
  }

  lemma OnlyCopy(rows: seq<Row>, key: string, names: seq<string>)
    requires Wide(rows, names) && |Copies(rows, key)| == 1
    ensures var x := Copies(rows, key)[0]; x in rows && x.key == key && |x.values| == |names| && Copies(rows, key) == [x]
  {
    CopiesAre(rows, key, Copies(rows, key)[0]);
  }

  lemma SameIsEqual(s: seq<Row>, t: seq<Row>, changed: set<string>, names: seq<string>, r: Row)
    requires Wide(s, names) && Wide(t, names) && r in s
    ensures Classify(s, t, changed, names)(r.key) == Same <==> Equal(s, t, r)
  {
    CopiesAre(s, r.key, r);
    if |Copies(s, r.key)| == 1 && |Copies(t, r.key)| == 1 {
      OnlyCopy(s, r.key, names);
      OnlyCopy(t, r.key, names);
      OneEachIsSame(r.key, r, Copies(t, r.key)[0], r.key in changed, names);
    }
  }

  lemma {:induction false} EqualRowsCounted(rows: seq<Row>, s: seq<Row>, t: seq<Row>, disputed: set<string>)
    requires forall r :: r in rows ==> (r.key in disputed <==> !Equal(s, t, r))
    ensures CountEqual(rows, s, t) == |rows| - CountIn(rows, disputed)
  {
    if rows != [] {
      assert rows[|rows| - 1] in rows;
      EqualRowsCounted(rows[..|rows| - 1], s, t, disputed);
    }
  }

  lemma {:induction false} CountGrows(rows: seq<Row>, fewer: set<string>, more: set<string>)
    requires fewer <= more
    ensures CountIn(rows, fewer) <= CountIn(rows, more)
    ensures CountIn(rows, fewer) == CountIn(rows, more) <==> forall k :: k in KeysOf(rows) && k in more ==> k in fewer
  {
    if rows != [] { CountGrows(rows[..|rows| - 1], fewer, more); }
  }

  /** What the whole comparison disputes are the rows that are not equal. */
  lemma WholeIsEqualRows(s: seq<Row>, t: seq<Row>, changed: set<string>, names: seq<string>)
    requires Wide(s, names) && Wide(t, names)
    ensures CountEqual(s, s, t)
         == |s| - CountIn(s, Disputed(Classify(s, t, changed, names), Sorted(KeysOf(s) + KeysOf(t))))
  {
    var show, keys := Classify(s, t, changed, names), Sorted(KeysOf(s) + KeysOf(t));
    forall r | r in s ensures r.key in Disputed(show, keys) <==> !Equal(s, t, r) {
      DisputedAre(show, keys, r.key);
      SameIsEqual(s, t, changed, names, r);
      CopiesAre(s, r.key, r);
      KeyHasCopies(s, r.key);
    }
    EqualRowsCounted(s, s, t, Disputed(show, keys));
  }

  /** The diff of two tables, and its discrepancies, as they are judged. */
  ghost predicate Judged(h: Hashing, s: seq<Row>, t: seq<Row>, changed: set<string>, names: seq<string>, leaf: nat,
                         diff: TableDiff, table: string, mine: seq<Discrepancy>)
    requires 1 <= leaf <= MAX_DEPTH
  {
    && Wide(s, names) && Wide(t, names) && "" !in names
    && diff.findings == Found(h, s, t, changed, names, leaf) && diff.sourceRows == |s| && diff.targetRows == |t|
    && exists classify: CellDiff -> string :: mine == Mine(DiscrepanciesOf(table, diff.findings, classify), table)
  }

  lemma ShownCellsAreOfColumns(key: string, a: seq<Row>, b: seq<Row>, changed: bool, names: seq<string>)
    ensures var finding := Show(key, a, b, changed, names);
      finding.Cells? ==> forall c :: c in finding.cells ==> c.column in names
  {
    if Show(key, a, b, changed, names).Cells? { CellsShow(key, names, a[0].values, b[0].values); }
  }

  lemma CellsAreOfColumns(s: seq<Row>, t: seq<Row>, changed: set<string>, names: seq<string>, keys: seq<string>)
    ensures forall c :: c in Collect(Classify(s, t, changed, names), keys).cells ==> c.column in names
  {
    var show := Classify(s, t, changed, names);
    CollectMeans(show, keys);
    forall c | c in Collect(show, keys).cells ensures c.column in names {
      var k :| k in keys && show(k).Cells? && c in show(k).cells;
      ShownCellsAreOfColumns(k, Copies(s, k), Copies(t, k), k in changed, names);
    }
  }

  lemma MatchedIs(h: Hashing, s: seq<Row>, t: seq<Row>, changed: set<string>, names: seq<string>, leaf: nat, diff: TableDiff,
                  table: string, mine: seq<Discrepancy>)
    requires 1 <= leaf <= MAX_DEPTH && Judged(h, s, t, changed, names, leaf, diff, table, mine)
    ensures Matched(diff, mine)
         == |s| - CountIn(s, Disputed(Classify(s, t, changed, names), Sorted(InLeaves(h, s, t, leaf))))
  {
    var show, keys := Classify(s, t, changed, names), Sorted(InLeaves(h, s, t, leaf));
    FoundInLeaves(h, s, t, changed, names, leaf);
    SortedAscends(InLeaves(h, s, t, leaf));
    GoneRows(s, t, changed, names, keys);
    CellsAreOfColumns(s, t, changed, names, keys);
    var classify: CellDiff -> string :| mine == Mine(DiscrepanciesOf(table, diff.findings, classify), table);
    RowsWithDiffsAre(table, diff.findings, classify);
  }

  /** Leaving keys out leaves out what their rows would have lost. */
  lemma LeftOutCountAsMatched(rows: seq<Row>, show: string -> Finding, in_: set<string>, all: set<string>)
    requires in_ <= all && KeysOf(rows) <= all
    ensures var fewer, more := Disputed(show, Sorted(in_)), Disputed(show, Sorted(all));
      && CountIn(rows, fewer) <= CountIn(rows, more)
      && (CountIn(rows, fewer) == CountIn(rows, more) <==> forall k :: k in KeysOf(rows) && k !in in_ ==> show(k) == Same)
  {
    var fewer, more := Disputed(show, Sorted(in_)), Disputed(show, Sorted(all));
    forall k ensures k in fewer <==> k in in_ && show(k) != Same { DisputedAre(show, Sorted(in_), k); }
    forall k ensures k in more <==> k in all && show(k) != Same { DisputedAre(show, Sorted(all), k); }
    CountGrows(rows, fewer, more);
  }

  /** The theorem: whatever the hashes do, at least the equal rows are counted as matched, and they are all that is exactly
    * when every legacy key the descent left out shows nothing. */
  lemma MatchedRowsAreTheEqualOnes(h: Hashing, s: seq<Row>, t: seq<Row>, changed: set<string>, names: seq<string>, leaf: nat,
                                   diff: TableDiff, table: string, mine: seq<Discrepancy>)
    requires 1 <= leaf <= MAX_DEPTH && Judged(h, s, t, changed, names, leaf, diff, table, mine)
    ensures CountEqual(s, s, t) <= Matched(diff, mine) <= |s|
    ensures Matched(diff, mine) == CountEqual(s, s, t)
            <==> forall k :: k in KeysOf(s) && k !in InLeaves(h, s, t, leaf) ==> Classify(s, t, changed, names)(k) == Same
  {
    MatchedIs(h, s, t, changed, names, leaf, diff, table, mine);
    WholeIsEqualRows(s, t, changed, names);
    LeftOutCountAsMatched(s, Classify(s, t, changed, names), InLeaves(h, s, t, leaf), KeysOf(s) + KeysOf(t));
  }

  /** So with a primary key and no collision, the row match rate is the part of the legacy rows the copy holds as they are. */
  lemma TheRateIsOfEqualRows(h: Hashing, s: seq<Row>, t: seq<Row>, changed: set<string>, names: seq<string>, leaf: nat,
                             diff: TableDiff, table: string, mine: seq<Discrepancy>)
    requires 1 <= leaf <= MAX_DEPTH && Judged(h, s, t, changed, names, leaf, diff, table, mine)
    requires NoCollision(h, s, t) && UniqueKeys(s)
    ensures s != [] ==> RowMatchRate(diff, mine) == CountEqual(s, s, t) as real / |s| as real
  {
    MatchedRowsAreTheEqualOnes(h, s, t, changed, names, leaf, diff, table, mine);
    forall k | k in KeysOf(s) && k !in InLeaves(h, s, t, leaf) ensures Classify(s, t, changed, names)(k) == Same {
      LeftOutIsTheSame(h, s, t, leaf, k);
      SameCopiesShow(s, t, changed, names, k);
    }
  }

  lemma FailuresOfTheTable(diff: TableDiff, mine: seq<Discrepancy>, names: seq<string>, t: Thresholds, lagHours: Option<real>,
                           failures: seq<Failure>)
    requires EveryClass(t)
    requires failures == TableFailures(diff, mine, t, lagHours) + ColumnFailures(diff, mine, names, t) + ClassFailures(mine, CLASSES, t)
    ensures BeyondTheRowsFound in failures <==> diff.targetRows - diff.sourceRows != Accounted(diff.findings)
    ensures RowRate in failures <==> RowMatchRate(diff, mine) < t.minRowRate
  {
    ColumnsFailByColumn(diff, mine, names, t);
    ClassesFailByClass(mine, CLASSES, t);
  }

  lemma {:induction false} KeysAreClassed(table: string, keys: seq<string>, klass: string)
    requires klass in CLASSES
    ensures Classed(OfKeys(table, keys, klass))
  {
    if keys != [] { KeysAreClassed(table, keys[..|keys| - 1], klass); }
  }

  lemma {:induction false} DuplicatesAreClassed(table: string, ds: seq<DuplicateKey>)
    ensures Classed(OfDuplicates(table, ds))
  {
    if ds != [] { DuplicatesAreClassed(table, ds[..|ds| - 1]); }
    assert CLASSES[2] == "duplicate_key";
  }

  lemma {:induction false} CellsAreClassed(table: string, cells: seq<CellDiff>, classify: CellDiff -> string)
    requires forall c :: classify(c) in CLASSES
    ensures Classed(OfCells(table, cells, classify))
  {
    if cells != [] { CellsAreClassed(table, cells[..|cells| - 1], classify); }
  }

  lemma AllAreClassed(table: string, f: Findings, classify: CellDiff -> string)
    requires forall c :: classify(c) in CLASSES
    ensures Classed(DiscrepanciesOf(table, f, classify))
  {
    assert CLASSES[0] == "missing_in_target" && CLASSES[1] == "extra_in_target";
    KeysAreClassed(table, f.missing, "missing_in_target");
    KeysAreClassed(table, f.extra, "extra_in_target");
    DuplicatesAreClassed(table, f.duplicates);
    CellsAreClassed(table, f.cells, classify);
  }

  lemma {:induction false} AllMine(found: seq<Discrepancy>, table: string)
    requires forall d :: d in found ==> d.table == table
    ensures Mine(found, table) == found
  {
    if found != [] {
      var n := |found| - 1;
      assert found == found[..n] + [found[n]] && found[n] in found;
      AllMine(found[..n], table);
    }
  }

  lemma {:induction false} OfKeysAre(table: string, keys: seq<string>, klass: string)
    ensures |OfKeys(table, keys, klass)| == |keys|
    ensures forall i :: 0 <= i < |keys| ==> OfKeys(table, keys, klass)[i] == Discrepancy(table, keys[i], "", klass)
  {
    if keys != [] { OfKeysAre(table, keys[..|keys| - 1], klass); }
  }

  lemma {:induction false} OfDuplicatesAre(table: string, ds: seq<DuplicateKey>)
    ensures |OfDuplicates(table, ds)| == |ds|
    ensures forall i :: 0 <= i < |ds| ==> OfDuplicates(table, ds)[i] == Discrepancy(table, ds[i].key, "", "duplicate_key")
  {
    if ds != [] { OfDuplicatesAre(table, ds[..|ds| - 1]); }
  }

  lemma {:induction false} OfCellsAre(table: string, cells: seq<CellDiff>, classify: CellDiff -> string)
    ensures |OfCells(table, cells, classify)| == |cells|
    ensures forall i :: 0 <= i < |cells| ==>
              OfCells(table, cells, classify)[i] == Discrepancy(table, cells[i].key, cells[i].column, classify(cells[i]))
  {
    if cells != [] { OfCellsAre(table, cells[..|cells| - 1], classify); }
  }

  /** One difference for each missing, extra and duplicated key and each cell, in that order, of its class. */
  ghost predicate Lists(listed: seq<Discrepancy>, table: string, f: Findings, classify: CellDiff -> string) {
    var a, b, c := |f.missing|, |f.extra|, |f.duplicates|;
    && |listed| == a + b + c + |f.cells|
    && (forall i :: 0 <= i < a ==> listed[i] == Discrepancy(table, f.missing[i], "", "missing_in_target"))
    && (forall i :: 0 <= i < b ==> listed[a + i] == Discrepancy(table, f.extra[i], "", "extra_in_target"))
    && (forall i :: 0 <= i < c ==> listed[a + b + i] == Discrepancy(table, f.duplicates[i].key, "", "duplicate_key"))
    && (forall i :: 0 <= i < |f.cells| ==>
          listed[a + b + c + i] == Discrepancy(table, f.cells[i].key, f.cells[i].column, classify(f.cells[i])))
  }

  lemma Within(before: seq<Discrepancy>, part: seq<Discrepancy>, after: seq<Discrepancy>, i: nat)
    requires i < |part|
    ensures (before + part + after)[|before| + i] == part[i]
  {
  }

  lemma MissingListed(table: string, f: Findings, classify: CellDiff -> string, i: nat)
    requires i < |f.missing|
    ensures i < |DiscrepanciesOf(table, f, classify)|
    ensures DiscrepanciesOf(table, f, classify)[i] == Discrepancy(table, f.missing[i], "", "missing_in_target")
  {
    OfKeysAre(table, f.missing, "missing_in_target");
  }

  lemma ExtraListed(table: string, f: Findings, classify: CellDiff -> string, i: nat)
    requires i < |f.extra|
    ensures |f.missing| + i < |DiscrepanciesOf(table, f, classify)|
    ensures DiscrepanciesOf(table, f, classify)[|f.missing| + i] == Discrepancy(table, f.extra[i], "", "extra_in_target")
  {
    OfKeysAre(table, f.missing, "missing_in_target");
    OfKeysAre(table, f.extra, "extra_in_target");
    Within(OfKeys(table, f.missing, "missing_in_target"), OfKeys(table, f.extra, "extra_in_target"),
           OfDuplicates(table, f.duplicates), i);
  }

  lemma DuplicateListed(table: string, f: Findings, classify: CellDiff -> string, i: nat)
    requires i < |f.duplicates|
    ensures |f.missing| + |f.extra| + i < |DiscrepanciesOf(table, f, classify)|
    ensures DiscrepanciesOf(table, f, classify)[|f.missing| + |f.extra| + i]
         == Discrepancy(table, f.duplicates[i].key, "", "duplicate_key")
  {
    OfKeysAre(table, f.missing, "missing_in_target");
    OfKeysAre(table, f.extra, "extra_in_target");
    OfDuplicatesAre(table, f.duplicates);
    Within(OfKeys(table, f.missing, "missing_in_target") + OfKeys(table, f.extra, "extra_in_target"),
           OfDuplicates(table, f.duplicates), OfCells(table, f.cells, classify), i);
  }

  lemma CellListed(table: string, f: Findings, classify: CellDiff -> string, i: nat)
    requires i < |f.cells|
    ensures |f.missing| + |f.extra| + |f.duplicates| + i < |DiscrepanciesOf(table, f, classify)|
    ensures DiscrepanciesOf(table, f, classify)[|f.missing| + |f.extra| + |f.duplicates| + i]
         == Discrepancy(table, f.cells[i].key, f.cells[i].column, classify(f.cells[i]))
  {
    AsMany(table, f, classify);
    OfCellsAre(table, f.cells, classify);
  }

  lemma AsMany(table: string, f: Findings, classify: CellDiff -> string)
    ensures |OfKeys(table, f.missing, "missing_in_target") + OfKeys(table, f.extra, "extra_in_target")
             + OfDuplicates(table, f.duplicates)| == |f.missing| + |f.extra| + |f.duplicates|
    ensures |DiscrepanciesOf(table, f, classify)| == |f.missing| + |f.extra| + |f.duplicates| + |f.cells|
  {
    OfKeysAre(table, f.missing, "missing_in_target");
    OfKeysAre(table, f.extra, "extra_in_target");
    OfDuplicatesAre(table, f.duplicates);
    OfCellsAre(table, f.cells, classify);
  }

  lemma DiscrepanciesAre(table: string, f: Findings, classify: CellDiff -> string)
    ensures Lists(DiscrepanciesOf(table, f, classify), table, f, classify)
  {
    AsMany(table, f, classify);
    forall i: nat | i < |f.missing|
      ensures DiscrepanciesOf(table, f, classify)[i] == Discrepancy(table, f.missing[i], "", "missing_in_target") {
      MissingListed(table, f, classify, i);
    }
    forall i: nat | i < |f.extra|
      ensures DiscrepanciesOf(table, f, classify)[|f.missing| + i] == Discrepancy(table, f.extra[i], "", "extra_in_target") {
      ExtraListed(table, f, classify, i);
    }
    forall i: nat | i < |f.duplicates|
      ensures DiscrepanciesOf(table, f, classify)[|f.missing| + |f.extra| + i]
           == Discrepancy(table, f.duplicates[i].key, "", "duplicate_key") {
      DuplicateListed(table, f, classify, i);
    }
    forall i: nat | i < |f.cells|
      ensures DiscrepanciesOf(table, f, classify)[|f.missing| + |f.extra| + |f.duplicates| + i]
           == Discrepancy(table, f.cells[i].key, f.cells[i].column, classify(f.cells[i])) {
      CellListed(table, f, classify, i);
    }
  }

  lemma ListedIsOfTheTable(listed: seq<Discrepancy>, table: string, f: Findings, classify: CellDiff -> string, i: nat)
    requires Lists(listed, table, f, classify) && i < |listed|
    ensures listed[i].table == table
  {
    var a, b, c := |f.missing|, |f.extra|, |f.duplicates|;
    if i < a {
      assert listed[i] == Discrepancy(table, f.missing[i], "", "missing_in_target");
    } else if i < a + b {
      var k := i - a;
      assert listed[a + k] == Discrepancy(table, f.extra[k], "", "extra_in_target");
    } else if i < a + b + c {
      var k := i - a - b;
      assert listed[a + b + k] == Discrepancy(table, f.duplicates[k].key, "", "duplicate_key");
    } else {
      var k := i - a - b - c;
      assert listed[a + b + c + k] == Discrepancy(table, f.cells[k].key, f.cells[k].column, classify(f.cells[k]));
    }
  }

  lemma ListedAreOfTheTable(listed: seq<Discrepancy>, table: string, f: Findings, classify: CellDiff -> string)
    requires Lists(listed, table, f, classify)
    ensures forall d :: d in listed ==> d.table == table
  {
    forall i: nat | i < |listed| ensures listed[i].table == table { ListedIsOfTheTable(listed, table, f, classify, i); }
  }

  lemma AllAreOfTheTable(table: string, f: Findings, classify: CellDiff -> string)
    ensures Mine(DiscrepanciesOf(table, f, classify), table) == DiscrepanciesOf(table, f, classify)
    ensures Lists(DiscrepanciesOf(table, f, classify), table, f, classify)
  {
    DiscrepanciesAre(table, f, classify);
    ListedAreOfTheTable(DiscrepanciesOf(table, f, classify), table, f, classify);
    AllMine(DiscrepanciesOf(table, f, classify), table);
  }

  /** A table's own differences, and the verdict on them. */
  method JudgeDiff(table: string, names: seq<string>, diff: TableDiff, classify: CellDiff -> string, t: Thresholds,
                   lagHours: Option<real>)
    returns (mine: seq<Discrepancy>, verdict: TableVerdict)
    requires EveryClass(t) && "" !in names && forall c :: classify(c) in CLASSES
    ensures mine == Mine(DiscrepanciesOf(table, diff.findings, classify), table) && Lists(mine, table, diff.findings, classify)
    ensures BeyondTheRowsFound in verdict.failures <==> diff.targetRows - diff.sourceRows != Accounted(diff.findings)
    ensures verdict.rowRate == RowMatchRate(diff, mine) && (RowRate in verdict.failures <==> verdict.rowRate < t.minRowRate)
    ensures forall failure :: failure in verdict.failures <==> FailsBy(diff, mine, table, names, t, lagHours, failure)
  {
    var found := DiscrepanciesOf(table, diff.findings, classify);
    mine := Mine(found, table);
    AllAreClassed(table, diff.findings, classify);
    AllAreOfTheTable(table, diff.findings, classify);
    verdict := Judge(table, names, diff, found, t, lagHours);
    FailuresOfTheTable(diff, mine, names, t, lagHours, verdict.failures);
  }

  /** One table compared and judged: on two sides that stay as they are, no row is ever lost on the way to the leaves. */
  method Compare(table: string, spec: TableSpec, source: PostgresConnector, target: ClickHouseConnector, leafWidth: nat,
                 classify: CellDiff -> string, t: Thresholds, lagHours: Option<real>)
    returns (diff: TableDiff, mine: seq<Discrepancy>, verdict: TableVerdict)
    requires source.hashing == target.hashing && EveryClass(t) && forall c :: classify(c) in CLASSES
    requires leafWidth > 0 && source.Current(spec.watermark)
    requires Wide(AsOf(source.table, spec.watermark), spec.names) && Wide(target.table, spec.names) && "" !in spec.names
    modifies source`prepared
    ensures Judged(source.hashing, AsOf(source.table, spec.watermark), target.table, ChangedKeys(source.table, spec.watermark),
                   spec.names, LeafDepth(Max(diff.sourceRows, diff.targetRows), leafWidth), diff, table, mine)
    ensures BeyondTheRowsFound !in verdict.failures && verdict.rowRate == RowMatchRate(diff, mine)
    ensures RowRate in verdict.failures <==> verdict.rowRate < t.minRowRate
    ensures Lists(mine, table, diff.findings, classify)
    ensures forall failure :: failure in verdict.failures <==> FailsBy(diff, mine, table, spec.names, t, lagHours, failure)
  {
    diff := DiffTable(spec, source, target, leafWidth);
    mine, verdict := JudgeDiff(table, spec.names, diff, classify, t, lagHours);
  }
}
