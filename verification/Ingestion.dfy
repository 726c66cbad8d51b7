/** The copy job itself: every table's watermark load, the resync of one table and the backfill of all of them. */
module Ingestion {
  import opened Ids
  import opened CopyProtocol

  /** One row of `ingestion_loads`. */
  datatype LoadRecord = LoadRecord(table: string, since: Option<int>, until: int, rows: nat)

  // -- Watermarks ----------------------------------------------------------------------

  /** The latest `loaded_until` of a table. */
  function Mark(loads: seq<LoadRecord>, table: string): Option<int> {
    if loads == [] then None
    else
      var last := loads[|loads| - 1];
      var before := Mark(loads[..|loads| - 1], table);
      if last.table == table then Raise(before, last.until) else before
  }

  lemma {:induction false} MarkIsTheLatest(loads: seq<LoadRecord>, table: string)
    ensures Mark(loads, table).None? <==> (forall i :: 0 <= i < |loads| ==> loads[i].table != table)
    ensures forall i :: 0 <= i < |loads| && loads[i].table == table ==> loads[i].until <= Mark(loads, table).value
    ensures Mark(loads, table).Some? ==>
              exists i :: 0 <= i < |loads| && loads[i].table == table && loads[i].until == Mark(loads, table).value
  {
    if loads != [] {
      var n := |loads| - 1;
      MarkIsTheLatest(loads[..n], table);
      assert loads == loads[..n] + [loads[n]];
      if loads[n].table != table && Mark(loads, table).Some? {
        var i :| 0 <= i < n && loads[..n][i].table == table && loads[..n][i].until == Mark(loads[..n], table).value;
        assert loads[i].until == Mark(loads, table).value;
      } else if Mark(loads, table).Some? && Mark(loads, table).value != loads[n].until {
        var i :| 0 <= i < n && loads[..n][i].table == table && loads[..n][i].until == Mark(loads[..n], table).value;
        assert loads[i].until == Mark(loads, table).value;
      }
    }
  }

  lemma MarkAppends(loads: seq<LoadRecord>, record: LoadRecord, table: string)
    ensures Mark(loads + [record], table)
         == if record.table == table then Raise(Mark(loads, table), record.until) else Mark(loads, table)
  {
    assert (loads + [record])[..|loads|] == loads;
  }

  /** The tables a load does not skip, in order. */
  function Without(tables: seq<string>, skip: set<string>): (left: seq<string>)
    ensures forall t :: t in left <==> t in tables && t !in skip
  {
    if tables == [] then []
    else
      var before, last := Without(tables[..|tables| - 1], skip), tables[|tables| - 1];
      if last in skip then before else before + [last]
  }

  lemma {:induction false} WithoutHasNoRepeats(tables: seq<string>, skip: set<string>)
    requires NoRepeats(tables)
    ensures NoRepeats(Without(tables, skip))
  {
    if tables != [] {
      WithoutHasNoRepeats(tables[..|tables| - 1], skip);
    }
  }

  // -- Postgres ------------------------------------------------------------------------

  class LegacyDatabase {
    var rows: map<string, map<string, Version>>
    ghost var highest: map<string, map<string, int>>

    ghost predicate Valid()
      reads this
    {
      rows.Keys == highest.Keys
    }

    constructor (tables: seq<string>)
      ensures Valid() && rows.Keys == set t | t in tables
      ensures forall t :: t in tables ==> rows[t] == map[] && highest[t] == map[]
    {
      rows := map t | t in tables :: map[];
      highest := map t | t in tables :: map[];
    }

    method Commit(table: string, key: string, version: Version)
      requires Valid() && table in rows
      modifies this
      ensures Valid()
      ensures rows == old(rows)[table := old(rows)[table][key := version]]
      ensures highest == old(highest)[table := old(highest)[table][key := version.stamp]]
    {
      rows := rows[table := rows[table][key := version]];
      highest := highest[table := highest[table][key := version.stamp]];
    }
  }

  // -- One pull ------------------------------------------------------------------------

  // -- The times a load is asked with ----------------------------------------------------

  const SECOND := 1_000_000

  /** Times are in microseconds; the job writes them into its query to the whole second before. */
  function Cut(time: int): int {
    time - time % SECOND
  }

  function CutSince(since: Option<int>): Option<int> {
    if since.Some? then Some(Cut(since.value)) else None
  }

  /** A row stamped in the part of a second that is cut off where a load ends, or starts. */
  ghost predicate CutOff(stamp: int, since: Option<int>, until: int) {
    || (Cut(until) < stamp <= until && (since.Some? ==> stamp > since.value))
    || (since.Some? && Cut(since.value) < stamp <= since.value && stamp <= Cut(until))
  }

  lemma CutReads(pg: map<string, Version>, since: Option<int>, until: int, k: string)
    requires k in pg
    ensures (k in Read(pg, CutSince(since), Cut(until)) <==> k in Read(pg, since, until)) <==> !CutOff(pg[k].stamp, since, until)
  {
  }

  /** So the query reads what the load is asked for exactly when no row is stamped in a part of a second cut off; whole
      seconds cut nothing off. */
  lemma CutReadsTheSame(pg: map<string, Version>, since: Option<int>, until: int)
    ensures Read(pg, CutSince(since), Cut(until)) == Read(pg, since, until)
            <==> forall k :: k in pg ==> !CutOff(pg[k].stamp, since, until)
    ensures until % SECOND == 0 && (since.Some? ==> since.value % SECOND == 0)
            ==> Read(pg, CutSince(since), Cut(until)) == Read(pg, since, until)
  {
    forall k | k in pg
      ensures (k in Read(pg, CutSince(since), Cut(until)) <==> k in Read(pg, since, until)) <==> !CutOff(pg[k].stamp, since, until)
    {
      CutReads(pg, since, until, k);
    }
  }

  /** What a pull works from. */
  datatype Pulling = Pulling(rows: map<string, map<string, Version>>, marks: map<string, int>, overlap: nat, until: int)

  function SinceOf(p: Pulling, t: string): Option<int> {
    SinceIn(p.marks, p.overlap, t)
  }

  function SinceIn(marks: map<string, int>, overlap: nat, t: string): Option<int> {
    if t in marks then Some(marks[t] - overlap) else None
  }

  function PartOf(p: Pulling, t: string): Part {
    Read(At(p.rows, t, map[]), SinceOf(p, t), p.until)
  }

  function At<V>(m: map<string, V>, t: string, otherwise: V): V {
    if t in m then m[t] else otherwise
  }

  /** Raw after a pull of the named tables, one after the other. */
  ghost function Inserted(raw: map<string, seq<Part>>, p: Pulling, names: seq<string>): map<string, seq<Part>> {
    if names == [] then raw
    else
      var before, t := Inserted(raw, p, names[..|names| - 1]), names[|names| - 1];
      before[t := At(before, t, []) + [PartOf(p, t)]]
  }

  function RecordOf(p: Pulling, t: string): LoadRecord {
    LoadRecord(t, SinceOf(p, t), p.until, |PartOf(p, t)|)
  }

  ghost function Records(p: Pulling, names: seq<string>): seq<LoadRecord> {
    if names == [] then [] else Records(p, names[..|names| - 1]) + [RecordOf(p, names[|names| - 1])]
  }

  lemma {:induction false} RecordAt(p: Pulling, names: seq<string>, i: nat)
    requires i < |names|
    ensures |Records(p, names)| == |names| && Records(p, names)[i] == RecordOf(p, names[i])
    decreases |names|
  {
    RecordsAreAsMany(p, names);
    var n := |names| - 1;
    if i < n {
      RecordAt(p, names[..n], i);
      OneRecordMore(p, names, i);
    }
  }

  lemma OneRecordMore(p: Pulling, names: seq<string>, i: nat)
    requires names != [] && i < |Records(p, names[..|names| - 1])|
    ensures i < |Records(p, names)| && Records(p, names)[i] == Records(p, names[..|names| - 1])[i]
  {
  }

  /** One record a table: from its mark less the overlap, if it has one, up to the new end, with the rows read. */
  lemma RecordsAre(p: Pulling, names: seq<string>, i: nat)
    requires i < |names|
    ensures |Records(p, names)| == |names|
    ensures var since := if names[i] in p.marks then Some(p.marks[names[i]] - p.overlap) else None;
      Records(p, names)[i] == LoadRecord(names[i], since, p.until, |Read(At(p.rows, names[i], map[]), since, p.until)|)
  {
    RecordAt(p, names, i);
  }

  lemma {:induction false} RecordsAreAsMany(p: Pulling, names: seq<string>)
    ensures |Records(p, names)| == |names|
  {
    if names != [] { RecordsAreAsMany(p, names[..|names| - 1]); }
  }

  ghost function Moved(p: Pulling, names: seq<string>): map<string, nat> {
    if names == [] then map[]
    else Moved(p, names[..|names| - 1])[names[|names| - 1] := |PartOf(p, names[|names| - 1])|]
  }

  /** The first `n` tables are pulled. */
  ghost predicate Pulled(before: map<string, seq<Part>>, raw: map<string, seq<Part>>, moved: map<string, nat>,
                         records: seq<LoadRecord>, p: Pulling, names: seq<string>, n: nat)
    requires n <= |names|
  {
    raw == Inserted(before, p, names[..n]) && moved == Moved(p, names[..n]) && records == Records(p, names[..n])
  }

  lemma PullNext(before: map<string, seq<Part>>, raw: map<string, seq<Part>>, moved: map<string, nat>,
                 records: seq<LoadRecord>, p: Pulling, names: seq<string>, i: nat, t: string, part: Part)
    requires i < |names| && Pulled(before, raw, moved, records, p, names, i)
    requires t == names[i] && part == PartOf(p, t)
    ensures Pulled(before, raw[t := At(raw, t, []) + [part]], moved[t := |part|],
                   records + [LoadRecord(t, SinceOf(p, t), p.until, |part|)], p, names, i + 1)
  {
    assert names[..i + 1][..i] == names[..i];
  }

  lemma PulledAll(before: map<string, seq<Part>>, raw: map<string, seq<Part>>, moved: map<string, nat>,
                  records: seq<LoadRecord>, p: Pulling, names: seq<string>)
    requires Pulled(before, raw, moved, records, p, names, |names|)
    ensures raw == Inserted(before, p, names) && moved == Moved(p, names) && records == Records(p, names)
  {
    assert names[..|names|] == names;
  }

  /** What a pull does to a table: its part goes in, once, if the table is named. */
  lemma {:induction false} InsertedOnce(raw: map<string, seq<Part>>, p: Pulling, names: seq<string>, t: string)
    requires NoRepeats(names)
    ensures t in Inserted(raw, p, names) <==> t in raw || t in names
    ensures At(Inserted(raw, p, names), t, []) == At(raw, t, []) + if t in names then [PartOf(p, t)] else []
  {
    if names != [] {
      var n := |names| - 1;
      InsertedOnce(raw, p, names[..n], t);
      assert names == names[..n] + [names[n]];
    }
  }

  /** What recording a pull does to a table: its mark is raised, if the table is named. */
  lemma {:induction false} RecordedOnce(loads: seq<LoadRecord>, p: Pulling, names: seq<string>, t: string)
    requires NoRepeats(names)
    ensures Mark(loads + Records(p, names), t) == if t in names then Raise(Mark(loads, t), p.until) else Mark(loads, t)
  {
    if names == [] {
      assert loads + Records(p, names) == loads;
    } else {
      var n := |names| - 1;
      var before, record := Records(p, names[..n]), RecordOf(p, names[n]);
      RecordedOnce(loads, p, names[..n], t);
      MarkAppends(loads + before, record, t);
      Associative(loads, before, [record]);
      assert names == names[..n] + [names[n]];
    }
  }

  lemma {:induction false} MovedNames(p: Pulling, names: seq<string>)
    ensures forall t :: t in Moved(p, names) <==> t in names
    ensures forall t :: t in names ==> Moved(p, names)[t] == |PartOf(p, t)|
  {
    if names != [] {
      var n := |names| - 1;
      MovedNames(p, names[..n]);
      assert names == names[..n] + [names[n]];
    }
  }

  class Ingestion {
    const legacy: LegacyDatabase
    const tables: seq<string>
    const overlap: nat
    var raw: map<string, seq<Part>>
    var loads: seq<LoadRecord>

    ghost predicate Valid()
      reads this, legacy
    {
      && NoRepeats(tables) && legacy.Valid()
      && (forall t :: t in tables ==> t in raw && t in legacy.rows)
    }

    /** One table as the protocol sees it. */
    ghost function TableOf(t: string): TableState
      reads this, legacy
    {
      TableState(At(legacy.rows, t, map[]), At(raw, t, []), Mark(loads, t), At(legacy.highest, t, map[]))
    }

    /** `recreate`: every raw table empty, no watermark. */
    constructor (legacy: LegacyDatabase, tables: seq<string>, overlap: nat)
      requires legacy.Valid() && NoRepeats(tables) && forall t :: t in tables ==> t in legacy.rows
      ensures Valid() && this.legacy == legacy && this.tables == tables && this.overlap == overlap
      ensures forall t :: t in tables ==> TableOf(t).raw == [] && TableOf(t).mark == None
    {
      this.legacy, this.tables, this.overlap := legacy, tables, overlap;
      raw := map t | t in tables :: [];
      loads := [];
    }

    /** Each table's rows from its mark on are inserted, and one record a table is made; nothing is recorded yet. */
    method Pull(marks: map<string, int>, until: int, names: seq<string>)
      returns (moved: map<string, nat>, records: seq<LoadRecord>)
      requires Valid() && NoRepeats(names) && forall t :: t in names ==> t in tables
      modifies this`raw
      ensures raw == Inserted(old(raw), Pulling(legacy.rows, marks, overlap, until), names)
      ensures moved == Moved(Pulling(legacy.rows, marks, overlap, until), names)
      ensures records == Records(Pulling(legacy.rows, marks, overlap, until), names)
    {
      ghost var p := Pulling(legacy.rows, marks, overlap, until);
      moved, records := map[], [];
      for n := 0 to |names|
        invariant forall t :: t in names ==> t in raw
        invariant Pulled(old(raw), raw, moved, records, p, names, n)
      {
        var t := names[n];
        var since := if t in marks then Some(marks[t] - overlap) else None;
        var part := Read(legacy.rows[t], since, until);
        PullNext(old(raw), raw, moved, records, p, names, n, t, part);
        raw := raw[t := raw[t] + [part]];
        moved := moved[t := |part|];
        records := records + [LoadRecord(t, since, until, |part|)];
      }
      PulledAll(old(raw), raw, moved, records, p, names);
    }

    /** A pull, and the record of it. */
    method PullAndRecord(marks: map<string, int>, until: int, names: seq<string>) returns (moved: map<string, nat>)
      requires Valid() && NoRepeats(names) && forall t :: t in names ==> t in tables
      modifies this
      ensures Valid()
      ensures forall t :: t in names ==>
                TableOf(t) == Loaded(old(TableOf(t)), SinceIn(marks, overlap, t), until)
      ensures forall t :: t in tables && t !in names ==> TableOf(t) == old(TableOf(t))
      ensures forall t :: t in moved <==> t in names
      ensures forall t :: t in names ==> moved[t] == |Read(legacy.rows[t], SinceIn(marks, overlap, t), until)|
    {
      ghost var p := Pulling(legacy.rows, marks, overlap, until);
      var records;
      moved, records := Pull(marks, until, names);
      loads := loads + records;
      MovedNames(p, names);
      forall t | t in tables
        ensures t in raw
        ensures TableOf(t) == if t in names then Loaded(old(TableOf(t)), SinceIn(marks, overlap, t), until) else old(TableOf(t))
      {
        InsertedOnce(old(raw), p, names, t);
        RecordedOnce(old(loads), p, names, t);
      }
    }

    /** The latest `loaded_until` of every table that was ever loaded. */
    method Watermarks() returns (marks: map<string, int>)
      ensures forall t :: SinceIn(marks, overlap, t) == Since(Mark(loads, t), overlap)
    {
      marks := map[];
      for n := 0 to |loads|
        invariant forall t :: (t in marks <==> Mark(loads[..n], t).Some?)
                           && (t in marks ==> Mark(loads[..n], t) == Some(marks[t]))
      {
        var load := loads[n];
        forall t { MarkAppends(loads[..n], load, t); }
        assert loads[..n + 1] == loads[..n] + [load];
        if load.table !in marks || marks[load.table] <= load.until {
          marks := marks[load.table := load.until];
        }
      }
      assert loads[..|loads|] == loads;
    }

    /** A pull from each table's watermark on. */
    method PullOn(until: int, names: seq<string>) returns (moved: map<string, nat>)
      requires Valid() && NoRepeats(names) && forall t :: t in names ==> t in tables
      modifies this
      ensures Valid()
      ensures forall t :: t in names ==> TableOf(t) == Apply(old(TableOf(t)), overlap, Action.Load(until))
      ensures forall t :: t in tables && t !in names ==> TableOf(t) == old(TableOf(t))
      ensures forall t :: t in moved <==> t in names
    {
      var marks := Watermarks();
      moved := PullAndRecord(marks, until, names);
    }

    /** Every table that is not skipped takes the protocol's load step; a skipped one is left as it was. */
    method Load(until: int, full: bool, skip: set<string>) returns (moved: map<string, nat>)
      requires Valid()
      modifies this
      ensures Valid()
      ensures forall t :: t in tables && t in skip ==> TableOf(t) == old(TableOf(t))
      ensures full ==> forall t :: t in tables && t !in skip ==>
                                     TableOf(t) == Apply(old(TableOf(t)), overlap, LoadAll(until))
      ensures !full ==> forall t :: t in tables && t !in skip ==>
                                      TableOf(t) == Apply(old(TableOf(t)), overlap, Action.Load(until))
      ensures forall t :: t in moved <==> t in tables && t !in skip
    {
      var names := Without(tables, skip);
      WithoutHasNoRepeats(tables, skip);
      if full {
        moved := PullAndRecord(map[], until, names);
      } else {
        moved := PullOn(until, names);
      }
    }

    /** The one table is emptied and loaded in full; every other one is left as it was. */
    method Resync(table: string, until: int) returns (rows: nat)
      requires Valid() && table in tables
      modifies this
      ensures Valid()
      ensures TableOf(table) == Apply(old(TableOf(table)), overlap, Replace(until))
      ensures forall t :: t in tables && t != table ==> TableOf(t) == old(TableOf(t))
      ensures rows == |Read(legacy.rows[table], None, until)|
    {
      raw := raw[table := []];
      var moved := PullAndRecord(map[], until, [table]);
      rows := moved[table];
    }

    /** Every table is emptied and loaded in full; the record of earlier loads is kept. */
    method Backfill(until: int) returns (moved: map<string, nat>)
      requires Valid()
      modifies this
      ensures Valid()
      ensures forall t :: t in tables ==> TableOf(t) == Apply(old(TableOf(t)), overlap, Replace(until))
      ensures forall t :: t in moved <==> t in tables
    {
      raw := map t | t in tables :: [];
      moved := Load(until, true, {});
    }
  }
}
