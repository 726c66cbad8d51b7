/** What the rows of two sides show, key by key. */
module DiffFindings {
  import opened Ids
  import opened Segments

  datatype CellDiff = CellDiff(key: string, column: string, source: string, target: string)

  datatype DuplicateKey = DuplicateKey(key: string, source: nat, target: nat)

  /** What one key shows. */
  datatype Finding = Same | Missing | Extra | InFlight | Duplicate(source: nat, target: nat) | Cells(cells: seq<CellDiff>)

  datatype Findings = Findings(missing: seq<string>, extra: seq<string>, inFlight: seq<string>,
                               duplicates: seq<DuplicateKey>, cells: seq<CellDiff>)

  function NoFindings(): Findings {
    Findings([], [], [], [], [])
  }

  /** Every row with a key, in order. */
  function Copies(rows: seq<Row>, key: string): seq<Row> {
    if rows == [] then []
    else
      var rest, last := Copies(rows[..|rows| - 1], key), rows[|rows| - 1];
      if last.key == key then rest + [last] else rest
  }

  function KeysOf(rows: seq<Row>): set<string> {
    if rows == [] then {} else KeysOf(rows[..|rows| - 1]) + {rows[|rows| - 1].key}
  }

  lemma {:induction false} KeyHasCopies(rows: seq<Row>, key: string)
    ensures Copies(rows, key) == [] <==> key !in KeysOf(rows)
  {
    if rows != [] { KeyHasCopies(rows[..|rows| - 1], key); }
  }

  lemma {:induction false} KeyHasRow(rows: seq<Row>, key: string) returns (r: Row)
    requires key in KeysOf(rows)
    ensures r in rows && r.key == key
  {
    var n := |rows| - 1;
    if key in KeysOf(rows[..n]) {
      r := KeyHasRow(rows[..n], key);
    } else {
      r := rows[n];
    }
  }

  /** How many rows have one of some keys. */
  function CountIn(rows: seq<Row>, keys: set<string>): nat {
    if rows == [] then 0
    else CountIn(rows[..|rows| - 1], keys) + if rows[|rows| - 1].key in keys then 1 else 0
  }

  lemma {:induction false} CountAll(rows: seq<Row>, keys: set<string>)
    requires KeysOf(rows) <= keys
    ensures CountIn(rows, keys) == |rows|
  {
    if rows != [] { CountAll(rows[..|rows| - 1], keys); }
  }

  lemma {:induction false} CountNone(rows: seq<Row>)
    ensures CountIn(rows, {}) == 0
  {
    if rows != [] { CountNone(rows[..|rows| - 1]); }
  }

  /** The columns two rows differ in. */
  function CellsOf(key: string, names: seq<string>, x: seq<string>, y: seq<string>): seq<CellDiff>
    requires |names| == |x| == |y|
  {
    if names == [] then [] else
      var n := |names| - 1;
      CellsOf(key, names[..n], x[..n], y[..n])
      + if x[n] == y[n] then [] else [CellDiff(key, names[n], x[n], y[n])]
  }

  lemma {:induction false} CellsShow(key: string, names: seq<string>, x: seq<string>, y: seq<string>)
    requires |names| == |x| == |y|
    ensures CellsOf(key, names, x, y) == [] <==> x == y
    ensures forall c :: c in CellsOf(key, names, x, y) <==>
              exists i :: 0 <= i < |names| && x[i] != y[i] && c == CellDiff(key, names[i], x[i], y[i])
  {
    if names != [] {
      var n := |names| - 1;
      CellsShow(key, names[..n], x[..n], y[..n]);
      assert x == x[..n] + [x[n]] && y == y[..n] + [y[n]];
    }
  }

  /** Both sides render every value column. */
  ghost predicate Wide(rows: seq<Row>, names: seq<string>) {
    forall r :: r in rows ==> |r.values| == |names|
  }

  /** What a key shows, from the copies each side holds. */
  function Show(key: string, a: seq<Row>, b: seq<Row>, changed: bool, names: seq<string>): Finding {
    if |a| > 1 || |b| > 1 then Duplicate(|a|, |b|)
    else if a == [] && b == [] then Same
    else if b == [] then Missing
    else if a == [] then if changed then InFlight else Extra
    else if a[0].values != b[0].values && |names| == |a[0].values| == |b[0].values|
    then Cells(CellsOf(key, names, a[0].values, b[0].values))
    else Same
  }

  function Classify(s: seq<Row>, t: seq<Row>, changed: set<string>, names: seq<string>): string -> Finding {
    (key: string) => Show(key, Copies(s, key), Copies(t, key), key in changed, names)
  }

  function Add(f: Findings, key: string, finding: Finding): Findings {
    match finding
    case Same => f
    case Missing => f.(missing := f.missing + [key])
    case Extra => f.(extra := f.extra + [key])
    case InFlight => f.(inFlight := f.inFlight + [key])
    case Duplicate(a, b) => f.(duplicates := f.duplicates + [DuplicateKey(key, a, b)])
    case Cells(cells) => f.(cells := f.cells + cells)
  }

  /** The findings of some keys, one after the other. */
  function Collect(show: string -> Finding, keys: seq<string>): Findings {
    if keys == [] then NoFindings()
    else Add(Collect(show, keys[..|keys| - 1]), keys[|keys| - 1], show(keys[|keys| - 1]))
  }

  // -- What the lists mean -------------------------------------------------------------

  lemma {:induction false} CollectMeans(show: string -> Finding, keys: seq<string>)
    ensures var f := Collect(show, keys);
      && (forall k :: k in f.missing <==> k in keys && show(k) == Missing)
      && (forall k :: k in f.extra <==> k in keys && show(k) == Extra)
      && (forall k :: k in f.inFlight <==> k in keys && show(k) == InFlight)
      && (forall d :: d in f.duplicates <==> d.key in keys && show(d.key) == Duplicate(d.source, d.target))
      && (forall c :: c in f.cells <==> exists k :: k in keys && show(k).Cells? && c in show(k).cells)
  {
    if keys != [] {
      CollectMeans(show, keys[..|keys| - 1]);
      assert keys == keys[..|keys| - 1] + [keys[|keys| - 1]];
    }
  }

  lemma {:induction false} CollectAgree(show: string -> Finding, other: string -> Finding, keys: seq<string>)
    requires forall k :: k in keys ==> show(k) == other(k)
    ensures Collect(show, keys) == Collect(other, keys)
  {
    if keys != [] {
      assert keys[|keys| - 1] in keys;
      CollectAgree(show, other, keys[..|keys| - 1]);
    }
  }

  /** The keys of a list that are in a set, in order. */
  function Keep(keys: seq<string>, in_: set<string>): seq<string> {
    if keys == [] then [] else
      Keep(keys[..|keys| - 1], in_) + if keys[|keys| - 1] in in_ then [keys[|keys| - 1]] else []
  }

  lemma {:induction false} KeptAre(keys: seq<string>, in_: set<string>)
    ensures forall k :: k in Keep(keys, in_) <==> k in keys && k in in_
  {
    if keys != [] {
      KeptAre(keys[..|keys| - 1], in_);
      assert keys == keys[..|keys| - 1] + [keys[|keys| - 1]];
    }
  }

  /** Keys that show nothing can be left out. */
  lemma {:induction false} CollectSkips(show: string -> Finding, keys: seq<string>, in_: set<string>)
    requires forall k :: k in keys && k !in in_ ==> show(k) == Same
    ensures Collect(show, keys) == Collect(show, Keep(keys, in_))
  {
    if keys != [] {
      var last := keys[|keys| - 1];
      assert last in keys;
      var rest := Keep(keys[..|keys| - 1], in_);
      CollectSkips(show, keys[..|keys| - 1], in_);
      if last in in_ {
        assert (rest + [last])[..|rest|] == rest;
      } else {
        assert Keep(keys, in_) == rest;
      }
    }
  }

  lemma {:induction false} KeptAscend(keys: seq<string>, in_: set<string>)
    requires Ascending(keys)
    ensures Ascending(Keep(keys, in_))
  {
    if keys != [] {
      var n := |keys| - 1;
      assert keys == keys[..n] + [keys[n]];
      KeptAscend(keys[..n], in_);
      KeptAre(keys[..n], in_);
      AppendAscending(Keep(keys[..n], in_), keys[n], keys[..n]);
    }
  }

  /** An increasing list is determined by its elements. */
  lemma {:induction false} AscendingUnique(a: seq<string>, b: seq<string>)
    requires Ascending(a) && Ascending(b)
    requires forall x :: x in a <==> x in b
    ensures a == b
  {
    if a != [] { OtherHasOne(a, b); }
    if b != [] { OtherHasOne(b, a); }
    if a != [] {
      var m, n := |a| - 1, |b| - 1;
      LastIsGreatest(a, b[n]);
      LastIsGreatest(b, a[m]);
      assert a[m] in b && b[n] in a;
      LeqAntisymmetric(a[m], b[n]);
      forall x ensures x in a[..m] <==> x in b[..n] {
        assert x in a[..m] <==> x in a && x != a[m] by { NotLast(a, x); }
        assert x in b[..n] <==> x in b && x != b[n] by { NotLast(b, x); }
      }
      AscendingUnique(a[..m], b[..n]);
      assert a == a[..m] + [a[m]] && b == b[..n] + [b[n]];
    }
  }

  lemma OtherHasOne(a: seq<string>, b: seq<string>)
    requires a != [] && forall x :: x in a ==> x in b
    ensures b != []
  {
    assert a[0] in b;
  }

  lemma LastIsGreatest(a: seq<string>, x: string)
    requires Ascending(a) && a != []
    ensures x in a ==> Leq(x, a[|a| - 1])
  {
    LeqTotal(x, x);
  }

  lemma NotLast(a: seq<string>, x: string)
    requires Ascending(a) && a != []
    ensures x in a[..|a| - 1] <==> x in a && x != a[|a| - 1]
  {
    if x in a && x != a[|a| - 1] {
      var i :| 0 <= i < |a| && a[i] == x;
      assert a[..|a| - 1][i] == x;
    }
    if x in a[..|a| - 1] {
      var i :| 0 <= i < |a| - 1 && a[..|a| - 1][i] == x;
      assert a[i] == x;
    }
  }

  lemma SortedKept(all: set<string>, in_: set<string>)
    ensures Keep(Sorted(all), in_) == Sorted(all * in_)
  {
    SortedAscends(all);
    SortedAscends(all * in_);
    KeptAscend(Sorted(all), in_);
    KeptAre(Sorted(all), in_);
    AscendingUnique(Keep(Sorted(all), in_), Sorted(all * in_));
  }

  // -- Rows accounted for --------------------------------------------------------------

  /** How many rows more the target has, as a finding tells it. */
  function Delta(f: Finding): int {
    match f
    case Missing => -1
    case Extra => 1
    case InFlight => 1
    case Duplicate(a, b) => b - a
    case Same => 0
    case Cells(_) => 0
  }

  function DuplicateDelta(ds: seq<DuplicateKey>): int {
    if ds == [] then 0 else DuplicateDelta(ds[..|ds| - 1]) + ds[|ds| - 1].target - ds[|ds| - 1].source
  }

  /** What the verdict adds up: extra and in flight, less missing, plus the surplus of duplicated keys. */
  function Accounted(f: Findings): int {
    |f.extra| + |f.inFlight| - |f.missing| + DuplicateDelta(f.duplicates)
  }

  lemma AccountedAdds(f: Findings, key: string, finding: Finding)
    ensures Accounted(Add(f, key, finding)) == Accounted(f) + Delta(finding)
  {
    if finding.Duplicate? {
      var d := DuplicateKey(key, finding.source, finding.target);
      assert (f.duplicates + [d])[..|f.duplicates|] == f.duplicates;
    }
  }

  lemma ShowDelta(key: string, a: seq<Row>, b: seq<Row>, changed: bool, names: seq<string>)
    ensures Delta(Show(key, a, b, changed, names)) == |b| - |a|
  {
  }

  /** The rows of some keys: as many as the keys' copies. */
  lemma {:induction false} CopiesAdd(rows: seq<Row>, key: string, before: set<string>)
    requires key !in before
    ensures CountIn(rows, before + {key}) == CountIn(rows, before) + |Copies(rows, key)|
  {
    if rows != [] { CopiesAdd(rows[..|rows| - 1], key, before); }
  }

  function SetOf(keys: seq<string>): set<string> {
    if keys == [] then {} else SetOf(keys[..|keys| - 1]) + {keys[|keys| - 1]}
  }

  lemma {:induction false} SetOfHas(keys: seq<string>, key: string)
    ensures key in SetOf(keys) <==> key in keys
  {
    if keys != [] {
      SetOfHas(keys[..|keys| - 1], key);
      assert keys == keys[..|keys| - 1] + [keys[|keys| - 1]];
    }
  }

  lemma SetOfSorted(keys: set<string>)
    ensures SetOf(Sorted(keys)) == keys
  {
    forall key ensures key in SetOf(Sorted(keys)) <==> key in keys { SetOfHas(Sorted(keys), key); }
  }

  lemma {:induction false} AccountedRows(s: seq<Row>, t: seq<Row>, changed: set<string>, names: seq<string>, keys: seq<string>)
    requires Ascending(keys)
    ensures Accounted(Collect(Classify(s, t, changed, names), keys)) == CountIn(t, SetOf(keys)) - CountIn(s, SetOf(keys))
  {
    if keys == [] {
      CountNone(s);
      CountNone(t);
    } else {
      var n := |keys| - 1;
      var show, key := Classify(s, t, changed, names), keys[n];
      AccountedRows(s, t, changed, names, keys[..n]);
      NotLast(keys, key);
      SetOfHas(keys[..n], key);
      CopiesAdd(s, key, SetOf(keys[..n]));
      CopiesAdd(t, key, SetOf(keys[..n]));
      AccountedAdds(Collect(show, keys[..n]), key, show(key));
      ShowDelta(key, Copies(s, key), Copies(t, key), key in changed, names);
    }
  }

  // -- Leaving keys out ----------------------------------------------------------------

  /** A key's differing cells name it, and there is at least one. */
  ghost predicate ShowsItsOwn(show: string -> Finding) {
    forall k :: show(k).Cells? ==> show(k).cells != [] && forall c :: c in show(k).cells ==> c.key == k
  }

  lemma LeftOutShows(show: string -> Finding, all: set<string>, in_: set<string>, k: string)
    requires ShowsItsOwn(show) && k in all && k !in in_ && show(k) != Same
    ensures Collect(show, Sorted(in_)) != Collect(show, Sorted(all))
  {
    var found, whole := Collect(show, Sorted(in_)), Collect(show, Sorted(all));
    CollectMeans(show, Sorted(in_));
    CollectMeans(show, Sorted(all));
    match show(k) {
      case Missing => assert k in whole.missing && k !in found.missing;
      case Extra => assert k in whole.extra && k !in found.extra;
      case InFlight => assert k in whole.inFlight && k !in found.inFlight;
      case Duplicate(a, b) => assert DuplicateKey(k, a, b) in whole.duplicates && DuplicateKey(k, a, b) !in found.duplicates;
      case Cells(cells) => assert cells[0] in whole.cells && cells[0] !in found.cells;
    }
  }

  /** Leaving keys out changes nothing exactly when they show nothing. */
  lemma LeavingOutIsHarmlessExactlyWhenSame(show: string -> Finding, all: set<string>, in_: set<string>)
    requires ShowsItsOwn(show) && in_ <= all
    ensures Collect(show, Sorted(in_)) == Collect(show, Sorted(all))
            <==> forall k :: k in all && k !in in_ ==> show(k) == Same
  {
    if k :| k in all && k !in in_ && show(k) != Same {
      LeftOutShows(show, all, in_, k);
    } else {
      CollectSkips(show, Sorted(all), in_);
      SortedKept(all, in_);
      assert all * in_ == in_;
    }
  }

  lemma ClassifyShowsItsOwn(s: seq<Row>, t: seq<Row>, changed: set<string>, names: seq<string>)
    ensures ShowsItsOwn(Classify(s, t, changed, names))
  {
    var show := Classify(s, t, changed, names);
    forall k | show(k).Cells? ensures show(k).cells != [] && forall c :: c in show(k).cells ==> c.key == k {
      CellsShow(k, names, Copies(s, k)[0].values, Copies(t, k)[0].values);
    }
  }
}
