/** Where folding is not enough: queries whose answer changes though nothing their lineage names did. */
module LineageGaps {
  import opened Ids
  import opened Sql
  import opened RowShaping
  import opened NonInterference
  import opened ColumnLineage
  import LineageExact

  /** One row, every cell zero but for one column. */
  function OneRow(column: string, n: int): Relation {
    Relation(1, (i: nat, name: string) => Number(if name == column then n else 0))
  }

  function NotNull(): seq<Value> -> bool {
    (values: seq<Value>) => values != [] && values[0] != Null
  }

  function IsOne(): seq<Value> -> bool {
    (values: seq<Value>) => values == [Number(1)]
  }

  const NO_PROJECT := Project(map[], map[])

  lemma ReadsOne(v: View, t: Tuple, c: Column)
    ensures Reads(v, t, [c]) == [Look(v, t, c)]
  {
    assert [c][..0] == [];
  }

  // -- WHERE on a left-joined side -----------------------------------------------------

  /** `SELECT e FROM left LEFT JOIN right ON left.on = 1 WHERE right.kept IS NOT NULL`. */
  function FilterOnTheRight(left: string, right: string, on: string, kept: string, e: Expr): Select {
    Select("left", Raw(left), [Join(Left, "right", Raw(right), Some(Cond([Column("left", on)], IsOne())))],
           Some(Cond([Column("right", kept)], NotNull())), EachRow, None, false, [Projection("e", e)])
  }

  function LeftRight(left: string, right: string, on: string, n: int): Database {
    Database(map[right := OneRow("", 0), left := OneRow(on, n)], map[])
  }

  function LeftRightView(on: string, n: int): View {
    map["left" := OneRow(on, n), "right" := OneRow("", 0)]
  }

  lemma LeftRightViewOf(left: string, right: string, on: string, kept: string, e: Expr, n: int)
    requires left != right
    ensures ViewOf(NO_PROJECT, 0, FilterOnTheRight(left, right, on, kept, e), LeftRight(left, right, on, n))
         == LeftRightView(on, n)
  {
    var q := FilterOnTheRight(left, right, on, kept, e);
    assert q.joins[0].side == "right";
    assert Sides(q) == {"left", "right"};
    assert IndexOf(q.joins, "right") == Some(0);
  }

  lemma MatchesOne(v: View, t: Tuple, j: Join, holds: bool)
    requires Holds(v, t[j.side := Some(0)], j.on) == holds
    ensures Matches(v, t, j, 1) == if holds then [0] else []
  {
    assert Matches(v, t, j, 0) == [];
  }

  /** One row joined to a side of one row. */
  lemma JoinedToOne(v: View, t: Tuple, j: Join, holds: bool)
    requires j.kind.Left? && Rows(v, j.side) == 1 && Holds(v, t[j.side := Some(0)], j.on) == holds
    ensures JoinOne(v, [t], j) == [t[j.side := if holds then Some(0) else None]]
  {
    MatchesOne(v, t, j, holds);
    assert WithEach(t, j.side, []) == [];
    assert Extend(v, t, j) == [t[j.side := if holds then Some(0) else None]] by {
      if holds { assert [0 as nat][..0] == []; }
    }
    assert [t][..0] == [] && ExtendAll(v, [], j) == [];
  }

  lemma PairJoined(v: View, q: Select, on: string, n: int)
    requires v == LeftRightView(on, n) && q.side == "left" && |q.joins| == 1
    requires q.joins[0] == Join(Left, "right", q.joins[0].source, Some(Cond([Column("left", on)], IsOne())))
    ensures Joined(v, q, 1) == [map["left" := Some(0), "right" := if n == 1 then Some(0) else None]]
  {
    var t: Tuple := map["left" := Some(0)];
    LineageExact.OneRowOf("left");
    assert Joined(v, q, 0) == [t];
    ReadsOne(v, t["right" := Some(0)], Column("left", on));
    JoinedToOne(v, t, q.joins[0], n == 1);
  }

  lemma FilterRows(left: string, right: string, on: string, kept: string, e: Expr, n: int)
    requires left != right
    ensures Run(NO_PROJECT, 0, FilterOnTheRight(left, right, on, kept, e), LeftRight(left, right, on, n)).rows
         == if n == 1 then 1 else 0
  {
    var q, v := FilterOnTheRight(left, right, on, kept, e), LeftRightView(on, n);
    LeftRightViewOf(left, right, on, kept, e, n);
    PairJoined(v, q, on, n);
    var u: Tuple := Joined(v, q, 1)[0];
    ReadsOne(v, u, Column("right", kept));
    FilteredOne(v, u, q.filter);
  }

  lemma OneGroup(v: View, u: Tuple)
    ensures GroupsOf(v, [], EachRow) == [] && GroupsOf(v, [u], EachRow) == [Group(Null, [u])]
  {
    assert [u][..0] == [];
  }

  lemma AllGroups(v: View, g: Group)
    ensures Filtering(v, [], None) == [] && Filtering(v, [g], None) == [g]
  {
    assert [g][..0] == [];
  }

  /** One row, filtered and grouped on its own. */
  lemma FilteredOne(v: View, u: Tuple, filter: Option<Cond>)
    ensures Filtered(v, [u], filter) == if Holds(v, u, filter) then [u] else []
    ensures |Filtering(v, GroupsOf(v, Filtered(v, [u], filter), EachRow), None)| == if Holds(v, u, filter) then 1 else 0
  {
    assert [u][..0] == [];
    OneGroup(v, u);
    AllGroups(v, Group(Null, [u]));
  }

  /** The rows of the projection change with `on`, which its lineage does not name. */
  lemma FilteringOnTheRightEscapes(left: string, right: string, on: string, kept: string, e: Expr)
    requires left != right
    requires forall c :: c in e.columns ==> c.side == "left" && c.name != on
    ensures var q, d, d' := FilterOnTheRight(left, right, on, kept, e), LeftRight(left, right, on, 1), LeftRight(left, right, on, 0);
      && Aligned(d, d') && SameRaw(d, d', Lineage(NO_PROJECT, 0, q, "e"))
      && Run(NO_PROJECT, 0, q, d).rows != Run(NO_PROJECT, 0, q, d').rows
  {
    FilterRows(left, right, on, kept, e, 1);
    FilterRows(left, right, on, kept, e, 0);
    NotInLineage(left, right, on, kept, e);
    OnlyOn(left, right, on);
  }

  lemma OnlyOn(left: string, right: string, on: string)
    requires left != right
    ensures forall columns: set<RawColumn> :: RawColumn(left, on) !in columns
              ==> SameRaw(LeftRight(left, right, on, 1), LeftRight(left, right, on, 0), columns)
  {
  }

  lemma NotInLineage(left: string, right: string, on: string, kept: string, e: Expr)
    requires left != right
    requires forall c :: c in e.columns ==> c.side == "left" && c.name != on
    ensures RawColumn(left, on) !in Lineage(NO_PROJECT, 0, FilterOnTheRight(left, right, on, kept, e), "e")
  {
    var q := FilterOnTheRight(left, right, on, kept, e);
    LeftColumnsAre(q.joins, SidesOf(e.columns));
    assert JoinColumns(q.joins) == JoinColumns(q.joins[..0]);
    assert IndexOf(q.joins, "right") == Some(0);
    forall c | c in ColumnsOf(q, "e") ensures RawColumn(left, on) !in Through(NO_PROJECT, 0, q, c) {
      assert c in e.columns || c == Column("right", kept);
    }
  }

  // -- An ON that reads another left-joined side ---------------------------------------

  /** `SELECT right.shown AS e FROM left LEFT JOIN middle ON left.on = 1 LEFT JOIN right ON middle.key IS NOT NULL`. */
  function Chain(left: string, middle: string, right: string, on: string, key: string, shown: string): Select {
    Select("left", Raw(left),
           [Join(Left, "middle", Raw(middle), Some(Cond([Column("left", on)], IsOne()))),
            Join(Left, "right", Raw(right), Some(Cond([Column("middle", key)], NotNull())))],
           None, EachRow, None, false, [Projection("e", Expr([Column("right", shown)], First()))])
  }

  function First(): seq<seq<Value>> -> Value {
    (rows: seq<seq<Value>>) => if |rows| == 1 && |rows[0]| == 1 then rows[0][0] else Null
  }

  function ThreeTables(left: string, middle: string, right: string, on: string, n: int): Database {
    Database(map[middle := OneRow("", 0), right := OneRow("", 0), left := OneRow(on, n)], map[])
  }

  function ThreeSides(on: string, n: int): View {
    map["left" := OneRow(on, n), "middle" := OneRow("", 0), "right" := OneRow("", 0)]
  }

  lemma ThreeSidesOf(left: string, middle: string, right: string, on: string, key: string, shown: string, n: int)
    requires left != middle && left != right
    ensures ViewOf(NO_PROJECT, 0, Chain(left, middle, right, on, key, shown), ThreeTables(left, middle, right, on, n))
         == ThreeSides(on, n)
  {
    var q := Chain(left, middle, right, on, key, shown);
    assert q.joins[0].side == "middle" && q.joins[1].side == "right";
    assert Sides(q) == {"left", "middle", "right"};
    assert q.joins[..1] == [q.joins[0]];
    assert IndexOf(q.joins, "middle") == Some(0) && IndexOf(q.joins, "right") == Some(1);
  }

  lemma ChainJoined(v: View, q: Select, on: string, key: string, n: int)
    requires v == ThreeSides(on, n) && q.side == "left" && |q.joins| == 2
    requires q.joins[0] == Join(Left, "middle", q.joins[0].source, Some(Cond([Column("left", on)], IsOne())))
    requires q.joins[1] == Join(Left, "right", q.joins[1].source, Some(Cond([Column("middle", key)], NotNull())))
    ensures var found := if n == 1 then Some(0) else None;
      Joined(v, q, 2) == [map["left" := Some(0), "middle" := found, "right" := found]]
  {
    var found: Option<nat> := if n == 1 then Some(0) else None;
    var t: Tuple := map["left" := Some(0)];
    var u := t["middle" := found];
    LineageExact.OneRowOf("left");
    assert Joined(v, q, 0) == [t];
    ReadsOne(v, t["middle" := Some(0)], Column("left", on));
    JoinedToOne(v, t, q.joins[0], n == 1);
    assert Joined(v, q, 1) == [u];
    ReadsOne(v, u["right" := Some(0)], Column("middle", key));
    JoinedToOne(v, u, q.joins[1], n == 1);
  }

  lemma CellOfOne(v: View, q: Select, u: Tuple, c: Column)
    requires Joined(v, q, |q.joins|) == [u]
    requires q.filter == None && q.grouping == EachRow && q.having == None && !q.distinct
    requires q.projections == [Projection("e", Expr([c], First()))]
    ensures CellOf(v, q, 0, "e") == Look(v, u, c)
  {
    OneOutput(v, q, u);
    ReadsOne(v, u, c);
    assert [u][..0] == [] && ReadsAll(v, [], [c]) == [];
    assert ReadsAll(v, [u], [c]) == [[Look(v, u, c)]];
  }

  lemma ChainCell(left: string, middle: string, right: string, on: string, key: string, shown: string, n: int)
    requires left != middle && left != right
    ensures Run(NO_PROJECT, 0, Chain(left, middle, right, on, key, shown), ThreeTables(left, middle, right, on, n)).cell(0, "e")
         == if n == 1 then Number(0) else Null
  {
    var q, v := Chain(left, middle, right, on, key, shown), ThreeSides(on, n);
    ThreeSidesOf(left, middle, right, on, key, shown, n);
    ChainJoined(v, q, on, key, n);
    CellOfOne(v, q, Joined(v, q, 2)[0], Column("right", shown));
  }

  lemma OneOutput(v: View, q: Select, u: Tuple)
    requires Joined(v, q, |q.joins|) == [u]
    requires q.filter == None && q.grouping == EachRow && q.having == None && !q.distinct
    ensures Output(v, q) == [Group(Null, [u])]
  {
    FilteredOne(v, u, None);
    OneGroup(v, u);
    AllGroups(v, Group(Null, [u]));
  }

  lemma NoJoinColumns(joins: seq<Join>)
    requires |joins| == 2 && joins[0].kind.Left? && joins[1].kind.Left?
    ensures JoinColumns(joins) == []
  {
    assert joins[..1] == [joins[0]];
    assert JoinColumns([joins[0]]) == JoinColumns([joins[0]][..0]) == [];
  }

  /** The column takes on the second ON, not the first. */
  lemma ChainColumns(left: string, middle: string, right: string, on: string, key: string, shown: string)
    ensures forall c :: c in ColumnsOf(Chain(left, middle, right, on, key, shown), "e")
                        ==> c == Column("right", shown) || c == Column("middle", key)
  {
    var q, e := Chain(left, middle, right, on, key, shown), [Column("right", shown)];
    NoJoinColumns(q.joins);
    LeftColumnsAre(q.joins, SidesOf(e));
    forall c | c in ColumnsOf(q, "e") && c !in e ensures c == Column("middle", key) {
      var j :| j in q.joins && j.kind.Left? && j.side in SidesOf(e) && c in CondColumns(j.on);
      assert j == q.joins[1];
    }
  }

  lemma ChainLineage(left: string, middle: string, right: string, on: string, key: string, shown: string)
    requires left != middle && left != right
    ensures RawColumn(left, on) !in Lineage(NO_PROJECT, 0, Chain(left, middle, right, on, key, shown), "e")
  {
    var q := Chain(left, middle, right, on, key, shown);
    ChainColumns(left, middle, right, on, key, shown);
    assert q.joins[..1] == [q.joins[0]];
    assert IndexOf(q.joins, "middle") == Some(0) && IndexOf(q.joins, "right") == Some(1);
    forall c | c in ColumnsOf(q, "e") ensures RawColumn(left, on) !in Through(NO_PROJECT, 0, q, c) {
    }
  }

  lemma ThreeTablesDiffer(left: string, middle: string, right: string, on: string, columns: set<RawColumn>)
    requires left != middle && left != right && RawColumn(left, on) !in columns
    ensures var d, d' := ThreeTables(left, middle, right, on, 1), ThreeTables(left, middle, right, on, 0);
      Aligned(d, d') && SameRaw(d, d', columns)
  {
    var d, d' := ThreeTables(left, middle, right, on, 1), ThreeTables(left, middle, right, on, 0);
    forall c | c in columns && c.table in d.raw ensures SameCells(d.raw[c.table], d'.raw[c.table], c.column) {
      assert c != RawColumn(left, on);
    }
  }

  /** The value changes with `on`, which its lineage does not name. */
  lemma ChainingLeftJoinsEscapes(left: string, middle: string, right: string, on: string, key: string, shown: string)
    requires left != middle && left != right
    ensures var q := Chain(left, middle, right, on, key, shown);
      var d, d' := ThreeTables(left, middle, right, on, 1), ThreeTables(left, middle, right, on, 0);
      && Aligned(d, d') && SameRaw(d, d', Lineage(NO_PROJECT, 0, q, "e"))
      && Run(NO_PROJECT, 0, q, d).cell(0, "e") != Run(NO_PROJECT, 0, q, d').cell(0, "e")
  {
    ChainCell(left, middle, right, on, key, shown, 1);
    ChainCell(left, middle, right, on, key, shown, 0);
    ChainLineage(left, middle, right, on, key, shown);
    ThreeTablesDiffer(left, middle, right, on, Lineage(NO_PROJECT, 0, Chain(left, middle, right, on, key, shown), "e"));
  }

  // -- Counting a filtered subquery ----------------------------------------------------

  /** `SELECT e AS x FROM t WHERE t.flag = 1`. */
  function Kept(table: string, flag: string, e: Expr): Select {
    Select("t", Raw(table), [], Some(Cond([Column("t", flag)], IsOne())), EachRow, None, false, [Projection("x", e)])
  }

  /** `SELECT count(*) AS n FROM (...) AS s`. */
  function CountKept(table: string, flag: string, e: Expr): Select {
    Select("s", Sub(Kept(table, flag, e)), [], None, AllRows, None, false, [Projection("n", Expr([], LineageExact.Counting()))])
  }

  function OneTable(table: string, flag: string, n: int): Database {
    Database(map[table := OneRow(flag, n)], map[])
  }

  lemma KeptView(table: string, flag: string, e: Expr, n: int)
    ensures ViewOf(NO_PROJECT, 0, Kept(table, flag, e), OneTable(table, flag, n)) == map["t" := OneRow(flag, n)]
  {
    assert Sides(Kept(table, flag, e)) == {"t"};
  }

  lemma KeptOutput(v: View, q: Select, flag: string, n: int)
    requires v == map["t" := OneRow(flag, n)] && q.side == "t" && q.joins == [] && q.grouping == EachRow && q.having == None
    requires q.filter == Some(Cond([Column("t", flag)], IsOne())) && !q.distinct
    ensures |Output(v, q)| == if n == 1 then 1 else 0
  {
    var u: Tuple := map["t" := Some(0)];
    LineageExact.OneRowOf("t");
    assert Joined(v, q, 0) == [u];
    ReadsOne(v, u, Column("t", flag));
    FilteredOne(v, u, q.filter);
  }

  lemma KeptRows(table: string, flag: string, e: Expr, n: int)
    ensures Run(NO_PROJECT, 0, Kept(table, flag, e), OneTable(table, flag, n)).rows == if n == 1 then 1 else 0
  {
    KeptView(table, flag, e, n);
    KeptOutput(map["t" := OneRow(flag, n)], Kept(table, flag, e), flag, n);
  }

  lemma {:induction false} CountIsRows(v: View, tuples: seq<Tuple>)
    ensures Filtered(v, tuples, None) == tuples && |ReadsAll(v, tuples, [])| == |tuples|
  {
    if tuples != [] {
      CountIsRows(v, tuples[..|tuples| - 1]);
    }
  }

  lemma {:induction false} FirstRowsAre(side: string, n: nat)
    ensures |FirstRows(side, n)| == n
  {
    if n > 0 { FirstRowsAre(side, n - 1); }
  }

  lemma CountCell(v: View, q: Select)
    requires q.joins == [] && q.filter == None && q.grouping == AllRows && q.having == None && !q.distinct
    requires q.projections == [Projection("n", Expr([], LineageExact.Counting()))]
    ensures CellOf(v, q, 0, "n") == Number(Rows(v, q.side))
  {
    var tuples := FirstRows(q.side, Rows(v, q.side));
    assert Joined(v, q, 0) == tuples;
    FirstRowsAre(q.side, Rows(v, q.side));
    CountIsRows(v, tuples);
    var g := Group(Null, tuples);
    assert GroupsOf(v, tuples, AllRows) == [g];
    AllGroups(v, g);
    assert Output(v, q) == [g];
  }

  lemma CountView(table: string, flag: string, e: Expr, d: Database)
    ensures Rows(ViewOf(NO_PROJECT, 0, CountKept(table, flag, e), d), "s") == Run(NO_PROJECT, 0, Kept(table, flag, e), d).rows
  {
    var q := CountKept(table, flag, e);
    assert "s" in Sides(q) && q.side == "s";
    assert ViewOf(NO_PROJECT, 0, q, d)["s"] == RelationOf(NO_PROJECT, 0, Sub(Kept(table, flag, e)), d);
  }

  lemma CountRun(table: string, flag: string, e: Expr, n: int)
    ensures Run(NO_PROJECT, 0, CountKept(table, flag, e), OneTable(table, flag, n)).cell(0, "n")
         == Number(if n == 1 then 1 else 0)
  {
    var q, d := CountKept(table, flag, e), OneTable(table, flag, n);
    KeptRows(table, flag, e, n);
    CountView(table, flag, e, d);
    CountCell(ViewOf(NO_PROJECT, 0, q, d), q);
  }

  /** The count changes with `flag`, though its lineage is empty. */
  lemma CountingASubqueryEscapes(table: string, flag: string, e: Expr)
    ensures var q, d, d' := CountKept(table, flag, e), OneTable(table, flag, 1), OneTable(table, flag, 0);
      && Aligned(d, d') && Lineage(NO_PROJECT, 0, q, "n") == {}
      && Run(NO_PROJECT, 0, q, d).cell(0, "n") == Number(1) && Run(NO_PROJECT, 0, q, d').cell(0, "n") == Number(0)
  {
    CountRun(table, flag, e, 1);
    CountRun(table, flag, e, 0);
    assert ColumnsOf(CountKept(table, flag, e), "n") == [];
  }
}
