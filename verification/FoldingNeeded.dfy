/** Nothing is folded in vain: for every folded column some query of the same shape tells apart two views alike in all others. */
module FoldingNeeded {
  import opened Ids
  import opened Sql
  import opened RowShaping
  import opened NonInterference
  import opened ColumnLineage
  import opened LineageExact
  import opened DistinctExact
  import opened DerivedExact
  import LineageGaps

  // -- What is folded, part by part --------------------------------------------------------

  ghost predicate ReadBy(cond: Option<Cond>, c: Column) {
    cond.Some? && c in cond.value.columns
  }

  /** A projection takes on a column when it reads it, a clause or the ON of a join that is not a LEFT JOIN does, DISTINCT
      compares a projection that does, or the ON of a LEFT JOIN whose side it reads does. */
  ghost predicate TakesOn(q: Select, columns: seq<Column>, c: Column) {
    || c in columns
    || ReadBy(q.filter, c)
    || (q.grouping.ByKey? && c in q.grouping.key.columns)
    || (q.having.Some? && c in q.having.value.columns)
    || (exists j :: j in q.joins && j.kind != Left && ReadBy(j.on, c))
    || (q.distinct && exists p :: p in q.projections && c in p.expr.columns)
    || (exists j, d :: j in q.joins && j.kind == Left && ReadBy(j.on, c) && d in columns && d.side == j.side)
  }

  lemma {:induction false} JoinColumnsAre(joins: seq<Join>, c: Column)
    ensures c in JoinColumns(joins) <==> exists j :: j in joins && j.kind != Left && ReadBy(j.on, c)
  {
    if joins != [] {
      var rest, last := joins[..|joins| - 1], joins[|joins| - 1];
      assert joins == rest + [last];
      JoinColumnsAre(rest, c);
      assert last in joins && forall j :: j in rest ==> j in joins;
    }
  }

  lemma {:induction false} SelectColumnsAre(projections: seq<Projection>, c: Column)
    ensures c in SelectColumns(projections) <==> exists p :: p in projections && c in p.expr.columns
  {
    if projections != [] {
      var rest, last := projections[..|projections| - 1], projections[|projections| - 1];
      assert projections == rest + [last];
      SelectColumnsAre(rest, c);
      assert last in projections && forall p :: p in rest ==> p in projections;
    }
  }

  /** The columns folded are exactly those. */
  lemma FoldedAreThose(q: Select, columns: seq<Column>, c: Column)
    ensures c in Folded(q, columns) <==> TakesOn(q, columns, c)
  {
    JoinColumnsAre(q.joins, c);
    SelectColumnsAre(q.projections, c);
    LeftColumnsAre(q.joins, SidesOf(columns));
    if j, d :| j in q.joins && j.kind == Left && ReadBy(j.on, c) && d in columns && d.side == j.side {
      assert j.side in SidesOf(columns);
    }
  }

  // -- Needed ------------------------------------------------------------------------------

  /** The same rows a side, and the same cells but for one column. */
  ghost predicate AgreeBut(v: View, w: View, c: Column) {
    && v.Keys == w.Keys
    && forall side :: side in v ==>
         && v[side].rows == w[side].rows
         && forall i: nat, name :: i < v[side].rows && Column(side, name) != c ==> v[side].cell(i, name) == w[side].cell(i, name)
  }

  /** A query of the same shape tells two such views apart, which match what is not seen at most once. */
  ghost predicate TellsBy(q: Select, name: string, c: Column, r: Select, v: View, w: View) {
    && SameShape(q, r) && AgreeBut(v, w, c)
    && UnseenAreSingle(v, r, Seen(r, FoldedOf(q, name)), |r.joins|)
    && UnseenAreSingle(w, r, Seen(r, FoldedOf(q, name)), |r.joins|)
    && !SameAnswer(v, w, r, name)
  }

  ghost predicate Needed(q: Select, name: string, c: Column) {
    exists r, v, w :: TellsBy(q, name, c, r, v, w)
  }

  // -- The views -----------------------------------------------------------------------------

  /** One row a side but two of one; every cell zero but those of one column, which are `n`, or tell the row. */
  function Cells(q: Select, two: string, c: Column, of: nat -> int): View {
    map side | side in Sides(q) ::
      Relation(if side == two then 2 else 1, (i: nat, name: string) => if Column(side, name) == c then Number(of(i)) else Number(0))
  }

  function All(n: int): nat -> int { (i: nat) => n }

  function Each(): nat -> int { (i: nat) => i }

  lemma CellsAgreeBut(q: Select, two: string, c: Column, a: nat -> int, b: nat -> int)
    ensures AgreeBut(Cells(q, two, c, a), Cells(q, two, c, b), c)
  {
  }

  lemma CellsRows(q: Select, two: string, c: Column, of: nat -> int, side: string)
    requires side in Sides(q)
    ensures Rows(Cells(q, two, c, of), side) == if side == two then 2 else 1
  {
  }

  lemma {:induction false} CellsAreSingle(q: Select, r: Select, two: string, c: Column, of: nat -> int, seen: set<string>, k: nat)
    requires SameShape(q, r) && k <= |r.joins| && (two in Sides(q) ==> two in seen)
    ensures UnseenAreSingle(Cells(q, two, c, of), r, seen, k)
  {
    if k > 0 {
      var e: nat := k - 1;
      CellsAreSingle(q, r, two, c, of, seen, e);
      var v, j := Cells(q, two, c, of), r.joins[e];
      if j.side !in seen {
        assert SameJoin(q.joins[e], j) && q.joins[e].side in Sides(q);
        CellsRows(q, two, c, of, j.side);
        OneRowIsSingle(v, Joined(v, r, e), j);
      }
    }
  }

  /** What is left to show of two such views. */
  lemma CellsTell(q: Select, name: string, two: string, c: Column, a: nat -> int, b: nat -> int, r: Select)
    requires SameShape(q, r) && (two in Sides(q) ==> two in Seen(q, FoldedOf(q, name)))
    requires !SameAnswer(Cells(q, two, c, a), Cells(q, two, c, b), r, name)
    ensures Needed(q, name, c)
  {
    SameSeen(q, r, FoldedOf(q, name));
    CellsAgreeBut(q, two, c, a, b);
    CellsAreSingle(q, r, two, c, a, Seen(q, FoldedOf(q, name)), |r.joins|);
    CellsAreSingle(q, r, two, c, b, Seen(q, FoldedOf(q, name)), |r.joins|);
    assert TellsBy(q, name, c, r, Cells(q, two, c, a), Cells(q, two, c, b));
  }

  // -- Joining them with everything open -------------------------------------------------

  /** The joined row of every side's first row, but of row `i` of one side. */
  function Whole(q: Select, k: nat, two: string, i: nat): Tuple
    requires k <= |q.joins|
  {
    var side := if k == 0 then q.side else q.joins[k - 1].side;
    var row := Some(if side == two then i else 0);
    if k == 0 then map[side := row] else Whole(q, k - 1, two, i)[side := row]
  }

  lemma {:induction false} WholeHas(q: Select, k: nat, two: string, i: nat, side: string)
    requires k <= |q.joins| && Before(q, k, side)
    ensures RowOf(Whole(q, k, two, i), side) == Some(if side == two then i else 0)
  {
    if k > 0 && q.joins[k - 1].side != side {
      if side != q.side { var e :| 0 <= e < k && e < |q.joins| && q.joins[e].side == side; }
      WholeHas(q, k - 1, two, i, side);
    }
  }

  ghost function Wholes(q: Select, k: nat, two: string): seq<Tuple>
    requires k <= |q.joins|
  {
    if Before(q, k, two) then [Whole(q, k, two, 0), Whole(q, k, two, 1)] else [Whole(q, k, two, 0)]
  }

  lemma {:induction false} NotYetTwo(q: Select, k: nat, two: string)
    requires k <= |q.joins| && !Before(q, k, two)
    ensures Whole(q, k, two, 0) == Whole(q, k, two, 1)
  {
    if k > 0 { NotYetTwo(q, k - 1, two); }
  }

  /** A join that matches everything, as far as its side's rows go. */
  ghost predicate IsOpen(q: Select, k: nat, two: string, v: View, j: Join)
    requires k < |q.joins|
  {
    j.side == q.joins[k].side && Matching(j.on) && Rows(v, j.side) == if j.side == two then 2 else 1
  }

  lemma MatchesBoth(v: View, t: Tuple, j: Join)
    requires Matching(j.on)
    ensures Matches(v, t, j, 2) == [0, 1]
  {
    assert Matches(v, t, j, 0) == [];
    assert Matches(v, t, j, 1) == [0];
  }

  lemma WithBoth(t: Tuple, side: string)
    ensures WithEach(t, side, [0, 1]) == [t[side := Some(0)], t[side := Some(1)]]
  {
    assert [0 as nat, 1][..1] == [0];
    WithOne(t, side, 0);
  }

  lemma TrueJoinBoth(v: View, t: Tuple, j: Join)
    requires Matching(j.on) && Rows(v, j.side) == 2
    ensures JoinOne(v, [t], j) == [t[j.side := Some(0)], t[j.side := Some(1)]]
  {
    MatchesBoth(v, t, j);
    WithBoth(t, j.side);
    ExtendOne(v, t, j);
    NothingUnmatched(v, [t], j, 2);
  }

  lemma SideNext(q: Select, k: nat, two: string, v: View, j: Join)
    requires Proper(q) && k < |q.joins| && IsOpen(q, k, two, v, j) && j.side == two
    ensures JoinOne(v, Wholes(q, k, two), j) == Wholes(q, k + 1, two)
  {
    BeforeNext(q, two, k);
    NotYetTwo(q, k, two);
    TrueJoinBoth(v, Whole(q, k, two, 0), j);
  }

  lemma OtherNext(q: Select, k: nat, two: string, v: View, j: Join)
    requires Proper(q) && k < |q.joins| && IsOpen(q, k, two, v, j) && j.side != two
    ensures JoinOne(v, Wholes(q, k, two), j) == Wholes(q, k + 1, two)
  {
    BeforeNext(q, two, k);
    if Before(q, k, two) {
      TrueJoinTwo(v, Whole(q, k, two, 0), Whole(q, k, two, 1), j);
    } else {
      TrueJoinOne(v, Whole(q, k, two, 0), j);
    }
  }

  lemma WholesNext(q: Select, k: nat, two: string, v: View, j: Join)
    requires Proper(q) && k < |q.joins| && IsOpen(q, k, two, v, j)
    ensures JoinOne(v, Wholes(q, k, two), j) == Wholes(q, k + 1, two)
  {
    if j.side == two { SideNext(q, k, two, v, j); } else { OtherNext(q, k, two, v, j); }
  }

  lemma WholesFirst(q: Select, two: string, v: View)
    requires Rows(v, q.side) == if q.side == two then 2 else 1
    ensures FirstRows(q.side, Rows(v, q.side)) == Wholes(q, 0, two)
  {
    assert FirstRows(q.side, 0) == [];
    assert FirstRows(q.side, 1) == [map[q.side := Some(0)]];
  }

  /** The first `k` joins of a query of the same sides are open. */
  ghost predicate OpenTo(q: Select, two: string, v: View, r: Select, k: nat) {
    && r.side == q.side && |r.joins| == |q.joins| && k <= |q.joins|
    && Rows(v, q.side) == (if q.side == two then 2 else 1)
    && forall e: nat :: e < k ==> IsOpen(q, e, two, v, r.joins[e])
  }

  ghost predicate JoinsWhole(q: Select, two: string, v: View, r: Select, k: nat) {
    k <= |q.joins| && k <= |r.joins| && Joined(v, r, k) == Wholes(q, k, two)
  }

  lemma NextJoinsWhole(q: Select, two: string, v: View, r: Select, e: nat)
    requires Proper(q) && e < |q.joins| && e < |r.joins| && IsOpen(q, e, two, v, r.joins[e]) && JoinsWhole(q, two, v, r, e)
    ensures JoinsWhole(q, two, v, r, e + 1)
  {
    WholesNext(q, e, two, v, r.joins[e]);
    JoinedStep(v, r, e, Wholes(q, e, two), Wholes(q, e + 1, two));
  }

  lemma FirstJoinsWhole(q: Select, two: string, v: View, r: Select)
    requires OpenTo(q, two, v, r, 0)
    ensures JoinsWhole(q, two, v, r, 0)
  {
    WholesFirst(q, two, v);
  }

  lemma {:induction false} JoinsWholeUpTo(q: Select, two: string, v: View, r: Select, k: nat)
    requires JoinsWhole(q, two, v, r, 0)
    requires forall e: nat :: e < k ==> JoinsWhole(q, two, v, r, e) ==> JoinsWhole(q, two, v, r, e + 1)
    ensures JoinsWhole(q, two, v, r, k)
  {
    if k > 0 {
      var e: nat := k - 1;
      JoinsWholeUpTo(q, two, v, r, e);
    }
  }

  lemma JoinedWhole(q: Select, two: string, v: View, r: Select, k: nat)
    requires Proper(q) && OpenTo(q, two, v, r, k)
    ensures Joined(v, r, k) == Wholes(q, k, two)
  {
    FirstJoinsWhole(q, two, v, r);
    forall e: nat | e < k ensures JoinsWhole(q, two, v, r, e) ==> JoinsWhole(q, two, v, r, e + 1) {
      if JoinsWhole(q, two, v, r, e) { NextJoinsWhole(q, two, v, r, e); }
    }
    JoinsWholeUpTo(q, two, v, r, k);
  }

  lemma CellsAreOpen(q: Select, two: string, c: Column, of: nat -> int, at: nat, p: nat, k: nat)
    requires k <= |q.joins| && k <= at
    ensures OpenTo(q, two, Cells(q, two, c, of), Opened(q, at, p), k)
  {
    var v, r := Cells(q, two, c, of), Opened(q, at, p);
    CellsRows(q, two, c, of, q.side);
    forall e: nat | e < k ensures IsOpen(q, e, two, v, r.joins[e]) {
      JoinIsMatching(q, at, p, e);
      assert q.joins[e].side in Sides(q);
      CellsRows(q, two, c, of, q.joins[e].side);
    }
  }

  lemma LooksWhole(q: Select, two: string, c: Column, of: nat -> int, k: nat, i: nat, d: Column)
    requires k <= |q.joins| && Before(q, k, d.side) && (i == 0 || i == 1)
    ensures Look(Cells(q, two, c, of), Whole(q, k, two, i), d)
         == Number(if d == c then of(if c.side == two then i else 0) else 0)
  {
    WholeHas(q, k, two, i, d.side);
    BeforeIsASide(q, k, d.side);
    assert Column(d.side, d.name) == d;
  }

  lemma AllSidesAreBefore(q: Select, side: string)
    ensures side in Sides(q) <==> Before(q, |q.joins|, side)
  {
  }

  // -- What comes out ----------------------------------------------------------------------

  /** Past its filter a query counts: one group a row, or one of all, and every projection counts the group's rows. */
  ghost predicate CountsAfter(q: Select, r: Select) {
    && r.distinct == q.distinct && r.having == Opened(q, 0, 0).having && r.grouping == Opened(q, 0, 0).grouping
    && r.projections == Counts(q.projections)
  }

  lemma GroupsCounted(v: View, q: Select, r: Select, ts: seq<Tuple>)
    requires CountsAfter(q, r)
    ensures var groups := GroupsOf(v, ts, r.grouping);
      && Filtering(v, groups, r.having) == groups
      && if q.grouping.EachRow? then |groups| == |ts|
         else groups == if q.grouping.ByKey? && ts == [] then [] else [Group(Null, ts)]
  {
    AllShown(v, GroupsOf(v, ts, r.grouping), r.having);
    if q.grouping.EachRow? { OneGroupEach(v, ts); }
    if q.grouping.ByKey? && ts != [] { OneKey(v, ts, r.grouping.key); }
  }

  lemma {:induction false} SomeAreDistinct(v: View, groups: seq<Group>, projections: seq<Projection>)
    ensures Sql.Distinct(v, groups, projections) == [] <==> groups == []
  {
    if groups != [] {
      SomeAreDistinct(v, groups[..|groups| - 1], projections);
      if |groups| == 1 {
        assert groups == [groups[0]];
        OneDistinct(v, groups[0], projections);
      }
    }
  }

  /** One row a joined row, or one that counts them. */
  ghost predicate Counted(q: Select, ts: seq<Tuple>, out: seq<Group>) {
    if q.grouping.EachRow? then if q.distinct then out == [] <==> ts == [] else |out| == |ts|
    else out == if q.grouping.ByKey? && ts == [] then [] else [Group(Null, ts)]
  }

  lemma OutputCounted(v: View, q: Select, r: Select, ts: seq<Tuple>)
    requires CountsAfter(q, r) && Filtered(v, Joined(v, r, |r.joins|), r.filter) == ts
    ensures Counted(q, ts, Output(v, r))
  {
    GroupsCounted(v, q, r, ts);
    if q.distinct { DistinctCounted(v, q, ts, GroupsOf(v, ts, r.grouping), r.projections); }
  }

  lemma DistinctCounted(v: View, q: Select, ts: seq<Tuple>, groups: seq<Group>, projections: seq<Projection>)
    requires q.distinct
    requires if q.grouping.EachRow? then |groups| == |ts|
             else groups == if q.grouping.ByKey? && ts == [] then [] else [Group(Null, ts)]
    ensures Counted(q, ts, Sql.Distinct(v, groups, projections))
  {
    SomeAreDistinct(v, groups, projections);
    if !q.grouping.EachRow? && groups != [] { OneDistinct(v, Group(Null, ts), projections); }
  }

  lemma CountedCell(v: View, q: Select, r: Select, ts: seq<Tuple>, name: string)
    requires r.projections == Counts(q.projections) && Output(v, r) == [Group(Null, ts)]
    requires Find(q.projections, name).Some?
    ensures Answer(v, r).rows == 1 && Answer(v, r).cell(0, name) == Number(|ts|)
  {
    var e := Find(q.projections, name).value;
    CountsAreSame(q.projections);
    SameFind(q.projections, r.projections, name);
    CountAt(q.projections, e);
    ReadsEach(v, ts, r.projections[e].expr.columns);
  }

  lemma CountsAreSame(projections: seq<Projection>)
    ensures forall i :: 0 <= i < |projections| ==> SameProjection(projections[i], Counts(projections)[i])
  {
    forall i | 0 <= i < |projections| ensures SameProjection(projections[i], Counts(projections)[i]) { CountAt(projections, i); }
  }

  /** So two views that do not join as many rows answer differently. */
  lemma CountsDiffer(v: View, w: View, q: Select, r: Select, ts: seq<Tuple>, us: seq<Tuple>, name: string)
    requires CountsAfter(q, r) && Find(q.projections, name).Some?
    requires Filtered(v, Joined(v, r, |r.joins|), r.filter) == ts && Filtered(w, Joined(w, r, |r.joins|), r.filter) == us
    requires |ts| != |us| && (q.distinct && q.grouping.EachRow? ==> ts == [] || us == [])
    ensures !SameAnswer(v, w, r, name)
  {
    OutputCounted(v, q, r, ts);
    OutputCounted(w, q, r, us);
    if !q.grouping.EachRow? {
      if Output(v, r) == [Group(Null, ts)] { CountedCell(v, q, r, ts, name); }
      if Output(w, r) == [Group(Null, us)] { CountedCell(w, q, r, us, name); }
    }
  }

  // -- A column of WHERE ------------------------------------------------------------------

  function OpenQuery(q: Select): Select { Opened(q, |q.joins|, 0) }

  function AskFilter(q: Select, p: nat): Select
    requires q.filter.Some?
  {
    OpenQuery(q).(filter := Some(Cond(q.filter.value.columns, IsZero(p))))
  }

  lemma AskFilterIsSameShape(q: Select, p: nat)
    requires q.filter.Some?
    ensures SameShape(q, AskFilter(q, p))
  {
    OpenedIsSameShape(q, |q.joins|, 0);
  }

  lemma {:induction false} NoLonger(names: set<string>) returns (n: nat)
    ensures forall name :: name in names ==> |name| <= n
    decreases |names|
  {
    if names == {} {
      n := 0;
    } else {
      var name :| name in names;
      n := NoLonger(names - {name});
      n := if n < |name| then |name| else n;
    }
  }

  /** A name no side has. */
  lemma NoSide(q: Select) returns (name: string)
    ensures name !in Sides(q)
  {
    var n := NoLonger(Sides(q));
    name := seq(n + 1, i => 'a');
  }

  /** The joined rows with everything open: one of each side's only row, or two when a side has two. */
  lemma JoinedCells(q: Select, two: string, c: Column, of: nat -> int, r: Select)
    requires Proper(q) && r.side == q.side && r.joins == OpenQuery(q).joins
    ensures Joined(Cells(q, two, c, of), r, |r.joins|) == Wholes(q, |q.joins|, two)
    ensures two in Sides(q) <==> Before(q, |q.joins|, two)
  {
    CellsAreOpen(q, two, c, of, |q.joins|, 0, |q.joins|);
    AllSidesAreBefore(q, two);
    assert OpenTo(q, two, Cells(q, two, c, of), r, |q.joins|);
    JoinedWhole(q, two, Cells(q, two, c, of), r, |q.joins|);
  }

  lemma FilteredByAsk(v: View, t: Tuple, columns: seq<Column>, p: nat)
    requires p < |columns|
    ensures Filtered(v, [t], Some(Cond(columns, IsZero(p)))) == if Look(v, t, columns[p]) == Number(0) then [t] else []
  {
    HoldsZero(v, t, columns, p);
    assert [t][..0] == [] && Filtered(v, [], Some(Cond(columns, IsZero(p)))) == [];
  }

  lemma FilterIsNeeded(q: Select, name: string, c: Column, p: nat)
    requires Proper(q) && Find(q.projections, name).Some? && c.side in Sides(q)
    requires q.filter.Some? && p < |q.filter.value.columns| && q.filter.value.columns[p] == c
    ensures Needed(q, name, c)
  {
    var two := NoSide(q);
    var r, n, columns := AskFilter(q, p), |q.joins|, q.filter.value.columns;
    var t := Whole(q, n, two, 0);
    var v, w := Cells(q, two, c, All(0)), Cells(q, two, c, All(1));
    AskFilterIsSameShape(q, p);
    JoinedCells(q, two, c, All(0), r);
    JoinedCells(q, two, c, All(1), r);
    AllSidesAreBefore(q, c.side);
    LooksWhole(q, two, c, All(0), n, 0, c);
    LooksWhole(q, two, c, All(1), n, 0, c);
    FilteredByAsk(v, t, columns, p);
    FilteredByAsk(w, t, columns, p);
    CountsDiffer(v, w, q, r, [t], [], name);
    CellsTell(q, name, two, c, All(0), All(1), r);
  }

  // -- A column of HAVING ------------------------------------------------------------------

  function FirstIsZero(p: nat): seq<seq<Value>> -> bool {
    (rows: seq<seq<Value>>) => rows != [] && p < |rows[0]| && rows[0][p] == Number(0)
  }

  function AskHaving(q: Select, p: nat): Select
    requires q.having.Some?
  {
    OpenQuery(q).(having := Some(Having(q.having.value.columns, FirstIsZero(p))))
  }

  lemma AskHavingIsSameShape(q: Select, p: nat)
    requires q.having.Some?
    ensures SameShape(q, AskHaving(q, p))
  {
    OpenedIsSameShape(q, |q.joins|, 0);
  }

  lemma OneGroupOfOne(v: View, q: Select, t: Tuple)
    ensures GroupsOf(v, [t], OpenQuery(q).grouping) == [Group(Null, [t])]
  {
    assert [t][..0] == [];
    if q.grouping.ByKey? { OneKey(v, [t], OpenQuery(q).grouping.key); }
    if q.grouping.EachRow? { assert GroupsOf(v, [], EachRow) == []; }
  }

  lemma FilteringByAsk(v: View, t: Tuple, columns: seq<Column>, p: nat)
    requires p < |columns|
    ensures Filtering(v, [Group(Null, [t])], Some(Having(columns, FirstIsZero(p))))
         == if Look(v, t, columns[p]) == Number(0) then [Group(Null, [t])] else []
  {
    var g := Group(Null, [t]);
    ReadsAt(v, t, columns, p);
    ReadsOneRow(v, t, columns);
    assert [g][..0] == [] && Filtering(v, [], Some(Having(columns, FirstIsZero(p)))) == [];
  }

  lemma HavingOutput(v: View, q: Select, p: nat, t: Tuple)
    requires q.having.Some? && p < |q.having.value.columns|
    requires Joined(v, AskHaving(q, p), |q.joins|) == [t]
    ensures |Output(v, AskHaving(q, p))| == if Look(v, t, q.having.value.columns[p]) == Number(0) then 1 else 0
  {
    var r, g := AskHaving(q, p), Group(Null, [t]);
    AllPass(v, [t], r.filter);
    OneGroupOfOne(v, q, t);
    FilteringByAsk(v, t, q.having.value.columns, p);
    OneDistinct(v, g, r.projections);
    SomeAreDistinct(v, [], r.projections);
  }

  lemma HavingIsNeeded(q: Select, name: string, c: Column, p: nat)
    requires Proper(q) && Find(q.projections, name).Some? && c.side in Sides(q)
    requires q.having.Some? && p < |q.having.value.columns| && q.having.value.columns[p] == c
    ensures Needed(q, name, c)
  {
    var two := NoSide(q);
    var r, n := AskHaving(q, p), |q.joins|;
    AskHavingIsSameShape(q, p);
    JoinedCells(q, two, c, All(0), r);
    JoinedCells(q, two, c, All(1), r);
    AllSidesAreBefore(q, c.side);
    LooksWhole(q, two, c, All(0), n, 0, c);
    LooksWhole(q, two, c, All(1), n, 0, c);
    HavingOutput(Cells(q, two, c, All(0)), q, p, Whole(q, n, two, 0));
    HavingOutput(Cells(q, two, c, All(1)), q, p, Whole(q, n, two, 0));
    CellsTell(q, name, two, c, All(0), All(1), r);
  }

  // -- A column of a projection ------------------------------------------------------------

  function FirstAt(p: nat): seq<seq<Value>> -> Value {
    (rows: seq<seq<Value>>) => if rows != [] && p < |rows[0]| then rows[0][p] else Null
  }

  /** Projections that count, but for one that shows the `p`-th column it reads. */
  function Showing(projections: seq<Projection>, e: nat, p: nat): (shown: seq<Projection>)
    requires e < |projections|
    ensures |shown| == |projections|
  {
    Counts(projections)[e := Projection(projections[e].name, Expr(projections[e].expr.columns, FirstAt(p)))]
  }

  lemma ShowingIsSame(projections: seq<Projection>, e: nat, p: nat)
    requires e < |projections|
    ensures forall i :: 0 <= i < |projections| ==> SameProjection(projections[i], Showing(projections, e, p)[i])
    ensures forall i :: 0 <= i < |projections| && i != e ==> Showing(projections, e, p)[i].expr.of == Counting()
  {
    forall i | 0 <= i < |projections| ensures SameProjection(projections[i], Counts(projections)[i]) && Counts(projections)[i].expr.of == Counting() {
      CountAt(projections, i);
    }
  }

  function Shows(q: Select, at: nat, p: nat, e: nat, shown: nat): Select
    requires e < |q.projections|
  {
    Opened(q, at, p).(projections := Showing(q.projections, e, shown))
  }

  lemma ShowsIsSameShape(q: Select, at: nat, p: nat, e: nat, shown: nat)
    requires e < |q.projections|
    ensures SameShape(q, Shows(q, at, p, e, shown))
  {
    OpenedIsSameShape(q, at, p);
    ShowingIsSame(q.projections, e, shown);
  }

  lemma OneShown(v: View, q: Select, at: nat, p: nat, e: nat, shown: nat, t: Tuple)
    requires e < |q.projections| && Joined(v, Shows(q, at, p, e, shown), |q.joins|) == [t]
    ensures Output(v, Shows(q, at, p, e, shown)) == [Group(Null, [t])]
  {
    var r, g := Shows(q, at, p, e, shown), Group(Null, [t]);
    AllPass(v, [t], r.filter);
    OneGroupOfOne(v, q, t);
    AllShown(v, [g], r.having);
    OneDistinct(v, g, r.projections);
  }

  lemma ShownCell(v: View, q: Select, at: nat, p: nat, name: string, shown: nat, t: Tuple)
    requires Find(q.projections, name).Some? && shown < |q.projections[Find(q.projections, name).value].expr.columns|
    requires Joined(v, Shows(q, at, p, Find(q.projections, name).value, shown), |q.joins|) == [t]
    ensures Answer(v, Shows(q, at, p, Find(q.projections, name).value, shown)).cell(0, name)
         == Look(v, t, q.projections[Find(q.projections, name).value].expr.columns[shown])
  {
    var e := Find(q.projections, name).value;
    var r, columns := Shows(q, at, p, e, shown), q.projections[e].expr.columns;
    OneShown(v, q, at, p, e, shown, t);
    ShowingIsSame(q.projections, e, shown);
    SameFind(q.projections, r.projections, name);
    ReadsOneRow(v, t, columns);
    ReadsAt(v, t, columns, shown);
  }

  lemma ProjectionIsNeeded(q: Select, name: string, c: Column, p: nat)
    requires Proper(q) && Find(q.projections, name).Some? && c.side in Sides(q)
    requires var columns := q.projections[Find(q.projections, name).value].expr.columns; p < |columns| && columns[p] == c
    ensures Needed(q, name, c)
  {
    var two := NoSide(q);
    var n, e := |q.joins|, Find(q.projections, name).value;
    var r := Shows(q, n, 0, e, p);
    ShowsIsSameShape(q, n, 0, e, p);
    JoinedCells(q, two, c, All(0), r);
    JoinedCells(q, two, c, All(1), r);
    AllSidesAreBefore(q, c.side);
    LooksWhole(q, two, c, All(0), n, 0, c);
    LooksWhole(q, two, c, All(1), n, 0, c);
    ShownCell(Cells(q, two, c, All(0)), q, n, 0, name, p, Whole(q, n, two, 0));
    ShownCell(Cells(q, two, c, All(1)), q, n, 0, name, p, Whole(q, n, two, 0));
    CellsTell(q, name, two, c, All(0), All(1), r);
  }

  // -- A column of the ON of a LEFT JOIN whose side is read --------------------------------

  /** The open join of one row a side matches it exactly when the column is zero. */
  lemma AskLeft(q: Select, two: string, c: Column, n: int, at: nat, p: nat)
    requires Asks(q, at, p, c) && two !in Sides(q)
    ensures JoinOne(Cells(q, two, c, All(n)), [Row(q, at, at, None)], Opened(q, at, p).joins[at])
         == [Row(q, at + 1, at, if n == 0 then Some(0) else None)]
  {
    var v, t, j, side := Cells(q, two, c, All(n)), Row(q, at, at, None), Opened(q, at, p).joins[at], q.joins[at].side;
    OpenJoinAt(q.joins, at, p, at);
    assert side in Sides(q);
    CellsRows(q, two, c, All(n), side);
    HoldsZero(v, t[side := Some(0)], q.joins[at].on.value.columns, p);
    ColumnIsJoined(q, at, p, c, 0);
    LooksCell(q, two, c, n, t[side := Some(0)]);
    LineageGaps.JoinedToOne(v, t, j, n == 0);
    SameBefore(q, at, at, Some(0));
  }

  lemma LooksCell(q: Select, two: string, c: Column, n: int, t: Tuple)
    requires c.side in Sides(q) && RowOf(t, c.side) == Some(0)
    ensures Look(Cells(q, two, c, All(n)), t, c) == Number(n)
  {
    assert Column(c.side, c.name) == c;
  }

  lemma AskLeftNext(q: Select, two: string, c: Column, n: int, at: nat, p: nat, e: nat, o: Option<nat>)
    requires Asks(q, at, p, c) && two !in Sides(q) && e < |q.joins| && o == if n == 0 then Some(0) else None
    ensures JoinOne(Cells(q, two, c, All(n)), [Row(q, e, at, o)], Opened(q, at, p).joins[e]) == [Row(q, e + 1, at, o)]
  {
    if e == at {
      SameBefore(q, at, at, o);
      AskLeft(q, two, c, n, at, p);
    } else {
      JoinIsMatching(q, at, p, e);
      assert q.joins[e].side in Sides(q);
      CellsRows(q, two, c, All(n), q.joins[e].side);
      TrueJoinOne(Cells(q, two, c, All(n)), Row(q, e, at, o), Opened(q, at, p).joins[e]);
    }
  }

  ghost predicate RowTo(v: View, r: Select, q: Select, at: nat, o: Option<nat>, k: nat)
    requires k <= |q.joins| && |r.joins| == |q.joins|
  {
    Joined(v, r, k) == [Row(q, k, at, o)]
  }

  ghost predicate RowSteps(v: View, r: Select, q: Select, at: nat, o: Option<nat>)
    requires |r.joins| == |q.joins|
  {
    forall e: nat :: e < |q.joins| && RowTo(v, r, q, at, o, e) ==> RowTo(v, r, q, at, o, e + 1)
  }

  lemma {:induction false} RowUpTo(v: View, r: Select, q: Select, at: nat, o: Option<nat>, k: nat)
    requires |r.joins| == |q.joins| && k <= |q.joins| && RowSteps(v, r, q, at, o) && RowTo(v, r, q, at, o, 0)
    ensures RowTo(v, r, q, at, o, k)
  {
    if k > 0 {
      var e: nat := k - 1;
      RowUpTo(v, r, q, at, o, e);
      assert RowTo(v, r, q, at, o, e + 1);
    }
  }

  lemma JoinedAskingLeft(q: Select, two: string, c: Column, n: int, at: nat, p: nat, o: Option<nat>, r: Select)
    requires Asks(q, at, p, c) && two !in Sides(q) && o == if n == 0 then Some(0) else None
    requires r.side == q.side && r.joins == Opened(q, at, p).joins
    ensures Joined(Cells(q, two, c, All(n)), r, |q.joins|) == [Row(q, |q.joins|, at, o)]
  {
    var v := Cells(q, two, c, All(n));
    CellsRows(q, two, c, All(n), q.side);
    OneRowOf(q.side);
    assert RowTo(v, r, q, at, o, 0);
    forall e: nat | e < |q.joins| && RowTo(v, r, q, at, o, e) ensures RowTo(v, r, q, at, o, e + 1) {
      AskLeftNext(q, two, c, n, at, p, e, o);
      JoinedStep(v, r, e, [Row(q, e, at, o)], [Row(q, e + 1, at, o)]);
    }
    RowUpTo(v, r, q, at, o, |q.joins|);
  }

  lemma {:induction false} RowAt(q: Select, k: nat, at: nat, o: Option<nat>)
    requires Proper(q) && at < k <= |q.joins|
    ensures RowOf(Row(q, k, at, o), q.joins[at].side) == o
  {
    if at < k - 1 { RowAt(q, k - 1, at, o); }
  }

  /** What the projection shows of the side of the open join: a zero or one where it matches, NULL where it does not. */
  lemma LeftShows(q: Select, name: string, two: string, c: Column, n: int, at: nat, p: nat, d: nat)
    requires Asks(q, at, p, c) && Find(q.projections, name).Some? && two !in Sides(q)
    requires var columns := q.projections[Find(q.projections, name).value].expr.columns;
      d < |columns| && columns[d].side == q.joins[at].side
    ensures var r := Shows(q, at, p, Find(q.projections, name).value, d);
      (Answer(Cells(q, two, c, All(n)), r).cell(0, name) == Null) <==> n != 0
  {
    var v, o := Cells(q, two, c, All(n)), if n == 0 then Some(0) else None;
    var e := Find(q.projections, name).value;
    var column := q.projections[e].expr.columns[d];
    JoinedAskingLeft(q, two, c, n, at, p, o, Shows(q, at, p, e, d));
    ShownCell(v, q, at, p, name, d, Row(q, |q.joins|, at, o));
    RowAt(q, |q.joins|, at, o);
    LooksLeft(q, two, c, n, Row(q, |q.joins|, at, o), column);
  }

  lemma LooksLeft(q: Select, two: string, c: Column, n: int, t: Tuple, column: Column)
    requires column.side in Sides(q) && (RowOf(t, column.side) == Some(0) || RowOf(t, column.side) == None)
    ensures Look(Cells(q, two, c, All(n)), t, column) == Null <==> RowOf(t, column.side) == None
  {
  }

  lemma LeftIsNeeded(q: Select, name: string, c: Column, at: nat, p: nat, d: nat)
    requires Asks(q, at, p, c) && Find(q.projections, name).Some?
    requires var columns := q.projections[Find(q.projections, name).value].expr.columns;
      d < |columns| && columns[d].side == q.joins[at].side
    ensures Needed(q, name, c)
  {
    var two := NoSide(q);
    var e := Find(q.projections, name).value;
    ShowsIsSameShape(q, at, p, e, d);
    LeftShows(q, name, two, c, 0, at, p, d);
    LeftShows(q, name, two, c, 1, at, p, d);
    CellsTell(q, name, two, c, All(0), All(1), Shows(q, at, p, e, d));
  }

  // -- A column of the ON of another join --------------------------------------------------

  /** The `at`-th join is not a LEFT JOIN, and its `p`-th ON column is `c`. */
  ghost predicate AsksOther(q: Select, at: nat, p: nat, c: Column) {
    && Proper(q) && at < |q.joins| && q.joins[at].kind != Left && q.joins[at].on.Some?
    && p < |q.joins[at].on.value.columns| && q.joins[at].on.value.columns[p] == c
  }

  lemma AskedIsJoined(q: Select, at: nat, p: nat, c: Column, next: nat)
    requires AsksOther(q, at, p, c) && next == at + 1
    ensures Before(q, next, c.side)
  {
    assert c in CondColumns(q.joins[at].on);
  }

  lemma WholeStep(q: Select, at: nat, two: string, i: nat, next: nat)
    requires at < |q.joins| && next == at + 1 && q.joins[at].side != two
    ensures Whole(q, next, two, i) == Whole(q, at, two, i)[q.joins[at].side := Some(0)]
  {
  }

  lemma OtherSide(q: Select, at: nat)
    requires Proper(q) && at < |q.joins|
    ensures q.joins[at].side != q.side && q.joins[at].side in Sides(q)
  {
  }

  /** With two rows of the first side, one row of the next side holds for both or for neither. */
  lemma AsksBoth(q: Select, c: Column, n: int, at: nat, p: nat, i: nat)
    requires AsksOther(q, at, p, c) && (i == 0 || i == 1)
    ensures var j, t := Opened(q, at, p).joins[at], Whole(q, at, q.side, i)[q.joins[at].side := Some(0)];
      j.side == q.joins[at].side && j.kind == q.joins[at].kind
      && (Holds(Cells(q, q.side, c, All(n)), t, j.on) <==> n == 0)
  {
    var next := at + 1;
    OpenJoinAt(q.joins, at, p, at);
    AskedIsJoined(q, at, p, c, next);
    OtherSide(q, at);
    WholeStep(q, at, q.side, i, next);
    HoldsZero(Cells(q, q.side, c, All(n)), Whole(q, next, q.side, i), q.joins[at].on.value.columns, p);
    LooksWhole(q, q.side, c, All(n), next, i, c);
  }

  lemma BothMatch(v: View, t: Tuple, u: Tuple, j: Join)
    requires Rows(v, j.side) == 1 && Holds(v, t[j.side := Some(0)], j.on) && Holds(v, u[j.side := Some(0)], j.on)
    ensures JoinOne(v, [t, u], j) == [t[j.side := Some(0)], u[j.side := Some(0)]]
  {
    OneExtend(v, t, j);
    OneExtend(v, u, j);
    ExtendTwo(v, t, u, j);
    assert [t, u][..1] == [t];
    assert SomeMatch(v, [t, u], j, 0);
    assert Unmatched(v, [t, u], j, 0) == [] && Unmatched(v, [t, u], j, 1) == [];
  }

  lemma NoneMatches(v: View, t: Tuple, j: Join)
    requires Rows(v, j.side) == 1 && !Holds(v, t[j.side := Some(0)], j.on)
    ensures Extend(v, t, j) == if KeepsLeft(j.kind) then [t[j.side := None]] else []
  {
    assert Matches(v, t, j, 0) == [] && Matches(v, t, j, 1) == [];
    assert WithEach(t, j.side, []) == [];
  }

  /** Where neither matches, none, one or three rows are joined. */
  lemma NeitherMatches(v: View, t: Tuple, u: Tuple, j: Join)
    requires Rows(v, j.side) == 1 && j.kind != Left
    requires !Holds(v, t[j.side := Some(0)], j.on) && !Holds(v, u[j.side := Some(0)], j.on)
    ensures |JoinOne(v, [t, u], j)| != 2 && (j.kind == Inner ==> JoinOne(v, [t, u], j) == [])
  {
    NoneMatches(v, t, j);
    NoneMatches(v, u, j);
    ExtendTwo(v, t, u, j);
    assert [t, u][..1] == [t] && [t][..0] == [];
    assert !SomeMatch(v, [], j, 0) && !SomeMatch(v, [t], j, 0) && !SomeMatch(v, [t, u], j, 0);
    assert Unmatched(v, [t, u], j, 0) == [] && |Unmatched(v, [t, u], j, 1)| == 1;
  }

  /** Not two rows, and none at all when the joins keep nothing of their own. */
  ghost predicate Short(q: Select, tuples: seq<Tuple>) {
    |tuples| != 2 && (LeftOrInner(q) ==> tuples == [])
  }

  lemma {:induction false} JoinsNothing(v: View, j: Join)
    requires Rows(v, j.side) == 1
    ensures |JoinOne(v, [], j)| <= 1 && (j.kind.Left? || j.kind.Inner? ==> JoinOne(v, [], j) == [])
  {
    assert ExtendAll(v, [], j) == [];
    assert Unmatched(v, [], j, 0) == [] && |Unmatched(v, [], j, 1)| == 1;
  }

  lemma StaysShort(q: Select, e: nat, v: View, tuples: seq<Tuple>, j: Join)
    requires e < |q.joins| && IsOpen(q, e, q.side, v, j) && j.side != q.side && j.kind == q.joins[e].kind && Short(q, tuples)
    ensures Short(q, JoinOne(v, tuples, j))
  {
    if tuples == [] { JoinsNothing(v, j); } else { JoinsAll(v, tuples, j); }
  }

  lemma FirstShort(q: Select, c: Column, at: nat, p: nat)
    requires AsksOther(q, at, p, c)
    ensures var v, r := Cells(q, q.side, c, All(1)), Opened(q, at, p); Short(q, Joined(v, r, at + 1))
  {
    var v, r := Cells(q, q.side, c, All(1)), Opened(q, at, p);
    CellsAreOpen(q, q.side, c, All(1), at, p, at);
    JoinedWhole(q, q.side, v, r, at);
    AsksBoth(q, c, 1, at, p, 0);
    AsksBoth(q, c, 1, at, p, 1);
    assert q.joins[at].side in Sides(q) && q.joins[at].side != q.side;
    CellsRows(q, q.side, c, All(1), q.joins[at].side);
    NeitherMatches(v, Whole(q, at, q.side, 0), Whole(q, at, q.side, 1), r.joins[at]);
    JoinedStep(v, r, at, Joined(v, r, at), JoinOne(v, Joined(v, r, at), r.joins[at]));
  }

  lemma OpenAt(q: Select, c: Column, n: int, at: nat, p: nat, e: nat)
    requires Proper(q) && e < |q.joins| && e != at
    ensures IsOpen(q, e, q.side, Cells(q, q.side, c, All(n)), Opened(q, at, p).joins[e])
    ensures Opened(q, at, p).joins[e].kind == q.joins[e].kind && q.joins[e].side != q.side
  {
    JoinIsMatching(q, at, p, e);
    assert q.joins[e].side in Sides(q);
    CellsRows(q, q.side, c, All(n), q.joins[e].side);
  }

  ghost predicate ShortTo(q: Select, v: View, r: Select, k: nat)
    requires k <= |r.joins|
  {
    Short(q, Joined(v, r, k))
  }

  ghost predicate ShortSteps(q: Select, v: View, r: Select, from: nat) {
    forall e: nat :: from <= e < |r.joins| && ShortTo(q, v, r, e) ==> ShortTo(q, v, r, e + 1)
  }

  lemma {:induction false} ShortUpTo(q: Select, v: View, r: Select, from: nat, k: nat)
    requires from <= k <= |r.joins| && ShortSteps(q, v, r, from) && ShortTo(q, v, r, from)
    ensures ShortTo(q, v, r, k)
    decreases k
  {
    if k > from {
      var e: nat := k - 1;
      ShortUpTo(q, v, r, from, e);
      assert ShortTo(q, v, r, e + 1);
    }
  }

  lemma JoinedShort(q: Select, c: Column, at: nat, p: nat)
    requires AsksOther(q, at, p, c)
    ensures Short(q, Joined(Cells(q, q.side, c, All(1)), Opened(q, at, p), |q.joins|))
  {
    var v, r, from := Cells(q, q.side, c, All(1)), Opened(q, at, p), at + 1;
    FirstShort(q, c, at, p);
    assert ShortTo(q, v, r, from);
    forall e: nat | from <= e < |r.joins| && ShortTo(q, v, r, e) ensures ShortTo(q, v, r, e + 1) {
      OpenAt(q, c, 1, at, p, e);
      StaysShort(q, e, v, Joined(v, r, e), r.joins[e]);
      JoinedStep(v, r, e, Joined(v, r, e), JoinOne(v, Joined(v, r, e), r.joins[e]));
    }
    ShortUpTo(q, v, r, from, |q.joins|);
  }

  lemma WholesMatch(q: Select, c: Column, at: nat, p: nat, e: nat)
    requires AsksOther(q, at, p, c) && e < |q.joins|
    ensures JoinOne(Cells(q, q.side, c, All(0)), Wholes(q, e, q.side), Opened(q, at, p).joins[e]) == Wholes(q, e + 1, q.side)
  {
    var v, j := Cells(q, q.side, c, All(0)), Opened(q, at, p).joins[e];
    if e == at {
      AsksBoth(q, c, 0, at, p, 0);
      AsksBoth(q, c, 0, at, p, 1);
      assert q.joins[at].side in Sides(q) && q.joins[at].side != q.side;
      CellsRows(q, q.side, c, All(0), q.joins[at].side);
      BothMatch(v, Whole(q, at, q.side, 0), Whole(q, at, q.side, 1), j);
    } else {
      OpenAt(q, c, 0, at, p, e);
      WholesNext(q, e, q.side, v, j);
    }
  }

  lemma {:induction false} JoinedMatching(q: Select, c: Column, at: nat, p: nat, k: nat)
    requires AsksOther(q, at, p, c) && k <= |q.joins|
    ensures Joined(Cells(q, q.side, c, All(0)), Opened(q, at, p), k) == Wholes(q, k, q.side)
  {
    var v, r := Cells(q, q.side, c, All(0)), Opened(q, at, p);
    if k == 0 {
      CellsRows(q, q.side, c, All(0), q.side);
      WholesFirst(q, q.side, v);
    } else {
      var e: nat := k - 1;
      JoinedMatching(q, c, at, p, e);
      WholesMatch(q, c, at, p, e);
      JoinedStep(v, r, e, Wholes(q, e, q.side), Wholes(q, e + 1, q.side));
    }
  }

  lemma OtherIsNeeded(q: Select, name: string, c: Column, at: nat, p: nat)
    requires AsksOther(q, at, p, c) && Find(q.projections, name).Some?
    requires q.distinct && q.grouping.EachRow? ==> LeftOrInner(q)
    ensures Needed(q, name, c)
  {
    var n, r := |q.joins|, Opened(q, at, p);
    var v, w := Cells(q, q.side, c, All(0)), Cells(q, q.side, c, All(1));
    JoinedMatching(q, c, at, p, n);
    JoinedShort(q, c, at, p);
    AllPass(v, Joined(v, r, n), r.filter);
    AllPass(w, Joined(w, r, n), r.filter);
    OpenedIsSameShape(q, at, p);
    CountsDiffer(v, w, q, r, Joined(v, r, n), Joined(w, r, n), name);
    CellsTell(q, name, q.side, c, All(0), All(1), r);
  }

  // -- A column of GROUP BY ----------------------------------------------------------------

  function At(p: nat): seq<Value> -> Value {
    (values: seq<Value>) => if p < |values| then values[p] else Null
  }

  function AskKey(q: Select, p: nat): Select
    requires q.grouping.ByKey?
  {
    OpenQuery(q).(grouping := ByKey(Key(q.grouping.key.columns, At(p))))
  }

  lemma AskKeyIsSameShape(q: Select, p: nat)
    requires q.grouping.ByKey?
    ensures SameShape(q, AskKey(q, p))
  {
    OpenedIsSameShape(q, |q.joins|, 0);
  }

  lemma PutsSecond(a: Value, t: Tuple, b: Value, u: Tuple)
    ensures PutIn([], a, t) == [Group(a, [t])]
    ensures PutIn([Group(a, [t])], b, u) == if a == b then [Group(a, [t] + [u])] else [Group(b, [u])] + [Group(a, [t])]
  {
    assert [Group(a, [t])][..0] == [];
    assert PutIn([], b, u) == [Group(b, [u])];
  }

  lemma GroupsOfBoth(v: View, t: Tuple, u: Tuple, key: Key)
    ensures var a, b := KeyOf(v, t, key), KeyOf(v, u, key);
      GroupsOf(v, [t, u], ByKey(key)) == if a == b then [Group(a, [t, u])] else [Group(b, [u]), Group(a, [t])]
  {
    assert [t] + [u] == [t, u] && [] + [t] == [t];
    OneRowMore(v, [], t, key);
    OneRowMore(v, [t], u, key);
    assert GroupsOf(v, [], ByKey(key)) == [];
    PutsSecond(KeyOf(v, t, key), t, KeyOf(v, u, key), u);
  }

  lemma KeyIs(v: View, t: Tuple, columns: seq<Column>, p: nat)
    requires p < |columns|
    ensures KeyOf(v, t, Key(columns, At(p))) == Look(v, t, columns[p])
  {
    ReadsAt(v, t, columns, p);
  }

  lemma FirstOfTwo(v: View, g: Group, h: Group, projections: seq<Projection>)
    ensures Sql.Distinct(v, [g, h], projections) != [] && Sql.Distinct(v, [g, h], projections)[0] == g
  {
    DistinctTwo(v, g, h, projections);
  }

  lemma KeyGroups(v: View, q: Select, p: nat, t: Tuple, u: Tuple)
    requires q.grouping.ByKey? && p < |q.grouping.key.columns|
    ensures var a, b := Look(v, t, q.grouping.key.columns[p]), Look(v, u, q.grouping.key.columns[p]);
      GroupsOf(v, [t, u], AskKey(q, p).grouping) == if a == b then [Group(a, [t, u])] else [Group(b, [u]), Group(a, [t])]
  {
    GroupsOfBoth(v, t, u, AskKey(q, p).grouping.key);
    KeyIs(v, t, q.grouping.key.columns, p);
    KeyIs(v, u, q.grouping.key.columns, p);
  }

  /** The first of one or two groups comes out first. */
  lemma FirstComesOut(v: View, r: Select, ts: seq<Tuple>, groups: seq<Group>)
    requires Filtered(v, Joined(v, r, |r.joins|), r.filter) == ts && GroupsOf(v, ts, r.grouping) == groups
    requires Filtering(v, groups, r.having) == groups && (|groups| == 1 || |groups| == 2)
    ensures Output(v, r) != [] && Output(v, r)[0] == groups[0]
  {
    if |groups| == 1 {
      assert groups == [groups[0]];
      OneDistinct(v, groups[0], r.projections);
    } else {
      assert groups == [groups[0], groups[1]];
      FirstOfTwo(v, groups[0], groups[1], r.projections);
    }
  }

  lemma KeyOutput(v: View, q: Select, p: nat, t: Tuple, u: Tuple)
    requires q.grouping.ByKey? && p < |q.grouping.key.columns|
    requires Joined(v, AskKey(q, p), |q.joins|) == [t, u]
    ensures var a, b := Look(v, t, q.grouping.key.columns[p]), Look(v, u, q.grouping.key.columns[p]);
      var out := Output(v, AskKey(q, p));
      out != [] && out[0].rows == if a == b then [t, u] else [u]
  {
    var r := AskKey(q, p);
    AllPass(v, [t, u], r.filter);
    KeyGroups(v, q, p, t, u);
    var groups := GroupsOf(v, [t, u], r.grouping);
    AllShown(v, groups, r.having);
    FirstComesOut(v, r, [t, u], groups);
  }

  lemma FirstCellCounts(v: View, q: Select, r: Select, name: string)
    requires r.projections == Counts(q.projections) && Find(q.projections, name).Some? && Output(v, r) != []
    ensures Answer(v, r).cell(0, name) == Number(|Output(v, r)[0].rows|)
  {
    var e := Find(q.projections, name).value;
    CountsAreSame(q.projections);
    SameFind(q.projections, r.projections, name);
    CountAt(q.projections, e);
    ReadsEach(v, Output(v, r)[0].rows, r.projections[e].expr.columns);
  }

  lemma KeyIsNeeded(q: Select, name: string, c: Column, p: nat)
    requires Proper(q) && Find(q.projections, name).Some? && c.side in Sides(q) && c in FoldedOf(q, name)
    requires q.grouping.ByKey? && p < |q.grouping.key.columns| && q.grouping.key.columns[p] == c
    ensures Needed(q, name, c)
  {
    var n, r, two := |q.joins|, AskKey(q, p), c.side;
    var v, w := Cells(q, two, c, All(0)), Cells(q, two, c, Each());
    var t, u := Whole(q, n, two, 0), Whole(q, n, two, 1);
    AskKeyIsSameShape(q, p);
    JoinedCells(q, two, c, All(0), r);
    JoinedCells(q, two, c, Each(), r);
    LooksWhole(q, two, c, All(0), n, 0, c);
    LooksWhole(q, two, c, All(0), n, 1, c);
    LooksWhole(q, two, c, Each(), n, 0, c);
    LooksWhole(q, two, c, Each(), n, 1, c);
    KeyOutput(v, q, p, t, u);
    KeyOutput(w, q, p, t, u);
    FirstCellCounts(v, q, r, name);
    FirstCellCounts(w, q, r, name);
    CellsTell(q, name, two, c, All(0), Each(), r);
  }

  // -- A column DISTINCT compares ------------------------------------------------------------

  lemma {:induction false} ProjectsSame(v: View, g: Group, h: Group, projections: seq<Projection>)
    requires forall i :: 0 <= i < |projections| ==> Evaluate(v, g, projections[i].expr) == Evaluate(v, h, projections[i].expr)
    ensures Sql.Project(v, g, projections) == Sql.Project(v, h, projections)
  {
    if projections != [] { ProjectsSame(v, g, h, projections[..|projections| - 1]); }
  }

  lemma EvaluatesShown(v: View, t: Tuple, projections: seq<Projection>, e: nat, p: nat, i: nat)
    requires e < |projections| && i < |projections| && p < |projections[e].expr.columns|
    ensures Evaluate(v, Group(Null, [t]), Showing(projections, e, p)[i].expr)
         == if i == e then Look(v, t, projections[e].expr.columns[p]) else Number(1)
  {
    ShowingIsSame(projections, e, p);
    var columns := Showing(projections, e, p)[i].expr.columns;
    ReadsOneRow(v, t, columns);
    if i == e { ReadsAt(v, t, columns, p); }
  }

  lemma TwoProject(v: View, projections: seq<Projection>, e: nat, p: nat, t: Tuple, u: Tuple)
    requires e < |projections| && p < |projections[e].expr.columns|
    ensures var shown, c := Showing(projections, e, p), projections[e].expr.columns[p];
      Sql.Project(v, Group(Null, [t]), shown) == Sql.Project(v, Group(Null, [u]), shown) <==> Look(v, t, c) == Look(v, u, c)
  {
    var shown, g, h := Showing(projections, e, p), Group(Null, [t]), Group(Null, [u]);
    EvaluatesShown(v, t, projections, e, p, e);
    EvaluatesShown(v, u, projections, e, p, e);
    ProjectAt(v, g, shown, e);
    ProjectAt(v, h, shown, e);
    if Look(v, t, projections[e].expr.columns[p]) == Look(v, u, projections[e].expr.columns[p]) {
      forall i | 0 <= i < |shown| ensures Evaluate(v, g, shown[i].expr) == Evaluate(v, h, shown[i].expr) {
        EvaluatesShown(v, t, projections, e, p, i);
        EvaluatesShown(v, u, projections, e, p, i);
      }
      ProjectsSame(v, g, h, shown);
    }
  }

  lemma TwoShown(v: View, q: Select, e: nat, p: nat, t: Tuple, u: Tuple)
    requires q.grouping.EachRow? && q.distinct && e < |q.projections| && p < |q.projections[e].expr.columns|
    requires Joined(v, Shows(q, |q.joins|, 0, e, p), |q.joins|) == [t, u]
    ensures var c := q.projections[e].expr.columns[p];
      |Output(v, Shows(q, |q.joins|, 0, e, p))| == if Look(v, t, c) == Look(v, u, c) then 1 else 2
  {
    var r := Shows(q, |q.joins|, 0, e, p);
    AllPass(v, [t, u], r.filter);
    GroupsOfTwo(v, t, u);
    AllShown(v, [Group(Null, [t]), Group(Null, [u])], r.having);
    DistinctTwo(v, Group(Null, [t]), Group(Null, [u]), r.projections);
    TwoProject(v, q.projections, e, p, t, u);
  }

  lemma DistinctIsNeeded(q: Select, name: string, c: Column, e: nat, p: nat)
    requires Proper(q) && Find(q.projections, name).Some? && c.side in Sides(q) && c in FoldedOf(q, name)
    requires q.distinct && q.grouping.EachRow?
    requires e < |q.projections| && p < |q.projections[e].expr.columns| && q.projections[e].expr.columns[p] == c
    ensures Needed(q, name, c)
  {
    var n, two := |q.joins|, c.side;
    var r := Shows(q, n, 0, e, p);
    var t, u := Whole(q, n, two, 0), Whole(q, n, two, 1);
    ShowsIsSameShape(q, n, 0, e, p);
    JoinedCells(q, two, c, All(0), r);
    JoinedCells(q, two, c, Each(), r);
    LooksWhole(q, two, c, All(0), n, 0, c);
    LooksWhole(q, two, c, All(0), n, 1, c);
    LooksWhole(q, two, c, Each(), n, 0, c);
    LooksWhole(q, two, c, Each(), n, 1, c);
    TwoShown(Cells(q, two, c, All(0)), q, e, p, t, u);
    TwoShown(Cells(q, two, c, Each()), q, e, p, t, u);
    CellsTell(q, name, two, c, All(0), Each(), r);
  }

  // -- Every folded column -------------------------------------------------------------------

  /** A projection's columns without what DISTINCT adds. */
  function Undistinct(q: Select): Select { q.(distinct := false) }

  /** The theorem: whatever is folded into a projection is needed. DISTINCT over ungrouped rows asks that joins are LEFT or
      inner; over grouped ones, that the column is folded without it too. */
  lemma FoldedIsNeeded(q: Select, name: string, c: Column)
    requires Proper(q) && Find(q.projections, name).Some? && c.side in Sides(q) && c in FoldedOf(q, name)
    requires q.distinct && q.grouping.EachRow? ==> LeftOrInner(q)
    requires q.distinct && !q.grouping.EachRow? ==> c in FoldedOf(Undistinct(q), name)
    ensures Needed(q, name, c)
  {
    var columns := q.projections[Find(q.projections, name).value].expr.columns;
    FoldedAreThose(q, columns, c);
    FoldedAreThose(Undistinct(q), columns, c);
    if c in columns {
      var p :| 0 <= p < |columns| && columns[p] == c;
      ProjectionIsNeeded(q, name, c, p);
    } else if ReadBy(q.filter, c) {
      var p :| 0 <= p < |q.filter.value.columns| && q.filter.value.columns[p] == c;
      FilterIsNeeded(q, name, c, p);
    } else if q.grouping.ByKey? && c in q.grouping.key.columns {
      var p :| 0 <= p < |q.grouping.key.columns| && q.grouping.key.columns[p] == c;
      KeyIsNeeded(q, name, c, p);
    } else if q.having.Some? && c in q.having.value.columns {
      var p :| 0 <= p < |q.having.value.columns| && q.having.value.columns[p] == c;
      HavingIsNeeded(q, name, c, p);
    } else {
      JoinsAreNeeded(q, name, c, columns);
    }
  }

  lemma OtherJoinIsNeeded(q: Select, name: string, c: Column, j: Join)
    requires Proper(q) && Find(q.projections, name).Some? && (q.distinct && q.grouping.EachRow? ==> LeftOrInner(q))
    requires j in q.joins && j.kind != Left && ReadBy(j.on, c)
    ensures Needed(q, name, c)
  {
    var at :| 0 <= at < |q.joins| && q.joins[at] == j;
    var p :| 0 <= p < |j.on.value.columns| && j.on.value.columns[p] == c;
    OtherIsNeeded(q, name, c, at, p);
  }

  lemma LeftJoinIsNeeded(q: Select, name: string, c: Column, columns: seq<Column>, j: Join, d: Column)
    requires Proper(q) && Find(q.projections, name).Some?
    requires columns == q.projections[Find(q.projections, name).value].expr.columns
    requires j in q.joins && j.kind == Left && ReadBy(j.on, c) && d in columns && d.side == j.side
    ensures Needed(q, name, c)
  {
    var at :| 0 <= at < |q.joins| && q.joins[at] == j;
    var p :| 0 <= p < |j.on.value.columns| && j.on.value.columns[p] == c;
    var i :| 0 <= i < |columns| && columns[i] == d;
    LeftIsNeeded(q, name, c, at, p, i);
  }

  lemma ComparedIsNeeded(q: Select, name: string, c: Column, projection: Projection)
    requires Proper(q) && Find(q.projections, name).Some? && c.side in Sides(q) && c in FoldedOf(q, name)
    requires q.distinct && q.grouping.EachRow? && projection in q.projections && c in projection.expr.columns
    ensures Needed(q, name, c)
  {
    var e :| 0 <= e < |q.projections| && q.projections[e] == projection;
    var p :| 0 <= p < |projection.expr.columns| && projection.expr.columns[p] == c;
    DistinctIsNeeded(q, name, c, e, p);
  }

  lemma JoinsAreNeeded(q: Select, name: string, c: Column, columns: seq<Column>)
    requires Proper(q) && Find(q.projections, name).Some? && c.side in Sides(q) && c in FoldedOf(q, name)
    requires columns == q.projections[Find(q.projections, name).value].expr.columns
    requires q.distinct && q.grouping.EachRow? ==> LeftOrInner(q)
    requires || (exists j :: j in q.joins && j.kind != Left && ReadBy(j.on, c))
             || (q.distinct && q.grouping.EachRow? && exists p :: p in q.projections && c in p.expr.columns)
             || (exists j, d :: j in q.joins && j.kind == Left && ReadBy(j.on, c) && d in columns && d.side == j.side)
    ensures Needed(q, name, c)
  {
    if j :| j in q.joins && j.kind != Left && ReadBy(j.on, c) {
      OtherJoinIsNeeded(q, name, c, j);
    } else if j, d :| j in q.joins && j.kind == Left && ReadBy(j.on, c) && d in columns && d.side == j.side {
      LeftJoinIsNeeded(q, name, c, columns, j, d);
    } else {
      var projection :| projection in q.projections && c in projection.expr.columns;
      ComparedIsNeeded(q, name, c, projection);
    }
  }

  // -- Exactly -------------------------------------------------------------------------------

  lemma OthersAgree(v: View, w: View, c: Column, folded: set<Column>, seen: set<string>)
    requires AgreeBut(v, w, c) && c !in folded && forall d :: d in folded ==> d.side in seen
    ensures Agree(v, w, folded, seen)
  {
    forall d | d in folded ensures CellsAgree(v, w, d) {
      assert Column(d.side, d.name) == d;
    }
  }

  /** The theorem both ways: where every LEFT JOIN that can be seen is folded, the columns folded into a projection are exactly
      those it depends on. */
  lemma FoldedExactlyWhenNeeded(q: Select, name: string, c: Column)
    requires Proper(q) && Find(q.projections, name).Some? && c.side in Sides(q) && Closed(q, FoldedOf(q, name))
    requires q.distinct && q.grouping.EachRow? ==> LeftOrInner(q)
    requires q.distinct && !q.grouping.EachRow? ==> c in FoldedOf(q, name) ==> c in FoldedOf(Undistinct(q), name)
    ensures c in FoldedOf(q, name) <==> Needed(q, name, c)
  {
    var folded := FoldedOf(q, name);
    if c in folded {
      FoldedIsNeeded(q, name, c);
    } else {
      ClosedIsEnough(q, name);
      forall r, v, w ensures !TellsBy(q, name, c, r, v, w) {
        if SameShape(q, r) && AgreeBut(v, w, c) { OthersAgree(v, w, c, folded, Seen(r, folded)); }
      }
    }
  }

  // -- DISTINCT of one group -------------------------------------------------------------------

  lemma {:induction false} FewGroups(v: View, groups: seq<Group>, having: Option<Having>)
    ensures |Filtering(v, groups, having)| <= |groups|
  {
    if groups != [] { FewGroups(v, groups[..|groups| - 1], having); }
  }

  /** An aggregate without GROUP BY has one row, so DISTINCT leaves it as it is: what it adds to the folding is not needed. */
  lemma DistinctOfOneGroup(v: View, q: Select)
    requires q.grouping.AllRows?
    ensures Output(v, q) == Output(v, Undistinct(q))
  {
    var groups := GroupsOf(v, Filtered(v, Joined(v, q, |q.joins|), q.filter), q.grouping);
    UndistinctJoins(v, q, |q.joins|);
    FewGroups(v, groups, q.having);
    var out := Filtering(v, groups, q.having);
    if |out| == 1 {
      assert out == [out[0]];
      OneDistinct(v, out[0], q.projections);
    }
  }

  lemma {:induction false} UndistinctJoins(v: View, q: Select, k: nat)
    requires k <= |q.joins|
    ensures Joined(v, q, k) == Joined(v, Undistinct(q), k)
  {
    if k > 0 { UndistinctJoins(v, q, k - 1); }
  }

  // -- Down to raw columns -------------------------------------------------------------------

  /** A step of a column's lineage: the query, at its place among the models, its column, and one folded into it. */
  datatype Step = Step(depth: nat, query: Select, name: string, column: Column)

  ghost predicate Folds(s: Step) {
    && Find(s.query.projections, s.name).Some?
    && TakesOn(s.query, s.query.projections[Find(s.query.projections, s.name).value].expr.columns, s.column)
    && s.column.side in Sides(s.query)
  }

  /** One step leads to the next when the folded column is one of the next step's query. */
  ghost predicate LeadsOn(p: Project, s: Step, next: Step) {
    && next.name == s.column.name && s.column.side in Sides(s.query)
    && match SourceOf(s.query, s.column.side)
       case Sub(query) => next.query == query && next.depth == s.depth
       case Model(uid) => uid in p.models && uid in p.rank && p.rank[uid] < s.depth
                          && next.query == p.models[uid] && next.depth == p.rank[uid]
       case _ => false
  }

  /** A trail from a query's column down to a raw column. */
  ghost predicate IsTrail(p: Project, trail: seq<Step>, depth: nat, q: Select, name: string, r: RawColumn) {
    && trail != [] && trail[0].depth == depth && trail[0].query == q && trail[0].name == name
    && (forall i :: 0 <= i < |trail| ==> Folds(trail[i]))
    && (forall i :: 0 <= i < |trail| - 1 ==> LeadsOn(p, trail[i], trail[i + 1]))
    && var last := trail[|trail| - 1];
       SourceOf(last.query, last.column.side) == Raw(r.table) && last.column.name == r.column
  }

  lemma ColumnFolds(q: Select, name: string, c: Column)
    ensures var found := Find(q.projections, name);
      c in ColumnsOf(q, name) <==> found.Some? && TakesOn(q, q.projections[found.value].expr.columns, c)
  {
    if Find(q.projections, name).Some? { FoldedAreThose(q, q.projections[Find(q.projections, name).value].expr.columns, c); }
  }

  lemma {:induction false} LineageHasTrail(p: Project, depth: nat, q: Select, name: string, r: RawColumn) returns (trail: seq<Step>)
    requires r in Lineage(p, depth, q, name)
    ensures IsTrail(p, trail, depth, q, name, r)
    decreases depth, q, 1
  {
    var c :| c in ColumnsOf(q, name) && r in Through(p, depth, q, c);
    ColumnFolds(q, name, c);
    var s := Step(depth, q, name, c);
    var rest := ThroughHasTrail(p, depth, q, c, r);
    trail := [s] + rest;
    if rest != [] {
      assert LeadsOn(p, s, rest[0]);
    }
  }

  /** The rest of a trail past one folded column: nothing when its side is a raw table. */
  lemma {:induction false} ThroughHasTrail(p: Project, depth: nat, q: Select, c: Column, r: RawColumn) returns (rest: seq<Step>)
    requires r in Through(p, depth, q, c)
    ensures c.side in Sides(q)
    ensures if rest == [] then SourceOf(q, c.side) == Raw(r.table) && c.name == r.column
            else IsTrail(p, rest, rest[0].depth, rest[0].query, c.name, r)
                 && match SourceOf(q, c.side)
                    case Sub(query) => rest[0].query == query && rest[0].depth == depth
                    case Model(uid) => uid in p.models && uid in p.rank && p.rank[uid] < depth
                                       && rest[0].query == p.models[uid] && rest[0].depth == p.rank[uid]
                    case _ => false
    decreases depth, q, 0
  {
    match SourceOf(q, c.side) {
      case Raw(table) => rest := [];
      case Seed(_) =>
      case Model(uid) => rest := LineageHasTrail(p, p.rank[uid], p.models[uid], c.name, r);
      case Sub(query) => rest := LineageHasTrail(p, depth, query, c.name, r);
    }
  }

  lemma {:induction false} TrailIsLineage(p: Project, trail: seq<Step>, depth: nat, q: Select, name: string, r: RawColumn)
    requires IsTrail(p, trail, depth, q, name, r)
    ensures r in Lineage(p, depth, q, name)
    decreases |trail|
  {
    var s := trail[0];
    ColumnFolds(q, name, s.column);
    if |trail| > 1 {
      var rest := trail[1..];
      assert LeadsOn(p, trail[0], trail[0 + 1]);
      forall i | 0 <= i < |rest| ensures Folds(rest[i]) { assert Folds(trail[i + 1]); }
      forall i | 0 <= i < |rest| - 1 ensures LeadsOn(p, rest[i], rest[i + 1]) { assert LeadsOn(p, trail[i + 1], trail[i + 1 + 1]); }
      TrailIsLineage(p, rest, rest[0].depth, rest[0].query, rest[0].name, r);
    }
    assert r in Through(p, depth, q, s.column);
  }

  /** A column's lineage is what its trails lead to: through folded columns, subqueries and models, and nothing else. */
  lemma LineageIsByTrails(p: Project, depth: nat, q: Select, name: string, r: RawColumn)
    ensures r in Lineage(p, depth, q, name) <==> exists trail :: IsTrail(p, trail, depth, q, name, r)
  {
    if r in Lineage(p, depth, q, name) { var trail := LineageHasTrail(p, depth, q, name, r); }
    if trail :| IsTrail(p, trail, depth, q, name, r) { TrailIsLineage(p, trail, depth, q, name, r); }
  }

  /** A column of one table selected as it is depends on the columns its expression reads and on no other. */
  lemma PlainLineage(p: Project, depth: nat, q: Select, name: string, table: string)
    requires q.source == Raw(table) && q.joins == [] && q.filter == None && q.having == None && !q.grouping.ByKey? && !q.distinct
    requires Find(q.projections, name).Some?
    requires forall c :: c in q.projections[Find(q.projections, name).value].expr.columns ==> c.side == q.side
    ensures var columns := q.projections[Find(q.projections, name).value].expr.columns;
      Lineage(p, depth, q, name) == set c | c in columns :: RawColumn(table, c.name)
  {
    var columns := q.projections[Find(q.projections, name).value].expr.columns;
    forall c ensures c in ColumnsOf(q, name) <==> c in columns { ColumnFolds(q, name, c); }
    forall c | c in columns ensures Through(p, depth, q, c) == {RawColumn(table, c.name)} {
    }
  }
}
