/** Folding is exact: where a LEFT JOIN that can be seen is not folded, some query of the same shape shows it. */
module LineageExact {
  import opened Ids
  import opened Sql
  import opened RowShaping
  import opened NonInterference
  import opened ColumnLineage

  // -- The shape of a query --------------------------------------------------------------

  /** Every side has its own name, and an ON reads sides joined by then. */
  ghost predicate Proper(q: Select) {
    && (forall i :: 0 <= i < |q.joins| ==> q.joins[i].side != q.side)
    && (forall i, k :: 0 <= i < k < |q.joins| ==> q.joins[i].side != q.joins[k].side)
    && (forall k, c :: 0 <= k < |q.joins| && c in CondColumns(q.joins[k].on) ==> Before(q, k + 1, c.side))
  }

  /** A side is one of the first: the query's own, or that of one of the first `k` joins. */
  ghost predicate Before(q: Select, k: nat, side: string) {
    side == q.side || exists i :: 0 <= i < k && i < |q.joins| && q.joins[i].side == side
  }

  predicate SameCond(a: Option<Cond>, b: Option<Cond>) {
    a.Some? == b.Some? && CondColumns(a) == CondColumns(b)
  }

  predicate SameGrouping(a: Grouping, b: Grouping) {
    a.EachRow? == b.EachRow? && a.ByKey? == b.ByKey? && GroupingColumns(a) == GroupingColumns(b)
  }

  predicate SameHaving(a: Option<Having>, b: Option<Having>) {
    a.Some? == b.Some? && (a.Some? ==> a.value.columns == b.value.columns)
  }

  predicate SameJoin(a: Join, b: Join) {
    a.kind == b.kind && a.side == b.side && SameCond(a.on, b.on)
  }

  predicate SameProjection(a: Projection, b: Projection) {
    a.name == b.name && a.expr.columns == b.expr.columns
  }

  /** The same joins, clauses and projections, reading the same columns, whatever they make of them. */
  ghost predicate SameShape(q: Select, r: Select) {
    && q.side == r.side && |q.joins| == |r.joins| && |q.projections| == |r.projections| && q.distinct == r.distinct
    && SameCond(q.filter, r.filter) && SameGrouping(q.grouping, r.grouping) && SameHaving(q.having, r.having)
    && (forall i :: 0 <= i < |q.joins| ==> SameJoin(q.joins[i], r.joins[i]))
    && (forall i :: 0 <= i < |q.projections| ==> SameProjection(q.projections[i], r.projections[i]))
  }

  lemma {:induction false} SameJoinColumns(a: seq<Join>, b: seq<Join>)
    requires |a| == |b| && forall i :: 0 <= i < |a| ==> SameJoin(a[i], b[i])
    ensures JoinColumns(a) == JoinColumns(b)
  {
    if a != [] { SameJoinColumns(a[..|a| - 1], b[..|b| - 1]); }
  }

  lemma {:induction false} SameSelectColumns(a: seq<Projection>, b: seq<Projection>)
    requires |a| == |b| && forall i :: 0 <= i < |a| ==> SameProjection(a[i], b[i])
    ensures SelectColumns(a) == SelectColumns(b)
  {
    if a != [] { SameSelectColumns(a[..|a| - 1], b[..|b| - 1]); }
  }

  lemma {:induction false} SameFind(a: seq<Projection>, b: seq<Projection>, name: string)
    requires |a| == |b| && forall i :: 0 <= i < |a| ==> SameProjection(a[i], b[i])
    ensures Find(a, name) == Find(b, name)
  {
    if a != [] { SameFind(a[..|a| - 1], b[..|b| - 1], name); }
  }

  lemma SameEvery(q: Select, r: Select)
    requires SameShape(q, r)
    ensures Every(q) == Every(r)
  {
    SameJoinColumns(q.joins, r.joins);
    SameSelectColumns(q.projections, r.projections);
  }

  lemma SameSeen(q: Select, r: Select, folded: set<Column>)
    requires SameShape(q, r)
    ensures Seen(q, folded) == Seen(r, folded)
  {
    forall side | side in Seen(q, folded) ensures side in Seen(r, folded) {
      if j :| j in q.joins && !j.kind.Left? && j.side == side {
        var i :| 0 <= i < |q.joins| && q.joins[i] == j;
        assert SameJoin(j, r.joins[i]) && r.joins[i] in r.joins;
      }
    }
    forall side | side in Seen(r, folded) ensures side in Seen(q, folded) {
      if j :| j in r.joins && !j.kind.Left? && j.side == side {
        var i :| 0 <= i < |r.joins| && r.joins[i] == j;
        assert SameJoin(q.joins[i], j) && q.joins[i] in q.joins;
      }
    }
  }

  lemma SameClosed(q: Select, r: Select, folded: set<Column>)
    requires SameShape(q, r) && Closed(q, folded)
    ensures Closed(r, folded)
  {
    SameSeen(q, r, folded);
    forall j | j in r.joins && j.kind.Left? && j.side in Seen(r, folded) ensures Within(CondColumns(j.on), folded) {
      var i :| 0 <= i < |r.joins| && r.joins[i] == j;
      assert SameJoin(q.joins[i], j) && q.joins[i] in q.joins;
    }
  }

  // -- What exactness means --------------------------------------------------------------

  ghost predicate SameAnswer(v: View, w: View, q: Select, name: string) {
    Answer(v, q).rows == Answer(w, q).rows && forall i: nat :: Answer(v, q).cell(i, name) == Answer(w, q).cell(i, name)
  }

  /** Two views that agree on what is folded, and match unseen sides at most once. */
  ghost predicate Comparable(v: View, w: View, q: Select, folded: set<Column>) {
    && Agree(v, w, folded, Seen(q, folded))
    && UnseenAreSingle(v, q, Seen(q, folded), |q.joins|) && UnseenAreSingle(w, q, Seen(q, folded), |q.joins|)
  }

  /** Whatever the conditions and expressions make of their columns, what is folded decides the projection. */
  ghost predicate FoldingIsEnough(q: Select, name: string) {
    forall r, v, w :: SameShape(q, r) && Comparable(v, w, r, FoldedOf(q, name)) ==> SameAnswer(v, w, r, name)
  }

  lemma ClosedIsEnough(q: Select, name: string)
    requires Find(q.projections, name).Some? && Closed(q, FoldedOf(q, name))
    ensures FoldingIsEnough(q, name)
  {
    var folded, at := FoldedOf(q, name), Find(q.projections, name).value;
    forall r, v, w | SameShape(q, r) && Comparable(v, w, r, folded) ensures SameAnswer(v, w, r, name) {
      SameFind(q.projections, r.projections, name);
      SameEvery(q, r);
      SameClosed(q, r, folded);
      FoldedHasAll(q, q.projections[at].expr.columns);
      assert SameProjection(q.projections[at], r.projections[at]);
      AnswersAgree(v, w, r, folded, name);
    }
  }

  // -- The query that shows it -----------------------------------------------------------

  function Anything(): seq<Value> -> bool {
    (values: seq<Value>) => true
  }

  function IsZero(p: nat): seq<Value> -> bool {
    (values: seq<Value>) => p < |values| && values[p] == Number(0)
  }

  function Counting(): seq<seq<Value>> -> Value {
    (rows: seq<seq<Value>>) => Number(|rows|)
  }

  function Open(on: Option<Cond>): Option<Cond> {
    if on.Some? then Some(Cond(on.value.columns, Anything())) else None
  }

  function OpenJoin(j: Join): Join {
    j.(on := Open(j.on))
  }

  /** Joins that match whatever they read, but for one that asks whether its `p`-th column is zero. */
  function OpenJoins(joins: seq<Join>, at: nat, p: nat): (opened_: seq<Join>)
    ensures |opened_| == |joins|
  {
    if joins == [] then []
    else
      var n := |joins| - 1;
      OpenJoins(joins[..n], at, p)
      + [if n == at && joins[n].on.Some? then joins[n].(on := Some(Cond(joins[n].on.value.columns, IsZero(p)))) else OpenJoin(joins[n])]
  }

  function Counts(projections: seq<Projection>): (counting: seq<Projection>)
    ensures |counting| == |projections|
  {
    if projections == [] then []
    else
      var last := projections[|projections| - 1];
      Counts(projections[..|projections| - 1]) + [Projection(last.name, Expr(last.expr.columns, Counting()))]
  }

  function Opened(q: Select, at: nat, p: nat): Select {
    Select(q.side, q.source, OpenJoins(q.joins, at, p), Open(q.filter),
           if q.grouping.ByKey? then ByKey(Key(q.grouping.key.columns, (values: seq<Value>) => Null)) else q.grouping,
           if q.having.Some? then Some(Having(q.having.value.columns, (rows: seq<seq<Value>>) => true)) else None,
           q.distinct, Counts(q.projections))
  }

  lemma {:induction false} OpenJoinAt(joins: seq<Join>, at: nat, p: nat, i: nat)
    requires i < |joins|
    ensures var j := joins[i];
      OpenJoins(joins, at, p)[i] == if i == at && j.on.Some? then j.(on := Some(Cond(j.on.value.columns, IsZero(p)))) else OpenJoin(j)
  {
    if i < |joins| - 1 { OpenJoinAt(joins[..|joins| - 1], at, p, i); }
  }

  lemma {:induction false} CountAt(projections: seq<Projection>, i: nat)
    requires i < |projections|
    ensures Counts(projections)[i] == Projection(projections[i].name, Expr(projections[i].expr.columns, Counting()))
  {
    if i < |projections| - 1 { CountAt(projections[..|projections| - 1], i); }
  }

  lemma OpenedIsSameShape(q: Select, at: nat, p: nat)
    ensures SameShape(q, Opened(q, at, p))
  {
    var r := Opened(q, at, p);
    forall i | 0 <= i < |q.joins| ensures SameJoin(q.joins[i], r.joins[i]) { OpenJoinAt(q.joins, at, p, i); }
    forall i | 0 <= i < |q.projections| ensures SameProjection(q.projections[i], r.projections[i]) { CountAt(q.projections, i); }
  }

  // -- The two views ---------------------------------------------------------------------

  /** One row a side but two of one, every cell zero but for one column. */
  function Few(q: Select, two: string, c: Column, n: int): View {
    map side | side in Sides(q) ::
      Relation(if side == two then 2 else 1, (i: nat, name: string) => if Column(side, name) == c then Number(n) else Number(0))
  }

  lemma FewAgree(q: Select, two: string, c: Column, folded: set<Column>)
    requires c !in folded
    ensures Agree(Few(q, two, c, 0), Few(q, two, c, 1), folded, Seen(q, folded))
  {
    var v, w := Few(q, two, c, 0), Few(q, two, c, 1);
    forall d | d in folded ensures d.side in Seen(q, folded) && CellsAgree(v, w, d) {
      assert Column(d.side, d.name) == d;
    }
  }

  lemma FewRows(q: Select, two: string, c: Column, n: int, side: string)
    requires side in Sides(q)
    ensures Rows(Few(q, two, c, n), side) == if side == two then 2 else 1
  {
  }

  // -- Joining them ----------------------------------------------------------------------

  ghost predicate Matching(on: Option<Cond>) {
    on.Some? ==> forall values :: on.value.holds(values)
  }

  lemma TrueExtend(v: View, t: Tuple, j: Join)
    requires Matching(j.on) && Rows(v, j.side) == 1
    ensures Extend(v, t, j) == [t[j.side := Some(0)]]
  {
    assert Matches(v, t, j, 0) == [];
    assert Matches(v, t, j, 1) == [0];
    WithOne(t, j.side, 0);
  }

  lemma ExtendOne(v: View, t: Tuple, j: Join)
    ensures ExtendAll(v, [t], j) == Extend(v, t, j)
  {
    assert [t][..0] == [] && ExtendAll(v, [], j) == [];
  }

  lemma ExtendTwo(v: View, t: Tuple, u: Tuple, j: Join)
    ensures ExtendAll(v, [t, u], j) == Extend(v, t, j) + Extend(v, u, j)
  {
    assert [t, u][..1] == [t];
    ExtendOne(v, t, j);
  }

  lemma NoneUnmatched(v: View, tuples: seq<Tuple>, j: Join)
    requires tuples != [] && Matching(j.on) && Rows(v, j.side) == 1
    ensures JoinOne(v, tuples, j) == ExtendAll(v, tuples, j)
  {
    assert SomeMatch(v, tuples, j, 0);
    assert Unmatched(v, tuples, j, 0) == [];
    assert Unmatched(v, tuples, j, 1) == [];
  }

  lemma TrueJoinOne(v: View, t: Tuple, j: Join)
    requires Matching(j.on) && Rows(v, j.side) == 1
    ensures JoinOne(v, [t], j) == [t[j.side := Some(0)]]
  {
    NoneUnmatched(v, [t], j);
    ExtendOne(v, t, j);
    TrueExtend(v, t, j);
  }

  lemma TrueJoinTwo(v: View, t: Tuple, u: Tuple, j: Join)
    requires Matching(j.on) && Rows(v, j.side) == 1
    ensures JoinOne(v, [t, u], j) == [t[j.side := Some(0)], u[j.side := Some(0)]]
  {
    NoneUnmatched(v, [t, u], j);
    ExtendTwo(v, t, u, j);
    TrueExtend(v, t, j);
    TrueExtend(v, u, j);
  }

  /** The joined row when every side has its only row, and the one of the open join has `o`. */
  function Row(q: Select, k: nat, at: nat, o: Option<nat>): Tuple
    requires k <= |q.joins|
  {
    if k == 0 then map[q.side := Some(0)]
    else Row(q, k - 1, at, o)[q.joins[k - 1].side := if k - 1 == at then o else Some(0)]
  }

  lemma {:induction false} RowSides(q: Select, k: nat, at: nat, o: Option<nat>, side: string)
    requires k <= |q.joins| && Proper(q) && at < |q.joins| && side != q.joins[at].side && Before(q, k, side)
    ensures RowOf(Row(q, k, at, o), side) == Some(0)
  {
    if k > 0 && q.joins[k - 1].side != side {
      if side != q.side { var i :| 0 <= i < k && q.joins[i].side == side; }
      RowSides(q, k - 1, at, o, side);
    }
  }

  lemma {:induction false} ReadsAt(v: View, t: Tuple, columns: seq<Column>, p: nat)
    requires p < |columns|
    ensures |Reads(v, t, columns)| == |columns| && Reads(v, t, columns)[p] == Look(v, t, columns[p])
  {
    if |columns| > 1 {
      ReadsAt(v, t, columns[..|columns| - 1], if p < |columns| - 1 then p else 0);
    } else {
      assert columns[..0] == [];
    }
  }

  /** What a query of few rows is asked about: its `at`-th join, whose `p`-th ON column is `c`. */
  ghost predicate Asks(q: Select, at: nat, p: nat, c: Column) {
    && Proper(q) && at < |q.joins| && q.joins[at].kind.Left? && q.joins[at].on.Some?
    && p < |q.joins[at].on.value.columns| && q.joins[at].on.value.columns[p] == c
  }

  lemma HoldsZero(v: View, t: Tuple, columns: seq<Column>, p: nat)
    requires p < |columns|
    ensures Holds(v, t, Some(Cond(columns, IsZero(p)))) <==> Look(v, t, columns[p]) == Number(0)
  {
    ReadsAt(v, t, columns, p);
  }

  lemma LooksAt(q: Select, two: string, c: Column, n: int, t: Tuple, i: nat)
    requires c.side in Sides(q) && RowOf(t, c.side) == Some(i) && i < if c.side == two then 2 else 1
    ensures Look(Few(q, two, c, n), t, c) == Number(n)
  {
    assert Column(c.side, c.name) == c;
  }

  /** The column's side is joined by then, and has a row. */
  lemma ColumnIsJoined(q: Select, at: nat, p: nat, c: Column, r: nat)
    requires Asks(q, at, p, c) && r < 2
    ensures c.side in Sides(q)
    ensures RowOf(Row(q, at, at, None)[q.joins[at].side := Some(r)], c.side) == Some(if c.side == q.joins[at].side then r else 0)
  {
    assert c in CondColumns(q.joins[at].on);
    assert Before(q, at + 1, c.side);
    if c.side != q.joins[at].side { RowSides(q, at, at, None, c.side); }
  }

  /** The open join matches a row exactly when the column is zero. */
  lemma AsksTheColumn(q: Select, at: nat, p: nat, c: Column, n: int, r: nat)
    requires Asks(q, at, p, c) && r < 2
    ensures var side := q.joins[at].side;
      Holds(Few(q, side, c, n), Row(q, at, at, None)[side := Some(r)], Opened(q, at, p).joins[at].on) <==> n == 0
  {
    var side := q.joins[at].side;
    var v, t := Few(q, side, c, n), Row(q, at, at, None)[side := Some(r)];
    OpenJoinAt(q.joins, at, p, at);
    HoldsZero(v, t, q.joins[at].on.value.columns, p);
    ColumnIsJoined(q, at, p, c, r);
    LooksAt(q, side, c, n, t, if c.side == side then r else 0);
  }

  lemma TwoMatches(v: View, t: Tuple, j: Join, holds: bool)
    requires Rows(v, j.side) == 2 && j.kind.Left?
    requires Holds(v, t[j.side := Some(0)], j.on) == holds && Holds(v, t[j.side := Some(1)], j.on) == holds
    ensures JoinOne(v, [t], j) == if holds then [t[j.side := Some(0)], t[j.side := Some(1)]] else [t[j.side := None]]
  {
    assert Matches(v, t, j, 0) == [];
    assert Matches(v, t, j, 1) == if holds then [0] else [];
    assert Matches(v, t, j, 2) == if holds then [0, 1] else [];
    assert [0, 1][..1] == [0];
    WithOne(t, j.side, 0);
    ExtendOne(v, t, j);
  }

  lemma JoinIsMatching(q: Select, at: nat, p: nat, k: nat)
    requires k < |q.joins| && k != at
    ensures Opened(q, at, p).joins[k] == OpenJoin(q.joins[k]) && Matching(OpenJoin(q.joins[k]).on)
  {
    OpenJoinAt(q.joins, at, p, k);
  }

  /** The joined rows: one for each row of the open join's side when it matches, else one. */
  function Rowed(q: Select, k: nat, at: nat, n: int): seq<Tuple>
    requires k <= |q.joins|
  {
    if k <= at || n != 0 then [Row(q, k, at, None)] else [Row(q, k, at, Some(0)), Row(q, k, at, Some(1))]
  }

  lemma JoinsTheOpen(q: Select, at: nat, p: nat, c: Column, n: int)
    requires Asks(q, at, p, c)
    ensures JoinOne(Few(q, q.joins[at].side, c, n), Rowed(q, at, at, n), Opened(q, at, p).joins[at]) == Rowed(q, at + 1, at, n)
  {
    var side, r := q.joins[at].side, Opened(q, at, p);
    OpenJoinAt(q.joins, at, p, at);
    assert side in Sides(q);
    FewRows(q, side, c, n, side);
    AsksTheColumn(q, at, p, c, n, 0);
    AsksTheColumn(q, at, p, c, n, 1);
    TwoMatches(Few(q, side, c, n), Row(q, at, at, None), r.joins[at], n == 0);
    SameBefore(q, at, at, Some(0));
    SameBefore(q, at, at, Some(1));
  }

  lemma JoinsAnother(q: Select, at: nat, p: nat, c: Column, n: int, k: nat)
    requires Asks(q, at, p, c) && k < |q.joins| && k != at
    ensures JoinOne(Few(q, q.joins[at].side, c, n), Rowed(q, k, at, n), Opened(q, at, p).joins[k]) == Rowed(q, k + 1, at, n)
  {
    var v, r := Few(q, q.joins[at].side, c, n), Opened(q, at, p);
    JoinIsMatching(q, at, p, k);
    assert q.joins[k].side in Sides(q);
    FewRows(q, q.joins[at].side, c, n, q.joins[k].side);
    if k < at || n != 0 {
      TrueJoinOne(v, Row(q, k, at, None), r.joins[k]);
    } else {
      TrueJoinTwo(v, Row(q, k, at, Some(0)), Row(q, k, at, Some(1)), r.joins[k]);
    }
  }

  lemma StartsWithOne(q: Select, at: nat, p: nat, c: Column, n: int)
    requires Asks(q, at, p, c)
    ensures Joined(Few(q, q.joins[at].side, c, n), Opened(q, at, p), 0) == Rowed(q, 0, at, n)
  {
    FewRows(q, q.joins[at].side, c, n, q.side);
    OneRowOf(q.side);
  }

  lemma JoinedStep(v: View, r: Select, k: nat, before: seq<Tuple>, after: seq<Tuple>)
    requires k < |r.joins| && Joined(v, r, k) == before && JoinOne(v, before, r.joins[k]) == after
    ensures Joined(v, r, k + 1) == after
  {
  }

  lemma JoinsOneMore(q: Select, at: nat, p: nat, c: Column, n: int, k: nat)
    requires Asks(q, at, p, c) && k < |q.joins|
    ensures JoinOne(Few(q, q.joins[at].side, c, n), Rowed(q, k, at, n), Opened(q, at, p).joins[k]) == Rowed(q, k + 1, at, n)
  {
    if k == at { JoinsTheOpen(q, at, p, c, n); } else { JoinsAnother(q, at, p, c, n, k); }
  }

  lemma {:induction false} JoinedAre(q: Select, at: nat, p: nat, c: Column, n: int, k: nat)
    requires Asks(q, at, p, c) && k <= |q.joins|
    ensures Joined(Few(q, q.joins[at].side, c, n), Opened(q, at, p), k) == Rowed(q, k, at, n)
  {
    if k == 0 {
      StartsWithOne(q, at, p, c, n);
    } else {
      var e := k - 1;
      JoinedAre(q, at, p, c, n, e);
      JoinsOneMore(q, at, p, c, n, e);
      JoinedStep(Few(q, q.joins[at].side, c, n), Opened(q, at, p), e, Rowed(q, e, at, n), Rowed(q, e + 1, at, n));
    }
  }

  lemma OneRowOf(side: string)
    ensures FirstRows(side, 1) == [map[side := Some(0)]]
  {
    assert FirstRows(side, 0) == [];
  }

  lemma {:induction false} SameBefore(q: Select, k: nat, at: nat, o: Option<nat>)
    requires k <= at && k <= |q.joins|
    ensures Row(q, k, at, o) == Row(q, k, at, None)
  {
    if k > 0 { SameBefore(q, k - 1, at, o); }
  }

  // -- Grouping them ---------------------------------------------------------------------

  lemma OneMoreFiltered(v: View, before: seq<Tuple>, t: Tuple, filter: Option<Cond>)
    ensures Filtered(v, before + [t], filter) == Filtered(v, before, filter) + if Holds(v, t, filter) then [t] else []
  {
    assert (before + [t])[..|before|] == before;
  }

  lemma {:induction false} AllPass(v: View, tuples: seq<Tuple>, filter: Option<Cond>)
    requires Matching(filter)
    ensures Filtered(v, tuples, filter) == tuples
  {
    if tuples != [] {
      var before, t := tuples[..|tuples| - 1], tuples[|tuples| - 1];
      assert tuples == before + [t];
      AllPass(v, before, filter);
      OneMoreFiltered(v, before, t, filter);
    }
  }

  lemma {:induction false} OneGroupEach(v: View, tuples: seq<Tuple>)
    ensures |GroupsOf(v, tuples, EachRow)| == |tuples|
  {
    if tuples != [] { OneGroupEach(v, tuples[..|tuples| - 1]); }
  }

  lemma JoinsTheGroup(rows: seq<Tuple>, t: Tuple)
    ensures PutIn([Group(Null, rows)], Null, t) == [Group(Null, rows + [t])]
    ensures PutIn([], Null, t) == [Group(Null, [t])]
  {
    assert [Group(Null, rows)][..0] == [];
  }

  lemma OneRowMore(v: View, before: seq<Tuple>, t: Tuple, key: Key)
    ensures GroupsOf(v, before + [t], ByKey(key)) == PutIn(GroupsOf(v, before, ByKey(key)), KeyOf(v, t, key), t)
  {
    assert (before + [t])[..|before|] == before;
  }

  lemma {:induction false} OneKey(v: View, tuples: seq<Tuple>, key: Key)
    requires tuples != [] && forall values :: key.of(values) == Null
    ensures GroupsOf(v, tuples, ByKey(key)) == [Group(Null, tuples)]
  {
    var before, t := tuples[..|tuples| - 1], tuples[|tuples| - 1];
    assert tuples == before + [t];
    OneRowMore(v, before, t, key);
    JoinsTheGroup(before, t);
    if before == [] {
      assert GroupsOf(v, before, ByKey(key)) == [];
    } else {
      OneKey(v, before, key);
    }
  }

  lemma {:induction false} AllShown(v: View, groups: seq<Group>, having: Option<Having>)
    requires having.Some? ==> forall rows :: having.value.holds(rows)
    ensures Filtering(v, groups, having) == groups
  {
    if groups != [] {
      AllShown(v, groups[..|groups| - 1], having);
      assert groups == groups[..|groups| - 1] + [groups[|groups| - 1]];
    }
  }

  lemma OneDistinct(v: View, g: Group, projections: seq<Projection>)
    ensures Sql.Distinct(v, [g], projections) == [g]
  {
    assert [g][..0] == [] && Sql.Distinct(v, [], projections) == [];
    assert !Shown(v, [], Sql.Project(v, g, projections), projections);
  }

  lemma {:induction false} ReadsEach(v: View, tuples: seq<Tuple>, columns: seq<Column>)
    ensures |ReadsAll(v, tuples, columns)| == |tuples|
  {
    if tuples != [] { ReadsEach(v, tuples[..|tuples| - 1], columns); }
  }

  lemma GroupsOfOpened(v: View, q: Select, at: nat, p: nat, tuples: seq<Tuple>)
    requires tuples != []
    ensures var r := Opened(q, at, p); var groups := GroupsOf(v, Filtered(v, tuples, r.filter), r.grouping);
      && Filtering(v, groups, r.having) == groups
      && if q.grouping.EachRow? then |groups| == |tuples| else groups == [Group(Null, tuples)]
  {
    var r := Opened(q, at, p);
    AllPass(v, tuples, r.filter);
    AllShown(v, GroupsOf(v, tuples, r.grouping), r.having);
    if q.grouping.EachRow? { OneGroupEach(v, tuples); }
    if q.grouping.ByKey? { OneKey(v, tuples, r.grouping.key); }
  }

  lemma CountsThem(v: View, q: Select, at: nat, p: nat, g: Group, name: string)
    requires Find(q.projections, name).Some?
    ensures var r := Opened(q, at, p); var found := Find(r.projections, name);
      found.Some? && Evaluate(v, g, r.projections[found.value].expr) == Number(|g.rows|)
  {
    var r := Opened(q, at, p);
    OpenedIsSameShape(q, at, p);
    SameFind(q.projections, r.projections, name);
    CountAt(q.projections, Find(q.projections, name).value);
    ReadsEach(v, g.rows, r.projections[Find(q.projections, name).value].expr.columns);
  }

  lemma OutputOfOpened(v: View, q: Select, at: nat, p: nat, tuples: seq<Tuple>)
    requires tuples != [] && Joined(v, Opened(q, at, p), |q.joins|) == tuples && !(q.distinct && q.grouping.EachRow?)
    ensures var out := Output(v, Opened(q, at, p));
      if q.grouping.EachRow? then |out| == |tuples| else out == [Group(Null, tuples)]
  {
    GroupsOfOpened(v, q, at, p, tuples);
    if !q.grouping.EachRow? { OneDistinct(v, Group(Null, tuples), Opened(q, at, p).projections); }
  }

  /** What comes out: as many rows as there are joined rows, or one that counts them. */
  lemma CountsRows(v: View, q: Select, at: nat, p: nat, tuples: seq<Tuple>, name: string)
    requires tuples != [] && Joined(v, Opened(q, at, p), |q.joins|) == tuples
    requires Find(q.projections, name).Some? && !(q.distinct && q.grouping.EachRow?)
    ensures var a := Answer(v, Opened(q, at, p));
      if q.grouping.EachRow? then a.rows == |tuples| else a.rows == 1 && a.cell(0, name) == Number(|tuples|)
  {
    OutputOfOpened(v, q, at, p, tuples);
    if !q.grouping.EachRow? { OneCell(v, q, at, p, Group(Null, tuples), name); }
  }

  lemma OneCell(v: View, q: Select, at: nat, p: nat, g: Group, name: string)
    requires Output(v, Opened(q, at, p)) == [g] && Find(q.projections, name).Some?
    ensures var a := Answer(v, Opened(q, at, p)); a.rows == 1 && a.cell(0, name) == Number(|g.rows|)
  {
    CountsThem(v, q, at, p, g, name);
  }

  // -- The converse ----------------------------------------------------------------------

  lemma {:induction false} FewMatches(v: View, t: Tuple, j: Join, n: nat)
    ensures |Matches(v, t, j, n)| <= n
  {
    if n > 0 { FewMatches(v, t, j, n - 1); }
  }

  lemma OneRowIsSingle(v: View, tuples: seq<Tuple>, j: Join)
    requires Rows(v, j.side) == 1
    ensures AtMostOne(v, tuples, j)
  {
    forall t ensures |Matches(v, t, j, Rows(v, j.side))| <= 1 { FewMatches(v, t, j, Rows(v, j.side)); }
  }

  lemma {:induction false} FewAreSingle(q: Select, r: Select, two: string, c: Column, n: int, seen: set<string>, k: nat)
    requires SameShape(q, r) && k <= |r.joins| && two in seen
    ensures UnseenAreSingle(Few(q, two, c, n), r, seen, k)
  {
    if k > 0 {
      FewAreSingle(q, r, two, c, n, seen, k - 1);
      var v, j := Few(q, two, c, n), r.joins[k - 1];
      if j.side !in seen {
        assert SameJoin(q.joins[k - 1], j) && q.joins[k - 1].side in Sides(q);
        FewRows(q, two, c, n, j.side);
        OneRowIsSingle(v, Joined(v, r, k - 1), j);
      }
    }
  }

  /** A LEFT JOIN that can be seen and is not folded shows: two views alike in all that is folded, and a query of the same
      shape that tells them apart. */
  lemma UnfoldedShows(q: Select, name: string, at: nat, p: nat, c: Column)
    requires Asks(q, at, p, c) && Find(q.projections, name).Some? && !(q.distinct && q.grouping.EachRow?)
    requires q.joins[at].side in Seen(q, FoldedOf(q, name)) && c !in FoldedOf(q, name)
    ensures !FoldingIsEnough(q, name)
  {
    var side, r, folded := q.joins[at].side, Opened(q, at, p), FoldedOf(q, name);
    var v, w, n := Few(q, side, c, 0), Few(q, side, c, 1), |q.joins|;
    OpenedIsSameShape(q, at, p);
    SameSeen(q, r, folded);
    FewAgree(q, side, c, folded);
    FewAreSingle(q, r, side, c, 0, Seen(q, folded), n);
    FewAreSingle(q, r, side, c, 1, Seen(q, folded), n);
    assert Comparable(v, w, r, folded);
    JoinedAre(q, at, p, c, 0, n);
    JoinedAre(q, at, p, c, 1, n);
    CountsRows(v, q, at, p, Rowed(q, n, at, 0), name);
    CountsRows(w, q, at, p, Rowed(q, n, at, 1), name);
    assert !SameAnswer(v, w, r, name);
  }

  lemma UnfoldedColumn(q: Select, folded: set<Column>) returns (at: nat, p: nat, c: Column)
    requires Proper(q) && !Closed(q, folded)
    ensures Asks(q, at, p, c) && q.joins[at].side in Seen(q, folded) && c !in folded
  {
    var j :| j in q.joins && j.kind.Left? && j.side in Seen(q, folded) && !Within(CondColumns(j.on), folded);
    at :| at < |q.joins| && q.joins[at] == j;
    c :| c in CondColumns(j.on) && c !in folded;
    p :| p < |j.on.value.columns| && j.on.value.columns[p] == c;
  }

  /** The theorem: for a query of any shape but DISTINCT over ungrouped rows, what is folded into a projection decides it,
      whatever its conditions and expressions make of their columns, exactly when every LEFT JOIN that can be seen is folded. */
  lemma FoldingIsExact(q: Select, name: string)
    requires Proper(q) && Find(q.projections, name).Some? && !(q.distinct && q.grouping.EachRow?)
    ensures FoldingIsEnough(q, name) <==> Closed(q, FoldedOf(q, name))
  {
    if Closed(q, FoldedOf(q, name)) {
      ClosedIsEnough(q, name);
    } else {
      var at, p, c := UnfoldedColumn(q, FoldedOf(q, name));
      UnfoldedShows(q, name, at, p, c);
    }
  }
}
