/** Folding is exact for DISTINCT over ungrouped rows too, when every join is a LEFT or an inner one. */
module DistinctExact {
  import opened Ids
  import opened Sql
  import opened RowShaping
  import opened NonInterference
  import opened ColumnLineage
  import opened LineageExact

  // -- The query that shows it -----------------------------------------------------------

  /** Nothing is NULL. */
  function NoNull(): seq<Value> -> bool {
    (values: seq<Value>) => Null !in values
  }

  function Sum(values: seq<Value>): int {
    if values == [] then 0
    else
      var last := values[|values| - 1];
      Sum(values[..|values| - 1]) + if last.Number? then last.n else 0
  }

  /** The sum of the values read of a row, NULL if one is. */
  function Adding(): seq<seq<Value>> -> Value {
    (rows: seq<seq<Value>>) => if rows == [] || Null in rows[0] then Null else Number(Sum(rows[0]))
  }

  function Strict(on: Option<Cond>): Option<Cond> {
    if on.Some? then Some(Cond(on.value.columns, NoNull())) else None
  }

  /** Joins that match where nothing is NULL, but for one that asks whether its `p`-th column is zero. */
  function StrictJoins(joins: seq<Join>, at: nat, p: nat): (strict: seq<Join>)
    ensures |strict| == |joins|
  {
    if joins == [] then []
    else
      var n := |joins| - 1;
      StrictJoins(joins[..n], at, p)
      + [if n == at && joins[n].on.Some? then joins[n].(on := Some(Cond(joins[n].on.value.columns, IsZero(p))))
         else joins[n].(on := Strict(joins[n].on))]
  }

  function Sums(projections: seq<Projection>): (adding: seq<Projection>)
    ensures |adding| == |projections|
  {
    if projections == [] then []
    else
      var last := projections[|projections| - 1];
      Sums(projections[..|projections| - 1]) + [Projection(last.name, Expr(last.expr.columns, Adding()))]
  }

  function Stricter(q: Select, at: nat, p: nat): Select
    requires q.grouping.EachRow?
  {
    Select(q.side, q.source, StrictJoins(q.joins, at, p), Strict(q.filter), EachRow,
           if q.having.Some?
           then Some(Having(q.having.value.columns, (rows: seq<seq<Value>>) => rows != [] && Null !in rows[0])) else None,
           q.distinct, Sums(q.projections))
  }

  lemma {:induction false} StrictJoinAt(joins: seq<Join>, at: nat, p: nat, i: nat)
    requires i < |joins|
    ensures var j := joins[i];
      StrictJoins(joins, at, p)[i] == if i == at && j.on.Some? then j.(on := Some(Cond(j.on.value.columns, IsZero(p))))
                                      else j.(on := Strict(j.on))
  {
    if i < |joins| - 1 { StrictJoinAt(joins[..|joins| - 1], at, p, i); }
  }

  lemma {:induction false} SumAt(projections: seq<Projection>, i: nat)
    requires i < |projections|
    ensures Sums(projections)[i] == Projection(projections[i].name, Expr(projections[i].expr.columns, Adding()))
  {
    if i < |projections| - 1 { SumAt(projections[..|projections| - 1], i); }
  }

  lemma StricterIsSameShape(q: Select, at: nat, p: nat)
    requires q.grouping.EachRow?
    ensures SameShape(q, Stricter(q, at, p))
  {
    var r := Stricter(q, at, p);
    forall i | 0 <= i < |q.joins| ensures SameJoin(q.joins[i], r.joins[i]) { StrictJoinAt(q.joins, at, p, i); }
    forall i | 0 <= i < |q.projections| ensures SameProjection(q.projections[i], r.projections[i]) { SumAt(q.projections, i); }
  }

  // -- The two views ---------------------------------------------------------------------

  /** One row a side but two of one, whose cells tell which; the others' are zero, and one column is `n` everywhere. */
  function Telling(q: Select, two: string, c: Column, n: int): View {
    map side | side in Sides(q) ::
      Relation(if side == two then 2 else 1,
               (i: nat, name: string) => if Column(side, name) == c then Number(n) else if side == two then Number(i) else Number(0))
  }

  lemma TellingAgree(q: Select, two: string, c: Column, folded: set<Column>)
    requires c !in folded
    ensures Agree(Telling(q, two, c, 0), Telling(q, two, c, 1), folded, Seen(q, folded))
  {
    var v, w := Telling(q, two, c, 0), Telling(q, two, c, 1);
    forall d | d in folded ensures d.side in Seen(q, folded) && CellsAgree(v, w, d) {
      assert Column(d.side, d.name) == d;
    }
  }

  lemma TellingRows(q: Select, two: string, c: Column, n: int, side: string)
    requires side in Sides(q)
    ensures Rows(Telling(q, two, c, n), side) == if side == two then 2 else 1
  {
  }

  lemma LooksAtTelling(q: Select, two: string, c: Column, n: int, t: Tuple, d: Column, i: nat)
    requires d.side in Sides(q) && RowOf(t, d.side) == Some(i) && i < if d.side == two then 2 else 1
    ensures Look(Telling(q, two, c, n), t, d) == Number(if d == c then n else if d.side == two then i else 0)
  {
    assert Column(d.side, d.name) == d;
  }

  lemma {:induction false} TellingAreSingle(q: Select, r: Select, two: string, c: Column, n: int, seen: set<string>, k: nat)
    requires SameShape(q, r) && k <= |r.joins| && two in seen
    ensures UnseenAreSingle(Telling(q, two, c, n), r, seen, k)
  {
    if k > 0 {
      TellingAreSingle(q, r, two, c, n, seen, k - 1);
      var v, j := Telling(q, two, c, n), r.joins[k - 1];
      if j.side !in seen {
        assert SameJoin(q.joins[k - 1], j) && q.joins[k - 1].side in Sides(q);
        TellingRows(q, two, c, n, j.side);
        OneRowIsSingle(v, Joined(v, r, k - 1), j);
      }
    }
  }

  // -- Reading rows where nothing is missing ---------------------------------------------

  /** The columns are all of sides the row has. */
  ghost predicate Known(q: Select, k: nat, columns: seq<Column>) {
    forall d :: d in columns ==> Before(q, k, d.side)
  }

  lemma {:induction false} ReadsNull(v: View, t: Tuple, columns: seq<Column>)
    requires exists d :: d in columns && Look(v, t, d) == Null
    ensures Null in Reads(v, t, columns)
  {
    var n := |columns| - 1;
    var before, x := Reads(v, t, columns[..n]), Look(v, t, columns[n]);
    assert columns == columns[..n] + [columns[n]];
    if x == Null {
      assert (before + [x])[|before|] == Null;
    } else {
      ReadsNull(v, t, columns[..n]);
      InLonger(before, x, Null);
    }
  }

  lemma InLonger<T>(s: seq<T>, x: T, y: T)
    ensures y in s + [x] <==> y in s || y == x
  {
  }

  lemma {:induction false} ReadsNoNull(v: View, t: Tuple, columns: seq<Column>)
    requires forall d :: d in columns ==> Look(v, t, d) != Null
    ensures Null !in Reads(v, t, columns)
  {
    if columns != [] {
      var n := |columns| - 1;
      assert columns[n] in columns;
      ReadsNoNull(v, t, columns[..n]);
      InLonger(Reads(v, t, columns[..n]), Look(v, t, columns[n]), Null);
    }
  }

  lemma {:induction false} FullRow(q: Select, k: nat, at: nat, i: nat, side: string)
    requires Proper(q) && at < |q.joins| && k <= |q.joins| && Before(q, k, side)
    ensures RowOf(Row(q, k, at, Some(i)), side) == Some(if side == q.joins[at].side then i else 0)
  {
    if k > 0 && q.joins[k - 1].side != side {
      if side != q.side { var e :| 0 <= e < k && e < |q.joins| && q.joins[e].side == side; }
      FullRow(q, k - 1, at, i, side);
    }
  }

  lemma BeforeIsASide(q: Select, k: nat, side: string)
    requires Before(q, k, side)
    ensures side in Sides(q)
  {
  }

  /** In a full row nothing known is NULL. */
  lemma NothingIsNull(q: Select, k: nat, at: nat, c: Column, n: int, i: nat, columns: seq<Column>)
    requires Proper(q) && at < |q.joins| && k <= |q.joins| && i < 2 && Known(q, k, columns)
    ensures Null !in Reads(Telling(q, q.joins[at].side, c, n), Row(q, k, at, Some(i)), columns)
  {
    var v, t := Telling(q, q.joins[at].side, c, n), Row(q, k, at, Some(i));
    forall d | d in columns ensures Look(v, t, d) != Null {
      FullRow(q, k, at, i, d.side);
      BeforeIsASide(q, k, d.side);
      LooksAtTelling(q, q.joins[at].side, c, n, t, d, if d.side == q.joins[at].side then i else 0);
    }
    ReadsNoNull(v, t, columns);
  }

  // -- Joining the view where it matches -------------------------------------------------

  lemma OneExtend(v: View, t: Tuple, j: Join)
    requires Rows(v, j.side) == 1 && Holds(v, t[j.side := Some(0)], j.on)
    ensures Extend(v, t, j) == [t[j.side := Some(0)]]
  {
    assert Matches(v, t, j, 0) == [];
    assert Matches(v, t, j, 1) == [0];
    WithOne(t, j.side, 0);
  }

  lemma NoneOnTheRight(v: View, tuples: seq<Tuple>, j: Join)
    requires j.kind.Left? || j.kind.Inner?
    ensures JoinOne(v, tuples, j) == ExtendAll(v, tuples, j)
  {
  }

  /** The joined rows of the matching view are the full rows. */
  function Full(q: Select, k: nat, at: nat): seq<Tuple>
    requires k <= |q.joins|
  {
    if k <= at then [Row(q, k, at, Some(0))] else [Row(q, k, at, Some(0)), Row(q, k, at, Some(1))]
  }

  ghost predicate LeftOrInner(q: Select) {
    forall i :: 0 <= i < |q.joins| ==> q.joins[i].kind.Left? || q.joins[i].kind.Inner?
  }

  lemma RowNext(q: Select, k: nat, at: nat, i: nat)
    requires k < |q.joins| && k != at
    ensures Row(q, k, at, Some(i))[q.joins[k].side := Some(0)] == Row(q, k + 1, at, Some(i))
  {
  }

  /** The next full row meets the strict ON of its last join. */
  lemma StrictHolds(q: Select, k: nat, at: nat, c: Column, n: int, i: nat)
    requires Proper(q) && at < |q.joins| && k < |q.joins| && i < 2
    ensures Holds(Telling(q, q.joins[at].side, c, n), Row(q, k + 1, at, Some(i)), Strict(q.joins[k].on))
  {
    var columns := CondColumns(q.joins[k].on);
    OnIsKnown(q, k, k + 1);
    NothingIsNull(q, k + 1, at, c, n, i, columns);
    StrictIsMet(Telling(q, q.joins[at].side, c, n), Row(q, k + 1, at, Some(i)), q.joins[k].on);
  }

  lemma StrictAt(q: Select, at: nat, p: nat, k: nat)
    requires k < |q.joins| && k != at && q.grouping.EachRow?
    ensures Stricter(q, at, p).joins[k] == q.joins[k].(on := Strict(q.joins[k].on))
  {
    StrictJoinAt(q.joins, at, p, k);
  }

  lemma OnIsKnown(q: Select, k: nat, next: nat)
    requires Proper(q) && k < |q.joins| && next == k + 1
    ensures Known(q, next, CondColumns(q.joins[k].on))
  {
  }

  lemma StrictIsMet(v: View, t: Tuple, on: Option<Cond>)
    requires Null !in Reads(v, t, CondColumns(on))
    ensures Holds(v, t, Strict(on))
  {
  }

  lemma ExtendsFull(q: Select, k: nat, at: nat, p: nat, c: Column, i: nat)
    requires Asks(q, at, p, c) && k < |q.joins| && k != at && q.grouping.EachRow? && i < 2
    ensures var v, j := Telling(q, q.joins[at].side, c, 0), Stricter(q, at, p).joins[k];
      j.kind == q.joins[k].kind && Extend(v, Row(q, k, at, Some(i)), j) == [Row(q, k + 1, at, Some(i))]
  {
    assert q.joins[k].side in Sides(q);
    TellingRows(q, q.joins[at].side, c, 0, q.joins[k].side);
    StrictAt(q, at, p, k);
    StrictHolds(q, k, at, c, 0, i);
    RowNext(q, k, at, i);
    OneExtend(Telling(q, q.joins[at].side, c, 0), Row(q, k, at, Some(i)), Stricter(q, at, p).joins[k]);
  }

  lemma JoinsFull(q: Select, k: nat, at: nat, p: nat, c: Column)
    requires Asks(q, at, p, c) && LeftOrInner(q) && k < |q.joins| && k != at && q.grouping.EachRow?
    ensures JoinOne(Telling(q, q.joins[at].side, c, 0), Full(q, k, at), Stricter(q, at, p).joins[k]) == Full(q, k + 1, at)
  {
    var v, j := Telling(q, q.joins[at].side, c, 0), Stricter(q, at, p).joins[k];
    ExtendsFull(q, k, at, p, c, 0);
    ExtendsFull(q, k, at, p, c, 1);
    NoneOnTheRight(v, Full(q, k, at), j);
    if k < at {
      ExtendOne(v, Row(q, k, at, Some(0)), j);
    } else {
      ExtendTwo(v, Row(q, k, at, Some(0)), Row(q, k, at, Some(1)), j);
    }
  }

  /** The open join matches a row exactly when the column is zero. */
  lemma AsksTelling(q: Select, at: nat, p: nat, c: Column, n: int, i: nat)
    requires Asks(q, at, p, c) && q.grouping.EachRow? && i < 2
    ensures var j := Stricter(q, at, p).joins[at];
      j.side == q.joins[at].side && j.kind.Left?
      && (Holds(Telling(q, j.side, c, n), Row(q, at, at, Some(0))[j.side := Some(i)], j.on) <==> n == 0)
  {
    var side := q.joins[at].side;
    var v, t := Telling(q, side, c, n), Row(q, at, at, Some(0))[side := Some(i)];
    StrictJoinAt(q.joins, at, p, at);
    HoldsZero(v, t, q.joins[at].on.value.columns, p);
    SameBefore(q, at, at, Some(0));
    ColumnIsJoined(q, at, p, c, i);
    LooksAtTelling(q, side, c, n, t, c, if c.side == side then i else 0);
  }

  lemma JoinsTelling(q: Select, at: nat, p: nat, c: Column, n: int)
    requires Asks(q, at, p, c) && q.grouping.EachRow?
    ensures var v, t := Telling(q, q.joins[at].side, c, n), Row(q, at, at, Some(0));
      JoinOne(v, [t], Stricter(q, at, p).joins[at])
      == if n == 0 then Full(q, at + 1, at) else [t[q.joins[at].side := None]]
  {
    var side := q.joins[at].side;
    assert side in Sides(q);
    TellingRows(q, side, c, n, side);
    AsksTelling(q, at, p, c, n, 0);
    AsksTelling(q, at, p, c, n, 1);
    TwoMatches(Telling(q, side, c, n), Row(q, at, at, Some(0)), Stricter(q, at, p).joins[at], n == 0);
    SameBefore(q, at, at, Some(0));
    SameBefore(q, at, at, Some(1));
  }

  lemma StartsFull(q: Select, at: nat, p: nat, c: Column, n: int)
    requires Asks(q, at, p, c) && q.grouping.EachRow?
    ensures Joined(Telling(q, q.joins[at].side, c, n), Stricter(q, at, p), 0) == Full(q, 0, at)
  {
    TellingRows(q, q.joins[at].side, c, n, q.side);
    OneRowOf(q.side);
  }

  lemma OneMoreFull(q: Select, at: nat, p: nat, c: Column, k: nat)
    requires Asks(q, at, p, c) && LeftOrInner(q) && q.grouping.EachRow? && k < |q.joins|
    ensures JoinOne(Telling(q, q.joins[at].side, c, 0), Full(q, k, at), Stricter(q, at, p).joins[k]) == Full(q, k + 1, at)
  {
    if k == at { JoinsTelling(q, at, p, c, 0); } else { JoinsFull(q, k, at, p, c); }
  }

  lemma {:induction false} JoinedFull(q: Select, at: nat, p: nat, c: Column, k: nat)
    requires Asks(q, at, p, c) && LeftOrInner(q) && q.grouping.EachRow? && k <= |q.joins|
    ensures Joined(Telling(q, q.joins[at].side, c, 0), Stricter(q, at, p), k) == Full(q, k, at)
  {
    if k == 0 {
      StartsFull(q, at, p, c, 0);
    } else {
      var e := k - 1;
      JoinedFull(q, at, p, c, e);
      OneMoreFull(q, at, p, c, e);
      JoinedStep(Telling(q, q.joins[at].side, c, 0), Stricter(q, at, p), e, Full(q, e, at), Full(q, e + 1, at));
    }
  }

  // -- Joining the view where it does not ------------------------------------------------

  /** At most one joined row, and it has nothing of some sides. */
  ghost predicate Lacking(tuples: seq<Tuple>, sides: set<string>) {
    |tuples| <= 1 && forall t, side :: t in tuples && side in sides ==> RowOf(t, side) == None
  }

  lemma SetLacks(t: Tuple, name: string, o: Option<nat>, sides: set<string>)
    requires name !in sides && forall side :: side in sides ==> RowOf(t, side) == None
    ensures Lacking([t[name := o]], sides)
    ensures o.None? ==> Lacking([t[name := o]], sides + {name})
  {
    var u := t[name := o];
    forall side | side in sides ensures RowOf(u, side) == None {
      assert RowOf(u, side) == RowOf(t, side);
    }
  }

  lemma Shortest(m: seq<nat>)
    requires |m| == 1
    ensures m == [m[0]]
  {
  }

  lemma ExtendsByOne(v: View, t: Tuple, j: Join) returns (o: Option<nat>)
    requires Rows(v, j.side) <= 1
    ensures Extend(v, t, j) == [t[j.side := o]] || Extend(v, t, j) == []
  {
    FewMatches(v, t, j, Rows(v, j.side));
    var m := Matches(v, t, j, Rows(v, j.side));
    if |m| == 0 {
      o := None;
      assert WithEach(t, j.side, []) == [];
    } else {
      o := Some(m[0]);
      Shortest(m);
      WithOne(t, j.side, m[0]);
    }
  }

  lemma ExtendLacks(v: View, t: Tuple, j: Join, sides: set<string>)
    requires Rows(v, j.side) <= 1 && j.side !in sides && forall side :: side in sides ==> RowOf(t, side) == None
    ensures Lacking(Extend(v, t, j), sides)
  {
    var o := ExtendsByOne(v, t, j);
    SetLacks(t, j.side, o, sides);
  }

  lemma JoinLacks(v: View, tuples: seq<Tuple>, j: Join, sides: set<string>)
    requires Lacking(tuples, sides) && (j.kind.Left? || j.kind.Inner?) && Rows(v, j.side) <= 1 && j.side !in sides
    ensures Lacking(JoinOne(v, tuples, j), sides)
  {
    NoneOnTheRight(v, tuples, j);
    if tuples != [] {
      assert tuples == [tuples[0]];
      ExtendOne(v, tuples[0], j);
      ExtendLacks(v, tuples[0], j, sides);
    }
  }

  /** A join that reads a column of a lacking side matches nothing. */
  lemma NothingMatches(v: View, t: Tuple, j: Join, d: Column, columns: seq<Column>, n: nat)
    requires j.on == Some(Cond(columns, NoNull())) && d in columns && d.side != j.side && RowOf(t, d.side) == None
    ensures Matches(v, t, j, n) == []
  {
    if n > 0 {
      NothingMatches(v, t, j, d, columns, n - 1);
      var u := t[j.side := Some(n - 1)];
      assert Look(v, u, d) == Null;
      ReadsNull(v, u, columns);
    }
  }

  lemma LackingSpreads(v: View, tuples: seq<Tuple>, j: Join, sides: set<string>, d: Column, columns: seq<Column>)
    requires Lacking(tuples, sides) && d.side in sides && j.side !in sides
    requires j.on == Some(Cond(columns, NoNull())) && d in columns && (j.kind.Left? || j.kind.Inner?)
    ensures Lacking(JoinOne(v, tuples, j), sides + {j.side}) && (j.kind.Inner? ==> JoinOne(v, tuples, j) == [])
  {
    NoneOnTheRight(v, tuples, j);
    if tuples != [] {
      var t := tuples[0];
      assert tuples == [t];
      ExtendOne(v, t, j);
      NothingMatches(v, t, j, d, columns, Rows(v, j.side));
      assert WithEach(t, j.side, []) == [];
      SetLacks(t, j.side, None, sides);
    }
  }

  lemma LacksAtTheOpen(q: Select, at: nat, p: nat, c: Column)
    requires Asks(q, at, p, c) && LeftOrInner(q) && q.grouping.EachRow?
    ensures Lacking(Joined(Telling(q, q.joins[at].side, c, 1), Stricter(q, at, p), at + 1), {q.joins[at].side})
  {
    var v, r, side := Telling(q, q.joins[at].side, c, 1), Stricter(q, at, p), q.joins[at].side;
    var t := Row(q, at, at, Some(0));
    JoinedBefore(q, at, p, c, at);
    JoinsTelling(q, at, p, c, 1);
    JoinedStep(v, r, at, [t], [t[side := None]]);
    SetLacks(t, side, None, {});
    assert {} + {side} == {side};
  }

  /** The joins from one on are LEFT or inner, each to a side of at most one row that is not lacking. */
  ghost predicate Small(v: View, r: Select, from: nat, sides: set<string>) {
    forall i :: from <= i < |r.joins| ==>
      (r.joins[i].kind.Left? || r.joins[i].kind.Inner?) && Rows(v, r.joins[i].side) <= 1 && r.joins[i].side !in sides
  }

  lemma StepLacks(v: View, r: Select, k: nat, sides: set<string>)
    requires k < |r.joins| && Small(v, r, k, sides) && Lacking(Joined(v, r, k), sides)
    ensures Lacking(Joined(v, r, k + 1), sides) && (Joined(v, r, k) == [] ==> Joined(v, r, k + 1) == [])
  {
    var before := Joined(v, r, k);
    JoinLacks(v, before, r.joins[k], sides);
    NoneOnTheRight(v, before, r.joins[k]);
    JoinedStep(v, r, k, before, JoinOne(v, before, r.joins[k]));
  }

  ghost predicate Leads(v: View, r: Select, from: nat, k: nat, sides: set<string>)
    requires from <= |r.joins| && k <= |r.joins|
  {
    Lacking(Joined(v, r, k), sides) && (Joined(v, r, from) == [] ==> Joined(v, r, k) == [])
  }

  /** What is lacking stays so, and nothing stays nothing. */
  lemma {:induction false} StaysLacking(v: View, r: Select, from: nat, k: nat, sides: set<string>)
    requires from <= k <= |r.joins| && Small(v, r, from, sides) && Lacking(Joined(v, r, from), sides)
    ensures Leads(v, r, from, k, sides)
    decreases k
  {
    if from < k {
      var e := k - 1;
      StaysLacking(v, r, from, e, sides);
      OneFurther(v, r, from, e, sides);
    }
  }

  lemma OneFurther(v: View, r: Select, from: nat, e: nat, sides: set<string>)
    requires from <= e < |r.joins| && Small(v, r, from, sides) && Leads(v, r, from, e, sides)
    ensures Leads(v, r, from, e + 1, sides)
  {
    SmallFrom(v, r, from, e, sides);
    StepLacks(v, r, e, sides);
  }

  lemma SmallFrom(v: View, r: Select, from: nat, e: nat, sides: set<string>)
    requires from <= e && Small(v, r, from, sides)
    ensures Small(v, r, e, sides)
  {
  }

  lemma StrictIsSmall(q: Select, at: nat, p: nat, c: Column, from: nat, sides: set<string>)
    requires Asks(q, at, p, c) && LeftOrInner(q) && q.grouping.EachRow? && at < from
    requires forall i :: from <= i < |q.joins| ==> q.joins[i].side !in sides
    ensures Small(Telling(q, q.joins[at].side, c, 1), Stricter(q, at, p), from, sides)
  {
    var v, r := Telling(q, q.joins[at].side, c, 1), Stricter(q, at, p);
    forall i | from <= i < |r.joins|
      ensures (r.joins[i].kind.Left? || r.joins[i].kind.Inner?) && Rows(v, r.joins[i].side) <= 1 && r.joins[i].side !in sides
    {
      StrictJoinAt(q.joins, at, p, i);
      assert q.joins[i].side in Sides(q);
      TellingRows(q, q.joins[at].side, c, 1, q.joins[i].side);
    }
  }

  /** The joined rows after some join, when the open one matches nothing: without its side. */
  lemma JoinedLacking(q: Select, at: nat, p: nat, c: Column, k: nat)
    requires Asks(q, at, p, c) && LeftOrInner(q) && q.grouping.EachRow? && at < k <= |q.joins|
    ensures Lacking(Joined(Telling(q, q.joins[at].side, c, 1), Stricter(q, at, p), k), {q.joins[at].side})
  {
    var from, sides := at + 1, {q.joins[at].side};
    LacksAtTheOpen(q, at, p, c);
    LaterAreOthers(q, at, from, sides);
    StrictIsSmall(q, at, p, c, from, sides);
    StaysLacking(Telling(q, q.joins[at].side, c, 1), Stricter(q, at, p), from, k, sides);
  }

  lemma LaterAreOthers(q: Select, at: nat, from: nat, sides: set<string>)
    requires Proper(q) && at < |q.joins| && from == at + 1 && sides == {q.joins[at].side}
    ensures forall i :: from <= i < |q.joins| ==> q.joins[i].side !in sides
  {
  }

  /** Up to the open join the two views join alike. */
  lemma {:induction false} JoinedBefore(q: Select, at: nat, p: nat, c: Column, k: nat)
    requires Asks(q, at, p, c) && LeftOrInner(q) && q.grouping.EachRow? && k <= at
    ensures Joined(Telling(q, q.joins[at].side, c, 1), Stricter(q, at, p), k) == [Row(q, k, at, Some(0))]
  {
    if k == 0 {
      StartsFull(q, at, p, c, 1);
    } else {
      var e := k - 1;
      JoinedBefore(q, at, p, c, e);
      JoinsBefore(q, at, p, c, e);
      JoinedStep(Telling(q, q.joins[at].side, c, 1), Stricter(q, at, p), e, [Row(q, e, at, Some(0))], [Row(q, e + 1, at, Some(0))]);
    }
  }

  lemma JoinsBefore(q: Select, at: nat, p: nat, c: Column, k: nat)
    requires Asks(q, at, p, c) && LeftOrInner(q) && q.grouping.EachRow? && k < at
    ensures JoinOne(Telling(q, q.joins[at].side, c, 1), [Row(q, k, at, Some(0))], Stricter(q, at, p).joins[k])
         == [Row(q, k + 1, at, Some(0))]
  {
    var v, j := Telling(q, q.joins[at].side, c, 1), Stricter(q, at, p).joins[k];
    assert q.joins[k].side in Sides(q);
    TellingRows(q, q.joins[at].side, c, 1, q.joins[k].side);
    StrictAt(q, at, p, k);
    StrictHolds(q, k, at, c, 1, 0);
    RowNext(q, k, at, 0);
    NoneOnTheRight(v, [Row(q, k, at, Some(0))], j);
    ExtendOne(v, Row(q, k, at, Some(0)), j);
    OneExtend(v, Row(q, k, at, Some(0)), j);
  }

  lemma LacksWhatReads(q: Select, at: nat, p: nat, c: Column, m: nat, d: Column, tuples: seq<Tuple>)
    requires Asks(q, at, p, c) && LeftOrInner(q) && q.grouping.EachRow? && at < m < |q.joins|
    requires d in CondColumns(q.joins[m].on) && d.side == q.joins[at].side && Lacking(tuples, {q.joins[at].side})
    ensures var after := JoinOne(Telling(q, q.joins[at].side, c, 1), tuples, Stricter(q, at, p).joins[m]);
      Lacking(after, {q.joins[at].side, q.joins[m].side}) && (q.joins[m].kind.Inner? ==> after == [])
  {
    var side := q.joins[at].side;
    StrictJoinAt(q.joins, at, p, m);
    LackingSpreads(Telling(q, side, c, 1), tuples, Stricter(q, at, p).joins[m], {side}, d, q.joins[m].on.value.columns);
    assert {side} + {q.joins[m].side} == {side, q.joins[m].side};
  }

  ghost predicate Without(q: Select, at: nat, m: nat, tuples: seq<Tuple>)
    requires at < |q.joins| && m < |q.joins|
  {
    Lacking(tuples, {q.joins[at].side, q.joins[m].side}) && (q.joins[m].kind.Inner? ==> tuples == [])
  }

  lemma StartsWithout(q: Select, at: nat, p: nat, c: Column, m: nat, d: Column)
    requires Asks(q, at, p, c) && LeftOrInner(q) && q.grouping.EachRow? && at < m < |q.joins|
    requires d in CondColumns(q.joins[m].on) && d.side == q.joins[at].side
    ensures Without(q, at, m, Joined(Telling(q, q.joins[at].side, c, 1), Stricter(q, at, p), m + 1))
  {
    var v, r := Telling(q, q.joins[at].side, c, 1), Stricter(q, at, p);
    var before := Joined(v, r, m);
    JoinedLacking(q, at, p, c, m);
    LacksWhatReads(q, at, p, c, m, d, before);
    JoinedStep(v, r, m, before, JoinOne(v, before, r.joins[m]));
  }

  /** And after a later join that reads the open side: its side is missing too, and an inner one leaves nothing. */
  lemma JoinedWithout(q: Select, at: nat, p: nat, c: Column, m: nat, d: Column)
    requires Asks(q, at, p, c) && LeftOrInner(q) && q.grouping.EachRow? && at < m < |q.joins|
    requires d in CondColumns(q.joins[m].on) && d.side == q.joins[at].side
    ensures Without(q, at, m, Joined(Telling(q, q.joins[at].side, c, 1), Stricter(q, at, p), |q.joins|))
  {
    StartsWithout(q, at, p, c, m, d);
    StrictIsSmall(q, at, p, c, m + 1, {q.joins[at].side, q.joins[m].side});
    StaysWithout(Telling(q, q.joins[at].side, c, 1), Stricter(q, at, p), q, at, m);
  }

  lemma StaysWithout(v: View, r: Select, q: Select, at: nat, m: nat)
    requires at < |q.joins| && m < |q.joins| && |r.joins| == |q.joins| && Without(q, at, m, Joined(v, r, m + 1))
    requires Small(v, r, m + 1, {q.joins[at].side, q.joins[m].side})
    ensures Without(q, at, m, Joined(v, r, |q.joins|))
  {
    StaysLacking(v, r, m + 1, |q.joins|, {q.joins[at].side, q.joins[m].side});
  }

  // -- What comes out where nothing is missing -------------------------------------------

  /** Every clause and projection reads sides of the query. */
  ghost predicate ReadsSides(q: Select) {
    && Known(q, |q.joins|, CondColumns(q.filter))
    && (q.having.Some? ==> Known(q, |q.joins|, q.having.value.columns))
    && forall i :: 0 <= i < |q.projections| ==> Known(q, |q.joins|, q.projections[i].expr.columns)
  }

  lemma FilteredTwo(v: View, t: Tuple, u: Tuple, filter: Option<Cond>)
    requires Holds(v, t, filter) && Holds(v, u, filter)
    ensures Filtered(v, [t, u], filter) == [t, u]
  {
    assert [t, u][..1] == [t] && [t][..0] == [];
    assert Filtered(v, [], filter) == [];
    assert Filtered(v, [t], filter) == [t];
  }

  lemma GroupsOfTwo(v: View, t: Tuple, u: Tuple)
    ensures GroupsOf(v, [t, u], EachRow) == [Group(Null, [t]), Group(Null, [u])]
  {
    assert [t, u][..1] == [t] && [t][..0] == [];
    assert GroupsOf(v, [], EachRow) == [];
    assert GroupsOf(v, [t], EachRow) == [Group(Null, [t])];
  }

  predicate Passes(v: View, g: Group, having: Option<Having>) {
    having.None? || having.value.holds(ReadsAll(v, g.rows, having.value.columns))
  }

  lemma FilteringTwo(v: View, g: Group, h: Group, having: Option<Having>)
    requires Passes(v, g, having) && Passes(v, h, having)
    ensures Filtering(v, [g, h], having) == [g, h]
  {
    assert [g, h][..1] == [g] && [g][..0] == [];
    assert Filtering(v, [], having) == [];
    assert Filtering(v, [g], having) == [g];
  }

  lemma DistinctTwo(v: View, g: Group, h: Group, projections: seq<Projection>)
    ensures Sql.Distinct(v, [g, h], projections)
         == if Sql.Project(v, g, projections) == Sql.Project(v, h, projections) then [g] else [g, h]
  {
    OneDistinct(v, g, projections);
    assert [g, h][..1] == [g] && [g][..0] == [];
    assert !Shown(v, [], Sql.Project(v, h, projections), projections);
  }

  lemma ReadsOneRow(v: View, t: Tuple, columns: seq<Column>)
    ensures ReadsAll(v, [t], columns) == [Reads(v, t, columns)]
  {
    assert [t][..0] == [] && ReadsAll(v, [], columns) == [];
  }

  /** A full row passes the filter, and its group the HAVING. */
  lemma FullPasses(q: Select, at: nat, p: nat, c: Column, i: nat)
    requires Asks(q, at, p, c) && q.grouping.EachRow? && ReadsSides(q) && i < 2
    ensures var v, r, t := Telling(q, q.joins[at].side, c, 0), Stricter(q, at, p), Row(q, |q.joins|, at, Some(i));
      Holds(v, t, r.filter) && Passes(v, Group(Null, [t]), r.having)
  {
    if q.filter.Some? { NothingIsNull(q, |q.joins|, at, c, 0, i, q.filter.value.columns); }
    if q.having.Some? {
      NothingIsNull(q, |q.joins|, at, c, 0, i, q.having.value.columns);
      ReadsOneRow(Telling(q, q.joins[at].side, c, 0), Row(q, |q.joins|, at, Some(i)), q.having.value.columns);
    }
  }

  function GroupAt(q: Select, at: nat, i: nat): Group {
    Group(Null, [Row(q, |q.joins|, at, Some(i))])
  }

  lemma OutputFull(q: Select, at: nat, p: nat, c: Column)
    requires Asks(q, at, p, c) && LeftOrInner(q) && q.grouping.EachRow? && ReadsSides(q) && q.distinct
    ensures var v, r := Telling(q, q.joins[at].side, c, 0), Stricter(q, at, p);
      Output(v, r) == if Sql.Project(v, GroupAt(q, at, 0), r.projections) == Sql.Project(v, GroupAt(q, at, 1), r.projections)
                      then [GroupAt(q, at, 0)] else [GroupAt(q, at, 0), GroupAt(q, at, 1)]
  {
    var v, r, n := Telling(q, q.joins[at].side, c, 0), Stricter(q, at, p), |q.joins|;
    var t, u := Row(q, n, at, Some(0)), Row(q, n, at, Some(1));
    JoinedFull(q, at, p, c, n);
    FullPasses(q, at, p, c, 0);
    FullPasses(q, at, p, c, 1);
    FilteredTwo(v, t, u, r.filter);
    GroupsOfTwo(v, t, u);
    FilteringTwo(v, GroupAt(q, at, 0), GroupAt(q, at, 1), r.having);
    DistinctTwo(v, GroupAt(q, at, 0), GroupAt(q, at, 1), r.projections);
  }

  /** A projection that reads the side tells its two rows apart. */
  lemma {:induction false} SumTells(q: Select, at: nat, c: Column, columns: seq<Column>)
    requires Proper(q) && at < |q.joins| && Known(q, |q.joins|, columns)
    ensures var v, n, side := Telling(q, q.joins[at].side, c, 0), |q.joins|, q.joins[at].side;
      var zero, one := Sum(Reads(v, Row(q, n, at, Some(0)), columns)), Sum(Reads(v, Row(q, n, at, Some(1)), columns));
      zero <= one && ((exists d :: d in columns && d.side == side && d != c) ==> zero < one)
  {
    if columns != [] {
      var v, n, side := Telling(q, q.joins[at].side, c, 0), |q.joins|, q.joins[at].side;
      var m := |columns| - 1;
      var d := columns[m];
      assert columns == columns[..m] + [d] && d in columns;
      SumTells(q, at, c, columns[..m]);
      ReadsTell(q, at, c, d, 0);
      ReadsTell(q, at, c, d, 1);
      SumOfMore(Reads(v, Row(q, n, at, Some(0)), columns[..m]), Look(v, Row(q, n, at, Some(0)), d));
      SumOfMore(Reads(v, Row(q, n, at, Some(1)), columns[..m]), Look(v, Row(q, n, at, Some(1)), d));
    }
  }

  lemma ReadsTell(q: Select, at: nat, c: Column, d: Column, i: nat)
    requires Proper(q) && at < |q.joins| && i < 2 && Before(q, |q.joins|, d.side)
    ensures Look(Telling(q, q.joins[at].side, c, 0), Row(q, |q.joins|, at, Some(i)), d)
         == Number(if d != c && d.side == q.joins[at].side then i else 0)
  {
    var t := Row(q, |q.joins|, at, Some(i));
    FullRow(q, |q.joins|, at, i, d.side);
    BeforeIsASide(q, |q.joins|, d.side);
    LooksAtTelling(q, q.joins[at].side, c, 0, t, d, if d.side == q.joins[at].side then i else 0);
  }

  lemma SumOfMore(values: seq<Value>, x: Value)
    ensures Sum(values + [x]) == Sum(values) + if x.Number? then x.n else 0
  {
    assert (values + [x])[..|values|] == values;
  }

  /** What a projection shows of a full row. */
  lemma ShowsSum(q: Select, at: nat, p: nat, c: Column, e: nat, i: nat)
    requires Asks(q, at, p, c) && q.grouping.EachRow? && ReadsSides(q) && e < |q.projections| && i < 2
    ensures var v, t := Telling(q, q.joins[at].side, c, 0), Row(q, |q.joins|, at, Some(i));
      Evaluate(v, GroupAt(q, at, i), Stricter(q, at, p).projections[e].expr)
      == Number(Sum(Reads(v, t, q.projections[e].expr.columns)))
  {
    SumAt(q.projections, e);
    NothingIsNull(q, |q.joins|, at, c, 0, i, q.projections[e].expr.columns);
    ReadsOneRow(Telling(q, q.joins[at].side, c, 0), Row(q, |q.joins|, at, Some(i)), q.projections[e].expr.columns);
  }

  lemma {:induction false} ProjectAt(v: View, g: Group, projections: seq<Projection>, e: nat)
    requires e < |projections|
    ensures |Sql.Project(v, g, projections)| == |projections|
    ensures Sql.Project(v, g, projections)[e] == Evaluate(v, g, projections[e].expr)
  {
    if |projections| > 1 {
      ProjectAt(v, g, projections[..|projections| - 1], if e < |projections| - 1 then e else 0);
    } else {
      assert projections[..0] == [];
    }
  }

  lemma TwoComeOut(q: Select, at: nat, p: nat, c: Column, e: nat, d: Column)
    requires Asks(q, at, p, c) && LeftOrInner(q) && q.grouping.EachRow? && ReadsSides(q) && q.distinct
    requires e < |q.projections| && d in q.projections[e].expr.columns && d.side == q.joins[at].side && d != c
    ensures |Output(Telling(q, q.joins[at].side, c, 0), Stricter(q, at, p))| == 2
  {
    var v, r := Telling(q, q.joins[at].side, c, 0), Stricter(q, at, p);
    OutputFull(q, at, p, c);
    ShowsSum(q, at, p, c, e, 0);
    ShowsSum(q, at, p, c, e, 1);
    SumTells(q, at, c, q.projections[e].expr.columns);
    ProjectAt(v, GroupAt(q, at, 0), r.projections, e);
    ProjectAt(v, GroupAt(q, at, 1), r.projections, e);
  }

  // -- What comes out where a side is missing --------------------------------------------

  lemma OutputOfNone(v: View, r: Select)
    requires r.grouping.EachRow? && Joined(v, r, |r.joins|) == []
    ensures Output(v, r) == []
  {
    assert Filtered(v, [], r.filter) == [] && GroupsOf(v, [], EachRow) == [];
    assert Filtering(v, [], r.having) == [] && Sql.Distinct(v, [], r.projections) == [];
  }

  lemma OutputOfOne(v: View, r: Select, t: Tuple)
    requires r.grouping.EachRow? && Joined(v, r, |r.joins|) == [t]
    ensures Output(v, r) == if Holds(v, t, r.filter) && Passes(v, Group(Null, [t]), r.having) then [Group(Null, [t])] else []
  {
    var g := Group(Null, [t]);
    assert [t][..0] == [] && [g][..0] == [];
    assert Filtered(v, [], r.filter) == [] && GroupsOf(v, [], EachRow) == [] && Filtering(v, [], r.having) == [];
    assert Sql.Distinct(v, [], r.projections) == [];
    assert Filtered(v, [t], r.filter) == if Holds(v, t, r.filter) then [t] else [];
    assert GroupsOf(v, [t], EachRow) == [g];
    assert Filtering(v, [g], r.having) == if Passes(v, g, r.having) then [g] else [];
    OneDistinct(v, g, r.projections);
  }

  /** At most one row comes out, and it lacks what the joined row lacks. */
  lemma OutputLacks(v: View, r: Select, sides: set<string>)
    requires r.grouping.EachRow? && Lacking(Joined(v, r, |r.joins|), sides)
    ensures |Output(v, r)| <= 1
    ensures forall g :: g in Output(v, r) ==> |g.rows| == 1 && forall side :: side in sides ==> RowOf(g.rows[0], side) == None
  {
    var tuples := Joined(v, r, |r.joins|);
    if tuples == [] {
      OutputOfNone(v, r);
    } else {
      assert tuples == [tuples[0]];
      OutputOfOne(v, r, tuples[0]);
    }
  }

  lemma MissingIsNull(v: View, t: Tuple, columns: seq<Column>, d: Column)
    requires d in columns && RowOf(t, d.side) == None
    ensures Null in Reads(v, t, columns)
  {
    assert Look(v, t, d) == Null;
    ReadsNull(v, t, columns);
  }

  lemma ShutOut(q: Select, at: nat, p: nat, v: View, t: Tuple, d: Column)
    requires q.grouping.EachRow? && RowOf(t, d.side) == None
    requires d in CondColumns(q.filter) || (q.having.Some? && d in q.having.value.columns)
    ensures var r := Stricter(q, at, p); !(Holds(v, t, r.filter) && Passes(v, Group(Null, [t]), r.having))
  {
    if d in CondColumns(q.filter) {
      MissingIsNull(v, t, q.filter.value.columns, d);
    } else {
      MissingIsNull(v, t, q.having.value.columns, d);
      ReadsOneRow(v, t, q.having.value.columns);
    }
  }

  lemma LackingOne(tuples: seq<Tuple>, sides: set<string>, side: string)
    requires Lacking(tuples, sides) && tuples != [] && side in sides
    ensures tuples == [tuples[0]] && RowOf(tuples[0], side) == None
  {
    assert tuples[0] in tuples;
  }

  /** Where a filter or a HAVING reads the missing side nothing comes out. */
  lemma NothingComesOut(q: Select, at: nat, p: nat, c: Column, d: Column)
    requires Asks(q, at, p, c) && LeftOrInner(q) && q.grouping.EachRow? && d.side == q.joins[at].side
    requires d in CondColumns(q.filter) || (q.having.Some? && d in q.having.value.columns)
    ensures Output(Telling(q, q.joins[at].side, c, 1), Stricter(q, at, p)) == []
  {
    var v, r := Telling(q, q.joins[at].side, c, 1), Stricter(q, at, p);
    JoinedLacking(q, at, p, c, |q.joins|);
    var tuples := Joined(v, r, |q.joins|);
    if tuples == [] {
      OutputOfNone(v, r);
    } else {
      LackingOne(tuples, {q.joins[at].side}, d.side);
      ShutOut(q, at, p, v, tuples[0], d);
      OutputOfOne(v, r, tuples[0]);
    }
  }

  lemma CellOfFirst(v: View, r: Select, g: Group, name: string, e: nat)
    requires |Output(v, r)| > 0 && Output(v, r)[0] == g && Find(r.projections, name) == Some(e)
    ensures Answer(v, r).cell(0, name) == Evaluate(v, g, r.projections[e].expr)
  {
  }

  lemma ShowsNull(q: Select, at: nat, p: nat, v: View, g: Group, e: nat, d: Column)
    requires q.grouping.EachRow? && e < |q.projections| && |g.rows| == 1
    requires d in q.projections[e].expr.columns && RowOf(g.rows[0], d.side) == None
    ensures Evaluate(v, g, Stricter(q, at, p).projections[e].expr) == Null
  {
    SumAt(q.projections, e);
    assert g.rows == [g.rows[0]];
    ReadsOneRow(v, g.rows[0], q.projections[e].expr.columns);
    MissingIsNull(v, g.rows[0], q.projections[e].expr.columns, d);
  }

  // -- The converse ----------------------------------------------------------------------

  lemma {:induction false} JoinColumnOf(joins: seq<Join>, d: Column) returns (m: nat)
    requires d in JoinColumns(joins)
    ensures m < |joins| && !joins[m].kind.Left? && d in CondColumns(joins[m].on)
  {
    var n := |joins| - 1;
    if !joins[n].kind.Left? && d in CondColumns(joins[n].on) {
      m := n;
    } else {
      m := JoinColumnOf(joins[..n], d);
    }
  }

  lemma {:induction false} LeftColumnOf(joins: seq<Join>, read: set<string>, d: Column) returns (m: nat)
    requires d in LeftColumns(joins, read)
    ensures m < |joins| && joins[m].kind.Left? && joins[m].side in read && d in CondColumns(joins[m].on)
  {
    var n := |joins| - 1;
    if joins[n].kind.Left? && joins[n].side in read && d in CondColumns(joins[n].on) {
      m := n;
    } else {
      m := LeftColumnOf(joins[..n], read, d);
    }
  }

  lemma {:induction false} SelectColumnOf(projections: seq<Projection>, d: Column) returns (e: nat)
    requires d in SelectColumns(projections)
    ensures e < |projections| && d in projections[e].expr.columns
  {
    var n := |projections| - 1;
    if d in projections[n].expr.columns {
      e := n;
    } else {
      e := SelectColumnOf(projections[..n], d);
    }
  }

  /** A later join reads the side. */
  lemma ReadsLater(q: Select, at: nat, m: nat, d: Column)
    requires Proper(q) && at < |q.joins| && m < |q.joins| && m != at && d in CondColumns(q.joins[m].on)
    requires d.side == q.joins[at].side
    ensures at < m
  {
    assert Before(q, m + 1, d.side);
    var i :| 0 <= i < m + 1 && i < |q.joins| && q.joins[i].side == d.side;
    assert i == at;
  }

  /** The two views, and the query that tells them apart when they come out differently. */
  lemma TellsApart(q: Select, name: string, at: nat, p: nat, c: Column)
    requires Asks(q, at, p, c) && q.grouping.EachRow? && Find(q.projections, name).Some?
    requires q.joins[at].side in Seen(q, FoldedOf(q, name)) && c !in FoldedOf(q, name)
    requires !SameAnswer(Telling(q, q.joins[at].side, c, 0), Telling(q, q.joins[at].side, c, 1), Stricter(q, at, p), name)
    ensures !FoldingIsEnough(q, name)
  {
    var side, r, folded, n := q.joins[at].side, Stricter(q, at, p), FoldedOf(q, name), |q.joins|;
    var v, w := Telling(q, side, c, 0), Telling(q, side, c, 1);
    StricterIsSameShape(q, at, p);
    SameSeen(q, r, folded);
    TellingAgree(q, side, c, folded);
    TellingAreSingle(q, r, side, c, 0, Seen(q, folded), n);
    TellingAreSingle(q, r, side, c, 1, Seen(q, folded), n);
    assert Comparable(v, w, r, folded);
  }

  lemma SomeComeOut(q: Select, at: nat, p: nat, c: Column)
    requires Asks(q, at, p, c) && LeftOrInner(q) && q.grouping.EachRow? && ReadsSides(q) && q.distinct
    ensures var out := Output(Telling(q, q.joins[at].side, c, 0), Stricter(q, at, p)); |out| > 0 && out[0] == GroupAt(q, at, 0)
  {
    OutputFull(q, at, p, c);
  }

  /** A left join that reads the side, whose own side the projection reads: the value is NULL, or nothing comes out. */
  lemma ReadThroughAJoin(q: Select, name: string, at: nat, p: nat, c: Column, m: nat, d: Column, b: Column)
    requires Asks(q, at, p, c) && LeftOrInner(q) && q.grouping.EachRow? && ReadsSides(q) && q.distinct
    requires at < m < |q.joins| && d in CondColumns(q.joins[m].on) && d.side == q.joins[at].side
    requires Find(q.projections, name).Some? && b in q.projections[Find(q.projections, name).value].expr.columns
    requires b.side == q.joins[m].side
    ensures !SameAnswer(Telling(q, q.joins[at].side, c, 0), Telling(q, q.joins[at].side, c, 1), Stricter(q, at, p), name)
  {
    var v, w, r := Telling(q, q.joins[at].side, c, 0), Telling(q, q.joins[at].side, c, 1), Stricter(q, at, p);
    var e := Find(q.projections, name).value;
    SomeComeOut(q, at, p, c);
    JoinedWithout(q, at, p, c, m, d);
    OutputLacks(w, r, {q.joins[at].side, q.joins[m].side});
    StricterIsSameShape(q, at, p);
    SameFind(q.projections, r.projections, name);
    CellOfFirst(v, r, GroupAt(q, at, 0), name, e);
    ShowsSum(q, at, p, c, e, 0);
    if Output(w, r) != [] {
      var g := Output(w, r)[0];
      CellOfFirst(w, r, g, name, e);
      ShowsNull(q, at, p, w, g, e, b);
    }
  }

  /** An inner join that reads the side: nothing comes out. */
  lemma ReadByAnInner(q: Select, at: nat, p: nat, c: Column, m: nat, d: Column)
    requires Asks(q, at, p, c) && LeftOrInner(q) && q.grouping.EachRow? && at < m < |q.joins|
    requires q.joins[m].kind.Inner? && d in CondColumns(q.joins[m].on) && d.side == q.joins[at].side
    ensures Output(Telling(q, q.joins[at].side, c, 1), Stricter(q, at, p)) == []
  {
    JoinedWithout(q, at, p, c, m, d);
    OutputOfNone(Telling(q, q.joins[at].side, c, 1), Stricter(q, at, p));
  }

  /** However the side is seen, the two views come out differently. */
  lemma SeenShows(q: Select, name: string, at: nat, p: nat, c: Column, b: Column)
    requires Asks(q, at, p, c) && LeftOrInner(q) && q.grouping.EachRow? && ReadsSides(q) && q.distinct
    requires Find(q.projections, name).Some? && c !in FoldedOf(q, name)
    requires b in FoldedOf(q, name) && b.side == q.joins[at].side
    ensures !SameAnswer(Telling(q, q.joins[at].side, c, 0), Telling(q, q.joins[at].side, c, 1), Stricter(q, at, p), name)
  {
    var v, w, r := Telling(q, q.joins[at].side, c, 0), Telling(q, q.joins[at].side, c, 1), Stricter(q, at, p);
    var columns := q.projections[Find(q.projections, name).value].expr.columns;
    var read := SidesOf(columns);
    SomeComeOut(q, at, p, c);
    NotReadItself(q, name, at, p, c);
    if b in SelectColumns(q.projections) {
      var e := SelectColumnOf(q.projections, b);
      TwoComeOut(q, at, p, c, e, b);
      JoinedLacking(q, at, p, c, |q.joins|);
      OutputLacks(w, r, {q.joins[at].side});
    } else if b in CondColumns(q.filter) || (q.having.Some? && b in q.having.value.columns) {
      NothingComesOut(q, at, p, c, b);
    } else if b in JoinColumns(q.joins) {
      var m := JoinColumnOf(q.joins, b);
      ReadsLater(q, at, m, b);
      ReadByAnInner(q, at, p, c, m, b);
    } else {
      InLeftColumns(q, name, b);
      var m := LeftColumnOf(q.joins, read, b);
      var d :| d in columns && d.side == q.joins[m].side;
      ReadsLater(q, at, m, b);
      ReadThroughAJoin(q, name, at, p, c, m, b, d);
    }
  }

  lemma InLeftColumns(q: Select, name: string, b: Column)
    requires Find(q.projections, name).Some? && b in FoldedOf(q, name) && q.grouping.EachRow?
    requires b !in SelectColumns(q.projections) && b !in CondColumns(q.filter) && b !in JoinColumns(q.joins)
    requires q.having.Some? ==> b !in q.having.value.columns
    ensures b in LeftColumns(q.joins, SidesOf(q.projections[Find(q.projections, name).value].expr.columns))
  {
    var e := Find(q.projections, name).value;
    ProjectionColumns(q.projections, e);
  }

  lemma {:induction false} ProjectionColumns(projections: seq<Projection>, e: nat)
    requires e < |projections|
    ensures forall d :: d in projections[e].expr.columns ==> d in SelectColumns(projections)
  {
    if e < |projections| - 1 { ProjectionColumns(projections[..|projections| - 1], e); }
  }

  lemma ReadIsFolded(q: Select, name: string, at: nat, p: nat, c: Column)
    requires Asks(q, at, p, c) && Find(q.projections, name).Some?
    requires q.joins[at].side in SidesOf(q.projections[Find(q.projections, name).value].expr.columns)
    ensures c in FoldedOf(q, name)
  {
    var read := SidesOf(q.projections[Find(q.projections, name).value].expr.columns);
    LeftColumnsAre(q.joins, read);
    assert q.joins[at] in q.joins && c in CondColumns(q.joins[at].on);
    assert c in LeftColumns(q.joins, read);
  }

  /** The projection does not read the side of a LEFT JOIN that is not folded into it. */
  lemma NotReadItself(q: Select, name: string, at: nat, p: nat, c: Column)
    requires Asks(q, at, p, c) && Find(q.projections, name).Some? && c !in FoldedOf(q, name)
    ensures q.joins[at].side !in SidesOf(q.projections[Find(q.projections, name).value].expr.columns)
  {
    if q.joins[at].side in SidesOf(q.projections[Find(q.projections, name).value].expr.columns) {
      ReadIsFolded(q, name, at, p, c);
    }
  }

  lemma SeenByAColumn(q: Select, folded: set<Column>, at: nat) returns (b: Column)
    requires Proper(q) && at < |q.joins| && q.joins[at].kind.Left? && q.joins[at].side in Seen(q, folded)
    ensures b in folded && b.side == q.joins[at].side
  {
    forall j | j in q.joins && !j.kind.Left? ensures j.side != q.joins[at].side {
      var i :| 0 <= i < |q.joins| && q.joins[i] == j;
      assert i != at;
    }
    b :| b in folded && b.side == q.joins[at].side;
  }

  /** The theorem for DISTINCT over ungrouped rows: with LEFT and inner joins only, folding is enough exactly when every
      LEFT JOIN that can be seen is folded. */
  lemma FoldingIsExactForDistinct(q: Select, name: string)
    requires Proper(q) && ReadsSides(q) && LeftOrInner(q) && q.grouping.EachRow? && q.distinct
    requires Find(q.projections, name).Some?
    ensures FoldingIsEnough(q, name) <==> Closed(q, FoldedOf(q, name))
  {
    if Closed(q, FoldedOf(q, name)) {
      ClosedIsEnough(q, name);
    } else {
      var at, p, c := UnfoldedColumn(q, FoldedOf(q, name));
      var b := SeenByAColumn(q, FoldedOf(q, name), at);
      SeenShows(q, name, at, p, c, b);
      TellsApart(q, name, at, p, c);
    }
  }

  // -- Where it is not -------------------------------------------------------------------

  /** DISTINCT over projections that read nothing, after a RIGHT JOIN. */
  ghost predicate Constant(q: Select) {
    && q.distinct && q.grouping.EachRow? && q.filter.None? && q.having.None?
    && q.joins != [] && q.joins[|q.joins| - 1].kind.Right?
    && forall i :: 0 <= i < |q.projections| ==> q.projections[i].expr.columns == []
  }

  lemma {:induction false} UnmatchedOrMatched(v: View, tuples: seq<Tuple>, j: Join, n: nat)
    requires n > 0
    ensures Unmatched(v, tuples, j, n) != [] || SomeMatch(v, tuples, j, 0)
  {
    if n > 1 { UnmatchedOrMatched(v, tuples, j, n - 1); }
  }

  lemma {:induction false} MatchedExtends(v: View, t: Tuple, j: Join, n: nat)
    requires n > 0 && Holds(v, t[j.side := Some(0)], j.on)
    ensures Matches(v, t, j, n) != []
  {
    if n > 1 { MatchedExtends(v, t, j, n - 1); }
  }

  lemma {:induction false} SomeExtend(v: View, tuples: seq<Tuple>, j: Join)
    requires SomeMatch(v, tuples, j, 0) && Rows(v, j.side) > 0
    ensures ExtendAll(v, tuples, j) != []
  {
    var n := |tuples| - 1;
    if SomeMatch(v, tuples[..n], j, 0) {
      SomeExtend(v, tuples[..n], j);
    } else {
      MatchedExtends(v, tuples[n], j, Rows(v, j.side));
      WithSome(tuples[n], j.side, Matches(v, tuples[n], j, Rows(v, j.side)));
    }
  }

  lemma WithSome(t: Tuple, side: string, rows: seq<nat>)
    requires rows != []
    ensures WithEach(t, side, rows) != []
  {
  }

  lemma {:induction false} NothingToExtend(v: View, tuples: seq<Tuple>, j: Join)
    requires j.kind.Right? && Rows(v, j.side) == 0
    ensures ExtendAll(v, tuples, j) == []
  {
    if tuples != [] { NothingToExtend(v, tuples[..|tuples| - 1], j); }
  }

  /** After a RIGHT JOIN there are joined rows exactly when its side has rows. */
  lemma RightHasRows(v: View, tuples: seq<Tuple>, j: Join)
    requires j.kind.Right?
    ensures JoinOne(v, tuples, j) == [] <==> Rows(v, j.side) == 0
  {
    if Rows(v, j.side) == 0 {
      NothingToExtend(v, tuples, j);
    } else {
      UnmatchedOrMatched(v, tuples, j, Rows(v, j.side));
      if SomeMatch(v, tuples, j, 0) { SomeExtend(v, tuples, j); }
    }
  }

  ghost predicate OfOne(groups: seq<Group>) {
    forall g :: g in groups ==> |g.rows| == 1
  }

  lemma {:induction false} EachIsOfOne(v: View, tuples: seq<Tuple>)
    ensures OfOne(GroupsOf(v, tuples, EachRow)) && (GroupsOf(v, tuples, EachRow) == [] <==> tuples == [])
  {
    if tuples != [] { EachIsOfOne(v, tuples[..|tuples| - 1]); }
  }

  lemma EvaluatesAlike(v: View, w: View, g: Group, h: Group, e: Expr)
    requires |g.rows| == 1 && |h.rows| == 1 && e.columns == []
    ensures Evaluate(v, g, e) == Evaluate(w, h, e)
  {
    assert g.rows == [g.rows[0]] && h.rows == [h.rows[0]];
    ReadsOneRow(v, g.rows[0], []);
    ReadsOneRow(w, h.rows[0], []);
  }

  lemma {:induction false} ProjectsAlike(v: View, g: Group, h: Group, projections: seq<Projection>)
    requires |g.rows| == 1 && |h.rows| == 1 && forall i :: 0 <= i < |projections| ==> projections[i].expr.columns == []
    ensures Sql.Project(v, g, projections) == Sql.Project(v, h, projections)
  {
    if projections != [] {
      ProjectsAlike(v, g, h, projections[..|projections| - 1]);
      EvaluatesAlike(v, v, g, h, projections[|projections| - 1].expr);
    }
  }

  lemma ShownInOne(v: View, g: Group, values: seq<Value>, projections: seq<Projection>)
    ensures Shown(v, [g], values, projections) <==> Sql.Project(v, g, projections) == values
  {
    assert [g][..0] == [] && !Shown(v, [], values, projections);
  }

  lemma AddsNothing(v: View, before: seq<Group>, g: Group, projections: seq<Projection>)
    requires |before| == 1 && OfOne(before) && |g.rows| == 1
    requires forall i :: 0 <= i < |projections| ==> projections[i].expr.columns == []
    ensures Shown(v, before, Sql.Project(v, g, projections), projections)
  {
    assert before == [before[0]] && before[0] in before;
    ProjectsAlike(v, before[0], g, projections);
    ShownInOne(v, before[0], Sql.Project(v, g, projections), projections);
  }

  lemma {:induction false} OneIsDistinct(v: View, groups: seq<Group>, projections: seq<Projection>)
    requires OfOne(groups) && groups != [] && forall i :: 0 <= i < |projections| ==> projections[i].expr.columns == []
    ensures |Sql.Distinct(v, groups, projections)| == 1 && OfOne(Sql.Distinct(v, groups, projections))
  {
    var n := |groups| - 1;
    if n == 0 {
      assert groups == [groups[0]];
      OneDistinct(v, groups[0], projections);
    } else {
      OneIsDistinct(v, groups[..n], projections);
      assert groups[n] in groups;
      AddsNothing(v, Sql.Distinct(v, groups[..n], projections), groups[n], projections);
    }
  }

  lemma ConstantGroups(v: View, r: Select, tuples: seq<Tuple>)
    requires Constant(r)
    ensures var out := Sql.Distinct(v, Filtering(v, GroupsOf(v, Filtered(v, tuples, r.filter), r.grouping), r.having), r.projections);
      OfOne(out) && |out| == if tuples == [] then 0 else 1
  {
    AllPass(v, tuples, r.filter);
    EachIsOfOne(v, tuples);
    AllShown(v, GroupsOf(v, tuples, EachRow), r.having);
    if tuples != [] { OneIsDistinct(v, GroupsOf(v, tuples, EachRow), r.projections); }
  }

  lemma ConstantOutput(v: View, r: Select)
    requires Constant(r)
    ensures OfOne(Output(v, r)) && |Output(v, r)| == if Rows(v, r.joins[|r.joins| - 1].side) == 0 then 0 else 1
  {
    var before := Joined(v, r, |r.joins| - 1);
    RightHasRows(v, before, r.joins[|r.joins| - 1]);
    ConstantGroups(v, r, JoinOne(v, before, r.joins[|r.joins| - 1]));
  }

  lemma ConstantShape(q: Select, r: Select)
    requires Constant(q) && SameShape(q, r)
    ensures Constant(r) && r.joins[|r.joins| - 1].side == q.joins[|q.joins| - 1].side
  {
    assert SameJoin(q.joins[|q.joins| - 1], r.joins[|r.joins| - 1]);
    forall i | 0 <= i < |r.projections| ensures r.projections[i].expr.columns == [] {
      assert SameProjection(q.projections[i], r.projections[i]);
    }
  }

  /** Such a query answers one row or none, as its last side has rows or not, whatever its joins match. */
  lemma ConstantsNeedNoFolding(q: Select, name: string)
    requires Constant(q)
    ensures FoldingIsEnough(q, name)
  {
    var folded, last := FoldedOf(q, name), q.joins[|q.joins| - 1].side;
    assert q.joins[|q.joins| - 1] in q.joins;
    assert last in Seen(q, folded);
    forall r, v, w | SameShape(q, r) && Comparable(v, w, r, folded) ensures SameAnswer(v, w, r, name) {
      ConstantShape(q, r);
      SameSeen(q, r, folded);
      ConstantOutput(v, r);
      ConstantOutput(w, r);
      ConstantCells(v, w, r, name);
    }
  }

  lemma ConstantCells(v: View, w: View, r: Select, name: string)
    requires Constant(r) && OfOne(Output(v, r)) && OfOne(Output(w, r)) && |Output(v, r)| == |Output(w, r)|
    ensures SameAnswer(v, w, r, name)
  {
    var found := Find(r.projections, name);
    forall i: nat | i < |Output(v, r)| && found.Some? ensures CellOf(v, r, i, name) == CellOf(w, r, i, name) {
      assert Output(v, r)[i] in Output(v, r) && Output(w, r)[i] in Output(w, r);
      EvaluatesAlike(v, w, Output(v, r)[i], Output(w, r)[i], r.projections[found.value].expr);
    }
  }

  /** `SELECT DISTINCT e AS e FROM a LEFT JOIN b ON b.x = a.x RIGHT JOIN c ON c.y = b.y`, for an `e` that reads nothing. */
  function ConstantChain(e: Expr, first: seq<Value> -> bool, second: seq<Value> -> bool): Select {
    Select("a", Raw("a"),
           [Join(Left, "b", Raw("b"), Some(Cond([Column("b", "x"), Column("a", "x")], first))),
            Join(Right, "c", Raw("c"), Some(Cond([Column("c", "y"), Column("b", "y")], second)))],
           None, EachRow, None, true, [Projection("e", e)])
  }

  /** So with a RIGHT JOIN folding can be enough though a LEFT JOIN that is seen is not folded. */
  lemma RightJoinsAreNotExact(e: Expr, first: seq<Value> -> bool, second: seq<Value> -> bool)
    requires e.columns == []
    ensures var q := ConstantChain(e, first, second);
      Proper(q) && ReadsSides(q) && FoldingIsEnough(q, "e") && !Closed(q, FoldedOf(q, "e"))
  {
    var q := ConstantChain(e, first, second);
    ConstantsNeedNoFolding(q, "e");
    ChainIsProper(q, first, second, e);
    ChainColumns(q, first, second, e);
    var j := q.joins[0];
    assert j in q.joins && Column("b", "y") in FoldedOf(q, "e") && Column("a", "x") in CondColumns(j.on);
    assert j.side in Seen(q, FoldedOf(q, "e"));
  }

  lemma ChainIsProper(q: Select, first: seq<Value> -> bool, second: seq<Value> -> bool, e: Expr)
    requires q == ConstantChain(e, first, second) && e.columns == []
    ensures Proper(q)
  {
    assert q.joins[0].side == "b" && q.joins[1].side == "c";
    assert Before(q, 1, "a") && Before(q, 1, "b") && Before(q, 2, "b") && Before(q, 2, "c");
  }

  lemma ChainColumns(q: Select, first: seq<Value> -> bool, second: seq<Value> -> bool, e: Expr)
    requires q == ConstantChain(e, first, second) && e.columns == []
    ensures FoldedOf(q, "e") == {Column("c", "y"), Column("b", "y")}
  {
    var joins := q.joins;
    assert Find(q.projections, "e") == Some(0);
    assert q.projections[..0] == [] && SelectColumns(q.projections) == [];
    assert joins[..1] == [joins[0]] && joins[..1][..0] == [];
    assert JoinColumns([]) == [] && JoinColumns(joins[..1]) == [];
    assert JoinColumns(joins) == [Column("c", "y"), Column("b", "y")];
    assert LeftColumns([], {}) == [] && LeftColumns(joins[..1], {}) == [] && LeftColumns(joins, {}) == [];
    assert SidesOf([]) == {};
    assert ColumnsOf(q, "e") == [Column("c", "y"), Column("b", "y")];
  }
}
