/** Folding over models and subqueries, whose rows are counted only where one of their columns is folded. */
module DerivedExact {
  import opened Ids
  import opened Sql
  import opened RowShaping
  import opened NonInterference
  import opened ColumnLineage
  import opened LineageExact
  import opened DistinctExact
  import LineageGaps

  // -- What is held equal ----------------------------------------------------------------

  /** Of a model or subquery without a folded column nothing is known, not even how many rows it has. */
  ghost predicate AgreeOver(v: View, w: View, folded: set<Column>, seen: set<string>, derived: set<string>) {
    && (forall side :: side in seen && (side in derived ==> SideRead(side, folded)) ==> Rows(v, side) == Rows(w, side))
    && (forall c :: c in folded ==> c.side in seen && CellsAgree(v, w, c))
  }

  ghost predicate ComparableOver(v: View, w: View, q: Select, folded: set<Column>, derived: set<string>) {
    && AgreeOver(v, w, folded, Seen(q, folded), derived)
    && UnseenAreSingle(v, q, Seen(q, folded), |q.joins|) && UnseenAreSingle(w, q, Seen(q, folded), |q.joins|)
  }

  /** Whatever the conditions and expressions make of their columns, and however many rows a model or subquery without a
      folded column has, what is folded decides the projection. */
  ghost predicate EnoughOver(q: Select, name: string, derived: set<string>) {
    forall r, v, w :: SameShape(q, r) && ComparableOver(v, w, r, FoldedOf(q, name), derived) ==> SameAnswer(v, w, r, name)
  }

  /** Every model or subquery that can be seen has a folded column. */
  ghost predicate AllRead(q: Select, folded: set<Column>, derived: set<string>) {
    forall side :: side in Seen(q, folded) && side in derived ==> SideRead(side, folded)
  }

  lemma OverIsMore(q: Select, name: string, derived: set<string>)
    requires EnoughOver(q, name, derived)
    ensures FoldingIsEnough(q, name)
  {
    forall r, v, w | SameShape(q, r) && Comparable(v, w, r, FoldedOf(q, name)) ensures SameAnswer(v, w, r, name) {
      assert ComparableOver(v, w, r, FoldedOf(q, name), derived);
    }
  }

  lemma AllReadIsEnough(q: Select, name: string, derived: set<string>)
    requires FoldingIsEnough(q, name) && AllRead(q, FoldedOf(q, name), derived)
    ensures EnoughOver(q, name, derived)
  {
    var folded := FoldedOf(q, name);
    forall r, v, w | SameShape(q, r) && ComparableOver(v, w, r, folded, derived) ensures SameAnswer(v, w, r, name) {
      SameSeen(q, r, folded);
      assert Comparable(v, w, r, folded);
    }
  }

  // -- The views that show it ------------------------------------------------------------

  /** One row a side but `n` of one, every cell zero. */
  function Zeros(q: Select, side: string, n: nat): View {
    map s | s in Sides(q) :: Relation(if s == side then n else 1, (i: nat, name: string) => Number(0))
  }

  lemma ZerosRows(q: Select, side: string, n: nat, s: string)
    requires s in Sides(q)
    ensures Rows(Zeros(q, side, n), s) == if s == side then n else 1
  {
  }

  lemma ZerosAgree(q: Select, folded: set<Column>, derived: set<string>, side: string, m: nat, n: nat)
    requires side in derived && !SideRead(side, folded)
    ensures AgreeOver(Zeros(q, side, m), Zeros(q, side, n), folded, Seen(q, folded), derived)
  {
    var v, w := Zeros(q, side, m), Zeros(q, side, n);
    forall s | s in Seen(q, folded) && (s in derived ==> SideRead(s, folded)) ensures Rows(v, s) == Rows(w, s) {
      assert s != side;
    }
    forall c | c in folded ensures c.side in Seen(q, folded) && CellsAgree(v, w, c) {
    }
  }

  lemma {:induction false} ZerosAreSingle(q: Select, r: Select, side: string, n: nat, seen: set<string>, k: nat)
    requires SameShape(q, r) && k <= |r.joins| && side in seen
    ensures UnseenAreSingle(Zeros(q, side, n), r, seen, k)
  {
    if k > 0 {
      var e := k - 1;
      ZerosAreSingle(q, r, side, n, seen, e);
      var v, j := Zeros(q, side, n), r.joins[e];
      if j.side !in seen {
        assert SameJoin(q.joins[e], j) && q.joins[e].side in Sides(q);
        ZerosRows(q, side, n, j.side);
        OneRowIsSingle(v, Joined(v, r, e), j);
      }
    }
  }

  /** If they come out differently, what is folded is not enough. */
  lemma ZerosTellApart(q: Select, name: string, derived: set<string>, side: string, m: nat, n: nat, r: Select)
    requires side in derived && side in Seen(q, FoldedOf(q, name)) && !SideRead(side, FoldedOf(q, name))
    requires SameShape(q, r) && !SameAnswer(Zeros(q, side, m), Zeros(q, side, n), r, name)
    ensures !EnoughOver(q, name, derived)
  {
    var folded := FoldedOf(q, name);
    SameSeen(q, r, folded);
    ZerosAgree(q, folded, derived, side, m, n);
    ZerosAreSingle(q, r, side, m, Seen(q, folded), |r.joins|);
    ZerosAreSingle(q, r, side, n, Seen(q, folded), |r.joins|);
    assert ComparableOver(Zeros(q, side, m), Zeros(q, side, n), r, folded, derived);
  }

  // -- How many rows are joined ----------------------------------------------------------

  lemma {:induction false} MatchesEvery(v: View, t: Tuple, j: Join, n: nat)
    requires Matching(j.on)
    ensures |Matches(v, t, j, n)| == n
  {
    if n > 0 { MatchesEvery(v, t, j, n - 1); }
  }

  lemma {:induction false} OneForEach(t: Tuple, side: string, rows: seq<nat>)
    ensures |WithEach(t, side, rows)| == |rows|
  {
    if rows != [] { OneForEach(t, side, rows[..|rows| - 1]); }
  }

  lemma ExtendsEach(v: View, t: Tuple, j: Join)
    requires Matching(j.on) && Rows(v, j.side) > 0
    ensures |Extend(v, t, j)| == Rows(v, j.side)
  {
    MatchesEvery(v, t, j, Rows(v, j.side));
    OneForEach(t, j.side, Matches(v, t, j, Rows(v, j.side)));
  }

  /** A join that matches everything keeps as many rows, or doubles them when its side has two. */
  lemma {:induction false} ExtendsAll(v: View, tuples: seq<Tuple>, j: Join)
    requires Matching(j.on) && 1 <= Rows(v, j.side) <= 2
    ensures |ExtendAll(v, tuples, j)| == if Rows(v, j.side) == 2 then 2 * |tuples| else |tuples|
  {
    if tuples != [] {
      var n := |tuples| - 1;
      ExtendsAll(v, tuples[..n], j);
      ExtendsEach(v, tuples[n], j);
    }
  }

  lemma MatchesSome(v: View, tuples: seq<Tuple>, j: Join, row: nat)
    requires tuples != [] && Matching(j.on)
    ensures SomeMatch(v, tuples, j, row)
  {
  }

  lemma {:induction false} NothingUnmatched(v: View, tuples: seq<Tuple>, j: Join, n: nat)
    requires tuples != [] && Matching(j.on)
    ensures Unmatched(v, tuples, j, n) == []
  {
    if n > 0 {
      NothingUnmatched(v, tuples, j, n - 1);
      MatchesSome(v, tuples, j, n - 1);
    }
  }

  lemma JoinsAll(v: View, tuples: seq<Tuple>, j: Join)
    requires tuples != [] && Matching(j.on) && 1 <= Rows(v, j.side) <= 2
    ensures |JoinOne(v, tuples, j)| == if Rows(v, j.side) == 2 then 2 * |tuples| else |tuples|
  {
    ExtendsAll(v, tuples, j);
    NothingUnmatched(v, tuples, j, Rows(v, j.side));
  }

  /** Every side is open: none is the one asked. */
  lemma AllOpen(q: Select, k: nat)
    requires k < |q.joins|
    ensures Opened(q, |q.joins|, 0).joins[k] == OpenJoin(q.joins[k]) && Matching(OpenJoin(q.joins[k]).on)
  {
    OpenJoinAt(q.joins, |q.joins|, 0, k);
  }

  /** With `n` rows of a side there are `n` joined rows once it is joined, and one before. */
  ghost predicate Counted(q: Select, side: string, n: nat, k: nat)
    requires k <= |q.joins|
  {
    |Joined(Zeros(q, side, n), Opened(q, |q.joins|, 0), k)| == if Before(q, k, side) then n else 1
  }

  lemma CountedFirst(q: Select, side: string, n: nat)
    ensures Counted(q, side, n, 0)
  {
    ZerosRows(q, side, n, q.side);
    LineageGaps.FirstRowsAre(q.side, Rows(Zeros(q, side, n), q.side));
  }

  lemma CountedNext(q: Select, side: string, n: nat, e: nat)
    requires Proper(q) && e < |q.joins| && 1 <= n <= 2 && Counted(q, side, n, e)
    ensures Counted(q, side, n, e + 1)
  {
    var v, r := Zeros(q, side, n), Opened(q, |q.joins|, 0);
    var tuples, j := Joined(v, r, e), r.joins[e];
    AllOpen(q, e);
    assert q.joins[e].side in Sides(q);
    ZerosRows(q, side, n, q.joins[e].side);
    JoinsAll(v, tuples, j);
    JoinedStep(v, r, e, tuples, JoinOne(v, tuples, j));
    BeforeNext(q, side, e);
  }

  ghost predicate CountSteps(q: Select, side: string, n: nat) {
    forall e: nat :: e < |q.joins| && Counted(q, side, n, e) ==> Counted(q, side, n, e + 1)
  }

  lemma {:induction false} CountUpTo(q: Select, side: string, n: nat, k: nat)
    requires k <= |q.joins| && CountSteps(q, side, n) && Counted(q, side, n, 0)
    ensures Counted(q, side, n, k)
  {
    if k > 0 {
      var e: nat := k - 1;
      CountUpTo(q, side, n, e);
      assert Counted(q, side, n, e + 1);
    }
  }

  lemma JoinedCount(q: Select, side: string, n: nat)
    requires Proper(q) && 1 <= n <= 2
    ensures Counted(q, side, n, |q.joins|)
  {
    CountedFirst(q, side, n);
    forall e: nat | e < |q.joins| && Counted(q, side, n, e) ensures Counted(q, side, n, e + 1) {
      CountedNext(q, side, n, e);
    }
    CountUpTo(q, side, n, |q.joins|);
  }

  lemma BeforeNext(q: Select, side: string, e: nat)
    requires Proper(q) && e < |q.joins|
    ensures Before(q, e + 1, side) <==> Before(q, e, side) || q.joins[e].side == side
    ensures q.joins[e].side == side ==> !Before(q, e, side)
  {
  }

  lemma SeenUnreadIsASide(q: Select, folded: set<Column>, side: string)
    requires side in Seen(q, folded) && !SideRead(side, folded)
    ensures side in Sides(q) && Before(q, |q.joins|, side)
  {
    if side != q.side {
      var j :| j in q.joins && !j.kind.Left? && j.side == side;
      var i :| 0 <= i < |q.joins| && q.joins[i] == j;
    }
  }

  /** A model or subquery that is seen without a folded column shows: with one row of it, and with two. */
  lemma UnreadShows(q: Select, name: string, derived: set<string>, side: string)
    requires Proper(q) && Find(q.projections, name).Some? && !(q.distinct && q.grouping.EachRow?)
    requires side in derived && side in Seen(q, FoldedOf(q, name)) && !SideRead(side, FoldedOf(q, name))
    ensures !EnoughOver(q, name, derived)
  {
    var n := |q.joins|;
    var v, w, r := Zeros(q, side, 1), Zeros(q, side, 2), Opened(q, n, 0);
    SeenUnreadIsASide(q, FoldedOf(q, name), side);
    JoinedCount(q, side, 1);
    JoinedCount(q, side, 2);
    CountsRows(v, q, n, 0, Joined(v, r, n), name);
    CountsRows(w, q, n, 0, Joined(w, r, n), name);
    assert !SameAnswer(v, w, r, name);
    OpenedIsSameShape(q, n, 0);
    ZerosTellApart(q, name, derived, side, 1, 2, r);
  }

  /** The theorem: for a query of any shape but DISTINCT over ungrouped rows, what is folded into a projection decides it,
      with nothing known of a model or subquery that has no folded column, exactly when every LEFT JOIN that can be seen is
      folded and every model or subquery that can be seen has a folded column. */
  lemma FoldingIsExactOver(q: Select, name: string, derived: set<string>)
    requires Proper(q) && Find(q.projections, name).Some? && !(q.distinct && q.grouping.EachRow?)
    ensures EnoughOver(q, name, derived) <==> Closed(q, FoldedOf(q, name)) && AllRead(q, FoldedOf(q, name), derived)
  {
    FoldingIsExact(q, name);
    if EnoughOver(q, name, derived) {
      OverIsMore(q, name, derived);
      forall side | side in Seen(q, FoldedOf(q, name)) && side in derived ensures SideRead(side, FoldedOf(q, name)) {
        if !SideRead(side, FoldedOf(q, name)) { UnreadShows(q, name, derived, side); }
      }
    } else if Closed(q, FoldedOf(q, name)) && AllRead(q, FoldedOf(q, name), derived) {
      AllReadIsEnough(q, name, derived);
    }
  }

  // -- DISTINCT over ungrouped rows ------------------------------------------------------

  lemma {:induction false} NothingExtends(v: View, tuples: seq<Tuple>, j: Join)
    requires j.kind.Inner? && Rows(v, j.side) == 0
    ensures ExtendAll(v, tuples, j) == []
  {
    if tuples != [] { NothingExtends(v, tuples[..|tuples| - 1], j); }
  }

  /** The side is the query's own or that of an inner join. */
  ghost predicate Needed(q: Select, side: string) {
    forall i :: 0 <= i < |q.joins| && q.joins[i].side == side ==> q.joins[i].kind.Inner?
  }

  /** A join of nothing is nothing, and so is a join of a needed side without rows. */
  lemma NoneNext(q: Select, side: string, e: nat, tuples: seq<Tuple>)
    requires Proper(q) && LeftOrInner(q) && Needed(q, side) && e < |q.joins|
    requires tuples == [] || q.joins[e].side == side
    ensures JoinOne(Zeros(q, side, 0), tuples, Opened(q, |q.joins|, 0).joins[e]) == []
  {
    var v, j := Zeros(q, side, 0), Opened(q, |q.joins|, 0).joins[e];
    AllOpen(q, e);
    assert q.joins[e].kind.Left? || q.joins[e].kind.Inner?;
    NoneOnTheRight(v, tuples, j);
    if tuples != [] {
      assert q.joins[e].side in Sides(q);
      ZerosRows(q, side, 0, side);
      NothingExtends(v, tuples, j);
    }
  }

  ghost predicate AllNeeded(q: Select, side: string) {
    Proper(q) && LeftOrInner(q) && Needed(q, side)
  }

  /** No joined row once the side is joined. */
  ghost predicate NoneFrom(q: Select, side: string, k: nat)
    requires k <= |q.joins|
  {
    Before(q, k, side) ==> Joined(Zeros(q, side, 0), Opened(q, |q.joins|, 0), k) == []
  }

  lemma NoFirst(q: Select, side: string)
    ensures NoneFrom(q, side, 0)
  {
    ZerosRows(q, side, 0, q.side);
  }

  lemma NoneFurther(q: Select, side: string, e: nat)
    requires e < |q.joins| && AllNeeded(q, side) && NoneFrom(q, side, e)
    ensures NoneFrom(q, side, e + 1)
  {
    var v, r := Zeros(q, side, 0), Opened(q, |q.joins|, 0);
    if Before(q, e + 1, side) {
      var tuples := Joined(v, r, e);
      BeforeNext(q, side, e);
      NoneNext(q, side, e, tuples);
      JoinedStep(v, r, e, tuples, []);
    }
  }

  ghost predicate NoneSteps(q: Select, side: string) {
    forall e: nat :: e < |q.joins| && NoneFrom(q, side, e) ==> NoneFrom(q, side, e + 1)
  }

  lemma {:induction false} NoneUpTo(q: Select, side: string, k: nat)
    requires k <= |q.joins| && NoneSteps(q, side) && NoneFrom(q, side, 0)
    ensures NoneFrom(q, side, k)
  {
    if k > 0 {
      var e: nat := k - 1;
      NoneUpTo(q, side, e);
      assert NoneFrom(q, side, e + 1);
    }
  }

  /** Without a row of a needed side there is no joined row. */
  lemma NoneJoined(q: Select, side: string)
    requires AllNeeded(q, side) && Before(q, |q.joins|, side)
    ensures Joined(Zeros(q, side, 0), Opened(q, |q.joins|, 0), |q.joins|) == []
  {
    NoFirst(q, side);
    forall e: nat | e < |q.joins| && NoneFrom(q, side, e) ensures NoneFrom(q, side, e + 1) {
      NoneFurther(q, side, e);
    }
    NoneUpTo(q, side, |q.joins|);
  }

  lemma SeenUnreadIsInner(q: Select, folded: set<Column>, side: string)
    requires Proper(q) && LeftOrInner(q) && side in Seen(q, folded) && !SideRead(side, folded)
    ensures Needed(q, side)
  {
    forall i | 0 <= i < |q.joins| && q.joins[i].side == side ensures q.joins[i].kind.Inner? {
      var j :| j in q.joins && !j.kind.Left? && j.side == side;
      var k :| 0 <= k < |q.joins| && q.joins[k] == j;
      assert i == k;
    }
  }

  lemma OneOpenRow(v: View, q: Select, t: Tuple)
    requires q.grouping.EachRow? && Joined(v, Opened(q, |q.joins|, 0), |q.joins|) == [t]
    ensures |Output(v, Opened(q, |q.joins|, 0))| == 1
  {
    OutputOfOne(v, Opened(q, |q.joins|, 0), t);
  }

  /** And here: with one row of it, and with none. */
  lemma UnreadShowsDistinct(q: Select, name: string, derived: set<string>, side: string)
    requires Proper(q) && LeftOrInner(q) && q.grouping.EachRow?
    requires side in derived && side in Seen(q, FoldedOf(q, name)) && !SideRead(side, FoldedOf(q, name))
    ensures !EnoughOver(q, name, derived)
  {
    var n := |q.joins|;
    var v, w, r := Zeros(q, side, 1), Zeros(q, side, 0), Opened(q, n, 0);
    SeenUnreadIsASide(q, FoldedOf(q, name), side);
    SeenUnreadIsInner(q, FoldedOf(q, name), side);
    JoinedCount(q, side, 1);
    Alone(Joined(v, r, n));
    OneOpenRow(v, q, Joined(v, r, n)[0]);
    NoneJoined(q, side);
    OutputOfNone(w, r);
    assert !SameAnswer(v, w, r, name);
    OpenedIsSameShape(q, n, 0);
    ZerosTellApart(q, name, derived, side, 1, 0, r);
  }

  lemma Alone(tuples: seq<Tuple>)
    requires |tuples| == 1
    ensures tuples == [tuples[0]]
  {
  }

  /** The theorem for DISTINCT over ungrouped rows, with LEFT and inner joins. */
  lemma FoldingIsExactOverForDistinct(q: Select, name: string, derived: set<string>)
    requires Proper(q) && ReadsSides(q) && LeftOrInner(q) && q.grouping.EachRow? && q.distinct
    requires Find(q.projections, name).Some?
    ensures EnoughOver(q, name, derived) <==> Closed(q, FoldedOf(q, name)) && AllRead(q, FoldedOf(q, name), derived)
  {
    FoldingIsExactForDistinct(q, name);
    if EnoughOver(q, name, derived) {
      OverIsMore(q, name, derived);
      forall side | side in Seen(q, FoldedOf(q, name)) && side in derived ensures SideRead(side, FoldedOf(q, name)) {
        if !SideRead(side, FoldedOf(q, name)) { UnreadShowsDistinct(q, name, derived, side); }
      }
    } else if Closed(q, FoldedOf(q, name)) && AllRead(q, FoldedOf(q, name), derived) {
      AllReadIsEnough(q, name, derived);
    }
  }

  // -- Models and subqueries -------------------------------------------------------------

  /** The sides of a query that are models or subqueries. */
  function DerivedSides(q: Select): set<string> {
    set side | side in Sides(q) && Derived(SourceOf(q, side))
  }

  /** So what `Guarded` asks of a query itself is exact. */
  lemma GuardIsExact(q: Select, name: string)
    requires Proper(q) && Find(q.projections, name).Some?
    requires !(q.distinct && q.grouping.EachRow?) || (ReadsSides(q) && LeftOrInner(q))
    ensures EnoughOver(q, name, DerivedSides(q)) <==> Closed(q, FoldedOf(q, name)) && ShownThrough(q, FoldedOf(q, name))
  {
    if q.distinct && q.grouping.EachRow? {
      FoldingIsExactOverForDistinct(q, name, DerivedSides(q));
    } else {
      FoldingIsExactOver(q, name, DerivedSides(q));
    }
  }

  /** A count of a subquery has every LEFT JOIN folded that it sees, and is not decided by what is folded: nothing is. */
  lemma CountsOfSubqueriesAreNotGuarded(table: string, flag: string, e: Expr)
    ensures var q := LineageGaps.CountKept(table, flag, e);
      && Proper(q) && Closed(q, FoldedOf(q, "n")) && FoldingIsEnough(q, "n")
      && !ShownThrough(q, FoldedOf(q, "n")) && !EnoughOver(q, "n", DerivedSides(q))
  {
    var q := LineageGaps.CountKept(table, flag, e);
    assert ColumnsOf(q, "n") == [];
    assert q.side in Sides(q) && SourceOf(q, q.side).Sub?;
    assert q.side in Seen(q, FoldedOf(q, "n")) && !SideRead(q.side, FoldedOf(q, "n"));
    FoldingIsExact(q, "n");
    GuardIsExact(q, "n");
  }
}
