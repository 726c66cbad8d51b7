/** One query over two views of its sides that agree on what is folded: the projection comes out the same. */
module NonInterference {
  import opened Ids
  import opened Sql
  import opened RowShaping

  /** The sides seen have the same number of rows, and the folded columns the same cells. */
  ghost predicate Agree(v: View, w: View, folded: set<Column>, seen: set<string>) {
    && (forall side :: side in seen ==> Rows(v, side) == Rows(w, side))
    && (forall c :: c in folded ==> c.side in seen && CellsAgree(v, w, c))
  }

  ghost predicate CellsAgree(v: View, w: View, c: Column) {
    forall i: nat :: i < Rows(v, c.side) && i < Rows(w, c.side) ==> v[c.side].cell(i, c.name) == w[c.side].cell(i, c.name)
  }

  // -- Rows made of the same rows of every side seen -----------------------------------

  ghost predicate Alike(t: Tuple, u: Tuple, seen: set<string>) {
    forall side :: side in seen ==> RowOf(t, side) == RowOf(u, side)
  }

  ghost predicate AllAlike(ts: seq<Tuple>, us: seq<Tuple>, seen: set<string>) {
    |ts| == |us| && forall i :: 0 <= i < |ts| ==> Alike(ts[i], us[i], seen)
  }

  lemma AlikeAppend(ts: seq<Tuple>, us: seq<Tuple>, ts': seq<Tuple>, us': seq<Tuple>, seen: set<string>)
    requires AllAlike(ts, us, seen) && AllAlike(ts', us', seen)
    ensures AllAlike(ts + ts', us + us', seen)
  {
  }

  lemma {:induction false} ReadsAgree(v: View, w: View, folded: set<Column>, seen: set<string>, t: Tuple, u: Tuple,
                                      columns: seq<Column>)
    requires Agree(v, w, folded, seen) && Alike(t, u, seen) && Within(columns, folded)
    ensures Reads(v, t, columns) == Reads(w, u, columns)
  {
    if columns != [] {
      var n := |columns| - 1;
      assert columns[n] in columns;
      ReadsAgree(v, w, folded, seen, t, u, columns[..n]);
    }
  }

  lemma HoldsAgree(v: View, w: View, folded: set<Column>, seen: set<string>, t: Tuple, u: Tuple, on: Option<Cond>)
    requires Agree(v, w, folded, seen) && Alike(t, u, seen) && Within(CondColumns(on), folded)
    ensures Holds(v, t, on) == Holds(w, u, on)
  {
    if on.Some? {
      ReadsAgree(v, w, folded, seen, t, u, on.value.columns);
    }
  }

  // -- Joins ---------------------------------------------------------------------------

  lemma {:induction false} MatchesAgree(v: View, w: View, folded: set<Column>, seen: set<string>, t: Tuple, u: Tuple, j: Join,
                                        n: nat)
    requires Agree(v, w, folded, seen) && Alike(t, u, seen) && Within(CondColumns(j.on), folded)
    ensures Matches(v, t, j, n) == Matches(w, u, j, n)
  {
    if n > 0 {
      MatchesAgree(v, w, folded, seen, t, u, j, n - 1);
      HoldsAgree(v, w, folded, seen, t[j.side := Some(n - 1)], u[j.side := Some(n - 1)], j.on);
    }
  }

  lemma {:induction false} WithEachAlike(t: Tuple, u: Tuple, side: string, rows: seq<nat>, seen: set<string>)
    requires Alike(t, u, seen)
    ensures AllAlike(WithEach(t, side, rows), WithEach(u, side, rows), seen)
  {
    if rows != [] {
      WithEachAlike(t, u, side, rows[..|rows| - 1], seen);
    }
  }

  lemma ExtendAlike(v: View, w: View, folded: set<Column>, seen: set<string>, t: Tuple, u: Tuple, j: Join)
    requires Agree(v, w, folded, seen) && Alike(t, u, seen)
    requires Within(CondColumns(j.on), folded) && j.side in seen
    ensures AllAlike(Extend(v, t, j), Extend(w, u, j), seen)
  {
    MatchesAgree(v, w, folded, seen, t, u, j, Rows(v, j.side));
    WithEachAlike(t, u, j.side, Matches(v, t, j, Rows(v, j.side)), seen);
  }

  /** A LEFT JOIN that matches at most one row makes one row of each. */
  lemma ExtendsToOne(v: View, t: Tuple, j: Join) returns (row: Option<nat>)
    requires j.kind.Left? && |Matches(v, t, j, Rows(v, j.side))| <= 1
    ensures Extend(v, t, j) == [t[j.side := row]]
  {
    var m := Matches(v, t, j, Rows(v, j.side));
    if m == [] {
      row := None;
    } else {
      row := Some(m[0]);
      WithOne(t, j.side, m[0]);
      assert m == [m[0]];
    }
  }

  lemma WithOne(t: Tuple, side: string, row: nat)
    ensures WithEach(t, side, [row]) == [t[side := Some(row)]]
  {
    assert [row][..0] == [];
  }

  /** So one that cannot be seen changes nothing that can. */
  lemma ExtendUnseen(v: View, w: View, seen: set<string>, t: Tuple, u: Tuple, j: Join)
    requires Alike(t, u, seen) && j.kind.Left? && j.side !in seen
    requires |Matches(v, t, j, Rows(v, j.side))| <= 1 && |Matches(w, u, j, Rows(w, j.side))| <= 1
    ensures AllAlike(Extend(v, t, j), Extend(w, u, j), seen)
  {
    var left := ExtendsToOne(v, t, j);
    var right := ExtendsToOne(w, u, j);
    assert Alike(t[j.side := left], u[j.side := right], seen);
  }

  /** A join is folded, or is a LEFT JOIN that cannot be seen and finds at most one row for each row on its left. */
  ghost predicate Harmless(v: View, w: View, folded: set<Column>, seen: set<string>, ts: seq<Tuple>, us: seq<Tuple>, j: Join)
  {
    if j.side in seen then Within(CondColumns(j.on), folded)
    else j.kind.Left? && AtMostOne(v, ts, j) && AtMostOne(w, us, j)
  }

  ghost predicate AtMostOne(v: View, tuples: seq<Tuple>, j: Join) {
    forall i :: 0 <= i < |tuples| ==> |Matches(v, tuples[i], j, Rows(v, j.side))| <= 1
  }

  lemma {:induction false} ExtendAllAlike(v: View, w: View, folded: set<Column>, seen: set<string>, ts: seq<Tuple>,
                                          us: seq<Tuple>, j: Join)
    requires Agree(v, w, folded, seen) && AllAlike(ts, us, seen) && Harmless(v, w, folded, seen, ts, us, j)
    ensures AllAlike(ExtendAll(v, ts, j), ExtendAll(w, us, j), seen)
  {
    if ts != [] {
      var n := |ts| - 1;
      ExtendAllAlike(v, w, folded, seen, ts[..n], us[..n], j);
      if j.side in seen {
        ExtendAlike(v, w, folded, seen, ts[n], us[n], j);
      } else {
        ExtendUnseen(v, w, seen, ts[n], us[n], j);
      }
      AlikeAppend(ExtendAll(v, ts[..n], j), ExtendAll(w, us[..n], j), Extend(v, ts[n], j), Extend(w, us[n], j), seen);
    }
  }

  lemma {:induction false} SomeMatchAgree(v: View, w: View, folded: set<Column>, seen: set<string>, ts: seq<Tuple>,
                                          us: seq<Tuple>, j: Join, row: nat)
    requires Agree(v, w, folded, seen) && AllAlike(ts, us, seen) && Within(CondColumns(j.on), folded)
    ensures SomeMatch(v, ts, j, row) == SomeMatch(w, us, j, row)
  {
    if ts != [] {
      var n := |ts| - 1;
      SomeMatchAgree(v, w, folded, seen, ts[..n], us[..n], j, row);
      HoldsAgree(v, w, folded, seen, ts[n][j.side := Some(row)], us[n][j.side := Some(row)], j.on);
    }
  }

  lemma {:induction false} UnmatchedAlike(v: View, w: View, folded: set<Column>, seen: set<string>, ts: seq<Tuple>,
                                          us: seq<Tuple>, j: Join, n: nat)
    requires Agree(v, w, folded, seen) && AllAlike(ts, us, seen) && Within(CondColumns(j.on), folded)
    ensures AllAlike(Unmatched(v, ts, j, n), Unmatched(w, us, j, n), seen)
  {
    if n > 0 {
      UnmatchedAlike(v, w, folded, seen, ts, us, j, n - 1);
      SomeMatchAgree(v, w, folded, seen, ts, us, j, n - 1);
    }
  }

  lemma JoinOneAlike(v: View, w: View, folded: set<Column>, seen: set<string>, ts: seq<Tuple>, us: seq<Tuple>, j: Join)
    requires Agree(v, w, folded, seen) && AllAlike(ts, us, seen) && Harmless(v, w, folded, seen, ts, us, j)
    ensures AllAlike(JoinOne(v, ts, j), JoinOne(w, us, j), seen)
  {
    ExtendAllAlike(v, w, folded, seen, ts, us, j);
    if KeepsRight(j.kind) {
      UnmatchedAlike(v, w, folded, seen, ts, us, j, Rows(v, j.side));
    }
  }

  /** Every LEFT JOIN that cannot be seen finds at most one row for each row on its left. */
  ghost predicate UnseenAreSingle(v: View, q: Select, seen: set<string>, k: nat)
    requires k <= |q.joins|
  {
    k == 0
    || (UnseenAreSingle(v, q, seen, k - 1)
        && (q.joins[k - 1].side in seen || AtMostOne(v, Joined(v, q, k - 1), q.joins[k - 1])))
  }

  lemma {:induction false} JoinColumnsWithin(joins: seq<Join>, k: nat)
    requires k < |joins| && !joins[k].kind.Left?
    ensures forall c :: c in CondColumns(joins[k].on) ==> c in JoinColumns(joins)
  {
    if k < |joins| - 1 {
      JoinColumnsWithin(joins[..|joins| - 1], k);
    }
  }

  /** The first `k` joins are harmless, each to the rows before it. */
  ghost predicate AllHarmless(v: View, w: View, q: Select, folded: set<Column>, seen: set<string>, k: nat)
    requires k <= |q.joins|
  {
    k == 0
    || (AllHarmless(v, w, q, folded, seen, k - 1)
        && Harmless(v, w, folded, seen, Joined(v, q, k - 1), Joined(w, q, k - 1), q.joins[k - 1]))
  }

  /** The first `k` joins are folded or unseen. */
  ghost predicate FoldedOrUnseen(q: Select, folded: set<Column>, seen: set<string>, k: nat)
    requires k <= |q.joins|
  {
    k == 0
    || (FoldedOrUnseen(q, folded, seen, k - 1)
        && if q.joins[k - 1].side in seen then Within(CondColumns(q.joins[k - 1].on), folded) else q.joins[k - 1].kind.Left?)
  }

  lemma {:induction false} ClosedIsFolded(q: Select, folded: set<Column>, k: nat)
    requires k <= |q.joins| && Within(JoinColumns(q.joins), folded) && Closed(q, folded)
    ensures FoldedOrUnseen(q, folded, Seen(q, folded), k)
  {
    if k > 0 {
      ClosedIsFolded(q, folded, k - 1);
      assert q.joins[k - 1] in q.joins;
      if !q.joins[k - 1].kind.Left? {
        JoinColumnsWithin(q.joins, k - 1);
      }
    }
  }

  lemma {:induction false} JoinsAreHarmless(v: View, w: View, q: Select, folded: set<Column>, seen: set<string>, k: nat)
    requires k <= |q.joins| && FoldedOrUnseen(q, folded, seen, k)
    requires UnseenAreSingle(v, q, seen, k) && UnseenAreSingle(w, q, seen, k)
    ensures AllHarmless(v, w, q, folded, seen, k)
  {
    if k > 0 {
      JoinsAreHarmless(v, w, q, folded, seen, k - 1);
    }
  }

  lemma {:induction false} JoinedAlike(v: View, w: View, q: Select, folded: set<Column>, seen: set<string>, k: nat)
    requires k <= |q.joins| && Agree(v, w, folded, seen) && q.side in seen
    requires AllHarmless(v, w, q, folded, seen, k)
    ensures AllAlike(Joined(v, q, k), Joined(w, q, k), seen)
  {
    if k > 0 {
      JoinedAlike(v, w, q, folded, seen, k - 1);
      JoinOneAlike(v, w, folded, seen, Joined(v, q, k - 1), Joined(w, q, k - 1), q.joins[k - 1]);
    }
  }

  // -- Filters, groups and DISTINCT ----------------------------------------------------

  lemma {:induction false} FilteredAlike(v: View, w: View, folded: set<Column>, seen: set<string>, ts: seq<Tuple>,
                                         us: seq<Tuple>, filter: Option<Cond>)
    requires Agree(v, w, folded, seen) && AllAlike(ts, us, seen) && Within(CondColumns(filter), folded)
    ensures AllAlike(Filtered(v, ts, filter), Filtered(w, us, filter), seen)
  {
    if ts != [] {
      var n := |ts| - 1;
      FilteredAlike(v, w, folded, seen, ts[..n], us[..n], filter);
      HoldsAgree(v, w, folded, seen, ts[n], us[n], filter);
      var more, more' := if Holds(v, ts[n], filter) then [ts[n]] else [], if Holds(w, us[n], filter) then [us[n]] else [];
      AlikeAppend(Filtered(v, ts[..n], filter), Filtered(w, us[..n], filter), more, more', seen);
    }
  }

  ghost predicate GroupAlike(g: Group, h: Group, seen: set<string>) {
    g.key == h.key && AllAlike(g.rows, h.rows, seen)
  }

  ghost predicate GroupsAlike(gs: seq<Group>, hs: seq<Group>, seen: set<string>) {
    |gs| == |hs| && forall i :: 0 <= i < |gs| ==> GroupAlike(gs[i], hs[i], seen)
  }

  lemma {:induction false} PutInAlike(gs: seq<Group>, hs: seq<Group>, seen: set<string>, key: Value, t: Tuple, u: Tuple)
    requires GroupsAlike(gs, hs, seen) && Alike(t, u, seen)
    ensures GroupsAlike(PutIn(gs, key, t), PutIn(hs, key, u), seen)
  {
    if gs != [] {
      var n := |gs| - 1;
      assert GroupAlike(gs[n], hs[n], seen);
      PutInAlike(gs[..n], hs[..n], seen, key, t, u);
    }
  }

  lemma {:induction false} GroupsOfAlike(v: View, w: View, folded: set<Column>, seen: set<string>, ts: seq<Tuple>,
                                         us: seq<Tuple>, grouping: Grouping)
    requires Agree(v, w, folded, seen) && AllAlike(ts, us, seen) && Within(GroupingColumns(grouping), folded)
    ensures GroupsAlike(GroupsOf(v, ts, grouping), GroupsOf(w, us, grouping), seen)
  {
    if !grouping.AllRows? && ts != [] {
      var n := |ts| - 1;
      GroupsOfAlike(v, w, folded, seen, ts[..n], us[..n], grouping);
      if grouping.ByKey? {
        ReadsAgree(v, w, folded, seen, ts[n], us[n], grouping.key.columns);
        PutInAlike(GroupsOf(v, ts[..n], grouping), GroupsOf(w, us[..n], grouping), seen, KeyOf(v, ts[n], grouping.key),
                   ts[n], us[n]);
      }
    }
  }

  lemma {:induction false} ReadsAllAgree(v: View, w: View, folded: set<Column>, seen: set<string>, ts: seq<Tuple>,
                                         us: seq<Tuple>, columns: seq<Column>)
    requires Agree(v, w, folded, seen) && AllAlike(ts, us, seen) && Within(columns, folded)
    ensures ReadsAll(v, ts, columns) == ReadsAll(w, us, columns)
  {
    if ts != [] {
      var n := |ts| - 1;
      ReadsAllAgree(v, w, folded, seen, ts[..n], us[..n], columns);
      ReadsAgree(v, w, folded, seen, ts[n], us[n], columns);
    }
  }

  lemma {:induction false} FilteringAlike(v: View, w: View, folded: set<Column>, seen: set<string>, gs: seq<Group>,
                                          hs: seq<Group>, having: Option<Having>)
    requires Agree(v, w, folded, seen) && GroupsAlike(gs, hs, seen)
    requires having.Some? ==> Within(having.value.columns, folded)
    ensures GroupsAlike(Filtering(v, gs, having), Filtering(w, hs, having), seen)
  {
    if gs != [] {
      var n := |gs| - 1;
      FilteringAlike(v, w, folded, seen, gs[..n], hs[..n], having);
      assert GroupAlike(gs[n], hs[n], seen);
      if having.Some? {
        ReadsAllAgree(v, w, folded, seen, gs[n].rows, hs[n].rows, having.value.columns);
      }
    }
  }

  lemma EvaluateAgree(v: View, w: View, folded: set<Column>, seen: set<string>, g: Group, h: Group, e: Expr)
    requires Agree(v, w, folded, seen) && GroupAlike(g, h, seen) && Within(e.columns, folded)
    ensures Evaluate(v, g, e) == Evaluate(w, h, e)
  {
    ReadsAllAgree(v, w, folded, seen, g.rows, h.rows, e.columns);
  }

  lemma {:induction false} ProjectAgree(v: View, w: View, folded: set<Column>, seen: set<string>, g: Group, h: Group,
                                        projections: seq<Projection>)
    requires Agree(v, w, folded, seen) && GroupAlike(g, h, seen) && Within(SelectColumns(projections), folded)
    ensures Project(v, g, projections) == Project(w, h, projections)
  {
    if projections != [] {
      var n := |projections| - 1;
      ProjectAgree(v, w, folded, seen, g, h, projections[..n]);
      EvaluateAgree(v, w, folded, seen, g, h, projections[n].expr);
    }
  }

  lemma {:induction false} ShownAgree(v: View, w: View, folded: set<Column>, seen: set<string>, gs: seq<Group>,
                                      hs: seq<Group>, values: seq<Value>, projections: seq<Projection>)
    requires Agree(v, w, folded, seen) && GroupsAlike(gs, hs, seen) && Within(SelectColumns(projections), folded)
    ensures Shown(v, gs, values, projections) == Shown(w, hs, values, projections)
  {
    if gs != [] {
      var n := |gs| - 1;
      ShownAgree(v, w, folded, seen, gs[..n], hs[..n], values, projections);
      ProjectAgree(v, w, folded, seen, gs[n], hs[n], projections);
    }
  }

  lemma DistinctStep(v: View, gs: seq<Group>, projections: seq<Projection>)
    requires gs != []
    ensures var before, last := Distinct(v, gs[..|gs| - 1], projections), gs[|gs| - 1];
      Distinct(v, gs, projections)
      == if Shown(v, before, Project(v, last, projections), projections) then before else before + [last]
  {
  }

  lemma GroupsAppend(gs: seq<Group>, hs: seq<Group>, g: Group, h: Group, seen: set<string>)
    requires GroupsAlike(gs, hs, seen) && GroupAlike(g, h, seen)
    ensures GroupsAlike(gs + [g], hs + [h], seen)
  {
  }

  lemma {:induction false} DistinctAlike(v: View, w: View, folded: set<Column>, seen: set<string>, gs: seq<Group>,
                                         hs: seq<Group>, projections: seq<Projection>)
    requires Agree(v, w, folded, seen) && GroupsAlike(gs, hs, seen) && Within(SelectColumns(projections), folded)
    ensures GroupsAlike(Distinct(v, gs, projections), Distinct(w, hs, projections), seen)
  {
    if gs == [] {
      assert Distinct(v, gs, projections) == [] && Distinct(w, hs, projections) == [];
    } else {
      var n := |gs| - 1;
      DistinctAlike(v, w, folded, seen, gs[..n], hs[..n], projections);
      assert GroupAlike(gs[n], hs[n], seen);
      ProjectAgree(v, w, folded, seen, gs[n], hs[n], projections);
      var before, before' := Distinct(v, gs[..n], projections), Distinct(w, hs[..n], projections);
      ShownAgree(v, w, folded, seen, before, before', Project(v, gs[n], projections), projections);
      GroupsAppend(before, before', gs[n], hs[n], seen);
      DistinctStep(v, gs, projections);
      DistinctStep(w, hs, projections);
    }
  }

  // -- One query -----------------------------------------------------------------------

  /** The rows that come out are made of the same rows of every side seen. */
  lemma OutputAlike(v: View, w: View, q: Select, folded: set<Column>)
    requires Agree(v, w, folded, Seen(q, folded))
    requires Within(Every(q), folded) && Closed(q, folded)
    requires UnseenAreSingle(v, q, Seen(q, folded), |q.joins|) && UnseenAreSingle(w, q, Seen(q, folded), |q.joins|)
    ensures GroupsAlike(Output(v, q), Output(w, q), Seen(q, folded))
  {
    var seen, n := Seen(q, folded), |q.joins|;
    ClosedIsFolded(q, folded, n);
    JoinsAreHarmless(v, w, q, folded, seen, n);
    JoinedAlike(v, w, q, folded, seen, n);
    FilteredAlike(v, w, folded, seen, Joined(v, q, n), Joined(w, q, n), q.filter);
    var ts, us := Filtered(v, Joined(v, q, n), q.filter), Filtered(w, Joined(w, q, n), q.filter);
    GroupsOfAlike(v, w, folded, seen, ts, us, q.grouping);
    var gs, hs := GroupsOf(v, ts, q.grouping), GroupsOf(w, us, q.grouping);
    FilteringAlike(v, w, folded, seen, gs, hs, q.having);
    if q.distinct {
      DistinctAlike(v, w, folded, seen, Filtering(v, gs, q.having), Filtering(w, hs, q.having), q.projections);
    }
  }

  /** The same number of rows comes out, with the same values of every projection whose columns are folded. */
  lemma AnswersAgree(v: View, w: View, q: Select, folded: set<Column>, name: string)
    requires Agree(v, w, folded, Seen(q, folded))
    requires Within(Every(q), folded) && Closed(q, folded)
    requires UnseenAreSingle(v, q, Seen(q, folded), |q.joins|) && UnseenAreSingle(w, q, Seen(q, folded), |q.joins|)
    requires Find(q.projections, name).Some?
    requires Within(q.projections[Find(q.projections, name).value].expr.columns, folded)
    ensures Answer(v, q).rows == Answer(w, q).rows
    ensures forall i: nat :: Answer(v, q).cell(i, name) == Answer(w, q).cell(i, name)
  {
    var seen := Seen(q, folded);
    OutputAlike(v, w, q, folded);
    forall i: nat ensures CellOf(v, q, i, name) == CellOf(w, q, i, name) {
      if i < |Output(v, q)| {
        assert GroupAlike(Output(v, q)[i], Output(w, q)[i], seen);
        EvaluateAgree(v, w, folded, seen, Output(v, q)[i], Output(w, q)[i],
                      q.projections[Find(q.projections, name).value].expr);
      }
    }
  }
}
