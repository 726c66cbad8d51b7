/** The folding rule: a projection takes on the columns of the clauses and joins that shape its rows. */
module RowShaping {
  import opened Ids
  import opened Sql

  // -- The folding rule ----------------------------------------------------------------

  function CondColumns(cond: Option<Cond>): seq<Column> {
    if cond.Some? then cond.value.columns else []
  }

  function GroupingColumns(g: Grouping): seq<Column> {
    if g.ByKey? then g.key.columns else []
  }

  /** WHERE, GROUP BY and HAVING. */
  function ClauseColumns(q: Select): seq<Column> {
    CondColumns(q.filter) + GroupingColumns(q.grouping) + if q.having.Some? then q.having.value.columns else []
  }

  /** The ON of every inner, right or full join. */
  function JoinColumns(joins: seq<Join>): seq<Column> {
    if joins == [] then []
    else
      var last := joins[|joins| - 1];
      JoinColumns(joins[..|joins| - 1]) + if last.kind.Left? then [] else CondColumns(last.on)
  }

  function SelectColumns(projections: seq<Projection>): seq<Column> {
    if projections == [] then []
    else SelectColumns(projections[..|projections| - 1]) + projections[|projections| - 1].expr.columns
  }

  /** What goes to every projection of a query. */
  function Every(q: Select): seq<Column> {
    ClauseColumns(q) + JoinColumns(q.joins) + if q.distinct then SelectColumns(q.projections) else []
  }

  function SidesOf(columns: seq<Column>): set<string> {
    set c | c in columns :: c.side
  }

  /** The ON of every LEFT JOIN whose side is read. */
  function LeftColumns(joins: seq<Join>, read: set<string>): seq<Column> {
    if joins == [] then []
    else
      var last := joins[|joins| - 1];
      LeftColumns(joins[..|joins| - 1], read) + if last.kind.Left? && last.side in read then CondColumns(last.on) else []
  }

  /** What a projection becomes: what it reads, then what decides its rows. */
  function Folded(q: Select, columns: seq<Column>): seq<Column> {
    columns + Every(q) + LeftColumns(q.joins, SidesOf(columns))
  }

  /** The columns of the joins as gathered by side, for the sides that are read. */
  function Chosen(joined: seq<(string, seq<Column>)>, read: set<string>): seq<Column> {
    if joined == [] then []
    else
      var last := joined[|joined| - 1];
      Chosen(joined[..|joined| - 1], read) + if last.0 in read then last.1 else []
  }

  ghost predicate Gathered(joined: seq<(string, seq<Column>)>, joins: seq<Join>) {
    forall read :: Chosen(joined, read) == LeftColumns(joins, read)
  }

  lemma GatheredOne(joined: seq<(string, seq<Column>)>, joins: seq<Join>, join: Join)
    requires Gathered(joined, joins)
    ensures Gathered(if join.kind.Left? then joined + [(join.side, CondColumns(join.on))] else joined, joins + [join])
  {
    var after := if join.kind.Left? then joined + [(join.side, CondColumns(join.on))] else joined;
    assert (joins + [join])[..|joins|] == joins;
    assert join.kind.Left? ==> after[..|joined|] == joined;
    forall read ensures Chosen(after, read) == LeftColumns(joins + [join], read) {
    }
  }

  /** The joins' ON columns: a LEFT JOIN's kept by side, the others' added to what every projection takes. */
  method GatherJoins(joins: seq<Join>, clauses: seq<Column>)
    returns (every: seq<Column>, joined: seq<(string, seq<Column>)>)
    ensures every == clauses + JoinColumns(joins)
    ensures Gathered(joined, joins)
  {
    every, joined := clauses, [];
    for k := 0 to |joins|
      invariant every == clauses + JoinColumns(joins[..k])
      invariant Gathered(joined, joins[..k])
    {
      GatheredOne(joined, joins[..k], joins[k]);
      assert joins[..k + 1] == joins[..k] + [joins[k]];
      if joins[k].kind.Left? {
        joined := joined + [(joins[k].side, CondColumns(joins[k].on))];
      } else {
        every := every + CondColumns(joins[k].on);
      }
    }
    assert joins[..|joins|] == joins;
  }

  method GatherSelected(projections: seq<Projection>) returns (columns: seq<Column>)
    ensures columns == SelectColumns(projections)
  {
    columns := [];
    for i := 0 to |projections|
      invariant columns == SelectColumns(projections[..i])
    {
      assert projections[..i + 1] == projections[..i] + [projections[i]];
      columns := columns + projections[i].expr.columns;
    }
    assert projections[..|projections|] == projections;
  }

  method Extra(every: seq<Column>, joined: seq<(string, seq<Column>)>, read: set<string>) returns (extra: seq<Column>)
    ensures extra == every + Chosen(joined, read)
  {
    extra := every;
    for k := 0 to |joined|
      invariant extra == every + Chosen(joined[..k], read)
    {
      assert joined[..k + 1] == joined[..k] + [joined[k]];
      if joined[k].0 in read {
        extra := extra + joined[k].1;
      }
    }
    assert joined[..|joined|] == joined;
  }

  /** The rule as it runs: the clauses and joins gathered once, then each projection rewritten. */
  method FoldRowShaping(q: Select) returns (folded: seq<seq<Column>>)
    ensures |folded| == |q.projections|
    ensures forall i :: 0 <= i < |folded| ==> folded[i] == Folded(q, q.projections[i].expr.columns)
  {
    var every, joined := GatherJoins(q.joins, ClauseColumns(q));
    if q.distinct {
      var selected := GatherSelected(q.projections);
      every := every + selected;
    }
    folded := [];
    for i := 0 to |q.projections|
      invariant |folded| == i
      invariant forall n :: 0 <= n < i ==> folded[n] == Folded(q, q.projections[n].expr.columns)
    {
      var columns := q.projections[i].expr.columns;
      var extra := Extra(every, joined, SidesOf(columns));
      assert columns + extra == Folded(q, columns);
      folded := folded + [columns + extra];
    }
  }

  // -- When it is enough ---------------------------------------------------------------

  ghost predicate Within(columns: seq<Column>, folded: set<Column>) {
    forall c :: c in columns ==> c in folded
  }

  /** The sides that can be seen through the columns: the ones read, and the ones that always decide rows. */
  ghost function Seen(q: Select, folded: set<Column>): set<string> {
    {q.side} + (set j | j in q.joins && !j.kind.Left? :: j.side) + set c | c in folded :: c.side
  }

  /** Every LEFT JOIN that can be seen has its own ON folded too. */
  ghost predicate Closed(q: Select, folded: set<Column>) {
    forall j :: j in q.joins && j.kind.Left? && j.side in Seen(q, folded) ==> Within(CondColumns(j.on), folded)
  }

  function FoldedSet(q: Select, columns: seq<Column>): set<Column> {
    set c | c in Folded(q, columns)
  }

  /** No side has two names, WHERE, GROUP BY, HAVING, DISTINCT and other joins read no left-joined side, and a LEFT
      JOIN's ON reads no left-joined side but its own. */
  ghost predicate ReadsApart(q: Select) {
    && (forall j :: j in q.joins && j.kind.Left? ==> j.side !in Seen(q, {}))
    && (forall c :: c in Every(q) ==> !LeftJoined(q, c.side))
    && (forall j, c :: j in q.joins && j.kind.Left? && c in CondColumns(j.on)
                       ==> c.side == j.side || !LeftJoined(q, c.side))
  }

  ghost predicate LeftJoined(q: Select, side: string) {
    exists j :: j in q.joins && j.kind.Left? && j.side == side
  }

  lemma {:induction false} LeftColumnsAre(joins: seq<Join>, read: set<string>)
    ensures forall c :: c in LeftColumns(joins, read)
                        <==> exists j :: j in joins && j.kind.Left? && j.side in read && c in CondColumns(j.on)
  {
    if joins != [] {
      var n := |joins| - 1;
      LeftColumnsAre(joins[..n], read);
      assert joins == joins[..n] + [joins[n]];
    }
  }

  /** A query that reads its sides apart folds all it takes. */
  lemma ReadingApartCloses(q: Select, columns: seq<Column>)
    requires ReadsApart(q)
    ensures Closed(q, FoldedSet(q, columns))
  {
    var folded, read := FoldedSet(q, columns), SidesOf(columns);
    LeftColumnsAre(q.joins, read);
    forall j | j in q.joins && j.kind.Left? && j.side in Seen(q, folded)
      ensures Within(CondColumns(j.on), folded)
    {
      var c :| c in folded && c.side == j.side;
      assert LeftJoined(q, j.side);
      if c !in columns {
        assert c in LeftColumns(q.joins, read);
        var other :| other in q.joins && other.kind.Left? && other.side in read && c in CondColumns(other.on);
        assert other.side == j.side;
      }
      forall d | d in CondColumns(j.on) ensures d in folded {
        assert d in LeftColumns(q.joins, read);
      }
    }
  }
}
