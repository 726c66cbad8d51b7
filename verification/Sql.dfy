/** A small SELECT language: joins, filters, groups and DISTINCT over tables, models and subqueries. */
module Sql {
  import opened Ids

  datatype Value = Null | Number(n: int)

  datatype Column = Column(side: string, name: string)

  /** A condition of one joined row: the columns it reads, and what it makes of them. */
  datatype Cond = Cond(columns: seq<Column>, holds: seq<Value> -> bool)

  /** A key of one joined row. */
  datatype Key = Key(columns: seq<Column>, of: seq<Value> -> Value)

  /** A value of a group of joined rows, and a condition of one: a plain expression is one of a group of one. */
  datatype Expr = Expr(columns: seq<Column>, of: seq<seq<Value>> -> Value)

  datatype Having = Having(columns: seq<Column>, holds: seq<seq<Value>> -> bool)

  datatype JoinKind = Left | Inner | Right | Full

  /** A join; a CROSS JOIN is an inner one without ON. */
  datatype Join = Join(kind: JoinKind, side: string, source: Source, on: Option<Cond>)

  /** One group a row, one of all rows (an aggregate without GROUP BY), or one a key. */
  datatype Grouping = EachRow | AllRows | ByKey(key: Key)

  datatype Projection = Projection(name: string, expr: Expr)

  datatype Select = Select(side: string, source: Source, joins: seq<Join>, filter: Option<Cond>, grouping: Grouping,
                           having: Option<Having>, distinct: bool, projections: seq<Projection>)

  /** Raw tables are compared; seeds and snapshots are not. */
  datatype Source = Raw(table: string) | Seed(name: string) | Model(uid: string) | Sub(query: Select)

  /** A table, a model or a subquery as rows of named cells. */
  datatype Relation = Relation(rows: nat, cell: (nat, string) -> Value)

  /** What each side of a query is. */
  type View = map<string, Relation>

  /** A joined row: which row of each side it is made of, `None` (or nothing) where an outer join found none. */
  type Tuple = map<string, Option<nat>>

  // -- Reading a joined row ------------------------------------------------------------

  function Rows(v: View, side: string): nat {
    if side in v then v[side].rows else 0
  }

  function RowOf(t: Tuple, side: string): Option<nat> {
    if side in t then t[side] else None
  }

  function Look(v: View, t: Tuple, c: Column): Value {
    var i := RowOf(t, c.side);
    if i.Some? && i.value < Rows(v, c.side) then v[c.side].cell(i.value, c.name) else Null
  }

  function Reads(v: View, t: Tuple, columns: seq<Column>): seq<Value> {
    if columns == [] then []
    else Reads(v, t, columns[..|columns| - 1]) + [Look(v, t, columns[|columns| - 1])]
  }

  function Holds(v: View, t: Tuple, on: Option<Cond>): bool {
    on.None? || on.value.holds(Reads(v, t, on.value.columns))
  }

  // -- Joins ---------------------------------------------------------------------------

  /** The first `n` rows of the joined side that match. */
  function Matches(v: View, t: Tuple, j: Join, n: nat): seq<nat> {
    if n == 0 then []
    else Matches(v, t, j, n - 1) + if Holds(v, t[j.side := Some(n - 1)], j.on) then [n - 1] else []
  }

  function WithEach(t: Tuple, side: string, rows: seq<nat>): seq<Tuple> {
    if rows == [] then [] else WithEach(t, side, rows[..|rows| - 1]) + [t[side := Some(rows[|rows| - 1])]]
  }

  predicate KeepsLeft(kind: JoinKind) { kind.Left? || kind.Full? }

  predicate KeepsRight(kind: JoinKind) { kind.Right? || kind.Full? }

  function Extend(v: View, t: Tuple, j: Join): seq<Tuple> {
    var matches := Matches(v, t, j, Rows(v, j.side));
    if matches == [] && KeepsLeft(j.kind) then [t[j.side := None]] else WithEach(t, j.side, matches)
  }

  function ExtendAll(v: View, tuples: seq<Tuple>, j: Join): seq<Tuple> {
    if tuples == [] then []
    else ExtendAll(v, tuples[..|tuples| - 1], j) + Extend(v, tuples[|tuples| - 1], j)
  }

  predicate SomeMatch(v: View, tuples: seq<Tuple>, j: Join, row: nat) {
    tuples != []
    && (SomeMatch(v, tuples[..|tuples| - 1], j, row) || Holds(v, tuples[|tuples| - 1][j.side := Some(row)], j.on))
  }

  /** The first `n` rows of the joined side that nothing matches, on their own. */
  function Unmatched(v: View, tuples: seq<Tuple>, j: Join, n: nat): seq<Tuple> {
    if n == 0 then []
    else Unmatched(v, tuples, j, n - 1) + if SomeMatch(v, tuples, j, n - 1) then [] else [map[j.side := Some(n - 1)]]
  }

  function FirstRows(side: string, n: nat): seq<Tuple> {
    if n == 0 then [] else FirstRows(side, n - 1) + [map[side := Some(n - 1)]]
  }

  /** The joined rows after the first `k` joins. */
  function Joined(v: View, q: Select, k: nat): seq<Tuple>
    requires k <= |q.joins|
  {
    if k == 0 then FirstRows(q.side, Rows(v, q.side)) else JoinOne(v, Joined(v, q, k - 1), q.joins[k - 1])
  }

  function JoinOne(v: View, tuples: seq<Tuple>, j: Join): seq<Tuple> {
    ExtendAll(v, tuples, j) + if KeepsRight(j.kind) then Unmatched(v, tuples, j, Rows(v, j.side)) else []
  }

  // -- Filters, groups and DISTINCT ----------------------------------------------------

  function Filtered(v: View, tuples: seq<Tuple>, filter: Option<Cond>): seq<Tuple> {
    if tuples == [] then []
    else
      Filtered(v, tuples[..|tuples| - 1], filter)
      + if Holds(v, tuples[|tuples| - 1], filter) then [tuples[|tuples| - 1]] else []
  }

  datatype Group = Group(key: Value, rows: seq<Tuple>)

  function KeyOf(v: View, t: Tuple, key: Key): Value {
    key.of(Reads(v, t, key.columns))
  }

  /** The groups once a row joined the group of its key, or made a new one. */
  function PutIn(groups: seq<Group>, key: Value, t: Tuple): seq<Group> {
    if groups == [] then [Group(key, [t])]
    else
      var last := groups[|groups| - 1];
      if last.key == key then groups[..|groups| - 1] + [Group(key, last.rows + [t])]
      else PutIn(groups[..|groups| - 1], key, t) + [last]
  }

  function GroupsOf(v: View, tuples: seq<Tuple>, grouping: Grouping): seq<Group> {
    match grouping
    case AllRows => [Group(Null, tuples)]
    case EachRow =>
      if tuples == [] then []
      else GroupsOf(v, tuples[..|tuples| - 1], grouping) + [Group(Null, [tuples[|tuples| - 1]])]
    case ByKey(key) =>
      if tuples == [] then []
      else PutIn(GroupsOf(v, tuples[..|tuples| - 1], grouping), KeyOf(v, tuples[|tuples| - 1], key), tuples[|tuples| - 1])
  }

  function ReadsAll(v: View, tuples: seq<Tuple>, columns: seq<Column>): seq<seq<Value>> {
    if tuples == [] then []
    else ReadsAll(v, tuples[..|tuples| - 1], columns) + [Reads(v, tuples[|tuples| - 1], columns)]
  }

  function Filtering(v: View, groups: seq<Group>, having: Option<Having>): seq<Group> {
    if groups == [] then []
    else
      var last := groups[|groups| - 1];
      Filtering(v, groups[..|groups| - 1], having)
      + if having.None? || having.value.holds(ReadsAll(v, last.rows, having.value.columns)) then [last] else []
  }

  function Evaluate(v: View, g: Group, e: Expr): Value {
    e.of(ReadsAll(v, g.rows, e.columns))
  }

  function Project(v: View, g: Group, projections: seq<Projection>): seq<Value> {
    if projections == [] then []
    else
      Project(v, g, projections[..|projections| - 1]) + [Evaluate(v, g, projections[|projections| - 1].expr)]
  }

  predicate Shown(v: View, groups: seq<Group>, values: seq<Value>, projections: seq<Projection>) {
    groups != []
    && (Shown(v, groups[..|groups| - 1], values, projections)
        || Project(v, groups[|groups| - 1], projections) == values)
  }

  /** The first group of each projected row. */
  function Distinct(v: View, groups: seq<Group>, projections: seq<Projection>): seq<Group> {
    if groups == [] then []
    else
      var before, last := Distinct(v, groups[..|groups| - 1], projections), groups[|groups| - 1];
      if Shown(v, before, Project(v, last, projections), projections) then before else before + [last]
  }

  /** The rows of a query, each the group it is computed from. */
  function Output(v: View, q: Select): seq<Group> {
    var rows := Filtered(v, Joined(v, q, |q.joins|), q.filter);
    var groups := Filtering(v, GroupsOf(v, rows, q.grouping), q.having);
    if q.distinct then Distinct(v, groups, q.projections) else groups
  }

  /** The projection of a name. */
  function Find(projections: seq<Projection>, name: string): (found: Option<nat>)
    ensures found.Some? ==> found.value < |projections| && projections[found.value].name == name
  {
    if projections == [] then None
    else if projections[|projections| - 1].name == name then Some(|projections| - 1)
    else Find(projections[..|projections| - 1], name)
  }

  function CellOf(v: View, q: Select, i: nat, name: string): Value {
    var found := Find(q.projections, name);
    if i < |Output(v, q)| && found.Some? then Evaluate(v, Output(v, q)[i], q.projections[found.value].expr) else Null
  }

  /** What a query answers. */
  function Answer(v: View, q: Select): Relation {
    Relation(|Output(v, q)|, (i: nat, name: string) => CellOf(v, q, i, name))
  }
}
