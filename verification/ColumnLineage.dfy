/** Lineage down to the raw tables, through subqueries and models, and when it is all a column depends on. */
module ColumnLineage {
  import opened Ids
  import opened Sql
  import opened RowShaping
  import opened NonInterference

  datatype RawColumn = RawColumn(table: string, column: string)

  /** The models of a project; `rank` orders them, each above those it reads. */
  datatype Project = Project(models: map<string, Select>, rank: map<string, nat>)

  datatype Database = Database(raw: map<string, Relation>, seeds: map<string, Relation>)

  // -- Sides and their sources ---------------------------------------------------------

  function IndexOf(joins: seq<Join>, side: string): (found: Option<nat>)
    ensures found.Some? ==> found.value < |joins| && joins[found.value].side == side
    ensures found.None? ==> forall j :: 0 <= j < |joins| ==> joins[j].side != side
  {
    if joins == [] then None
    else if joins[|joins| - 1].side == side then Some(|joins| - 1)
    else IndexOf(joins[..|joins| - 1], side)
  }

  function Sides(q: Select): set<string> {
    {q.side} + set k | 0 <= k < |q.joins| :: q.joins[k].side
  }

  function SourceOf(q: Select, side: string): Source
    requires side in Sides(q)
  {
    if side == q.side then q.source else q.joins[IndexOf(q.joins, side).value].source
  }

  predicate Derived(s: Source) { s.Model? || s.Sub? }

  predicate Ranked(p: Project, uid: string, depth: nat) {
    uid in p.models && uid in p.rank && p.rank[uid] < depth
  }

  // -- What a project answers ----------------------------------------------------------

  function Nothing(): Relation {
    Relation(0, (i: nat, name: string) => Null)
  }

  function RelationOf(p: Project, depth: nat, s: Source, d: Database): Relation
    decreases depth, s
  {
    match s
    case Raw(table) => if table in d.raw then d.raw[table] else Nothing()
    case Seed(name) => if name in d.seeds then d.seeds[name] else Nothing()
    case Model(uid) => if Ranked(p, uid, depth) then Run(p, p.rank[uid], p.models[uid], d) else Nothing()
    case Sub(query) => Run(p, depth, query, d)
  }

  function ViewOf(p: Project, depth: nat, q: Select, d: Database): View
    decreases depth, q, 0
  {
    map side | side in Sides(q) ::
      if side == q.side then RelationOf(p, depth, q.source, d)
      else RelationOf(p, depth, q.joins[IndexOf(q.joins, side).value].source, d)
  }

  function Run(p: Project, depth: nat, q: Select, d: Database): Relation
    decreases depth, q, 1
  {
    Answer(ViewOf(p, depth, q, d), q)
  }

  // -- What a column depends on --------------------------------------------------------

  function ColumnsOf(q: Select, name: string): seq<Column> {
    var found := Find(q.projections, name);
    if found.Some? then Folded(q, q.projections[found.value].expr.columns) else []
  }

  /** A column's raw columns: those of everything folded into it. */
  function Lineage(p: Project, depth: nat, q: Select, name: string): set<RawColumn>
    decreases depth, q, 1
  {
    set c, r | c in ColumnsOf(q, name) && r in Through(p, depth, q, c) :: r
  }

  function Through(p: Project, depth: nat, q: Select, c: Column): set<RawColumn>
    decreases depth, q, 0
  {
    if c.side !in Sides(q) then {}
    else if c.side == q.side then SourceLineage(p, depth, q.source, c.name)
    else SourceLineage(p, depth, q.joins[IndexOf(q.joins, c.side).value].source, c.name)
  }

  function SourceLineage(p: Project, depth: nat, s: Source, name: string): set<RawColumn>
    decreases depth, s
  {
    match s
    case Raw(table) => {RawColumn(table, name)}
    case Seed(_) => {}
    case Model(uid) => if Ranked(p, uid, depth) then Lineage(p, p.rank[uid], p.models[uid], name) else {}
    case Sub(query) => Lineage(p, depth, query, name)
  }

  // -- When it is enough ---------------------------------------------------------------

  function FoldedOf(q: Select, name: string): set<Column> {
    set c | c in ColumnsOf(q, name)
  }

  /** Every LEFT JOIN that can be seen is folded, and every model or subquery that can be seen has a folded column,
      at this query and at every one its columns come from. */
  ghost predicate Guarded(p: Project, depth: nat, q: Select, name: string)
    decreases depth, q, 1
  {
    && Find(q.projections, name).Some?
    && Closed(q, FoldedOf(q, name)) && ShownThrough(q, FoldedOf(q, name))
    && forall c :: c in FoldedOf(q, name) ==> GuardedThrough(p, depth, q, c)
  }

  ghost predicate ShownThrough(q: Select, folded: set<Column>) {
    forall side :: side in Seen(q, folded) * Sides(q) && Derived(SourceOf(q, side)) ==> SideRead(side, folded)
  }

  ghost predicate SideRead(side: string, folded: set<Column>) {
    exists c :: c in folded && c.side == side
  }

  ghost predicate GuardedThrough(p: Project, depth: nat, q: Select, c: Column)
    decreases depth, q, 0
  {
    if c.side !in Sides(q) then true
    else if c.side == q.side then GuardedSource(p, depth, q.source, c.name)
    else GuardedSource(p, depth, q.joins[IndexOf(q.joins, c.side).value].source, c.name)
  }

  ghost predicate GuardedSource(p: Project, depth: nat, s: Source, name: string)
    decreases depth, s
  {
    match s
    case Model(uid) => Ranked(p, uid, depth) && Guarded(p, p.rank[uid], p.models[uid], name)
    case Sub(query) => Guarded(p, depth, query, name)
    case _ => true
  }

  /** In this database every LEFT JOIN that cannot be seen finds at most one row, at every query the column comes from. */
  ghost predicate Single(p: Project, depth: nat, q: Select, name: string, d: Database)
    decreases depth, q, 1
  {
    && UnseenAreSingle(ViewOf(p, depth, q, d), q, Seen(q, FoldedOf(q, name)), |q.joins|)
    && forall c :: c in FoldedOf(q, name) ==> SingleThrough(p, depth, q, c, d)
  }

  ghost predicate SingleThrough(p: Project, depth: nat, q: Select, c: Column, d: Database)
    decreases depth, q, 0
  {
    if c.side !in Sides(q) then true
    else if c.side == q.side then SingleSource(p, depth, q.source, c.name, d)
    else SingleSource(p, depth, q.joins[IndexOf(q.joins, c.side).value].source, c.name, d)
  }

  ghost predicate SingleSource(p: Project, depth: nat, s: Source, name: string, d: Database)
    decreases depth, s
  {
    match s
    case Model(uid) => Ranked(p, uid, depth) ==> Single(p, p.rank[uid], p.models[uid], name, d)
    case Sub(query) => Single(p, depth, query, name, d)
    case _ => true
  }

  /** The same tables with the same number of rows, and the same seeds: only cells of raw tables differ. */
  ghost predicate Aligned(d: Database, e: Database) {
    && d.seeds == e.seeds && d.raw.Keys == e.raw.Keys
    && forall table :: table in d.raw ==> d.raw[table].rows == e.raw[table].rows
  }

  ghost predicate SameCells(r: Relation, s: Relation, name: string) {
    r.rows == s.rows && forall i: nat :: i < r.rows ==> r.cell(i, name) == s.cell(i, name)
  }

  ghost predicate SameRaw(d: Database, e: Database, columns: set<RawColumn>) {
    forall c :: c in columns && c.table in d.raw && c.table in e.raw ==> SameCells(d.raw[c.table], e.raw[c.table], c.column)
  }

  // -- The theorem ---------------------------------------------------------------------

  /** Two databases that agree on a column's lineage give the same rows and the same values of that column. */
  lemma {:induction false} LineageIsEnough(p: Project, depth: nat, q: Select, name: string, d: Database, e: Database)
    requires Guarded(p, depth, q, name) && Single(p, depth, q, name, d) && Single(p, depth, q, name, e)
    requires Aligned(d, e) && SameRaw(d, e, Lineage(p, depth, q, name))
    ensures SameCells(Run(p, depth, q, d), Run(p, depth, q, e), name)
    decreases depth, q, 1
  {
    var folded := FoldedOf(q, name);
    var v, w := ViewOf(p, depth, q, d), ViewOf(p, depth, q, e);
    forall c | c in folded && c.side in Sides(q) ensures SameCells(v[c.side], w[c.side], c.name) {
      LineageThrough(p, depth, q, name, c);
      ThroughIsEnough(p, depth, q, c, d, e);
    }
    ViewsAgree(p, depth, q, folded, d, e);
    FoldedHasAll(q, q.projections[Find(q.projections, name).value].expr.columns);
    AnswersAgree(v, w, q, folded, name);
  }

  lemma LineageThrough(p: Project, depth: nat, q: Select, name: string, c: Column)
    requires c in FoldedOf(q, name)
    ensures Through(p, depth, q, c) <= Lineage(p, depth, q, name)
  {
  }

  lemma FoldedHasAll(q: Select, columns: seq<Column>)
    ensures Within(Every(q), FoldedSet(q, columns)) && Within(columns, FoldedSet(q, columns))
  {
  }

  lemma {:induction false} ThroughIsEnough(p: Project, depth: nat, q: Select, c: Column, d: Database, e: Database)
    requires c.side in Sides(q) && GuardedThrough(p, depth, q, c)
    requires SingleThrough(p, depth, q, c, d) && SingleThrough(p, depth, q, c, e)
    requires Aligned(d, e) && SameRaw(d, e, Through(p, depth, q, c))
    ensures SameCells(ViewOf(p, depth, q, d)[c.side], ViewOf(p, depth, q, e)[c.side], c.name)
    decreases depth, q, 0
  {
    if c.side == q.side {
      SourceIsEnough(p, depth, q.source, c.name, d, e);
    } else {
      SourceIsEnough(p, depth, q.joins[IndexOf(q.joins, c.side).value].source, c.name, d, e);
    }
  }

  lemma {:induction false} SourceIsEnough(p: Project, depth: nat, s: Source, name: string, d: Database, e: Database)
    requires GuardedSource(p, depth, s, name) && SingleSource(p, depth, s, name, d) && SingleSource(p, depth, s, name, e)
    requires Aligned(d, e) && SameRaw(d, e, SourceLineage(p, depth, s, name))
    ensures SameCells(RelationOf(p, depth, s, d), RelationOf(p, depth, s, e), name)
    decreases depth, s
  {
    match s {
      case Raw(table) =>
        assert RawColumn(table, name) in SourceLineage(p, depth, s, name);
      case Seed(_) =>
      case Model(uid) => LineageIsEnough(p, p.rank[uid], p.models[uid], name, d, e);
      case Sub(query) => LineageIsEnough(p, depth, query, name, d, e);
    }
  }

  lemma TablesAlign(p: Project, depth: nat, s: Source, d: Database, e: Database)
    requires Aligned(d, e) && !Derived(s)
    ensures RelationOf(p, depth, s, d).rows == RelationOf(p, depth, s, e).rows
  {
  }

  /** What the folded columns show of the sides is the same, and the tables that show nothing have as many rows. */
  lemma ViewsAgree(p: Project, depth: nat, q: Select, folded: set<Column>, d: Database, e: Database)
    requires Aligned(d, e) && ShownThrough(q, folded)
    requires forall c :: c in folded && c.side in Sides(q)
               ==> SameCells(ViewOf(p, depth, q, d)[c.side], ViewOf(p, depth, q, e)[c.side], c.name)
    ensures Agree(ViewOf(p, depth, q, d), ViewOf(p, depth, q, e), folded, Seen(q, folded))
  {
    var v, w := ViewOf(p, depth, q, d), ViewOf(p, depth, q, e);
    forall side | side in Seen(q, folded) ensures Rows(v, side) == Rows(w, side) {
      if side in Sides(q) {
        if Derived(SourceOf(q, side)) {
          assert SideRead(side, folded);
          var c :| c in folded && c.side == side;
          assert SameCells(v[c.side], w[c.side], c.name);
        } else {
          TablesAlign(p, depth, SourceOf(q, side), d, e);
        }
      }
    }
    forall c | c in folded ensures CellsAgree(v, w, c) {
    }
  }

  // -- Queries that read their sides apart -------------------------------------------------

  /** Every query a column comes from reads its sides apart, and has a folded column of every model or subquery it sees. */
  ghost predicate Apart(p: Project, depth: nat, q: Select, name: string)
    decreases depth, q, 1
  {
    && Find(q.projections, name).Some? && ReadsApart(q) && ShownThrough(q, FoldedOf(q, name))
    && forall c :: c in FoldedOf(q, name) ==> ApartThrough(p, depth, q, c)
  }

  ghost predicate ApartThrough(p: Project, depth: nat, q: Select, c: Column)
    decreases depth, q, 0
  {
    if c.side !in Sides(q) then true
    else if c.side == q.side then ApartSource(p, depth, q.source, c.name)
    else ApartSource(p, depth, q.joins[IndexOf(q.joins, c.side).value].source, c.name)
  }

  ghost predicate ApartSource(p: Project, depth: nat, s: Source, name: string)
    decreases depth, s
  {
    match s
    case Model(uid) => Ranked(p, uid, depth) && Apart(p, p.rank[uid], p.models[uid], name)
    case Sub(query) => Apart(p, depth, query, name)
    case _ => true
  }

  lemma {:induction false} ApartIsGuarded(p: Project, depth: nat, q: Select, name: string)
    requires Apart(p, depth, q, name)
    ensures Guarded(p, depth, q, name)
    decreases depth, q, 1
  {
    ReadingApartCloses(q, q.projections[Find(q.projections, name).value].expr.columns);
    forall c | c in FoldedOf(q, name) ensures GuardedThrough(p, depth, q, c) {
      if c.side in Sides(q) { ApartSourceIsGuarded(p, depth, q, c); }
    }
  }

  lemma {:induction false} ApartSourceIsGuarded(p: Project, depth: nat, q: Select, c: Column)
    requires c.side in Sides(q) && ApartThrough(p, depth, q, c)
    ensures GuardedThrough(p, depth, q, c)
    decreases depth, q, 0
  {
    var s := SourceOf(q, c.side);
    match s {
      case Model(uid) => ApartIsGuarded(p, p.rank[uid], p.models[uid], c.name);
      case Sub(query) => ApartIsGuarded(p, depth, query, c.name);
      case _ =>
    }
  }

  /** So for queries that read their sides apart, down to the raw tables, a column's lineage is enough. */
  lemma LineageIsEnoughApart(p: Project, depth: nat, q: Select, name: string, d: Database, e: Database)
    requires Apart(p, depth, q, name) && Single(p, depth, q, name, d) && Single(p, depth, q, name, e)
    requires Aligned(d, e) && SameRaw(d, e, Lineage(p, depth, q, name))
    ensures SameCells(Run(p, depth, q, d), Run(p, depth, q, e), name)
  {
    ApartIsGuarded(p, depth, q, name);
    LineageIsEnough(p, depth, q, name, d, e);
  }
}
