/** Column lineage as it runs: each model traced once, remembered, and resolved through the models it reads. */
module Tracing {
  import opened Ids
  import opened Sql
  import opened RowShaping
  import opened ColumnLineage

  // -- What can be traced --------------------------------------------------------------

  /** A column is traced through everything folded into it; a model it comes from is traced whole. */
  predicate Traceable(p: Project, depth: nat, q: Select, name: string)
    decreases depth, q, 3
  {
    Find(q.projections, name).Some? && AllThrough(p, depth, q, ColumnsOf(q, name))
  }

  predicate AllThrough(p: Project, depth: nat, q: Select, columns: seq<Column>)
    decreases depth, q, 2, |columns|
  {
    columns == []
    || (AllThrough(p, depth, q, columns[..|columns| - 1]) && TraceableThrough(p, depth, q, columns[|columns| - 1]))
  }

  predicate TraceableThrough(p: Project, depth: nat, q: Select, c: Column)
    decreases depth, q, 1
  {
    if c.side !in Sides(q) then true
    else if c.side == q.side then TraceableSource(p, depth, q.source, c.name)
    else TraceableSource(p, depth, q.joins[IndexOf(q.joins, c.side).value].source, c.name)
  }

  predicate TraceableSource(p: Project, depth: nat, s: Source, name: string)
    decreases depth, s
  {
    match s
    case Model(uid) =>
      Ranked(p, uid, depth) && TraceableModel(p, p.rank[uid], p.models[uid], |p.models[uid].projections|)
      && Find(p.models[uid].projections, name).Some?
    case Sub(query) => Traceable(p, depth, query, name)
    case _ => true
  }

  /** The first `n` columns of a model can be traced. */
  predicate TraceableModel(p: Project, depth: nat, q: Select, n: nat)
    requires n <= |q.projections|
    decreases depth, q, 4, n
  {
    n == 0 || (TraceableModel(p, depth, q, n - 1) && Traceable(p, depth, q, q.projections[n - 1].name))
  }

  /** The raw columns of a list of columns. */
  function RawOf(p: Project, depth: nat, q: Select, columns: seq<Column>): set<RawColumn> {
    if columns == [] then {}
    else RawOf(p, depth, q, columns[..|columns| - 1]) + Through(p, depth, q, columns[|columns| - 1])
  }

  lemma {:induction false} RawOfIsTheUnion(p: Project, depth: nat, q: Select, columns: seq<Column>, r: RawColumn)
    ensures r in RawOf(p, depth, q, columns) <==> exists c :: c in columns && r in Through(p, depth, q, c)
  {
    if columns != [] {
      var n := |columns| - 1;
      RawOfIsTheUnion(p, depth, q, columns[..n], r);
      assert columns[n] in columns && forall c :: c in columns <==> c in columns[..n] || c == columns[n];
    }
  }

  lemma RawOfIsLineage(p: Project, depth: nat, q: Select, name: string)
    ensures RawOf(p, depth, q, ColumnsOf(q, name)) == Lineage(p, depth, q, name)
  {
    forall r { RawOfIsTheUnion(p, depth, q, ColumnsOf(q, name), r); }
  }

  /** Every column of the first `n` and what it depends on. */
  function Traced(p: Project, depth: nat, q: Select, n: nat): map<string, set<RawColumn>>
    requires n <= |q.projections|
  {
    if n == 0 then map[]
    else Traced(p, depth, q, n - 1)[q.projections[n - 1].name := Lineage(p, depth, q, q.projections[n - 1].name)]
  }

  function TracedModel(p: Project, uid: string): map<string, set<RawColumn>>
    requires uid in p.models && uid in p.rank
  {
    Traced(p, p.rank[uid], p.models[uid], |p.models[uid].projections|)
  }

  lemma {:induction false} TracedMeans(p: Project, depth: nat, q: Select, n: nat, name: string)
    requires n <= |q.projections|
    ensures name in Traced(p, depth, q, n) ==> Traced(p, depth, q, n)[name] == Lineage(p, depth, q, name)
    ensures name in Traced(p, depth, q, n) <==> Find(q.projections[..n], name).Some?
  {
    if n > 0 {
      TracedMeans(p, depth, q, n - 1, name);
      assert q.projections[..n][..n - 1] == q.projections[..n - 1];
    }
  }

  lemma {:induction false} FindKnown(projections: seq<Projection>, i: nat)
    requires i < |projections|
    ensures Find(projections, projections[i].name).Some?
  {
    if i < |projections| - 1 { FindKnown(projections[..|projections| - 1], i); }
  }

  /** One column more. */
  lemma TracedOne(p: Project, depth: nat, q: Select, i: nat, found: map<string, set<RawColumn>>)
    requires i < |q.projections| && TraceableModel(p, depth, q, i) && found == Traced(p, depth, q, i)
    ensures var name := q.projections[i].name;
      && (TraceableModel(p, depth, q, i + 1) <==> AllThrough(p, depth, q, ColumnsOf(q, name)))
      && Traced(p, depth, q, i + 1) == found[name := RawOf(p, depth, q, ColumnsOf(q, name))]
  {
    FindKnown(q.projections, i);
    RawOfIsLineage(p, depth, q, q.projections[i].name);
  }

  // -- Models that do not read themselves -----------------------------------------------

  /** What is found is the first `i` columns, all of them traceable. */
  ghost predicate TracedTo(p: Project, depth: nat, q: Select, i: nat, found: map<string, set<RawColumn>>) {
    i <= |q.projections| && TraceableModel(p, depth, q, i) && found == Traced(p, depth, q, i)
  }

  /** A column that cannot be traced stops the model. */
  lemma TraceStops(p: Project, depth: nat, q: Select, i: nat)
    requires i < |q.projections| && !AllThrough(p, depth, q, ColumnsOf(q, q.projections[i].name))
    ensures !TraceableModel(p, depth, q, |q.projections|)
  {
    assert !TraceableModel(p, depth, q, i + 1);
    NotTraceable(p, depth, q, i + 1, |q.projections|);
  }

  /** Every model a query reads, here or in a subquery, comes before it. */
  ghost predicate Below(p: Project, depth: nat, q: Select)
    decreases q
  {
    && SourceBelow(p, depth, q.source)
    && forall k :: 0 <= k < |q.joins| ==> SourceBelow(p, depth, q.joins[k].source)
  }

  ghost predicate SourceBelow(p: Project, depth: nat, s: Source)
    decreases s
  {
    match s
    case Model(uid) => uid in p.models ==> Ranked(p, uid, depth)
    case Sub(query) => Below(p, depth, query)
    case _ => true
  }

  ghost predicate Acyclic(p: Project) {
    forall uid :: uid in p.models ==> uid in p.rank && Below(p, p.rank[uid], p.models[uid])
  }

  // -- The tracer ----------------------------------------------------------------------

  class Tracer {
    const project: Project
    var traced: map<string, map<string, set<RawColumn>>>

    /** What is remembered is right. */
    ghost predicate Valid()
      reads this
    {
      Acyclic(project) && forall uid :: uid in traced ==> Remembers(uid, traced[uid])
    }

    ghost predicate Remembers(uid: string, columns: map<string, set<RawColumn>>) {
      && uid in project.models && uid in project.rank
      && TraceableModel(project, project.rank[uid], project.models[uid], |project.models[uid].projections|)
      && columns == TracedModel(project, uid)
    }

    constructor (project: Project)
      requires Acyclic(project)
      ensures Valid() && this.project == project && traced == map[]
    {
      this.project, traced := project, map[];
    }

    /** A model's columns and the raw columns each depends on; none if one cannot be traced. */
    method Model(uid: string) returns (r: Option<map<string, set<RawColumn>>>)
      requires Valid() && uid in project.models
      modifies this`traced
      ensures Valid()
      ensures r.Some? <==> TraceableModel(project, project.rank[uid], project.models[uid], |project.models[uid].projections|)
      ensures r.Some? ==> r.value == TracedModel(project, uid)
      decreases project.rank[uid], 2
    {
      if uid in traced {
        assert Remembers(uid, traced[uid]);
        return Some(traced[uid]);
      }
      r := Trace(project.rank[uid], project.models[uid]);
      if r.Some? {
        traced := traced[uid := r.value];
      }
    }

    /** The columns of one model's query, one after the other. */
    method Trace(depth: nat, q: Select) returns (r: Option<map<string, set<RawColumn>>>)
      requires Valid() && Below(project, depth, q)
      modifies this`traced
      ensures Valid()
      ensures r.Some? <==> TraceableModel(project, depth, q, |q.projections|)
      ensures r.Some? ==> r.value == Traced(project, depth, q, |q.projections|)
      decreases depth, 1, q, 1
    {
      var found := map[];
      for i := 0 to |q.projections|
        invariant Valid()
        invariant TracedTo(project, depth, q, i, found)
      {
        var next := TraceOne(depth, q, i, found);
        if next.None? {
          return None;
        }
        found := next.value;
      }
      r := Some(found);
    }

    /** One column more, if it can be traced. */
    method TraceOne(depth: nat, q: Select, i: nat, found: map<string, set<RawColumn>>)
      returns (next: Option<map<string, set<RawColumn>>>)
      requires Valid() && Below(project, depth, q) && i < |q.projections|
      requires TracedTo(project, depth, q, i, found)
      modifies this`traced
      ensures Valid()
      ensures if next.Some? then TracedTo(project, depth, q, i + 1, next.value)
              else !TraceableModel(project, depth, q, |q.projections|)
      decreases depth, 1, q, 0
    {
      var columns := Resolve(depth, q, ColumnsOf(q, q.projections[i].name));
      if columns.None? {
        TraceStops(project, depth, q, i);
        return None;
      }
      TracedOne(project, depth, q, i, found);
      next := Some(found[q.projections[i].name := columns.value]);
    }

    /** The columns of a query down to raw columns. */
    method Resolve(depth: nat, q: Select, columns: seq<Column>) returns (r: Option<set<RawColumn>>)
      requires Valid() && Below(project, depth, q)
      modifies this`traced
      ensures Valid()
      ensures r.Some? <==> AllThrough(project, depth, q, columns)
      ensures r.Some? ==> r.value == RawOf(project, depth, q, columns)
      decreases depth, 0, q, 1
    {
      var found: set<RawColumn> := {};
      for i := 0 to |columns|
        invariant Valid()
        invariant AllThrough(project, depth, q, columns[..i])
        invariant found == RawOf(project, depth, q, columns[..i])
      {
        var c := columns[i];
        assert columns[..i + 1][..i] == columns[..i];
        var more := ResolveColumn(depth, q, c);
        if more.None? {
          NotThrough(project, depth, q, columns, i);
          return None;
        }
        found := found + more.value;
      }
      assert columns[..|columns|] == columns;
      r := Some(found);
    }

    /** One column: through the side it is of, or nothing where it is of none. */
    method ResolveColumn(depth: nat, q: Select, c: Column) returns (r: Option<set<RawColumn>>)
      requires Valid() && Below(project, depth, q)
      modifies this`traced
      ensures Valid()
      ensures r.Some? <==> TraceableThrough(project, depth, q, c)
      ensures r.Some? ==> r.value == Through(project, depth, q, c)
      decreases depth, 0, q, 0
    {
      r := Some({});
      if c.side == q.side {
        r := ResolveSource(depth, q.source, c.name);
      } else {
        var k := IndexOf(q.joins, c.side);
        if k.Some? {
          r := ResolveSource(depth, q.joins[k.value].source, c.name);
        }
      }
    }

    method ResolveSource(depth: nat, s: Source, name: string) returns (r: Option<set<RawColumn>>)
      requires Valid() && SourceBelow(project, depth, s)
      modifies this`traced
      ensures Valid()
      ensures r.Some? <==> TraceableSource(project, depth, s, name)
      ensures r.Some? ==> r.value == SourceLineage(project, depth, s, name)
      decreases depth, 0, s, 2
    {
      match s {
        case Raw(table) => r := Some({RawColumn(table, name)});
        case Seed(_) => r := Some({});
        case Sub(query) =>
          if Find(query.projections, name).None? { return None; }
          r := Resolve(depth, query, ColumnsOf(query, name));
          RawOfIsLineage(project, depth, query, name);
        case Model(uid) =>
          if uid !in project.models { return None; }
          var upstream := Model(uid);
          if upstream.None? { return None; }
          var q := project.models[uid];
          TracedMeans(project, project.rank[uid], q, |q.projections|, name);
          assert q.projections[..|q.projections|] == q.projections;
          r := if name in upstream.value then Some(upstream.value[name]) else None;
      }
    }
  }

  lemma {:induction false} NotTraceable(p: Project, depth: nat, q: Select, i: nat, n: nat)
    requires i <= n <= |q.projections| && !TraceableModel(p, depth, q, i)
    ensures !TraceableModel(p, depth, q, n)
  {
    if i < n { NotTraceable(p, depth, q, i, n - 1); }
  }

  lemma {:induction false} NotThrough(p: Project, depth: nat, q: Select, columns: seq<Column>, i: nat)
    requires i < |columns| && !TraceableThrough(p, depth, q, columns[i])
    ensures !AllThrough(p, depth, q, columns)
  {
    if i < |columns| - 1 { NotThrough(p, depth, q, columns[..|columns| - 1], i); }
  }
}
