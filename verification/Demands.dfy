/** When a column cannot be traced: exactly when what it asks for, step by step, comes to something that is not there. */
module Demands {
  import opened Ids
  import opened Sql
  import opened RowShaping
  import opened ColumnLineage
  import opened FoldingNeeded
  import opened Tracing

  /** A column asked of a query, at its place among the models. */
  datatype Demand = Demand(depth: nat, query: Select, name: string)

  ghost predicate Takes(d: Demand, c: Column) {
    Folds(Step(d.depth, d.query, d.name, c))
  }

  /** A subquery is asked for the column folded; a model for that and for every column of its own. */
  ghost predicate AsksSource(p: Project, d: Demand, s: Source, name: string, next: Demand) {
    match s
    case Sub(query) => next == Demand(d.depth, query, name)
    case Model(uid) =>
      && Ranked(p, uid, d.depth) && next.depth == p.rank[uid] && next.query == p.models[uid]
      && (next.name == name || exists k :: 0 <= k < |next.query.projections| && next.query.projections[k].name == next.name)
    case _ => false
  }

  ghost predicate Asks(p: Project, d: Demand, next: Demand) {
    exists c :: Takes(d, c) && AsksSource(p, d, SourceOf(d.query, c.side), c.name, next)
  }

  /** The query has no such column, or a column folded into it is of a model that is not there. */
  ghost predicate Missing(p: Project, d: Demand) {
    || Find(d.query.projections, d.name).None?
    || exists c :: Takes(d, c) && SourceOf(d.query, c.side).Model? && !Ranked(p, SourceOf(d.query, c.side).uid, d.depth)
  }

  ghost predicate IsChain(p: Project, chain: seq<Demand>, d: Demand) {
    && chain != [] && chain[0] == d
    && forall i :: 0 <= i < |chain| - 1 ==> Asks(p, chain[i], chain[i + 1])
  }

  ghost predicate Met(p: Project, d: Demand) {
    Traceable(p, d.depth, d.query, d.name)
  }

  lemma {:induction false} ThroughAll(p: Project, depth: nat, q: Select, columns: seq<Column>)
    ensures AllThrough(p, depth, q, columns) <==> forall c :: c in columns ==> TraceableThrough(p, depth, q, c)
  {
    if columns != [] {
      var rest, last := columns[..|columns| - 1], columns[|columns| - 1];
      ThroughAll(p, depth, q, rest);
      assert last in columns && forall c :: c in columns <==> c in rest || c == last;
    }
  }

  /** The column at a place is met. */
  ghost predicate MetAt(p: Project, depth: nat, q: Select, k: nat) {
    k < |q.projections| && Met(p, Demand(depth, q, q.projections[k].name))
  }

  /** The first `n` columns are. */
  ghost predicate AllMet(p: Project, depth: nat, q: Select, n: nat) {
    forall k: nat :: k < n ==> MetAt(p, depth, q, k)
  }

  lemma {:induction false} OneByOne(whole: nat -> bool, each: nat -> bool, n: nat)
    requires whole(0) && forall k: nat :: k < n ==> (whole(k + 1) <==> whole(k) && each(k))
    ensures whole(n) <==> forall k: nat :: k < n ==> each(k)
  {
    if n > 0 {
      var e: nat := n - 1;
      OneByOne(whole, each, e);
      assert whole(e + 1) <==> whole(e) && each(e);
    }
  }

  lemma OneColumnMore(p: Project, depth: nat, q: Select, n: nat)
    requires 0 < n <= |q.projections|
    ensures TraceableModel(p, depth, q, n) <==> TraceableModel(p, depth, q, n - 1) && MetAt(p, depth, q, n - 1)
  {
  }

  lemma NoColumns(p: Project, depth: nat, q: Select)
    ensures TraceableModel(p, depth, q, 0)
  {
  }

  lemma WholeModel(p: Project, depth: nat, q: Select, n: nat)
    requires n <= |q.projections|
    ensures TraceableModel(p, depth, q, n) <==> AllMet(p, depth, q, n)
  {
    var whole: nat -> bool := (k: nat) => k <= |q.projections| && TraceableModel(p, depth, q, k);
    var each: nat -> bool := (k: nat) => MetAt(p, depth, q, k);
    NoColumns(p, depth, q);
    forall k: nat | k < n ensures whole(k + 1) <==> whole(k) && each(k) {
      OneColumnMore(p, depth, q, k + 1);
    }
    OneByOne(whole, each, n);
    forall k: nat ensures each(k) <==> MetAt(p, depth, q, k) {
    }
  }

  lemma ThroughIsSource(p: Project, depth: nat, q: Select, c: Column)
    ensures TraceableThrough(p, depth, q, c) <==> c.side in Sides(q) ==> TraceableSource(p, depth, SourceOf(q, c.side), c.name)
  {
  }

  lemma TakenAre(d: Demand, c: Column)
    ensures Takes(d, c) <==> c in ColumnsOf(d.query, d.name) && c.side in Sides(d.query)
  {
    ColumnFolds(d.query, d.name, c);
  }

  /** What is met asks only for what is met, and nothing is missing. */
  lemma MetAsksForMet(p: Project, d: Demand, next: Demand)
    requires Met(p, d) && Asks(p, d, next)
    ensures Met(p, next)
  {
    var c :| Takes(d, c) && AsksSource(p, d, SourceOf(d.query, c.side), c.name, next);
    TakenIsTraced(p, d, c);
    TracedSource(p, d, SourceOf(d.query, c.side), c.name, next);
  }

  lemma TakenIsTraced(p: Project, d: Demand, c: Column)
    requires Met(p, d) && Takes(d, c)
    ensures c.side in Sides(d.query) && TraceableSource(p, d.depth, SourceOf(d.query, c.side), c.name)
  {
    TakenAre(d, c);
    ThroughAll(p, d.depth, d.query, ColumnsOf(d.query, d.name));
    ThroughIsSource(p, d.depth, d.query, c);
  }

  lemma TracedSource(p: Project, d: Demand, s: Source, name: string, next: Demand)
    requires TraceableSource(p, d.depth, s, name) && AsksSource(p, d, s, name, next)
    ensures Met(p, next)
  {
    if s.Model? {
      var q := p.models[s.uid];
      WholeModel(p, next.depth, q, |q.projections|);
      FoundIsOne(q.projections, name);
      var k :| 0 <= k < |q.projections| && q.projections[k].name == next.name;
      assert MetAt(p, next.depth, q, k);
    }
  }

  lemma {:induction false} FoundIsOne(projections: seq<Projection>, name: string)
    requires Find(projections, name).Some?
    ensures exists k :: 0 <= k < |projections| && projections[k].name == name
  {
    var n := |projections| - 1;
    if projections[n].name != name { FoundIsOne(projections[..n], name); }
  }

  lemma MetMissesNothing(p: Project, d: Demand)
    requires Met(p, d)
    ensures !Missing(p, d)
  {
    forall c | Takes(d, c) && SourceOf(d.query, c.side).Model? ensures Ranked(p, SourceOf(d.query, c.side).uid, d.depth) {
      TakenIsTraced(p, d, c);
    }
  }

  lemma {:induction false} MetThroughout(p: Project, chain: seq<Demand>, d: Demand)
    requires IsChain(p, chain, d) && Met(p, d)
    ensures Met(p, chain[|chain| - 1])
  {
    var n: nat := |chain| - 1;
    if n > 0 {
      var e: nat := n - 1;
      LastAsked(p, chain, d, e);
      MetThroughout(p, chain[..n], d);
      MetAsksForMet(p, chain[e], chain[n]);
    }
  }

  lemma LastAsked(p: Project, chain: seq<Demand>, d: Demand, e: nat)
    requires IsChain(p, chain, d) && e == |chain| - 2
    ensures Asks(p, chain[e], chain[|chain| - 1]) && IsChain(p, chain[..|chain| - 1], d)
  {
    assert Asks(p, chain[e], chain[e + 1]);
  }

  lemma AndThen(p: Project, d: Demand, next: Demand, chain: seq<Demand>)
    requires Asks(p, d, next) && IsChain(p, chain, next)
    ensures IsChain(p, [d] + chain, d)
  {
    var all := [d] + chain;
    forall i | 0 <= i < |all| - 1 ensures Asks(p, all[i], all[i + 1]) {
      if i > 0 { assert Asks(p, chain[i - 1], chain[i - 1 + 1]); }
    }
  }

  /** What is not met asks, in the end, for something missing. */
  lemma {:induction false} NotMetMisses(p: Project, depth: nat, q: Select, name: string) returns (chain: seq<Demand>)
    requires !Traceable(p, depth, q, name)
    ensures IsChain(p, chain, Demand(depth, q, name)) && Missing(p, chain[|chain| - 1])
    decreases depth, q, 1
  {
    var d := Demand(depth, q, name);
    chain := [d];
    if Find(q.projections, name).Some? {
      ThroughAll(p, depth, q, ColumnsOf(q, name));
      var c :| c in ColumnsOf(q, name) && !TraceableThrough(p, depth, q, c);
      ThroughIsSource(p, depth, q, c);
      TakenAre(d, c);
      var s := SourceOf(q, c.side);
      if s.Sub? || Ranked(p, s.uid, depth) {
        SourceIsSmaller(q, c.side);
        var next, rest := NotMetBelow(p, d, s, c.name);
        AndThen(p, d, next, rest);
        chain := [d] + rest;
      }
    }
  }

  lemma SourceIsSmaller(q: Select, side: string)
    requires side in Sides(q)
    ensures SourceOf(q, side) < q
  {
  }

  lemma {:induction false} NotMetBelow(p: Project, d: Demand, s: Source, name: string) returns (next: Demand, rest: seq<Demand>)
    requires !TraceableSource(p, d.depth, s, name) && (s.Model? ==> Ranked(p, s.uid, d.depth))
    ensures AsksSource(p, d, s, name, next) && IsChain(p, rest, next) && Missing(p, rest[|rest| - 1])
    decreases d.depth, s, 0
  {
    match s {
      case Sub(query) =>
        next := Demand(d.depth, query, name);
        rest := NotMetMisses(p, d.depth, query, name);
      case Model(uid) =>
        var q := p.models[uid];
        WholeModel(p, p.rank[uid], q, |q.projections|);
        var asked := name;
        if Find(q.projections, name).Some? {
          var k: nat :| k < |q.projections| && !MetAt(p, p.rank[uid], q, k);
          asked := q.projections[k].name;
        }
        next := Demand(p.rank[uid], q, asked);
        rest := NotMetMisses(p, p.rank[uid], q, asked);
    }
  }

  /** The theorem: a column can be traced exactly when no chain of demands, from it on, comes to something missing. */
  lemma TraceableExactly(p: Project, depth: nat, q: Select, name: string)
    ensures Traceable(p, depth, q, name)
       <==> forall chain :: IsChain(p, chain, Demand(depth, q, name)) ==> !Missing(p, chain[|chain| - 1])
  {
    if Traceable(p, depth, q, name) {
      forall chain | IsChain(p, chain, Demand(depth, q, name)) ensures !Missing(p, chain[|chain| - 1]) {
        MetThroughout(p, chain, Demand(depth, q, name));
        MetMissesNothing(p, chain[|chain| - 1]);
      }
    } else {
      var chain := NotMetMisses(p, depth, q, name);
    }
  }

  /** And a model can be traced exactly when each of its columns can. */
  lemma ModelTracesWhole(p: Project, uid: string)
    requires uid in p.models && uid in p.rank
    ensures TraceableModel(p, p.rank[uid], p.models[uid], |p.models[uid].projections|)
       <==> forall k :: 0 <= k < |p.models[uid].projections| ==>
              forall chain :: IsChain(p, chain, Demand(p.rank[uid], p.models[uid], p.models[uid].projections[k].name))
                ==> !Missing(p, chain[|chain| - 1])
  {
    var q := p.models[uid];
    WholeModel(p, p.rank[uid], q, |q.projections|);
    forall k: nat | k < |q.projections|
      ensures MetAt(p, p.rank[uid], q, k)
         <==> forall chain :: IsChain(p, chain, Demand(p.rank[uid], q, q.projections[k].name)) ==> !Missing(p, chain[|chain| - 1])
    {
      TraceableExactly(p, p.rank[uid], q, q.projections[k].name);
    }
  }
}
