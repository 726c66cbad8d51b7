/** A warehouse that runs one query at a time, bills while it runs, and stops when it has been idle long enough. */
module Bursts {
  import opened Ids
  import opened Splitting

  /** A query on its warehouse: when it was submitted, in microseconds, and how long it takes. */
  datatype Query = Query(id: string, warehouse: string, startedAt: int, ms: nat)

  /** From a warehouse's start to the end of the last query before it stopped. */
  datatype Burst = Burst(warehouse: string, startedMs: int, lastEndMs: int, queries: seq<Query>)

  /** A submission to the whole millisecond before it. */
  function Submitted(q: Query): int {
    q.startedAt / 1000
  }

  // -- In order of submission ----------------------------------------------------------

  predicate NotAfter(a: Query, b: Query) {
    a.startedAt < b.startedAt || (a.startedAt == b.startedAt && Leq(a.id, b.id))
  }

  ghost predicate Ordered(queries: seq<Query>) {
    forall i, j :: 0 <= i < j < |queries| ==> NotAfter(queries[i], queries[j])
  }

  function Insert(queries: seq<Query>, q: Query): seq<Query> {
    if queries == [] || NotAfter(queries[|queries| - 1], q) then queries + [q]
    else Insert(queries[..|queries| - 1], q) + [queries[|queries| - 1]]
  }

  /** A warehouse's queries by submission, then id. */
  function OrderedOf(queries: seq<Query>, warehouse: string): seq<Query> {
    if queries == [] then []
    else
      var before, last := OrderedOf(queries[..|queries| - 1], warehouse), queries[|queries| - 1];
      if last.warehouse == warehouse then Insert(before, last) else before
  }

  function OfWarehouse(queries: seq<Query>, warehouse: string): seq<Query> {
    if queries == [] then []
    else
      var last := queries[|queries| - 1];
      OfWarehouse(queries[..|queries| - 1], warehouse) + if last.warehouse == warehouse then [last] else []
  }

  lemma NotAfterTransitive(a: Query, b: Query, c: Query)
    requires NotAfter(a, b) && NotAfter(b, c)
    ensures NotAfter(a, c)
  {
    if a.startedAt == c.startedAt { LeqTransitive(a.id, b.id, c.id); }
  }

  lemma {:induction false} InsertKeeps(queries: seq<Query>, q: Query)
    requires Ordered(queries)
    ensures Ordered(Insert(queries, q)) && multiset(Insert(queries, q)) == multiset(queries) + multiset{q}
    ensures forall x :: x in Insert(queries, q) <==> x in queries || x == q
  {
    if queries != [] {
      var n := |queries| - 1;
      assert queries == queries[..n] + [queries[n]];
      LeqTotal(queries[n].id, q.id);
      if NotAfter(queries[n], q) {
        forall i | 0 <= i < n ensures NotAfter(queries[i], q) { NotAfterTransitive(queries[i], queries[n], q); }
      } else {
        InsertKeeps(queries[..n], q);
        var before := Insert(queries[..n], q);
        forall i | 0 <= i < |before| ensures NotAfter(before[i], queries[n]) {
          assert before[i] in before;
        }
      }
    }
  }

  lemma {:induction false} OrderedOfKeeps(queries: seq<Query>, warehouse: string)
    ensures Ordered(OrderedOf(queries, warehouse))
    ensures multiset(OrderedOf(queries, warehouse)) == multiset(OfWarehouse(queries, warehouse))
  {
    if queries != [] {
      var n := |queries| - 1;
      OrderedOfKeeps(queries[..n], warehouse);
      if queries[n].warehouse == warehouse {
        InsertKeeps(OrderedOf(queries[..n], warehouse), queries[n]);
      }
    }
  }

  // -- Bursts --------------------------------------------------------------------------

  /** When the last of some queries ends, run one at a time, none before it was submitted. */
  function LastEnd(queries: seq<Query>): int
    requires queries != []
  {
    var n := |queries| - 1;
    (if n == 0 then Submitted(queries[0]) else Max(Submitted(queries[n]), LastEnd(queries[..n]))) + queries[n].ms
  }

  ghost predicate NoneEmpty(runs: seq<seq<Query>>) {
    forall i :: 0 <= i < |runs| ==> runs[i] != []
  }

  /** One query more: it joins the run that is on unless that was idle too long. */
  function Extended(runs: seq<seq<Query>>, q: Query, idle: nat): (after: seq<seq<Query>>)
    requires NoneEmpty(runs)
    ensures NoneEmpty(after) && after != []
  {
    if runs == [] || Submitted(q) > LastEnd(runs[|runs| - 1]) + idle then runs + [[q]]
    else runs[..|runs| - 1] + [runs[|runs| - 1] + [q]]
  }

  /** The queries in runs. */
  function Runs(ordered: seq<Query>, idle: nat): (runs: seq<seq<Query>>)
    ensures NoneEmpty(runs) && (runs == []) == (ordered == [])
  {
    if ordered == [] then [] else Extended(Runs(ordered[..|ordered| - 1], idle), ordered[|ordered| - 1], idle)
  }

  function BurstOf(warehouse: string, run: seq<Query>): Burst
    requires run != []
  {
    Burst(warehouse, Submitted(run[0]), LastEnd(run), run)
  }

  function BurstsOf(warehouse: string, runs: seq<seq<Query>>): (bursts: seq<Burst>)
    requires NoneEmpty(runs)
    ensures |bursts| == |runs| && forall i :: 0 <= i < |bursts| ==> bursts[i] == BurstOf(warehouse, runs[i])
  {
    if runs == [] then []
    else BurstsOf(warehouse, runs[..|runs| - 1]) + [BurstOf(warehouse, runs[|runs| - 1])]
  }

  /** The runs so far: all but the last are bursts already, the last is the one that is on. */
  ghost predicate LaidOut(warehouse: string, runs: seq<seq<Query>>, bursts: seq<Burst>, current: seq<Query>, start: int, end: int)
  {
    && NoneEmpty(runs)
    && (if current == [] then runs == [] && bursts == []
        else runs != [] && current == runs[|runs| - 1] && start == Submitted(current[0]) && end == LastEnd(current)
             && bursts == BurstsOf(warehouse, runs[..|runs| - 1]))
  }

  lemma StartsAnew(warehouse: string, runs: seq<seq<Query>>, bursts: seq<Burst>, current: seq<Query>, start: int, end: int,
                   q: Query, idle: nat)
    requires LaidOut(warehouse, runs, bursts, current, start, end) && current != [] && Submitted(q) > end + idle
    ensures LaidOut(warehouse, Extended(runs, q, idle), bursts + [Burst(warehouse, start, end, current)], [q], Submitted(q),
                    Submitted(q) + q.ms)
  {
    assert (runs + [[q]])[..|runs|] == runs;
  }

  lemma StartsFirst(warehouse: string, runs: seq<seq<Query>>, bursts: seq<Burst>, start: int, end: int, q: Query, idle: nat)
    requires LaidOut(warehouse, runs, bursts, [], start, end)
    ensures LaidOut(warehouse, Extended(runs, q, idle), bursts, [q], Submitted(q), Submitted(q) + q.ms)
  {
  }

  lemma GoesOn(warehouse: string, runs: seq<seq<Query>>, bursts: seq<Burst>, current: seq<Query>, start: int, end: int,
               q: Query, idle: nat)
    requires LaidOut(warehouse, runs, bursts, current, start, end) && current != [] && Submitted(q) <= end + idle
    ensures LaidOut(warehouse, Extended(runs, q, idle), bursts, current + [q], start, Max(Submitted(q), end) + q.ms)
  {
    assert (current + [q])[..|current|] == current;
    assert (runs[..|runs| - 1] + [current + [q]])[..|runs| - 1] == runs[..|runs| - 1];
  }

  /** One query more laid out: on its own after the run that was on, with that run, or as the first of all. */
  lemma OneMore(warehouse: string, ordered: seq<Query>, i: nat, idle: nat, bursts: seq<Burst>, current: seq<Query>,
                start: int, end: int)
    requires i < |ordered| && LaidOut(warehouse, Runs(ordered[..i], idle), bursts, current, start, end)
    ensures var q, after := ordered[i], Runs(ordered[..i + 1], idle);
      if current == [] then LaidOut(warehouse, after, bursts, [q], Submitted(q), Submitted(q) + q.ms)
      else if Submitted(q) > end + idle
      then LaidOut(warehouse, after, bursts + [Burst(warehouse, start, end, current)], [q], Submitted(q), Submitted(q) + q.ms)
      else LaidOut(warehouse, after, bursts, current + [q], start, Max(Submitted(q), end) + q.ms)
  {
    var q, runs := ordered[i], Runs(ordered[..i], idle);
    RunsStep(ordered, i, idle);
    if current == [] {
      StartsFirst(warehouse, runs, bursts, start, end, q, idle);
    } else if Submitted(q) > end + idle {
      StartsAnew(warehouse, runs, bursts, current, start, end, q, idle);
    } else {
      GoesOn(warehouse, runs, bursts, current, start, end, q, idle);
    }
  }

  lemma RunsStep(ordered: seq<Query>, i: nat, idle: nat)
    requires i < |ordered|
    ensures Runs(ordered[..i + 1], idle) == Extended(Runs(ordered[..i], idle), ordered[i], idle)
  {
    assert ordered[..i + 1][..i] == ordered[..i];
  }

  /** One warehouse's queries laid out. */
  method LayOut(warehouse: string, ordered: seq<Query>, idle: nat) returns (bursts: seq<Burst>)
    ensures bursts == BurstsOf(warehouse, Runs(ordered, idle))
  {
    bursts := [];
    var current: seq<Query> := [];
    var burstStart, lastEnd := 0, 0;
    for i := 0 to |ordered|
      invariant LaidOut(warehouse, Runs(ordered[..i], idle), bursts, current, burstStart, lastEnd)
    {
      var q := ordered[i];
      var submitted := Submitted(q);
      OneMore(warehouse, ordered, i, idle, bursts, current, burstStart, lastEnd);
      if current != [] && submitted > lastEnd + idle {
        bursts := bursts + [Burst(warehouse, burstStart, lastEnd, current)];
        current := [];
      }
      if current == [] {
        burstStart, lastEnd := submitted, submitted;
      }
      lastEnd := Max(submitted, lastEnd) + q.ms;
      current := current + [q];
    }
    assert ordered[..|ordered|] == ordered;
    if current != [] {
      bursts := bursts + [Burst(warehouse, burstStart, lastEnd, current)];
    }
  }
}
