/** What the bursts of a day promise: every query in exactly one, no two billed at once, and the bill shared out. */
module Pricing {
  import opened Ids
  import opened Splitting
  import opened Fairness
  import opened Bursts

  // -- Every query in one burst ----------------------------------------------------------

  function Flatten(runs: seq<seq<Query>>): seq<Query> {
    if runs == [] then [] else Flatten(runs[..|runs| - 1]) + runs[|runs| - 1]
  }

  lemma FlattenAppends(runs: seq<seq<Query>>, run: seq<Query>)
    ensures Flatten(runs + [run]) == Flatten(runs) + run
  {
    assert (runs + [run])[..|runs|] == runs;
  }

  lemma ExtendedFlattens(runs: seq<seq<Query>>, q: Query, idle: nat)
    requires NoneEmpty(runs)
    ensures Flatten(Extended(runs, q, idle)) == Flatten(runs) + [q]
  {
    if runs == [] || Submitted(q) > LastEnd(runs[|runs| - 1]) + idle {
      FlattenAppends(runs, [q]);
    } else {
      var rest, last := runs[..|runs| - 1], runs[|runs| - 1];
      FlattenAppends(rest, last + [q]);
      FlattenAppends(rest, last);
      LastMoves([], runs);
      Associative(Flatten(rest), last, [q]);
    }
  }

  /** The runs are the queries cut into pieces, in order. */
  lemma {:induction false} RunsFlatten(ordered: seq<Query>, idle: nat)
    ensures Flatten(Runs(ordered, idle)) == ordered
  {
    if ordered != [] {
      RunsFlatten(ordered[..|ordered| - 1], idle);
      ExtendedFlattens(Runs(ordered[..|ordered| - 1], idle), ordered[|ordered| - 1], idle);
      LastMoves([], ordered);
    }
  }

  /** A query counts as submitted at the whole millisecond before. */
  lemma SubmittedIs(q: Query)
    ensures 1000 * Submitted(q) <= q.startedAt < 1000 * Submitted(q) + 1000
  {
  }

  // -- How long a burst runs -------------------------------------------------------------

  function Work(run: seq<Query>): nat {
    if run == [] then 0 else Work(run[..|run| - 1]) + run[|run| - 1].ms
  }

  /** Each next query was submitted before the run had been idle too long. */
  ghost predicate Joined(run: seq<Query>, idle: nat) {
    |run| <= 1
    || (Joined(run[..|run| - 1], idle) && Submitted(run[|run| - 1]) <= LastEnd(run[..|run| - 1]) + idle)
  }

  ghost predicate AllJoined(runs: seq<seq<Query>>, idle: nat) {
    forall i :: 0 <= i < |runs| ==> Joined(runs[i], idle)
  }

  lemma ExtendedIsJoined(runs: seq<seq<Query>>, q: Query, idle: nat)
    requires NoneEmpty(runs) && AllJoined(runs, idle)
    ensures AllJoined(Extended(runs, q, idle), idle)
  {
    if runs != [] {
      var last := runs[|runs| - 1];
      assert (last + [q])[..|last|] == last;
      assert Submitted(q) <= LastEnd(last) + idle ==> Joined(last + [q], idle);
    }
  }

  lemma {:induction false} RunsAreJoined(ordered: seq<Query>, idle: nat)
    ensures AllJoined(Runs(ordered, idle), idle)
  {
    if ordered != [] {
      RunsAreJoined(ordered[..|ordered| - 1], idle);
      ExtendedIsJoined(Runs(ordered[..|ordered| - 1], idle), ordered[|ordered| - 1], idle);
    }
  }

  /** A burst runs at least as long as its queries take, and at most an idle timeout more for each after the first. */
  lemma {:induction false} RunLength(run: seq<Query>, idle: nat)
    requires run != [] && Joined(run, idle)
    ensures Work(run) <= LastEnd(run) - Submitted(run[0]) <= Work(run) + (|run| - 1) * idle
  {
    var n := |run| - 1;
    if n > 0 {
      RunLength(run[..n], idle);
      MulAdd(idle, n - 1, 1);
      assert (n - 1) * idle == idle * (n - 1) && n * idle == idle * n;
    } else {
      assert run[..0] == [];
    }
  }

  /** When a query of a run has its turn and nothing waits after it until the run ends. */
  function EndFrom(run: seq<Query>, k: nat): int
    requires k < |run|
  {
    Submitted(run[k]) + Work(run) - Work(run[..k])
  }

  lemma EndFromStep(run: seq<Query>, k: nat)
    requires k < |run| - 1
    ensures EndFrom(run, k) == EndFrom(run[..|run| - 1], k) + run[|run| - 1].ms
  {
    assert run[..|run| - 1][..k] == run[..k];
  }

  /** A run ends once every query and all those after it have run: no sooner than from any of them, as soon as from one. */
  lemma {:induction false} RunEnds(run: seq<Query>) returns (from: nat)
    requires run != []
    ensures from < |run| && LastEnd(run) == EndFrom(run, from)
    ensures forall k: nat :: k < |run| ==> LastEnd(run) >= EndFrom(run, k)
  {
    var n := |run| - 1;
    from := n;
    if n > 0 {
      var before := RunEnds(run[..n]);
      forall k: nat | k < n ensures LastEnd(run) >= EndFrom(run, k) {
        EndFromStep(run, k);
      }
      if LastEnd(run[..n]) > Submitted(run[n]) {
        from := before;
        EndFromStep(run, before);
      }
    } else {
      assert run[..0] == [];
    }
  }

  // -- No two billed at once -------------------------------------------------------------

  /** The warehouse had been idle for the whole timeout before the next run was submitted. */
  ghost predicate Apart(runs: seq<seq<Query>>, idle: nat)
    requires NoneEmpty(runs)
  {
    forall i :: 0 < i < |runs| ==> Submitted(runs[i][0]) > LastEnd(runs[i - 1]) + idle
  }

  lemma ExtendedIsApart(runs: seq<seq<Query>>, q: Query, idle: nat)
    requires NoneEmpty(runs) && Apart(runs, idle)
    ensures Apart(Extended(runs, q, idle), idle)
  {
    var after := Extended(runs, q, idle);
    forall i | 0 < i < |after| ensures Submitted(after[i][0]) > LastEnd(after[i - 1]) + idle {
      if i < |runs| {
        assert after[i - 1] == runs[i - 1] && after[i][0] == runs[i][0];
      }
    }
  }

  lemma {:induction false} RunsAreApart(ordered: seq<Query>, idle: nat)
    ensures Apart(Runs(ordered, idle), idle)
  {
    if ordered != [] {
      RunsAreApart(ordered[..|ordered| - 1], idle);
      ExtendedIsApart(Runs(ordered[..|ordered| - 1], idle), ordered[|ordered| - 1], idle);
    }
  }

  lemma {:induction false} EndsAfterItStarts(run: seq<Query>)
    requires run != []
    ensures LastEnd(run) >= Submitted(run[0])
  {
    if |run| > 1 { EndsAfterItStarts(run[..|run| - 1]); }
  }

  /** Billed spans, from the first submission to the end of the idle tail, never overlap. */
  lemma {:induction false} BilledSpansNeverOverlap(ordered: seq<Query>, idle: nat, i: nat, j: nat)
    requires i < j < |Runs(ordered, idle)|
    ensures LastEnd(Runs(ordered, idle)[i]) + idle < Submitted(Runs(ordered, idle)[j][0])
    decreases j
  {
    RunsAreApart(ordered, idle);
    if i < j - 1 {
      BilledSpansNeverOverlap(ordered, idle, i, j - 1);
      EndsAfterItStarts(Runs(ordered, idle)[j - 1]);
    }
  }

  // -- All the warehouses ----------------------------------------------------------------

  function Warehouses(queries: seq<Query>): set<string> {
    set q | q in queries :: q.warehouse
  }

  function BurstsOn(queries: seq<Query>, idle: nat, names: seq<string>): seq<Burst> {
    if names == [] then []
    else
      var last := names[|names| - 1];
      BurstsOn(queries, idle, names[..|names| - 1]) + BurstsOf(last, Runs(OrderedOf(queries, last), idle))
  }

  lemma BurstsOnStep(queries: seq<Query>, idle: nat, names: seq<string>, i: nat)
    requires i < |names|
    ensures BurstsOn(queries, idle, names[..i + 1])
         == BurstsOn(queries, idle, names[..i]) + BurstsOf(names[i], Runs(OrderedOf(queries, names[i]), idle))
  {
    assert names[..i + 1][..i] == names[..i];
  }

  /** `bursts`: warehouse by warehouse, in the order of their names. */
  method AllBursts(queries: seq<Query>, idle: nat) returns (bursts: seq<Burst>)
    ensures bursts == BurstsOn(queries, idle, Sorted(Warehouses(queries)))
  {
    var names := Sorted(Warehouses(queries));
    bursts := [];
    for i := 0 to |names|
      invariant bursts == BurstsOn(queries, idle, names[..i])
    {
      BurstsOnStep(queries, idle, names, i);
      var more := LayOut(names[i], OrderedOf(queries, names[i]), idle);
      bursts := bursts + more;
    }
    assert names[..|names|] == names;
  }

  /** A burst runs as long as its queries take, and less than an idle timeout more for each after the first. */
  ghost predicate Lasts(b: Burst, idle: nat) {
    && b.queries != []
    && Work(b.queries) <= b.lastEndMs - b.startedMs <= Work(b.queries) + (|b.queries| - 1) * idle
  }

  lemma RunsLast(warehouse: string, ordered: seq<Query>, idle: nat)
    ensures forall b :: b in BurstsOf(warehouse, Runs(ordered, idle)) ==> Lasts(b, idle)
  {
    var runs := Runs(ordered, idle);
    var bursts := BurstsOf(warehouse, runs);
    RunsAreJoined(ordered, idle);
    forall b | b in bursts ensures Lasts(b, idle) {
      var i :| 0 <= i < |bursts| && bursts[i] == b;
      RunLasts(warehouse, runs[i], idle);
    }
  }

  lemma RunLasts(warehouse: string, run: seq<Query>, idle: nat)
    requires run != [] && Joined(run, idle)
    ensures Lasts(BurstOf(warehouse, run), idle)
  {
    RunLength(run, idle);
  }

  /** Every burst of every warehouse does. */
  lemma {:induction false} EveryBurstLasts(queries: seq<Query>, idle: nat, names: seq<string>)
    ensures forall b :: b in BurstsOn(queries, idle, names) ==> Lasts(b, idle)
  {
    if names != [] {
      EveryBurstLasts(queries, idle, names[..|names| - 1]);
      RunsLast(names[|names| - 1], OrderedOf(queries, names[|names| - 1]), idle);
    }
  }

  /** No two bursts of one warehouse overlap, idle tail and all. */
  ghost predicate NoOverlap(bursts: seq<Burst>, idle: nat) {
    forall i, j :: 0 <= i < j < |bursts| && bursts[i].warehouse == bursts[j].warehouse
      ==> bursts[i].lastEndMs + idle < bursts[j].startedMs
  }

  lemma OwnNeverOverlap(warehouse: string, ordered: seq<Query>, idle: nat)
    ensures NoOverlap(BurstsOf(warehouse, Runs(ordered, idle)), idle)
    ensures forall b :: b in BurstsOf(warehouse, Runs(ordered, idle)) ==> b.warehouse == warehouse
  {
    var bursts := BurstsOf(warehouse, Runs(ordered, idle));
    forall i, j | 0 <= i < j < |bursts| ensures bursts[i].lastEndMs + idle < bursts[j].startedMs {
      BilledSpansNeverOverlap(ordered, idle, i, j);
    }
  }

  lemma OthersNeverOverlap(before: seq<Burst>, own: seq<Burst>, warehouse: string, idle: nat)
    requires NoOverlap(before, idle) && NoOverlap(own, idle)
    requires forall b :: b in before ==> b.warehouse != warehouse
    requires forall b :: b in own ==> b.warehouse == warehouse
    ensures NoOverlap(before + own, idle)
  {
    var all := before + own;
    forall i, j | 0 <= i < j < |all| && all[i].warehouse == all[j].warehouse
      ensures all[i].lastEndMs + idle < all[j].startedMs
    {
      assert i < |before| ==> all[i] in before;
      assert j >= |before| ==> all[j] in own;
    }
  }

  /** The bursts of every warehouse do not. */
  lemma {:induction false} BurstsNeverOverlap(queries: seq<Query>, idle: nat, names: seq<string>)
    requires Ascending(names)
    ensures NoOverlap(BurstsOn(queries, idle, names), idle)
    ensures forall b :: b in BurstsOn(queries, idle, names) ==> b.warehouse in names
  {
    if names != [] {
      var n := |names| - 1;
      var ordered := OrderedOf(queries, names[n]);
      assert names == names[..n] + [names[n]] && names[n] !in names[..n];
      BurstsNeverOverlap(queries, idle, names[..n]);
      OwnNeverOverlap(names[n], ordered, idle);
      OthersNeverOverlap(BurstsOn(queries, idle, names[..n]), BurstsOf(names[n], Runs(ordered, idle)), names[n], idle);
    }
  }

  function QueriesIn(bursts: seq<Burst>): seq<Query> {
    if bursts == [] then [] else QueriesIn(bursts[..|bursts| - 1]) + bursts[|bursts| - 1].queries
  }

  lemma LastMoves<T>(a: seq<T>, b: seq<T>)
    requires b != []
    ensures b == b[..|b| - 1] + [b[|b| - 1]] && a + b == (a + b[..|b| - 1]) + [b[|b| - 1]]
  {
  }

  lemma QueriesStep(a: seq<Burst>, b: Burst)
    ensures QueriesIn(a + [b]) == QueriesIn(a) + b.queries
  {
    assert (a + [b])[..|a|] == a;
  }

  lemma {:induction false} QueriesAppend(a: seq<Burst>, b: seq<Burst>)
    ensures QueriesIn(a + b) == QueriesIn(a) + QueriesIn(b)
  {
    if b == [] {
      assert a + b == a;
    } else {
      var rest, last := b[..|b| - 1], b[|b| - 1];
      QueriesAppend(a, rest);
      QueriesStep(a + rest, last);
      QueriesStep(rest, last);
      LastMoves(a, b);
      Associative(QueriesIn(a), QueriesIn(rest), last.queries);
    }
  }

  lemma {:induction false} QueriesOfRuns(warehouse: string, runs: seq<seq<Query>>)
    requires NoneEmpty(runs)
    ensures QueriesIn(BurstsOf(warehouse, runs)) == Flatten(runs)
  {
    if runs != [] {
      var bursts := BurstsOf(warehouse, runs);
      QueriesOfRuns(warehouse, runs[..|runs| - 1]);
      assert bursts[..|bursts| - 1] == BurstsOf(warehouse, runs[..|runs| - 1]);
    }
  }

  lemma {:induction false} CountOfWarehouse(queries: seq<Query>, warehouse: string, q: Query)
    ensures multiset(OfWarehouse(queries, warehouse))[q] == if q.warehouse == warehouse then multiset(queries)[q] else 0
  {
    if queries != [] {
      var n := |queries| - 1;
      assert queries == queries[..n] + [queries[n]];
      CountOfWarehouse(queries[..n], warehouse, q);
    }
  }

  lemma {:induction false} CountOn(queries: seq<Query>, idle: nat, names: seq<string>, q: Query)
    requires Ascending(names)
    ensures multiset(QueriesIn(BurstsOn(queries, idle, names)))[q] == if q.warehouse in names then multiset(queries)[q] else 0
  {
    if names != [] {
      var n := |names| - 1;
      var last := names[n];
      assert names == names[..n] + [last];
      CountOn(queries, idle, names[..n], q);
      QueriesAppend(BurstsOn(queries, idle, names[..n]), BurstsOf(last, Runs(OrderedOf(queries, last), idle)));
      QueriesOfRuns(last, Runs(OrderedOf(queries, last), idle));
      RunsFlatten(OrderedOf(queries, last), idle);
      OrderedOfKeeps(queries, last);
      CountOfWarehouse(queries, last, q);
      assert last !in names[..n];
    }
  }

  /** Every query is in exactly one burst, as often as it was asked. */
  lemma EveryQueryInOneBurst(queries: seq<Query>, idle: nat)
    ensures multiset(QueriesIn(BurstsOn(queries, idle, Sorted(Warehouses(queries))))) == multiset(queries)
  {
    var names := Sorted(Warehouses(queries));
    SortedAscends(Warehouses(queries));
    forall q ensures multiset(QueriesIn(BurstsOn(queries, idle, names)))[q] == multiset(queries)[q] {
      CountOn(queries, idle, names, q);
    }
  }

  lemma {:induction false} OnlyOfWarehouse(queries: seq<Query>, warehouse: string)
    ensures forall q :: q in OrderedOf(queries, warehouse) ==> q.warehouse == warehouse
  {
    if queries != [] {
      OnlyOfWarehouse(queries[..|queries| - 1], warehouse);
      if queries[|queries| - 1].warehouse == warehouse {
        OrderedOfKeeps(queries[..|queries| - 1], warehouse);
        InsertKeeps(OrderedOf(queries[..|queries| - 1], warehouse), queries[|queries| - 1]);
      }
    }
  }

  /** And that burst is one of its own warehouse. */
  lemma {:induction false} BurstsAreOfTheirWarehouse(queries: seq<Query>, idle: nat, names: seq<string>)
    ensures forall i, k :: 0 <= i < |BurstsOn(queries, idle, names)| && 0 <= k < |BurstsOn(queries, idle, names)[i].queries|
              ==> BurstsOn(queries, idle, names)[i].queries[k].warehouse == BurstsOn(queries, idle, names)[i].warehouse
  {
    if names != [] {
      var last := names[|names| - 1];
      BurstsAreOfTheirWarehouse(queries, idle, names[..|names| - 1]);
      OnlyOfWarehouse(queries, last);
      RunsFlatten(OrderedOf(queries, last), idle);
      var runs: seq<seq<Query>> := Runs(OrderedOf(queries, last), idle);
      forall i: nat, k: nat | i < |runs| && k < |runs[i]| ensures runs[i][k].warehouse == last {
        InFlatten(runs, i, k);
      }
    }
  }

  lemma {:induction false} InFlatten(runs: seq<seq<Query>>, i: nat, k: nat)
    requires i < |runs| && k < |runs[i]|
    ensures runs[i][k] in Flatten(runs)
  {
    if i < |runs| - 1 { InFlatten(runs[..|runs| - 1], i, k); }
  }

  // -- The bill --------------------------------------------------------------------------

  /** Prices in whole units of 1e-12 dollars: `rate / per` a second. */
  datatype Rates = Rates(idleSeconds: nat, minimumSeconds: nat, rate: nat, per: nat)

  /** Running time and idle tail, to the second above, at least the minimum. */
  function BurstSeconds(b: Burst, r: Rates): int {
    Max(r.minimumSeconds, -((-(b.lastEndMs - b.startedMs + r.idleSeconds * 1000)) / 1000))
  }

  lemma SecondsCoverTheSpan(b: Burst, r: Rates)
    ensures BurstSeconds(b, r) >= r.minimumSeconds
    ensures BurstSeconds(b, r) * 1000 >= b.lastEndMs - b.startedMs + r.idleSeconds * 1000
    ensures BurstSeconds(b, r) == r.minimumSeconds
         || (BurstSeconds(b, r) - 1) * 1000 < b.lastEndMs - b.startedMs + r.idleSeconds * 1000
  {
  }

  function Durations(run: seq<Query>): (weights: seq<Weight>)
    ensures |weights| == |run|
    ensures forall i :: 0 <= i < |weights| ==> weights[i] == Weight(run[i].id, run[i].ms)
  {
    if run == [] then [] else Durations(run[..|run| - 1]) + [Weight(run[|run| - 1].id, run[|run| - 1].ms)]
  }

  lemma {:induction false} DurationsAreWork(run: seq<Query>)
    ensures Whole(Durations(run)) == Work(run)
  {
    if run != [] {
      DurationsAreWork(run[..|run| - 1]);
      assert Durations(run)[..|run| - 1] == Durations(run[..|run| - 1]);
    }
  }

  datatype PricedQuery = PricedQuery(id: string, usd: int, billedMs: int, warehouse: string, startedMs: int)

  /** One query's part of its burst. */
  function PriceOf(b: Burst, q: Query, r: Rates, work: nat): PricedQuery
    requires r.per > 0
  {
    var seconds := BurstSeconds(b, r);
    if work == 0 then PricedQuery(q.id, 0, 0, b.warehouse, b.startedMs)
    else
      ProductIsPositive(r.per, work);
      PricedQuery(q.id, HalfEven(seconds * r.rate * q.ms, r.per * work), Down(seconds * 1000 * q.ms, work), b.warehouse,
                  b.startedMs)
  }

  lemma ProductIsPositive(a: nat, b: nat)
    requires a > 0 && b > 0
    ensures a * b > 0
  {
  }

  function PriceBurst(b: Burst, queries: seq<Query>, r: Rates, work: nat): (priced: seq<PricedQuery>)
    requires r.per > 0
    ensures |priced| == |queries|
  {
    if queries == [] then []
    else PriceBurst(b, queries[..|queries| - 1], r, work) + [PriceOf(b, queries[|queries| - 1], r, work)]
  }

  /** The queries of bursts priced, burst by burst. */
  method PriceBursts(bursts: seq<Burst>, r: Rates) returns (priced: seq<PricedQuery>)
    requires r.per > 0
    ensures priced == PricedIn(bursts, r)
  {
    priced := [];
    for i := 0 to |bursts|
      invariant priced == PricedIn(bursts[..i], r)
    {
      assert bursts[..i + 1][..i] == bursts[..i];
      var more := PriceEach(bursts[i], r);
      priced := priced + more;
    }
    assert bursts[..|bursts|] == bursts;
  }

  /** `price`: every query's part of its burst, by query id. */
  method Price(queries: seq<Query>, r: Rates) returns (priced: seq<PricedQuery>)
    requires r.per > 0
    ensures priced == ById(PricedIn(BurstsAsked(queries, r), r))
  {
    var bursts := AllBursts(queries, r.idleSeconds * 1000);
    var found := PriceBursts(bursts, r);
    priced := ById(found);
  }

  function BurstsAsked(queries: seq<Query>, r: Rates): seq<Burst> {
    BurstsOn(queries, r.idleSeconds * 1000, Sorted(Warehouses(queries)))
  }

  function Put(priced: seq<PricedQuery>, p: PricedQuery): seq<PricedQuery> {
    if priced == [] || Leq(priced[|priced| - 1].id, p.id) then priced + [p]
    else Put(priced[..|priced| - 1], p) + [priced[|priced| - 1]]
  }

  /** `sorted` by query id. */
  function ById(priced: seq<PricedQuery>): seq<PricedQuery> {
    if priced == [] then [] else Put(ById(priced[..|priced| - 1]), priced[|priced| - 1])
  }

  method PriceEach(b: Burst, r: Rates) returns (priced: seq<PricedQuery>)
    requires r.per > 0
    ensures priced == PriceBurst(b, b.queries, r, Work(b.queries))
  {
    var work := 0;
    for k := 0 to |b.queries|
      invariant work == Work(b.queries[..k])
    {
      assert b.queries[..k + 1][..k] == b.queries[..k];
      work := work + b.queries[k].ms;
    }
    assert b.queries[..|b.queries|] == b.queries;
    priced := [];
    for k := 0 to |b.queries|
      invariant priced == PriceBurst(b, b.queries[..k], r, work)
    {
      assert b.queries[..k + 1][..k] == b.queries[..k];
      priced := priced + [PriceOf(b, b.queries[k], r, work)];
    }
  }

  /** A query's price: its own id, its burst's warehouse and start, and its part of the burst's cost and time by duration,
    * the dollars to the nearest unit and the milliseconds cut down; nothing of a burst without work. */
  ghost predicate IsPrice(b: Burst, q: Query, r: Rates, p: PricedQuery)
    requires r.per > 0
  {
    var work, seconds := Work(b.queries), BurstSeconds(b, r);
    && p.id == q.id && p.warehouse == b.warehouse && p.startedMs == b.startedMs
    && (work == 0 ==> p.usd == 0 && p.billedMs == 0)
    && (work > 0 ==> work * p.billedMs <= seconds * 1000 * q.ms < work * p.billedMs + work)
    && (work > 0 ==> IsNearest(p.usd, seconds * r.rate * q.ms, r.per * work))
  }

  ghost predicate IsNearest(n: int, a: int, b: int) {
    && 2 * a - b <= 2 * (b * n) <= 2 * a + b
    && (2 * (b * n) == 2 * a + b || 2 * (b * n) == 2 * a - b ==> n % 2 == 0)
  }

  lemma {:induction false} PricedAt(b: Burst, queries: seq<Query>, r: Rates, work: nat, k: nat)
    requires r.per > 0 && k < |queries|
    ensures PriceBurst(b, queries, r, work)[k] == PriceOf(b, queries[k], r, work)
  {
    if k < |queries| - 1 { PricedAt(b, queries[..|queries| - 1], r, work, k); }
  }

  lemma ProductIsNotNegative(a: int, b: nat)
    requires a >= 0
    ensures a * b >= 0
  {
  }

  /** Each query of a burst has its price. */
  lemma EachHasItsPrice(b: Burst, r: Rates, k: nat)
    requires r.per > 0 && k < |b.queries|
    ensures IsPrice(b, b.queries[k], r, PriceBurst(b, b.queries, r, Work(b.queries))[k])
  {
    var work, seconds, q := Work(b.queries), BurstSeconds(b, r), b.queries[k];
    PricedAt(b, b.queries, r, work, k);
    if work > 0 {
      ProductIsPositive(r.per, work);
      HalfEvenIsNearest(seconds * r.rate * q.ms, r.per * work);
      ProductIsNotNegative(seconds * 1000, q.ms);
      DownTruncates(seconds * 1000 * q.ms, work);
    }
  }

  /** How often an id is asked, and how often it is priced. */
  function Asked(queries: seq<Query>, id: string): nat {
    if queries == [] then 0 else Asked(queries[..|queries| - 1], id) + if queries[|queries| - 1].id == id then 1 else 0
  }

  function Answered(priced: seq<PricedQuery>, id: string): nat {
    if priced == [] then 0 else Answered(priced[..|priced| - 1], id) + if priced[|priced| - 1].id == id then 1 else 0
  }

  lemma {:induction false} AskedOfBoth(a: seq<Query>, b: seq<Query>, id: string)
    ensures Asked(a + b, id) == Asked(a, id) + Asked(b, id)
  {
    if b == [] {
      assert a + b == a;
    } else {
      AskedOfBoth(a, b[..|b| - 1], id);
      assert (a + b)[..|a + b| - 1] == a + b[..|b| - 1];
    }
  }

  lemma {:induction false} AnsweredOfBoth(a: seq<PricedQuery>, b: seq<PricedQuery>, id: string)
    ensures Answered(a + b, id) == Answered(a, id) + Answered(b, id)
  {
    if b == [] {
      assert a + b == a;
    } else {
      AnsweredOfBoth(a, b[..|b| - 1], id);
      assert (a + b)[..|a + b| - 1] == a + b[..|b| - 1];
    }
  }

  lemma {:induction false} AnsweredAsAsked(b: Burst, queries: seq<Query>, r: Rates, work: nat, id: string)
    requires r.per > 0
    ensures Answered(PriceBurst(b, queries, r, work), id) == Asked(queries, id)
  {
    if queries != [] {
      var n := |queries| - 1;
      AnsweredAsAsked(b, queries[..n], r, work, id);
      assert PriceBurst(b, queries, r, work)[..n] == PriceBurst(b, queries[..n], r, work);
    }
  }

  lemma {:induction false} BurstsAnswer(bursts: seq<Burst>, r: Rates, id: string)
    requires r.per > 0
    ensures Answered(PricedIn(bursts, r), id) == Asked(QueriesIn(bursts), id)
  {
    if bursts != [] {
      var before, last := bursts[..|bursts| - 1], bursts[|bursts| - 1];
      BurstsAnswer(before, r, id);
      AnsweredAsAsked(last, last.queries, r, Work(last.queries), id);
      AnsweredOfBoth(PricedIn(before, r), PriceBurst(last, last.queries, r, Work(last.queries)), id);
      AskedOfBoth(QueriesIn(before), last.queries, id);
    }
  }

  function Without(queries: seq<Query>, i: nat): seq<Query>
    requires i < |queries|
  {
    queries[..i] + queries[i + 1..]
  }

  lemma OneTakenOut(queries: seq<Query>, i: nat, id: string)
    requires i < |queries|
    ensures Asked(queries, id) == Asked(Without(queries, i), id) + if queries[i].id == id then 1 else 0
  {
    var before, one, after := queries[..i], [queries[i]], queries[i + 1..];
    assert queries == before + (one + after);
    AskedOfBoth(before, after, id);
    AskedOfBoth(before, one + after, id);
    AskedOfBoth(one, after, id);
    assert one[..0] == [];
  }

  lemma RestOfOneTakenOut(queries: seq<Query>, i: nat)
    requires i < |queries|
    ensures multiset(Without(queries, i)) == multiset(queries) - multiset{queries[i]}
  {
    assert queries == queries[..i] + ([queries[i]] + queries[i + 1..]);
  }

  lemma PlaceIn(a: seq<Query>, b: seq<Query>, k: nat) returns (i: nat)
    requires multiset(a) == multiset(b) && k < |a|
    ensures i < |b| && b[i] == a[k]
  {
    assert a[k] in multiset(a) && a[k] in multiset(b);
    i :| i < |b| && b[i] == a[k];
  }

  /** Queries in another order ask as often. */
  lemma {:induction false} AskedInAnyOrder(a: seq<Query>, b: seq<Query>, id: string)
    requires multiset(a) == multiset(b)
    ensures Asked(a, id) == Asked(b, id)
    decreases |a|
  {
    if a == [] {
      assert |b| == |multiset(b)|;
    } else {
      var i := PlaceIn(a, b, 0);
      RestOfOneTakenOut(a, 0);
      RestOfOneTakenOut(b, i);
      AskedInAnyOrder(Without(a, 0), Without(b, i), id);
      OneTakenOut(a, 0, id);
      OneTakenOut(b, i, id);
    }
  }

  lemma {:induction false} PutAnswers(priced: seq<PricedQuery>, p: PricedQuery, id: string)
    ensures Answered(Put(priced, p), id) == Answered(priced, id) + if p.id == id then 1 else 0
  {
    if priced != [] && !Leq(priced[|priced| - 1].id, p.id) {
      var n := |priced| - 1;
      PutAnswers(priced[..n], p, id);
      var before := Put(priced[..n], p);
      assert (before + [priced[n]])[..|before|] == before;
    }
  }

  lemma {:induction false} ByIdAnswers(priced: seq<PricedQuery>, id: string)
    ensures Answered(ById(priced), id) == Answered(priced, id)
  {
    if priced != [] {
      var n := |priced| - 1;
      ByIdAnswers(priced[..n], id);
      PutAnswers(ById(priced[..n]), priced[n], id);
    }
  }

  /** Every id is priced as often as it was asked. */
  lemma EveryIdIsPriced(queries: seq<Query>, r: Rates, id: string)
    requires r.per > 0
    ensures Answered(ById(PricedIn(BurstsAsked(queries, r), r)), id) == Asked(queries, id)
  {
    var bursts := BurstsAsked(queries, r);
    ByIdAnswers(PricedIn(bursts, r), id);
    BurstsAnswer(bursts, r, id);
    EveryQueryInOneBurst(queries, r.idleSeconds * 1000);
    AskedInAnyOrder(QueriesIn(bursts), queries, id);
  }

  function PricedIn(bursts: seq<Burst>, r: Rates): seq<PricedQuery>
    requires r.per > 0
  {
    if bursts == [] then []
    else
      var last := bursts[|bursts| - 1];
      PricedIn(bursts[..|bursts| - 1], r) + PriceBurst(last, last.queries, r, Work(last.queries))
  }

  function BilledMs(priced: seq<PricedQuery>): int {
    if priced == [] then 0 else BilledMs(priced[..|priced| - 1]) + priced[|priced| - 1].billedMs
  }

  function BilledUsd(priced: seq<PricedQuery>): int {
    if priced == [] then 0 else BilledUsd(priced[..|priced| - 1]) + priced[|priced| - 1].usd
  }

  /** The billed milliseconds are the burst's cut up by duration, the dollars its cost rounded by duration. */
  lemma {:induction false} BilledAreShares(b: Burst, queries: seq<Query>, r: Rates, work: nat)
    requires r.per > 0 && work > 0 && r.per * work > 0
    ensures BilledMs(PriceBurst(b, queries, r, work)) == Sum(Cut(BurstSeconds(b, r) * 1000, Durations(queries), work))
    ensures BilledUsd(PriceBurst(b, queries, r, work))
         == Sum(Rounded(BurstSeconds(b, r) * r.rate, Durations(queries), r.per * work))
  {
    if queries != [] {
      var n := |queries| - 1;
      BilledAreShares(b, queries[..n], r, work);
      var weights := Durations(queries);
      assert weights[..n] == Durations(queries[..n]);
      var cut, rounded := Cut(BurstSeconds(b, r) * 1000, weights, work), Rounded(BurstSeconds(b, r) * r.rate, weights, r.per * work);
      assert cut[..n] == Cut(BurstSeconds(b, r) * 1000, weights[..n], work);
      assert rounded[..n] == Rounded(BurstSeconds(b, r) * r.rate, weights[..n], r.per * work);
      var priced := PriceBurst(b, queries, r, work);
      assert priced[..n] == PriceBurst(b, queries[..n], r, work);
    }
  }

  /** The milliseconds billed to a burst's queries are all of its seconds but less than one for each query. */
  lemma BilledMsAddUp(b: Burst, r: Rates)
    requires r.per > 0 && Work(b.queries) > 0
    ensures 0 <= BurstSeconds(b, r) * 1000 - BilledMs(PriceBurst(b, b.queries, r, Work(b.queries))) < |b.queries|
  {
    var work := Work(b.queries);
    ProductIsPositive(r.per, work);
    BilledAreShares(b, b.queries, r, work);
    DurationsAreWork(b.queries);
    CutSum(BurstSeconds(b, r) * 1000, Durations(b.queries), work);
    assert b.queries != [];
    LessThanAUnitEach(Sum(Cut(BurstSeconds(b, r) * 1000, Durations(b.queries), work)), BurstSeconds(b, r) * 1000, work, |b.queries|);
  }

  /** The dollars are the burst's cost, `seconds * rate / per`, but for half a unit for each query. */
  lemma BilledUsdIsTheCost(b: Burst, r: Rates)
    requires r.per > 0 && Work(b.queries) > 0
    ensures var usd, cost, k := BilledUsd(PriceBurst(b, b.queries, r, Work(b.queries))), BurstSeconds(b, r) * r.rate, |b.queries|;
      2 * cost - k * r.per <= 2 * (r.per * usd) <= 2 * cost + k * r.per
  {
    var work := Work(b.queries);
    ProductIsPositive(r.per, work);
    BilledAreShares(b, b.queries, r, work);
    DurationsAreWork(b.queries);
    RoundedSum(BurstSeconds(b, r) * r.rate, Durations(b.queries), r.per * work);
    NearAWhole(BilledUsd(PriceBurst(b, b.queries, r, work)), BurstSeconds(b, r) * r.rate, work, r.per, |b.queries|);
  }

  lemma NearAWhole(usd: int, cost: int, work: nat, per: nat, k: nat)
    requires work > 0 && Near(usd, cost, work, per * work, k)
    ensures 2 * cost - k * per <= 2 * (per * usd) <= 2 * cost + k * per
  {
    var low, mid, high := 2 * cost - k * per, 2 * (per * usd), 2 * cost + k * per;
    assert work * mid == 2 * ((per * work) * usd) by { Associate(work, per, usd); assert (work * per) == per * work; }
    assert k * (per * work) == work * (k * per) by { Associate(k, per, work); }
    MulAdd(work, 2 * cost, k * per);
    MulAdd(work, 2 * cost - k * per, k * per);
    assert work * (2 * cost) == 2 * (cost * work);
    Cancel(work, low, mid);
    Cancel(work, mid, high);
  }

  // -- The whole bill --------------------------------------------------------------------

  ghost predicate InOrderOfId(priced: seq<PricedQuery>) {
    forall i, j :: 0 <= i < j < |priced| ==> Leq(priced[i].id, priced[j].id)
  }

  lemma {:induction false} PutKeeps(priced: seq<PricedQuery>, p: PricedQuery)
    requires InOrderOfId(priced)
    ensures InOrderOfId(Put(priced, p)) && multiset(Put(priced, p)) == multiset(priced) + multiset{p}
    ensures forall x :: x in Put(priced, p) <==> x in priced || x == p
  {
    if priced != [] {
      var n := |priced| - 1;
      assert priced == priced[..n] + [priced[n]];
      LeqTotal(priced[n].id, p.id);
      if Leq(priced[n].id, p.id) {
        AllUpTo(priced, p);
        OneAfter(priced, p);
      } else {
        PutKeeps(priced[..n], p);
        OneAfter(Put(priced[..n], p), priced[n]);
      }
    }
  }

  lemma AllUpTo(priced: seq<PricedQuery>, p: PricedQuery)
    requires InOrderOfId(priced) && priced != [] && Leq(priced[|priced| - 1].id, p.id)
    ensures forall x :: x in priced ==> Leq(x.id, p.id)
  {
    var n := |priced| - 1;
    forall i | 0 <= i < n ensures Leq(priced[i].id, p.id) { LeqTransitive(priced[i].id, priced[n].id, p.id); }
  }

  lemma OneAfter(priced: seq<PricedQuery>, p: PricedQuery)
    requires InOrderOfId(priced) && forall x :: x in priced ==> Leq(x.id, p.id)
    ensures InOrderOfId(priced + [p])
  {
  }

  lemma {:induction false} PutAdds(priced: seq<PricedQuery>, p: PricedQuery)
    ensures BilledMs(Put(priced, p)) == BilledMs(priced) + p.billedMs && BilledUsd(Put(priced, p)) == BilledUsd(priced) + p.usd
  {
    if priced != [] && !Leq(priced[|priced| - 1].id, p.id) {
      var n := |priced| - 1;
      PutAdds(priced[..n], p);
      var before := Put(priced[..n], p);
      assert (before + [priced[n]])[..|before|] == before;
    }
  }

  /** Sorting the prices changes nothing but their order. */
  lemma {:induction false} ByIdKeeps(priced: seq<PricedQuery>)
    ensures InOrderOfId(ById(priced)) && multiset(ById(priced)) == multiset(priced)
    ensures BilledMs(ById(priced)) == BilledMs(priced) && BilledUsd(ById(priced)) == BilledUsd(priced)
  {
    if priced != [] {
      var n := |priced| - 1;
      assert priced == priced[..n] + [priced[n]];
      ByIdKeeps(priced[..n]);
      PutKeeps(ById(priced[..n]), priced[n]);
      PutAdds(ById(priced[..n]), priced[n]);
    }
  }

  /** The seconds billed for: those of the bursts that did any work. */
  function WorkedSeconds(bursts: seq<Burst>, r: Rates): int {
    if bursts == [] then 0
    else
      var last := bursts[|bursts| - 1];
      WorkedSeconds(bursts[..|bursts| - 1], r) + if Work(last.queries) == 0 then 0 else BurstSeconds(last, r)
  }

  lemma {:induction false} BilledOfBoth(a: seq<PricedQuery>, b: seq<PricedQuery>)
    ensures BilledMs(a + b) == BilledMs(a) + BilledMs(b) && BilledUsd(a + b) == BilledUsd(a) + BilledUsd(b)
  {
    if b == [] {
      assert a + b == a;
    } else {
      BilledOfBoth(a, b[..|b| - 1]);
      assert (a + b)[..|a + b| - 1] == a + b[..|b| - 1];
    }
  }

  /** A burst that did no work is billed to nobody. */
  lemma {:induction false} NothingBilled(b: Burst, queries: seq<Query>, r: Rates)
    requires r.per > 0
    ensures BilledMs(PriceBurst(b, queries, r, 0)) == 0 && BilledUsd(PriceBurst(b, queries, r, 0)) == 0
  {
    if queries != [] {
      NothingBilled(b, queries[..|queries| - 1], r);
      var priced := PriceBurst(b, queries, r, 0);
      assert priced[..|queries| - 1] == PriceBurst(b, queries[..|queries| - 1], r, 0);
    }
  }

  /** Dollars that are the cost of some seconds but for half a unit for each of `k` queries. */
  ghost predicate Costs(usd: int, seconds: int, k: nat, r: Rates) {
    2 * (seconds * r.rate) - k * r.per <= 2 * (r.per * usd) <= 2 * (seconds * r.rate) + k * r.per
  }

  lemma CostsAdd(usd: int, more: int, seconds: int, later: int, k: nat, j: nat, r: Rates)
    requires Costs(usd, seconds, k, r) && Costs(more, later, j, r)
    ensures Costs(usd + more, seconds + later, k + j, r)
  {
    MulAdd(r.rate, seconds, later);
    MulAdd(r.per, usd, more);
    MulAdd(r.per, k, j);
  }

  lemma OneBurstsBill(b: Burst, r: Rates)
    requires r.per > 0
    ensures Fits(PriceBurst(b, b.queries, r, Work(b.queries)), WorkedSeconds([b], r), |b.queries|, r)
  {
    assert [b][..0] == [];
    if Work(b.queries) == 0 {
      NothingBilled(b, b.queries, r);
    } else {
      BilledMsAddUp(b, r);
      BilledUsdIsTheCost(b, r);
    }
  }

  /** What some bursts' queries are billed fits the seconds the bursts ran. */
  ghost predicate Fits(priced: seq<PricedQuery>, seconds: int, k: nat, r: Rates) {
    0 <= seconds * 1000 - BilledMs(priced) <= k && Costs(BilledUsd(priced), seconds, k, r)
  }

  lemma FitsAdd(priced: seq<PricedQuery>, more: seq<PricedQuery>, seconds: int, later: int, k: nat, j: nat, r: Rates)
    requires Fits(priced, seconds, k, r) && Fits(more, later, j, r)
    ensures Fits(priced + more, seconds + later, k + j, r)
  {
    BilledOfBoth(priced, more);
    CostsAdd(BilledUsd(priced), BilledUsd(more), seconds, later, k, j, r);
  }

  lemma OneBurstMore(before: seq<Burst>, last: Burst, r: Rates)
    requires r.per > 0
    ensures PricedIn(before + [last], r) == PricedIn(before, r) + PriceBurst(last, last.queries, r, Work(last.queries))
    ensures WorkedSeconds(before + [last], r) == WorkedSeconds(before, r) + WorkedSeconds([last], r)
    ensures |QueriesIn(before + [last])| == |QueriesIn(before)| + |last.queries|
  {
    assert (before + [last])[..|before|] == before;
    assert [last][..0] == [];
  }

  ghost predicate BurstsFit(bursts: seq<Burst>, r: Rates)
    requires r.per > 0
  {
    Fits(PricedIn(bursts, r), WorkedSeconds(bursts, r), |QueriesIn(bursts)|, r)
  }

  lemma NoBurstsFit(r: Rates)
    requires r.per > 0
    ensures BurstsFit([], r)
  {
  }

  lemma MoreBurstsFit(before: seq<Burst>, last: Burst, r: Rates)
    requires r.per > 0 && BurstsFit(before, r)
    ensures BurstsFit(before + [last], r)
  {
    OneBurstsBill(last, r);
    OneBurstMore(before, last, r);
    FitsAdd(PricedIn(before, r), PriceBurst(last, last.queries, r, Work(last.queries)), WorkedSeconds(before, r),
            WorkedSeconds([last], r), |QueriesIn(before)|, |last.queries|, r);
  }

  lemma {:induction false} BurstsBills(bursts: seq<Burst>, r: Rates)
    requires r.per > 0
    ensures BurstsFit(bursts, r)
  {
    if bursts == [] {
      NoBurstsFit(r);
    } else {
      var before, last := bursts[..|bursts| - 1], bursts[|bursts| - 1];
      BurstsBills(before, r);
      MoreBurstsFit(before, last, r);
      assert bursts == before + [last];
    }
  }

  /** Over the whole bill, no more time is billed than the warehouses ran, and less than it by at most a millisecond a query;
    * the dollars are the cost of that time but for half a unit a query. */
  lemma TheBillIsTheRunningTime(queries: seq<Query>, r: Rates)
    requires r.per > 0
    ensures var bursts := BurstsAsked(queries, r);
      var priced, seconds := ById(PricedIn(bursts, r)), WorkedSeconds(bursts, r);
      0 <= seconds * 1000 - BilledMs(priced) <= |queries| && Costs(BilledUsd(priced), seconds, |queries|, r)
  {
    var bursts := BurstsAsked(queries, r);
    ByIdKeeps(PricedIn(bursts, r));
    BurstsBills(bursts, r);
    EveryQueryInOneBurst(queries, r.idleSeconds * 1000);
    assert |multiset(QueriesIn(bursts))| == |multiset(queries)|;
  }
}
