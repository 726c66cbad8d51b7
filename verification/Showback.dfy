/** The bill from the month's pools to the teams' showback. */
module Showback {
  import opened Ids
  import opened Splitting
  import opened Fairness

  // -- Pools shared out by month -------------------------------------------------------

  /** Something weighed in a month: a query by the bytes it read, a table by its size. */
  datatype Weighed = Weighed(month: string, key: string, n: int)

  datatype Cost = Cost(month: string, key: string, usd: int)

  /** `by_month[month][key] = n`: a key weighed again replaces its weight. */
  function Put(weights: seq<Weight>, key: string, n: int): seq<Weight> {
    if weights == [] then [Weight(key, n)]
    else
      var last := weights[|weights| - 1];
      if last.key == key then weights[..|weights| - 1] + [Weight(key, n)]
      else Put(weights[..|weights| - 1], key, n) + [last]
  }

  function WeightsOf(weighed: seq<Weighed>, month: string): seq<Weight> {
    if weighed == [] then []
    else
      var before, last := WeightsOf(weighed[..|weighed| - 1], month), weighed[|weighed| - 1];
      if last.month == month then Put(before, last.key, last.n) else before
  }

  /** The months, as they first come. */
  function Months(weighed: seq<Weighed>): seq<string> {
    if weighed == [] then []
    else
      var before, month := Months(weighed[..|weighed| - 1]), weighed[|weighed| - 1].month;
      if month in before then before else before + [month]
  }

  function Dated(month: string, parts: seq<Part>): seq<Cost> {
    if parts == [] then []
    else
      Dated(month, parts[..|parts| - 1]) + [Cost(month, parts[|parts| - 1].key, parts[|parts| - 1].usd)]
  }

  /** What each key pays of its month's pool; a month without a pool pays nothing. */
  function SharesIn(pools: map<string, int>, weighed: seq<Weighed>, months: seq<string>): seq<Cost> {
    if months == [] then []
    else
      var month := months[|months| - 1];
      SharesIn(pools, weighed, months[..|months| - 1])
      + if month in pools then Dated(month, Shares(pools[month], WeightsOf(weighed, month))) else []
  }

  lemma {:induction false} DatedAre(month: string, parts: seq<Part>, c: Cost)
    ensures c in Dated(month, parts) <==> c.month == month && Part(c.key, c.usd) in parts
  {
    if parts != [] {
      var n := |parts| - 1;
      DatedAre(month, parts[..n], c);
      assert parts == parts[..n] + [parts[n]];
    }
  }

  /** What a key pays of a month's pool is its share of that pool by what it weighed that month. */
  lemma {:induction false} CostsAreShares(pools: map<string, int>, weighed: seq<Weighed>, months: seq<string>, c: Cost)
    ensures c in SharesIn(pools, weighed, months)
       <==> c.month in months && c.month in pools && Part(c.key, c.usd) in Shares(pools[c.month], WeightsOf(weighed, c.month))
  {
    if months != [] {
      var n := |months| - 1;
      CostsAreShares(pools, weighed, months[..n], c);
      assert months == months[..n] + [months[n]];
      if months[n] in pools { DatedAre(months[n], Shares(pools[months[n]], WeightsOf(weighed, months[n])), c); }
    }
  }

  method SharesByMonth(pools: map<string, int>, weighed: seq<Weighed>) returns (costs: seq<Cost>)
    ensures costs == SharesIn(pools, weighed, Months(weighed))
  {
    var months := GatherMonths(weighed);
    costs := [];
    for i := 0 to |months|
      invariant costs == SharesIn(pools, weighed, months[..i])
    {
      assert months[..i + 1][..i] == months[..i];
      if months[i] in pools {
        var weights := GatherWeights(weighed, months[i]);
        var parts := Share(pools[months[i]], weights);
        costs := costs + Dated(months[i], parts);
      }
    }
    assert months[..|months|] == months;
  }

  method GatherMonths(weighed: seq<Weighed>) returns (months: seq<string>)
    ensures months == Months(weighed)
  {
    months := [];
    for i := 0 to |weighed|
      invariant months == Months(weighed[..i])
    {
      assert weighed[..i + 1][..i] == weighed[..i];
      if weighed[i].month !in months {
        months := months + [weighed[i].month];
      }
    }
    assert weighed[..|weighed|] == weighed;
  }

  method GatherWeights(weighed: seq<Weighed>, month: string) returns (weights: seq<Weight>)
    ensures weights == WeightsOf(weighed, month)
  {
    weights := [];
    for i := 0 to |weighed|
      invariant weights == WeightsOf(weighed[..i], month)
    {
      assert weighed[..i + 1][..i] == weighed[..i];
      if weighed[i].month == month {
        weights := Put(weights, weighed[i].key, weighed[i].n);
      }
    }
    assert weighed[..|weighed|] == weighed;
  }

  /** The last time a key was weighed in a month it weighed `n`. */
  ghost predicate LastWeighed(weighed: seq<Weighed>, month: string, key: string, n: int) {
    exists i :: 0 <= i < |weighed| && weighed[i] == Weighed(month, key, n)
                && forall j :: i < j < |weighed| ==> weighed[j].month != month || weighed[j].key != key
  }

  lemma {:induction false} PutReplaces(weights: seq<Weight>, key: string, n: int)
    requires OncePerKey(weights)
    ensures OncePerKey(Put(weights, key, n))
    ensures forall w :: w in Put(weights, key, n) <==> w == Weight(key, n) || (w in weights && w.key != key)
  {
    if weights != [] {
      var k := |weights| - 1;
      assert weights == weights[..k] + [weights[k]];
      if weights[k].key != key {
        PutReplaces(weights[..k], key, n);
        OneKeyMore(Put(weights[..k], key, n), weights[k]);
      } else {
        OneKeyMore(weights[..k], Weight(key, n));
      }
    }
  }

  lemma LastWeighedStep(rest: seq<Weighed>, last: Weighed, month: string, key: string, n: int)
    ensures LastWeighed(rest + [last], month, key, n)
       <==> if last.month == month && last.key == key then n == last.n else LastWeighed(rest, month, key, n)
  {
    var all := rest + [last];
    if last.month == month && last.key == key && n == last.n { assert all[|rest|] == Weighed(month, key, n); }
    if i :| 0 <= i < |rest| && rest[i] == Weighed(month, key, n)
            && forall j :: i < j < |rest| ==> rest[j].month != month || rest[j].key != key {
      assert all[i] == rest[i];
    }
    if i :| 0 <= i < |all| && all[i] == Weighed(month, key, n)
            && forall j :: i < j < |all| ==> all[j].month != month || all[j].key != key {
      if i < |rest| {
        assert all[|rest|] == last;
        forall j | i < j < |rest| ensures rest[j].month != month || rest[j].key != key { assert all[j] == rest[j]; }
      }
    }
  }

  /** The weights of a month: each key once, by what it weighed the last time. */
  lemma {:induction false} WeightsAreTheLast(weighed: seq<Weighed>, month: string)
    ensures OncePerKey(WeightsOf(weighed, month))
    ensures forall key, n :: Weight(key, n) in WeightsOf(weighed, month) <==> LastWeighed(weighed, month, key, n)
  {
    if weighed != [] {
      var rest, last := weighed[..|weighed| - 1], weighed[|weighed| - 1];
      assert weighed == rest + [last];
      WeightsAreTheLast(rest, month);
      PutReplaces(WeightsOf(rest, month), last.key, last.n);
      forall key, n ensures Weight(key, n) in WeightsOf(weighed, month) <==> LastWeighed(weighed, month, key, n) {
        LastWeighedStep(rest, last, month, key, n);
      }
    }
  }

  ghost predicate OncePerKey(weights: seq<Weight>) {
    forall i, j :: 0 <= i < j < |weights| ==> weights[i].key != weights[j].key
  }

  lemma OneKeyMore(weights: seq<Weight>, w: Weight)
    requires OncePerKey(weights) && forall x :: x in weights ==> x.key != w.key
    ensures OncePerKey(weights + [w])
  {
  }

  /** What is paid in a month. */
  function Paid(costs: seq<Cost>, month: string): int {
    if costs == [] then 0
    else
      var last := costs[|costs| - 1];
      Paid(costs[..|costs| - 1], month) + if last.month == month then last.usd else 0
  }

  lemma {:induction false} PaidAdds(a: seq<Cost>, b: seq<Cost>, month: string)
    ensures Paid(a + b, month) == Paid(a, month) + Paid(b, month)
  {
    if b == [] {
      assert a + b == a;
    } else {
      var n := |b| - 1;
      PaidAdds(a, b[..n], month);
      assert (a + b)[..|a + b| - 1] == a + b[..n];
    }
  }

  lemma {:induction false} DatedPays(month: string, parts: seq<Part>, asked: string)
    ensures Paid(Dated(month, parts), asked) == if month == asked then Sum(parts) else 0
  {
    if parts != [] {
      var n := |parts| - 1;
      DatedPays(month, parts[..n], asked);
      var last := Cost(month, parts[n].key, parts[n].usd);
      assert Dated(month, parts)[..|Dated(month, parts)| - 1] == Dated(month, parts[..n]);
    }
  }

  lemma {:induction false} MonthsAreThose(weighed: seq<Weighed>, month: string)
    ensures NoRepeats(Months(weighed))
    ensures month !in Months(weighed) ==> WeightsOf(weighed, month) == []
  {
    if weighed != [] {
      var before := Months(weighed[..|weighed| - 1]);
      MonthsAreThose(weighed[..|weighed| - 1], month);
      if weighed[|weighed| - 1].month !in before {
        assert Months(weighed)[..|before|] == before;
      }
    }
  }

  /** A month's pool is paid when something of that month weighs anything. */
  function PaidOf(pools: map<string, int>, weighed: seq<Weighed>, month: string): int {
    if month in pools && Positive(WeightsOf(weighed, month)) != [] then pools[month] else 0
  }

  lemma {:induction false} SharesInPay(pools: map<string, int>, weighed: seq<Weighed>, months: seq<string>, month: string)
    requires NoRepeats(months)
    ensures Paid(SharesIn(pools, weighed, months), month) == if month in months then PaidOf(pools, weighed, month) else 0
  {
    if months != [] {
      var n := |months| - 1;
      var last := months[n];
      SharesInPay(pools, weighed, months[..n], month);
      assert months == months[..n] + [last];
      if last in pools {
        var parts := Shares(pools[last], WeightsOf(weighed, last));
        SharesAddUp(pools[last], WeightsOf(weighed, last));
        DatedPays(last, parts, month);
        PaidAdds(SharesIn(pools, weighed, months[..n]), Dated(last, parts), month);
      } else {
        assert SharesIn(pools, weighed, months) == SharesIn(pools, weighed, months[..n]);
      }
    }
  }

  /** Every month's shares add up to its pool, or to nothing if nothing was weighed. */
  lemma PoolsArePaid(pools: map<string, int>, weighed: seq<Weighed>, month: string)
    ensures Paid(SharesIn(pools, weighed, Months(weighed)), month) == PaidOf(pools, weighed, month)
  {
    MonthsAreThose(weighed, month);
    SharesInPay(pools, weighed, Months(weighed), month);
  }

  // -- The showback --------------------------------------------------------------------

  datatype Line = Line(month: string, team: string, model: string, kind: string, actor: string)

  /** Who a query is charged to: its team, or the teams that viewed what it refreshed. */
  datatype Charge = Charge(team: string, kind: string, actor: string, viewers: seq<Weight>)

  type Book = map<Line, int>

  function BookPart(book: Book, line: Line, usd: int): Book {
    book[line := (if line in book then book[line] else 0) + usd]
  }

  function LineOf(cost: Cost, team: string, model: string, c: Charge): Line {
    Line(cost.month, team, model, c.kind, c.actor)
  }

  /** `shares`: a refresh's viewers by their views, else the one team. */
  function PartsOf(cost: Cost, c: Charge): seq<Part>
    requires c.viewers == [] || Whole(c.viewers) > 0
  {
    if c.viewers != [] then Splits(cost.usd, c.viewers) else [Part(c.team, cost.usd)]
  }

  function BookParts(book: Book, cost: Cost, model: string, c: Charge, parts: seq<Part>): Book {
    if parts == [] then book
    else
      var last := parts[|parts| - 1];
      BookPart(BookParts(book, cost, model, c, parts[..|parts| - 1]), LineOf(cost, last.key, model, c), last.usd)
  }

  /** Every cost has a charge, and whoever viewed has views. */
  ghost predicate Charged(costs: seq<Cost>, charges: map<string, Charge>) {
    forall c :: c in costs ==> c.key in charges && (charges[c.key].viewers == [] || Whole(charges[c.key].viewers) > 0)
  }

  function BookCosts(book: Book, costs: seq<Cost>, model: string, charges: map<string, Charge>): Book
    requires Charged(costs, charges)
  {
    if costs == [] then book
    else
      var last := costs[|costs| - 1];
      assert last in costs;
      var before := BookCosts(book, costs[..|costs| - 1], model, charges);
      BookParts(before, last, model, charges[last.key], PartsOf(last, charges[last.key]))
  }

  /** Storage goes to each table's owner. */
  function BookStorage(book: Book, storage: seq<Cost>, owners: map<string, string>): Book
    requires forall c :: c in storage ==> c.key in owners
  {
    if storage == [] then book
    else
      var last := storage[|storage| - 1];
      assert last in storage;
      BookPart(BookStorage(book, storage[..|storage| - 1], owners),
               Line(last.month, owners[last.key], "cluster", "storage", "storage"), last.usd)
  }

  method Persist(models: seq<(string, seq<Cost>)>, charges: map<string, Charge>, storage: seq<Cost>, owners: map<string, string>)
    returns (book: Book)
    requires forall m :: m in models ==> Charged(m.1, charges)
    requires forall c :: c in storage ==> c.key in owners
    ensures book == BookStorage(BookModels(models, charges), storage, owners)
    ensures forall line :: OnLine(book, line) == TakesOfAll(line, models, charges) + Stores(line, storage, owners)
  {
    forall line ensures OnLine(BookStorage(BookModels(models, charges), storage, owners), line)
                        == TakesOfAll(line, models, charges) + Stores(line, storage, owners) {
      EveryLineIs(models, charges, storage, owners, line);
    }
    book := map[];
    for i := 0 to |models|
      invariant book == BookModels(models[..i], charges)
    {
      assert models[..i + 1][..i] == models[..i];
      book := PersistCosts(book, models[i].1, models[i].0, charges);
    }
    assert models[..|models|] == models;
    ghost var queries := book;
    for i := 0 to |storage|
      invariant book == BookStorage(queries, storage[..i], owners)
    {
      assert storage[..i + 1][..i] == storage[..i];
      book := BookPart(book, Line(storage[i].month, owners[storage[i].key], "cluster", "storage", "storage"), storage[i].usd);
    }
    assert storage[..|storage|] == storage;
  }

  method PersistCosts(before: Book, costs: seq<Cost>, model: string, charges: map<string, Charge>) returns (book: Book)
    requires Charged(costs, charges)
    ensures book == BookCosts(before, costs, model, charges)
  {
    book := before;
    for i := 0 to |costs|
      invariant book == BookCosts(before, costs[..i], model, charges)
    {
      OneCostMore(before, costs, model, charges, i);
      book := PersistCost(book, costs[i], model, charges[costs[i].key]);
    }
    assert costs[..|costs|] == costs;
  }

  lemma OneCostMore(book: Book, costs: seq<Cost>, model: string, charges: map<string, Charge>, n: nat)
    requires n < |costs| && Charged(costs, charges)
    ensures costs[n].key in charges && Charged(costs[..n], charges) && Charged(costs[..n + 1], charges)
    ensures charges[costs[n].key].viewers == [] || Whole(charges[costs[n].key].viewers) > 0
    ensures BookCosts(book, costs[..n + 1], model, charges)
         == BookParts(BookCosts(book, costs[..n], model, charges), costs[n], model, charges[costs[n].key],
                      PartsOf(costs[n], charges[costs[n].key]))
  {
    assert costs[..n + 1][..n] == costs[..n];
    assert costs[n] in costs;
  }

  lemma OnePartMore(book: Book, cost: Cost, model: string, c: Charge, parts: seq<Part>, n: nat)
    requires n < |parts|
    ensures BookParts(book, cost, model, c, parts[..n + 1])
         == BookPart(BookParts(book, cost, model, c, parts[..n]), LineOf(cost, parts[n].key, model, c), parts[n].usd)
  {
    assert parts[..n + 1][..n] == parts[..n];
  }

  method PersistCost(before: Book, cost: Cost, model: string, charge: Charge) returns (book: Book)
    requires charge.viewers == [] || Whole(charge.viewers) > 0
    ensures book == BookParts(before, cost, model, charge, PartsOf(cost, charge))
  {
    var parts := [Part(charge.team, cost.usd)];
    if charge.viewers != [] {
      parts := Split(cost.usd, charge.viewers);
    }
    book := before;
    for n := 0 to |parts|
      invariant book == BookParts(before, cost, model, charge, parts[..n])
    {
      OnePartMore(before, cost, model, charge, parts, n);
      book := BookPart(book, LineOf(cost, parts[n].key, model, charge), parts[n].usd);
    }
    assert parts[..|parts|] == parts;
  }

  function BookModels(models: seq<(string, seq<Cost>)>, charges: map<string, Charge>): Book
    requires forall m :: m in models ==> Charged(m.1, charges)
  {
    if models == [] then map[]
    else
      var last := models[|models| - 1];
      assert last in models;
      BookCosts(BookModels(models[..|models| - 1], charges), last.1, last.0, charges)
  }

  // -- Line by line --------------------------------------------------------------------

  function OnLine(book: Book, line: Line): int {
    if line in book then book[line] else 0
  }

  /** The parts that are one team's. */
  function TeamParts(parts: seq<Part>, team: string): int {
    if parts == [] then 0
    else TeamParts(parts[..|parts| - 1], team) + if parts[|parts| - 1].key == team then parts[|parts| - 1].usd else 0
  }

  /** What a team pays of a cost: its part of the split among the viewers if there are any, else all of it or nothing. */
  function TeamPays(usd: int, c: Charge, team: string): int
    requires c.viewers == [] || Whole(c.viewers) > 0
  {
    if c.viewers != [] then TeamParts(Splits(usd, c.viewers), team) else if c.team == team then usd else 0
  }

  /** What a line takes of some costs: those of its month, kind and actor, each by what its team pays. */
  function Takes(line: Line, costs: seq<Cost>, charges: map<string, Charge>): int
    requires Charged(costs, charges)
  {
    if costs == [] then 0
    else
      var last := costs[|costs| - 1];
      assert last in costs;
      var c := charges[last.key];
      Takes(line, costs[..|costs| - 1], charges)
      + if last.month == line.month && c.kind == line.kind && c.actor == line.actor then TeamPays(last.usd, c, line.team) else 0
  }

  /** Over the models, those of the line's own. */
  function TakesOfAll(line: Line, models: seq<(string, seq<Cost>)>, charges: map<string, Charge>): int
    requires forall m :: m in models ==> Charged(m.1, charges)
  {
    if models == [] then 0
    else
      var last := models[|models| - 1];
      assert last in models;
      TakesOfAll(line, models[..|models| - 1], charges) + if last.0 == line.model then Takes(line, last.1, charges) else 0
  }

  /** The storage of the tables a team owns, on the cluster's storage line. */
  function Stores(line: Line, storage: seq<Cost>, owners: map<string, string>): int
    requires forall c :: c in storage ==> c.key in owners
  {
    if storage == [] then 0
    else
      var last := storage[|storage| - 1];
      assert last in storage;
      Stores(line, storage[..|storage| - 1], owners)
      + if line.model == "cluster" && line.kind == "storage" && line.actor == "storage" && last.month == line.month
           && owners[last.key] == line.team then last.usd else 0
  }

  lemma PartOnLine(book: Book, to: Line, usd: int, line: Line)
    ensures OnLine(BookPart(book, to, usd), line) == OnLine(book, line) + if to == line then usd else 0
  {
  }

  lemma {:induction false} PartsOnLine(book: Book, cost: Cost, model: string, c: Charge, parts: seq<Part>, line: Line)
    ensures OnLine(BookParts(book, cost, model, c, parts), line) == OnLine(book, line)
         + if cost.month == line.month && model == line.model && c.kind == line.kind && c.actor == line.actor
           then TeamParts(parts, line.team) else 0
  {
    if parts != [] {
      var rest, last := parts[..|parts| - 1], parts[|parts| - 1];
      PartsOnLine(book, cost, model, c, rest, line);
      PartOnLine(BookParts(book, cost, model, c, rest), LineOf(cost, last.key, model, c), last.usd, line);
    }
  }

  lemma OneTeamPays(usd: int, c: Charge, team: string)
    requires c.viewers == []
    ensures TeamParts([Part(c.team, usd)], team) == TeamPays(usd, c, team)
  {
    assert [Part(c.team, usd)][..0] == [];
  }

  lemma {:induction false} CostsOnLine(book: Book, costs: seq<Cost>, model: string, charges: map<string, Charge>, line: Line)
    requires Charged(costs, charges)
    ensures OnLine(BookCosts(book, costs, model, charges), line)
         == OnLine(book, line) + if model == line.model then Takes(line, costs, charges) else 0
  {
    if costs != [] {
      var rest, last := costs[..|costs| - 1], costs[|costs| - 1];
      assert last in costs;
      CostsOnLine(book, rest, model, charges, line);
      var c := charges[last.key];
      if c.viewers == [] { OneTeamPays(last.usd, c, line.team); }
      PartsOnLine(BookCosts(book, rest, model, charges), last, model, c, PartsOf(last, c), line);
    }
  }

  lemma {:induction false} ModelsOnLine(models: seq<(string, seq<Cost>)>, charges: map<string, Charge>, line: Line)
    requires forall m :: m in models ==> Charged(m.1, charges)
    ensures OnLine(BookModels(models, charges), line) == TakesOfAll(line, models, charges)
  {
    if models != [] {
      var rest, last := models[..|models| - 1], models[|models| - 1];
      assert last in models;
      ModelsOnLine(rest, charges, line);
      CostsOnLine(BookModels(rest, charges), last.1, last.0, charges, line);
    }
  }

  lemma {:induction false} StorageOnLine(book: Book, storage: seq<Cost>, owners: map<string, string>, line: Line)
    requires forall c :: c in storage ==> c.key in owners
    ensures OnLine(BookStorage(book, storage, owners), line) == OnLine(book, line) + Stores(line, storage, owners)
  {
    if storage != [] {
      var rest, last := storage[..|storage| - 1], storage[|storage| - 1];
      assert last in storage;
      StorageOnLine(book, rest, owners, line);
      PartOnLine(BookStorage(book, rest, owners), Line(last.month, owners[last.key], "cluster", "storage", "storage"), last.usd, line);
    }
  }

  /** What every line of the book says: what its team pays of its model's costs of its month, kind and actor, and of the
      storage of its tables. */
  lemma EveryLineIs(models: seq<(string, seq<Cost>)>, charges: map<string, Charge>, storage: seq<Cost>, owners: map<string, string>,
                    line: Line)
    requires forall m :: m in models ==> Charged(m.1, charges)
    requires forall c :: c in storage ==> c.key in owners
    ensures OnLine(BookStorage(BookModels(models, charges), storage, owners), line)
         == TakesOfAll(line, models, charges) + Stores(line, storage, owners)
  {
    ModelsOnLine(models, charges, line);
    StorageOnLine(BookModels(models, charges), storage, owners, line);
  }

  lemma {:induction false} NoPart(parts: seq<Part>, team: string)
    requires forall i :: 0 <= i < |parts| ==> parts[i].key != team
    ensures TeamParts(parts, team) == 0
  {
    if parts != [] { NoPart(parts[..|parts| - 1], team); }
  }

  lemma SplitsAreTheViewers(usd: int, weights: seq<Weight>)
    requires weights != [] && Whole(weights) > 0
    ensures |Splits(usd, weights)| == |weights| && forall i :: 0 <= i < |weights| ==> Splits(usd, weights)[i].key == weights[i].key
  {
    forall i | 0 <= i < |weights| ensures Splits(usd, weights)[i].key == weights[i].key { CutIs(usd, weights, Whole(weights), i); }
  }

  /** A team has nothing to do with a charge: it is not the one charged, or among the viewers if there are any. */
  ghost predicate Uninvolved(c: Charge, team: string) {
    if c.viewers == [] then c.team != team else forall i :: 0 <= i < |c.viewers| ==> c.viewers[i].key != team
  }

  lemma {:induction false} TakesNothing(line: Line, costs: seq<Cost>, charges: map<string, Charge>)
    requires Charged(costs, charges) && forall c :: c in costs ==> Uninvolved(charges[c.key], line.team)
    ensures Takes(line, costs, charges) == 0
  {
    if costs != [] {
      var last := costs[|costs| - 1];
      assert last in costs;
      TakesNothing(line, costs[..|costs| - 1], charges);
      var c := charges[last.key];
      if c.viewers != [] {
        SplitsAreTheViewers(last.usd, c.viewers);
        NoPart(Splits(last.usd, c.viewers), line.team);
      }
    }
  }

  lemma {:induction false} TakesNothingOfAll(line: Line, models: seq<(string, seq<Cost>)>, charges: map<string, Charge>)
    requires forall m :: m in models ==> Charged(m.1, charges) && forall c :: c in m.1 ==> Uninvolved(charges[c.key], line.team)
    ensures TakesOfAll(line, models, charges) == 0
  {
    if models != [] {
      assert models[|models| - 1] in models;
      TakesNothingOfAll(line, models[..|models| - 1], charges);
      TakesNothing(line, models[|models| - 1].1, charges);
    }
  }

  lemma {:induction false} StoresNothing(line: Line, storage: seq<Cost>, owners: map<string, string>)
    requires forall c :: c in storage ==> c.key in owners && owners[c.key] != line.team
    ensures Stores(line, storage, owners) == 0
  {
    if storage != [] {
      assert storage[|storage| - 1] in storage;
      StoresNothing(line, storage[..|storage| - 1], owners);
    }
  }

  /** A team that was charged for nothing, viewed nothing and owns no table pays nothing. */
  lemma OthersPayNothingAtAll(models: seq<(string, seq<Cost>)>, charges: map<string, Charge>, storage: seq<Cost>,
                              owners: map<string, string>, line: Line)
    requires forall m :: m in models ==> Charged(m.1, charges) && forall c :: c in m.1 ==> Uninvolved(charges[c.key], line.team)
    requires forall c :: c in storage ==> c.key in owners && owners[c.key] != line.team
    ensures OnLine(BookStorage(BookModels(models, charges), storage, owners), line) == 0
  {
    EveryLineIs(models, charges, storage, owners, line);
    TakesNothingOfAll(line, models, charges);
    StoresNothing(line, storage, owners);
  }

  // -- Nothing is lost -----------------------------------------------------------------

  /** The sum of a map. */
  ghost function Total<K(!new)>(book: map<K, int>): int {
    if book == map[] then 0 else
      var line :| line in book;
      book[line] + Total(book - {line})
  }

  lemma {:induction false} TotalWithout<K(!new)>(book: map<K, int>, line: K)
    requires line in book
    ensures Total(book) == book[line] + Total(book - {line})
    decreases |book|
  {
    var first :| first in book && Total(book) == book[first] + Total(book - {first});
    if first != line {
      TotalWithout(book - {first}, line);
      TotalWithout(book - {line}, first);
      assert book - {first} - {line} == book - {line} - {first};
    }
  }

  lemma TotalAdds(book: Book, line: Line, usd: int)
    ensures Total(BookPart(book, line, usd)) == Total(book) + usd
  {
    var after := BookPart(book, line, usd);
    TotalWithout(after, line);
    if line in book {
      TotalWithout(book, line);
      assert after - {line} == book - {line};
    } else {
      assert after - {line} == book;
    }
  }

  /** What the showback says of a month and a model. */
  function Of(book: Book, month: string, model: string): Book {
    map line | line in book && line.month == month && line.model == model :: book[line]
  }

  lemma OfAdds(book: Book, line: Line, usd: int, month: string, model: string)
    ensures Total(Of(BookPart(book, line, usd), month, model))
         == Total(Of(book, month, model)) + if line.month == month && line.model == model then usd else 0
  {
    var before, after := Of(book, month, model), Of(BookPart(book, line, usd), month, model);
    if line.month == month && line.model == model {
      assert after == BookPart(before, line, usd);
      TotalAdds(before, line, usd);
    } else {
      assert after == before;
    }
  }

  lemma {:induction false} PartsAdd(book: Book, cost: Cost, model: string, c: Charge, parts: seq<Part>, month: string,
                                    asked: string)
    ensures Total(Of(BookParts(book, cost, model, c, parts), month, asked))
         == Total(Of(book, month, asked)) + if cost.month == month && model == asked then Sum(parts) else 0
  {
    if parts != [] {
      var n := |parts| - 1;
      PartsAdd(book, cost, model, c, parts[..n], month, asked);
      OfAdds(BookParts(book, cost, model, c, parts[..n]), LineOf(cost, parts[n].key, model, c), parts[n].usd, month, asked);
    }
  }

  lemma PartsOfAddUp(cost: Cost, c: Charge)
    requires c.viewers == [] || Whole(c.viewers) > 0
    ensures Sum(PartsOf(cost, c)) == cost.usd
  {
    if c.viewers != [] {
      SplitsAddUp(cost.usd, c.viewers);
    } else {
      assert [Part(c.team, cost.usd)][..0] == [];
    }
  }

  lemma {:induction false} CostsAdd(book: Book, costs: seq<Cost>, model: string, charges: map<string, Charge>, month: string,
                                    asked: string)
    requires Charged(costs, charges)
    ensures Total(Of(BookCosts(book, costs, model, charges), month, asked))
         == Total(Of(book, month, asked)) + if model == asked then Paid(costs, month) else 0
  {
    if costs != [] {
      var n := |costs| - 1;
      assert costs[n] in costs;
      CostsAdd(book, costs[..n], model, charges, month, asked);
      var charge := charges[costs[n].key];
      PartsOfAddUp(costs[n], charge);
      PartsAdd(BookCosts(book, costs[..n], model, charges), costs[n], model, charge, PartsOf(costs[n], charge), month, asked);
    }
  }

  lemma {:induction false} StorageAdds(book: Book, storage: seq<Cost>, owners: map<string, string>, month: string, asked: string)
    requires forall c :: c in storage ==> c.key in owners
    ensures Total(Of(BookStorage(book, storage, owners), month, asked))
         == Total(Of(book, month, asked)) + if asked == "cluster" then Paid(storage, month) else 0
  {
    if storage != [] {
      var n := |storage| - 1;
      var last := storage[n];
      assert last in storage;
      StorageAdds(book, storage[..n], owners, month, asked);
      OfAdds(BookStorage(book, storage[..n], owners), Line(last.month, owners[last.key], "cluster", "storage", "storage"),
             last.usd, month, asked);
    }
  }

  /** What a model's queries cost in a month. */
  function PaidIn(models: seq<(string, seq<Cost>)>, month: string, asked: string): int {
    if models == [] then 0
    else
      var last := models[|models| - 1];
      PaidIn(models[..|models| - 1], month, asked) + if last.0 == asked then Paid(last.1, month) else 0
  }

  lemma {:induction false} ModelsAdd(models: seq<(string, seq<Cost>)>, charges: map<string, Charge>, month: string, asked: string)
    requires forall m :: m in models ==> Charged(m.1, charges)
    ensures Total(Of(BookModels(models, charges), month, asked)) == PaidIn(models, month, asked)
  {
    if models == [] {
      assert Of(map[], month, asked) == map[];
    } else {
      var n := |models| - 1;
      assert models[n] in models;
      ModelsAdd(models[..n], charges, month, asked);
      CostsAdd(BookModels(models[..n], charges), models[n].1, models[n].0, charges, month, asked);
    }
  }

  /** The theorem: whatever the other models cost, a month's showback for the cluster is its compute pool, if anything
      was read, and its storage pool, if anything was stored, to the last unit. */
  lemma TheBillIsConserved(compute: map<string, int>, storage: map<string, int>, queried: seq<Weighed>, sizes: seq<Weighed>,
                           others: seq<(string, seq<Cost>)>, charges: map<string, Charge>, owners: map<string, string>,
                           month: string)
    requires var queries, tables := SharesIn(compute, queried, Months(queried)), SharesIn(storage, sizes, Months(sizes));
      && Charged(queries, charges) && (forall m :: m in others ==> Charged(m.1, charges) && m.0 != "cluster")
      && (forall c :: c in tables ==> c.key in owners)
    ensures var queries, tables := SharesIn(compute, queried, Months(queried)), SharesIn(storage, sizes, Months(sizes));
      Total(Of(BookStorage(BookModels(others + [("cluster", queries)], charges), tables, owners), month, "cluster"))
      == PaidOf(compute, queried, month) + PaidOf(storage, sizes, month)
  {
    var queries, tables := SharesIn(compute, queried, Months(queried)), SharesIn(storage, sizes, Months(sizes));
    var models := others + [("cluster", queries)];
    StorageAdds(BookModels(models, charges), tables, owners, month, "cluster");
    ModelsAdd(models, charges, month, "cluster");
    OthersPayNothing(others, month);
    assert models[..|models| - 1] == others;
    PoolsArePaid(compute, queried, month);
    PoolsArePaid(storage, sizes, month);
  }

  lemma {:induction false} OthersPayNothing(others: seq<(string, seq<Cost>)>, month: string)
    requires forall m :: m in others ==> m.0 != "cluster"
    ensures PaidIn(others, month, "cluster") == 0
  {
    if others != [] {
      assert others[|others| - 1] in others;
      OthersPayNothing(others[..|others| - 1], month);
    }
  }
}
