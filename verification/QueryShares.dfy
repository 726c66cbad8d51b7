/** The compute bill as each query's share: a dictionary filled month by month. */
module QueryShares {
  import opened Ids
  import opened Splitting
  import opened Fairness
  import opened Showback

  type Ledger = map<string, int>

  /** `out.update(...)`: a key written again loses what it had. */
  function Updated(out: Ledger, parts: seq<Part>): Ledger {
    if parts == [] then out
    else Updated(out, parts[..|parts| - 1])[parts[|parts| - 1].key := parts[|parts| - 1].usd]
  }

  /** Each key with the last of its costs. */
  function Latest(costs: seq<Cost>): Ledger {
    if costs == [] then map[] else Latest(costs[..|costs| - 1])[costs[|costs| - 1].key := costs[|costs| - 1].usd]
  }

  lemma {:induction false} UpdatedIsLatest(costs: seq<Cost>, month: string, parts: seq<Part>)
    ensures Latest(costs + Dated(month, parts)) == Updated(Latest(costs), parts)
  {
    if parts == [] {
      assert costs + Dated(month, parts) == costs;
    } else {
      var n := |parts| - 1;
      var last := Cost(month, parts[n].key, parts[n].usd);
      UpdatedIsLatest(costs, month, parts[..n]);
      Associative(costs, Dated(month, parts[..n]), [last]);
      LatestOfMore(costs + Dated(month, parts[..n]), last);
    }
  }

  lemma LatestOfMore(costs: seq<Cost>, c: Cost)
    ensures Latest(costs + [c]) == Latest(costs)[c.key := c.usd]
  {
    assert (costs + [c])[..|costs|] == costs;
  }

  /** `compute_shares`. */
  method ComputeShares(pools: map<string, int>, queries: seq<Weighed>) returns (out: Ledger)
    ensures out == Latest(SharesIn(pools, queries, Months(queries)))
  {
    var months := GatherMonths(queries);
    out := map[];
    for i := 0 to |months|
      invariant out == Latest(SharesIn(pools, queries, months[..i]))
    {
      assert months[..i + 1][..i] == months[..i];
      if months[i] in pools {
        var weights := GatherWeights(queries, months[i]);
        var parts := Share(pools[months[i]], weights);
        UpdatedIsLatest(SharesIn(pools, queries, months[..i]), months[i], parts);
        out := Update(out, parts);
      } else {
        assert SharesIn(pools, queries, months[..i + 1]) == SharesIn(pools, queries, months[..i]);
      }
    }
    assert months[..|months|] == months;
  }

  method Update(before: Ledger, parts: seq<Part>) returns (out: Ledger)
    ensures out == Updated(before, parts)
  {
    out := before;
    for i := 0 to |parts|
      invariant out == Updated(before, parts[..i])
    {
      assert parts[..i + 1][..i] == parts[..i];
      out := out[parts[i].key := parts[i].usd];
    }
    assert parts[..|parts|] == parts;
  }

  // -- What the dictionary holds ---------------------------------------------------------

  /** What was shared out, and what of it was written over. */
  function Spent(costs: seq<Cost>): int {
    if costs == [] then 0 else Spent(costs[..|costs| - 1]) + costs[|costs| - 1].usd
  }

  function Overwritten(costs: seq<Cost>): int {
    if costs == [] then 0
    else
      var before, key := Latest(costs[..|costs| - 1]), costs[|costs| - 1].key;
      Overwritten(costs[..|costs| - 1]) + if key in before then before[key] else 0
  }

  /** The dictionary is short of what was shared out by exactly what was written over. */
  lemma {:induction false} ShortByTheOverwritten(costs: seq<Cost>)
    ensures Total(Latest(costs)) == Spent(costs) - Overwritten(costs)
  {
    if costs != [] {
      var n := |costs| - 1;
      ShortByTheOverwritten(costs[..n]);
      var before, after, key := Latest(costs[..n]), Latest(costs), costs[n].key;
      TotalWithout(after, key);
      if key in before {
        TotalWithout(before, key);
        assert after - {key} == before - {key};
      } else {
        assert after - {key} == before;
      }
    }
  }

  function KeysOf(costs: seq<Cost>): (keys: seq<string>)
    ensures |keys| == |costs| && forall i :: 0 <= i < |keys| ==> keys[i] == costs[i].key
  {
    if costs == [] then [] else KeysOf(costs[..|costs| - 1]) + [costs[|costs| - 1].key]
  }

  /** With no key twice, nothing is written over and every cost stands. */
  lemma {:induction false} NothingOverwritten(costs: seq<Cost>)
    requires NoRepeats(KeysOf(costs))
    ensures Overwritten(costs) == 0
    ensures forall k :: k in Latest(costs) <==> k in KeysOf(costs)
    ensures forall c :: c in costs ==> c.key in Latest(costs) && Latest(costs)[c.key] == c.usd
  {
    if costs != [] {
      var n := |costs| - 1;
      NothingOverwritten(costs[..n]);
      forall c | c in costs ensures c.key in Latest(costs) && Latest(costs)[c.key] == c.usd {
        if c in costs[..n] {
          var i :| 0 <= i < n && costs[..n][i] == c;
          assert KeysOf(costs[..n])[i] == c.key;
        }
      }
    }
  }

  // -- When a key comes twice ------------------------------------------------------------

  function WeightKeys(weights: seq<Weight>): (keys: seq<string>)
    ensures |keys| == |weights| && forall i :: 0 <= i < |keys| ==> keys[i] == weights[i].key
  {
    if weights == [] then [] else WeightKeys(weights[..|weights| - 1]) + [weights[|weights| - 1].key]
  }

  /** Does a key pay in a month: the month has a pool and the key weighs something in it. */
  predicate Pays(pools: map<string, int>, weighed: seq<Weighed>, month: string, key: string) {
    month in pools && key in WeightKeys(Positive(WeightsOf(weighed, month)))
  }

  lemma {:induction false} NoRepeatsOfBoth(a: seq<string>, b: seq<string>)
    ensures NoRepeats(a + b) <==> NoRepeats(a) && NoRepeats(b) && forall x :: x in b ==> x !in a
  {
    if b == [] {
      assert a + b == a;
    } else {
      var n := |b| - 1;
      NoRepeatsOfBoth(a, b[..n]);
      assert (a + b)[..|a + b| - 1] == a + b[..n];
      assert b == b[..n] + [b[n]];
    }
  }

  lemma {:induction false} KeysOfBoth(a: seq<Cost>, b: seq<Cost>)
    ensures KeysOf(a + b) == KeysOf(a) + KeysOf(b)
  {
  }

  lemma {:induction false} PutKeys(weights: seq<Weight>, key: string, n: int)
    requires NoRepeats(WeightKeys(weights))
    ensures NoRepeats(WeightKeys(Put(weights, key, n)))
    ensures forall k :: k in WeightKeys(Put(weights, key, n)) <==> k in WeightKeys(weights) || k == key
  {
    if weights != [] {
      var last := weights[|weights| - 1];
      var rest := weights[..|weights| - 1];
      if last.key != key {
        PutKeys(rest, key, n);
        assert (Put(rest, key, n) + [last])[..|Put(rest, key, n)|] == Put(rest, key, n);
      } else {
        assert (rest + [Weight(key, n)])[..|rest|] == rest;
      }
    } else {
      assert [Weight(key, n)][..0] == [];
    }
  }

  lemma {:induction false} WeightsKeys(weighed: seq<Weighed>, month: string)
    ensures NoRepeats(WeightKeys(WeightsOf(weighed, month)))
  {
    if weighed != [] {
      WeightsKeys(weighed[..|weighed| - 1], month);
      var last := weighed[|weighed| - 1];
      if last.month == month {
        PutKeys(WeightsOf(weighed[..|weighed| - 1], month), last.key, last.n);
      }
    }
  }

  lemma {:induction false} PositiveKeys(weights: seq<Weight>)
    requires NoRepeats(WeightKeys(weights))
    ensures NoRepeats(WeightKeys(Positive(weights)))
    ensures forall k :: k in WeightKeys(Positive(weights)) ==> k in WeightKeys(weights)
  {
    if weights != [] {
      var rest, last := weights[..|weights| - 1], weights[|weights| - 1];
      PositiveKeys(rest);
      assert WeightKeys(weights) == WeightKeys(rest) + [last.key];
      if last.n > 0 {
        OneKeyMore(Positive(rest), last);
        assert Positive(weights) == Positive(rest) + [last];
      } else {
        assert Positive(weights) == Positive(rest);
      }
    }
  }

  lemma OneKeyMore(weights: seq<Weight>, w: Weight)
    ensures WeightKeys(weights + [w]) == WeightKeys(weights) + [w.key]
    ensures NoRepeats(WeightKeys(weights + [w])) <==> NoRepeats(WeightKeys(weights)) && w.key !in WeightKeys(weights)
  {
    var keys := WeightKeys(weights) + [w.key];
    assert (weights + [w])[..|weights|] == weights;
    assert keys[..|weights|] == WeightKeys(weights);
  }

  lemma {:induction false} RoundedKeys(total: int, weights: seq<Weight>, whole: nat)
    requires whole > 0
    ensures forall i :: 0 <= i < |weights| ==> Rounded(total, weights, whole)[i].key == weights[i].key
  {
    if weights != [] { RoundedKeys(total, weights[..|weights| - 1], whole); }
  }

  lemma {:induction false} DatedAre(month: string, parts: seq<Part>)
    ensures |Dated(month, parts)| == |parts|
    ensures forall i :: 0 <= i < |parts| ==> Dated(month, parts)[i] == Cost(month, parts[i].key, parts[i].usd)
  {
    if parts != [] { DatedAre(month, parts[..|parts| - 1]); }
  }

  /** Whoever weighs something pays, once a month. */
  lemma KeysOfAMonth(weighed: seq<Weighed>, month: string, total: int)
    ensures var keys := KeysOf(Dated(month, Splitting.Shares(total, WeightsOf(weighed, month))));
      keys == WeightKeys(Positive(WeightsOf(weighed, month))) && NoRepeats(keys)
  {
    var weights := WeightsOf(weighed, month);
    var positive := Positive(weights);
    WeightsKeys(weighed, month);
    PositiveKeys(weights);
    DatedAre(month, Splitting.Shares(total, weights));
    if positive != [] {
      WholeIsPositive(positive);
      RoundedKeys(total, positive, Whole(positive));
    }
  }

  ghost predicate PaysIn(pools: map<string, int>, weighed: seq<Weighed>, months: seq<string>, key: string) {
    exists m :: m in months && Pays(pools, weighed, m, key)
  }

  /** No key weighs something in two months that have a pool. */
  ghost predicate PaysOnce(pools: map<string, int>, weighed: seq<Weighed>, months: seq<string>) {
    forall key, m, o :: m in months && o in months && Pays(pools, weighed, m, key) && Pays(pools, weighed, o, key) ==> m == o
  }

  lemma PaysInOneMore(pools: map<string, int>, weighed: seq<Weighed>, rest: seq<string>, month: string, key: string)
    ensures PaysIn(pools, weighed, rest + [month], key)
       <==> PaysIn(pools, weighed, rest, key) || Pays(pools, weighed, month, key)
  {
    assert month in rest + [month];
    if PaysIn(pools, weighed, rest, key) {
      var m :| m in rest && Pays(pools, weighed, m, key);
      assert m in rest + [month];
    }
  }

  lemma PaysOnceOneMore(pools: map<string, int>, weighed: seq<Weighed>, rest: seq<string>, month: string)
    requires month !in rest
    ensures PaysOnce(pools, weighed, rest + [month])
       <==> PaysOnce(pools, weighed, rest) && forall k :: Pays(pools, weighed, month, k) ==> !PaysIn(pools, weighed, rest, k)
  {
    var all := rest + [month];
    assert month in all && forall m :: m in all <==> m in rest || m == month;
  }

  /** The keys that pay in some months are those of what the months are shared out as. */
  lemma {:induction false} KeysInMonths(pools: map<string, int>, weighed: seq<Weighed>, months: seq<string>, key: string)
    ensures key in KeysOf(SharesIn(pools, weighed, months)) <==> PaysIn(pools, weighed, months, key)
  {
    if months != [] {
      var rest, month := months[..|months| - 1], months[|months| - 1];
      assert months == rest + [month];
      KeysInMonths(pools, weighed, rest, key);
      PaysInOneMore(pools, weighed, rest, month, key);
      OneMonthMore(pools, weighed, rest, month, months);
    }
  }

  /** The keys a month adds. */
  function KeysIn(pools: map<string, int>, weighed: seq<Weighed>, month: string): seq<string> {
    if month in pools then WeightKeys(Positive(WeightsOf(weighed, month))) else []
  }

  lemma OneMonthMore(pools: map<string, int>, weighed: seq<Weighed>, rest: seq<string>, month: string, months: seq<string>)
    requires months == rest + [month]
    ensures KeysOf(SharesIn(pools, weighed, months)) == KeysOf(SharesIn(pools, weighed, rest)) + KeysIn(pools, weighed, month)
    ensures NoRepeats(KeysIn(pools, weighed, month))
  {
    assert months[..|months| - 1] == rest;
    var before := SharesIn(pools, weighed, rest);
    if month in pools {
      KeysOfAMonth(weighed, month, pools[month]);
      KeysOfBoth(before, Dated(month, Splitting.Shares(pools[month], WeightsOf(weighed, month))));
    } else {
      assert before + [] == before;
    }
  }

  lemma {:induction false} KeysComeOnce(pools: map<string, int>, weighed: seq<Weighed>, months: seq<string>)
    requires NoRepeats(months)
    ensures NoRepeats(KeysOf(SharesIn(pools, weighed, months))) <==> PaysOnce(pools, weighed, months)
  {
    if months != [] {
      var rest, month := months[..|months| - 1], months[|months| - 1];
      assert months == rest + [month];
      KeysComeOnce(pools, weighed, rest);
      PaysOnceOneMore(pools, weighed, rest, month);
      OneMonthMore(pools, weighed, rest, month, months);
      NoRepeatsOfBoth(KeysOf(SharesIn(pools, weighed, rest)), KeysIn(pools, weighed, month));
      forall k ensures k in KeysOf(SharesIn(pools, weighed, rest)) <==> PaysIn(pools, weighed, rest, k) {
        KeysInMonths(pools, weighed, rest, k);
      }
      assert forall k :: k in KeysIn(pools, weighed, month) <==> Pays(pools, weighed, month, k);
    }
  }

  /** No query's share is written over by another month's exactly when none weighs something in two months with a pool. */
  lemma WrittenOnceExactlyWhenPaidOnce(pools: map<string, int>, queries: seq<Weighed>)
    ensures NoRepeats(KeysOf(SharesIn(pools, queries, Months(queries)))) <==> PaysOnce(pools, queries, Months(queries))
  {
    MonthsAreThose(queries, "");
    KeysComeOnce(pools, queries, Months(queries));
  }

  /** And then the dictionary adds up to everything that was shared out. */
  lemma PaidOnceAddsUp(pools: map<string, int>, queries: seq<Weighed>)
    requires PaysOnce(pools, queries, Months(queries))
    ensures var costs := SharesIn(pools, queries, Months(queries));
      Total(Latest(costs)) == Spent(costs) && forall c :: c in costs ==> c.key in Latest(costs) && Latest(costs)[c.key] == c.usd
  {
    var costs := SharesIn(pools, queries, Months(queries));
    WrittenOnceExactlyWhenPaidOnce(pools, queries);
    EachStands(costs);
  }

  lemma EachStands(costs: seq<Cost>)
    requires NoRepeats(KeysOf(costs))
    ensures Total(Latest(costs)) == Spent(costs)
    ensures forall c :: c in costs ==> c.key in Latest(costs) && Latest(costs)[c.key] == c.usd
  {
    NothingOverwritten(costs);
    ShortByTheOverwritten(costs);
  }
}
