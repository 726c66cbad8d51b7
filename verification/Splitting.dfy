/** Money split by weights, to the last 1e-12 dollar: amounts are whole numbers of that unit. */
module Splitting {
  import opened Ids

  datatype Weight = Weight(key: string, n: int)

  datatype Part = Part(key: string, usd: int)

  // -- Rounding ------------------------------------------------------------------------

  /** `quantize`: to the nearest unit, ties to the even one. */
  function HalfEven(a: int, b: nat): int
    requires b > 0
  {
    var down, rest := a / b, a % b;
    if 2 * rest < b || (2 * rest == b && down % 2 == 0) then down else down + 1
  }

  /** `ROUND_DOWN`: towards zero. */
  function Down(a: int, b: nat): int
    requires b > 0
  {
    if a >= 0 then a / b else -((-a) / b)
  }

  lemma HalfEvenIsNearest(a: int, b: nat)
    requires b > 0
    ensures 2 * a - b <= 2 * (b * HalfEven(a, b)) <= 2 * a + b
    ensures 2 * (b * HalfEven(a, b)) == 2 * a + b || 2 * (b * HalfEven(a, b)) == 2 * a - b ==> HalfEven(a, b) % 2 == 0
  {
    assert a == b * (a / b) + a % b;
    assert b * (a / b + 1) == b * (a / b) + b;
  }

  lemma DownTruncates(a: int, b: nat)
    requires b > 0
    ensures a >= 0 ==> 0 <= b * Down(a, b) <= a && a - b * Down(a, b) < b
    ensures a <= 0 ==> a <= b * Down(a, b) <= 0 && b * Down(a, b) - a < b
  {
    if a >= 0 {
      Quotient(a, b);
    } else {
      Quotient(-a, b);
      Negated(b, (-a) / b);
    }
  }

  lemma Quotient(a: nat, b: nat)
    requires b > 0
    ensures a / b >= 0 && 0 <= b * (a / b) <= a && a - b * (a / b) < b
  {
    assert a == b * (a / b) + a % b;
    assert a / b >= 0;
  }

  lemma Negated(a: int, b: int)
    ensures a * (-b) == -(a * b)
  {
  }

  // -- Sums ----------------------------------------------------------------------------

  function Whole(weights: seq<Weight>): int {
    if weights == [] then 0 else Whole(weights[..|weights| - 1]) + weights[|weights| - 1].n
  }

  function Sum(parts: seq<Part>): int {
    if parts == [] then 0 else Sum(parts[..|parts| - 1]) + parts[|parts| - 1].usd
  }

  lemma {:induction false} SumUpdate(parts: seq<Part>, i: nat, usd: int)
    requires i < |parts|
    ensures Sum(parts[i := Part(parts[i].key, usd)]) == Sum(parts) - parts[i].usd + usd
  {
    var after, n := parts[i := Part(parts[i].key, usd)], |parts| - 1;
    if i < n {
      SumUpdate(parts[..n], i, usd);
      assert after[..n] == parts[..n][i := Part(parts[i].key, usd)];
    } else {
      assert after[..n] == parts[..n];
    }
  }

  // -- Who gets the remainder ----------------------------------------------------------

  /** The greater weight, the smaller key on a tie. */
  predicate Before(a: Weight, b: Weight) {
    a.n > b.n || (a.n == b.n && Leq(a.key, b.key))
  }

  method Largest(weights: seq<Weight>) returns (at: nat)
    requires weights != []
    ensures at == LargestIn(weights)
  {
    at := 0;
    for i := 1 to |weights|
      invariant at < i && at == LargestIn(weights[..i])
    {
      assert weights[..i + 1][..i] == weights[..i];
      if !Before(weights[at], weights[i]) {
        at := i;
      }
    }
    assert weights[..|weights|] == weights;
  }

  function LargestIn(weights: seq<Weight>): (at: nat)
    requires weights != []
    ensures at < |weights|
  {
    var n := |weights| - 1;
    if n == 0 then 0
    else
      var at := LargestIn(weights[..n]);
      if Before(weights[at], weights[n]) then at else n
  }

  lemma {:induction false} LargestIsFirst(weights: seq<Weight>, j: nat)
    requires j < |weights|
    ensures Before(weights[LargestIn(weights)], weights[j])
  {
    var n := |weights| - 1;
    LeqTotal(weights[n].key, weights[n].key);
    if n > 0 {
      var at := LargestIn(weights[..n]);
      LeqTotal(weights[at].key, weights[n].key);
      if j < n {
        LargestIsFirst(weights[..n], j);
        if !Before(weights[at], weights[n]) && weights[n].n == weights[j].n {
          LeqTransitive(weights[n].key, weights[at].key, weights[j].key);
        }
      }
    }
  }

  /** The parts with what is left over given to one of them. */
  function Settle(parts: seq<Part>, at: nat, total: int): (settled: seq<Part>)
    requires at < |parts|
    ensures |settled| == |parts|
  {
    parts[at := Part(parts[at].key, parts[at].usd + total - Sum(parts))]
  }

  lemma SettledAddsUp(parts: seq<Part>, at: nat, total: int)
    requires at < |parts|
    ensures Sum(Settle(parts, at, total)) == total
  {
    SumUpdate(parts, at, parts[at].usd + total - Sum(parts));
  }

  // -- The cluster's bill --------------------------------------------------------------

  function Positive(weights: seq<Weight>): (found: seq<Weight>)
    ensures forall i :: 0 <= i < |found| ==> found[i].n > 0
    ensures |found| <= |weights|
  {
    if weights == [] then []
    else
      var last := weights[|weights| - 1];
      Positive(weights[..|weights| - 1]) + if last.n > 0 then [last] else []
  }

  lemma {:induction false} PositiveAre(weights: seq<Weight>, w: Weight)
    ensures multiset(Positive(weights))[w] == if w.n > 0 then multiset(weights)[w] else 0
  {
    if weights != [] {
      var n := |weights| - 1;
      assert weights == weights[..n] + [weights[n]];
      PositiveAre(weights[..n], w);
    }
  }

  lemma {:induction false} WholeIsPositive(weights: seq<Weight>)
    requires forall i :: 0 <= i < |weights| ==> weights[i].n > 0
    ensures Whole(weights) >= |weights|
  {
    if weights != [] { WholeIsPositive(weights[..|weights| - 1]); }
  }

  function Rounded(total: int, weights: seq<Weight>, whole: nat): (parts: seq<Part>)
    requires whole > 0
    ensures |parts| == |weights|
  {
    if weights == [] then []
    else
      var last := weights[|weights| - 1];
      Rounded(total, weights[..|weights| - 1], whole) + [Part(last.key, HalfEven(total * last.n, whole))]
  }

  /** `share`: nothing to weigh, nothing shared. */
  function Shares(total: int, weights: seq<Weight>): seq<Part> {
    var positive := Positive(weights);
    if positive == [] then []
    else
      WholeIsPositive(positive);
      Settle(Rounded(total, positive, Whole(positive)), LargestIn(positive), total)
  }

  method KeepPositive(weights: seq<Weight>) returns (positive: seq<Weight>, whole: nat)
    ensures positive == Positive(weights) && whole == Whole(positive)
  {
    positive, whole := [], 0;
    for i := 0 to |weights|
      invariant positive == Positive(weights[..i]) && whole == Whole(positive)
    {
      assert weights[..i + 1][..i] == weights[..i];
      if weights[i].n > 0 {
        assert (positive + [weights[i]])[..|positive|] == positive;
        positive, whole := positive + [weights[i]], whole + weights[i].n;
      }
    }
    assert weights[..|weights|] == weights;
  }

  method RoundEach(total: int, weights: seq<Weight>, whole: nat) returns (parts: seq<Part>)
    requires whole > 0
    ensures parts == Rounded(total, weights, whole)
  {
    parts := [];
    for i := 0 to |weights|
      invariant parts == Rounded(total, weights[..i], whole)
    {
      assert weights[..i + 1][..i] == weights[..i];
      var part := Part(weights[i].key, HalfEven(total * weights[i].n, whole));
      parts := parts + [part];
    }
    assert weights[..|weights|] == weights;
  }

  method Share(total: int, weights: seq<Weight>) returns (shares: seq<Part>)
    ensures shares == Shares(total, weights)
  {
    var positive, whole := KeepPositive(weights);
    if positive == [] {
      return [];
    }
    WholeIsPositive(positive);
    shares := RoundEach(total, positive, whole);
    var largest := Largest(positive);
    shares := Settle(shares, largest, total);
  }

  // -- A refresh's viewers -------------------------------------------------------------

  function Cut(usd: int, weights: seq<Weight>, whole: nat): (parts: seq<Part>)
    requires whole > 0
    ensures |parts| == |weights|
  {
    if weights == [] then []
    else
      var last := weights[|weights| - 1];
      Cut(usd, weights[..|weights| - 1], whole) + [Part(last.key, Down(usd * last.n, whole))]
  }

  /** The teams that opened a dashboard, each with its views. */
  ghost predicate Viewed(weights: seq<Weight>) {
    weights != [] && forall i :: 0 <= i < |weights| ==> weights[i].n > 0
  }

  /** `split`. */
  function Splits(usd: int, weights: seq<Weight>): seq<Part>
    requires weights != [] && Whole(weights) > 0
  {
    Settle(Cut(usd, weights, Whole(weights)), LargestIn(weights), usd)
  }

  method Views(weights: seq<Weight>) returns (total: int)
    ensures total == Whole(weights)
  {
    total := 0;
    for i := 0 to |weights|
      invariant total == Whole(weights[..i])
    {
      assert weights[..i + 1][..i] == weights[..i];
      total := total + weights[i].n;
    }
    assert weights[..|weights|] == weights;
  }

  method CutEach(usd: int, weights: seq<Weight>, whole: nat) returns (parts: seq<Part>)
    requires whole > 0
    ensures parts == Cut(usd, weights, whole)
  {
    parts := [];
    for i := 0 to |weights|
      invariant parts == Cut(usd, weights[..i], whole)
    {
      assert weights[..i + 1][..i] == weights[..i];
      var part := Part(weights[i].key, Down(usd * weights[i].n, whole));
      parts := parts + [part];
    }
    assert weights[..|weights|] == weights;
  }

  method Split(usd: int, weights: seq<Weight>) returns (parts: seq<Part>)
    requires weights != [] && Whole(weights) > 0
    ensures parts == Splits(usd, weights)
  {
    var total := Views(weights);
    parts := CutEach(usd, weights, total);
    var largest := Largest(weights);
    parts := Settle(parts, largest, usd);
  }
}
