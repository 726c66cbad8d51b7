/** What the splits promise: nothing lost, nothing invented, and nobody far from their exact share. */
module Fairness {
  import opened Ids
  import opened Splitting

  lemma MulAdd(a: int, b: int, c: int)
    ensures a * (b + c) == a * b + a * c
  {
  }

  // -- Sums of rounded shares ------------------------------------------------------------

  /** A part is within so many half units of its exact value, `total * weight / whole`. */
  predicate Near(part: int, total: int, weight: int, whole: int, halves: int) {
    2 * (total * weight) - halves * whole <= 2 * (whole * part) <= 2 * (total * weight) + halves * whole
  }

  lemma NearAdds(p: int, w: int, h: int, p': int, w': int, h': int, total: int, whole: int)
    requires Near(p, total, w, whole, h) && Near(p', total, w', whole, h')
    ensures Near(p + p', total, w + w', whole, h + h')
  {
    MulAdd(whole, p, p');
    MulAdd(total, w, w');
    MulAdd(whole, h, h');
    assert (h + h') * whole == whole * (h + h') && h * whole == whole * h && h' * whole == whole * h';
  }

  lemma NearRest(p: int, w: int, h: int, total: int, whole: int)
    requires Near(p, total, w, whole, h)
    ensures Near(total - p, total, whole - w, whole, h)
  {
    MulAdd(whole, total - p, p);
    MulAdd(total, whole - w, w);
    assert whole * total == total * whole;
  }

  lemma RestIsNear(p: int, w: int, h: int, total: int, whole: int, rest: int, weight: int)
    requires Near(p, total, w, whole, h) && rest == total - p && weight == whole - w
    ensures Near(rest, total, weight, whole, h)
  {
    NearRest(p, w, h, total, whole);
  }

  lemma HalfEvenNear(total: int, weight: int, whole: nat)
    requires whole > 0
    ensures Near(HalfEven(total * weight, whole), total, weight, whole, 1)
  {
    HalfEvenIsNearest(total * weight, whole);
  }

  lemma {:induction false} RoundedAt(total: int, weights: seq<Weight>, whole: nat, i: nat)
    requires whole > 0 && i < |weights|
    ensures Rounded(total, weights, whole)[i] == Part(weights[i].key, HalfEven(total * weights[i].n, whole))
  {
    if i < |weights| - 1 { RoundedAt(total, weights[..|weights| - 1], whole, i); }
  }

  /** The rounded parts together are off by at most half a unit each. */
  lemma {:induction false} RoundedSum(total: int, weights: seq<Weight>, whole: nat)
    requires whole > 0
    ensures Near(Sum(Rounded(total, weights, whole)), total, Whole(weights), whole, |weights|)
  {
    if weights != [] {
      var n := |weights| - 1;
      var before, part := Rounded(total, weights[..n], whole), HalfEven(total * weights[n].n, whole);
      RoundedSum(total, weights[..n], whole);
      HalfEvenNear(total, weights[n].n, whole);
      NearAdds(Sum(before), Whole(weights[..n]), n, part, weights[n].n, 1, total, whole);
      assert Rounded(total, weights, whole)[..n] == before;
    }
  }

  lemma {:induction false} RoundedDrops(total: int, weights: seq<Weight>, whole: nat, i: nat)
    requires whole > 0 && i < |weights|
    ensures Drop(Rounded(total, weights, whole), i) == Rounded(total, Drop(weights, i), whole)
  {
    var n := |weights| - 1;
    var parts := Rounded(total, weights, whole);
    if i == n {
      assert Drop(weights, i) == weights[..n] && Drop(parts, i) == parts[..n];
    } else {
      RoundedDrops(total, weights[..n], whole, i);
      DropBefore(weights, i);
      DropBefore(parts, i);
      assert parts[..n] == Rounded(total, weights[..n], whole);
      LastApart(Drop(parts, i), n - 1);
    }
  }

  function Drop<T>(s: seq<T>, i: nat): seq<T>
    requires i < |s|
  {
    s[..i] + s[i + 1..]
  }

  /** Leaving out an item before the last. */
  lemma DropBefore<T>(s: seq<T>, i: nat)
    requires i < |s| - 1
    ensures Drop(s, i) != [] && Drop(s, i)[|s| - 2] == s[|s| - 1] && Drop(s, i)[..|s| - 2] == Drop(s[..|s| - 1], i)
  {
  }

  lemma LastApart<T>(s: seq<T>, n: nat)
    requires |s| == n + 1
    ensures s == s[..n] + [s[n]]
  {
  }

  lemma {:induction false} DropPart(parts: seq<Part>, i: nat)
    requires i < |parts|
    ensures Sum(Drop(parts, i)) == Sum(parts) - parts[i].usd
  {
    var n := |parts| - 1;
    if i == n {
      assert Drop(parts, i) == parts[..n];
    } else {
      DropPart(parts[..n], i);
      DropBefore(parts, i);
    }
  }

  lemma {:induction false} DropWeight(weights: seq<Weight>, i: nat)
    requires i < |weights|
    ensures Whole(Drop(weights, i)) == Whole(weights) - weights[i].n
  {
    var n := |weights| - 1;
    if i == n {
      assert Drop(weights, i) == weights[..n];
    } else {
      DropWeight(weights[..n], i);
      DropBefore(weights, i);
    }
  }

  // -- The cluster's bill ----------------------------------------------------------------

  /** The shares add up to the total whenever there is anything to weigh. */
  lemma SharesAddUp(total: int, weights: seq<Weight>)
    ensures Sum(Shares(total, weights)) == if Positive(weights) == [] then 0 else total
  {
    var positive := Positive(weights);
    if positive != [] {
      WholeIsPositive(positive);
      SettledAddsUp(Rounded(total, positive, Whole(positive)), LargestIn(positive), total);
    }
  }

  lemma SettledValue(parts: seq<Part>, at: nat, total: int)
    requires at < |parts|
    ensures Settle(parts, at, total)[at].usd == total - Sum(Drop(parts, at))
  {
    DropPart(parts, at);
  }

  /** What is settled on one part is as far off as all the others together. */
  lemma SettledIsNear(total: int, weights: seq<Weight>, whole: nat, at: nat)
    requires whole > 0 && whole == Whole(weights) && at < |weights|
    ensures Near(Settle(Rounded(total, weights, whole), at, total)[at].usd, total, weights[at].n, whole, |weights| - 1)
  {
    var parts, others := Rounded(total, weights, whole), Drop(weights, at);
    SettledValue(parts, at, total);
    DropWeight(weights, at);
    RoundedDrops(total, weights, whole, at);
    RoundedSum(total, others, whole);
    RestIsNear(Sum(Drop(parts, at)), Whole(others), |weights| - 1, total, whole, Settle(parts, at, total)[at].usd, weights[at].n);
  }

  /** What a share is: its rounded part, or what is settled on the largest. */
  lemma ShareAt(total: int, weights: seq<Weight>, i: nat)
    requires i < |Positive(weights)|
    ensures Whole(Positive(weights)) > 0
    ensures var p := Positive(weights);
      && |Shares(total, weights)| == |p| && Shares(total, weights)[i].key == p[i].key
      && Shares(total, weights)[i].usd
         == if i == LargestIn(p) then Settle(Rounded(total, p, Whole(p)), i, total)[i].usd else HalfEven(total * p[i].n, Whole(p))
  {
    WholeIsPositive(Positive(weights));
    RoundedAt(total, Positive(weights), Whole(Positive(weights)), i);
  }

  /** Each share is within half a unit of its exact value, and the largest within half a unit for each of the others. */
  lemma SharesAreNear(total: int, weights: seq<Weight>, i: nat)
    requires i < |Positive(weights)|
    ensures var p := Positive(weights);
      && |Shares(total, weights)| == |p| && Shares(total, weights)[i].key == p[i].key
      && Near(Shares(total, weights)[i].usd, total, p[i].n, Whole(p), if i == LargestIn(p) then |p| - 1 else 1)
  {
    ShareAt(total, weights, i);
    var p := Positive(weights);
    if i == LargestIn(p) {
      SettledIsNear(total, p, Whole(p), i);
    } else {
      HalfEvenNear(total, p[i].n, Whole(p));
    }
  }

  /** No share is negative once the total is at least `n(n - 1) / 2` units. */
  lemma SharesAreNotNegative(total: nat, weights: seq<Weight>, i: nat)
    requires i < |Positive(weights)| && 2 * total >= |Positive(weights)| * (|Positive(weights)| - 1)
    ensures |Shares(total, weights)| == |Positive(weights)| && Shares(total, weights)[i].usd >= 0
  {
    var p := Positive(weights);
    WholeIsPositive(p);
    SharesAreNear(total, weights, i);
    if i == LargestIn(p) {
      LargestIsEnough(total, p, Shares(total, weights)[i].usd);
    } else {
      HalfOffIsNotNegative(total, p[i].n, Whole(p), Shares(total, weights)[i].usd);
    }
  }

  lemma LargestIsEnough(total: nat, weights: seq<Weight>, share: int)
    requires weights != [] && Whole(weights) > 0 && 2 * total >= |weights| * (|weights| - 1)
    requires weights[LargestIn(weights)].n >= 0
    requires Near(share, total, weights[LargestIn(weights)].n, Whole(weights), |weights| - 1)
    ensures share >= 0
  {
    LargestIsMean(weights);
    LargeEnough(total, weights[LargestIn(weights)].n, Whole(weights), |weights|, share);
  }

  lemma HalfOffIsNotNegative(total: nat, weight: nat, whole: nat, share: int)
    requires whole > 0 && Near(share, total, weight, whole, 1)
    ensures share >= 0
  {
    NonNegative(total, weight);
    if share < 0 { MulMonotone(whole, share, -1); }
  }

  lemma NonNegative(a: nat, b: nat)
    ensures a * b >= 0
  {
  }

  lemma {:induction false} AtMostMax(weights: seq<Weight>, max: int)
    requires forall i :: 0 <= i < |weights| ==> weights[i].n <= max
    ensures Whole(weights) <= |weights| * max
  {
    if weights != [] {
      AtMostMax(weights[..|weights| - 1], max);
      MulAdd(max, |weights| - 1, 1);
    }
  }

  lemma LargestIsMean(weights: seq<Weight>)
    requires weights != []
    ensures Whole(weights) <= |weights| * weights[LargestIn(weights)].n
  {
    forall i | 0 <= i < |weights| ensures weights[i].n <= weights[LargestIn(weights)].n {
      LargestIsFirst(weights, i);
    }
    AtMostMax(weights, weights[LargestIn(weights)].n);
  }

  /** A share near enough to at least the mean. */
  lemma LargeEnough(total: nat, weight: nat, whole: nat, n: nat, share: int)
    requires whole > 0 && n > 0 && whole <= n * weight && 2 * total >= n * (n - 1)
    requires Near(share, total, weight, whole, n - 1)
    ensures share >= 0
  {
    calc {
      n * (2 * (total * weight));
    == { Regroup(n, total, weight); }
      (2 * total) * (n * weight);
    >= { MulMonotone(2 * total, whole, n * weight); }
      (2 * total) * whole;
    >= { MulMonotone(whole, n * (n - 1), 2 * total); }
      (n * (n - 1)) * whole;
    == { Associate(n, n - 1, whole); }
      n * ((n - 1) * whole);
    }
    Cancel(n, (n - 1) * whole, 2 * (total * weight));
    if share < 0 { MulMonotone(whole, share, -1); }
  }

  lemma Regroup(a: int, b: int, c: int)
    ensures a * (2 * (b * c)) == (2 * b) * (a * c)
  {
    assert (2 * b) * (a * c) == 2 * (b * (a * c));
    assert b * (a * c) == a * (b * c);
  }

  lemma Associate(a: int, b: int, c: int)
    ensures (a * b) * c == a * (b * c)
  {
  }

  lemma MulMonotone(a: nat, b: int, c: int)
    requires b <= c
    ensures a * b <= a * c
  {
    MulAdd(a, b, c - b);
    assert a * (c - b) >= 0;
  }

  lemma Cancel(a: nat, b: int, c: int)
    requires a > 0 && a * b <= a * c
    ensures b <= c
  {
    if b > c { MulMonotone(a, c + 1, b); MulAdd(a, c, 1); }
  }

  /** Things that weigh the same. */
  ghost predicate Equal(weights: seq<Weight>, w: nat) {
    w > 0 && forall i :: 0 <= i < |weights| ==> weights[i].n == w
  }

  lemma {:induction false} EqualWeights(weights: seq<Weight>, w: nat)
    requires Equal(weights, w)
    ensures Positive(weights) == weights && Whole(weights) == w * |weights|
  {
    if weights != [] {
      var n := |weights| - 1;
      EqualWeights(weights[..n], w);
      MulAdd(w, n, 1);
      assert weights[..n] + [weights[n]] == weights;
    }
  }

  lemma SumOfMore(parts: seq<Part>, p: Part)
    ensures Sum(parts + [p]) == Sum(parts) + p.usd
  {
    assert (parts + [p])[..|parts|] == parts;
  }

  /** So many times the same. */
  function Repeated(n: nat, each: int): int {
    if n == 0 then 0 else Repeated(n - 1, each) + each
  }

  lemma {:induction false} RepeatedIs(n: nat, each: int)
    ensures Repeated(n, each) == each * n
  {
    if n > 0 {
      RepeatedIs(n - 1, each);
      MulAdd(each, n - 1, 1);
    }
  }

  lemma {:induction false} EqualRounded(total: int, weights: seq<Weight>, w: nat, whole: nat, each: int)
    requires whole > 0 && Equal(weights, w) && HalfEven(total * w, whole) == each
    ensures Sum(Rounded(total, weights, whole)) == Repeated(|weights|, each)
    ensures forall i :: 0 <= i < |weights| ==> Rounded(total, weights, whole)[i].usd == each
  {
    if weights != [] {
      var n := |weights| - 1;
      EqualRounded(total, weights[..n], w, whole, each);
      SumOfMore(Rounded(total, weights[..n], whole), Part(weights[n].key, each));
    }
  }

  /** The rest of a division by `n` rounds up: it is more than half, or half of an odd quotient. */
  predicate Up(q: nat, n: nat, t: nat) {
    2 * t > n || (2 * t == n && q % 2 == 1)
  }

  lemma Scales(q: nat, n: nat, t: nat, w: nat)
    requires t < n && w > 0
    ensures w * n > 0 && t * w < w * n && (q * n + t) * w == q * (w * n) + t * w
    ensures (2 * t < n <==> 2 * (t * w) < w * n) && (2 * t == n <==> 2 * (t * w) == w * n)
  {
    MulAdd(w, q * n, t);
    Associate(q, n, w);
    assert n * w == w * n && t * w == w * t && (q * n + t) * w == w * (q * n + t);
    Ordered(w, t, n);
    Ordered(w, 2 * t, n);
    assert w * (2 * t) == 2 * (w * t);
    Ordered(w, 0, n);
  }

  lemma Ordered(w: nat, a: int, b: int)
    requires w > 0
    ensures (a < b <==> w * a < w * b) && (a == b <==> w * a == w * b)
  {
    if a < b { MulMonotone(w, a + 1, b); MulAdd(w, a, 1); }
    if b < a { MulMonotone(w, b + 1, a); MulAdd(w, b, 1); }
  }

  lemma RoundsTo(q: nat, n: nat, t: nat, w: nat)
    requires t < n && w > 0
    ensures w * n > 0 && HalfEven((q * n + t) * w, w * n) == if Up(q, n, t) then q + 1 else q
  {
    Scales(q, n, t, w);
    DivUnique((q * n + t) * w, w * n, q, t * w);
  }

  lemma DivUnique(x: int, n: nat, q: int, r: nat)
    requires r < n && x == q * n + r
    ensures x / n == q && x % n == r
  {
    assert x == n * (x / n) + x % n;
    if x / n < q {
      MulMonotone(n, x / n + 1, q);
      MulAdd(n, x / n, 1);
    } else if x / n > q {
      MulMonotone(n, q + 1, x / n);
      MulAdd(n, q, 1);
    }
  }

  lemma EqualShared(weights: seq<Weight>, w: nat, total: int, whole: nat)
    requires Equal(weights, w) && weights != [] && whole == w * |weights| && whole > 0
    ensures Shares(total, weights) == Settle(Rounded(total, weights, whole), LargestIn(weights), total)
  {
    EqualWeights(weights, w);
  }

  lemma SettledParts(parts: seq<Part>, at: nat, total: int, each: int)
    requires at < |parts| && forall i :: 0 <= i < |parts| ==> parts[i].usd == each
    ensures Settle(parts, at, total)[at].usd == each + (total - Sum(parts))
    ensures forall i :: 0 <= i < |parts| && i != at ==> Settle(parts, at, total)[i].usd == each
  {
  }

  /** Equal weights round to the same, and the largest takes what is left over. */
  lemma AllRoundTo(weights: seq<Weight>, w: nat, total: int, whole: nat, each: int)
    requires Equal(weights, w) && weights != [] && whole == w * |weights| && whole > 0
    requires HalfEven(total * w, whole) == each
    ensures var shares := Shares(total, weights);
      && |shares| == |weights|
      && shares[LargestIn(weights)].usd == each + (total - Repeated(|weights|, each))
      && forall i :: 0 <= i < |weights| && i != LargestIn(weights) ==> shares[i].usd == each
  {
    EqualRounded(total, weights, w, whole, each);
    EqualShared(weights, w, total, whole);
    SettledParts(Rounded(total, weights, whole), LargestIn(weights), total, each);
  }

  /** What `n` equal weights make of `q` units each and `t` over. */
  lemma EqualShares(weights: seq<Weight>, w: nat, q: nat, t: nat)
    requires Equal(weights, w) && t < |weights|
    ensures var n := |weights|; var shares := Shares(q * n + t, weights);
      && |shares| == n
      && shares[LargestIn(weights)].usd == (if Up(q, n, t) then q + 1 + t - n else q + t)
      && forall i :: 0 <= i < n && i != LargestIn(weights) ==> shares[i].usd >= q
  {
    var n := |weights|;
    var each := if Up(q, n, t) then q + 1 else q;
    RoundsTo(q, n, t, w);
    AllRoundTo(weights, w, q * n + t, w * n, each);
    LeftForTheLargest(n, q, t, each);
  }

  lemma LeftForTheLargest(n: nat, q: nat, t: nat, each: int)
    requires each == q || each == q + 1
    ensures each + (q * n + t - Repeated(n, each)) == if each == q then q + t else q + 1 + t - n
  {
    RepeatedIs(n, each);
    MulAdd(n, q, 1);
  }

  /** Below that a share can come out negative: of equal weights some share is, the largest's, exactly when what is over
      rounds up and is short of `n` by more than `q + 1`. */
  lemma NegativeExactlyWhenRoundedUp(weights: seq<Weight>, w: nat, q: nat, t: nat)
    requires Equal(weights, w) && t < |weights|
    ensures var n := |weights|; var shares := Shares(q * n + t, weights);
      && |shares| == n
      && (shares[LargestIn(weights)].usd < 0 <==> Up(q, n, t) && q + 1 + t < n)
      && ((exists i :: 0 <= i < n && shares[i].usd < 0) <==> Up(q, n, t) && q + 1 + t < n)
  {
    EqualShares(weights, w, q, t);
  }

  // -- A refresh's viewers ---------------------------------------------------------------

  lemma SplitsAddUp(usd: int, weights: seq<Weight>)
    requires weights != [] && Whole(weights) > 0
    ensures Sum(Splits(usd, weights)) == usd
  {
    SettledAddsUp(Cut(usd, weights, Whole(weights)), LargestIn(weights), usd);
  }

  lemma {:induction false} CutIs(usd: int, weights: seq<Weight>, whole: nat, i: nat)
    requires whole > 0 && i < |weights|
    ensures Cut(usd, weights, whole)[i] == Part(weights[i].key, Down(usd * weights[i].n, whole))
  {
    if i < |weights| - 1 { CutIs(usd, weights[..|weights| - 1], whole, i); }
  }

  /** A part is cut below its exact value by less than so many units. */
  predicate CutOff(part: int, usd: int, weight: int, whole: int, units: int) {
    whole * part <= usd * weight <= whole * part + units * (whole - 1)
  }

  lemma CutOffAdds(p: int, w: int, u: int, p': int, w': int, u': int, usd: int, whole: int)
    requires CutOff(p, usd, w, whole, u) && CutOff(p', usd, w', whole, u')
    ensures CutOff(p + p', usd, w + w', whole, u + u')
  {
    MulAdd(whole, p, p');
    MulAdd(usd, w, w');
    MulAdd(whole - 1, u, u');
    assert (u + u') * (whole - 1) == (whole - 1) * (u + u');
    assert u * (whole - 1) == (whole - 1) * u && u' * (whole - 1) == (whole - 1) * u';
  }

  lemma DownCutsOff(usd: nat, weight: nat, whole: nat)
    requires whole > 0
    ensures CutOff(Down(usd * weight, whole), usd, weight, whole, 1)
  {
    NonNegative(usd, weight);
    DownTruncates(usd * weight, whole);
  }

  lemma {:induction false} CutSum(usd: nat, weights: seq<Weight>, whole: nat)
    requires whole > 0 && forall i :: 0 <= i < |weights| ==> weights[i].n >= 0
    ensures CutOff(Sum(Cut(usd, weights, whole)), usd, Whole(weights), whole, |weights|)
  {
    if weights != [] {
      var n := |weights| - 1;
      CutSum(usd, weights[..n], whole);
      DownCutsOff(usd, weights[n].n, whole);
      var cut := Cut(usd, weights, whole);
      assert cut[..n] == Cut(usd, weights[..n], whole);
      CutOffAdds(Sum(cut[..n]), Whole(weights[..n]), n, cut[n].usd, weights[n].n, 1, usd, whole);
    }
  }

  lemma LessThanAUnitEach(sum: int, usd: nat, whole: nat, n: nat)
    requires whole > 0 && n > 0 && CutOff(sum, usd, whole, whole, n)
    ensures 0 <= usd - sum < n
  {
    assert usd * whole == whole * usd;
    Cancel(whole, sum, usd);
    MulAdd(whole, sum, usd - sum);
    MulAdd(n, whole - 1, 1);
    assert n * whole == whole * n;
    if usd - sum >= n { MulMonotone(whole, n, usd - sum); }
  }

  /** What is left over is less than a unit for each team. */
  lemma RemainderIsSmall(usd: nat, weights: seq<Weight>)
    requires Viewed(weights)
    ensures Whole(weights) > 0 && 0 <= usd - Sum(Cut(usd, weights, Whole(weights))) < |weights|
  {
    WholeIsPositive(weights);
    CutSum(usd, weights, Whole(weights));
    LessThanAUnitEach(Sum(Cut(usd, weights, Whole(weights))), usd, Whole(weights), |weights|);
  }

  /** Cut parts are not negative, and fewer views never make a larger one. */
  lemma CutsInOrder(usd: nat, weights: seq<Weight>, whole: nat, i: nat, j: nat)
    requires whole > 0 && i < |weights| && j < |weights| && 0 < weights[i].n < weights[j].n
    ensures 0 <= Cut(usd, weights, whole)[i].usd <= Cut(usd, weights, whole)[j].usd
  {
    CutIs(usd, weights, whole, i);
    CutIs(usd, weights, whole, j);
    NonNegative(usd, weights[i].n);
    NonNegative(usd, weights[j].n);
    MulMonotone(usd, weights[i].n, weights[j].n);
    DownIsNotNegative(usd * weights[i].n, whole);
    DownIsMonotone(usd * weights[i].n, usd * weights[j].n, whole);
  }

  lemma CutIsNotNegative(usd: nat, weights: seq<Weight>, whole: nat, i: nat)
    requires whole > 0 && i < |weights| && 0 < weights[i].n
    ensures 0 <= Cut(usd, weights, whole)[i].usd && Cut(usd, weights, whole)[i].key == weights[i].key
  {
    CutIs(usd, weights, whole, i);
    NonNegative(usd, weights[i].n);
    DownIsNotNegative(usd * weights[i].n, whole);
  }

  /** Nobody pays a negative part, and fewer views never pay more. */
  lemma FewerViewsNeverPayMore(usd: nat, weights: seq<Weight>, i: nat, j: nat)
    requires Viewed(weights) && i < |weights| && j < |weights|
    ensures Whole(weights) > 0 && |Splits(usd, weights)| == |weights|
    ensures Splits(usd, weights)[i].key == weights[i].key && Splits(usd, weights)[i].usd >= 0
    ensures weights[i].n < weights[j].n ==> Splits(usd, weights)[i].usd <= Splits(usd, weights)[j].usd
  {
    RemainderIsSmall(usd, weights);
    CutIsNotNegative(usd, weights, Whole(weights), i);
    assert Whole(weights) > 0;
    if weights[i].n < weights[j].n {
      CutsInOrder(usd, weights, Whole(weights), i, j);
      LargestIsFirst(weights, j);
    }
  }

  lemma DownIsNotNegative(a: nat, b: nat)
    requires b > 0
    ensures Down(a, b) >= 0
  {
  }

  lemma DownIsMonotone(a: nat, c: nat, b: nat)
    requires b > 0 && a <= c
    ensures Down(a, b) <= Down(c, b)
  {
    DownTruncates(a, b);
    DownTruncates(c, b);
    if Down(a, b) > Down(c, b) {
      MulMonotone(b, Down(c, b) + 1, Down(a, b));
      MulAdd(b, Down(c, b), 1);
    }
  }
}
