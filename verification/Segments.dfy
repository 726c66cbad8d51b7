/** Rows, the segments their keys' hashes put them in, and the additive summaries of a segment. */
module Segments {
  import opened Ids

  const MAX_DEPTH := 8

  /** The first 32 bits of a key's MD5, as eight hex digits. */
  type Digits = d: seq<nat> | |d| == 8 && (forall i :: 0 <= i < 8 ==> d[i] < 16) witness [0, 0, 0, 0, 0, 0, 0, 0]

  /** The keys whose hash starts with some digits. */
  type Segment = seq<nat>

  /** One row as both engines render it: its canonical key and its canonical values. */
  datatype Row = Row(key: string, values: seq<string>)

  /** 32 bits of a key's MD5, and 32 bits twice of a row's; nothing else is known of them. */
  datatype Hashing = Hashing(bucket: string -> Digits, h1: Row -> nat, h2: Row -> nat)

  /** The segment a key falls in at a depth: its first digits. */
  function SegmentAt(bucket: Digits, depth: nat): Segment
    requires depth <= MAX_DEPTH
  {
    bucket[..depth]
  }

  /** Every segment is split in sixteen by one more digit. */
  function Parent(segment: Segment): Segment {
    if segment == [] then [] else segment[..|segment| - 1]
  }

  lemma ParentSegment(bucket: Digits, depth: nat)
    requires depth < MAX_DEPTH
    ensures Parent(SegmentAt(bucket, depth + 1)) == SegmentAt(bucket, depth)
  {
    assert bucket[..depth + 1][..depth] == bucket[..depth];
  }

  // -- Segments as the queries number them -------------------------------------------------

  function Pow16(n: nat): (p: nat)
    ensures p >= 1
  {
    if n == 0 then 1 else 16 * Pow16(n - 1)
  }

  /** The number some hex digits write. */
  function HexValue(digits: seq<nat>): nat {
    if digits == [] then 0 else 16 * HexValue(digits[..|digits| - 1]) + digits[|digits| - 1]
  }

  /** The first digits write the bucket shifted right: `bucket >> (32 - 4 * depth)`. */
  lemma {:induction false} SegmentIsShift(bucket: Digits, depth: nat)
    requires depth <= MAX_DEPTH
    ensures HexValue(SegmentAt(bucket, depth)) == HexValue(bucket) / Pow16(MAX_DEPTH - depth)
    decreases MAX_DEPTH - depth
  {
    if depth == MAX_DEPTH {
      assert bucket[..depth] == bucket;
    } else {
      SegmentIsShift(bucket, depth + 1);
      ParentSegment(bucket, depth);
      var p, child := Pow16(MAX_DEPTH - depth - 1), SegmentAt(bucket, depth + 1);
      assert HexValue(child) / 16 == HexValue(Parent(child)) by { assert child[depth] < 16; }
      DivDiv(HexValue(bucket), p, 16);
    }
  }

  /** And no two segments of a depth have the same number. */
  lemma {:induction false} NumbersTellSegments(a: Segment, b: Segment)
    requires |a| == |b| && (forall i :: 0 <= i < |a| ==> a[i] < 16 && b[i] < 16)
    requires HexValue(a) == HexValue(b)
    ensures a == b
  {
    if a != [] {
      var n := |a| - 1;
      NumbersTellSegments(a[..n], b[..n]);
      assert a == a[..n] + [a[n]] && b == b[..n] + [b[n]];
    }
  }

  lemma DivDiv(x: nat, p: nat, q: nat)
    requires p > 0 && q > 0
    ensures p * q > 0 && (x / p) / q == x / (p * q) && q * p == p * q
  {
    var a := x / p;
    var b := a / q;
    var r := x % p + p * (a % q);
    assert x == p * a + x % p;
    assert a == q * b + a % q;
    assert p * a == p * (q * b) + p * (a % q);
    assert p * (q * b) == (p * q) * b by { Associate(p, q, b); }
    assert x == (p * q) * b + r;
    assert p * (a % q) <= p * (q - 1) by { Monotone(p, a % q, q - 1); }
    assert p * (q - 1) == p * q - p;
    assert 0 <= r < p * q;
    DivUnique(x, p * q, b, r);
  }

  lemma Associate(a: int, b: int, c: int)
    ensures a * (b * c) == (a * b) * c
  {
  }

  lemma Monotone(p: nat, a: int, b: int)
    requires a <= b
    ensures p * a <= p * b
  {
  }

  lemma DivUnique(x: int, n: int, q: int, r: int)
    requires n > 0 && x == n * q + r && 0 <= r < n
    ensures x / n == q
  {
    var q' := x / n;
    if q' < q { Monotone(n, q', q - 1); }
    if q' > q { Monotone(n, q + 1, q'); }
  }

  // -- Summaries -----------------------------------------------------------------------

  datatype Summary = Summary(rows: nat, h1: nat, h2: nat) {
    function Plus(other: Summary): Summary {
      Summary(rows + other.rows, h1 + other.h1, h2 + other.h2)
    }
  }
}
