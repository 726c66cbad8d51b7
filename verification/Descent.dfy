/** The hash-tree descent: which segments it splits, what it may leave out, and what it costs. */
module Descent {
  import opened Segments

  /** What either engine keeps of a row to summarise it. */
  datatype Hashed = Hashed(bucket: Digits, h1: nat, h2: nat)

  function SegmentsOf(side: seq<Hashed>, d: nat): set<Segment>
    requires d <= MAX_DEPTH
  {
    if side == [] then {} else SegmentsOf(side[..|side| - 1], d) + {SegmentAt(side[|side| - 1].bucket, d)}
  }

  lemma {:induction false} RowIsInSegment(side: seq<Hashed>, d: nat, r: Hashed)
    requires d <= MAX_DEPTH && r in side
    ensures SegmentAt(r.bucket, d) in SegmentsOf(side, d)
  {
    var n := |side| - 1;
    assert side == side[..n] + [side[n]];
    if r != side[n] { RowIsInSegment(side[..n], d, r); }
  }

  lemma {:induction false} SegmentHasRow(side: seq<Hashed>, d: nat, b: Segment) returns (r: Hashed)
    requires d <= MAX_DEPTH && b in SegmentsOf(side, d)
    ensures r in side && SegmentAt(r.bucket, d) == b
  {
    var n := |side| - 1;
    if b in SegmentsOf(side[..n], d) {
      r := SegmentHasRow(side[..n], d, b);
    } else {
      r := side[n];
    }
  }

  /** `count(*), sum(h1), sum(h2)` of the rows of some segments. */
  function SummaryOf(side: seq<Hashed>, d: nat, from: set<Segment>): Summary
    requires d <= MAX_DEPTH
  {
    if side == [] then Summary(0, 0, 0)
    else
      var rest, last := SummaryOf(side[..|side| - 1], d, from), side[|side| - 1];
      if SegmentAt(last.bucket, d) in from then rest.Plus(Summary(1, last.h1, last.h2)) else rest
  }

  /** The segments a query at depth `d` groups by: all of them at depth 1, then only those of the parents. */
  function Asked(side: seq<Hashed>, d: nat, parents: set<Segment>): set<Segment>
    requires 1 <= d <= MAX_DEPTH
  {
    if side == [] then {}
    else
      var rest, b := Asked(side[..|side| - 1], d, parents), SegmentAt(side[|side| - 1].bucket, d);
      if d == 1 || Parent(b) in parents then rest + {b} else rest
  }

  lemma {:induction false} AskedIs(side: seq<Hashed>, d: nat, parents: set<Segment>, b: Segment)
    requires 1 <= d <= MAX_DEPTH
    ensures b in Asked(side, d, parents) <==> b in SegmentsOf(side, d) && (d > 1 ==> Parent(b) in parents)
  {
    if side != [] { AskedIs(side[..|side| - 1], d, parents, b); }
  }

  /** `SELECT bucket >> shift, count(*), sum(h1), sum(h2) ... GROUP BY 1`. */
  function Summaries(side: seq<Hashed>, d: nat, parents: set<Segment>): map<Segment, Summary>
    requires 1 <= d <= MAX_DEPTH
  {
    map b | b in Asked(side, d, parents) :: SummaryOf(side, d, {b})
  }

  /** The segments whose summaries are not the same on both sides. */
  function Unequal(left: map<Segment, Summary>, right: map<Segment, Summary>): set<Segment> {
    set b | b in left.Keys + right.Keys && !(b in left && b in right && left[b] == right[b])
  }

  /** The segments both sides are asked about at depth `d` when the parents differ. */
  function Compared(s: seq<Hashed>, t: seq<Hashed>, d: nat, parents: set<Segment>): set<Segment>
    requires 1 <= d <= MAX_DEPTH
  {
    Asked(s, d, parents) + Asked(t, d, parents)
  }

  /** The segments of some rows that are compared and whose summaries differ. */
  function DifferingOf(rows: seq<Hashed>, s: seq<Hashed>, t: seq<Hashed>, d: nat, parents: set<Segment>): set<Segment>
    requires 1 <= d <= MAX_DEPTH
  {
    if rows == [] then {}
    else
      var rest, b := DifferingOf(rows[..|rows| - 1], s, t, d, parents), SegmentAt(rows[|rows| - 1].bucket, d);
      if (d == 1 || Parent(b) in parents) && SummaryOf(s, d, {b}) != SummaryOf(t, d, {b}) then rest + {b} else rest
  }

  /** Those compared whose summaries differ. */
  function DifferingUnder(s: seq<Hashed>, t: seq<Hashed>, d: nat, parents: set<Segment>): set<Segment>
    requires 1 <= d <= MAX_DEPTH
  {
    DifferingOf(s + t, s, t, d, parents)
  }

  lemma {:induction false} DifferingOfIs(rows: seq<Hashed>, s: seq<Hashed>, t: seq<Hashed>, d: nat, parents: set<Segment>, b: Segment)
    requires 1 <= d <= MAX_DEPTH
    ensures b in DifferingOf(rows, s, t, d, parents)
            <==> b in Asked(rows, d, parents) && SummaryOf(s, d, {b}) != SummaryOf(t, d, {b})
  {
    if rows != [] { DifferingOfIs(rows[..|rows| - 1], s, t, d, parents, b); }
  }

  lemma {:induction false} SegmentsOfBoth(s: seq<Hashed>, t: seq<Hashed>, d: nat, b: Segment)
    requires d <= MAX_DEPTH
    ensures b in SegmentsOf(s + t, d) <==> b in SegmentsOf(s, d) || b in SegmentsOf(t, d)
  {
    if t == [] {
      assert s + t == s;
    } else {
      assert (s + t)[..|s + t| - 1] == s + t[..|t| - 1];
      SegmentsOfBoth(s, t[..|t| - 1], d, b);
    }
  }

  lemma DifferingIs(s: seq<Hashed>, t: seq<Hashed>, d: nat, parents: set<Segment>, b: Segment)
    requires 1 <= d <= MAX_DEPTH
    ensures b in DifferingUnder(s, t, d, parents)
            <==> b in Compared(s, t, d, parents) && SummaryOf(s, d, {b}) != SummaryOf(t, d, {b})
  {
    DifferingOfIs(s + t, s, t, d, parents, b);
    AskedIs(s + t, d, parents, b);
    AskedIs(s, d, parents, b);
    AskedIs(t, d, parents, b);
    SegmentsOfBoth(s, t, d, b);
  }

  /** The segments the descent finds differing at depth `d`. */
  function Differing(s: seq<Hashed>, t: seq<Hashed>, d: nat): set<Segment>
    requires 1 <= d <= MAX_DEPTH
  {
    DifferingUnder(s, t, d, if d == 1 then {} else Differing(s, t, d - 1))
  }

  ghost predicate DifferAt(s: seq<Hashed>, t: seq<Hashed>, r: Hashed, e: nat)
    requires e <= MAX_DEPTH
  {
    SummaryOf(s, e, {SegmentAt(r.bucket, e)}) != SummaryOf(t, e, {SegmentAt(r.bucket, e)})
  }

  /** The two sides differ in every segment that holds a row, down to a depth. */
  ghost predicate DifferDown(s: seq<Hashed>, t: seq<Hashed>, r: Hashed, d: nat)
    requires d <= MAX_DEPTH
  {
    forall e :: 1 <= e <= d ==> DifferAt(s, t, r, e)
  }

  lemma OneDeeper(s: seq<Hashed>, t: seq<Hashed>, r: Hashed, d: nat)
    requires 1 <= d <= MAX_DEPTH
    ensures DifferDown(s, t, r, d) <==> DifferDown(s, t, r, d - 1) && DifferAt(s, t, r, d)
  {
  }

  /** A row's segment is compared exactly when its parent is gone on from, and gone on from when the sides differ in it too. */
  lemma SegmentIsCompared(s: seq<Hashed>, t: seq<Hashed>, d: nat, r: Hashed, parents: set<Segment>)
    requires 1 <= d <= MAX_DEPTH && r in s + t
    ensures SegmentAt(r.bucket, d) in Compared(s, t, d, parents) <==> d == 1 || SegmentAt(r.bucket, d - 1) in parents
    ensures SegmentAt(r.bucket, d) in DifferingUnder(s, t, d, parents)
       <==> SegmentAt(r.bucket, d) in Compared(s, t, d, parents) && DifferAt(s, t, r, d)
  {
    RowIsCompared(s, t, d, parents, r);
    DifferingIs(s, t, d, parents, SegmentAt(r.bucket, d));
    if d > 1 { ParentSegment(r.bucket, d - 1); }
  }

  /** The descent compares a row's segment exactly when the sides differ in all those above it, and goes on from it exactly when
    * they differ in it too. */
  lemma {:induction false} DescentComesTo(s: seq<Hashed>, t: seq<Hashed>, d: nat, r: Hashed)
    requires 1 <= d <= MAX_DEPTH && r in s + t
    ensures SegmentAt(r.bucket, d) in Compared(s, t, d, if d == 1 then {} else Differing(s, t, d - 1)) <==> DifferDown(s, t, r, d - 1)
    ensures SegmentAt(r.bucket, d) in Differing(s, t, d) <==> DifferDown(s, t, r, d)
    decreases d
  {
    SegmentIsCompared(s, t, d, r, if d == 1 then {} else Differing(s, t, d - 1));
    OneDeeper(s, t, r, d);
    if d > 1 { DescentComesTo(s, t, d - 1, r); }
  }

  /** The segments of a depth that hold a row and lie in segments the sides all differ in, down to another depth. */
  ghost function ReachedAt(s: seq<Hashed>, t: seq<Hashed>, d: nat, down: nat): set<Segment>
    requires down <= d <= MAX_DEPTH
  {
    set r | r in s + t && DifferDown(s, t, r, down) :: SegmentAt(r.bucket, d)
  }

  lemma HoldsSomeRow(s: seq<Hashed>, t: seq<Hashed>, d: nat, parents: set<Segment>, b: Segment) returns (r: Hashed)
    requires 1 <= d <= MAX_DEPTH && b in Compared(s, t, d, parents)
    ensures r in s + t && SegmentAt(r.bucket, d) == b
  {
    AskedIs(s, d, parents, b);
    AskedIs(t, d, parents, b);
    if b in SegmentsOf(s, d) { r := SegmentHasRow(s, d, b); } else { r := SegmentHasRow(t, d, b); }
  }

  lemma DescentReaches(s: seq<Hashed>, t: seq<Hashed>, d: nat)
    requires 1 <= d <= MAX_DEPTH
    ensures Compared(s, t, d, if d == 1 then {} else Differing(s, t, d - 1)) == ReachedAt(s, t, d, d - 1)
    ensures Differing(s, t, d) == ReachedAt(s, t, d, d)
  {
    var parents := if d == 1 then {} else Differing(s, t, d - 1);
    forall b | b in Compared(s, t, d, parents)
      ensures b in ReachedAt(s, t, d, d - 1) && (b in Differing(s, t, d) ==> b in ReachedAt(s, t, d, d))
    {
      var r := HoldsSomeRow(s, t, d, parents, b);
      DescentComesTo(s, t, d, r);
    }
    forall b | b in Differing(s, t, d) ensures b in Compared(s, t, d, parents) { DifferingIs(s, t, d, parents, b); }
    forall r | r in s + t
      ensures DifferDown(s, t, r, d - 1) ==> SegmentAt(r.bucket, d) in Compared(s, t, d, parents)
      ensures DifferDown(s, t, r, d) ==> SegmentAt(r.bucket, d) in Differing(s, t, d)
    {
      DescentComesTo(s, t, d, r);
    }
  }

  // -- What the summaries say ----------------------------------------------------------

  /** A summary is additive: what is split apart adds up. */
  lemma {:induction false} SummarySplits(side: seq<Hashed>, d: nat, a: set<Segment>, b: set<Segment>, both: set<Segment>)
    requires d <= MAX_DEPTH && a !! b && both == a + b
    ensures SummaryOf(side, d, both) == SummaryOf(side, d, a).Plus(SummaryOf(side, d, b))
  {
    if side != [] {
      SummarySplits(side[..|side| - 1], d, a, b, both);
    }
  }

  lemma {:induction false} SummaryNone(side: seq<Hashed>, d: nat)
    requires d <= MAX_DEPTH
    ensures SummaryOf(side, d, {}) == Summary(0, 0, 0)
  {
    if side != [] { SummaryNone(side[..|side| - 1], d); }
  }

  lemma {:induction false} SummaryAll(side: seq<Hashed>, d: nat, all: set<Segment>)
    requires d <= MAX_DEPTH && forall r :: r in side ==> SegmentAt(r.bucket, d) in all
    ensures SummaryOf(side, d, all).rows == |side|
  {
    if side != [] {
      assert side[|side| - 1] in side;
      SummaryAll(side[..|side| - 1], d, all);
    }
  }

  /** Two sides whose summaries agree on every part agree on the whole. */
  lemma {:induction false} AgreeOnEach(s: seq<Hashed>, t: seq<Hashed>, d: nat, parts: set<Segment>)
    requires d <= MAX_DEPTH && forall b :: b in parts ==> SummaryOf(s, d, {b}) == SummaryOf(t, d, {b})
    ensures SummaryOf(s, d, parts) == SummaryOf(t, d, parts)
    decreases |parts|
  {
    if parts == {} {
      SummaryNone(s, d);
      SummaryNone(t, d);
    } else {
      var b :| b in parts;
      var rest := parts - {b};
      AgreeOnEach(s, t, d, rest);
      assert parts == rest + {b};
      SummarySplits(s, d, rest, {b}, parts);
      SummarySplits(t, d, rest, {b}, parts);
    }
  }

  /** A segment no row of a side is in has an empty summary, and any other has rows. */
  lemma {:induction false} SummaryEmpty(side: seq<Hashed>, d: nat, b: Segment)
    requires d <= MAX_DEPTH
    ensures SummaryOf(side, d, {b}).rows == 0 <==> b !in SegmentsOf(side, d)
  {
    if side != [] { SummaryEmpty(side[..|side| - 1], d, b); }
  }

  lemma UnequalIs(s: seq<Hashed>, t: seq<Hashed>, d: nat, parents: set<Segment>, b: Segment)
    requires 1 <= d <= MAX_DEPTH
    ensures b in Unequal(Summaries(s, d, parents), Summaries(t, d, parents)) <==> b in DifferingUnder(s, t, d, parents)
  {
    DifferingIs(s, t, d, parents, b);
    AskedIs(s, d, parents, b);
    AskedIs(t, d, parents, b);
    SummaryEmpty(s, d, b);
    SummaryEmpty(t, d, b);
  }

  /** Comparing the two answers finds exactly the compared segments whose sums differ. */
  lemma UnequalAreDiffering(s: seq<Hashed>, t: seq<Hashed>, d: nat, parents: set<Segment>)
    requires 1 <= d <= MAX_DEPTH
    ensures Unequal(Summaries(s, d, parents), Summaries(t, d, parents))
            == DifferingUnder(s, t, d, parents)
  {
    forall b ensures b in Unequal(Summaries(s, d, parents), Summaries(t, d, parents)) <==> b in DifferingUnder(s, t, d, parents) {
      UnequalIs(s, t, d, parents, b);
    }
  }

  // -- One level and the next ----------------------------------------------------------

  /** The rows of the parents are the rows of their children. */
  lemma {:induction false} ChildrenCover(side: seq<Hashed>, d: nat, parents: set<Segment>, children: set<Segment>)
    requires 1 <= d < MAX_DEPTH
    requires forall r :: r in side ==> (SegmentAt(r.bucket, d) in parents <==> SegmentAt(r.bucket, d + 1) in children)
    ensures SummaryOf(side, d, parents) == SummaryOf(side, d + 1, children)
  {
    if side != [] {
      assert side[|side| - 1] in side;
      ChildrenCover(side[..|side| - 1], d, parents, children);
    }
  }

  function Children(s: seq<Hashed>, t: seq<Hashed>, d: nat, b: Segment): set<Segment>
    requires 1 <= d < MAX_DEPTH
  {
    set c | c in SegmentsOf(s, d + 1) + SegmentsOf(t, d + 1) && Parent(c) == b
  }

  lemma ChildrenOf(s: seq<Hashed>, t: seq<Hashed>, d: nat, b: Segment, r: Hashed)
    requires 1 <= d < MAX_DEPTH && (r in s || r in t)
    ensures SegmentAt(r.bucket, d) == b <==> SegmentAt(r.bucket, d + 1) in Children(s, t, d, b)
  {
    ParentSegment(r.bucket, d);
    RowIsIn(s, t, d + 1, r);
  }

  lemma RowIsIn(s: seq<Hashed>, t: seq<Hashed>, d: nat, r: Hashed)
    requires d <= MAX_DEPTH && (r in s || r in t)
    ensures SegmentAt(r.bucket, d) in SegmentsOf(s, d) + SegmentsOf(t, d)
  {
    if r in s { RowIsInSegment(s, d, r); } else { RowIsInSegment(t, d, r); }
  }

  /** Child summaries add up to their parent's: segments equal child by child are equal. */
  lemma EqualChildrenEqualParent(s: seq<Hashed>, t: seq<Hashed>, d: nat, b: Segment)
    requires 1 <= d < MAX_DEPTH
    requires forall c :: c in Children(s, t, d, b) ==> SummaryOf(s, d + 1, {c}) == SummaryOf(t, d + 1, {c})
    ensures SummaryOf(s, d, {b}) == SummaryOf(t, d, {b})
  {
    var children := Children(s, t, d, b);
    var parent := {b};
    forall r | r in s || r in t ensures SegmentAt(r.bucket, d) in parent <==> SegmentAt(r.bucket, d + 1) in children {
      ChildrenOf(s, t, d, b, r);
    }
    ChildrenCover(s, d, parent, children);
    ChildrenCover(t, d, parent, children);
    AgreeOnEach(s, t, d + 1, children);
  }

  lemma DiffersItself(s: seq<Hashed>, t: seq<Hashed>, d: nat, b: Segment)
    requires 1 <= d <= MAX_DEPTH && b in Differing(s, t, d)
    ensures SummaryOf(s, d, {b}) != SummaryOf(t, d, {b})
  {
    DifferingIs(s, t, d, if d == 1 then {} else Differing(s, t, d - 1), b);
  }

  lemma ChildDiffers(s: seq<Hashed>, t: seq<Hashed>, d: nat, b: Segment, c: Segment)
    requires 1 <= d < MAX_DEPTH && b in Differing(s, t, d) && c in Children(s, t, d, b)
    requires SummaryOf(s, d + 1, {c}) != SummaryOf(t, d + 1, {c})
    ensures c in Differing(s, t, d + 1)
  {
    DifferingIs(s, t, d + 1, Differing(s, t, d), c);
    AskedIs(s, d + 1, Differing(s, t, d), c);
    AskedIs(t, d + 1, Differing(s, t, d), c);
  }

  /** So a differing segment always has a differing child. */
  lemma DifferingChild(s: seq<Hashed>, t: seq<Hashed>, d: nat, b: Segment) returns (c: Segment)
    requires 1 <= d < MAX_DEPTH && b in Differing(s, t, d)
    ensures c in Differing(s, t, d + 1) && Parent(c) == b
  {
    DiffersItself(s, t, d, b);
    if forall c :: c in Children(s, t, d, b) ==> SummaryOf(s, d + 1, {c}) == SummaryOf(t, d + 1, {c}) {
      EqualChildrenEqualParent(s, t, d, b);
      assert false;
    }
    c :| c in Children(s, t, d, b) && SummaryOf(s, d + 1, {c}) != SummaryOf(t, d + 1, {c});
    ChildDiffers(s, t, d, b, c);
  }

  /** And the descent stops early at depth 1 or not at all: below a differing segment there is one at every depth. */
  lemma {:induction false} DescentGoesDown(s: seq<Hashed>, t: seq<Hashed>, top: Segment, d: nat, leaf: nat) returns (b: Segment)
    requires 1 <= d <= leaf <= MAX_DEPTH && top in Differing(s, t, d)
    ensures b in Differing(s, t, leaf)
    decreases leaf - d
  {
    if d == leaf {
      b := top;
    } else {
      var child := DifferingChild(s, t, d, top);
      b := DescentGoesDown(s, t, child, d + 1, leaf);
    }
  }

  function RowsIn(side: seq<Hashed>, d: nat, from: set<Segment>): nat
    requires d <= MAX_DEPTH
  {
    SummaryOf(side, d, from).rows
  }

  /** What a level does not split holds as many rows on one side as on the other. */
  lemma LevelBalances(s: seq<Hashed>, t: seq<Hashed>, d: nat, all: set<Segment>, differing: set<Segment>)
    requires 1 <= d <= MAX_DEPTH && differing <= all
    requires forall b :: b in all - differing ==> SummaryOf(s, d, {b}) == SummaryOf(t, d, {b})
    ensures RowsIn(t, d, all) - RowsIn(s, d, all) == RowsIn(t, d, differing) - RowsIn(s, d, differing)
  {
    var same := all - differing;
    AgreeOnEach(s, t, d, same);
    assert all == differing + same;
    SummarySplits(s, d, differing, same, all);
    SummarySplits(t, d, differing, same, all);
  }

  /** What is compared and does not differ has equal summaries. */
  lemma SameUnder(s: seq<Hashed>, t: seq<Hashed>, d: nat, parents: set<Segment>)
    requires 1 <= d <= MAX_DEPTH
    ensures var all, differing := Compared(s, t, d, parents), DifferingUnder(s, t, d, parents);
      differing <= all && forall b :: b in all - differing ==> SummaryOf(s, d, {b}) == SummaryOf(t, d, {b})
  {
    forall b ensures b in DifferingUnder(s, t, d, parents)
                     <==> b in Compared(s, t, d, parents) && SummaryOf(s, d, {b}) != SummaryOf(t, d, {b}) {
      DifferingIs(s, t, d, parents, b);
    }
  }

  lemma RowIsCompared(s: seq<Hashed>, t: seq<Hashed>, d: nat, parents: set<Segment>, r: Hashed)
    requires 1 <= d <= MAX_DEPTH && (r in s || r in t)
    ensures SegmentAt(r.bucket, d) in Compared(s, t, d, parents) <==> d == 1 || Parent(SegmentAt(r.bucket, d)) in parents
  {
    RowIsIn(s, t, d, r);
    AskedIs(s, d, parents, SegmentAt(r.bucket, d));
    AskedIs(t, d, parents, SegmentAt(r.bucket, d));
  }

  lemma LevelKeeps(s: seq<Hashed>, t: seq<Hashed>, d: nat, parents: set<Segment>)
    requires 1 <= d <= MAX_DEPTH
    ensures var all, differing := Compared(s, t, d, parents), DifferingUnder(s, t, d, parents);
      RowsIn(t, d, all) - RowsIn(s, d, all) == RowsIn(t, d, differing) - RowsIn(s, d, differing)
  {
    SameUnder(s, t, d, parents);
    LevelBalances(s, t, d, Compared(s, t, d, parents), DifferingUnder(s, t, d, parents));
  }

  lemma TopKeepsTheRowDifference(s: seq<Hashed>, t: seq<Hashed>)
    ensures RowsIn(t, 1, DifferingUnder(s, t, 1, {})) - RowsIn(s, 1, DifferingUnder(s, t, 1, {})) == |t| - |s|
  {
    var all := Compared(s, t, 1, {});
    forall r | r in s || r in t ensures SegmentAt(r.bucket, 1) in all { RowIsCompared(s, t, 1, {}, r); }
    SummaryAll(s, 1, all);
    SummaryAll(t, 1, all);
    LevelKeeps(s, t, 1, {});
  }

  /** The children compared hold exactly the rows of their parents. */
  lemma ComparedHoldTheRows(s: seq<Hashed>, t: seq<Hashed>, d: nat, parents: set<Segment>)
    requires 1 <= d < MAX_DEPTH
    ensures RowsIn(s, d, parents) == RowsIn(s, d + 1, Compared(s, t, d + 1, parents))
    ensures RowsIn(t, d, parents) == RowsIn(t, d + 1, Compared(s, t, d + 1, parents))
  {
    var all := Compared(s, t, d + 1, parents);
    forall r | r in s || r in t ensures SegmentAt(r.bucket, d) in parents <==> SegmentAt(r.bucket, d + 1) in all {
      ParentSegment(r.bucket, d);
      RowIsCompared(s, t, d + 1, parents, r);
    }
    ChildrenCover(s, d, parents, all);
    ChildrenCover(t, d, parents, all);
  }

  lemma LevelKeepsTheRowDifference(s: seq<Hashed>, t: seq<Hashed>, d: nat, parents: set<Segment>)
    requires 1 <= d < MAX_DEPTH
    ensures RowsIn(t, d + 1, DifferingUnder(s, t, d + 1, parents)) - RowsIn(s, d + 1, DifferingUnder(s, t, d + 1, parents))
         == RowsIn(t, d, parents) - RowsIn(s, d, parents)
  {
    ComparedHoldTheRows(s, t, d, parents);
    LevelKeeps(s, t, d + 1, parents);
  }

  /** Whatever the hashes do, the difference in rows is all in the segments the descent keeps. */
  lemma {:induction false} DescentKeepsTheRowDifference(s: seq<Hashed>, t: seq<Hashed>, d: nat)
    requires 1 <= d <= MAX_DEPTH
    ensures RowsIn(t, d, Differing(s, t, d)) - RowsIn(s, d, Differing(s, t, d)) == |t| - |s|
    decreases d
  {
    if d == 1 {
      TopKeepsTheRowDifference(s, t);
    } else {
      DescentKeepsTheRowDifference(s, t, d - 1);
      LevelKeepsTheRowDifference(s, t, d - 1, Differing(s, t, d - 1));
    }
  }

  lemma LeftOutHere(s: seq<Hashed>, t: seq<Hashed>, d: nat, parents: set<Segment>, r: Hashed)
    requires 1 <= d <= MAX_DEPTH && (r in s || r in t) && (d == 1 || Parent(SegmentAt(r.bucket, d)) in parents)
    requires SegmentAt(r.bucket, d) !in DifferingUnder(s, t, d, parents)
    ensures SummaryOf(s, d, {SegmentAt(r.bucket, d)}) == SummaryOf(t, d, {SegmentAt(r.bucket, d)})
  {
    RowIsCompared(s, t, d, parents, r);
    DifferingIs(s, t, d, parents, SegmentAt(r.bucket, d));
  }

  /** A row the descent leaves out is in a segment, at some depth, whose summaries are equal. */
  lemma {:induction false} LeftOutIsEqual(s: seq<Hashed>, t: seq<Hashed>, d: nat, r: Hashed) returns (e: nat)
    requires 1 <= d <= MAX_DEPTH && (r in s || r in t)
    requires SegmentAt(r.bucket, d) !in Differing(s, t, d)
    ensures 1 <= e <= d
    ensures SummaryOf(s, e, {SegmentAt(r.bucket, e)}) == SummaryOf(t, e, {SegmentAt(r.bucket, e)})
    decreases d
  {
    if d > 1 && SegmentAt(r.bucket, d - 1) !in Differing(s, t, d - 1) {
      e := LeftOutIsEqual(s, t, d - 1, r);
    } else {
      e := d;
      if d > 1 { ParentSegment(r.bucket, d - 1); }
      LeftOutHere(s, t, d, if d == 1 then {} else Differing(s, t, d - 1), r);
    }
  }

  // -- What it costs -------------------------------------------------------------------

  lemma {:induction false} ImageIsNoLarger(from: set<Segment>, onto: set<Segment>)
    requires forall b :: b in onto ==> exists c :: c in from && Parent(c) == b
    ensures |onto| <= |from|
    decreases |onto|
  {
    if onto != {} {
      var b :| b in onto;
      var c :| c in from && Parent(c) == b;
      forall b' | b' in onto - {b} ensures exists c' :: c' in from - {c} && Parent(c') == b' {
        var c' :| c' in from && Parent(c') == b';
        assert c' in from - {c};
      }
      ImageIsNoLarger(from - {c}, onto - {b});
    }
  }

  lemma NextLevelWidens(s: seq<Hashed>, t: seq<Hashed>, d: nat)
    requires 1 <= d < MAX_DEPTH
    ensures |Differing(s, t, d)| <= |Differing(s, t, d + 1)|
  {
    forall b | b in Differing(s, t, d) ensures exists c :: c in Differing(s, t, d + 1) && Parent(c) == b {
      var c := DifferingChild(s, t, d, b);
    }
    ImageIsNoLarger(Differing(s, t, d + 1), Differing(s, t, d));
  }

  /** No level differs in more segments than a deeper one. */
  lemma {:induction false} LevelsWiden(s: seq<Hashed>, t: seq<Hashed>, d: nat, leaf: nat, k: nat)
    requires 1 <= d <= leaf <= MAX_DEPTH && |Differing(s, t, leaf)| <= k
    ensures |Differing(s, t, d)| <= k
    decreases leaf - d
  {
    if d < leaf {
      LevelsWiden(s, t, d + 1, leaf, k);
      NextLevelWidens(s, t, d);
    }
  }

  /** A segment one digit longer than its parent. */
  ghost predicate IsChild(b: Segment, digits: nat) {
    b != [] && b[|b| - 1] < digits
  }

  lemma {:induction false} FewChildren(segments: set<Segment>, parents: set<Segment>)
    requires forall b :: b in segments ==> IsChild(b, 16) && Parent(b) in parents
    ensures |segments| <= 16 * |parents|
    decreases |parents|
  {
    if parents == {} {
      assert segments == {};
    } else {
      var p :| p in parents;
      var mine := set b | b in segments && Parent(b) == p;
      var rest := segments - mine;
      FewChildren(rest, parents - {p});
      FewDigits(mine, p, 16);
      assert segments == rest + mine;
    }
  }

  lemma {:induction false} FewDigits(mine: set<Segment>, p: Segment, digits: nat)
    requires forall b :: b in mine ==> IsChild(b, digits) && Parent(b) == p
    ensures |mine| <= digits
  {
    if digits == 0 {
      assert mine == {};
    } else {
      var last := p + [digits - 1];
      forall b | b in mine - {last} ensures IsChild(b, digits - 1) {
        assert b == Parent(b) + [b[|b| - 1]];
      }
      FewDigits(mine - {last}, p, digits - 1);
    }
  }

  lemma AskedAreChildren(side: seq<Hashed>, d: nat, parents: set<Segment>)
    requires 1 <= d <= MAX_DEPTH
    ensures forall b :: b in Asked(side, d, parents) ==> IsChild(b, 16) && |b| == d && (d > 1 ==> Parent(b) in parents)
  {
    forall b | b in Asked(side, d, parents) ensures IsChild(b, 16) && |b| == d && (d > 1 ==> Parent(b) in parents) {
      AskedIs(side, d, parents, b);
      var r := SegmentHasRow(side, d, b);
    }
  }

  /** Rows both sides send for the summaries of one depth. */
  function RowsUnder(s: seq<Hashed>, t: seq<Hashed>, d: nat, parents: set<Segment>): nat
    requires 1 <= d <= MAX_DEPTH
  {
    |Asked(s, d, parents)| + |Asked(t, d, parents)|
  }

  function LevelRows(s: seq<Hashed>, t: seq<Hashed>, d: nat): nat
    requires 1 <= d <= MAX_DEPTH
  {
    RowsUnder(s, t, d, if d == 1 then {} else Differing(s, t, d - 1))
  }

  /** And of depths 1 to `d`. */
  function SummaryRowsTo(s: seq<Hashed>, t: seq<Hashed>, d: nat): nat
    requires 1 <= d <= MAX_DEPTH
  {
    (if d == 1 then 0 else SummaryRowsTo(s, t, d - 1)) + LevelRows(s, t, d)
  }

  /** At most 16 segments at depth 1. */
  lemma FewAtTheTop(side: seq<Hashed>)
    ensures |Asked(side, 1, {})| <= 16
  {
    AskedAreChildren(side, 1, {});
    forall b | b in Asked(side, 1, {}) ensures Parent(b) == [] {
    }
    FewDigits(Asked(side, 1, {}), [], 16);
  }

  /** A level under at most `k` parents sends at most `32k` summary rows. */
  lemma LevelIsCheap(s: seq<Hashed>, t: seq<Hashed>, d: nat, parents: set<Segment>, k: nat)
    requires 1 < d <= MAX_DEPTH && |parents| <= k
    ensures RowsUnder(s, t, d, parents) <= 32 * k
  {
    AskedAreChildren(s, d, parents);
    AskedAreChildren(t, d, parents);
    FewChildren(Asked(s, d, parents), parents);
    FewChildren(Asked(t, d, parents), parents);
  }

  lemma TopIsCheap(s: seq<Hashed>, t: seq<Hashed>)
    ensures LevelRows(s, t, 1) <= 32
  {
    FewAtTheTop(s);
    FewAtTheTop(t);
  }

  /** The most summary rows a descent to `leaf` with `k` differing leaves reads. */
  function SummaryBound(k: nat, leaf: nat): nat {
    if leaf <= 1 then 32 else SummaryBound(k, leaf - 1) + 32 * k
  }

  lemma {:induction false} SummaryBoundIs(k: nat, leaf: nat)
    requires leaf >= 1
    ensures SummaryBound(k, leaf) == 32 * (1 + k * (leaf - 1))
  {
    if leaf > 1 {
      SummaryBoundIs(k, leaf - 1);
      assert k * (leaf - 1) == k * (leaf - 2) + k;
    }
  }

  lemma {:induction false} BoundGrows(k: nat, d: nat, leaf: nat)
    requires d <= leaf
    ensures SummaryBound(k, d) <= SummaryBound(k, leaf)
  {
    if d < leaf { BoundGrows(k, d, leaf - 1); }
  }

  lemma {:induction false} RowsUpTo(s: seq<Hashed>, t: seq<Hashed>, d: nat, k: nat)
    requires 1 <= d <= MAX_DEPTH && LevelRows(s, t, 1) <= 32
    requires forall e :: 1 < e <= d ==> LevelRows(s, t, e) <= 32 * k
    ensures SummaryRowsTo(s, t, d) <= SummaryBound(k, d)
  {
    if d > 1 {
      RowsUpTo(s, t, d - 1, k);
      assert LevelRows(s, t, d) <= 32 * k;
    }
  }

  lemma DeeperIsCheap(s: seq<Hashed>, t: seq<Hashed>, d: nat, leaf: nat, k: nat)
    requires 1 < d <= leaf <= MAX_DEPTH && |Differing(s, t, leaf)| <= k
    ensures LevelRows(s, t, d) <= 32 * k
  {
    LevelsWiden(s, t, d - 1, leaf, k);
    LevelIsCheap(s, t, d, Differing(s, t, d - 1), k);
  }

  /** With `k` differing leaves at depth `leaf` the descent reads at most 32(1 + k(leaf - 1)) summary rows. */
  lemma SummariesAreCheap(s: seq<Hashed>, t: seq<Hashed>, leaf: nat)
    requires 1 <= leaf <= MAX_DEPTH
    ensures SummaryRowsTo(s, t, leaf) <= SummaryBound(|Differing(s, t, leaf)|, leaf)
  {
    TopIsCheap(s, t);
    var k := |Differing(s, t, leaf)|;
    forall e | 1 < e <= leaf ensures LevelRows(s, t, e) <= 32 * k { DeeperIsCheap(s, t, e, leaf, k); }
    RowsUpTo(s, t, leaf, k);
  }
}
