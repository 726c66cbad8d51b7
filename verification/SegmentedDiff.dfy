/** The segmented diff against comparing both tables whole. */
module SegmentedDiff {
  import opened Ids
  import opened Segments
  import opened Descent
  import opened DiffFindings

  function Hash(h: Hashing, row: Row): Hashed {
    Hashed(h.bucket(row.key), h.h1(row), h.h2(row))
  }

  function HashAll(h: Hashing, rows: seq<Row>): seq<Hashed> {
    seq(|rows|, i requires 0 <= i < |rows| => Hash(h, rows[i]))
  }

  /** Every row of some segments. */
  function Fetch(h: Hashing, rows: seq<Row>, d: nat, segments: set<Segment>): seq<Row>
    requires d <= MAX_DEPTH
  {
    if rows == [] then []
    else
      var rest, last := Fetch(h, rows[..|rows| - 1], d, segments), rows[|rows| - 1];
      if SegmentAt(h.bucket(last.key), d) in segments then rest + [last] else rest
  }

  lemma {:induction false} FetchNone(h: Hashing, rows: seq<Row>, d: nat)
    requires d <= MAX_DEPTH
    ensures Fetch(h, rows, d, {}) == []
  {
    if rows != [] { FetchNone(h, rows[..|rows| - 1], d); }
  }

  /** The segments left at the leaves. */
  function Leaves(h: Hashing, s: seq<Row>, t: seq<Row>, leaf: nat): set<Segment>
    requires 1 <= leaf <= MAX_DEPTH
  {
    Differing(HashAll(h, s), HashAll(h, t), leaf)
  }

  /** Comparing both tables whole, key by key. */
  function Whole(s: seq<Row>, t: seq<Row>, changed: set<string>, names: seq<string>): Findings {
    Collect(Classify(s, t, changed, names), Sorted(KeysOf(s) + KeysOf(t)))
  }

  /** Comparing only the rows of the leaves. */
  function Found(h: Hashing, s: seq<Row>, t: seq<Row>, changed: set<string>, names: seq<string>, leaf: nat): Findings
    requires 1 <= leaf <= MAX_DEPTH
  {
    var leaves := Leaves(h, s, t, leaf);
    Whole(Fetch(h, s, leaf, leaves), Fetch(h, t, leaf, leaves), changed, names)
  }

  // -- The rows of the leaves ----------------------------------------------------------

  lemma {:induction false} FetchIsHashed(h: Hashing, rows: seq<Row>, d: nat, segments: set<Segment>)
    requires d <= MAX_DEPTH
    ensures |Fetch(h, rows, d, segments)| == RowsIn(HashAll(h, rows), d, segments)
    ensures forall r :: r in rows ==> Hash(h, r) in HashAll(h, rows)
  {
    if rows != [] {
      var n := |rows| - 1;
      FetchIsHashed(h, rows[..n], d, segments);
      assert HashAll(h, rows)[..n] == HashAll(h, rows[..n]);
      forall r | r in rows ensures Hash(h, r) in HashAll(h, rows) {
        var i :| 0 <= i < |rows| && rows[i] == r;
        assert HashAll(h, rows)[i] == Hash(h, r);
      }
    }
  }

  /** All the copies of a key are in its segment. */
  lemma {:induction false} CopiesFetched(h: Hashing, rows: seq<Row>, d: nat, segments: set<Segment>, key: string)
    requires d <= MAX_DEPTH && SegmentAt(h.bucket(key), d) in segments
    ensures Copies(Fetch(h, rows, d, segments), key) == Copies(rows, key)
  {
    if rows != [] {
      var n := |rows| - 1;
      var rest := Fetch(h, rows[..n], d, segments);
      CopiesFetched(h, rows[..n], d, segments, key);
      assert (rest + [rows[n]])[..|rest|] == rest;
    }
  }

  lemma {:induction false} KeyFetched(h: Hashing, rows: seq<Row>, d: nat, segments: set<Segment>, key: string)
    requires d <= MAX_DEPTH
    ensures key in KeysOf(Fetch(h, rows, d, segments)) <==> key in KeysOf(rows) && SegmentAt(h.bucket(key), d) in segments
  {
    if rows != [] {
      var n := |rows| - 1;
      var rest := Fetch(h, rows[..n], d, segments);
      KeyFetched(h, rows[..n], d, segments, key);
      assert (rest + [rows[n]])[..|rest|] == rest;
    }
  }

  lemma KeysFetched(h: Hashing, rows: seq<Row>, d: nat, segments: set<Segment>)
    requires d <= MAX_DEPTH
    ensures forall key :: key in KeysOf(Fetch(h, rows, d, segments))
                          <==> key in KeysOf(rows) && SegmentAt(h.bucket(key), d) in segments
  {
    forall key
      ensures key in KeysOf(Fetch(h, rows, d, segments)) <==> key in KeysOf(rows) && SegmentAt(h.bucket(key), d) in segments
    {
      KeyFetched(h, rows, d, segments, key);
    }
  }

  /** The keys a descent looks at. */
  function InLeaves(h: Hashing, s: seq<Row>, t: seq<Row>, leaf: nat): set<string>
    requires 1 <= leaf <= MAX_DEPTH
  {
    set key | key in KeysOf(s) + KeysOf(t) && SegmentAt(h.bucket(key), leaf) in Leaves(h, s, t, leaf)
  }

  /** What the diff reports of the keys it looks at is what comparing whole tables reports of them. */
  lemma FoundInLeaves(h: Hashing, s: seq<Row>, t: seq<Row>, changed: set<string>, names: seq<string>, leaf: nat)
    requires 1 <= leaf <= MAX_DEPTH
    ensures Found(h, s, t, changed, names, leaf)
            == Collect(Classify(s, t, changed, names), Sorted(InLeaves(h, s, t, leaf)))
  {
    var leaves := Leaves(h, s, t, leaf);
    var left, right := Fetch(h, s, leaf, leaves), Fetch(h, t, leaf, leaves);
    KeysFetched(h, s, leaf, leaves);
    KeysFetched(h, t, leaf, leaves);
    assert KeysOf(left) + KeysOf(right) == InLeaves(h, s, t, leaf);
    var show, fetched := Classify(s, t, changed, names), Classify(left, right, changed, names);
    var keys := Sorted(InLeaves(h, s, t, leaf));
    forall k | k in keys ensures fetched(k) == show(k) {
      CopiesFetched(h, s, leaf, leaves, k);
      CopiesFetched(h, t, leaf, leaves, k);
    }
    CollectAgree(fetched, show, keys);
  }

  // -- Soundness -----------------------------------------------------------------------

  /** Whatever the hashes do, everything reported is there when both tables are compared whole. */
  lemma EverythingReportedIsReal(h: Hashing, s: seq<Row>, t: seq<Row>, changed: set<string>, names: seq<string>, leaf: nat)
    requires 1 <= leaf <= MAX_DEPTH
    ensures var found := Found(h, s, t, changed, names, leaf);
      var whole := Whole(s, t, changed, names);
      && (forall k :: k in found.missing ==> k in whole.missing)
      && (forall k :: k in found.extra ==> k in whole.extra)
      && (forall k :: k in found.inFlight ==> k in whole.inFlight)
      && (forall d :: d in found.duplicates ==> d in whole.duplicates)
      && (forall c :: c in found.cells ==> c in whole.cells)
  {
    var show := Classify(s, t, changed, names);
    FoundInLeaves(h, s, t, changed, names, leaf);
    CollectMeans(show, Sorted(InLeaves(h, s, t, leaf)));
    CollectMeans(show, Sorted(KeysOf(s) + KeysOf(t)));
  }

  // -- Every row accounted for ---------------------------------------------------------

  /** Whatever the hashes do, the findings account for the difference in row counts. */
  lemma RowCountsAddUp(h: Hashing, s: seq<Row>, t: seq<Row>, changed: set<string>, names: seq<string>, leaf: nat)
    requires 1 <= leaf <= MAX_DEPTH
    ensures Accounted(Found(h, s, t, changed, names, leaf)) == |t| - |s|
  {
    var leaves := Leaves(h, s, t, leaf);
    var left, right := Fetch(h, s, leaf, leaves), Fetch(h, t, leaf, leaves);
    var all := KeysOf(left) + KeysOf(right);
    var keys := Sorted(all);
    SortedAscends(all);
    AccountedRows(left, right, changed, names, keys);
    SetOfSorted(all);
    CountAll(left, all);
    CountAll(right, all);
    FetchIsHashed(h, s, leaf, leaves);
    FetchIsHashed(h, t, leaf, leaves);
    DescentKeepsTheRowDifference(HashAll(h, s), HashAll(h, t), leaf);
  }

  // -- Completeness --------------------------------------------------------------------

  /** A key the descent does not look at. */
  ghost predicate LeftOut(h: Hashing, s: seq<Row>, t: seq<Row>, leaf: nat, key: string)
    requires 1 <= leaf <= MAX_DEPTH
  {
    key in KeysOf(s) + KeysOf(t) && key !in InLeaves(h, s, t, leaf)
  }

  /** Nothing is lost exactly when every key left out shows nothing. */
  lemma CompleteExactlyWhenNothingIsLeftOut(h: Hashing, s: seq<Row>, t: seq<Row>, changed: set<string>, names: seq<string>, leaf: nat)
    requires 1 <= leaf <= MAX_DEPTH
    ensures Found(h, s, t, changed, names, leaf) == Whole(s, t, changed, names)
            <==> forall k :: LeftOut(h, s, t, leaf, k) ==> Classify(s, t, changed, names)(k) == Same
  {
    FoundInLeaves(h, s, t, changed, names, leaf);
    ClassifyShowsItsOwn(s, t, changed, names);
    var show, in_ := Classify(s, t, changed, names), InLeaves(h, s, t, leaf);
    LeavingOutIsHarmlessExactlyWhenSame(show, KeysOf(s) + KeysOf(t), in_);
  }

  /** No two different segments of these tables have equal summaries. */
  ghost predicate NoCollision(h: Hashing, s: seq<Row>, t: seq<Row>) {
    forall d: nat, b: Segment :: 1 <= d <= MAX_DEPTH && SummaryOf(HashAll(h, s), d, {b}) == SummaryOf(HashAll(h, t), d, {b})
                   ==> multiset(Fetch(h, s, d, {b})) == multiset(Fetch(h, t, d, {b}))
  }

  lemma {:induction false} CopiesCount(rows: seq<Row>, key: string, r: Row)
    ensures multiset(Copies(rows, key))[r] == if r.key == key then multiset(rows)[r] else 0
  {
    if rows != [] {
      CopiesCount(rows[..|rows| - 1], key, r);
      assert rows == rows[..|rows| - 1] + [rows[|rows| - 1]];
    }
  }

  lemma SameRowsSameCopies(left: seq<Row>, right: seq<Row>, key: string)
    requires multiset(left) == multiset(right)
    ensures multiset(Copies(left, key)) == multiset(Copies(right, key))
  {
    forall r ensures multiset(Copies(left, key))[r] == multiset(Copies(right, key))[r] {
      CopiesCount(left, key, r);
      CopiesCount(right, key, r);
    }
  }

  /** A key outside the leaves has the same copies on both sides. */
  lemma LeftOutIsTheSame(h: Hashing, s: seq<Row>, t: seq<Row>, leaf: nat, key: string)
    requires 1 <= leaf <= MAX_DEPTH && NoCollision(h, s, t)
    requires LeftOut(h, s, t, leaf, key)
    ensures multiset(Copies(s, key)) == multiset(Copies(t, key))
  {
    var r;
    if key in KeysOf(s) { r := KeyHasRow(s, key); } else { r := KeyHasRow(t, key); }
    FetchIsHashed(h, s, leaf, {});
    FetchIsHashed(h, t, leaf, {});
    var e := LeftOutIsEqual(HashAll(h, s), HashAll(h, t), leaf, Hash(h, r));
    var b := SegmentAt(h.bucket(key), e);
    SameRowsSameCopies(Fetch(h, s, e, {b}), Fetch(h, t, e, {b}), key);
    CopiesFetched(h, s, e, {b}, key);
    CopiesFetched(h, t, e, {b}, key);
  }

  lemma SameCopiesShow(s: seq<Row>, t: seq<Row>, changed: set<string>, names: seq<string>, key: string)
    requires multiset(Copies(s, key)) == multiset(Copies(t, key))
    ensures Classify(s, t, changed, names)(key)
            == if |Copies(s, key)| > 1 then Duplicate(|Copies(s, key)|, |Copies(s, key)|) else Same
  {
    var a, b := Copies(s, key), Copies(t, key);
    assert |multiset(a)| == |a| && |multiset(b)| == |b|;
    if |a| == 1 {
      assert a == [a[0]] && b == [b[0]];
      assert a[0] in multiset(b);
    }
  }

  // -- Which keys are left out ---------------------------------------------------------

  function Total(h: Hashing, rows: seq<Row>): Summary {
    if rows == [] then Summary(0, 0, 0)
    else Total(h, rows[..|rows| - 1]).Plus(Summary(1, h.h1(rows[|rows| - 1]), h.h2(rows[|rows| - 1])))
  }

  lemma TotalStep(h: Hashing, rows: seq<Row>, r: Row)
    ensures Total(h, rows + [r]) == Total(h, rows).Plus(Summary(1, h.h1(r), h.h2(r)))
  {
    assert (rows + [r])[..|rows|] == rows;
  }

  lemma {:induction false} TotalOfFetched(h: Hashing, rows: seq<Row>, d: nat, b: Segment)
    requires d <= MAX_DEPTH
    ensures SummaryOf(HashAll(h, rows), d, {b}) == Total(h, Fetch(h, rows, d, {b}))
  {
    if rows != [] {
      var n := |rows| - 1;
      assert HashAll(h, rows)[..n] == HashAll(h, rows[..n]);
      TotalOfFetched(h, rows[..n], d, b);
      TotalStep(h, Fetch(h, rows[..n], d, {b}), rows[n]);
    }
  }

  lemma {:induction false} TotalWithout(h: Hashing, rows: seq<Row>, i: nat)
    requires i < |rows|
    ensures Total(h, rows) == Total(h, rows[..i] + rows[i + 1..]).Plus(Summary(1, h.h1(rows[i]), h.h2(rows[i])))
  {
    var n := |rows| - 1;
    if i == n {
      assert rows[..i] + rows[i + 1..] == rows[..n];
    } else {
      TotalWithout(h, rows[..n], i);
      assert rows[..n][..i] + rows[..n][i + 1..] + [rows[n]] == rows[..i] + rows[i + 1..];
      TotalStep(h, rows[..n][..i] + rows[..n][i + 1..], rows[n]);
    }
  }

  lemma RowsWithout(rows: seq<Row>, i: nat)
    requires i < |rows|
    ensures multiset(rows[..i] + rows[i + 1..]) == multiset(rows) - multiset{rows[i]}
  {
    assert rows == rows[..i] + [rows[i]] + rows[i + 1..];
  }

  /** The same rows, in whatever order, have the same summary. */
  lemma {:induction false} SameRowsSameTotal(h: Hashing, left: seq<Row>, right: seq<Row>)
    requires multiset(left) == multiset(right)
    ensures Total(h, left) == Total(h, right)
    decreases |left|
  {
    if left == [] {
      assert |multiset(right)| == 0;
    } else {
      var n := |left| - 1;
      assert left[n] in multiset(right);
      var i :| 0 <= i < |right| && right[i] == left[n];
      RowsWithout(left, n);
      RowsWithout(right, i);
      TotalWithout(h, left, n);
      TotalWithout(h, right, i);
      SameRowsSameTotal(h, left[..n] + left[n + 1..], right[..i] + right[i + 1..]);
    }
  }

  lemma {:induction false} FetchCount(h: Hashing, rows: seq<Row>, d: nat, b: Segment, r: Row)
    requires d <= MAX_DEPTH
    ensures multiset(Fetch(h, rows, d, {b}))[r] == if SegmentAt(h.bucket(r.key), d) == b then multiset(rows)[r] else 0
  {
    if rows != [] {
      FetchCount(h, rows[..|rows| - 1], d, b, r);
      assert rows == rows[..|rows| - 1] + [rows[|rows| - 1]];
    }
  }

  lemma SegmentsNest(x: Digits, y: Digits, e: nat, d: nat)
    requires e <= d <= MAX_DEPTH && SegmentAt(x, d) == SegmentAt(y, d)
    ensures SegmentAt(x, e) == SegmentAt(y, e)
  {
    assert x[..d][..e] == x[..e] && y[..d][..e] == y[..e];
  }

  /** Both sides hold the same rows in a key's segment. */
  ghost predicate SameRows(h: Hashing, s: seq<Row>, t: seq<Row>, d: nat, key: string)
    requires d <= MAX_DEPTH
  {
    var b := SegmentAt(h.bucket(key), d);
    multiset(Fetch(h, s, d, {b})) == multiset(Fetch(h, t, d, {b}))
  }

  lemma SameRowsBelow(h: Hashing, s: seq<Row>, t: seq<Row>, e: nat, d: nat, key: string)
    requires e <= d <= MAX_DEPTH && SameRows(h, s, t, e, key)
    ensures SameRows(h, s, t, d, key)
  {
    var a, b := SegmentAt(h.bucket(key), e), SegmentAt(h.bucket(key), d);
    forall r ensures multiset(Fetch(h, s, d, {b}))[r] == multiset(Fetch(h, t, d, {b}))[r] {
      FetchCount(h, s, d, b, r);
      FetchCount(h, t, d, b, r);
      FetchCount(h, s, e, a, r);
      FetchCount(h, t, e, a, r);
      if SegmentAt(h.bucket(r.key), d) == b { SegmentsNest(h.bucket(r.key), h.bucket(key), e, d); }
    }
  }

  lemma SameRowsAreNoLeaf(h: Hashing, s: seq<Row>, t: seq<Row>, leaf: nat, key: string)
    requires 1 <= leaf <= MAX_DEPTH && SameRows(h, s, t, leaf, key)
    ensures SegmentAt(h.bucket(key), leaf) !in Leaves(h, s, t, leaf)
  {
    var b := SegmentAt(h.bucket(key), leaf);
    TotalOfFetched(h, s, leaf, b);
    TotalOfFetched(h, t, leaf, b);
    SameRowsSameTotal(h, Fetch(h, s, leaf, {b}), Fetch(h, t, leaf, {b}));
    if b in Leaves(h, s, t, leaf) { DiffersItself(HashAll(h, s), HashAll(h, t), leaf, b); }
  }

  /** Without collisions a key is left out exactly when both sides hold the same rows in its leaf segment. */
  lemma LeftOutExactlyWhenSameRows(h: Hashing, s: seq<Row>, t: seq<Row>, leaf: nat, key: string)
    requires 1 <= leaf <= MAX_DEPTH && NoCollision(h, s, t) && key in KeysOf(s) + KeysOf(t)
    ensures LeftOut(h, s, t, leaf, key) <==> SameRows(h, s, t, leaf, key)
  {
    if SameRows(h, s, t, leaf, key) {
      SameRowsAreNoLeaf(h, s, t, leaf, key);
    } else if LeftOut(h, s, t, leaf, key) {
      var r;
      if key in KeysOf(s) { r := KeyHasRow(s, key); } else { r := KeyHasRow(t, key); }
      FetchIsHashed(h, s, leaf, {});
      FetchIsHashed(h, t, leaf, {});
      var e := LeftOutIsEqual(HashAll(h, s), HashAll(h, t), leaf, Hash(h, r));
      SameRowsBelow(h, s, t, e, leaf, key);
    }
  }

  /** In the segment of every key held more than once, the rows differ between the sides. */
  ghost predicate DuplicatesShow(h: Hashing, s: seq<Row>, t: seq<Row>, leaf: nat)
    requires 1 <= leaf <= MAX_DEPTH
  {
    forall k :: |Copies(s, k)| > 1 ==> !SameRows(h, s, t, leaf, k)
  }

  /** Without collisions the diff is complete exactly when no key held more than once is among segment rows that are
      the same on both sides. */
  lemma CompleteUpToHiddenDuplicates(h: Hashing, s: seq<Row>, t: seq<Row>, changed: set<string>, names: seq<string>, leaf: nat)
    requires 1 <= leaf <= MAX_DEPTH && NoCollision(h, s, t)
    ensures Found(h, s, t, changed, names, leaf) == Whole(s, t, changed, names) <==> DuplicatesShow(h, s, t, leaf)
  {
    CompleteExactlyWhenNothingIsLeftOut(h, s, t, changed, names, leaf);
    if DuplicatesShow(h, s, t, leaf) {
      forall k | LeftOut(h, s, t, leaf, k) ensures Classify(s, t, changed, names)(k) == Same {
        LeftOutShowsCopies(h, s, t, changed, names, leaf, k);
        if |Copies(s, k)| > 1 { RepeatedIsLeftOut(h, s, t, leaf, k); }
      }
    } else {
      var k :| |Copies(s, k)| > 1 && SameRows(h, s, t, leaf, k);
      RepeatedIsLeftOut(h, s, t, leaf, k);
      LeftOutShowsCopies(h, s, t, changed, names, leaf, k);
    }
  }

  lemma LeftOutShowsCopies(h: Hashing, s: seq<Row>, t: seq<Row>, changed: set<string>, names: seq<string>, leaf: nat, k: string)
    requires 1 <= leaf <= MAX_DEPTH && NoCollision(h, s, t) && LeftOut(h, s, t, leaf, k)
    ensures Classify(s, t, changed, names)(k) == Same <==> |Copies(s, k)| <= 1
  {
    LeftOutIsTheSame(h, s, t, leaf, k);
    SameCopiesShow(s, t, changed, names, k);
  }

  lemma RepeatedIsLeftOut(h: Hashing, s: seq<Row>, t: seq<Row>, leaf: nat, k: string)
    requires 1 <= leaf <= MAX_DEPTH && NoCollision(h, s, t) && |Copies(s, k)| > 1
    ensures LeftOut(h, s, t, leaf, k) <==> SameRows(h, s, t, leaf, k)
  {
    KeyHasCopies(s, k);
    LeftOutExactlyWhenSameRows(h, s, t, leaf, k);
  }

  /** A legacy table with a primary key. */
  ghost predicate UniqueKeys(rows: seq<Row>) {
    forall k :: |Copies(rows, k)| <= 1
  }

  /** So with a primary key on the legacy side, the diff returns exactly what comparing the two whole tables would. */
  lemma CompleteWithAKey(h: Hashing, s: seq<Row>, t: seq<Row>, changed: set<string>, names: seq<string>, leaf: nat)
    requires 1 <= leaf <= MAX_DEPTH && NoCollision(h, s, t)
    requires UniqueKeys(s)
    ensures Found(h, s, t, changed, names, leaf) == Whole(s, t, changed, names)
  {
    CompleteUpToHiddenDuplicates(h, s, t, changed, names, leaf);
  }

  /** A key duplicated alike on both sides differs nowhere: the diff says nothing of it, the whole comparison does. */
  lemma DuplicatedAlikeIsNotFound(h: Hashing, r: Row, names: seq<string>, leaf: nat)
    requires 1 <= leaf <= MAX_DEPTH
    ensures Found(h, [r, r], [r, r], {}, names, leaf) == NoFindings()
    ensures Whole([r, r], [r, r], {}, names).duplicates == [DuplicateKey(r.key, 2, 2)]
  {
    var rows, show := [r, r], Classify([r, r], [r, r], {}, names);
    NothingDiffers(HashAll(h, rows), leaf);
    FetchNone(h, rows, leaf);
    TwoCopies(r);
    assert [r.key][..0] == [];
    assert Sorted({r.key}) == [r.key];
    assert Collect(show, [r.key]) == Add(NoFindings(), r.key, show(r.key));
  }

  lemma TwoCopies(r: Row)
    ensures Copies([r, r], r.key) == [r, r] && KeysOf([r, r]) + KeysOf([r, r]) == {r.key}
    ensures KeysOf([]) + KeysOf([]) == {}
  {
    assert [r, r][..1] == [r] && [r][..0] == [];
    assert Copies([r], r.key) == [r] && KeysOf([r]) == {r.key};
  }

  lemma NothingDiffers(side: seq<Hashed>, d: nat)
    requires 1 <= d <= MAX_DEPTH
    ensures Differing(side, side, d) == {}
  {
    forall b ensures b !in Differing(side, side, d) {
      if b in Differing(side, side, d) { DiffersItself(side, side, d, b); }
    }
  }
}
