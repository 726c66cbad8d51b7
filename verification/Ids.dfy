/** Unique ids and the order every tie-break uses.
 *
 * Ids, statuses, keys and months are all text, compared code point by code point,
 * so `min` and `sorted` give the same answer on every run.
 */
module Ids {
  type Id = string

  datatype Option<+T> = None | Some(value: T)

  /** The lexicographic order of text. */
  predicate Leq(a: string, b: string) {
    a == "" || (b != "" && (a[0] < b[0] || (a[0] == b[0] && Leq(a[1..], b[1..]))))
  }

  lemma {:induction false} LeqTotal(a: string, b: string)
    ensures Leq(a, b) || Leq(b, a)
  {
    if a != "" && b != "" {
      LeqTotal(a[1..], b[1..]);
    }
  }

  lemma {:induction false} LeqAntisymmetric(a: string, b: string)
    requires Leq(a, b) && Leq(b, a)
    ensures a == b
  {
    if a != "" && b != "" {
      LeqAntisymmetric(a[1..], b[1..]);
      assert a == [a[0]] + a[1..] && b == [b[0]] + b[1..];
    }
  }

  lemma {:induction false} LeqTransitive(a: string, b: string, c: string)
    requires Leq(a, b) && Leq(b, c)
    ensures Leq(a, c)
  {
    if a != "" && a[0] == b[0] && b[0] == c[0] {
      LeqTransitive(a[1..], b[1..], c[1..]);
    }
  }

  /** Up to some place they are the same, and there the first ends or has the lower character. */
  ghost predicate NotLaterAt(a: string, b: string, i: nat) {
    i <= |a| && i <= |b| && a[..i] == b[..i] && (i == |a| || (i < |b| && a[i] < b[i]))
  }

  lemma NotLaterFurther(a: string, b: string, i: nat)
    requires a != "" && b != "" && a[0] == b[0]
    ensures NotLaterAt(a[1..], b[1..], i) <==> NotLaterAt(a, b, i + 1)
  {
    if i < |a| && i < |b| { assert a[..i + 1] == [a[0]] + a[1..][..i] && b[..i + 1] == [b[0]] + b[1..][..i]; }
  }

  /** Text comes in the order of the first character that differs, and before any that goes on after it. */
  lemma {:induction false} LeqIs(a: string, b: string)
    ensures Leq(a, b) <==> exists i :: NotLaterAt(a, b, i)
  {
    if a == "" {
      assert NotLaterAt(a, b, 0);
    } else if b != "" && a[0] == b[0] {
      LeqIs(a[1..], b[1..]);
      if i :| NotLaterAt(a[1..], b[1..], i) { NotLaterFurther(a, b, i); }
      if i: nat :| NotLaterAt(a, b, i) {
        NotLaterFurther(a, b, i - 1);
      }
    } else {
      assert b != "" && a[0] < b[0] ==> NotLaterAt(a, b, 0);
      if i: nat :| NotLaterAt(a, b, i) {
        assert i > 0 ==> a[..i][0] == b[..i][0];
      }
    }
  }

  predicate IsMin(m: string, s: set<string>) {
    m in s && forall x :: x in s ==> Leq(m, x)
  }

  lemma {:induction false} MinExists(s: set<string>)
    requires s != {}
    ensures exists m :: IsMin(m, s)
    decreases |s|
  {
    var x :| x in s;
    LeqTotal(x, x);
    if s == {x} {
      assert IsMin(x, s);
    } else {
      MinExists(s - {x});
      var m :| IsMin(m, s - {x});
      LeqTotal(m, x);
      if Leq(m, x) {
        assert IsMin(m, s);
      } else {
        forall y | y in s ensures Leq(x, y) {
          if y != x { LeqTransitive(x, m, y); }
        }
        assert IsMin(x, s);
      }
    }
  }

  /** `min` of a non-empty set of ids. */
  function Min(s: set<string>): (m: string)
    requires s != {}
    ensures m in s && forall x :: x in s ==> Leq(m, x)
  {
    MinExists(s);
    assert forall a, b :: IsMin(a, s) && IsMin(b, s) ==> a == b by {
      forall a, b | IsMin(a, s) && IsMin(b, s) ensures a == b { LeqAntisymmetric(a, b); }
    }
    var m :| m in s && IsMin(m, s);
    m
  }

  /** Strictly increasing, so without repeats. */
  ghost predicate Ascending(r: seq<string>) {
    forall i, j :: 0 <= i < j < |r| ==> Leq(r[i], r[j]) && r[i] != r[j]
  }

  lemma PrependAscending(m: string, rest: seq<string>)
    requires Ascending(rest) && forall x :: x in rest ==> Leq(m, x) && m != x
    ensures Ascending([m] + rest)
  {
    var r := [m] + rest;
    forall i, j | 0 <= i < j < |r| ensures Leq(r[i], r[j]) && r[i] != r[j] {
      assert r[j] == rest[j - 1] && r[j] in rest;
    }
  }

  lemma AppendAscending(r: seq<string>, x: string, all: seq<string>)
    requires Ascending(r) && Ascending(all + [x]) && forall y :: y in r ==> y in all
    ensures Ascending(r + [x])
  {
    forall i | 0 <= i < |r| ensures Leq(r[i], x) && r[i] != x {
      assert r[i] in all;
      var j :| 0 <= j < |all| && all[j] == r[i];
      assert (all + [x])[j] == r[i] && (all + [x])[|all|] == x;
    }
  }

  lemma AscendingApart(r: seq<string>, i: nat, j: nat)
    requires Ascending(r) && i < |r| && j < |r| && r[i] == r[j]
    ensures i == j
  {
  }

  /** `sorted` of a set of ids. */
  function Sorted(s: set<string>): (r: seq<string>)
    ensures forall i :: 0 <= i < |r| ==> r[i] in s
    ensures forall x :: x in s ==> x in r
    ensures |r| == |s|
    decreases |s|
  {
    if s == {} then [] else [Min(s)] + Sorted(s - {Min(s)})
  }

  lemma {:induction false} SortedAscends(s: set<string>)
    ensures Ascending(Sorted(s))
    decreases |s|
  {
    if s != {} {
      SortedAscends(s - {Min(s)});
      PrependAscending(Min(s), Sorted(s - {Min(s)}));
    }
  }

  /** The ids of a set one after the other, smallest first: what a loop over `sorted(s)` visits. */
  method InOrder(s: set<string>) returns (r: seq<string>)
    ensures forall i :: 0 <= i < |r| ==> r[i] in s
    ensures forall x :: x in s ==> x in r
  {
    r := Sorted(s);
  }

  /** The same, for a loop that relies on visiting nothing twice. */
  method InOrderOnce(s: set<string>) returns (r: seq<string>)
    ensures forall i :: 0 <= i < |r| ==> r[i] in s
    ensures forall x :: x in s ==> x in r
    ensures forall i, j :: 0 <= i < j < |r| ==> r[i] != r[j]
  {
    r := Sorted(s);
    SortedAscends(s);
  }

  predicate IsLeast(m: nat, s: set<nat>) {
    m in s && forall x :: x in s ==> m <= x
  }

  lemma {:induction false} LeastExists(s: set<nat>)
    requires s != {}
    ensures exists m :: IsLeast(m, s)
    decreases |s|
  {
    var x :| x in s;
    if s == {x} {
      assert IsLeast(x, s);
    } else {
      LeastExists(s - {x});
      var m :| IsLeast(m, s - {x});
      var best := if m <= x then m else x;
      forall y | y in s ensures best <= y {
        assert y == x || y in s - {x};
      }
      assert IsLeast(best, s);
    }
  }

  /** The smallest of a non-empty set of positions. */
  function Least(s: set<nat>): (m: nat)
    requires s != {}
    ensures m in s && forall x :: x in s ==> m <= x
  {
    LeastExists(s);
    var m :| m in s && IsLeast(m, s);
    m
  }

  /** A set of places with one more, or the same. */
  lemma OnePlaceMore(before: set<nat>, n: nat, after: set<nat>, more: bool)
    requires n !in before && after == if more then before + {n} else before
    ensures |after| == |before| + if more then 1 else 0
  {
  }

  function Max(a: int, b: int): int { if a < b then b else a }

  // -- Lists -----------------------------------------------------------------------------

  /** No text comes twice. */
  ghost predicate NoRepeats(names: seq<string>) {
    names == [] || (names[|names| - 1] !in names[..|names| - 1] && NoRepeats(names[..|names| - 1]))
  }

  lemma Associative<T>(a: seq<T>, b: seq<T>, c: seq<T>)
    ensures (a + b) + c == a + (b + c)
  {
  }
}
