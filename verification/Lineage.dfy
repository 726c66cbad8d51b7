/** The lineage graph, and the breadth-first search that grouping rests on. */
module Lineage {
  import opened Ids

  /** Every node with its predecessors. */
  type Graph = map<Id, set<Id>>

  /** Edges join nodes of the graph: parents outside the manifest are never added. */
  ghost predicate Closed(g: Graph) {
    forall n :: n in g ==> g[n] <= g.Keys
  }

  function Parents(g: Graph, s: set<Id>): set<Id> {
    set c, p | c in s && c in g && p in g[c] :: p
  }

  /** The nodes at most `k` edges above `n`, `n` included. */
  function Within(g: Graph, n: Id, k: nat): set<Id> {
    if k == 0 then {n} else Within(g, n, k - 1) + Parents(g, Within(g, n, k - 1))
  }

  lemma {:induction false} WithinBounds(g: Graph, n: Id, k: nat)
    requires Closed(g)
    ensures n in Within(g, n, k) && Within(g, n, k) <= g.Keys + {n}
    decreases k
  {
    if k > 0 {
      WithinBounds(g, n, k - 1);
    }
  }

  lemma {:induction false} WithinMonotone(g: Graph, n: Id, j: nat, k: nat)
    requires j <= k
    ensures Within(g, n, j) <= Within(g, n, k)
    decreases k
  {
    if j < k {
      WithinMonotone(g, n, j, k - 1);
    }
  }

  // -- Nearest failed ancestor ---------------------------------------------------------

  /** The ring just outside the first `k`. */
  function Ring(g: Graph, n: Id, k: nat): set<Id> {
    Within(g, n, k + 1) - Within(g, n, k)
  }

  lemma RingShrinksRest(g: Graph, n: Id, k: nat)
    requires Closed(g) && Ring(g, n, k) != {}
    ensures g.Keys + {n} - Within(g, n, k + 1) < g.Keys + {n} - Within(g, n, k)
  {
    WithinBounds(g, n, k + 1);
    WithinMonotone(g, n, k, k + 1);
    var x :| x in Ring(g, n, k);
    assert x in g.Keys + {n} - Within(g, n, k);
  }

  /** The first ring above `n`, from the `k`-th on, that holds a failed node: its smallest id. */
  function Search(g: Graph, n: Id, failed: set<Id>, k: nat): Option<Id>
    requires Closed(g)
    decreases g.Keys + {n} - Within(g, n, k)
  {
    if Ring(g, n, k) * failed != {} then
      Some(Min(Ring(g, n, k) * failed))
    else if Ring(g, n, k) == {} then
      None
    else
      RingShrinksRest(g, n, k);
      Search(g, n, failed, k + 1)
  }

  function Nearest(g: Graph, n: Id, failed: set<Id>): Option<Id>
    requires Closed(g)
  {
    Search(g, n, failed, 0)
  }

  /** Nothing but `n` itself has failed within `k` edges above `n`. */
  ghost predicate Clear(g: Graph, n: Id, failed: set<Id>, k: nat) {
    forall q :: q in failed && q in Within(g, n, k) ==> q == n
  }

  /** `p` is failed, `d` edges above `n`, and nothing closer (or as close with a smaller id) is. */
  ghost predicate ClosestAt(g: Graph, n: Id, failed: set<Id>, p: Id, d: nat) {
    && d > 0 && p in failed && p in Within(g, n, d) && p !in Within(g, n, d - 1)
    && Clear(g, n, failed, d - 1)
    && (forall q :: q in failed && q in Within(g, n, d) && q != n ==> Leq(p, q))
  }

  /** What a search's answer means. */
  ghost predicate IsNearest(g: Graph, n: Id, failed: set<Id>, r: Option<Id>) {
    match r
    case None => forall k: nat :: Clear(g, n, failed, k)
    case Some(p) => exists d: nat :: ClosestAt(g, n, failed, p, d)
  }

  lemma {:induction false} RingEmptyStops(g: Graph, n: Id, k: nat, j: nat)
    requires Within(g, n, k + 1) == Within(g, n, k)
    requires k <= j
    ensures Within(g, n, j) == Within(g, n, k)
    decreases j
  {
    if k < j {
      RingEmptyStops(g, n, k, j - 1);
    }
  }

  lemma HitIsClosest(g: Graph, n: Id, failed: set<Id>, k: nat)
    requires Clear(g, n, failed, k)
    requires Ring(g, n, k) * failed != {}
    ensures ClosestAt(g, n, failed, Min(Ring(g, n, k) * failed), k + 1)
  {
    var p := Min(Ring(g, n, k) * failed);
    forall q | q in failed && q in Within(g, n, k + 1) && q != n ensures Leq(p, q) {
      assert q in Ring(g, n, k) * failed;
    }
  }

  lemma EmptyRingClears(g: Graph, n: Id, failed: set<Id>, k: nat)
    requires Clear(g, n, failed, k)
    requires Ring(g, n, k) == {}
    ensures IsNearest(g, n, failed, None)
  {
    WithinMonotone(g, n, k, k + 1);
    forall x | x in Within(g, n, k + 1) ensures x in Within(g, n, k) {
      assert x !in Ring(g, n, k);
    }
    assert Within(g, n, k + 1) == Within(g, n, k);
    forall j: nat ensures Clear(g, n, failed, j) {
      if j <= k { WithinMonotone(g, n, j, k); } else { RingEmptyStops(g, n, k, j); }
    }
  }

  lemma MissClears(g: Graph, n: Id, failed: set<Id>, k: nat)
    requires Clear(g, n, failed, k)
    requires Ring(g, n, k) * failed == {}
    ensures Clear(g, n, failed, k + 1)
  {
    forall q | q in failed && q in Within(g, n, k + 1) ensures q == n {
      assert q !in Ring(g, n, k) * failed;
    }
  }

  lemma {:induction false} SearchFinds(g: Graph, n: Id, failed: set<Id>, k: nat)
    requires Closed(g)
    requires Clear(g, n, failed, k)
    ensures IsNearest(g, n, failed, Search(g, n, failed, k))
    decreases g.Keys + {n} - Within(g, n, k)
  {
    if Ring(g, n, k) * failed != {} {
      HitIsClosest(g, n, failed, k);
    } else if Ring(g, n, k) == {} {
      EmptyRingClears(g, n, failed, k);
    } else {
      RingShrinksRest(g, n, k);
      MissClears(g, n, failed, k);
      SearchFinds(g, n, failed, k + 1);
    }
  }

  /** The search finds a closest failed ancestor, ties to the smallest id, exactly when one exists. */
  lemma NearestIsClosest(g: Graph, n: Id, failed: set<Id>)
    requires Closed(g)
    ensures IsNearest(g, n, failed, Nearest(g, n, failed))
  {
    SearchFinds(g, n, failed, 0);
  }

  /** The search after `k` rings: all of them seen, and only the last still to be expanded. */
  ghost predicate AtRing(g: Graph, n: Id, k: nat, seen: set<Id>, frontier: set<Id>) {
    seen == Within(g, n, k) && frontier <= seen && Parents(g, seen - frontier) <= seen
  }

  /** The parents of the last ring are the next one. */
  lemma NextRing(g: Graph, n: Id, k: nat, seen: set<Id>, frontier: set<Id>)
    requires AtRing(g, n, k, seen, frontier)
    ensures Parents(g, frontier) - seen == Ring(g, n, k)
    ensures AtRing(g, n, k + 1, seen + Ring(g, n, k), Ring(g, n, k))
  {
    forall p | p in Parents(g, seen) ensures p in seen || p in Parents(g, frontier) {
      var c :| c in seen && c in g && p in g[c];
      assert c in frontier || c in seen - frontier;
    }
    assert Within(g, n, k + 1) == seen + Parents(g, seen) == seen + Ring(g, n, k);
    assert seen + Ring(g, n, k) - Ring(g, n, k) == seen;
  }

  /** The search itself, a ring at a time. */
  method NearestFailedAncestor(g: Graph, node: Id, failed: set<Id>) returns (r: Option<Id>)
    requires Closed(g) && node in g
    ensures r == Nearest(g, node, failed)
    ensures IsNearest(g, node, failed, r)
  {
    NearestIsClosest(g, node, failed);
    ghost var answer := Nearest(g, node, failed);
    var seen := {node};
    var frontier := {node};
    ghost var k: nat := 0;
    while frontier != {}
      invariant AtRing(g, node, k, seen, frontier)
      invariant if frontier == {} then answer == None else answer == Search(g, node, failed, k)
      decreases frontier != {}, g.Keys + {node} - seen
    {
      NextRing(g, node, k, seen, frontier);
      var parents := Parents(g, frontier) - seen;
      var hits := parents * failed;
      if hits != {} {
        return Some(Min(hits));
      }
      if parents != {} { RingShrinksRest(g, node, k); }
      seen := seen + parents;
      frontier := parents;
      k := k + 1;
    }
    r := None;
  }

  // -- Ancestors of an acyclic graph ---------------------------------------------------

  ghost predicate Ranked(g: Graph, rank: map<Id, nat>) {
    forall n, p :: n in g && p in g[n] ==> n in rank && p in rank && rank[p] < rank[n]
  }

  /** dbt accepts only acyclic projects. */
  ghost predicate Acyclic(g: Graph) {
    exists rank :: Ranked(g, rank)
  }

  ghost function Ranks(g: Graph): (rank: map<Id, nat>)
    requires Acyclic(g)
    ensures Ranked(g, rank)
  {
    var rank :| Ranked(g, rank); rank
  }

  ghost function Rank(g: Graph, n: Id): nat
    requires Acyclic(g)
  {
    if n in Ranks(g) then Ranks(g)[n] else 0
  }

  /** Every node above `n`. */
  function Ancestors(g: Graph, n: Id): set<Id>
    requires Acyclic(g)
    decreases Rank(g, n)
  {
    if n !in g then {} else
      assert Ranked(g, Ranks(g));
      g[n] + set p, a | p in g[n] && a in Ancestors(g, p) :: a
  }

  /** An ancestor is a parent, or an ancestor of one. */
  lemma AncestorStep(g: Graph, n: Id, a: Id) returns (p: Id)
    requires Acyclic(g) && a in Ancestors(g, n)
    ensures n in g && p in g[n] && Rank(g, p) < Rank(g, n) && (a == p || a in Ancestors(g, p))
  {
    assert Ranked(g, Ranks(g));
    if a in g[n] {
      p := a;
    } else {
      p :| p in g[n] && a in Ancestors(g, p);
    }
  }

  /** Nothing is above itself. */
  lemma {:induction false} AncestorsRankLower(g: Graph, n: Id, a: Id)
    requires Acyclic(g) && a in Ancestors(g, n)
    ensures Rank(g, a) < Rank(g, n) && a != n
    decreases Rank(g, n)
  {
    var p := AncestorStep(g, n, a);
    if a != p { AncestorsRankLower(g, p, a); }
  }

  lemma AncestorsOfParent(g: Graph, n: Id, p: Id, a: Id)
    requires Acyclic(g) && n in g && p in g[n] && a in Ancestors(g, p)
    ensures a in Ancestors(g, n)
  {
  }

  lemma {:induction false} AncestorsTransitive(g: Graph, a: Id, b: Id, c: Id)
    requires Acyclic(g)
    requires a in Ancestors(g, b) && b in Ancestors(g, c)
    ensures a in Ancestors(g, c)
    decreases Rank(g, c)
  {
    var p := AncestorStep(g, c, b);
    if b != p { AncestorsTransitive(g, a, b, p); }
    AncestorsOfParent(g, c, p, a);
  }

  lemma {:induction false} AncestorsReach(g: Graph, n: Id, a: Id) returns (k: nat)
    requires Acyclic(g) && a in Ancestors(g, n)
    ensures a in Within(g, n, k)
    decreases Rank(g, n)
  {
    var p := AncestorStep(g, n, a);
    var j: nat := 0;
    if a == p {
      WithinItself(g, p);
    } else {
      j := AncestorsReach(g, p, a);
    }
    ReachThroughParent(g, n, p, j, a);
    k := j + 1;
  }

  lemma WithinItself(g: Graph, n: Id)
    ensures n in Within(g, n, 0)
  {
  }

  lemma ReachThroughParent(g: Graph, n: Id, p: Id, j: nat, a: Id)
    requires n in g && p in g[n] && a in Within(g, p, j)
    ensures a in Within(g, n, j + 1)
  {
    WithinFromParent(g, n, p, j);
  }

  lemma ParentsAreWithinOne(g: Graph, n: Id, p: Id)
    requires n in g && p in g[n]
    ensures p in Within(g, n, 1)
  {
    assert Within(g, n, 0) == {n};
    assert p in Parents(g, {n});
  }

  lemma ParentsMonotone(g: Graph, a: set<Id>, b: set<Id>)
    requires a <= b
    ensures Parents(g, a) <= Parents(g, b)
  {
  }

  lemma {:induction false} WithinFromParent(g: Graph, n: Id, p: Id, j: nat)
    requires n in g && p in g[n]
    ensures Within(g, p, j) <= Within(g, n, j + 1)
    decreases j
  {
    if j == 0 {
      ParentsAreWithinOne(g, n, p);
    } else {
      WithinFromParent(g, n, p, j - 1);
      ParentsMonotone(g, Within(g, p, j - 1), Within(g, n, j));
    }
  }

  lemma {:induction false} WithinAreAncestors(g: Graph, n: Id, k: nat, a: Id)
    requires Acyclic(g) && a in Within(g, n, k) && a != n
    ensures a in Ancestors(g, n)
    decreases k
  {
    if a in Within(g, n, k - 1) {
      WithinAreAncestors(g, n, k - 1, a);
    } else {
      var c :| c in Within(g, n, k - 1) && c in g && a in g[c];
      if c != n {
        WithinAreAncestors(g, n, k - 1, c);
        AncestorsTransitive(g, a, c, n);
      }
    }
  }

  /** The search returns a failed ancestor exactly when there is one. */
  lemma NearestExactlyWhenOneExists(g: Graph, n: Id, failed: set<Id>)
    requires Closed(g) && Acyclic(g)
    ensures Nearest(g, n, failed).Some? <==> Ancestors(g, n) * failed != {}
    ensures Nearest(g, n, failed).Some? ==>
              Nearest(g, n, failed).value in Ancestors(g, n) * failed && Rank(g, Nearest(g, n, failed).value) < Rank(g, n)
  {
    NearestIsClosest(g, n, failed);
    match Nearest(g, n, failed) {
      case None =>
        forall a | a in Ancestors(g, n) ensures a !in failed {
          var k := AncestorsReach(g, n, a);
          AncestorsRankLower(g, n, a);
          assert Clear(g, n, failed, k);
        }
      case Some(p) =>
        var d: nat :| ClosestAt(g, n, failed, p, d);
        WithinMonotone(g, n, 0, d - 1);
        WithinAreAncestors(g, n, d, p);
        AncestorsRankLower(g, n, p);
    }
  }

  // -- Told by paths -------------------------------------------------------------------

  /** A walk from `n` up to `a`, an edge a step. */
  ghost predicate IsPath(g: Graph, path: seq<Id>, n: Id, a: Id) {
    && path != [] && path[0] == n && path[|path| - 1] == a
    && forall i :: 0 <= i < |path| - 1 ==> path[i] in g && path[i + 1] in g[path[i]]
  }

  lemma OneStepMore(g: Graph, path: seq<Id>, n: Id, a: Id, p: Id)
    requires IsPath(g, path, n, a) && a in g && p in g[a]
    ensures IsPath(g, path + [p], n, p)
  {
  }

  lemma {:induction false} WithinHasPath(g: Graph, n: Id, k: nat, a: Id) returns (path: seq<Id>)
    requires a in Within(g, n, k)
    ensures IsPath(g, path, n, a) && |path| <= k + 1
  {
    if k == 0 {
      path := [n];
    } else if a in Within(g, n, k - 1) {
      path := WithinHasPath(g, n, k - 1, a);
    } else {
      var c :| c in Within(g, n, k - 1) && c in g && a in g[c];
      path := WithinHasPath(g, n, k - 1, c);
      OneStepMore(g, path, n, c, a);
      path := path + [a];
    }
  }

  lemma {:induction false} PathIsWithin(g: Graph, path: seq<Id>, n: Id, a: Id, k: nat)
    requires IsPath(g, path, n, a) && |path| <= k + 1
    ensures a in Within(g, n, k)
  {
    var m := |path| - 1;
    if m > 0 {
      var before := path[..m];
      assert before[m - 1] == path[m - 1] && path[m - 1 + 1] in g[path[m - 1]];
      PathIsWithin(g, before, n, path[m - 1], k - 1);
      assert a in Parents(g, Within(g, n, k - 1));
    } else {
      WithinMonotone(g, n, 0, k);
      WithinItself(g, n);
    }
  }

  /** The nodes within `k` edges are those a walk of `k` edges or fewer leads to. */
  lemma WithinArePaths(g: Graph, n: Id, k: nat, a: Id)
    ensures a in Within(g, n, k) <==> exists path :: IsPath(g, path, n, a) && |path| <= k + 1
  {
    if a in Within(g, n, k) {
      var path := WithinHasPath(g, n, k, a);
    }
    if path :| IsPath(g, path, n, a) && |path| <= k + 1 {
      PathIsWithin(g, path, n, a, k);
    }
  }

  ghost predicate IsAbove(g: Graph, a: Id, n: Id) {
    exists path :: IsPath(g, path, n, a) && |path| > 1
  }

  /** The ancestors of a node are what some walk of an edge or more leads to. */
  lemma AncestorsAreAbove(g: Graph, n: Id, a: Id)
    requires Acyclic(g)
    ensures a in Ancestors(g, n) <==> IsAbove(g, a, n)
  {
    if a in Ancestors(g, n) {
      var k := AncestorsReach(g, n, a);
      var path := WithinHasPath(g, n, k, a);
      AncestorsRankLower(g, n, a);
      assert |path| > 1;
    }
    if path :| IsPath(g, path, n, a) && |path| > 1 {
      PathIsAncestor(g, path, n, a);
    }
  }

  lemma {:induction false} PathIsAncestor(g: Graph, path: seq<Id>, n: Id, a: Id)
    requires Acyclic(g) && IsPath(g, path, n, a) && |path| > 1
    ensures a in Ancestors(g, n)
  {
    var m := |path| - 1;
    var c := path[m - 1];
    assert path[m - 1 + 1] in g[c];
    assert a in Ancestors(g, c);
    if m > 1 {
      PathIsAncestor(g, path[..m], n, c);
      AncestorsTransitive(g, a, c, n);
    }
  }

  /** `p` has failed, fewer edges above `n` than any other failed node, the smallest id of those as close. */
  ghost predicate ClosestUp(g: Graph, n: Id, failed: set<Id>, p: Id) {
    exists path ::
      && IsPath(g, path, n, p) && |path| > 1 && p in failed
      && forall q, other :: q in failed && IsPath(g, other, n, q) && |other| > 1
           ==> |path| < |other| || (|path| == |other| && Leq(p, q))
  }

  lemma ClosestIsClosestUp(g: Graph, n: Id, failed: set<Id>, p: Id, d: nat)
    requires Acyclic(g) && ClosestAt(g, n, failed, p, d)
    ensures ClosestUp(g, n, failed, p)
  {
    var path := WithinHasPath(g, n, d, p);
    if |path| <= d { PathIsWithin(g, path, n, p, d - 1); }
    forall q, other | q in failed && IsPath(g, other, n, q) && |other| > 1
      ensures |path| < |other| || (|path| == |other| && Leq(p, q))
    {
      NoneIsCloser(g, n, failed, p, d, q, other);
    }
  }

  lemma NoneIsCloser(g: Graph, n: Id, failed: set<Id>, p: Id, d: nat, q: Id, other: seq<Id>)
    requires Acyclic(g) && ClosestAt(g, n, failed, p, d) && q in failed && IsPath(g, other, n, q) && |other| > 1
    ensures d + 1 < |other| || (d + 1 == |other| && Leq(p, q))
  {
    PathIsAncestor(g, other, n, q);
    AncestorsRankLower(g, n, q);
    if |other| <= d { PathIsWithin(g, other, n, q, d - 1); }
    if |other| == d + 1 { PathIsWithin(g, other, n, q, d); }
  }

  lemma OneClosestUp(g: Graph, n: Id, failed: set<Id>, p: Id, q: Id)
    requires ClosestUp(g, n, failed, p) && ClosestUp(g, n, failed, q)
    ensures p == q
  {
    var path :| IsPath(g, path, n, p) && |path| > 1 && p in failed
      && forall q, other :: q in failed && IsPath(g, other, n, q) && |other| > 1
           ==> |path| < |other| || (|path| == |other| && Leq(p, q));
    var other :| IsPath(g, other, n, q) && |other| > 1 && q in failed
      && forall p, path :: p in failed && IsPath(g, path, n, p) && |path| > 1
           ==> |other| < |path| || (|other| == |path| && Leq(q, p));
    LeqAntisymmetric(p, q);
  }

  /** The search answers the failed node fewest edges above, the smallest id of those as close. */
  lemma NearestIsClosestUp(g: Graph, n: Id, failed: set<Id>, p: Id)
    requires Closed(g) && Acyclic(g)
    ensures Nearest(g, n, failed) == Some(p) <==> ClosestUp(g, n, failed, p)
  {
    NearestIsClosest(g, n, failed);
    NearestExactlyWhenOneExists(g, n, failed);
    var r := Nearest(g, n, failed);
    if r.Some? {
      var d: nat :| ClosestAt(g, n, failed, r.value, d);
      ClosestIsClosestUp(g, n, failed, r.value, d);
    }
    if ClosestUp(g, n, failed, p) {
      var path :| IsPath(g, path, n, p) && |path| > 1 && p in failed;
      PathIsAncestor(g, path, n, p);
      assert p in Ancestors(g, n) * failed;
      OneClosestUp(g, n, failed, p, r.value);
    }
  }
}
