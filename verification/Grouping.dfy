/** One run's failing checks grouped by root cause: one group per failed node with no failed ancestor. */
module Grouping {
  import opened Ids
  import opened Lineage
  import opened Checks

  // -- Roots ---------------------------------------------------------------------------

  /** A failed node's root: the node itself when nothing above it failed, else the root of its nearest failed ancestor. */
  function RootOf(g: Graph, failed: set<Id>, n: Id): Id
    requires Closed(g) && Acyclic(g)
    decreases Rank(g, n)
  {
    NearestExactlyWhenOneExists(g, n, failed);
    match if n in g then Nearest(g, n, failed) else None
    case None => n
    case Some(p) => RootOf(g, failed, p)
  }

  function Roots(g: Graph, failed: set<Id>): set<Id>
    requires Closed(g) && Acyclic(g)
  {
    set n | n in failed :: RootOf(g, failed, n)
  }

  /** A node's root has failed, no ancestor of it has, and it is the node or above it. */
  lemma {:induction false} RootIsTop(g: Graph, failed: set<Id>, n: Id)
    requires Closed(g) && Acyclic(g) && n in failed
    ensures var root := RootOf(g, failed, n);
            && root in failed && Ancestors(g, root) * failed == {}
            && (root == n || root in Ancestors(g, n))
    decreases Rank(g, n)
  {
    NearestExactlyWhenOneExists(g, n, failed);
    if n in g && Nearest(g, n, failed).Some? {
      var p := Nearest(g, n, failed).value;
      RootIsTop(g, failed, p);
      if RootOf(g, failed, p) != p {
        AncestorsTransitive(g, RootOf(g, failed, p), p, n);
      }
    }
  }

  /** A failed node with no failed ancestor is its own root. */
  lemma TopIsItsOwnRoot(g: Graph, failed: set<Id>, n: Id)
    requires Closed(g) && Acyclic(g)
    requires Ancestors(g, n) * failed == {}
    ensures RootOf(g, failed, n) == n
  {
    NearestExactlyWhenOneExists(g, n, failed);
  }

  /** A walk from `n` to its root: each step to the failed node fewest edges above, the last with none above. */
  ghost predicate LeadsTo(g: Graph, failed: set<Id>, chain: seq<Id>, n: Id, root: Id) {
    && chain != [] && chain[0] == n && chain[|chain| - 1] == root
    && (forall i :: 0 <= i < |chain| - 1 ==> ClosestUp(g, chain[i], failed, chain[i + 1]))
    && (forall p :: p in failed ==> !IsAbove(g, p, root))
  }

  ghost predicate IsRootOf(g: Graph, failed: set<Id>, n: Id, root: Id) {
    exists chain :: LeadsTo(g, failed, chain, n, root)
  }

  lemma NoneIsAbove(g: Graph, failed: set<Id>, n: Id)
    requires Closed(g) && Acyclic(g)
    ensures Nearest(g, n, failed).None? <==> forall p :: p in failed ==> !IsAbove(g, p, n)
  {
    NearestExactlyWhenOneExists(g, n, failed);
    forall p ensures p in Ancestors(g, n) <==> IsAbove(g, p, n) { AncestorsAreAbove(g, n, p); }
    if Nearest(g, n, failed).None? {
      forall p | p in failed ensures !IsAbove(g, p, n) { assert p !in Ancestors(g, n) * failed; }
    } else {
      var p := Nearest(g, n, failed).value;
      assert p in Ancestors(g, n) * failed;
    }
  }

  lemma NotInNearest(g: Graph, failed: set<Id>, n: Id)
    requires Closed(g) && Acyclic(g)
    ensures (if n in g then Nearest(g, n, failed) else None) == Nearest(g, n, failed)
  {
    NearestExactlyWhenOneExists(g, n, failed);
  }

  /** A node's root is the one that walk ends at, and there is no other. */
  lemma {:induction false} RootIsReached(g: Graph, failed: set<Id>, n: Id)
    requires Closed(g) && Acyclic(g)
    ensures IsRootOf(g, failed, n, RootOf(g, failed, n))
    decreases Rank(g, n)
  {
    NearestExactlyWhenOneExists(g, n, failed);
    NotInNearest(g, failed, n);
    NoneIsAbove(g, failed, n);
    if Nearest(g, n, failed).None? {
      assert LeadsTo(g, failed, [n], n, n);
    } else {
      var p := Nearest(g, n, failed).value;
      NearestIsClosestUp(g, n, failed, p);
      RootIsReached(g, failed, p);
      var chain :| LeadsTo(g, failed, chain, p, RootOf(g, failed, p));
      assert LeadsTo(g, failed, [n] + chain, n, RootOf(g, failed, n));
    }
  }

  lemma {:induction false} OneRoot(g: Graph, failed: set<Id>, chain: seq<Id>, n: Id, root: Id)
    requires Closed(g) && Acyclic(g) && LeadsTo(g, failed, chain, n, root)
    ensures root == RootOf(g, failed, n)
    decreases |chain|
  {
    NotInNearest(g, failed, n);
    NoneIsAbove(g, failed, n);
    if |chain| > 1 {
      assert ClosestUp(g, chain[0], failed, chain[0 + 1]);
      NearestIsClosestUp(g, n, failed, chain[1]);
      NearestExactlyWhenOneExists(g, n, failed);
      OneRoot(g, failed, chain[1..], chain[1], root);
    }
  }

  lemma RootIsThatReached(g: Graph, failed: set<Id>, n: Id, root: Id)
    requires Closed(g) && Acyclic(g)
    ensures RootOf(g, failed, n) == root <==> IsRootOf(g, failed, n, root)
  {
    RootIsReached(g, failed, n);
    if chain :| LeadsTo(g, failed, chain, n, root) { OneRoot(g, failed, chain, n, root); }
  }

  /** The roots are exactly the failed nodes with no failed ancestor. */
  lemma RootsAreTheTopFailures(g: Graph, failed: set<Id>)
    requires Closed(g) && Acyclic(g)
    ensures Roots(g, failed) == set n | n in failed && Ancestors(g, n) * failed == {}
  {
    forall n | n in failed ensures RootOf(g, failed, n) in failed
                                   && Ancestors(g, RootOf(g, failed, n)) * failed == {} {
      RootIsTop(g, failed, n);
    }
    forall n | n in failed && Ancestors(g, n) * failed == {} ensures n in Roots(g, failed) {
      TopIsItsOwnRoot(g, failed, n);
    }
  }

  /** More failures move an old root only to itself or up the graph, never sideways or down. */
  lemma FailuresMoveRootsUp(g: Graph, failed: set<Id>, more: set<Id>, root: Id)
    requires Closed(g) && Acyclic(g)
    requires failed <= more && root in Roots(g, failed)
    ensures RootOf(g, more, root) == root || RootOf(g, more, root) in Ancestors(g, root)
    ensures RootOf(g, more, root) in Roots(g, more)
    ensures root in Roots(g, more) <==> Ancestors(g, root) * more == {}
  {
    RootsAreTheTopFailures(g, failed);
    RootsAreTheTopFailures(g, more);
    RootIsTop(g, more, root);
  }

  /** Every failed node's root, each resolved once and remembered. */
  class RootTable {
    const g: Graph
    const failed: set<Id>
    var rootOf: map<Id, Id>

    ghost predicate Valid()
      reads this
    {
      && Closed(g) && Acyclic(g)
      && rootOf.Keys <= failed
      && forall n :: n in rootOf ==> rootOf[n] == RootOf(g, failed, n)
    }

    constructor (g: Graph, failed: set<Id>)
      requires Closed(g) && Acyclic(g)
      ensures Valid() && this.g == g && this.failed == failed && rootOf == map[]
    {
      this.g, this.failed, rootOf := g, failed, map[];
    }

    method Resolve(node: Id) returns (root: Id)
      requires Valid() && node in failed
      modifies this
      ensures Valid()
      ensures root == RootOf(g, failed, node)
      ensures old(rootOf.Keys) <= rootOf.Keys && node in rootOf
      decreases Rank(g, node)
    {
      if node in rootOf {
        return rootOf[node];
      }
      NearestExactlyWhenOneExists(g, node, failed);
      var parent := None;
      if node in g {
        parent := NearestFailedAncestor(g, node, failed);
      }
      if parent.None? {
        root := node;
      } else {
        root := Resolve(parent.value);
      }
      rootOf := rootOf[node := root];
    }
  }

  /** Every failed node's root. */
  function RootMap(g: Graph, failed: set<Id>): map<Id, Id>
    requires Closed(g) && Acyclic(g)
  {
    map n | n in failed :: RootOf(g, failed, n)
  }

  method RootsByNode(g: Graph, failed: set<Id>) returns (rootOf: map<Id, Id>)
    requires Closed(g) && Acyclic(g)
    ensures rootOf == RootMap(g, failed)
  {
    var table := new RootTable(g, failed);
    var nodes := InOrder(failed);
    for i := 0 to |nodes|
      invariant table.Valid() && table.g == g && table.failed == failed
      invariant forall j :: 0 <= j < i ==> nodes[j] in table.rootOf
    {
      var _ := table.Resolve(nodes[i]);
    }
    rootOf := table.rootOf;
  }

  // -- Groups --------------------------------------------------------------------------

  /** A root with everything counted under it. */
  datatype Group = Group(root: Id, events: seq<CheckEvent>, failedNodes: seq<Id>, skipped: seq<Id>,
                         shared: seq<Id>)

  function Subjects(events: seq<CheckEvent>): (failed: set<Id>) {
    set e | e in events :: e.subject
  }

  function EventsUnder(rootOf: map<Id, Id>, events: seq<CheckEvent>, root: Id): seq<CheckEvent> {
    if events == [] then [] else
      var before := EventsUnder(rootOf, events[..|events| - 1], root);
      var last := events[|events| - 1];
      if last.subject in rootOf && rootOf[last.subject] == root then before + [last] else before
  }

  /** The failed nodes whose root is `root`. */
  function FailedUnder(rootOf: map<Id, Id>, root: Id): set<Id> {
    set n | n in rootOf && rootOf[n] == root
  }

  /** The root a skipped node is placed under, if a failure is above it. */
  function ImpactOf(g: Graph, rootOf: map<Id, Id>, n: Id): Option<Id>
    requires Closed(g)
  {
    if n in rootOf || n !in g then None
    else match Nearest(g, n, rootOf.Keys)
      case None => None
      case Some(p) => if p in rootOf then Some(rootOf[p]) else None
  }

  function SkippedUnder(g: Graph, rootOf: map<Id, Id>, skipped: set<Id>, root: Id): set<Id>
    requires Closed(g)
  {
    set n | n in skipped && ImpactOf(g, rootOf, n) == Some(root)
  }

  /** `nx.ancestors` of every node. */
  function AncestorMap(g: Graph): map<Id, set<Id>>
    requires Acyclic(g)
  {
    map n | n in g :: Ancestors(g, n)
  }

  predicate BelowSeveral(above: map<Id, set<Id>>, roots: set<Id>, n: Id) {
    n !in roots && n in above && |roots * above[n]| > 1
  }

  /** Failed nodes below `root` and below another root too, whichever counts their checks. */
  function SharedUnder(above: map<Id, set<Id>>, rootOf: map<Id, Id>, root: Id): set<Id> {
    set n | n in rootOf && BelowSeveral(above, rootOf.Values, n) && root in above[n]
  }

  /** The group a root heads. */
  function GroupOf(g: Graph, rootOf: map<Id, Id>, events: seq<CheckEvent>, skipped: set<Id>, root: Id): (group: Group)
    requires Closed(g) && Acyclic(g)
    ensures group.root == root
  {
    Group(root,
          EventsUnder(rootOf, events, root),
          Sorted(FailedUnder(rootOf, root)),
          Sorted(SkippedUnder(g, rootOf, skipped, root)),
          Sorted(SharedUnder(AncestorMap(g), rootOf, root)))
  }

  function Groups(g: Graph, rootOf: map<Id, Id>, events: seq<CheckEvent>, skipped: set<Id>, heads: seq<Id>)
    : (groups: seq<Group>)
    requires Closed(g) && Acyclic(g)
    ensures |groups| == |heads|
  {
    if heads == [] then []
    else
      var before, last := Groups(g, rootOf, events, skipped, heads[..|heads| - 1]), heads[|heads| - 1];
      before + [GroupOf(g, rootOf, events, skipped, last)]
  }

  /** The groups failing checks fall into, by root; within a group the checks are in order. */
  function GroupsOf(g: Graph, events: seq<CheckEvent>, skipped: set<Id>): seq<Group>
    requires Closed(g) && Acyclic(g)
  {
    var failed := Subjects(events);
    Groups(g, RootMap(g, failed), InOrderOfCheck(events), skipped, Sorted(Roots(g, failed)))
  }

  function GroupRoots(groups: seq<Group>): seq<Id> {
    if groups == [] then [] else GroupRoots(groups[..|groups| - 1]) + [groups[|groups| - 1].root]
  }

  lemma RootsOfMore(groups: seq<Group>, group: Group)
    ensures GroupRoots(groups + [group]) == GroupRoots(groups) + [group.root]
  {
    assert (groups + [group])[..|groups|] == groups;
  }

  lemma OneHeadMore(g: Graph, rootOf: map<Id, Id>, events: seq<CheckEvent>, skipped: set<Id>, rest: seq<Id>, last: Id)
    requires Closed(g) && Acyclic(g)
    ensures Groups(g, rootOf, events, skipped, rest + [last])
         == Groups(g, rootOf, events, skipped, rest) + [GroupOf(g, rootOf, events, skipped, last)]
  {
    assert (rest + [last])[..|rest|] == rest;
  }

  lemma {:induction false} GroupRootsAreHeads(g: Graph, rootOf: map<Id, Id>, events: seq<CheckEvent>, skipped: set<Id>,
                                              heads: seq<Id>)
    requires Closed(g) && Acyclic(g)
    ensures GroupRoots(Groups(g, rootOf, events, skipped, heads)) == heads
    decreases |heads|
  {
    if heads == [] {
      assert Groups(g, rootOf, events, skipped, []) == [];
    } else {
      var rest, last := heads[..|heads| - 1], heads[|heads| - 1];
      assert heads == rest + [last];
      GroupRootsAreHeads(g, rootOf, events, skipped, rest);
      OneHeadMore(g, rootOf, events, skipped, rest, last);
      RootsOfMore(Groups(g, rootOf, events, skipped, rest), GroupOf(g, rootOf, events, skipped, last));
    }
  }

  function Count(events: seq<CheckEvent>, e: CheckEvent): nat {
    multiset(events)[e]
  }

  lemma {:induction false} EventsUnderCounts(rootOf: map<Id, Id>, events: seq<CheckEvent>, root: Id, e: CheckEvent)
    requires e.subject in rootOf
    ensures Count(EventsUnder(rootOf, events, root), e) == if rootOf[e.subject] == root then Count(events, e) else 0
  {
    if events != [] {
      var n := |events| - 1;
      EventsUnderCounts(rootOf, events[..n], root, e);
      assert events == events[..n] + [events[n]];
    }
  }

  lemma RootMapValues(g: Graph, failed: set<Id>)
    requires Closed(g) && Acyclic(g)
    ensures RootMap(g, failed).Values == Roots(g, failed)
  {
    forall n | n in failed ensures RootOf(g, failed, n) in RootMap(g, failed).Values {
      assert RootMap(g, failed)[n] == RootOf(g, failed, n);
    }
  }

  /** Every failing check is in exactly one group, the one its subject's root heads, as often as it was reported. */
  lemma EveryEventInExactlyOneGroup(g: Graph, events: seq<CheckEvent>, skipped: set<Id>, e: CheckEvent)
    requires Closed(g) && Acyclic(g) && e in events
    ensures var failed := Subjects(events);
      && RootOf(g, failed, e.subject) in Roots(g, failed)
      && forall root :: root in Roots(g, failed) ==>
           Count(GroupOf(g, RootMap(g, failed), events, skipped, root).events, e)
           == if root == RootOf(g, failed, e.subject) then Count(events, e) else 0
  {
    var failed := Subjects(events);
    assert e.subject in failed;
    var rootOf := RootMap(g, failed);
    forall root | root in Roots(g, failed)
      ensures Count(GroupOf(g, rootOf, events, skipped, root).events, e)
              == if root == RootOf(g, failed, e.subject) then Count(events, e) else 0
    {
      EventsUnderCounts(rootOf, events, root, e);
    }
  }

  // -- Checks in order -------------------------------------------------------------------

  /** By check id, then by the node the check is about. */
  predicate NotAfter(a: CheckEvent, b: CheckEvent) {
    if a.checkId == b.checkId then Leq(a.subject, b.subject) else Leq(a.checkId, b.checkId)
  }

  ghost predicate Ordered(events: seq<CheckEvent>) {
    forall i, j :: 0 <= i < j < |events| ==> NotAfter(events[i], events[j])
  }

  function Insert(events: seq<CheckEvent>, e: CheckEvent): seq<CheckEvent> {
    if events == [] || NotAfter(events[|events| - 1], e) then events + [e]
    else Insert(events[..|events| - 1], e) + [events[|events| - 1]]
  }

  /** `sorted(events)`. */
  function InOrderOfCheck(events: seq<CheckEvent>): seq<CheckEvent> {
    if events == [] then [] else Insert(InOrderOfCheck(events[..|events| - 1]), events[|events| - 1])
  }

  lemma NotAfterTransitive(a: CheckEvent, b: CheckEvent, c: CheckEvent)
    requires NotAfter(a, b) && NotAfter(b, c)
    ensures NotAfter(a, c)
  {
    if a.checkId == c.checkId {
      if a.checkId == b.checkId {
        LeqTransitive(a.subject, b.subject, c.subject);
      } else {
        LeqAntisymmetric(a.checkId, b.checkId);
      }
    } else if a.checkId != b.checkId && b.checkId != c.checkId {
      LeqTransitive(a.checkId, b.checkId, c.checkId);
    }
  }

  lemma NotAfterAntisymmetric(a: CheckEvent, b: CheckEvent)
    requires NotAfter(a, b) && NotAfter(b, a)
    ensures a == b
  {
    if a.checkId == b.checkId {
      LeqAntisymmetric(a.subject, b.subject);
    } else {
      LeqAntisymmetric(a.checkId, b.checkId);
    }
  }

  lemma {:induction false} InsertKeeps(events: seq<CheckEvent>, e: CheckEvent)
    requires Ordered(events)
    ensures Ordered(Insert(events, e)) && multiset(Insert(events, e)) == multiset(events) + multiset{e}
    ensures forall x :: x in Insert(events, e) <==> x in events || x == e
  {
    if events != [] {
      var n := |events| - 1;
      assert events == events[..n] + [events[n]];
      LeqTotal(events[n].checkId, e.checkId);
      LeqTotal(events[n].subject, e.subject);
      if NotAfter(events[n], e) {
        forall i | 0 <= i < n ensures NotAfter(events[i], e) { NotAfterTransitive(events[i], events[n], e); }
      } else {
        InsertKeeps(events[..n], e);
        var before := Insert(events[..n], e);
        forall i | 0 <= i < |before| ensures NotAfter(before[i], events[n]) {
          assert before[i] in before;
        }
      }
    }
  }

  lemma {:induction false} InOrderOfCheckKeeps(events: seq<CheckEvent>)
    ensures Ordered(InOrderOfCheck(events)) && multiset(InOrderOfCheck(events)) == multiset(events)
    ensures Subjects(InOrderOfCheck(events)) == Subjects(events)
  {
    if events != [] {
      var n := |events| - 1;
      assert events == events[..n] + [events[n]];
      InOrderOfCheckKeeps(events[..n]);
      InsertKeeps(InOrderOfCheck(events[..n]), events[n]);
    }
    SameSubjects(InOrderOfCheck(events), events);
  }

  lemma SameSubjects(a: seq<CheckEvent>, b: seq<CheckEvent>)
    requires multiset(a) == multiset(b)
    ensures Subjects(a) == Subjects(b)
  {
    forall e: CheckEvent ensures e in a <==> e in b {
      assert e in multiset(a) <==> e in multiset(b);
    }
  }

  lemma WithoutLast(events: seq<CheckEvent>)
    requires events != []
    ensures multiset(events[..|events| - 1]) == multiset(events) - multiset{events[|events| - 1]}
    ensures events[|events| - 1] in events
  {
    var n := |events| - 1;
    assert events == events[..n] + [events[n]];
    assert multiset(events) == multiset(events[..n]) + multiset{events[n]};
  }

  lemma SameLast(a: seq<CheckEvent>, b: seq<CheckEvent>)
    requires Ordered(a) && Ordered(b) && multiset(a) == multiset(b) && a != [] && b != []
    ensures a[|a| - 1] == b[|b| - 1]
  {
    var x, y := a[|a| - 1], b[|b| - 1];
    assert x in multiset(a) && y in multiset(b);
    assert x in b && y in a;
    LastIsLatest(a, y);
    LastIsLatest(b, x);
    NotAfterAntisymmetric(x, y);
  }

  lemma SameLength(a: seq<CheckEvent>, b: seq<CheckEvent>)
    requires multiset(a) == multiset(b)
    ensures |a| == |b|
  {
    assert |a| == |multiset(a)| && |b| == |multiset(b)|;
  }

  lemma WithoutLastSame(a: seq<CheckEvent>, b: seq<CheckEvent>)
    requires Ordered(a) && Ordered(b) && multiset(a) == multiset(b) && a != []
    ensures |a| == |b| && a[|a| - 1] == b[|b| - 1]
    ensures multiset(a[..|a| - 1]) == multiset(b[..|b| - 1])
  {
    SameLength(a, b);
    SameLast(a, b);
    WithoutLast(a);
    WithoutLast(b);
  }

  lemma WithoutLastOrdered(a: seq<CheckEvent>)
    requires Ordered(a) && a != []
    ensures Ordered(a[..|a| - 1])
  {
  }

  lemma SamePutTogether(a: seq<CheckEvent>, b: seq<CheckEvent>, n: nat)
    requires |a| == n + 1 == |b| && a[..n] == b[..n] && a[n] == b[n]
    ensures a == b
  {
    assert a == a[..n] + [a[n]] && b == b[..n] + [b[n]];
  }

  /** There is one way to order given checks. */
  lemma {:induction false} OneOrder(a: seq<CheckEvent>, b: seq<CheckEvent>)
    requires Ordered(a) && Ordered(b) && multiset(a) == multiset(b)
    ensures a == b
    decreases |a|
  {
    if a == [] {
      SameLength(a, b);
    } else {
      WithoutLastSame(a, b);
      WithoutLastOrdered(a);
      WithoutLastOrdered(b);
      OneOrder(a[..|a| - 1], b[..|b| - 1]);
      SamePutTogether(a, b, |a| - 1);
    }
  }

  lemma LastIsLatest(events: seq<CheckEvent>, e: CheckEvent)
    requires Ordered(events) && e in events
    ensures NotAfter(e, events[|events| - 1])
  {
    LeqTotal(e.subject, e.subject);
  }

  /** The groups are those of the checks reported, whatever order the reports came in. */
  lemma ReportOrderDoesNotMatter(g: Graph, a: seq<CheckEvent>, b: seq<CheckEvent>, skipped: set<Id>)
    requires Closed(g) && Acyclic(g) && multiset(a) == multiset(b)
    ensures GroupsOf(g, a, skipped) == GroupsOf(g, b, skipped)
  {
    InOrderOfCheckKeeps(a);
    InOrderOfCheckKeeps(b);
    OneOrder(InOrderOfCheck(a), InOrderOfCheck(b));
    SameSubjects(a, b);
  }

  // -- The loops that build them -------------------------------------------------------

  function GetSet(m: map<Id, set<Id>>, root: Id): set<Id> { if root in m then m[root] else {} }

  function GetSeq(m: map<Id, seq<CheckEvent>>, root: Id): seq<CheckEvent> { if root in m then m[root] else [] }

  /** Every root has the checks of the first `i` under it, and there is a bucket for no other. */
  ghost predicate Bucketed(rootOf: map<Id, Id>, events: seq<CheckEvent>, i: nat, byRoot: map<Id, seq<CheckEvent>>)
    requires i <= |events|
  {
    && (forall root :: root in byRoot ==> root in rootOf.Values)
    && (forall j :: 0 <= j < i ==> events[j].subject in rootOf && rootOf[events[j].subject] in byRoot)
    && (forall root :: GetSeq(byRoot, root) == EventsUnder(rootOf, events[..i], root))
  }

  lemma UnderStep(rootOf: map<Id, Id>, events: seq<CheckEvent>, i: nat, root: Id)
    requires i < |events| && events[i].subject in rootOf
    ensures EventsUnder(rootOf, events[..i + 1], root)
         == if rootOf[events[i].subject] == root then EventsUnder(rootOf, events[..i], root) + [events[i]]
            else EventsUnder(rootOf, events[..i], root)
  {
    assert events[..i + 1][..i] == events[..i];
  }

  lemma BucketedStep(rootOf: map<Id, Id>, events: seq<CheckEvent>, i: nat, byRoot: map<Id, seq<CheckEvent>>, root: Id)
    requires i < |events| && events[i].subject in rootOf && root == rootOf[events[i].subject]
    requires Bucketed(rootOf, events, i, byRoot)
    ensures Bucketed(rootOf, events, i + 1, byRoot[root := GetSeq(byRoot, root) + [events[i]]])
  {
    var after := byRoot[root := GetSeq(byRoot, root) + [events[i]]];
    forall r ensures GetSeq(after, r) == EventsUnder(rootOf, events[..i + 1], r) {
      UnderStep(rootOf, events, i, r);
      assert GetSeq(byRoot, r) == EventsUnder(rootOf, events[..i], r);
    }
  }

  method BucketEvents(rootOf: map<Id, Id>, events: seq<CheckEvent>) returns (byRoot: map<Id, seq<CheckEvent>>)
    requires rootOf.Keys == Subjects(events)
    ensures byRoot.Keys == rootOf.Values
    ensures forall root :: GetSeq(byRoot, root) == EventsUnder(rootOf, events, root)
  {
    byRoot := map[];
    for i := 0 to |events|
      invariant Bucketed(rootOf, events, i, byRoot)
    {
      assert events[i].subject in Subjects(events);
      var root := rootOf[events[i].subject];
      BucketedStep(rootOf, events, i, byRoot, root);
      byRoot := byRoot[root := GetSeq(byRoot, root) + [events[i]]];
    }
    AllBucketed(rootOf, events, byRoot);
  }

  lemma EventAbout(events: seq<CheckEvent>, n: Id) returns (j: nat)
    requires n in Subjects(events)
    ensures j < |events| && events[j].subject == n
  {
    j :| j < |events| && events[j].subject == n;
  }

  lemma RootIsBucketed(rootOf: map<Id, Id>, events: seq<CheckEvent>, byRoot: map<Id, seq<CheckEvent>>, root: Id)
    requires rootOf.Keys == Subjects(events) && Bucketed(rootOf, events, |events|, byRoot) && root in rootOf.Values
    ensures root in byRoot
  {
    var n :| n in rootOf && rootOf[n] == root;
    var j := EventAbout(events, n);
    assert rootOf[events[j].subject] in byRoot;
  }

  lemma AllBucketed(rootOf: map<Id, Id>, events: seq<CheckEvent>, byRoot: map<Id, seq<CheckEvent>>)
    requires rootOf.Keys == Subjects(events) && Bucketed(rootOf, events, |events|, byRoot)
    ensures byRoot.Keys == rootOf.Values
    ensures forall root :: GetSeq(byRoot, root) == EventsUnder(rootOf, events, root)
  {
    assert events[..|events|] == events;
    forall root | root in rootOf.Values ensures root in byRoot { RootIsBucketed(rootOf, events, byRoot, root); }
  }

  /** Skipped nodes under each root, one node at a time. */
  function Place(byRoot: map<Id, set<Id>>, node: Id, impact: Option<Id>): map<Id, set<Id>> {
    if impact.None? then byRoot else byRoot[impact.value := GetSet(byRoot, impact.value) + {node}]
  }

  ghost predicate Placed(g: Graph, rootOf: map<Id, Id>, done: set<Id>, byRoot: map<Id, set<Id>>)
    requires Closed(g)
  {
    forall root :: GetSet(byRoot, root) == SkippedUnder(g, rootOf, done, root)
  }

  lemma PlacedStep(g: Graph, rootOf: map<Id, Id>, done: set<Id>, byRoot: map<Id, set<Id>>, node: Id)
    requires Closed(g) && Placed(g, rootOf, done, byRoot)
    ensures Placed(g, rootOf, done + {node}, Place(byRoot, node, ImpactOf(g, rootOf, node)))
  {
    var impact := ImpactOf(g, rootOf, node);
    var after := Place(byRoot, node, impact);
    forall root ensures GetSet(after, root) == SkippedUnder(g, rootOf, done + {node}, root) {
      assert GetSet(after, root) == GetSet(byRoot, root) + if impact == Some(root) then {node} else {};
    }
  }

  /** The same for one node, as the loop over skipped nodes asks it. */
  method Impact(g: Graph, rootOf: map<Id, Id>, node: Id) returns (impact: Option<Id>)
    requires Closed(g) && Acyclic(g)
    ensures impact == ImpactOf(g, rootOf, node)
  {
    impact := None;
    if node !in rootOf && node in g {
      var parent := NearestFailedAncestor(g, node, rootOf.Keys);
      NearestExactlyWhenOneExists(g, node, rootOf.Keys);
      if parent.Some? {
        impact := Some(rootOf[parent.value]);
      }
    }
  }

  method BucketSkipped(g: Graph, rootOf: map<Id, Id>, skipped: set<Id>) returns (byRoot: map<Id, set<Id>>)
    requires Closed(g) && Acyclic(g)
    ensures Placed(g, rootOf, skipped, byRoot)
  {
    byRoot := map[];
    var nodes := InOrder(skipped);
    ghost var done: set<Id> := {};
    for i := 0 to |nodes|
      invariant done <= skipped && forall j :: 0 <= j < i ==> nodes[j] in done
      invariant Placed(g, rootOf, done, byRoot)
    {
      var node := nodes[i];
      PlacedStep(g, rootOf, done, byRoot, node);
      var impact := Impact(g, rootOf, node);
      if impact.Some? {
        byRoot := Place(byRoot, node, impact);
      }
      done := done + {node};
    }
    assert done == skipped;
  }

  /** Which roots each shared failure is under. */
  function SharedMap(above: map<Id, set<Id>>, roots: set<Id>, failed: set<Id>): map<Id, set<Id>> {
    map n | n in failed && BelowSeveral(above, roots, n) :: roots * above[n]
  }

  lemma SharedStep(above: map<Id, set<Id>>, roots: set<Id>, done: set<Id>, node: Id)
    ensures SharedMap(above, roots, done + {node})
            == if BelowSeveral(above, roots, node) then SharedMap(above, roots, done)[node := roots * above[node]]
               else SharedMap(above, roots, done)
  {
  }

  method SharedFailures(above: map<Id, set<Id>>, rootOf: map<Id, Id>) returns (found: map<Id, set<Id>>)
    ensures found == SharedMap(above, rootOf.Values, rootOf.Keys)
  {
    var roots := rootOf.Values;
    found := map[];
    var nodes := InOrder(rootOf.Keys);
    ghost var done: set<Id> := {};
    for i := 0 to |nodes|
      invariant done <= rootOf.Keys && forall j :: 0 <= j < i ==> nodes[j] in done
      invariant found == SharedMap(above, roots, done)
    {
      var node := nodes[i];
      SharedStep(above, roots, done, node);
      if BelowSeveral(above, roots, node) {
        found := found[node := roots * above[node]];
      }
      done := done + {node};
    }
    assert done == rootOf.Keys;
  }

  /** The groups of a run's failing checks. */
  method GroupFailures(g: Graph, events: seq<CheckEvent>, skipped: set<Id>) returns (groups: seq<Group>)
    requires Closed(g) && Acyclic(g)
    ensures groups == GroupsOf(g, events, skipped)
  {
    InOrderOfCheckKeeps(events);
    var ordered := InOrderOfCheck(events);
    var rootOf := RootsByNode(g, Subjects(ordered));
    RootMapValues(g, Subjects(events));
    groups := GroupsHeadedBy(g, rootOf, ordered, skipped, Sorted(rootOf.Values));
  }

  method GroupsHeadedBy(g: Graph, rootOf: map<Id, Id>, events: seq<CheckEvent>, skipped: set<Id>, heads: seq<Id>)
    returns (groups: seq<Group>)
    requires Closed(g) && Acyclic(g) && rootOf.Keys == Subjects(events)
    requires forall i :: 0 <= i < |heads| ==> heads[i] in rootOf.Values
    ensures groups == Groups(g, rootOf, events, skipped, heads)
  {
    var eventsByRoot := BucketEvents(rootOf, events);
    var skippedByRoot := BucketSkipped(g, rootOf, skipped);
    var shared := SharedFailures(AncestorMap(g), rootOf);
    assert forall root :: root in rootOf.Values ==> Filed(g, rootOf, events, skipped, root, eventsByRoot, skippedByRoot);
    groups := [];
    for i := 0 to |heads|
      invariant groups == Groups(g, rootOf, events, skipped, heads[..i])
    {
      GroupsStep(g, rootOf, events, skipped, heads, i);
      assert Filed(g, rootOf, events, skipped, heads[i], eventsByRoot, skippedByRoot);
      var group := HeadedBy(g, rootOf, events, skipped, heads[i], eventsByRoot, skippedByRoot, shared);
      groups := groups + [group];
    }
    assert heads[..|heads|] == heads;
  }

  /** What the buckets have of a root is all there is of it. */
  ghost predicate Filed(g: Graph, rootOf: map<Id, Id>, events: seq<CheckEvent>, skipped: set<Id>, root: Id,
                        eventsByRoot: map<Id, seq<CheckEvent>>, skippedByRoot: map<Id, set<Id>>)
    requires Closed(g) && Acyclic(g)
  {
    && GetSeq(eventsByRoot, root) == EventsUnder(rootOf, events, root)
    && GetSet(skippedByRoot, root) == SkippedUnder(g, rootOf, skipped, root)
  }

  lemma GroupsStep(g: Graph, rootOf: map<Id, Id>, events: seq<CheckEvent>, skipped: set<Id>, heads: seq<Id>, i: nat)
    requires Closed(g) && Acyclic(g) && i < |heads|
    ensures Groups(g, rootOf, events, skipped, heads[..i + 1])
         == Groups(g, rootOf, events, skipped, heads[..i]) + [GroupOf(g, rootOf, events, skipped, heads[i])]
  {
    assert heads[..i + 1][..i] == heads[..i];
  }

  method HeadedBy(g: Graph, rootOf: map<Id, Id>, events: seq<CheckEvent>, skipped: set<Id>, root: Id,
                  eventsByRoot: map<Id, seq<CheckEvent>>, skippedByRoot: map<Id, set<Id>>, shared: map<Id, set<Id>>)
    returns (group: Group)
    requires Closed(g) && Acyclic(g) && rootOf.Keys == Subjects(events) && root in rootOf.Values
    requires Filed(g, rootOf, events, skipped, root, eventsByRoot, skippedByRoot)
    requires shared == SharedMap(AncestorMap(g), rootOf.Values, rootOf.Keys)
    ensures group == GroupOf(g, rootOf, events, skipped, root)
  {
    SubjectsUnder(rootOf, events, root);
    group := MakeGroup(g, rootOf, events, skipped, root, GetSeq(eventsByRoot, root), GetSet(skippedByRoot, root), shared);
  }

  method MakeGroup(g: Graph, rootOf: map<Id, Id>, events: seq<CheckEvent>, skipped: set<Id>, root: Id,
                   mine: seq<CheckEvent>, impact: set<Id>, shared: map<Id, set<Id>>) returns (group: Group)
    requires Closed(g) && Acyclic(g)
    requires mine == EventsUnder(rootOf, events, root) && Subjects(mine) == FailedUnder(rootOf, root)
    requires impact == SkippedUnder(g, rootOf, skipped, root)
    requires root in rootOf.Values
    requires shared == SharedMap(AncestorMap(g), rootOf.Values, rootOf.Keys)
    ensures group == GroupOf(g, rootOf, events, skipped, root)
  {
    assert SharedUnder(AncestorMap(g), rootOf, root) == set n | n in shared && root in shared[n];
    group := Group(root, mine, Sorted(Subjects(mine)), Sorted(impact),
                   Sorted(set n | n in shared && root in shared[n]));
  }

  lemma {:induction false} SubjectsUnder(rootOf: map<Id, Id>, events: seq<CheckEvent>, root: Id)
    ensures Subjects(EventsUnder(rootOf, events, root)) == FailedUnder(rootOf, root) * Subjects(events)
    ensures Subjects(events) == rootOf.Keys ==>
              Subjects(EventsUnder(rootOf, events, root)) == FailedUnder(rootOf, root)
  {
    if events != [] {
      var n := |events| - 1;
      assert events == events[..n] + [events[n]];
      assert Subjects(events) == Subjects(events[..n]) + {events[n].subject};
      SubjectsUnder(rootOf, events[..n], root);
      var before := EventsUnder(rootOf, events[..n], root);
      assert Subjects(before + [events[n]]) == Subjects(before) + {events[n].subject};
    }
  }
}
