/** The groups failing checks fall into, told by the reports and by walks up the lineage. */
module Grouped {
  import opened Ids
  import opened Lineage
  import opened Grouping
  import opened Checks

  /** The nodes some check is about. */
  ghost predicate AreFailed(events: seq<CheckEvent>, failed: set<Id>) {
    forall n :: n in failed <==> exists e :: e in events && e.subject == n
  }

  /** A failed node with no failed node above it. */
  ghost predicate IsTop(g: Graph, failed: set<Id>, n: Id) {
    n in failed && forall p :: p in failed ==> !IsAbove(g, p, n)
  }

  /** The failed node closest above a skipped one is counted under a root. */
  ghost predicate SkippedFor(g: Graph, failed: set<Id>, n: Id, root: Id) {
    n !in failed && exists p :: ClosestUp(g, n, failed, p) && IsRootOf(g, failed, p, root)
  }

  /** A failed node below a root, and below another one too. */
  ghost predicate SharedWith(g: Graph, failed: set<Id>, n: Id, root: Id) {
    && n in failed && IsTop(g, failed, root) && IsAbove(g, root, n)
    && exists other :: other != root && IsTop(g, failed, other) && IsAbove(g, other, n)
  }

  /** A list of ids in order, without repeats, of those that meet a condition. */
  ghost predicate Holds(list: seq<Id>, member: Id -> bool) {
    Ascending(list) && forall n :: n in list <==> member(n)
  }

  /** All that is counted under a root: the checks, as often as reported and in order; the failed nodes; the skipped nodes;
    * the failed nodes shared with other roots. */
  ghost predicate IsGroup(g: Graph, events: seq<CheckEvent>, failed: set<Id>, skipped: set<Id>, group: Group) {
    && Ordered(group.events)
    && (forall e :: multiset(group.events)[e] == if IsRootOf(g, failed, e.subject, group.root) then multiset(events)[e] else 0)
    && Holds(group.failedNodes, n => n in failed && IsRootOf(g, failed, n, group.root))
    && Holds(group.skipped, n => n in skipped && SkippedFor(g, failed, n, group.root))
    && Holds(group.shared, n => SharedWith(g, failed, n, group.root))
  }

  lemma FailedAreSubjects(events: seq<CheckEvent>, failed: set<Id>)
    requires AreFailed(events, failed)
    ensures failed == Subjects(events)
  {
    forall n ensures n in failed <==> n in Subjects(events) {
      if n in Subjects(events) { var e :| e in events && e.subject == n; }
    }
  }

  lemma {:induction false} EventsUnderAre(rootOf: map<Id, Id>, events: seq<CheckEvent>, root: Id, e: CheckEvent)
    ensures multiset(EventsUnder(rootOf, events, root))[e]
         == if e.subject in rootOf && rootOf[e.subject] == root then multiset(events)[e] else 0
  {
    if events != [] {
      var n := |events| - 1;
      assert events == events[..n] + [events[n]];
      EventsUnderAre(rootOf, events[..n], root, e);
    }
  }

  lemma {:induction false} EventsUnderAreOrdered(rootOf: map<Id, Id>, events: seq<CheckEvent>, root: Id)
    requires Ordered(events)
    ensures Ordered(EventsUnder(rootOf, events, root))
    ensures forall e :: e in EventsUnder(rootOf, events, root) ==> e in events
  {
    if events != [] {
      var n := |events| - 1;
      EventsUnderAreOrdered(rootOf, events[..n], root);
      var before := EventsUnder(rootOf, events[..n], root);
      forall i | 0 <= i < |before| ensures NotAfter(before[i], events[n]) {
        assert before[i] in events[..n];
      }
    }
  }

  lemma TopsAreRoots(g: Graph, failed: set<Id>, n: Id)
    requires Closed(g) && Acyclic(g)
    ensures n in Roots(g, failed) <==> IsTop(g, failed, n)
  {
    RootsAreTheTopFailures(g, failed);
    forall p ensures p in Ancestors(g, n) <==> IsAbove(g, p, n) { AncestorsAreAbove(g, n, p); }
    if Ancestors(g, n) * failed == {} {
      forall p | p in failed ensures !IsAbove(g, p, n) { assert p !in Ancestors(g, n) * failed; }
    } else {
      var p :| p in Ancestors(g, n) * failed;
      assert IsAbove(g, p, n);
    }
  }

  lemma ImpactIsSkippedFor(g: Graph, failed: set<Id>, n: Id, root: Id)
    requires Closed(g) && Acyclic(g) && ImpactOf(g, RootMap(g, failed), n) == Some(root)
    ensures SkippedFor(g, failed, n, root)
  {
    assert RootMap(g, failed).Keys == failed;
    var p := Nearest(g, n, failed).value;
    NearestIsClosestUp(g, n, failed, p);
    RootIsThatReached(g, failed, p, root);
  }

  lemma SkippedForIsImpact(g: Graph, failed: set<Id>, n: Id, root: Id, p: Id)
    requires Closed(g) && Acyclic(g) && n !in failed && ClosestUp(g, n, failed, p) && IsRootOf(g, failed, p, root)
    ensures ImpactOf(g, RootMap(g, failed), n) == Some(root)
  {
    assert RootMap(g, failed).Keys == failed;
    InTheGraph(g, n, failed, p);
    NearestIsClosestUp(g, n, failed, p);
    RootIsThatReached(g, failed, p, root);
  }

  lemma SkippedAre(g: Graph, failed: set<Id>, n: Id, root: Id)
    requires Closed(g) && Acyclic(g)
    ensures ImpactOf(g, RootMap(g, failed), n) == Some(root) <==> SkippedFor(g, failed, n, root)
  {
    if ImpactOf(g, RootMap(g, failed), n) == Some(root) { ImpactIsSkippedFor(g, failed, n, root); }
    if SkippedFor(g, failed, n, root) {
      var p :| ClosestUp(g, n, failed, p) && IsRootOf(g, failed, p, root);
      SkippedForIsImpact(g, failed, n, root, p);
    }
  }

  lemma InTheGraph(g: Graph, n: Id, failed: set<Id>, p: Id)
    requires ClosestUp(g, n, failed, p)
    ensures n in g && p in failed
  {
    var path :| IsPath(g, path, n, p) && |path| > 1 && p in failed;
    assert path[0 + 1] in g[path[0]];
  }

  lemma OneOfTwo(s: set<Id>, x: Id)
    requires x in s
    ensures |s| > 1 <==> exists y :: y != x && y in s
  {
    var rest := s - {x};
    assert s == rest + {x} && |s| == |rest| + 1;
    if |rest| > 0 { var y :| y in rest; }
  }

  lemma SharedIsWith(g: Graph, failed: set<Id>, n: Id, root: Id)
    requires Closed(g) && Acyclic(g) && root in Roots(g, failed)
    requires n in SharedUnder(AncestorMap(g), RootMap(g, failed), root)
    ensures SharedWith(g, failed, n, root)
  {
    RootMapValues(g, failed);
    OneOfTwo(Roots(g, failed) * Ancestors(g, n), root);
    var other :| other != root && other in Roots(g, failed) * Ancestors(g, n);
    TopsAreRoots(g, failed, root);
    TopsAreRoots(g, failed, other);
    AncestorsAreAbove(g, n, root);
    AncestorsAreAbove(g, n, other);
  }

  lemma TwoAbove(above: map<Id, set<Id>>, rootOf: map<Id, Id>, n: Id, root: Id, other: Id)
    requires n in rootOf && n in above && n !in rootOf.Values && other != root
    requires root in rootOf.Values * above[n] && other in rootOf.Values * above[n]
    ensures n in SharedUnder(above, rootOf, root)
  {
    OneOfTwo(rootOf.Values * above[n], root);
  }

  lemma WithIsShared(g: Graph, failed: set<Id>, n: Id, root: Id, other: Id)
    requires Closed(g) && Acyclic(g) && n in failed && other != root
    requires IsTop(g, failed, root) && IsAbove(g, root, n) && IsTop(g, failed, other) && IsAbove(g, other, n)
    ensures n in SharedUnder(AncestorMap(g), RootMap(g, failed), root)
  {
    RootMapValues(g, failed);
    BelowIsNoRoot(g, failed, n, root);
    RootAbove(g, failed, n, root);
    RootAbove(g, failed, n, other);
    TwoAbove(AncestorMap(g), RootMap(g, failed), n, root, other);
  }

  lemma BelowIsNoRoot(g: Graph, failed: set<Id>, n: Id, root: Id)
    requires Closed(g) && Acyclic(g) && IsTop(g, failed, root) && IsAbove(g, root, n)
    ensures n in g && n !in Roots(g, failed)
  {
    TopsAreRoots(g, failed, n);
    BelowIsInTheGraph(g, root, n);
  }

  lemma RootAbove(g: Graph, failed: set<Id>, n: Id, root: Id)
    requires Closed(g) && Acyclic(g) && IsTop(g, failed, root) && IsAbove(g, root, n)
    ensures root in Roots(g, failed) * Ancestors(g, n)
  {
    TopsAreRoots(g, failed, root);
    AncestorsAreAbove(g, n, root);
  }

  lemma SharedAre(g: Graph, failed: set<Id>, n: Id, root: Id)
    requires Closed(g) && Acyclic(g) && root in Roots(g, failed)
    ensures n in SharedUnder(AncestorMap(g), RootMap(g, failed), root) <==> SharedWith(g, failed, n, root)
  {
    if n in SharedUnder(AncestorMap(g), RootMap(g, failed), root) { SharedIsWith(g, failed, n, root); }
    if SharedWith(g, failed, n, root) {
      var other :| other != root && IsTop(g, failed, other) && IsAbove(g, other, n);
      WithIsShared(g, failed, n, root, other);
    }
  }

  lemma BelowIsInTheGraph(g: Graph, a: Id, n: Id)
    requires IsAbove(g, a, n)
    ensures n in g
  {
    var path :| IsPath(g, path, n, a) && |path| > 1;
    assert path[0 + 1] in g[path[0]];
  }

  lemma ChecksOfGroup(g: Graph, events: seq<CheckEvent>, failed: set<Id>, root: Id)
    requires Closed(g) && Acyclic(g) && AreFailed(events, failed)
    ensures var mine := EventsUnder(RootMap(g, failed), InOrderOfCheck(events), root);
      && Ordered(mine)
      && forall e :: multiset(mine)[e] == if IsRootOf(g, failed, e.subject, root) then multiset(events)[e] else 0
  {
    var rootOf, ordered := RootMap(g, failed), InOrderOfCheck(events);
    InOrderOfCheckKeeps(events);
    EventsUnderAreOrdered(rootOf, ordered, root);
    forall e ensures multiset(EventsUnder(rootOf, ordered, root))[e]
                  == if IsRootOf(g, failed, e.subject, root) then multiset(events)[e] else 0 {
      EventsUnderAre(rootOf, ordered, root, e);
      RootIsThatReached(g, failed, e.subject, root);
      assert e in events ==> e.subject in failed;
    }
  }

  lemma NodesOfGroup(g: Graph, failed: set<Id>, root: Id)
    requires Closed(g) && Acyclic(g)
    ensures Holds(Sorted(FailedUnder(RootMap(g, failed), root)), n => n in failed && IsRootOf(g, failed, n, root))
  {
    SortedAscends(FailedUnder(RootMap(g, failed), root));
    forall n ensures n in FailedUnder(RootMap(g, failed), root) <==> n in failed && IsRootOf(g, failed, n, root) {
      RootIsThatReached(g, failed, n, root);
    }
  }

  lemma SkippedOfGroup(g: Graph, failed: set<Id>, skipped: set<Id>, root: Id)
    requires Closed(g) && Acyclic(g)
    ensures Holds(Sorted(SkippedUnder(g, RootMap(g, failed), skipped, root)), n => n in skipped && SkippedFor(g, failed, n, root))
  {
    SortedAscends(SkippedUnder(g, RootMap(g, failed), skipped, root));
    forall n ensures n in SkippedUnder(g, RootMap(g, failed), skipped, root) <==> n in skipped && SkippedFor(g, failed, n, root) {
      SkippedAre(g, failed, n, root);
    }
  }

  lemma SharedOfGroup(g: Graph, failed: set<Id>, root: Id)
    requires Closed(g) && Acyclic(g) && root in Roots(g, failed)
    ensures Holds(Sorted(SharedUnder(AncestorMap(g), RootMap(g, failed), root)), n => SharedWith(g, failed, n, root))
  {
    SortedAscends(SharedUnder(AncestorMap(g), RootMap(g, failed), root));
    forall n ensures n in SharedUnder(AncestorMap(g), RootMap(g, failed), root) <==> SharedWith(g, failed, n, root) {
      SharedAre(g, failed, n, root);
    }
  }

  lemma OneGroup(g: Graph, events: seq<CheckEvent>, failed: set<Id>, skipped: set<Id>, root: Id)
    requires Closed(g) && Acyclic(g) && AreFailed(events, failed) && root in Roots(g, failed)
    ensures IsGroup(g, events, failed, skipped, GroupOf(g, RootMap(g, failed), InOrderOfCheck(events), skipped, root))
  {
    ChecksOfGroup(g, events, failed, root);
    NodesOfGroup(g, failed, root);
    SkippedOfGroup(g, failed, skipped, root);
    SharedOfGroup(g, failed, root);
  }

  /** Exactly the failed nodes with none above head groups, in order of id, and each group is all that is counted there. */
  ghost predicate AreTheGroups(g: Graph, events: seq<CheckEvent>, failed: set<Id>, skipped: set<Id>, groups: seq<Group>) {
    && Holds(GroupRoots(groups), n => IsTop(g, failed, n))
    && |GroupRoots(groups)| == |groups|
    && forall group :: group in groups ==> IsGroup(g, events, failed, skipped, group)
  }

  lemma {:induction false} EveryGroup(g: Graph, events: seq<CheckEvent>, failed: set<Id>, skipped: set<Id>, heads: seq<Id>)
    requires Closed(g) && Acyclic(g) && AreFailed(events, failed) && forall h :: h in heads ==> h in Roots(g, failed)
    ensures forall group :: group in Groups(g, RootMap(g, failed), InOrderOfCheck(events), skipped, heads)
              ==> IsGroup(g, events, failed, skipped, group)
  {
    if heads != [] {
      var n := |heads| - 1;
      EveryGroup(g, events, failed, skipped, heads[..n]);
      OneGroup(g, events, failed, skipped, heads[n]);
    }
  }

  /** The theorem: the groups of failing checks are those, whatever the reports. */
  lemma GroupsAreThose(g: Graph, events: seq<CheckEvent>, failed: set<Id>, skipped: set<Id>)
    requires Closed(g) && Acyclic(g) && AreFailed(events, failed)
    ensures AreTheGroups(g, events, failed, skipped, GroupsOf(g, events, skipped))
  {
    var heads := Sorted(Roots(g, failed));
    FailedAreSubjects(events, failed);
    SortedAscends(Roots(g, failed));
    EveryGroup(g, events, failed, skipped, heads);
    GroupRootsAreHeads(g, RootMap(g, failed), InOrderOfCheck(events), skipped, heads);
    forall n ensures n in heads <==> IsTop(g, failed, n) { TopsAreRoots(g, failed, n); }
  }
}
