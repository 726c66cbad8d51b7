/** What a regrouping leaves behind, whatever invocations of the run came before it. */
module Settling {
  import opened Ids
  import opened Incidents

  /** The findings name a root for every failure, and every incident the run opened is at a failure. */
  ghost predicate Grounded(f: Findings, incidents: seq<Incident>, run: Run, heads: seq<Id>) {
    && Ascending(heads)
    && (forall r :: r in heads <==> r in f.rootOf.Values)
    && (forall k :: k in Mine(incidents, run) ==> incidents[k].root in f.rootOf)
  }

  // -- One regrouping ------------------------------------------------------------------

  /** The incident a group goes to is unmerged afterwards, and is the group's own root unless an earlier run opened it. */
  lemma TakenStaysLive(f: Findings, incidents: seq<Incident>, run: Run, at: int, heads: seq<Id>, root: Id)
    requires root in heads
    ensures var k := Assigned(f, incidents, run, at, heads)[root];
      var after := After(f, incidents, run, at, heads);
      && k < |after| && after[k].Live()
      && match Pick(f, incidents, Before(incidents, run, at), root)
         case Some(j) => k == j && after[k].openedBy != run && after[k].Open()
         case None => after[k].openedBy == run && after[k].root == root
  {
    AssignedMeans(f, incidents, run, at, heads, root);
    var k := Assigned(f, incidents, run, at, heads)[root];
    assert k in Assigned(f, incidents, run, at, heads).Values;
  }

  /** An earlier incident takes a group exactly when the four rules pick it for some root. */
  lemma EarlierTaken(f: Findings, incidents: seq<Incident>, run: Run, at: int, heads: seq<Id>, k: nat)
    requires k in Before(incidents, run, at)
    ensures k in Assigned(f, incidents, run, at, heads).Values
            <==> exists r :: r in heads && Pick(f, incidents, Before(incidents, run, at), r) == Some(k)
  {
    var chosen := Assigned(f, incidents, run, at, heads);
    if k in chosen.Values {
      var r :| r in chosen && chosen[r] == k;
      AssignedMeans(f, incidents, run, at, heads, r);
      assert k !in Mine(incidents, run);
    }
    if r :| r in heads && Pick(f, incidents, Before(incidents, run, at), r) == Some(k) {
      AssignedMeans(f, incidents, run, at, heads, r);
      assert chosen[r] in chosen.Values;
    }
  }

  /** An incident of the run's own stays unmerged only where no earlier incident takes its root's group. */
  lemma OwnStaysLive(f: Findings, incidents: seq<Incident>, run: Run, at: int, heads: seq<Id>, k: nat)
    requires Grounded(f, incidents, run, heads)
    requires k < |After(f, incidents, run, at, heads)|
    requires After(f, incidents, run, at, heads)[k].openedBy == run
    requires After(f, incidents, run, at, heads)[k].Live()
    ensures var root := After(f, incidents, run, at, heads)[k].root;
      && root in heads && Assigned(f, incidents, run, at, heads)[root] == k
      && Pick(f, incidents, Before(incidents, run, at), root).None?
  {
    if k >= |incidents| {
      NewStaysLive(f, incidents, run, at, heads, k);
    } else {
      OldStaysLive(f, incidents, run, at, heads, k);
    }
  }

  /** The `i`-th incident opened is the one its root was opened for. */
  lemma OpenedForItself(f: Findings, incidents: seq<Incident>, run: Run, at: int, heads: seq<Id>, i: nat)
    requires Ascending(heads) && i < |Opened(f, incidents, run, at, heads)|
    ensures var root := Opened(f, incidents, run, at, heads)[i];
      && root in heads && Existing(f, incidents, run, at, root).None?
      && Assigned(f, incidents, run, at, heads)[root] == |incidents| + i
  {
    var chosen, opening := Assigned(f, incidents, run, at, heads), Opened(f, incidents, run, at, heads);
    OpenedAreNew(f, incidents, run, at, heads);
    assert opening[i] in opening;
    AssignedMeans(f, incidents, run, at, heads, opening[i]);
    OpenedOnce(f, incidents, run, at, heads);
    AscendingApart(opening, i, chosen[opening[i]] - |incidents|);
  }

  lemma NewNamesItsRoot(f: Findings, incidents: seq<Incident>, run: Run, at: int, heads: seq<Id>, i: nat)
    requires i < |Opened(f, incidents, run, at, heads)|
    ensures After(f, incidents, run, at, heads)[|incidents| + i].root == Opened(f, incidents, run, at, heads)[i]
  {
  }

  lemma NonePicked(f: Findings, incidents: seq<Incident>, run: Run, at: int, root: Id)
    requires Existing(f, incidents, run, at, root).None?
    ensures Pick(f, incidents, Before(incidents, run, at), root).None?
  {
  }

  /** One opened just now stays live at its own root. */
  lemma NewStaysLive(f: Findings, incidents: seq<Incident>, run: Run, at: int, heads: seq<Id>, k: nat)
    requires Grounded(f, incidents, run, heads)
    requires |incidents| <= k < |After(f, incidents, run, at, heads)|
    ensures var root := After(f, incidents, run, at, heads)[k].root;
      && root in heads && Assigned(f, incidents, run, at, heads)[root] == k
      && Pick(f, incidents, Before(incidents, run, at), root).None?
  {
    var i: nat := k - |incidents|;
    OpenedForItself(f, incidents, run, at, heads, i);
    NewNamesItsRoot(f, incidents, run, at, heads, i);
    NonePicked(f, incidents, run, at, Opened(f, incidents, run, at, heads)[i]);
    assert |incidents| + i == k;
  }

  /** An earlier one of its own that stays live took a group. */
  lemma OldStaysLive(f: Findings, incidents: seq<Incident>, run: Run, at: int, heads: seq<Id>, k: nat)
    requires Grounded(f, incidents, run, heads)
    requires k < |incidents| && After(f, incidents, run, at, heads)[k].openedBy == run
    requires After(f, incidents, run, at, heads)[k].Live()
    ensures var root := After(f, incidents, run, at, heads)[k].root;
      && root in heads && Assigned(f, incidents, run, at, heads)[root] == k
      && Pick(f, incidents, Before(incidents, run, at), root).None?
  {
    var chosen := Assigned(f, incidents, run, at, heads);
    assert k in Mine(incidents, run);
    assert f.rootOf[incidents[k].root] in f.rootOf.Values;
    assert k in chosen.Values;
    var r :| r in chosen && chosen[r] == k;
    AssignedMeans(f, incidents, run, at, heads, r);
    assert k !in Before(incidents, run, at);
  }

  // -- From the store as the run found it ----------------------------------------------

  /** `incidents` is `base` after any number of this run's own invocations, and no other run's. */
  ghost predicate Since(base: seq<Incident>, incidents: seq<Incident>, run: Run) {
    && |base| <= |incidents|
    && (forall k :: 0 <= k < |base| ==> Untouched(base[k], incidents[k], run))
    && (forall k :: |base| <= k < |incidents| ==> incidents[k].openedBy == run && incidents[k].resolved.None?)
  }

  /** An incident the run found: closed ones are as they were, open ones are open or resolved by this run. */
  ghost predicate Untouched(was: Incident, now: Incident, run: Run) {
    && was.openedBy != run && !was.ResolvedBy(run)
    && now == was.(resolved := now.resolved)
    && if was.Open() then now.resolved.None? || now.ResolvedBy(run) else now == was
  }

  /** The run is not earlier than the incidents it found open. */
  ghost predicate NotBefore(base: seq<Incident>, at: int) {
    forall k :: 0 <= k < |base| && base[k].Open() ==> base[k].openedAt <= at
  }

  function FoundOpen(base: seq<Incident>): set<nat> {
    set k | 0 <= k < |base| && base[k].Open()
  }

  lemma BeforeIsFoundOpen(base: seq<Incident>, incidents: seq<Incident>, run: Run, at: int)
    requires Since(base, incidents, run) && NotBefore(base, at)
    ensures Before(incidents, run, at) == FoundOpen(base)
  {
    forall k: nat ensures k in Before(incidents, run, at) <==> k in FoundOpen(base) {
      if k < |base| { assert Untouched(base[k], incidents[k], run); }
    }
  }

  /** The rules read only the roots of the incidents they choose from. */
  lemma PickReadsRoots(f: Findings, a: seq<Incident>, b: seq<Incident>, before: set<nat>, root: Id)
    requires forall k :: k in before ==> k < |a| && k < |b| && a[k].root == b[k].root
    ensures Pick(f, a, before, root) == Pick(f, b, before, root)
  {
    assert WithRoot(a, before, root) == WithRoot(b, before, root);
    assert WithRootIn(f, a, before, root) == WithRootIn(f, b, before, root);
    assert RootedBelow(f, a, before, root) == RootedBelow(f, b, before, root);
    assert RootedAbove(f, a, before, root) == RootedAbove(f, b, before, root);
  }

  lemma PickSince(f: Findings, base: seq<Incident>, incidents: seq<Incident>, run: Run, at: int, root: Id)
    requires Since(base, incidents, run) && NotBefore(base, at)
    ensures Pick(f, incidents, Before(incidents, run, at), root) == Pick(f, base, FoundOpen(base), root)
  {
    BeforeIsFoundOpen(base, incidents, run, at);
    forall k | k in FoundOpen(base) ensures k < |incidents| && incidents[k].root == base[k].root {
      assert Untouched(base[k], incidents[k], run);
    }
    PickReadsRoots(f, incidents, base, FoundOpen(base), root);
  }

  lemma SinceAfter(f: Findings, base: seq<Incident>, incidents: seq<Incident>, run: Run, at: int, heads: seq<Id>)
    requires Since(base, incidents, run) && NotBefore(base, at)
    ensures Since(base, After(f, incidents, run, at, heads), run)
  {
    BeforeIsFoundOpen(base, incidents, run, at);
    var after := After(f, incidents, run, at, heads);
    forall k: nat | k < |base| ensures Untouched(base[k], after[k], run) {
      assert Untouched(base[k], incidents[k], run);
    }
  }

  // -- The run's answer ----------------------------------------------------------------

  /** Where a failing check is counted: an incident found open, or the run's own for a root. */
  datatype Home = Earlier(incident: nat) | Own(root: Id)

  /** The roots of the incidents the run stands by, given only what it found and what it knows. */
  function OwnRoots(f: Findings, base: seq<Incident>): set<Id> {
    set r | r in f.rootOf.Values && Pick(f, base, FoundOpen(base), r).None?
  }

  /** The incidents it resolved. */
  function ResolvedOf(f: Findings, base: seq<Incident>): set<nat> {
    set k | k in FoundOpen(base) && !(exists r :: r in f.rootOf.Values && Pick(f, base, FoundOpen(base), r) == Some(k))
            && f.healthy(base[k].root)
  }

  function HomeOf(f: Findings, base: seq<Incident>, subject: Id): Home
    requires subject in f.rootOf
  {
    match Pick(f, base, FoundOpen(base), f.rootOf[subject])
    case Some(k) => Earlier(k)
    case None => Own(f.rootOf[subject])
  }

  function LiveOwn(incidents: seq<Incident>, run: Run): set<Id> {
    set k | 0 <= k < |incidents| && incidents[k].openedBy == run && incidents[k].Live() :: incidents[k].root
  }

  function ResolvedIn(incidents: seq<Incident>, run: Run): set<nat> {
    set k | 0 <= k < |incidents| && incidents[k].ResolvedBy(run)
  }

  function HomeIn(incidents: seq<Incident>, run: Run, k: nat): Home
    requires k < |incidents|
  {
    if incidents[k].openedBy == run then Own(incidents[k].root) else Earlier(k)
  }

  /** The roots a run stands by afterwards depend on nothing but its findings and what it found open. */
  lemma OwnRootsSettle(f: Findings, base: seq<Incident>, incidents: seq<Incident>, run: Run, at: int, heads: seq<Id>)
    requires Since(base, incidents, run) && NotBefore(base, at) && Grounded(f, incidents, run, heads)
    ensures LiveOwn(After(f, incidents, run, at, heads), run) == OwnRoots(f, base)
  {
    var after := After(f, incidents, run, at, heads);
    forall r | r in LiveOwn(after, run) ensures r in OwnRoots(f, base) {
      var k :| 0 <= k < |after| && after[k].openedBy == run && after[k].Live() && after[k].root == r;
      OwnStaysLive(f, incidents, run, at, heads, k);
      PickSince(f, base, incidents, run, at, r);
    }
    forall r | r in OwnRoots(f, base) ensures r in LiveOwn(after, run) {
      PickSince(f, base, incidents, run, at, r);
      TakenStaysLive(f, incidents, run, at, heads, r);
      var k := Assigned(f, incidents, run, at, heads)[r];
      assert after[k].root in LiveOwn(after, run);
    }
  }

  /** So do the incidents it resolved. */
  lemma ResolvedSettle(f: Findings, base: seq<Incident>, incidents: seq<Incident>, run: Run, at: int, heads: seq<Id>)
    requires Since(base, incidents, run) && NotBefore(base, at) && Grounded(f, incidents, run, heads)
    ensures ResolvedIn(After(f, incidents, run, at, heads), run) == ResolvedOf(f, base)
  {
    var after := After(f, incidents, run, at, heads);
    SinceAfter(f, base, incidents, run, at, heads);
    BeforeIsFoundOpen(base, incidents, run, at);
    forall k: nat ensures k in ResolvedIn(after, run) <==> k in ResolvedOf(f, base) {
      if k in FoundOpen(base) {
        assert Untouched(base[k], incidents[k], run);
        EarlierTaken(f, incidents, run, at, heads, k);
        forall r ensures Pick(f, incidents, Before(incidents, run, at), r) == Pick(f, base, FoundOpen(base), r) {
          PickSince(f, base, incidents, run, at, r);
        }
      } else if k < |base| {
        assert Untouched(base[k], after[k], run);
      }
    }
  }

  /** And where every failing check is counted. */
  lemma HomesSettle(f: Findings, base: seq<Incident>, incidents: seq<Incident>, run: Run, at: int, heads: seq<Id>, subject: Id)
    requires Since(base, incidents, run) && NotBefore(base, at) && Grounded(f, incidents, run, heads)
    requires subject in f.rootOf
    ensures f.rootOf[subject] in Assigned(f, incidents, run, at, heads)
    ensures var k := Assigned(f, incidents, run, at, heads)[f.rootOf[subject]];
      var after := After(f, incidents, run, at, heads);
      k < |after| && HomeIn(after, run, k) == HomeOf(f, base, subject)
  {
    assert f.rootOf[subject] in f.rootOf.Values;
    TakenStaysLive(f, incidents, run, at, heads, f.rootOf[subject]);
    PickSince(f, base, incidents, run, at, f.rootOf[subject]);
  }
}
