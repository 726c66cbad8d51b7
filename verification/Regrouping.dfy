/** The regrouping as the desk performs it, statement by statement, against the store's unique index. */
module Regrouping {
  import opened Ids
  import opened Incidents
  import opened Settling
  import opened Steadiness

  /** The incidents with `heads` already assigned: new ones opened, failing earlier ones open again. */
  ghost predicate Assigning(f: Findings, found: seq<Incident>, run: Run, at: int, heads: seq<Id>,
                            incidents: seq<Incident>, chosen: map<Id, nat>)
  {
    && chosen == Assigned(f, found, run, at, heads)
    && |incidents| == |found| + |Opened(f, found, run, at, heads)|
    && (forall k: nat :: k < |found| ==> incidents[k] == Reopened(found, run, at, chosen, k))
    && (forall k: nat :: |found| <= k < |incidents| ==>
          incidents[k] == NewIncident(Opened(f, found, run, at, heads)[k - |found|], run, at))
  }

  /** An earlier incident that a group goes to is open, whatever the run concluded before. */
  function Reopened(found: seq<Incident>, run: Run, at: int, chosen: map<Id, nat>, k: nat): Incident
    requires k < |found|
  {
    if k in Before(found, run, at) && k in chosen.Values then found[k].(resolved := None) else found[k]
  }

  lemma AssignExisting(f: Findings, found: seq<Incident>, run: Run, at: int, heads: seq<Id>, root: Id,
                       incidents: seq<Incident>, chosen: map<Id, nat>, j: nat)
    requires Assigning(f, found, run, at, heads, incidents, chosen) && root !in heads
    requires Existing(f, found, run, at, root) == Some(j)
    ensures j < |found|
    ensures j in Before(found, run, at) ==>
              Assigning(f, found, run, at, heads + [root], incidents[j := incidents[j].(resolved := None)], chosen[root := j])
    ensures j !in Before(found, run, at) ==>
              Assigning(f, found, run, at, heads + [root], incidents, chosen[root := j])
  {
    assert (heads + [root])[..|heads|] == heads;
    var after := chosen[root := j];
    ValuesGrow(chosen, root, j);
  }

  lemma AssignNew(f: Findings, found: seq<Incident>, run: Run, at: int, heads: seq<Id>, root: Id,
                  incidents: seq<Incident>, chosen: map<Id, nat>)
    requires Assigning(f, found, run, at, heads, incidents, chosen) && root !in heads
    requires Existing(f, found, run, at, root).None?
    ensures Assigning(f, found, run, at, heads + [root], incidents + [NewIncident(root, run, at)],
                      chosen[root := |incidents|])
  {
    assert (heads + [root])[..|heads|] == heads;
    var opening := Opened(f, found, run, at, heads);
    assert Opened(f, found, run, at, heads + [root]) == opening + [root];
    ValuesGrow(chosen, root, |incidents|);
    var n := |incidents|;
    var after := incidents + [NewIncident(root, run, at)];
    forall k: nat | k < |found| ensures after[k] == Reopened(found, run, at, chosen[root := n], k) {
      assert k in chosen[root := n].Values <==> k in chosen.Values;
    }
  }

  lemma ValuesGrow(chosen: map<Id, nat>, root: Id, j: nat)
    requires root !in chosen
    ensures chosen[root := j].Values == chosen.Values + {j}
  {
    var after := chosen[root := j];
    forall x | x in chosen.Values ensures x in after.Values {
      var r :| r in chosen && chosen[r] == x;
      assert after[r] == x;
    }
    assert after[root] == j;
  }

  /** An incident of the run's own that no group goes to any more. */
  predicate Leftover(f: Findings, found: seq<Incident>, run: Run, chosen: map<Id, nat>, k: nat) {
    k in Mine(found, run) && k !in chosen.Values && k < |found| && TopOf(f, found[k].root) in chosen
  }

  /** Such an incident merged. */
  function Merged(f: Findings, found: seq<Incident>, run: Run, at: int, chosen: map<Id, nat>, k: nat): Incident
    requires k < |found|
  {
    if Leftover(f, found, run, chosen, k)
    then found[k].(mergedInto := Some(chosen[TopOf(f, found[k].root)]))
    else Reopened(found, run, at, chosen, k)
  }

  lemma MergedThenSettled(f: Findings, found: seq<Incident>, run: Run, at: int, chosen: map<Id, nat>, k: nat)
    requires k < |found|
    ensures AfterOne(f, found, run, at, chosen, k)
            == if k in Before(found, run, at) && k !in chosen.Values
               then AfterEarlier(f, found[k], false, run, at)
               else Merged(f, found, run, at, chosen, k)
  {
  }

  /** The incidents once every group is assigned and the run's leftovers are merged. */
  ghost predicate Merging(f: Findings, found: seq<Incident>, run: Run, at: int, heads: seq<Id>,
                          incidents: seq<Incident>, chosen: map<Id, nat>)
  {
    && chosen == Assigned(f, found, run, at, heads)
    && |incidents| == |found| + |Opened(f, found, run, at, heads)|
    && (forall k: nat :: k < |found| ==> incidents[k] == Merged(f, found, run, at, chosen, k))
    && (forall k: nat :: |found| <= k < |incidents| ==>
          incidents[k] == NewIncident(Opened(f, found, run, at, heads)[k - |found|], run, at))
  }

  /** The statements together make the specified incidents. */
  lemma SettledIsAfter(f: Findings, found: seq<Incident>, run: Run, at: int, heads: seq<Id>, chosen: map<Id, nat>,
                       incidents: seq<Incident>)
    requires chosen == Assigned(f, found, run, at, heads)
    requires |incidents| == |found| + |Opened(f, found, run, at, heads)|
    requires forall k: nat :: k < |found| ==> incidents[k] == AfterOne(f, found, run, at, chosen, k)
    requires forall k: nat :: |found| <= k < |incidents| ==>
               incidents[k] == NewIncident(Opened(f, found, run, at, heads)[k - |found|], run, at)
    ensures incidents == After(f, found, run, at, heads)
  {
  }

  /** Every incident of the run's own is at a failure counted under some group. */
  lemma MineAreCounted(f: Findings, found: seq<Incident>, run: Run, at: int, heads: seq<Id>)
    requires Grounded(f, found, run, heads)
    ensures forall k :: k in Mine(found, run) ==> TopOf(f, found[k].root) in Assigned(f, found, run, at, heads)
    ensures f.rootOf.Values <= Assigned(f, found, run, at, heads).Keys
  {
    forall k | k in Mine(found, run) ensures TopOf(f, found[k].root) in Assigned(f, found, run, at, heads) {
      assert f.rootOf[found[k].root] in f.rootOf.Values;
    }
  }

  // -- The unique index ----------------------------------------------------------------

  /** Would setting row `k` open (or inserting it) leave two open incidents at its root? */
  predicate Clashes(incidents: seq<Incident>, k: nat, root: Id) {
    exists j :: 0 <= j < |incidents| && j != k && incidents[j].Open() && incidents[j].root == root
  }

  /** Part way through, nothing is open that could not have been. */
  ghost predicate Contained(f: Findings, found: seq<Incident>, run: Run, at: int, incidents: seq<Incident>) {
    && |found| <= |incidents|
    && (forall j :: 0 <= j < |found| ==> incidents[j].root == found[j].root)
    && (forall j :: 0 <= j < |found| && incidents[j].Open() ==> found[j].Contends(run))
    && (forall j :: |found| <= j < |incidents| ==> Existing(f, found, run, at, incidents[j].root).None?)
  }

  lemma MergingIsContained(f: Findings, found: seq<Incident>, run: Run, at: int, heads: seq<Id>,
                           incidents: seq<Incident>, chosen: map<Id, nat>)
    requires Merging(f, found, run, at, heads, incidents, chosen)
    ensures Contained(f, found, run, at, incidents)
  {
    OpenedAreNew(f, found, run, at, heads);
    forall j: nat | |found| <= j < |incidents| ensures Existing(f, found, run, at, incidents[j].root).None? {
      assert Opened(f, found, run, at, heads)[j - |found|] in Opened(f, found, run, at, heads);
    }
  }

  /** A row set open without a clash keeps the index. */
  lemma IndexKept(incidents: seq<Incident>, k: nat, i: Incident)
    requires OneOpenPerRoot(incidents) && k <= |incidents|
    requires !Clashes(incidents, k, i.root)
    ensures k < |incidents| ==> OneOpenPerRoot(incidents[k := i])
    ensures k == |incidents| ==> OneOpenPerRoot(incidents + [i])
  {
  }

  /** So does a row that is not opened. */
  lemma IndexKeptClosed(incidents: seq<Incident>, k: nat, i: Incident)
    requires OneOpenPerRoot(incidents) && k < |incidents|
    requires !i.Open() || (incidents[k].Open() && i.root == incidents[k].root)
    ensures OneOpenPerRoot(incidents[k := i])
  {
  }

  /** The first `i` of the incidents the run found are settled; the rest are as merging left them. */
  ghost predicate SettledTo(f: Findings, found: seq<Incident>, run: Run, at: int, chosen: map<Id, nat>, i: nat,
                            was: seq<Incident>, incidents: seq<Incident>)
  {
    && i <= |found| <= |incidents| == |was|
    && OneOpenPerRoot(incidents) && Contained(f, found, run, at, incidents)
    && (forall k: nat :: k < i ==> incidents[k] == AfterOne(f, found, run, at, chosen, k))
    && (forall k: nat :: i <= k < |incidents| ==> incidents[k] == was[k])
  }

  // -- What the index refuses ----------------------------------------------------------

  /** A group is refused when the row it opens, new or again, meets another that was found open at its root. */
  ghost predicate GroupRefused(f: Findings, found: seq<Incident>, run: Run, at: int, root: Id) {
    match Existing(f, found, run, at, root)
    case None => Clashes(found, |found|, root)
    case Some(k) => k in Before(found, run, at) && found[k].ResolvedBy(run) && Clashes(found, k, found[k].root)
  }

  /** A row that is open when its root is settled: found open and not a leftover merged by then, or open again itself. */
  ghost predicate Stands(f: Findings, found: seq<Incident>, run: Run, at: int, chosen: map<Id, nat>, j: nat) {
    j < |found| && ((found[j].Open() && !Leftover(f, found, run, chosen, j))
                    || (j in Before(found, run, at) && found[j].ResolvedBy(run)))
  }

  /** Settling is refused at an incident the run had resolved and now finds unhealthy, when another stands at its root. */
  ghost predicate SettleRefused(f: Findings, found: seq<Incident>, run: Run, at: int, chosen: map<Id, nat>, k: nat) {
    && k in Before(found, run, at) && found[k].ResolvedBy(run) && k !in chosen.Values && !f.healthy(found[k].root)
    && exists j: nat :: j != k && Stands(f, found, run, at, chosen, j) && found[j].root == found[k].root
  }

  /** The exact condition, told by what the run finds. */
  ghost predicate Refuses(f: Findings, found: seq<Incident>, run: Run, at: int, heads: seq<Id>) {
    || (exists r :: r in heads && GroupRefused(f, found, run, at, r))
    || (exists k: nat :: SettleRefused(f, found, run, at, Assigned(f, found, run, at, heads), k))
  }

  /** A run that finds nothing from its future, and no two incidents it could leave open at one root, is not refused. */
  lemma CalmIsNotRefused(f: Findings, found: seq<Incident>, run: Run, at: int, heads: seq<Id>)
    requires Calm(found, run, at)
    ensures !Refuses(f, found, run, at, heads)
  {
    forall r | r in heads ensures !GroupRefused(f, found, run, at, r) {
      var k := Existing(f, found, run, at, r);
      if k.None? {
        forall j: nat | j < |found| && found[j].Open() ensures found[j].root != r {
          NewRootIsFree(f, found, run, at, j, r);
        }
      }
    }
    var chosen := Assigned(f, found, run, at, heads);
    forall k: nat | k in Before(found, run, at) ensures !SettleRefused(f, found, run, at, chosen, k) {
      forall j: nat | j != k && Stands(f, found, run, at, chosen, j) ensures found[j].root != found[k].root {
        assert found[j].Contends(run) && found[k].Contends(run);
      }
    }
  }

  /** What refuses a new incident was opened after the run detected its failures: the run comes too late. */
  lemma NewRefusedExactlyWhenLate(f: Findings, incidents: seq<Incident>, run: Run, at: int, root: Id)
    requires Existing(f, incidents, run, at, root).None?
    ensures GroupRefused(f, incidents, run, at, root)
            <==> exists j :: 0 <= j < |incidents| && incidents[j].Open() && incidents[j].root == root
                             && incidents[j].openedBy != run && incidents[j].openedAt > at
  {
    forall j: nat | j < |incidents| && incidents[j].Open() && incidents[j].root == root
      ensures incidents[j].openedBy != run && incidents[j].openedAt > at
    {
      if incidents[j].openedBy == run || incidents[j].openedAt <= at {
        NewRootIsFree(f, incidents, run, at, j, root);
      }
    }
  }

  /** And a run that has resolved nothing yet is refused only so. */
  lemma UnresolvedIsRefusedOnlyWhenLate(f: Findings, found: seq<Incident>, run: Run, at: int, heads: seq<Id>)
    requires forall k :: 0 <= k < |found| ==> !found[k].ResolvedBy(run)
    ensures Refuses(f, found, run, at, heads)
            <==> exists r :: r in heads && Existing(f, found, run, at, r).None? && Clashes(found, |found|, r)
  {
    if r :| r in heads && Existing(f, found, run, at, r).None? && Clashes(found, |found|, r) {
      assert GroupRefused(f, found, run, at, r);
    }
  }

  // -- Group by group ------------------------------------------------------------------

  /** The rules never pick a later incident while an earlier one with its root is there to pick. */
  lemma PicksFirstOfItsRoot(f: Findings, incidents: seq<Incident>, before: set<nat>, root: Id, j: nat)
    requires Pick(f, incidents, before, root).Some? && j in before && j < |incidents|
    requires forall k :: k in before ==> k < |incidents|
    requires incidents[j].root == incidents[Pick(f, incidents, before, root).value].root
    ensures Pick(f, incidents, before, root).value <= j
  {
    var k := Pick(f, incidents, before, root).value;
    var from := if WithRoot(incidents, before, root) != {} then WithRoot(incidents, before, root)
                else if WithRootIn(f, incidents, before, root) != {} then WithRootIn(f, incidents, before, root)
                else if RootedBelow(f, incidents, before, root) != {} then RootedBelow(f, incidents, before, root)
                else RootedAbove(f, incidents, before, root);
    assert k in from && j in from;
    assert IsLeast(k, from);
  }

  /** What an incident took a group for, part way through. */
  lemma TakenFor(f: Findings, found: seq<Incident>, run: Run, at: int, heads: seq<Id>, j: nat) returns (r: Id)
    requires j < |found| && j in Assigned(f, found, run, at, heads).Values
    ensures r in heads && Existing(f, found, run, at, r) == Some(j)
  {
    var chosen := Assigned(f, found, run, at, heads);
    r :| r in chosen && chosen[r] == j;
    AssignedMeans(f, found, run, at, heads, r);
  }

  lemma NewClashesWithFound(f: Findings, found: seq<Incident>, run: Run, at: int, heads: seq<Id>,
                            incidents: seq<Incident>, chosen: map<Id, nat>, root: Id)
    requires Assigning(f, found, run, at, heads, incidents, chosen) && root !in heads
    requires Existing(f, found, run, at, root).None?
    ensures Clashes(incidents, |incidents|, root) <==> Clashes(found, |found|, root)
  {
    OpenedAreNew(f, found, run, at, heads);
    forall j: nat | j < |incidents|
      ensures incidents[j].Open() && incidents[j].root == root
              <==> j < |found| && found[j].Open() && found[j].root == root
    {
      if j >= |found| {
        assert incidents[j].root in Opened(f, found, run, at, heads);
      } else if j in Before(found, run, at) && found[j].root == root {
        NewRootIsFree(f, found, run, at, j, root);
      }
    }
    if j: nat :| j < |found| && found[j].Open() && found[j].root == root {
      assert incidents[j].Open() && incidents[j].root == root && j != |incidents|;
    }
  }

  /** Everything about opening an incident for the next root. */
  lemma OpenStep(f: Findings, found: seq<Incident>, run: Run, at: int, heads: seq<Id>, root: Id,
                 incidents: seq<Incident>, chosen: map<Id, nat>)
    requires Assigning(f, found, run, at, heads, incidents, chosen) && root !in heads
    requires OneOpenPerRoot(incidents) && Existing(f, found, run, at, root).None?
    ensures var after := incidents + [NewIncident(root, run, at)];
      && Assigning(f, found, run, at, heads + [root], after, chosen[root := |incidents|])
      && (!Clashes(incidents, |incidents|, root) ==> OneOpenPerRoot(after))
    ensures Clashes(incidents, |incidents|, root) <==> GroupRefused(f, found, run, at, root)
  {
    AssignNew(f, found, run, at, heads, root, incidents, chosen);
    if !Clashes(incidents, |incidents|, root) { IndexKept(incidents, |incidents|, NewIncident(root, run, at)); }
    NewClashesWithFound(f, found, run, at, heads, incidents, chosen, root);
  }

  /** A row open beside one that opens again was found open: no two with a root are picked. */
  lemma OpenBesideWasFound(f: Findings, found: seq<Incident>, run: Run, at: int, heads: seq<Id>, root: Id,
                           incidents: seq<Incident>, chosen: map<Id, nat>, j: nat, i: nat)
    requires Assigning(f, found, run, at, heads, incidents, chosen)
    requires Existing(f, found, run, at, root) == Some(j) && j in Before(found, run, at)
    requires i < |incidents| && i != j && incidents[i].root == found[j].root
    ensures incidents[i].Open() <==> i < |found| && found[i].Open()
  {
    if i >= |found| {
      OpenedAreNew(f, found, run, at, heads);
      assert incidents[i].root in Opened(f, found, run, at, heads);
      NewRootIsFree(f, found, run, at, j, incidents[i].root);
    } else if i in Before(found, run, at) && i in chosen.Values {
      var r := TakenFor(f, found, run, at, heads, i);
      PicksFirstOfItsRoot(f, found, Before(found, run, at), r, j);
      PicksFirstOfItsRoot(f, found, Before(found, run, at), root, i);
    }
  }

  lemma AgainClashesWithFound(f: Findings, found: seq<Incident>, run: Run, at: int, heads: seq<Id>, root: Id,
                              incidents: seq<Incident>, chosen: map<Id, nat>, j: nat)
    requires Assigning(f, found, run, at, heads, incidents, chosen)
    requires Existing(f, found, run, at, root) == Some(j) && j in Before(found, run, at)
    ensures Clashes(incidents, j, found[j].root) <==> Clashes(found, j, found[j].root)
  {
    forall i: nat | i < |incidents| && i != j && incidents[i].root == found[j].root
      ensures incidents[i].Open() <==> i < |found| && found[i].Open()
    {
      OpenBesideWasFound(f, found, run, at, heads, root, incidents, chosen, j, i);
    }
    if i: nat :| i < |found| && i != j && found[i].Open() && found[i].root == found[j].root {
      assert incidents[i].Open() && incidents[i].root == found[j].root;
    }
  }

  /** Everything about appending the next root's group to incident `j`. */
  lemma AppendStep(f: Findings, found: seq<Incident>, run: Run, at: int, heads: seq<Id>, root: Id,
                   incidents: seq<Incident>, chosen: map<Id, nat>, j: nat)
    requires Assigning(f, found, run, at, heads, incidents, chosen) && root !in heads
    requires OneOpenPerRoot(incidents) && Existing(f, found, run, at, root) == Some(j)
    requires forall r :: r in heads ==> !GroupRefused(f, found, run, at, r)
    ensures j < |found| && found[j].root == incidents[j].root
    ensures var reopened := incidents[j := incidents[j].(resolved := None)];
      var reopens := j in Before(found, run, at) && incidents[j].ResolvedBy(run);
      && Assigning(f, found, run, at, heads + [root], if reopens then reopened else incidents, chosen[root := j])
      && (reopens && !Clashes(incidents, j, incidents[j].root) ==> OneOpenPerRoot(reopened))
      && (GroupRefused(f, found, run, at, root) <==> reopens && Clashes(incidents, j, incidents[j].root))
  {
    AssignExisting(f, found, run, at, heads, root, incidents, chosen, j);
    if j in Before(found, run, at) {
      AgainClashesWithFound(f, found, run, at, heads, root, incidents, chosen, j);
      if incidents[j].ResolvedBy(run) {
        if !Clashes(incidents, j, incidents[j].root) { IndexKept(incidents, j, incidents[j].(resolved := None)); }
      } else {
        assert incidents[j := incidents[j].(resolved := None)] == incidents;
        if found[j].ResolvedBy(run) {
          var r := TakenFor(f, found, run, at, heads, j);
          assert !GroupRefused(f, found, run, at, r);
        }
      }
    }
  }

  // -- Incident by incident ------------------------------------------------------------

  /** Whatever is open at an earlier incident's root when that is settled stands there. */
  lemma OpenBesideStands(f: Findings, found: seq<Incident>, run: Run, at: int, chosen: map<Id, nat>, i: nat,
                         was: seq<Incident>, incidents: seq<Incident>, j: nat)
    requires SettledTo(f, found, run, at, chosen, i, was, incidents)
    requires forall k: nat :: k < |found| ==> was[k] == Merged(f, found, run, at, chosen, k)
    requires i in Before(found, run, at) && i !in chosen.Values
    requires j < |incidents| && j != i && incidents[j].Open() && incidents[j].root == found[i].root
    ensures Stands(f, found, run, at, chosen, j)
  {
    if j >= |found| {
      NewRootIsFree(f, found, run, at, i, incidents[j].root);
    } else if j < i {
      MergedThenSettled(f, found, run, at, chosen, j);
    }
  }

  /** What settling the next incident does, and when it clashes. */
  lemma SettleStep(f: Findings, found: seq<Incident>, run: Run, at: int, chosen: map<Id, nat>, i: nat,
                   was: seq<Incident>, incidents: seq<Incident>)
    requires SettledTo(f, found, run, at, chosen, i, was, incidents) && i < |found|
    requires forall k: nat :: k < |found| ==> was[k] == Merged(f, found, run, at, chosen, k)
    ensures var now := AfterOne(f, found, run, at, chosen, i);
      if i in Before(found, run, at) && i !in chosen.Values
      then now == AfterEarlier(f, incidents[i], false, run, at) && incidents[i] == found[i]
      else now == incidents[i]
    ensures var now := AfterOne(f, found, run, at, chosen, i);
      var after := incidents[i := now];
      var clash := now.Open() && !incidents[i].Open() && Clashes(incidents, i, now.root);
      && (clash ==> SettleRefused(f, found, run, at, chosen, i))
      && (!clash ==> SettledTo(f, found, run, at, chosen, i + 1, was, after))
  {
    MergedThenSettled(f, found, run, at, chosen, i);
    var now := AfterOne(f, found, run, at, chosen, i);
    if !now.Open() || incidents[i].Open() {
      IndexKeptClosed(incidents, i, now);
    } else if j: nat :| j < |incidents| && j != i && incidents[j].Open() && incidents[j].root == now.root {
      OpenBesideStands(f, found, run, at, chosen, i, was, incidents, j);
    } else {
      IndexKept(incidents, i, now);
    }
  }

  /** What stands beside an incident that opens again is open in the end, and so is that incident. */
  lemma BothOpenAfter(f: Findings, found: seq<Incident>, run: Run, at: int, heads: seq<Id>, k: nat) returns (j: nat)
    requires SettleRefused(f, found, run, at, Assigned(f, found, run, at, heads), k)
    ensures var after := After(f, found, run, at, heads);
      && j != k && j < |after| && k < |after|
      && after[j].Open() && after[k].Open() && after[j].root == after[k].root
  {
    var chosen := Assigned(f, found, run, at, heads);
    j :| j != k && Stands(f, found, run, at, chosen, j) && found[j].root == found[k].root;
  }

  /** So once everything is settled within the index, none of them was refused. */
  lemma SettledIsNotRefused(f: Findings, found: seq<Incident>, run: Run, at: int, heads: seq<Id>, k: nat)
    requires OneOpenPerRoot(After(f, found, run, at, heads))
    ensures !SettleRefused(f, found, run, at, Assigned(f, found, run, at, heads), k)
  {
    if SettleRefused(f, found, run, at, Assigned(f, found, run, at, heads), k) {
      var j := BothOpenAfter(f, found, run, at, heads, k);
    }
  }
}
