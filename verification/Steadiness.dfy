/** What every regrouping keeps: one open incident per root, and merges that lead somewhere. */
module Steadiness {
  import opened Ids
  import opened Incidents
  import opened Settling

  // -- One open incident per root ------------------------------------------------------

  /** While `run` is the run being ingested: its incidents are open, and nothing it could leave open shares a root. */
  ghost predicate Steady(incidents: seq<Incident>, run: Run) {
    && (forall k :: 0 <= k < |incidents| && incidents[k].Live() && incidents[k].openedBy == run
                    ==> incidents[k].resolved.None?)
    && (forall j, k :: 0 <= j < k < |incidents| && incidents[j].Contends(run) && incidents[k].Contends(run)
                       ==> incidents[j].root != incidents[k].root)
  }

  /** No incident was opened after `at`. */
  ghost predicate OpenedBy(incidents: seq<Incident>, at: int) {
    forall k :: 0 <= k < |incidents| ==> incidents[k].openedAt <= at
  }

  /** The run has not opened or resolved anything yet. */
  ghost predicate Unknown(incidents: seq<Incident>, run: Run) {
    forall k :: 0 <= k < |incidents| ==> incidents[k].openedBy != run && !incidents[k].ResolvedBy(run)
  }

  lemma SteadyIsCalm(incidents: seq<Incident>, run: Run, at: int)
    requires Steady(incidents, run)
    ensures OneOpenPerRoot(incidents)
    ensures OpenedBy(incidents, at) ==> FoundBy(incidents, run, at)
    ensures FoundBy(incidents, run, at) ==> Calm(incidents, run, at)
  {
  }

  /** Between runs nothing changes: what held for the last run holds for the next. */
  lemma NextRunStartsSteady(incidents: seq<Incident>, last: Run, next: Run)
    requires OneOpenPerRoot(incidents) && Unknown(incidents, next)
    ensures Steady(incidents, next)
  {
    forall k | 0 <= k < |incidents| && incidents[k].Contends(next) ensures incidents[k].Open() {
    }
  }

  /** An incident opened now shares no root with anything that could still be open. */
  lemma NewRootIsFree(f: Findings, incidents: seq<Incident>, run: Run, at: int, j: nat, root: Id)
    requires Existing(f, incidents, run, at, root).None?
    requires j < |incidents| && incidents[j].Contends(run)
    requires incidents[j].openedBy == run || incidents[j].openedAt <= at
    ensures incidents[j].root != root
  {
    assert j in Mine(incidents, run) || j in Before(incidents, run, at);
    assert j !in WithRoot(incidents, Mine(incidents, run), root);
    assert j !in WithRoot(incidents, Before(incidents, run, at), root);
  }

  /** Whatever contends after a regrouping either contended before, at the same root, or was opened by it. */
  lemma ContendsAfter(f: Findings, incidents: seq<Incident>, run: Run, at: int, heads: seq<Id>, k: nat)
    requires FoundBy(incidents, run, at)
    requires k < |After(f, incidents, run, at, heads)| && After(f, incidents, run, at, heads)[k].Contends(run)
    ensures var root := After(f, incidents, run, at, heads)[k].root;
      if k < |incidents| then incidents[k].Contends(run) && incidents[k].root == root
      else root == Opened(f, incidents, run, at, heads)[k - |incidents|] && Existing(f, incidents, run, at, root).None?
  {
    if k >= |incidents| {
      OpenedAreNew(f, incidents, run, at, heads);
      assert Opened(f, incidents, run, at, heads)[k - |incidents|] in Opened(f, incidents, run, at, heads);
    }
  }

  /** A regrouping opens nothing later than its own time. */
  lemma OpenedByAfter(f: Findings, incidents: seq<Incident>, run: Run, at: int, heads: seq<Id>)
    requires OpenedBy(incidents, at)
    ensures OpenedBy(After(f, incidents, run, at, heads), at)
  {
  }

  lemma SteadyAfter(f: Findings, incidents: seq<Incident>, run: Run, at: int, heads: seq<Id>)
    requires Steady(incidents, run) && FoundBy(incidents, run, at) && Ascending(heads)
    ensures Steady(After(f, incidents, run, at, heads), run)
  {
    var after := After(f, incidents, run, at, heads);
    OpenedOnce(f, incidents, run, at, heads);
    forall j, k | 0 <= j < k < |after| && after[j].Contends(run) && after[k].Contends(run)
      ensures after[j].root != after[k].root
    {
      ContendsAfter(f, incidents, run, at, heads, j);
      ContendsAfter(f, incidents, run, at, heads, k);
      if j < |incidents| <= k {
        NewRootIsFree(f, incidents, run, at, j, after[k].root);
      }
    }
  }

  // -- Merges --------------------------------------------------------------------------

  /** Every merge leads to an incident of higher rank, so no chain of merges comes back. */
  ghost predicate Ranks(incidents: seq<Incident>, rank: seq<nat>) {
    && |rank| == |incidents|
    && forall k :: 0 <= k < |incidents| && incidents[k].mergedInto.Some? ==>
         incidents[k].mergedInto.value < |incidents| && rank[k] < rank[incidents[k].mergedInto.value]
  }

  ghost predicate MergesEnd(incidents: seq<Incident>) {
    exists rank :: Ranks(incidents, rank)
  }

  ghost function Top(rank: seq<nat>): (top: nat)
    ensures forall k :: 0 <= k < |rank| ==> rank[k] < top
  {
    if rank == [] then 0 else
      var rest := Top(rank[..|rank| - 1]);
      if rank[|rank| - 1] < rest then rest else rank[|rank| - 1] + 1
  }

  /** The incident reached by following at most `n` merges. */
  function Follow(incidents: seq<Incident>, k: nat, n: nat): nat
    decreases n
  {
    if n == 0 || k >= |incidents| || incidents[k].mergedInto.None? then k
    else Follow(incidents, incidents[k].mergedInto.value, n - 1)
  }

  lemma {:induction false} FollowClimbs(incidents: seq<Incident>, rank: seq<nat>, k: nat, bound: nat)
    requires Ranks(incidents, rank) && k < |incidents|
    requires forall j :: 0 <= j < |rank| ==> rank[j] < bound
    ensures var n := bound - rank[k];
            Follow(incidents, k, n) < |incidents| && incidents[Follow(incidents, k, n)].Live()
    decreases bound - rank[k]
  {
    if incidents[k].mergedInto.Some? {
      var next := incidents[k].mergedInto.value;
      FollowClimbs(incidents, rank, next, bound);
      FollowStops(incidents, next, bound - rank[next], bound - rank[k] - 1);
    }
  }

  lemma {:induction false} FollowStops(incidents: seq<Incident>, k: nat, n: nat, m: nat)
    requires n <= m && Follow(incidents, k, n) < |incidents| && incidents[Follow(incidents, k, n)].Live()
    ensures Follow(incidents, k, m) == Follow(incidents, k, n)
    decreases n
  {
    if k < |incidents| && incidents[k].mergedInto.Some? {
      FollowStops(incidents, incidents[k].mergedInto.value, n - 1, m - 1);
    }
  }

  /** Following merges from any incident ends at an unmerged one. */
  lemma ChainsEnd(incidents: seq<Incident>, k: nat)
    requires MergesEnd(incidents) && k < |incidents|
    ensures exists n: nat :: Follow(incidents, k, n) < |incidents| && incidents[Follow(incidents, k, n)].Live()
  {
    var rank :| Ranks(incidents, rank);
    FollowClimbs(incidents, rank, k, Top(rank));
    assert Top(rank) - rank[k] >= 0;
  }

  lemma MergesEndAfter(f: Findings, incidents: seq<Incident>, run: Run, at: int, heads: seq<Id>)
    requires MergesEnd(incidents) && Grounded(f, incidents, run, heads)
    ensures MergesEnd(After(f, incidents, run, at, heads))
  {
    var rank :| Ranks(incidents, rank);
    var after := After(f, incidents, run, at, heads);
    var top := Top(rank);
    var higher := seq(|after|, k requires 0 <= k < |after| =>
      if after[k].Live() then top + 1 else if k < |incidents| && incidents[k].mergedInto.Some? then rank[k] else top);
    forall k | 0 <= k < |after| && after[k].mergedInto.Some?
      ensures after[k].mergedInto.value < |after| && higher[k] < higher[after[k].mergedInto.value]
    {
      if incidents[k].mergedInto.None? {
        var r := TopOf(f, incidents[k].root);
        assert k in Mine(incidents, run);
        assert r in f.rootOf.Values;
        TakenStaysLive(f, incidents, run, at, heads, r);
      }
    }
    assert Ranks(after, higher);
  }
}
