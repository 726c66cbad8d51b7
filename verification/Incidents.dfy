/** What one regrouping of a run does to the incidents, as a function of the incidents and the run's findings. */
module Incidents {
  import opened Ids

  type Run = string

  datatype Resolution = Resolution(at: int, run: Run)

  /** One row of `incidents`; its id is its position, since rows are numbered as they are opened. */
  datatype Incident = Incident(root: Id, openedAt: int, openedBy: Run, resolved: Option<Resolution>,
                               mergedInto: Option<nat>) {
    predicate Live() { mergedInto.None? }

    predicate Open() { mergedInto.None? && resolved.None? }

    predicate ResolvedBy(run: Run) { resolved.Some? && resolved.value.run == run }

    /** Open, or open again should this run find it failing after all. */
    predicate Contends(run: Run) { mergedInto.None? && (resolved.None? || ResolvedBy(run)) }
  }

  /** What the desk knows of a run: its failures' roots, the lineage above a node, and what it covered. */
  datatype Findings = Findings(rootOf: map<Id, Id>, above: Id -> set<Id>, covered: Id -> bool, healthy: Id -> bool)

  // -- Which incident takes a group ----------------------------------------------------

  /** Earlier runs' incidents this run can add to, close or reopen. */
  function Before(incidents: seq<Incident>, run: Run, at: int): set<nat> {
    set k | 0 <= k < |incidents| && incidents[k].Contends(run)
            && incidents[k].openedBy != run && incidents[k].openedAt <= at
  }

  /** The incidents this run opened and still stands by. */
  function Mine(incidents: seq<Incident>, run: Run): set<nat> {
    set k | 0 <= k < |incidents| && incidents[k].Live() && incidents[k].openedBy == run
  }

  /** The first incident of a set, in the order they were opened. */
  function First(s: set<nat>): (k: Option<nat>)
    ensures k.None? <==> s == {}
    ensures k.Some? ==> k.value in s
  {
    if s == {} then None else Some(Least(s))
  }

  function WithRoot(incidents: seq<Incident>, from: set<nat>, root: Id): set<nat> {
    set k | k in from && k < |incidents| && incidents[k].root == root
  }

  /** Earlier incidents rooted at a failed node of the group. */
  function WithRootIn(f: Findings, incidents: seq<Incident>, from: set<nat>, root: Id): set<nat> {
    set k | k in from && k < |incidents|
            && incidents[k].root in f.rootOf && f.rootOf[incidents[k].root] == root
  }

  /** Earlier incidents rooted below the group's root. */
  function RootedBelow(f: Findings, incidents: seq<Incident>, from: set<nat>, root: Id): set<nat> {
    set k | k in from && k < |incidents| && root in f.above(incidents[k].root)
  }

  /** Earlier incidents rooted above the group's root, at a node this run did not check. */
  function RootedAbove(f: Findings, incidents: seq<Incident>, from: set<nat>, root: Id): set<nat> {
    set k | k in from && k < |incidents|
            && incidents[k].root in f.above(root) && !f.covered(incidents[k].root)
  }

  /** The earlier incident a group's failures belong to, by the four rules in order. */
  function Pick(f: Findings, incidents: seq<Incident>, before: set<nat>, root: Id): (k: Option<nat>)
    ensures k.Some? ==> k.value in before
  {
    if WithRoot(incidents, before, root) != {} then First(WithRoot(incidents, before, root))
    else if WithRootIn(f, incidents, before, root) != {} then First(WithRootIn(f, incidents, before, root))
    else if RootedBelow(f, incidents, before, root) != {} then First(RootedBelow(f, incidents, before, root))
    else First(RootedAbove(f, incidents, before, root))
  }

  /** The incident a group goes to when one exists already: an earlier one, else the run's own. */
  function Existing(f: Findings, incidents: seq<Incident>, run: Run, at: int, root: Id): (k: Option<nat>)
    ensures k.Some? ==> k.value < |incidents|
  {
    var earlier := Pick(f, incidents, Before(incidents, run, at), root);
    if earlier.Some? then earlier else First(WithRoot(incidents, Mine(incidents, run), root))
  }

  /** The roots, of those given in order, that need a new incident. */
  function Opened(f: Findings, incidents: seq<Incident>, run: Run, at: int, heads: seq<Id>): seq<Id> {
    if heads == [] then [] else
      var root := heads[|heads| - 1];
      Opened(f, incidents, run, at, heads[..|heads| - 1])
      + if Existing(f, incidents, run, at, root).Some? then [] else [root]
  }

  /** Which incident each root's group goes to; new ones are numbered as they are opened. */
  function Assigned(f: Findings, incidents: seq<Incident>, run: Run, at: int, heads: seq<Id>): (chosen: map<Id, nat>)
    ensures forall r :: r in chosen <==> r in heads
  {
    if heads == [] then map[] else
      var rest := heads[..|heads| - 1];
      var root := heads[|heads| - 1];
      Assigned(f, incidents, run, at, rest)[root :=
        match Existing(f, incidents, run, at, root)
        case Some(k) => k
        case None => |incidents| + |Opened(f, incidents, run, at, rest)|]
  }

  // -- The incidents afterwards --------------------------------------------------------

  function NewIncident(root: Id, run: Run, at: int): Incident {
    Incident(root, at, run, None, None)
  }

  /** An earlier incident after the run: reopened or kept open if it failed or is not shown healthy, else resolved. */
  function AfterEarlier(f: Findings, i: Incident, taken: bool, run: Run, at: int): Incident {
    if taken || !f.healthy(i.root) then i.(resolved := None)
    else if i.ResolvedBy(run) then i
    else i.(resolved := Some(Resolution(at, run)))
  }

  /** Where the failures of a root the run once named are counted now. */
  function TopOf(f: Findings, root: Id): Id {
    if root in f.rootOf then f.rootOf[root] else root
  }

  function AfterOne(f: Findings, incidents: seq<Incident>, run: Run, at: int, chosen: map<Id, nat>, k: nat): Incident
    requires k < |incidents|
  {
    var i := incidents[k];
    if k in Before(incidents, run, at) then AfterEarlier(f, i, k in chosen.Values, run, at)
    else if k in Mine(incidents, run) && k !in chosen.Values && TopOf(f, i.root) in chosen
    then i.(mergedInto := Some(chosen[TopOf(f, i.root)]))
    else i
  }

  /** All the incidents once the run is regrouped. */
  function After(f: Findings, incidents: seq<Incident>, run: Run, at: int, heads: seq<Id>): (after: seq<Incident>)
    ensures |after| == |incidents| + |Opened(f, incidents, run, at, heads)|
    ensures forall k: nat :: k < |incidents| ==>
              after[k] == AfterOne(f, incidents, run, at, Assigned(f, incidents, run, at, heads), k)
    ensures forall k: nat :: |incidents| <= k < |after| ==>
              after[k] == NewIncident(Opened(f, incidents, run, at, heads)[k - |incidents|], run, at)
  {
    var chosen := Assigned(f, incidents, run, at, heads);
    seq(|incidents|, k requires 0 <= k < |incidents| => AfterOne(f, incidents, run, at, chosen, k))
    + NewIncidents(Opened(f, incidents, run, at, heads), run, at)
  }

  function NewIncidents(roots: seq<Id>, run: Run, at: int): seq<Incident> {
    seq(|roots|, j requires 0 <= j < |roots| => NewIncident(roots[j], run, at))
  }

  // -- The store's unique index --------------------------------------------------------

  /** At most one open incident per root: what the store's unique index enforces. */
  ghost predicate OneOpenPerRoot(incidents: seq<Incident>) {
    forall j, k :: 0 <= j < k < |incidents| && incidents[j].Open() && incidents[k].Open()
                   ==> incidents[j].root != incidents[k].root
  }

  /** What the run could find open was not opened after `at`, unless it opened it itself. */
  ghost predicate FoundBy(incidents: seq<Incident>, run: Run, at: int) {
    forall k :: 0 <= k < |incidents| && incidents[k].Contends(run) && incidents[k].openedBy != run
                ==> incidents[k].openedAt <= at
  }

  /** No two incidents this run could leave open share a root, and none is from its future. */
  ghost predicate Calm(incidents: seq<Incident>, run: Run, at: int) {
    && FoundBy(incidents, run, at)
    && (forall j, k :: 0 <= j < k < |incidents| && incidents[j].Contends(run) && incidents[k].Contends(run)
                       ==> incidents[j].root != incidents[k].root)
  }

  // -- What the assignment means -------------------------------------------------------

  /** Where in the list of new incidents a root that needs one is. */
  lemma {:induction false} AssignedMeans(f: Findings, incidents: seq<Incident>, run: Run, at: int, heads: seq<Id>, root: Id)
    requires root in heads
    ensures var chosen := Assigned(f, incidents, run, at, heads);
      var opening := Opened(f, incidents, run, at, heads);
      match Existing(f, incidents, run, at, root)
      case Some(k) => chosen[root] == k
      case None => |incidents| <= chosen[root] < |incidents| + |opening| && opening[chosen[root] - |incidents|] == root
  {
    var n := |heads| - 1;
    if heads[n] != root {
      assert root in heads[..n];
      AssignedMeans(f, incidents, run, at, heads[..n], root);
    }
  }

  lemma {:induction false} OpenedAreNew(f: Findings, incidents: seq<Incident>, run: Run, at: int, heads: seq<Id>)
    ensures forall r :: r in Opened(f, incidents, run, at, heads)
                        <==> r in heads && Existing(f, incidents, run, at, r).None?
    ensures |Opened(f, incidents, run, at, heads)| <= |heads|
  {
    if heads != [] {
      OpenedAreNew(f, incidents, run, at, heads[..|heads| - 1]);
      assert heads == heads[..|heads| - 1] + [heads[|heads| - 1]];
    }
  }

  /** Each new incident was opened for one root. */
  lemma {:induction false} OpenedOnce(f: Findings, incidents: seq<Incident>, run: Run, at: int, heads: seq<Id>)
    requires Ascending(heads)
    ensures Ascending(Opened(f, incidents, run, at, heads))
  {
    if heads != [] {
      var n := |heads| - 1;
      assert Ascending(heads[..n]);
      OpenedOnce(f, incidents, run, at, heads[..n]);
      OpenedAreNew(f, incidents, run, at, heads[..n]);
      AppendAscending(Opened(f, incidents, run, at, heads[..n]), heads[n], heads[..n]);
    }
  }
}
