/** What a run's result files say: which checks fail, about which node, and the status of every node. */
module Checks {
  import opened Ids
  import Lineage

  datatype Node = Node(uniqueId: Id, resourceType: string, dependsOn: seq<Id>, attachedNode: Option<Id>) {
    /** The node dbt attaches a test to; an empty name counts as none. */
    predicate Attached() {
      attachedNode.Some? && attachedNode.value != ""
    }
  }

  type Nodes = map<Id, Node>

  /** One failing check of a run, and the node it is about. */
  datatype CheckEvent = CheckEvent(checkId: string, subject: Id)

  datatype Result = Result(uniqueId: Id, status: string)

  datatype Kind = RunResults | Sources

  /** A result file, named by the invocation that wrote it, and when that was. */
  datatype Artifact = Artifact(invocation: string, kind: Kind, generatedAt: int, results: seq<Result>)

  const FAILED_TEST: set<string> := {"fail", "error"}
  const FAILED_FRESHNESS: set<string> := {"error", "runtime error"}
  const BAD: set<string> := {"error", "fail", "runtime error"}
  const HEALTHY_FRESHNESS: set<string> := {"pass", "warn"}

  predicate IsSource(id: Id) { "source." <= id }

  predicate IsTest(id: Id) { "test." <= id }

  function FreshnessCheckId(id: Id): string { "freshness:" + id }

  /** What dbt guarantees of a manifest: ids say their type, and tests hang on datasets. */
  ghost predicate WellFormed(nodes: Nodes) {
    && (forall id :: id in nodes ==>
          && nodes[id].uniqueId == id
          && (nodes[id].resourceType == "test" <==> IsTest(id))
          && (nodes[id].resourceType == "model" ==> !IsSource(id))
          && !("freshness:" <= id)
          && (nodes[id].Attached() ==> !IsTest(nodes[id].attachedNode.value)))
    && Lineage.Acyclic(GraphOf(nodes))
  }

  // -- The lineage graph of a manifest -------------------------------------------------

  function GraphOf(nodes: Nodes): (g: Lineage.Graph)
    ensures Lineage.Closed(g) && g.Keys == nodes.Keys
  {
    map n | n in nodes :: Above(nodes, n)
  }

  function Above(nodes: Nodes, n: Id): set<Id>
    requires n in nodes
  {
    set p | p in nodes[n].dependsOn && p in nodes
  }

  method BuildGraph(nodes: Nodes) returns (g: Lineage.Graph)
    ensures g == GraphOf(nodes)
    ensures g.Keys == nodes.Keys
    ensures forall n, p :: n in nodes ==> (p in g[n] <==> p in nodes && p in nodes[n].dependsOn)
  {
    g := map[];
    var ids := InOrder(nodes.Keys);
    for i := 0 to |ids|
      invariant g.Keys <= nodes.Keys
      invariant forall j :: 0 <= j < i ==> ids[j] in g
      invariant forall n :: n in g ==> g[n] == Above(nodes, n)
    {
      assert ids[i] in nodes;
      var above := KnownParents(nodes[ids[i]].dependsOn, nodes);
      g := g[ids[i] := above];
    }
  }

  method KnownParents(dependsOn: seq<Id>, nodes: Nodes) returns (above: set<Id>)
    ensures above == set p | p in dependsOn && p in nodes
  {
    above := {};
    for j := 0 to |dependsOn|
      invariant forall p :: p in above ==> p in dependsOn && p in nodes
      invariant forall k :: 0 <= k < j && dependsOn[k] in nodes ==> dependsOn[k] in above
    {
      if dependsOn[j] in nodes {
        above := above + {dependsOn[j]};
      }
    }
  }

  // -- Subjects of checks --------------------------------------------------------------

  function Parents(dependsOn: seq<Id>): seq<Id> {
    if dependsOn == [] then []
    else (if "macro." <= dependsOn[0] then [] else [dependsOn[0]]) + Parents(dependsOn[1..])
  }

  function TestSubject(test: Node): Id {
    var parents := Parents(test.dependsOn);
    if |parents| <= 1 && test.Attached() then test.attachedNode.value
    else if |parents| == 1 && IsSource(parents[0]) then parents[0]
    else test.uniqueId
  }

  /** The dataset whose health a test decides: the node it is attached to, else its subject. */
  function TestedDataset(test: Node): Id {
    if test.Attached() then test.attachedNode.value else TestSubject(test)
  }

  /** Every dataset's tests. */
  function TestsOf(nodes: Nodes, dataset: Id): set<Id> {
    set t | t in nodes && nodes[t].resourceType == "test"
            && TestedDataset(nodes[t]) == dataset && dataset != t
  }

  /** A root, or for a test the model it hangs on. */
  function DatasetOf(root: Id, nodes: Nodes): Id {
    if root in nodes && nodes[root].resourceType == "test" && nodes[root].Attached()
    then nodes[root].attachedNode.value
    else root
  }

  // -- Parsing -------------------------------------------------------------------------

  /** The failing check one result line reports, if it reports one. */
  function EventOf(kind: Kind, r: Result, nodes: Nodes): Option<CheckEvent> {
    if kind == Sources then
      if r.status in FAILED_FRESHNESS
      then Some(CheckEvent(FreshnessCheckId(r.uniqueId), r.uniqueId))
      else None
    else if r.uniqueId !in nodes || r.status == "skipped" then None
    else if nodes[r.uniqueId].resourceType == "model" && r.status == "error" then
      Some(CheckEvent(r.uniqueId, r.uniqueId))
    else if nodes[r.uniqueId].resourceType == "test" && r.status in FAILED_TEST then
      Some(CheckEvent(r.uniqueId, TestSubject(nodes[r.uniqueId])))
    else None
  }

  /** The node a check is about, by its id alone. */
  function SubjectOf(check: string, nodes: Nodes): Id {
    if "freshness:" <= check then check[|"freshness:"|..]
    else if check in nodes && nodes[check].resourceType == "test" then TestSubject(nodes[check])
    else check
  }

  lemma EventSubject(kind: Kind, r: Result, nodes: Nodes)
    requires WellFormed(nodes) && EventOf(kind, r, nodes).Some?
    ensures EventOf(kind, r, nodes).value.subject == SubjectOf(EventOf(kind, r, nodes).value.checkId, nodes)
  {
    assert FreshnessCheckId(r.uniqueId)[|"freshness:"|..] == r.uniqueId;
  }

  ghost function EventsOf(a: Artifact, nodes: Nodes): set<CheckEvent> {
    set r | r in a.results && EventOf(a.kind, r, nodes).Some? :: EventOf(a.kind, r, nodes).value
  }

  method Parse(a: Artifact, nodes: Nodes) returns (events: seq<CheckEvent>)
    ensures forall e :: e in events <==> e in EventsOf(a, nodes)
  {
    events := [];
    for i := 0 to |a.results|
      invariant forall e :: e in events <==>
        exists r :: r in a.results[..i] && EventOf(a.kind, r, nodes) == Some(e)
    {
      var event := EventOf(a.kind, a.results[i], nodes);
      assert a.results[..i + 1] == a.results[..i] + [a.results[i]];
      if event.Some? {
        events := events + [event.value];
      }
    }
    assert a.results[..|a.results|] == a.results;
  }

  // -- Statuses ------------------------------------------------------------------------

  /** A node's status in a run, from the statuses reported for it in order: its worst. */
  function Worst(reported: seq<string>): Option<string> {
    if reported == [] then None else
      var s := reported[|reported| - 1];
      var before := Worst(reported[..|reported| - 1]);
      if s == "skipped" || (before.Some? && before.value in BAD) then before else Some(s)
  }

  function Reported(rows: set<(Id, string)>, id: Id): set<string> {
    set row | row in rows && row.0 == id :: row.1
  }

  function StatusOf(rows: set<(Id, string)>, id: Id): Option<string> {
    Worst(Sorted(Reported(rows, id)))
  }

  function Statuses(rows: set<(Id, string)>): map<Id, string> {
    map row | row in rows && StatusOf(rows, row.0).Some? :: row.0 := StatusOf(rows, row.0).value
  }

  lemma {:induction false} WorstIsBad(reported: seq<string>)
    ensures Worst(reported).Some? && Worst(reported).value in BAD
            <==> exists s :: s in reported && s in BAD
    ensures Worst(reported).Some? ==> Worst(reported).value in reported && Worst(reported).value != "skipped"
    ensures Worst(reported).Some? <==> exists s :: s in reported && s != "skipped"
  {
    if reported != [] {
      var last := reported[|reported| - 1];
      WorstIsBad(reported[..|reported| - 1]);
      assert reported == reported[..|reported| - 1] + [last];
      assert last in reported;
    }
  }

  /** A node reported several times in a run is bad exactly when one of its reports is. */
  lemma StatusIsBad(rows: set<(Id, string)>, id: Id)
    ensures (id in Statuses(rows) && Statuses(rows)[id] in BAD)
            <==> exists s :: s in BAD && (id, s) in rows
    ensures id in Statuses(rows) <==> exists s :: s != "skipped" && (id, s) in rows
    ensures id in Statuses(rows) ==> StatusOf(rows, id) == Some(Statuses(rows)[id])
  {
    var reported := Sorted(Reported(rows, id));
    WorstIsBad(reported);
    forall s ensures s in reported <==> (id, s) in rows {
      if (id, s) in rows { assert (id, s).1 in Reported(rows, id); }
    }
    if exists s :: s != "skipped" && (id, s) in rows {
      var s :| s != "skipped" && (id, s) in rows;
      assert s in reported && (id, s).0 == id;
    }
  }

  /** One node's reports read in order, as the desk's query returns them. */
  method ReadReports(id: Id, reported: seq<string>, statuses: map<Id, string>) returns (after: map<Id, string>)
    requires id !in statuses
    ensures after == match Worst(reported) case None => statuses case Some(s) => statuses[id := s]
  {
    after := statuses;
    for j := 0 to |reported|
      invariant after == match Worst(reported[..j]) case None => statuses case Some(s) => statuses[id := s]
    {
      assert reported[..j + 1][..j] == reported[..j];
      if reported[j] != "skipped" && !(id in after && after[id] in BAD) {
        after := after[id := reported[j]];
      }
    }
    assert reported[..|reported|] == reported;
  }

  /** `statuses` has read everything about `id`. */
  ghost predicate Reads(statuses: map<Id, string>, rows: set<(Id, string)>, id: Id) {
    StatusOf(rows, id) == if id in statuses then Some(statuses[id]) else None
  }

  lemma AllRead(statuses: map<Id, string>, rows: set<(Id, string)>)
    requires forall id :: Reads(statuses, rows, id)
    ensures statuses == Statuses(rows)
  {
    forall id ensures id in statuses <==> id in Statuses(rows) {
      StatusKnown(rows, id);
      assert Reads(statuses, rows, id);
    }
    forall id | id in statuses ensures statuses[id] == Statuses(rows)[id] {
      assert Reads(statuses, rows, id);
    }
  }

  method CollectStatuses(rows: set<(Id, string)>) returns (statuses: map<Id, string>)
    ensures statuses == Statuses(rows)
  {
    statuses := map[];
    var known := set row | row in rows :: row.0;
    var ids := InOrderOnce(known);
    for i := 0 to |ids|
      invariant forall j :: 0 <= j < i ==> Reads(statuses, rows, ids[j])
      invariant forall j :: i <= j < |ids| ==> ids[j] !in statuses
      invariant forall id :: id in statuses ==> id in known
    {
      statuses := ReadReports(ids[i], Sorted(Reported(rows, ids[i])), statuses);
    }
    forall id ensures Reads(statuses, rows, id) {
      StatusKnown(rows, id);
      if StatusOf(rows, id).Some? { assert id in ids; }
    }
    AllRead(statuses, rows);
  }

  lemma StatusKnown(rows: set<(Id, string)>, id: Id)
    ensures StatusOf(rows, id).Some? <==> id in Statuses(rows)
    ensures StatusOf(rows, id).Some? ==> id in set row | row in rows :: row.0
  {
    StatusIsBad(rows, id);
    WorstIsBad(Sorted(Reported(rows, id)));
    if StatusOf(rows, id).Some? {
      var row :| row in rows && row.0 == id;
    }
  }

  function Skipped(rows: set<(Id, string)>): set<Id> {
    set row | row in rows && row.1 == "skipped" :: row.0
  }
}
