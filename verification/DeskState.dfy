/** The incident store, and what one ingest does to it. */
module DeskState {
  import opened Ids
  import opened Checks
  import opened Incidents
  import Lineage
  import Grouping
  import Regrouping
  import Settling
  import Steadiness

  // -- The store -----------------------------------------------------------------------

  /** A recorded failing check, and the incident it is counted under. */
  datatype Event = Event(subject: Id, incident: Option<nat>)

  datatype Row = Row(run: Run, uniqueId: Id, status: string)

  datatype Store = Store(invocations: map<string, Run>, rows: set<Row>, events: map<(Run, string), Event>,
                         incidents: seq<Incident>)

  const EMPTY := Store(map[], {}, map[], [])

  /** The manifest and its lineage graph. */
  datatype Context = Context(nodes: Nodes, graph: Lineage.Graph)

  ghost predicate ValidContext(ctx: Context) {
    WellFormed(ctx.nodes) && ctx.graph == GraphOf(ctx.nodes)
  }

  /** Every check of a run. */
  function ChecksOf(events: map<(Run, string), Event>, run: Run): set<string> {
    set k | k in events && k.0 == run :: k.1
  }

  /** Every node a check of the run is about. */
  function FailedOf(events: map<(Run, string), Event>, run: Run): set<Id> {
    set k | k in events && k.0 == run :: events[k].subject
  }

  /** What the run's invocations reported, node by node. */
  function ReportsOf(rows: set<Row>, run: Run): set<(Id, string)> {
    set r | r in rows && r.run == run :: (r.uniqueId, r.status)
  }

  // -- What a run shows ----------------------------------------------------------------

  /** The statuses show `root` and what it is about in order. */
  predicate Healthy(root: Id, nodes: Nodes, statuses: map<Id, string>) {
    var dataset := DatasetOf(root, nodes);
    if IsTest(root) then root in statuses && statuses[root] == "pass"
    else
      && (if IsSource(root) then root in statuses && statuses[root] in HEALTHY_FRESHNESS
          else dataset in statuses && statuses[dataset] == "success")
      && TestsPass(TestsOf(nodes, dataset), statuses)
  }

  /** Every test that ran passed, and one did if there are any. */
  predicate TestsPass(tests: set<Id>, statuses: map<Id, string>) {
    && (tests == {} || exists t :: t in tests && t in statuses)
    && (forall t :: t in tests && t in statuses ==> statuses[t] == "pass")
  }

  /** The statuses say something of `root`. */
  predicate Covered(root: Id, nodes: Nodes, statuses: map<Id, string>) {
    root in statuses || DatasetOf(root, nodes) in statuses
  }

  /** What the run's failures and statuses say, for the rules to read. */
  function FindingsOf(ctx: Context, rootOf: map<Id, Id>, statuses: map<Id, string>): Findings
    requires Lineage.Acyclic(ctx.graph)
  {
    var above := Grouping.AncestorMap(ctx.graph);
    Findings(rootOf,
             n => if n in above then above[n] else {},
             root => Covered(root, ctx.nodes, statuses),
             root => Healthy(root, ctx.nodes, statuses))
  }

  function FindingsIn(ctx: Context, s: Store, run: Run): Findings
    requires Lineage.Closed(ctx.graph) && Lineage.Acyclic(ctx.graph)
  {
    FindingsOf(ctx, Grouping.RootMap(ctx.graph, FailedOf(s.events, run)), Statuses(ReportsOf(s.rows, run)))
  }

  /** The roots the groups are ordered by. */
  function Heads(rootOf: map<Id, Id>): seq<Id> {
    Sorted(rootOf.Values)
  }

  // -- One ingest ----------------------------------------------------------------------

  function RowsOf(run: Run, a: Artifact): set<Row> {
    set r | r in a.results :: Row(run, r.uniqueId, r.status)
  }

  function CheckIds(a: Artifact, nodes: Nodes): set<string> {
    set r | r in a.results && EventOf(a.kind, r, nodes).Some? :: EventOf(a.kind, r, nodes).value.checkId
  }

  /** A check already recorded for the run keeps its first report. */
  function AddEvents(events: map<(Run, string), Event>, run: Run, checks: set<string>, nodes: Nodes)
    : map<(Run, string), Event>
  {
    (map c | c in checks :: (run, c) := Event(SubjectOf(c, nodes), None)) + events
  }

  lemma InAdded(nodes: Nodes, events: map<(Run, string), Event>, run: Run, checks: set<string>, k: (Run, string))
    ensures var after := AddEvents(events, run, checks, nodes);
      && (k in after <==> k in events || (k.0 == run && k.1 in checks))
      && (k in after ==> after[k] == if k in events then events[k] else Event(SubjectOf(k.1, nodes), None))
  {
  }

  lemma AddedEvent(nodes: Nodes, events: map<(Run, string), Event>, run: Run, checks: set<string>, c: string)
    ensures var before := AddEvents(events, run, checks, nodes);
      AddEvents(events, run, checks + {c}, nodes)
      == if (run, c) in before then before else before[(run, c) := Event(SubjectOf(c, nodes), None)]
  {
    var before, after := AddEvents(events, run, checks, nodes), AddEvents(events, run, checks + {c}, nodes);
    forall k
      ensures (k in after <==> k in before || k == (run, c))
              && (k in after ==> after[k] == if k in before then before[k] else Event(SubjectOf(c, nodes), None))
    {
      InAdded(nodes, events, run, checks, k);
      InAdded(nodes, events, run, checks + {c}, k);
    }
  }

  function Record(nodes: Nodes, s: Store, run: Run, a: Artifact): Store {
    Store(s.invocations[a.invocation := run],
          s.rows + RowsOf(run, a),
          AddEvents(s.events, run, CheckIds(a, nodes), nodes),
          s.incidents)
  }

  function RecordAll(nodes: Nodes, s: Store, run: Run, artifacts: seq<Artifact>): Store {
    if artifacts == [] then s
    else Record(nodes, RecordAll(nodes, s, run, artifacts[..|artifacts| - 1]), run, artifacts[|artifacts| - 1])
  }

  /** Each of the run's checks counted under the incident its subject's root went to. */
  function Linked(events: map<(Run, string), Event>, run: Run, rootOf: map<Id, Id>, chosen: map<Id, nat>)
    : map<(Run, string), Event>
  {
    map k | k in events :: LinkedEvent(k, events[k], run, rootOf, chosen)
  }

  function LinkedEvent(k: (Run, string), e: Event, run: Run, rootOf: map<Id, Id>, chosen: map<Id, nat>): Event {
    if k.0 == run && e.subject in rootOf && rootOf[e.subject] in chosen
    then Event(e.subject, Some(chosen[rootOf[e.subject]])) else e
  }

  function Regrouped(f: Findings, s: Store, run: Run, at: int, heads: seq<Id>): Store {
    Store(s.invocations, s.rows,
          Linked(s.events, run, f.rootOf, Assigned(f, s.incidents, run, at, heads)),
          After(f, s.incidents, run, at, heads))
  }

  function Regroup(ctx: Context, s: Store, run: Run, at: int): Store
    requires Lineage.Closed(ctx.graph) && Lineage.Acyclic(ctx.graph)
  {
    var f := FindingsIn(ctx, s, run);
    Regrouped(f, s, run, at, Heads(f.rootOf))
  }

  /** The store's unique index refuses the run's regrouping. */
  ghost predicate RefusesRun(ctx: Context, s: Store, run: Run, at: int)
    requires Lineage.Closed(ctx.graph) && Lineage.Acyclic(ctx.graph)
  {
    var f := FindingsIn(ctx, s, run);
    Regrouping.Refuses(f, s.incidents, run, at, Heads(f.rootOf))
  }

  /** The artifacts whose invocation the store has not seen. */
  function NotSeen(invocations: map<string, Run>, artifacts: seq<Artifact>): seq<Artifact> {
    if artifacts == [] then []
    else
      var rest, last := NotSeen(invocations, artifacts[..|artifacts| - 1]), artifacts[|artifacts| - 1];
      if last.invocation in invocations then rest else rest + [last]
  }

  /** When the last of some files was written. */
  function LastWritten(artifacts: seq<Artifact>): int
    requires artifacts != []
  {
    var n := |artifacts| - 1;
    if n == 0 then artifacts[0].generatedAt
    else
      var before, last := LastWritten(artifacts[..n]), artifacts[n].generatedAt;
      if before < last then last else before
  }

  lemma {:induction false} LastWrittenIs(artifacts: seq<Artifact>)
    requires artifacts != []
    ensures forall i :: 0 <= i < |artifacts| ==> artifacts[i].generatedAt <= LastWritten(artifacts)
    ensures exists i :: 0 <= i < |artifacts| && artifacts[i].generatedAt == LastWritten(artifacts)
  {
    var n := |artifacts| - 1;
    if n > 0 {
      LastWrittenIs(artifacts[..n]);
      var i :| 0 <= i < n && artifacts[..n][i].generatedAt == LastWritten(artifacts[..n]);
      assert artifacts[i].generatedAt == LastWritten(artifacts[..n]);
    }
    assert artifacts[n].generatedAt <= LastWritten(artifacts);
  }

  /** When a run detected its failures: as told, else when the last of its files was written. */
  ghost predicate IsDetected(artifacts: seq<Artifact>, at: Option<int>, detected: int) {
    match at
    case Some(told) => detected == told
    case None =>
      && (forall i :: 0 <= i < |artifacts| ==> artifacts[i].generatedAt <= detected)
      && exists i :: 0 <= i < |artifacts| && artifacts[i].generatedAt == detected
  }

  function Ingest(ctx: Context, s: Store, run: Run, artifacts: seq<Artifact>, at: int): Store
    requires Lineage.Closed(ctx.graph) && Lineage.Acyclic(ctx.graph)
  {
    var fresh_ := NotSeen(s.invocations, artifacts);
    if fresh_ == [] then s else Regroup(ctx, RecordAll(ctx.nodes, s, run, fresh_), run, at)
  }

  // -- What every store keeps ----------------------------------------------------------

  /** Every incident is at a node its run failed on, every recorded check is about the node its id says. */
  ghost predicate Tied(nodes: Nodes, s: Store) {
    && (forall k :: 0 <= k < |s.incidents| ==> s.incidents[k].root in FailedOf(s.events, s.incidents[k].openedBy))
    && (forall k :: k in s.events ==> s.events[k].subject == SubjectOf(k.1, nodes))
  }

  ghost predicate Consistent(nodes: Nodes, s: Store) {
    Tied(nodes, s) && OneOpenPerRoot(s.incidents) && Steadiness.MergesEnd(s.incidents)
  }

  lemma EmptyIsConsistent(nodes: Nodes)
    ensures Consistent(nodes, EMPTY)
  {
    assert Steadiness.Ranks([], []);
  }

  function InvocationsOf(artifacts: seq<Artifact>): set<string> {
    set a | a in artifacts :: a.invocation
  }

  /** No invocation is recorded already, or twice in the list. */
  predicate DistinctFrom(known: set<string>, artifacts: seq<Artifact>) {
    artifacts == []
    || (var rest := artifacts[..|artifacts| - 1];
        var last := artifacts[|artifacts| - 1];
        DistinctFrom(known, rest) && last.invocation !in known + InvocationsOf(rest))
  }

  /** A call is refused when an unseen invocation comes twice in the folder, or by the regrouping. */
  ghost predicate RefusesIngest(ctx: Context, s: Store, run: Run, artifacts: seq<Artifact>, at: int)
    requires Lineage.Closed(ctx.graph) && Lineage.Acyclic(ctx.graph)
  {
    var unseen := NotSeen(s.invocations, artifacts);
    unseen != [] && (!DistinctFrom(s.invocations.Keys, unseen)
                     || RefusesRun(ctx, RecordAll(ctx.nodes, s, run, unseen), run, at))
  }

  lemma {:induction false} DistinctPrefix(known: set<string>, artifacts: seq<Artifact>, n: nat)
    requires n <= |artifacts| && DistinctFrom(known, artifacts)
    ensures DistinctFrom(known, artifacts[..n])
    decreases |artifacts|
  {
    if n < |artifacts| {
      var rest := artifacts[..|artifacts| - 1];
      DistinctPrefix(known, rest, n);
      assert rest[..n] == artifacts[..n];
    } else {
      assert artifacts[..n] == artifacts;
    }
  }

  lemma {:induction false} RecordedIds(nodes: Nodes, s: Store, run: Run, artifacts: seq<Artifact>)
    ensures RecordAll(nodes, s, run, artifacts).invocations.Keys == s.invocations.Keys + InvocationsOf(artifacts)
  {
    if artifacts != [] {
      var rest := artifacts[..|artifacts| - 1];
      RecordedIds(nodes, s, run, rest);
      assert artifacts == rest + [artifacts[|artifacts| - 1]];
      assert InvocationsOf(artifacts) == InvocationsOf(rest) + {artifacts[|artifacts| - 1].invocation};
    }
  }

  // -- Every ingest keeps a store consistent -------------------------------------------

  /** Findings that name a root for each of the run's failures, and nothing else. */
  ghost predicate About(f: Findings, s: Store, run: Run) {
    f.rootOf.Keys == FailedOf(s.events, run) && f.rootOf.Values <= FailedOf(s.events, run)
  }

  lemma RootMapAbout(g: Lineage.Graph, failed: set<Id>)
    requires Lineage.Closed(g) && Lineage.Acyclic(g)
    ensures Grouping.RootMap(g, failed).Keys == failed
    ensures Grouping.RootMap(g, failed).Values <= failed
  {
    forall n | n in failed ensures Grouping.RootMap(g, failed)[n] in failed {
      Grouping.RootIsTop(g, failed, n);
    }
  }

  lemma FindingsAbout(ctx: Context, s: Store, run: Run)
    requires ValidContext(ctx)
    ensures About(FindingsIn(ctx, s, run), s, run)
  {
    RootMapAbout(ctx.graph, FailedOf(s.events, run));
  }

  /** The run's own incidents are at nodes it failed on. */
  lemma MineAreFailed(nodes: Nodes, s: Store, run: Run)
    requires Tied(nodes, s)
    ensures forall k :: k in Mine(s.incidents, run) ==> s.incidents[k].root in FailedOf(s.events, run)
  {
  }

  lemma GroundedIn(nodes: Nodes, f: Findings, s: Store, run: Run)
    requires Tied(nodes, s) && About(f, s, run)
    ensures Settling.Grounded(f, s.incidents, run, Heads(f.rootOf))
  {
    SortedAscends(f.rootOf.Values);
    MineAreFailed(nodes, s, run);
  }

  lemma RecordedChecks(nodes: Nodes, s: Store, run: Run, a: Artifact, other: Run)
    ensures ChecksOf(Record(nodes, s, run, a).events, other)
            == ChecksOf(s.events, other) + if other == run then CheckIds(a, nodes) else {}
  {
    var after := Record(nodes, s, run, a);
    forall c ensures c in ChecksOf(after.events, other)
                     <==> c in ChecksOf(s.events, other) || (other == run && c in CheckIds(a, nodes)) {
      InChecks(after.events, other, c);
      InChecks(s.events, other, c);
    }
  }

  lemma RecordedReports(nodes: Nodes, s: Store, run: Run, a: Artifact, other: Run)
    ensures ReportsOf(Record(nodes, s, run, a).rows, other)
            == ReportsOf(s.rows, other) + if other == run then ReportsOf(RowsOf(run, a), run) else {}
  {
    var after := Record(nodes, s, run, a);
    forall r: (Id, string) ensures r in ReportsOf(after.rows, other)
                     <==> r in ReportsOf(s.rows, other) || (other == run && r in ReportsOf(RowsOf(run, a), run)) {
      InReports(after.rows, other, r);
      InReports(s.rows, other, r);
      InReports(RowsOf(run, a), run, r);
    }
  }

  lemma RecordedTied(nodes: Nodes, s: Store, run: Run, a: Artifact)
    requires Tied(nodes, s)
    ensures Tied(nodes, Record(nodes, s, run, a))
  {
    var after := Record(nodes, s, run, a);
    forall k | 0 <= k < |s.incidents|
      ensures s.incidents[k].root in FailedOf(after.events, s.incidents[k].openedBy)
    {
      assert s.incidents[k].root in FailedOf(s.events, s.incidents[k].openedBy);
      var e :| e in s.events && e.0 == s.incidents[k].openedBy && s.events[e].subject == s.incidents[k].root;
      assert e in after.events && after.events[e] == s.events[e];
    }
  }

  lemma RecordKeeps(nodes: Nodes, s: Store, run: Run, a: Artifact, other: Run)
    ensures ChecksOf(Record(nodes, s, run, a).events, other)
            == ChecksOf(s.events, other) + if other == run then CheckIds(a, nodes) else {}
    ensures ReportsOf(Record(nodes, s, run, a).rows, other)
            == ReportsOf(s.rows, other) + if other == run then ReportsOf(RowsOf(run, a), run) else {}
    ensures Tied(nodes, s) ==> Tied(nodes, Record(nodes, s, run, a))
  {
    RecordedChecks(nodes, s, run, a, other);
    RecordedReports(nodes, s, run, a, other);
    if Tied(nodes, s) { RecordedTied(nodes, s, run, a); }
  }

  lemma InChecks(events: map<(Run, string), Event>, run: Run, c: string)
    ensures c in ChecksOf(events, run) <==> (run, c) in events
  {
    if (run, c) in events { assert (run, c).1 in ChecksOf(events, run); }
  }

  lemma InReports(rows: set<Row>, run: Run, r: (Id, string))
    ensures r in ReportsOf(rows, run) <==> Row(run, r.0, r.1) in rows
  {
    if Row(run, r.0, r.1) in rows { assert (Row(run, r.0, r.1).uniqueId, Row(run, r.0, r.1).status) in ReportsOf(rows, run); }
  }

  lemma {:induction false} RecordAllKeeps(nodes: Nodes, s: Store, run: Run, artifacts: seq<Artifact>)
    requires Tied(nodes, s)
    ensures Tied(nodes, RecordAll(nodes, s, run, artifacts))
    ensures RecordAll(nodes, s, run, artifacts).incidents == s.incidents
  {
    if artifacts != [] {
      RecordAllKeeps(nodes, s, run, artifacts[..|artifacts| - 1]);
      RecordKeeps(nodes, RecordAll(nodes, s, run, artifacts[..|artifacts| - 1]), run, artifacts[|artifacts| - 1], run);
    }
  }

  lemma LinkedKeeps(events: map<(Run, string), Event>, run: Run, rootOf: map<Id, Id>, chosen: map<Id, nat>, other: Run)
    ensures var after := Linked(events, run, rootOf, chosen);
      && ChecksOf(after, other) == ChecksOf(events, other)
      && FailedOf(after, other) == FailedOf(events, other)
      && forall k :: k in after ==> k in events && after[k].subject == events[k].subject
  {
    var after := Linked(events, run, rootOf, chosen);
    assert after.Keys == events.Keys;
    assert forall k :: k in events ==> after[k].subject == events[k].subject;
  }

  /** Every incident after a regrouping is at a root one of the run's failures has, or was there before. */
  lemma IncidentsStayTied(f: Findings, s: Store, run: Run, at: int, heads: seq<Id>, k: nat)
    requires About(f, s, run) && Settling.Grounded(f, s.incidents, run, heads)
    requires k < |After(f, s.incidents, run, at, heads)|
    requires forall j :: 0 <= j < |s.incidents| ==> s.incidents[j].root in FailedOf(s.events, s.incidents[j].openedBy)
    ensures var i := After(f, s.incidents, run, at, heads)[k];
            i.root in FailedOf(s.events, i.openedBy)
  {
    if k >= |s.incidents| {
      OpenedAreNew(f, s.incidents, run, at, heads);
      assert Opened(f, s.incidents, run, at, heads)[k - |s.incidents|] in Opened(f, s.incidents, run, at, heads);
    }
  }

  /** Regrouping keeps every incident at a failure of its run. */
  lemma RegroupedTied(nodes: Nodes, f: Findings, s: Store, run: Run, at: int, heads: seq<Id>)
    requires Tied(nodes, s)
    requires About(f, s, run) && Settling.Grounded(f, s.incidents, run, heads)
    ensures Tied(nodes, Regrouped(f, s, run, at, heads))
  {
    var after := Regrouped(f, s, run, at, heads);
    var chosen := Assigned(f, s.incidents, run, at, heads);
    forall k: nat | k < |after.incidents|
      ensures after.incidents[k].root in FailedOf(after.events, after.incidents[k].openedBy)
    {
      IncidentsStayTied(f, s, run, at, heads, k);
      LinkedKeeps(s.events, run, f.rootOf, chosen, after.incidents[k].openedBy);
    }
    LinkedKeeps(s.events, run, f.rootOf, chosen, run);
  }

  /** And every chain of merges finite. */
  lemma RegroupKeeps(ctx: Context, s: Store, run: Run, at: int)
    requires ValidContext(ctx) && Tied(ctx.nodes, s) && Steadiness.MergesEnd(s.incidents)
    ensures Tied(ctx.nodes, Regroup(ctx, s, run, at))
    ensures Steadiness.MergesEnd(Regroup(ctx, s, run, at).incidents)
  {
    var f := FindingsIn(ctx, s, run);
    FindingsAbout(ctx, s, run);
    GroundedIn(ctx.nodes, f, s, run);
    RegroupedTied(ctx.nodes, f, s, run, at, Heads(f.rootOf));
    Steadiness.MergesEndAfter(f, s.incidents, run, at, Heads(f.rootOf));
  }
}
