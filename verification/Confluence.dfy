/** How a run is cut into invocations, and the order they arrive in, does not change the answer. */
module Confluence {
  import opened Ids
  import opened Checks
  import opened Incidents
  import opened Settling
  import opened DeskState
  import Grouping
  import Lineage
  import Steadiness
  import History

  /** What a run's regrouping leaves for people to see, without incident numbers, times or merged leftovers. */
  datatype View = View(own: set<Id>, resolved: set<nat>, home: map<string, Option<Home>>)

  function ViewOf(s: Store, run: Run): View {
    View(LiveOwn(s.incidents, run), ResolvedIn(s.incidents, run),
         map c | c in ChecksOf(s.events, run) :: EventHome(s, run, c))
  }

  function EventHome(s: Store, run: Run, c: string): Option<Home> {
    if (run, c) in s.events && s.events[(run, c)].incident.Some? && s.events[(run, c)].incident.value < |s.incidents|
    then Some(HomeIn(s.incidents, run, s.events[(run, c)].incident.value)) else None
  }

  /** The answer, from the incidents the run found, the checks that failed and what was reported: no order in it. */
  function Answer(ctx: Context, base: seq<Incident>, checks: set<string>, reports: set<(Id, string)>): View
    requires Lineage.Closed(ctx.graph) && Lineage.Acyclic(ctx.graph)
  {
    var failed := set c | c in checks :: SubjectOf(c, ctx.nodes);
    var f := FindingsOf(ctx, Grouping.RootMap(ctx.graph, failed), Statuses(reports));
    AnswerOf(f, ctx.nodes, base, checks)
  }

  function AnswerOf(f: Findings, nodes: Nodes, base: seq<Incident>, checks: set<string>): View {
    View(OwnRoots(f, base), ResolvedOf(f, base), map c | c in checks :: HomeIfFailed(f, base, SubjectOf(c, nodes)))
  }

  function HomeIfFailed(f: Findings, base: seq<Incident>, subject: Id): Option<Home> {
    if subject in f.rootOf then Some(HomeOf(f, base, subject)) else None
  }

  // -- One ingest ----------------------------------------------------------------------

  lemma FailedAreSubjects(nodes: Nodes, s: Store, run: Run)
    requires Tied(nodes, s)
    ensures FailedOf(s.events, run) == set c | c in ChecksOf(s.events, run) :: SubjectOf(c, nodes)
  {
    forall n | n in FailedOf(s.events, run) ensures exists c :: c in ChecksOf(s.events, run) && SubjectOf(c, nodes) == n {
      var k :| k in s.events && k.0 == run && s.events[k].subject == n;
      assert k.1 in ChecksOf(s.events, run);
    }
  }

  lemma HomesOfChecks(nodes: Nodes, f: Findings, base: seq<Incident>, s: Store, run: Run, at: int, heads: seq<Id>)
    requires Tied(nodes, s) && About(f, s, run) && Grounded(f, s.incidents, run, heads)
    requires Since(base, s.incidents, run) && NotBefore(base, at)
    ensures forall c :: c in ChecksOf(s.events, run) ==>
              EventHome(Regrouped(f, s, run, at, heads), run, c) == HomeIfFailed(f, base, SubjectOf(c, nodes))
  {
    forall c | c in ChecksOf(s.events, run)
      ensures EventHome(Regrouped(f, s, run, at, heads), run, c) == HomeIfFailed(f, base, SubjectOf(c, nodes))
    {
      InChecks(s.events, run, c);
      var subject := s.events[(run, c)].subject;
      assert subject in FailedOf(s.events, run);
      HomesSettle(f, base, s.incidents, run, at, heads, subject);
    }
  }

  /** The same checks stay attached to something, each to a home for the data the store holds. */
  lemma HomesAnswer(nodes: Nodes, f: Findings, base: seq<Incident>, s: Store, run: Run, at: int, heads: seq<Id>)
    requires Tied(nodes, s) && About(f, s, run) && Grounded(f, s.incidents, run, heads)
    requires Since(base, s.incidents, run) && NotBefore(base, at)
    ensures ViewOf(Regrouped(f, s, run, at, heads), run).home == AnswerOf(f, nodes, base, ChecksOf(s.events, run)).home
  {
    HomesOfChecks(nodes, f, base, s, run, at, heads);
    LinkedKeeps(s.events, run, f.rootOf, Assigned(f, s.incidents, run, at, heads), run);
  }

  /** After a regrouping, what people see is the answer for the data the store holds. */
  lemma RegroupedAnswers(nodes: Nodes, f: Findings, base: seq<Incident>, s: Store, run: Run, at: int, heads: seq<Id>)
    requires Tied(nodes, s) && About(f, s, run) && Grounded(f, s.incidents, run, heads)
    requires Since(base, s.incidents, run) && NotBefore(base, at)
    ensures ViewOf(Regrouped(f, s, run, at, heads), run) == AnswerOf(f, nodes, base, ChecksOf(s.events, run))
    ensures Since(base, Regrouped(f, s, run, at, heads).incidents, run)
  {
    OwnRootsSettle(f, base, s.incidents, run, at, heads);
    ResolvedSettle(f, base, s.incidents, run, at, heads);
    HomesAnswer(nodes, f, base, s, run, at, heads);
    SinceAfter(f, base, s.incidents, run, at, heads);
  }

  lemma RegroupAnswers(ctx: Context, base: seq<Incident>, s: Store, run: Run, at: int)
    requires ValidContext(ctx) && Tied(ctx.nodes, s)
    requires Since(base, s.incidents, run) && NotBefore(base, at)
    ensures ViewOf(Regroup(ctx, s, run, at), run)
            == Answer(ctx, base, ChecksOf(s.events, run), ReportsOf(s.rows, run))
    ensures Since(base, Regroup(ctx, s, run, at).incidents, run)
  {
    var f := FindingsIn(ctx, s, run);
    FindingsAbout(ctx, s, run);
    GroundedIn(ctx.nodes, f, s, run);
    FailedAreSubjects(ctx.nodes, s, run);
    RegroupedAnswers(ctx.nodes, f, base, s, run, at, Heads(f.rootOf));
  }

  // -- A whole run ---------------------------------------------------------------------

  /** One call of the desk: a folder's result files, and when the run detected its failures. */
  datatype Delivery = Delivery(artifacts: seq<Artifact>, at: int)

  /** What the desk makes of one: a call it refuses leaves the store as it was. */
  ghost function Handle(ctx: Context, s: Store, run: Run, d: Delivery): Store
    requires Lineage.Closed(ctx.graph) && Lineage.Acyclic(ctx.graph)
  {
    if RefusesIngest(ctx, s, run, d.artifacts, d.at) then s else Ingest(ctx, s, run, d.artifacts, d.at)
  }

  ghost function Deliver(ctx: Context, s: Store, run: Run, deliveries: seq<Delivery>): Store
    requires Lineage.Closed(ctx.graph) && Lineage.Acyclic(ctx.graph)
  {
    if deliveries == [] then s
    else Handle(ctx, Deliver(ctx, s, run, deliveries[..|deliveries| - 1]), run, deliveries[|deliveries| - 1])
  }

  /** The files of a run whose invocations the store had not seen when it began. */
  function NewFiles(known: set<string>, deliveries: seq<Delivery>): set<Artifact> {
    set d, a | d in deliveries && a in d.artifacts && a.invocation !in known :: a
  }

  function AllChecks(nodes: Nodes, files: set<Artifact>): set<string> {
    set a, c | a in files && c in CheckIds(a, nodes) :: c
  }

  function AllReports(run: Run, files: set<Artifact>): set<(Id, string)> {
    set a, r | a in files && r in ReportsOf(RowsOf(run, a), run) :: r
  }

  function InvocationIds(files: set<Artifact>): set<string> {
    set a | a in files :: a.invocation
  }

  function FilesIn(artifacts: seq<Artifact>): set<Artifact> {
    set a | a in artifacts
  }

  /** dbt gives every invocation its own id, and writes each file once. */
  ghost predicate IdsNameFiles(files: set<Artifact>) {
    forall a, b :: a in files && b in files && a.invocation == b.invocation ==> a == b
  }

  /** The run is not earlier than the incidents it found open. */
  ghost predicate InTime(base: seq<Incident>, deliveries: seq<Delivery>) {
    forall d, k :: d in deliveries && 0 <= k < |base| && base[k].Open() ==> base[k].openedAt <= d.at
  }

  /** No invocation comes twice in a folder. */
  ghost predicate EachOnce(deliveries: seq<Delivery>) {
    forall d :: d in deliveries ==> History.Once(d.artifacts)
  }

  /** The store holds exactly `files` for the run. */
  ghost predicate Holds(nodes: Nodes, known: set<string>, s: Store, run: Run, files: set<Artifact>) {
    && s.invocations.Keys == known + InvocationIds(files)
    && ChecksOf(s.events, run) == AllChecks(nodes, files)
    && ReportsOf(s.rows, run) == AllReports(run, files)
  }

  lemma HoldsOneMore(nodes: Nodes, known: set<string>, s: Store, run: Run, files: set<Artifact>, a: Artifact)
    requires Holds(nodes, known, s, run, files)
    ensures Holds(nodes, known, Record(nodes, s, run, a), run, files + {a})
  {
    RecordKeeps(nodes, s, run, a, run);
    OneMoreFile(nodes, run, files, a);
  }

  lemma OneMoreFile(nodes: Nodes, run: Run, files: set<Artifact>, a: Artifact)
    ensures AllChecks(nodes, files + {a}) == AllChecks(nodes, files) + CheckIds(a, nodes)
    ensures AllReports(run, files + {a}) == AllReports(run, files) + ReportsOf(RowsOf(run, a), run)
    ensures InvocationIds(files + {a}) == InvocationIds(files) + {a.invocation}
  {
  }

  lemma {:induction false} HoldsMore(nodes: Nodes, known: set<string>, s: Store, run: Run, files: set<Artifact>,
                                     artifacts: seq<Artifact>)
    requires Holds(nodes, known, s, run, files)
    ensures Holds(nodes, known, RecordAll(nodes, s, run, artifacts), run, files + FilesIn(artifacts))
  {
    if artifacts == [] {
      assert files + FilesIn(artifacts) == files;
    } else {
      var rest := artifacts[..|artifacts| - 1];
      var last := artifacts[|artifacts| - 1];
      HoldsMore(nodes, known, s, run, files, rest);
      HoldsOneMore(nodes, known, RecordAll(nodes, s, run, rest), run, files + FilesIn(rest), last);
      assert artifacts == rest + [last];
      assert files + FilesIn(artifacts) == files + FilesIn(rest) + {last};
    }
  }

  lemma {:induction false} NotSeenAre(invocations: map<string, Run>, artifacts: seq<Artifact>)
    ensures forall a :: a in NotSeen(invocations, artifacts) <==> a in artifacts && a.invocation !in invocations
  {
    if artifacts != [] {
      NotSeenAre(invocations, artifacts[..|artifacts| - 1]);
      assert artifacts == artifacts[..|artifacts| - 1] + [artifacts[|artifacts| - 1]];
    }
  }

  /** The state a run's deliveries lead to: nothing changed, or the answer for the files they brought. */
  ghost predicate Answered(ctx: Context, s0: Store, s: Store, run: Run, files: set<Artifact>)
    requires Lineage.Closed(ctx.graph) && Lineage.Acyclic(ctx.graph)
  {
    && Tied(ctx.nodes, s) && Since(s0.incidents, s.incidents, run)
    && Holds(ctx.nodes, s0.invocations.Keys, s, run, files)
    && (files == {} ==> s == s0)
    && (files != {} ==> ViewOf(s, run) == Answer(ctx, s0.incidents, AllChecks(ctx.nodes, files), AllReports(run, files)))
  }

  /** A consistent store the run has left no trace in. */
  ghost predicate Untraced(ctx: Context, s0: Store, run: Run) {
    && ValidContext(ctx) && Tied(ctx.nodes, s0) && OneOpenPerRoot(s0.incidents)
    && Steadiness.Unknown(s0.incidents, run)
    && ChecksOf(s0.events, run) == {} && ReportsOf(s0.rows, run) == {}
  }

  lemma IngestAnswers(ctx: Context, s0: Store, s: Store, run: Run, files: set<Artifact>, d: Delivery)
    requires ValidContext(ctx) && NotBefore(s0.incidents, d.at)
    requires Answered(ctx, s0, s, run, files)
    requires IdsNameFiles(files + NewFiles(s0.invocations.Keys, [d]))
    ensures Answered(ctx, s0, Ingest(ctx, s, run, d.artifacts, d.at), run, files + NewFiles(s0.invocations.Keys, [d]))
  {
    var known := s0.invocations.Keys;
    var unseen := NotSeen(s.invocations, d.artifacts);
    NotSeenAre(s.invocations, d.artifacts);
    var more := FilesIn(unseen);
    assert files + NewFiles(known, [d]) == files + more by { FreshFiles(known, s, files, d); }
    if unseen == [] {
      assert files + more == files;
    } else {
      assert unseen[0] in more;
      NewFilesAnswer(ctx, s0, s, run, files, unseen, d.at);
    }
  }

  /** New files recorded, and the run regrouped. */
  lemma NewFilesAnswer(ctx: Context, s0: Store, s: Store, run: Run, files: set<Artifact>, unseen: seq<Artifact>, at: int)
    requires ValidContext(ctx) && NotBefore(s0.incidents, at) && Answered(ctx, s0, s, run, files)
    requires files + FilesIn(unseen) != {}
    ensures Answered(ctx, s0, Regroup(ctx, RecordAll(ctx.nodes, s, run, unseen), run, at), run, files + FilesIn(unseen))
  {
    var recorded := RecordAll(ctx.nodes, s, run, unseen);
    HoldsMore(ctx.nodes, s0.invocations.Keys, s, run, files, unseen);
    RecordAllKeeps(ctx.nodes, s, run, unseen);
    RegroupAnswers(ctx, s0.incidents, recorded, run, at);
    RegroupTies(ctx, recorded, run, at);
  }

  lemma RegroupTies(ctx: Context, s: Store, run: Run, at: int)
    requires ValidContext(ctx) && Tied(ctx.nodes, s)
    ensures Tied(ctx.nodes, Regroup(ctx, s, run, at))
    ensures ChecksOf(Regroup(ctx, s, run, at).events, run) == ChecksOf(s.events, run)
  {
    var f := FindingsIn(ctx, s, run);
    FindingsAbout(ctx, s, run);
    GroundedIn(ctx.nodes, f, s, run);
    RegroupedTied(ctx.nodes, f, s, run, at, Heads(f.rootOf));
    LinkedKeeps(s.events, run, f.rootOf, Assigned(f, s.incidents, run, at, Heads(f.rootOf)), run);
  }

  lemma FreshFiles(known: set<string>, s: Store, files: set<Artifact>, d: Delivery)
    requires s.invocations.Keys == known + InvocationIds(files)
    requires IdsNameFiles(files + NewFiles(known, [d]))
    ensures files + NewFiles(known, [d]) == files + FilesIn(NotSeen(s.invocations, d.artifacts))
  {
    NotSeenAre(s.invocations, d.artifacts);
    forall a | a in NewFiles(known, [d]) ensures a in files || a in NotSeen(s.invocations, d.artifacts) {
      assert a in d.artifacts;
      if a.invocation in s.invocations {
        var b :| b in files && b.invocation == a.invocation;
      }
    }
    forall a | a in NotSeen(s.invocations, d.artifacts) ensures a in NewFiles(known, [d]) {
      assert d in [d];
    }
  }

  // -- What is refused -----------------------------------------------------------------

  /** While the run's deliveries come in, whatever their times. */
  ghost predicate Underway(ctx: Context, s0: Store, s: Store, run: Run) {
    Tied(ctx.nodes, s) && Since(s0.incidents, s.incidents, run) && Steadiness.Steady(s.incidents, run)
  }

  lemma StartsUnderway(ctx: Context, s0: Store, run: Run)
    requires Untraced(ctx, s0, run)
    ensures Underway(ctx, s0, s0, run)
  {
    Steadiness.NextRunStartsSteady(s0.incidents, run, run);
  }

  /** What the run finds of others was open when it began, and it is not earlier than that. */
  lemma UnderwayIsCalm(ctx: Context, s0: Store, s: Store, run: Run, at: int)
    requires Underway(ctx, s0, s, run) && NotBefore(s0.incidents, at)
    ensures FoundBy(s.incidents, run, at) && Calm(s.incidents, run, at)
  {
    forall k: nat | k < |s.incidents| && s.incidents[k].Contends(run) && s.incidents[k].openedBy != run
      ensures s.incidents[k].openedAt <= at
    {
      assert Untouched(s0.incidents[k], s.incidents[k], run);
    }
    Steadiness.SteadyIsCalm(s.incidents, run, at);
  }

  lemma RegroupUnderway(ctx: Context, s0: Store, s: Store, run: Run, at: int)
    requires ValidContext(ctx) && Underway(ctx, s0, s, run) && NotBefore(s0.incidents, at)
    ensures Underway(ctx, s0, Regroup(ctx, s, run, at), run)
  {
    var f := FindingsIn(ctx, s, run);
    UnderwayIsCalm(ctx, s0, s, run, at);
    SortedAscends(f.rootOf.Values);
    Steadiness.SteadyAfter(f, s.incidents, run, at, Heads(f.rootOf));
    SinceAfter(f, s0.incidents, s.incidents, run, at, Heads(f.rootOf));
    RegroupTies(ctx, s, run, at);
  }

  lemma HandleUnderway(ctx: Context, s0: Store, s: Store, run: Run, d: Delivery)
    requires ValidContext(ctx) && Underway(ctx, s0, s, run) && NotBefore(s0.incidents, d.at)
    ensures Underway(ctx, s0, Handle(ctx, s, run, d), run)
  {
    var unseen := NotSeen(s.invocations, d.artifacts);
    if unseen != [] {
      RecordAllKeeps(ctx.nodes, s, run, unseen);
      RegroupUnderway(ctx, s0, RecordAll(ctx.nodes, s, run, unseen), run, d.at);
    }
  }

  lemma {:induction false} DeliverUnderway(ctx: Context, s0: Store, run: Run, deliveries: seq<Delivery>)
    requires Untraced(ctx, s0, run) && InTime(s0.incidents, deliveries)
    ensures Underway(ctx, s0, Deliver(ctx, s0, run, deliveries), run)
  {
    if deliveries == [] {
      StartsUnderway(ctx, s0, run);
    } else {
      var n := |deliveries| - 1;
      var rest, last := deliveries[..n], deliveries[n];
      assert deliveries == rest + [last];
      DeliverUnderway(ctx, s0, run, rest);
      HandleUnderway(ctx, s0, Deliver(ctx, s0, run, rest), run, last);
    }
  }

  /** The desk refuses a run's delivery exactly when an unseen invocation comes twice in it, in whatever order their times
      come. */
  lemma RefusesOnlyRepeats(ctx: Context, s0: Store, run: Run, deliveries: seq<Delivery>, next: Delivery)
    requires Untraced(ctx, s0, run) && InTime(s0.incidents, deliveries) && NotBefore(s0.incidents, next.at)
    ensures var s := Deliver(ctx, s0, run, deliveries);
      && (RefusesIngest(ctx, s, run, next.artifacts, next.at)
          <==> !DistinctFrom(s.invocations.Keys, NotSeen(s.invocations, next.artifacts)))
      && (History.Once(next.artifacts) ==> !RefusesIngest(ctx, s, run, next.artifacts, next.at))
  {
    var s := Deliver(ctx, s0, run, deliveries);
    DeliverUnderway(ctx, s0, run, deliveries);
    UnderwayIsCalm(ctx, s0, s, run, next.at);
    History.CalmRefusesOnlyRepeats(ctx, s, History.Step(run, next.artifacts, next.at));
    if History.Once(next.artifacts) { History.OnceUnseen(s.invocations, next.artifacts); }
  }

  // -- The theorem ---------------------------------------------------------------------

  lemma {:induction false} DeliverAnswers(ctx: Context, s0: Store, run: Run, deliveries: seq<Delivery>)
    requires Untraced(ctx, s0, run) && EachOnce(deliveries)
    requires IdsNameFiles(NewFiles(s0.invocations.Keys, deliveries))
    requires InTime(s0.incidents, deliveries)
    ensures Answered(ctx, s0, Deliver(ctx, s0, run, deliveries), run, NewFiles(s0.invocations.Keys, deliveries))
  {
    var known := s0.invocations.Keys;
    if deliveries == [] {
      assert NewFiles(known, deliveries) == {};
    } else {
      var rest := deliveries[..|deliveries| - 1];
      var last := deliveries[|deliveries| - 1];
      assert deliveries == rest + [last];
      assert NewFiles(known, deliveries) == NewFiles(known, rest) + NewFiles(known, [last]);
      DeliverAnswers(ctx, s0, run, rest);
      RefusesOnlyRepeats(ctx, s0, run, rest, last);
      IngestAnswers(ctx, s0, Deliver(ctx, s0, run, rest), run, NewFiles(known, rest), last);
    }
  }

  ghost predicate NoneRefused(ctx: Context, s0: Store, run: Run, deliveries: seq<Delivery>)
    requires Lineage.Closed(ctx.graph) && Lineage.Acyclic(ctx.graph)
  {
    forall n :: 0 <= n < |deliveries| ==>
      !RefusesIngest(ctx, Deliver(ctx, s0, run, deliveries[..n]), run, deliveries[n].artifacts, deliveries[n].at)
  }

  lemma OnceIsNotRefused(ctx: Context, s0: Store, run: Run, deliveries: seq<Delivery>)
    requires Untraced(ctx, s0, run) && EachOnce(deliveries) && InTime(s0.incidents, deliveries)
    ensures NoneRefused(ctx, s0, run, deliveries)
  {
    forall n | 0 <= n < |deliveries|
      ensures !RefusesIngest(ctx, Deliver(ctx, s0, run, deliveries[..n]), run, deliveries[n].artifacts, deliveries[n].at)
    {
      assert deliveries[n] in deliveries && forall d :: d in deliveries[..n] ==> d in deliveries;
      RefusesOnlyRepeats(ctx, s0, run, deliveries[..n], deliveries[n]);
    }
  }

  /** Two ways of delivering the same files of a run, each invocation once in a folder: the desk refuses neither, and they
      end with the same view. */
  lemma OrderDoesNotMatter(ctx: Context, s0: Store, run: Run, one: seq<Delivery>, other: seq<Delivery>)
    requires Untraced(ctx, s0, run) && EachOnce(one) && EachOnce(other)
    requires NewFiles(s0.invocations.Keys, one) == NewFiles(s0.invocations.Keys, other)
    requires IdsNameFiles(NewFiles(s0.invocations.Keys, one))
    requires InTime(s0.incidents, one) && InTime(s0.incidents, other)
    ensures NoneRefused(ctx, s0, run, one) && NoneRefused(ctx, s0, run, other)
    ensures ViewOf(Deliver(ctx, s0, run, one), run) == ViewOf(Deliver(ctx, s0, run, other), run)
  {
    OnceIsNotRefused(ctx, s0, run, one);
    OnceIsNotRefused(ctx, s0, run, other);
    DeliverAnswers(ctx, s0, run, one);
    DeliverAnswers(ctx, s0, run, other);
  }

  lemma AllSeen(before: map<string, Run>, after: map<string, Run>, artifacts: seq<Artifact>)
    requires after.Keys == before.Keys + InvocationsOf(NotSeen(before, artifacts))
    ensures NotSeen(after, artifacts) == []
  {
    NotSeenAre(before, artifacts);
    NotSeenAre(after, artifacts);
    forall a | a in artifacts ensures a.invocation in after {
      assert a.invocation in before || a in NotSeen(before, artifacts);
    }
    if NotSeen(after, artifacts) != [] { HasSome(NotSeen(after, artifacts)); }
  }

  lemma HasSome(artifacts: seq<Artifact>)
    requires artifacts != []
    ensures exists a :: a in artifacts
  {
    assert artifacts[0] in artifacts;
  }

  lemma IngestRemembers(ctx: Context, s: Store, run: Run, artifacts: seq<Artifact>, at: int)
    requires ValidContext(ctx)
    ensures Ingest(ctx, s, run, artifacts, at).invocations.Keys
         == s.invocations.Keys + InvocationsOf(NotSeen(s.invocations, artifacts))
  {
    RecordedIds(ctx.nodes, s, run, NotSeen(s.invocations, artifacts));
  }

  /** Ingesting the same artifacts again, whichever run they are given for, finds nothing new and changes nothing. */
  lemma AgainChangesNothing(ctx: Context, s: Store, run: Run, artifacts: seq<Artifact>, at: int, again: Run, later: int)
    requires ValidContext(ctx)
    ensures var once := Ingest(ctx, s, run, artifacts, at); Ingest(ctx, once, again, artifacts, later) == once
  {
    var once := Ingest(ctx, s, run, artifacts, at);
    IngestRemembers(ctx, s, run, artifacts, at);
    AllSeen(s.invocations, once.invocations, artifacts);
  }
}
