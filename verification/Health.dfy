/** A run resolves an incident only if it covered the root and found it healthy. */
module Health {
  import opened Ids
  import opened Checks
  import opened Incidents
  import opened DeskState
  import Lineage
  import Regrouping
  import Grouping
  import Settling

  /** Every failing check on record was reported by an invocation of its run. */
  ghost predicate Backed(nodes: Nodes, s: Store) {
    forall k :: k in s.events ==> exists kind, r :: Reports(nodes, s, k, kind, r)
  }

  ghost predicate Reports(nodes: Nodes, s: Store, k: (Run, string), kind: Kind, r: Result) {
    && k in s.events
    && EventOf(kind, r, nodes) == Some(CheckEvent(k.1, s.events[k].subject))
    && Row(k.0, r.uniqueId, r.status) in s.rows
  }

  lemma RecordKeepsBacked(nodes: Nodes, s: Store, run: Run, a: Artifact)
    requires WellFormed(nodes) && Backed(nodes, s)
    ensures Backed(nodes, Record(nodes, s, run, a))
  {
    var after := Record(nodes, s, run, a);
    forall k | k in after.events ensures exists kind, r :: Reports(nodes, after, k, kind, r) {
      if k in s.events {
        var kind, r :| Reports(nodes, s, k, kind, r);
        assert Reports(nodes, after, k, kind, r);
      } else {
        var r :| r in a.results && EventOf(a.kind, r, nodes).Some? && EventOf(a.kind, r, nodes).value.checkId == k.1;
        EventSubject(a.kind, r, nodes);
        assert Row(run, r.uniqueId, r.status) in RowsOf(run, a);
        assert Reports(nodes, after, k, a.kind, r);
      }
    }
  }

  lemma {:induction false} RecordAllKeepsBacked(nodes: Nodes, s: Store, run: Run, artifacts: seq<Artifact>)
    requires WellFormed(nodes) && Backed(nodes, s)
    ensures Backed(nodes, RecordAll(nodes, s, run, artifacts))
  {
    if artifacts != [] {
      RecordAllKeepsBacked(nodes, s, run, artifacts[..|artifacts| - 1]);
      RecordKeepsBacked(nodes, RecordAll(nodes, s, run, artifacts[..|artifacts| - 1]), run, artifacts[|artifacts| - 1]);
    }
  }

  lemma RegroupKeepsBacked(ctx: Context, s: Store, run: Run, at: int)
    requires ValidContext(ctx) && Backed(ctx.nodes, s)
    ensures Backed(ctx.nodes, Regroup(ctx, s, run, at))
  {
    var f := FindingsIn(ctx, s, run);
    var after := Regroup(ctx, s, run, at);
    LinkedKeeps(s.events, run, f.rootOf, Assigned(f, s.incidents, run, at, Heads(f.rootOf)), run);
    forall k | k in after.events ensures exists kind, r :: Reports(ctx.nodes, after, k, kind, r) {
      var kind, r :| Reports(ctx.nodes, s, k, kind, r);
      assert Reports(ctx.nodes, after, k, kind, r);
    }
  }

  /** Every store the desk writes is backed. */
  lemma IngestKeepsBacked(ctx: Context, s: Store, run: Run, artifacts: seq<Artifact>, at: int)
    requires ValidContext(ctx) && Backed(ctx.nodes, s)
    ensures Backed(ctx.nodes, Ingest(ctx, s, run, artifacts, at))
  {
    var unseen := NotSeen(s.invocations, artifacts);
    RecordAllKeepsBacked(ctx.nodes, s, run, unseen);
    RegroupKeepsBacked(ctx, RecordAll(ctx.nodes, s, run, unseen), run, at);
  }

  /** A bad report is the node's status, and neither healthy, successful nor passing. */
  lemma BadReportShows(rows: set<(Id, string)>, id: Id, status: string)
    requires (id, status) in rows && status in BAD
    ensures id in Statuses(rows) && Statuses(rows)[id] in BAD
  {
    StatusIsBad(rows, id);
  }

  lemma BadIsUnhealthy(nodes: Nodes, statuses: map<Id, string>, id: Id)
    requires WellFormed(nodes) && id in statuses && statuses[id] in BAD
    ensures !Healthy(id, nodes, statuses)
  {
    if !IsTest(id) { assert DatasetOf(id, nodes) == id; }
  }

  lemma FailedTestIsUnhealthy(nodes: Nodes, statuses: map<Id, string>, t: Id)
    requires WellFormed(nodes) && t in nodes && nodes[t].resourceType == "test"
    requires t in statuses && statuses[t] in BAD
    ensures !Healthy(TestSubject(nodes[t]), nodes, statuses)
  {
    var subject := TestSubject(nodes[t]);
    if subject == t {
      BadIsUnhealthy(nodes, statuses, t);
    } else {
      assert nodes[t].uniqueId == t;
      if nodes[t].Attached() && subject == nodes[t].attachedNode.value {
      } else {
        assert IsSource(subject) && subject[0] == 's';
      }
      assert !IsTest(subject);
      assert DatasetOf(subject, nodes) == subject;
      assert TestedDataset(nodes[t]) == subject;
      assert t in TestsOf(nodes, subject);
    }
  }

  /** A root a run shows healthy is the subject of none of its failing checks, whichever kind of check it is. */
  lemma HealthyIsNeverASubject(nodes: Nodes, rows: set<(Id, string)>, kind: Kind, r: Result)
    requires WellFormed(nodes) && (r.uniqueId, r.status) in rows
    requires EventOf(kind, r, nodes).Some?
    ensures !Healthy(EventOf(kind, r, nodes).value.subject, nodes, Statuses(rows))
  {
    var statuses := Statuses(rows);
    BadReportShows(rows, r.uniqueId, r.status);
    if kind == Sources || nodes[r.uniqueId].resourceType == "model" {
      BadIsUnhealthy(nodes, statuses, r.uniqueId);
    } else {
      FailedTestIsUnhealthy(nodes, statuses, r.uniqueId);
    }
  }

  lemma HealthyRootDidNotFail(ctx: Context, s: Store, run: Run, root: Id)
    requires ValidContext(ctx) && Backed(ctx.nodes, s)
    requires Healthy(root, ctx.nodes, Statuses(ReportsOf(s.rows, run)))
    ensures root !in FailedOf(s.events, run)
    ensures Covered(root, ctx.nodes, Statuses(ReportsOf(s.rows, run)))
  {
    if root in FailedOf(s.events, run) {
      var k :| k in s.events && k.0 == run && s.events[k].subject == root;
      var kind, r :| Reports(ctx.nodes, s, k, kind, r);
      InReports(s.rows, run, (r.uniqueId, r.status));
      HealthyIsNeverASubject(ctx.nodes, ReportsOf(s.rows, run), kind, r);
    }
  }

  /** One of the run's groups goes to incident `k`. */
  ghost predicate TakesAGroup(f: Findings, incidents: seq<Incident>, run: Run, at: int, k: nat) {
    k in Assigned(f, incidents, run, at, Heads(f.rootOf)).Values
  }

  lemma EarlierAfterwards(f: Findings, incidents: seq<Incident>, run: Run, at: int, heads: seq<Id>, k: nat)
    requires k in Before(incidents, run, at)
    ensures var now := After(f, incidents, run, at, heads)[k];
      var taken := k in Assigned(f, incidents, run, at, heads).Values;
      && now.root == incidents[k].root
      && (now.ResolvedBy(run) <==> !taken && f.healthy(now.root))
      && (now.Open() <==> taken || !f.healthy(now.root))
  {
  }

  lemma EarlierRegrouped(ctx: Context, s: Store, run: Run, at: int, k: nat)
    requires ValidContext(ctx) && k in Before(s.incidents, run, at)
    ensures var now := Regroup(ctx, s, run, at).incidents[k];
      var healthy := Healthy(s.incidents[k].root, ctx.nodes, Statuses(ReportsOf(s.rows, run)));
      var taken := TakesAGroup(FindingsIn(ctx, s, run), s.incidents, run, at, k);
      (now.ResolvedBy(run) <==> !taken && healthy) && (now.Open() <==> taken || !healthy)
  {
    var f := FindingsIn(ctx, s, run);
    EarlierAfterwards(f, s.incidents, run, at, Heads(f.rootOf), k);
  }

  /** What a resolution by this run means, and what it rules out: a run resolves an earlier incident exactly when
      it covered the root, found it healthy, and no failure of its own belongs there. */
  lemma ResolvedMeansHealthy(ctx: Context, s: Store, run: Run, at: int, k: nat)
    requires ValidContext(ctx) && Backed(ctx.nodes, s)
    requires k in Before(s.incidents, run, at)
    ensures var now := Regroup(ctx, s, run, at).incidents[k];
      var statuses := Statuses(ReportsOf(s.rows, run));
      var taken := TakesAGroup(FindingsIn(ctx, s, run), s.incidents, run, at, k);
      && (now.ResolvedBy(run) <==> !taken && Healthy(s.incidents[k].root, ctx.nodes, statuses))
      && (now.Open() <==> taken || !Healthy(s.incidents[k].root, ctx.nodes, statuses))
      && (now.ResolvedBy(run) ==>
            && Covered(s.incidents[k].root, ctx.nodes, statuses)
            && s.incidents[k].root !in FailedOf(s.events, run))
  {
    EarlierRegrouped(ctx, s, run, at, k);
    if Healthy(s.incidents[k].root, ctx.nodes, Statuses(ReportsOf(s.rows, run))) {
      HealthyRootDidNotFail(ctx, s, run, s.incidents[k].root);
    }
  }
}
