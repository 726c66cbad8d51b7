/** The incident desk: each dbt invocation recorded, and its whole run regrouped, in one transaction. */
module Desk {
  import opened Ids
  import opened Checks
  import opened Incidents
  import opened Regrouping
  import opened DeskState
  import Lineage
  import Grouping
  import Settling
  import Steadiness

  /** `Refused`: a unique index of the store said no, and the transaction was rolled back. */
  datatype Outcome = NothingNew | Ingested | Refused

  class IncidentDesk {
    const ctx: Context
    var invocations: map<string, Run>
    var rows: set<Row>
    var events: map<(Run, string), Event>
    var incidents: seq<Incident>

    function State(): Store
      reads this
    {
      Store(invocations, rows, events, incidents)
    }

    ghost predicate Valid()
      reads this
    {
      ValidContext(ctx) && Consistent(ctx.nodes, State())
    }

    constructor (ctx: Context)
      requires ValidContext(ctx)
      ensures Valid() && this.ctx == ctx && State() == EMPTY
    {
      this.ctx, invocations, rows, events, incidents := ctx, map[], {}, map[], [];
      new;
      EmptyIsConsistent(ctx.nodes);
      assert State() == EMPTY;
    }

    // -- Recording -----------------------------------------------------------------------

    method Record(run: Run, a: Artifact)
      requires ValidContext(ctx)
      modifies this
      ensures State() == DeskState.Record(ctx.nodes, old(State()), run, a)
    {
      invocations := invocations[a.invocation := run];
      RecordReports(run, a);
      RecordChecks(run, a);
    }

    method RecordReports(run: Run, a: Artifact)
      modifies this`rows
      ensures rows == old(rows) + RowsOf(run, a)
    {
      for i := 0 to |a.results|
        invariant forall row :: row in rows <==> row in old(rows) || row in RowsOf(run, a.(results := a.results[..i]))
      {
        assert a.results[..i + 1] == a.results[..i] + [a.results[i]];
        rows := rows + {Row(run, a.results[i].uniqueId, a.results[i].status)};
      }
      assert a.(results := a.results[..|a.results|]) == a;
    }

    method RecordChecks(run: Run, a: Artifact)
      requires ValidContext(ctx)
      modifies this`events
      ensures events == AddEvents(old(events), run, CheckIds(a, ctx.nodes), ctx.nodes)
    {
      var failing := Parse(a, ctx.nodes);
      ghost var checks: set<string> := {};
      for i := 0 to |failing|
        invariant checks == set j | 0 <= j < i :: failing[j].checkId
        invariant events == AddEvents(old(events), run, checks, ctx.nodes)
      {
        var e := failing[i];
        ParsedSubject(a, e);
        AddedEvent(ctx.nodes, old(events), run, checks, e.checkId);
        checks := checks + {e.checkId};
        if (run, e.checkId) !in events {
          events := events[(run, e.checkId) := Event(e.subject, None)];
        }
      }
      ParsedChecks(a, failing);
    }

    lemma ParsedSubject(a: Artifact, e: CheckEvent)
      requires ValidContext(ctx) && e in EventsOf(a, ctx.nodes)
      ensures e.subject == SubjectOf(e.checkId, ctx.nodes)
    {
      var r :| r in a.results && EventOf(a.kind, r, ctx.nodes) == Some(e);
      EventSubject(a.kind, r, ctx.nodes);
    }

    lemma ParsedChecks(a: Artifact, failing: seq<CheckEvent>)
      requires forall e :: e in failing <==> e in EventsOf(a, ctx.nodes)
      ensures CheckIds(a, ctx.nodes) == set j | 0 <= j < |failing| :: failing[j].checkId
    {
      forall c | c in CheckIds(a, ctx.nodes) ensures exists j :: 0 <= j < |failing| && failing[j].checkId == c {
        var r :| r in a.results && EventOf(a.kind, r, ctx.nodes).Some? && EventOf(a.kind, r, ctx.nodes).value.checkId == c;
        assert EventOf(a.kind, r, ctx.nodes).value in failing;
      }
      forall j | 0 <= j < |failing| ensures failing[j].checkId in CheckIds(a, ctx.nodes) {
        assert failing[j] in EventsOf(a, ctx.nodes);
      }
    }

    /** Every invocation not seen before; the same id twice in one folder breaks the primary key. */
    method RecordFresh(run: Run, artifacts: seq<Artifact>) returns (ok: bool)
      requires ValidContext(ctx)
      modifies this
      ensures ok ==> State() == RecordAll(ctx.nodes, old(State()), run, artifacts)
      ensures ok <==> DistinctFrom(old(invocations.Keys), artifacts)
    {
      for i := 0 to |artifacts|
        invariant State() == RecordAll(ctx.nodes, old(State()), run, artifacts[..i])
        invariant DistinctFrom(old(invocations.Keys), artifacts[..i])
      {
        ghost var next := artifacts[..i + 1];
        assert next[..i] == artifacts[..i] && next[i] == artifacts[i];
        RecordedIds(ctx.nodes, old(State()), run, artifacts[..i]);
        if artifacts[i].invocation in invocations {
          if DistinctFrom(old(invocations.Keys), artifacts) {
            DistinctPrefix(old(invocations.Keys), artifacts, i + 1);
          }
          return false;
        }
        Record(run, artifacts[i]);
      }
      assert artifacts[..|artifacts|] == artifacts;
      ok := true;
    }

    // -- Regrouping ----------------------------------------------------------------------

    /** Each group in order of its root: appended to the incident that takes it, or opened. */
    method Assign(f: Findings, heads: seq<Id>, run: Run, at: int) returns (ok: bool, chosen: map<Id, nat>)
      requires OneOpenPerRoot(incidents) && Ascending(heads)
      modifies this`incidents
      ensures ok ==> Assigning(f, old(incidents), run, at, heads, incidents, chosen)
      ensures ok ==> OneOpenPerRoot(incidents)
      ensures ok <==> forall r :: r in heads ==> !GroupRefused(f, old(incidents), run, at, r)
    {
      var found := incidents;
      chosen := map[];
      for i := 0 to |heads|
        invariant Assigning(f, found, run, at, heads[..i], incidents, chosen)
        invariant OneOpenPerRoot(incidents)
        invariant forall r :: r in heads[..i] ==> !GroupRefused(f, found, run, at, r)
      {
        var root := heads[i];
        assert heads[..i + 1] == heads[..i] + [root];
        assert root !in heads[..i];
        var k := Existing(f, found, run, at, root);
        if k.None? {
          OpenStep(f, found, run, at, heads[..i], root, incidents, chosen);
          if Clashes(incidents, |incidents|, root) {
            return false, chosen;
          }
          chosen := chosen[root := |incidents|];
          incidents := incidents + [NewIncident(root, run, at)];
        } else {
          var j := k.value;
          AppendStep(f, found, run, at, heads[..i], root, incidents, chosen, j);
          if incidents[j].ResolvedBy(run) && j in Before(found, run, at) {
            if Clashes(incidents, j, incidents[j].root) {
              return false, chosen;
            }
            incidents := incidents[j := incidents[j].(resolved := None)];
          }
          chosen := chosen[root := j];
        }
      }
      assert heads[..|heads|] == heads;
      ok := true;
    }

    /** The run's own incidents that no group goes to any more, merged into the one that counts their root's failures. */
    method MergeLeftovers(f: Findings, found: seq<Incident>, run: Run, at: int, heads: seq<Id>, chosen: map<Id, nat>)
      requires Assigning(f, found, run, at, heads, incidents, chosen) && OneOpenPerRoot(incidents)
      requires forall k :: k in Mine(found, run) ==> TopOf(f, found[k].root) in chosen
      modifies this`incidents
      ensures Merging(f, found, run, at, heads, incidents, chosen) && OneOpenPerRoot(incidents)
    {
      for i := 0 to |found|
        invariant |incidents| == |old(incidents)| && OneOpenPerRoot(incidents)
        invariant forall k: nat :: k < i ==> incidents[k] == Merged(f, found, run, at, chosen, k)
        invariant forall k: nat :: i <= k < |incidents| ==> incidents[k] == old(incidents)[k]
      {
        if i in Mine(found, run) && i !in chosen.Values {
          var into := chosen[TopOf(f, found[i].root)];
          IndexKeptClosed(incidents, i, incidents[i].(mergedInto := Some(into)));
          incidents := incidents[i := incidents[i].(mergedInto := Some(into))];
        }
      }
    }

    /** The earlier incidents no group went to: resolved once shown healthy, open again if not. */
    method Settle(f: Findings, found: seq<Incident>, run: Run, at: int, heads: seq<Id>, chosen: map<Id, nat>)
      returns (ok: bool)
      requires OneOpenPerRoot(incidents) && Merging(f, found, run, at, heads, incidents, chosen)
      modifies this`incidents
      ensures ok ==> incidents == After(f, found, run, at, heads) && OneOpenPerRoot(incidents)
      ensures ok <==> forall k: nat :: !SettleRefused(f, found, run, at, chosen, k)
    {
      MergingIsContained(f, found, run, at, heads, incidents, chosen);
      for i := 0 to |found|
        invariant SettledTo(f, found, run, at, chosen, i, old(incidents), incidents)
      {
        SettleStep(f, found, run, at, chosen, i, old(incidents), incidents);
        if i in Before(found, run, at) && i !in chosen.Values {
          var was := incidents[i];
          if f.healthy(was.root) && !was.ResolvedBy(run) {
            incidents := incidents[i := was.(resolved := Some(Resolution(at, run)))];
          } else if !f.healthy(was.root) && was.ResolvedBy(run) {
            if Clashes(incidents, i, was.root) {
              return false;
            }
            incidents := incidents[i := was.(resolved := None)];
          }
        }
        assert incidents[i] == AfterOne(f, found, run, at, chosen, i);
      }
      SettledIsAfter(f, found, run, at, heads, chosen, incidents);
      forall k: nat ensures !SettleRefused(f, found, run, at, chosen, k) {
        SettledIsNotRefused(f, found, run, at, heads, k);
      }
      ok := true;
    }

    /** Each failing check of the run counted under the incident its root's group went to. */
    method Link(run: Run, rootOf: map<Id, Id>, chosen: map<Id, nat>)
      requires rootOf.Keys == FailedOf(events, run) && rootOf.Values <= chosen.Keys
      modifies this`events
      ensures events == Linked(old(events), run, rootOf, chosen)
    {
      var checks := InOrder(ChecksOf(events, run));
      ghost var done: set<string> := {};
      for i := 0 to |checks|
        invariant forall j :: 0 <= j < i ==> checks[j] in done
        invariant events.Keys == old(events.Keys)
        invariant forall k :: k in events ==> events[k] == if k.0 == run && k.1 !in done then old(events)[k]
                                                           else LinkedEvent(k, old(events)[k], run, rootOf, chosen)
      {
        var k := (run, checks[i]);
        var subject := events[k].subject;
        assert old(events)[k].subject == subject;
        assert subject in FailedOf(old(events), run);
        assert rootOf[subject] in rootOf.Values;
        done := done + {checks[i]};
        events := events[k := Event(subject, Some(chosen[rootOf[subject]]))];
      }
      forall k | k in events && k.0 == run ensures k.1 in done {
        assert k.1 in ChecksOf(old(events), run);
      }
    }

    /** The run's failing checks as recorded, by check id. */
    method EventsOfRun(run: Run) returns (list: seq<CheckEvent>)
      ensures Grouping.Subjects(list) == FailedOf(events, run)
    {
      list := [];
      var checks := InOrder(ChecksOf(events, run));
      for i := 0 to |checks|
        invariant forall e :: e in list ==> (run, e.checkId) in events && events[(run, e.checkId)].subject == e.subject
        invariant forall j :: 0 <= j < i ==> CheckEvent(checks[j], events[(run, checks[j])].subject) in list
      {
        list := list + [CheckEvent(checks[i], events[(run, checks[i])].subject)];
      }
      forall n | n in FailedOf(events, run) ensures n in Grouping.Subjects(list) {
        var k :| k in events && k.0 == run && events[k].subject == n;
        assert k.1 in ChecksOf(events, run);
        assert CheckEvent(k.1, n) in list;
      }
    }

    /** The groups put to the incidents they belong to, leftovers merged, checks linked, earlier incidents settled. */
    method Apply(f: Findings, heads: seq<Id>, run: Run, at: int) returns (ok: bool)
      requires OneOpenPerRoot(incidents)
      requires About(f, State(), run) && Settling.Grounded(f, incidents, run, heads)
      modifies this`incidents, this`events
      ensures ok ==> State() == Regrouped(f, old(State()), run, at, heads) && OneOpenPerRoot(incidents)
      ensures ok <==> !Refuses(f, old(incidents), run, at, heads)
    {
      var found := incidents;
      var chosen;
      ok, chosen := Assign(f, heads, run, at);
      if ok {
        MineAreCounted(f, found, run, at, heads);
        MergeLeftovers(f, found, run, at, heads, chosen);
        Link(run, f.rootOf, chosen);
        ok := Settle(f, found, run, at, heads, chosen);
      }
    }

    /** What the run shows so far, and its groups' roots in order. */
    method FindGroups(run: Run) returns (f: Findings, heads: seq<Id>)
      requires ValidContext(ctx)
      ensures f == FindingsIn(ctx, State(), run)
      ensures heads == Heads(f.rootOf)
    {
      var list := EventsOfRun(run);
      var reports := ReportsOf(rows, run);
      var statuses := CollectStatuses(reports);
      var groups := Grouping.GroupFailures(ctx.graph, list, Skipped(reports));
      var rootOf := Grouping.RootsByNode(ctx.graph, Grouping.Subjects(list));
      heads := Grouping.GroupRoots(groups);
      Grouping.GroupRootsAreHeads(ctx.graph, rootOf, Grouping.InOrderOfCheck(list), Skipped(reports), Sorted(Grouping.Roots(ctx.graph, Grouping.Subjects(list))));
      Grouping.RootMapValues(ctx.graph, Grouping.Subjects(list));
      f := FindingsOf(ctx, rootOf, statuses);
    }

    /** The whole run regrouped from everything recorded so far. */
    method Regroup(run: Run, at: int) returns (ok: bool)
      requires ValidContext(ctx) && Tied(ctx.nodes, State()) && OneOpenPerRoot(incidents)
      modifies this`incidents, this`events
      ensures ok ==> State() == DeskState.Regroup(ctx, old(State()), run, at) && OneOpenPerRoot(incidents)
      ensures ok <==> !RefusesRun(ctx, old(State()), run, at)
    {
      var f, heads := FindGroups(run);
      FindingsAbout(ctx, State(), run);
      GroundedIn(ctx.nodes, f, State(), run);
      ok := Apply(f, heads, run, at);
    }

    /** Ingest one dbt target folder as part of a run, whose failures it detected when told, or when the last file was written. */
    method IngestTarget(run: Run, artifacts: seq<Artifact>, at: Option<int>) returns (outcome: Outcome, detected: int)
      requires Valid()
      modifies this
      ensures Valid()
      ensures var unseen := NotSeen(old(invocations), artifacts);
        && (outcome == NothingNew <==> unseen == [])
        && (outcome != Ingested ==> State() == old(State()))
        && (unseen != [] ==>
             && IsDetected(unseen, at, detected)
             && (outcome == Refused <==> RefusesIngest(ctx, old(State()), run, artifacts, detected))
             && (outcome == Ingested ==> State() == Ingest(ctx, old(State()), run, artifacts, detected)))
    {
      var unseen := NotSeen(invocations, artifacts);
      if unseen == [] {
        return NothingNew, 0;
      }
      detected := WhenDetected(unseen, at);
      outcome := IngestAt(run, artifacts, detected);
    }

    method WhenDetected(artifacts: seq<Artifact>, at: Option<int>) returns (detected: int)
      requires artifacts != []
      ensures IsDetected(artifacts, at, detected)
    {
      if at.Some? {
        return at.value;
      }
      detected := artifacts[0].generatedAt;
      for i := 1 to |artifacts|
        invariant detected == LastWritten(artifacts[..i])
      {
        assert artifacts[..i + 1][..i] == artifacts[..i];
        if detected < artifacts[i].generatedAt {
          detected := artifacts[i].generatedAt;
        }
      }
      assert artifacts[..|artifacts|] == artifacts;
      LastWrittenIs(artifacts);
    }

    /** The same at a given time, in one transaction. */
    method IngestAt(run: Run, artifacts: seq<Artifact>, at: int) returns (outcome: Outcome)
      requires Valid()
      modifies this
      ensures Valid()
      ensures outcome == NothingNew <==> NotSeen(old(invocations), artifacts) == []
      ensures outcome == Ingested ==> State() == Ingest(ctx, old(State()), run, artifacts, at)
      ensures outcome != Ingested ==> State() == old(State())
      ensures outcome == Refused <==> RefusesIngest(ctx, old(State()), run, artifacts, at)
    {
      var unseen := NotSeen(invocations, artifacts);
      if unseen == [] {
        return NothingNew;
      }
      var before := State();
      var ok := RecordFresh(run, unseen);
      if ok {
        RecordAllKeeps(ctx.nodes, before, run, unseen);
        ghost var recorded := State();
        ok := Regroup(run, at);
        if ok {
          RegroupKeeps(ctx, recorded, run, at);
          return Ingested;
        }
      }
      invocations, rows, events, incidents := before.invocations, before.rows, before.events, before.incidents;
      outcome := Refused;
    }
  }
}
