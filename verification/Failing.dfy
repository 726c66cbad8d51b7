/** Which checks a run's files record as failing, and about which node, told by the lines of the files. */
module Failing {
  import opened Ids
  import opened Checks
  import opened Incidents
  import opened DeskState
  import opened Showing

  // -- One line ------------------------------------------------------------------------

  ghost predicate ReadsAtMostOne(dependsOn: seq<Id>) {
    forall i, j :: 0 <= i < j < |dependsOn| ==> IsMacro(dependsOn[i]) || IsMacro(dependsOn[j])
  }

  /** A test is about the model it hangs on if it reads no second thing, else about the one source it reads, else itself. */
  ghost predicate IsAbout(test: Node, subject: Id) {
    var hangs := test.attachedNode.Some? && test.attachedNode.value != "" && ReadsAtMostOne(test.dependsOn);
    if hangs then subject == test.attachedNode.value
    else if exists source :: OnlySource(test.dependsOn, source) then OnlySource(test.dependsOn, subject)
    else subject == test.uniqueId
  }

  /** A line of a file reports that a check about a node fails. */
  ghost predicate Fails(nodes: Nodes, kind: Kind, r: Result, check: string, subject: Id) {
    match kind
    case Sources =>
      (r.status == "error" || r.status == "runtime error") && check == "freshness:" + r.uniqueId && subject == r.uniqueId
    case RunResults =>
      && r.uniqueId in nodes && check == r.uniqueId
      && ((nodes[r.uniqueId].resourceType == "model" && r.status == "error" && subject == r.uniqueId)
          || (nodes[r.uniqueId].resourceType == "test" && (r.status == "fail" || r.status == "error")
              && IsAbout(nodes[r.uniqueId], subject)))
  }

  lemma {:induction false} FewParents(dependsOn: seq<Id>)
    ensures |Parents(dependsOn)| <= 1 <==> ReadsAtMostOne(dependsOn)
  {
    if dependsOn != [] {
      var first, rest := dependsOn[0], dependsOn[1..];
      assert dependsOn == [first] + rest;
      FewParents(rest);
      NoParents(rest);
      FewMore(dependsOn, first, rest);
    }
  }

  lemma FewMore(dependsOn: seq<Id>, first: Id, rest: seq<Id>)
    requires dependsOn == [first] + rest
    ensures ReadsAtMostOne(dependsOn)
       <==> ReadsAtMostOne(rest) && (IsMacro(first) || forall j :: 0 <= j < |rest| ==> IsMacro(rest[j]))
  {
    forall j | 0 <= j < |rest| ensures dependsOn[j + 1] == rest[j] {
    }
    if ReadsAtMostOne(dependsOn) {
      forall i, j | 0 <= i < j < |rest| ensures IsMacro(rest[i]) || IsMacro(rest[j]) {
        assert IsMacro(dependsOn[i + 1]) || IsMacro(dependsOn[j + 1]);
      }
      forall j | 0 <= j < |rest| ensures IsMacro(first) || IsMacro(rest[j]) {
        assert IsMacro(dependsOn[0]) || IsMacro(dependsOn[j + 1]);
      }
    }
  }

  lemma OnlySourceIs(dependsOn: seq<Id>, p: Id)
    ensures OnlySource(dependsOn, p) <==> Parents(dependsOn) == [p] && IsSource(p)
  {
    OneParent(dependsOn, p);
  }

  lemma SubjectIsAbout(test: Node, subject: Id)
    ensures TestSubject(test) == subject <==> IsAbout(test, subject)
  {
    FewParents(test.dependsOn);
    forall p ensures OnlySource(test.dependsOn, p) <==> Parents(test.dependsOn) == [p] && IsSource(p) {
      OnlySourceIs(test.dependsOn, p);
    }
    var parents := Parents(test.dependsOn);
    if |parents| == 1 { assert parents == [parents[0]]; }
  }

  /** The event of a line is that its check about its node fails. */
  lemma EventIsFailure(nodes: Nodes, kind: Kind, r: Result, check: string, subject: Id)
    requires WellFormed(nodes)
    ensures EventOf(kind, r, nodes) == Some(CheckEvent(check, subject)) <==> Fails(nodes, kind, r, check, subject)
  {
    if kind == RunResults && r.uniqueId in nodes && nodes[r.uniqueId].resourceType == "test" {
      SubjectIsAbout(nodes[r.uniqueId], subject);
    }
  }

  // -- A run's files -------------------------------------------------------------------

  ghost predicate FailsIn(nodes: Nodes, a: Artifact, check: string) {
    exists r, subject :: r in a.results && Fails(nodes, a.kind, r, check, subject)
  }

  lemma CheckIdsFail(nodes: Nodes, a: Artifact, check: string)
    requires WellFormed(nodes)
    ensures check in CheckIds(a, nodes) <==> FailsIn(nodes, a, check)
  {
    if check in CheckIds(a, nodes) {
      var r :| r in a.results && EventOf(a.kind, r, nodes).Some? && EventOf(a.kind, r, nodes).value.checkId == check;
      EventIsFailure(nodes, a.kind, r, check, EventOf(a.kind, r, nodes).value.subject);
    }
    if r, subject :| r in a.results && Fails(nodes, a.kind, r, check, subject) {
      EventIsFailure(nodes, a.kind, r, check, subject);
    }
  }

  /** A subject of a check, by any line that reports it. */
  lemma FailsAbout(nodes: Nodes, kind: Kind, r: Result, check: string, subject: Id)
    requires WellFormed(nodes) && Fails(nodes, kind, r, check, subject)
    ensures SubjectOf(check, nodes) == subject
  {
    EventIsFailure(nodes, kind, r, check, subject);
    EventSubject(kind, r, nodes);
  }

  lemma OneFileMore(nodes: Nodes, s: Store, run: Run, a: Artifact, other: Run, check: string)
    requires WellFormed(nodes)
    ensures (other, check) in Record(nodes, s, run, a).events
       <==> (other, check) in s.events || (other == run && FailsIn(nodes, a, check))
    ensures (other, check) in s.events ==> Record(nodes, s, run, a).events[(other, check)] == s.events[(other, check)]
    ensures (other, check) !in s.events && (other, check) in Record(nodes, s, run, a).events ==>
              Record(nodes, s, run, a).events[(other, check)] == Event(SubjectOf(check, nodes), None)
  {
    InAdded(nodes, s.events, run, CheckIds(a, nodes), (other, check));
    CheckIdsFail(nodes, a, check);
  }

  /** Recording files records exactly the checks that fail in them, each about the node its line names. */
  lemma {:induction false} RecordsTheFailures(nodes: Nodes, s: Store, run: Run, artifacts: seq<Artifact>, check: string)
    requires WellFormed(nodes)
    ensures var after := RecordAll(nodes, s, run, artifacts);
      && ((run, check) in after.events <==> (run, check) in s.events || exists a :: a in artifacts && FailsIn(nodes, a, check))
      && ((run, check) in s.events ==> after.events[(run, check)] == s.events[(run, check)])
      && ((run, check) !in s.events ==>
            forall a, r, subject :: a in artifacts && r in a.results && Fails(nodes, a.kind, r, check, subject)
              ==> after.events[(run, check)] == Event(subject, None))
  {
    if artifacts != [] {
      var rest, last := artifacts[..|artifacts| - 1], artifacts[|artifacts| - 1];
      assert artifacts == rest + [last];
      RecordsTheFailures(nodes, s, run, rest, check);
      OneFileMore(nodes, RecordAll(nodes, s, run, rest), run, last, run, check);
      forall a, r, subject | a in artifacts && r in a.results && Fails(nodes, a.kind, r, check, subject)
        ensures SubjectOf(check, nodes) == subject
      {
        FailsAbout(nodes, a.kind, r, check, subject);
      }
      KnownSubject(nodes, s, run, rest, check);
    }
  }

  lemma {:induction false} KnownSubject(nodes: Nodes, s: Store, run: Run, artifacts: seq<Artifact>, check: string)
    requires WellFormed(nodes)
    ensures var after := RecordAll(nodes, s, run, artifacts);
      (run, check) in after.events && (run, check) !in s.events ==> after.events[(run, check)] == Event(SubjectOf(check, nodes), None)
  {
    if artifacts != [] {
      var rest, last := artifacts[..|artifacts| - 1], artifacts[|artifacts| - 1];
      KnownSubject(nodes, s, run, rest, check);
      OneFileMore(nodes, RecordAll(nodes, s, run, rest), run, last, run, check);
    }
  }

  /** And its rows are their lines, whatever they say. */
  lemma {:induction false} RecordsTheLines(nodes: Nodes, s: Store, run: Run, artifacts: seq<Artifact>, row: Row)
    ensures row in RecordAll(nodes, s, run, artifacts).rows
       <==> row in s.rows
            || (row.run == run && exists a :: a in artifacts && Result(row.uniqueId, row.status) in a.results)
  {
    if artifacts != [] {
      var rest, last := artifacts[..|artifacts| - 1], artifacts[|artifacts| - 1];
      assert artifacts == rest + [last];
      RecordsTheLines(nodes, s, run, rest, row);
      if row in RowsOf(run, last) {
        var r :| r in last.results && row == Row(run, r.uniqueId, r.status);
        assert r == Result(row.uniqueId, row.status) && last in artifacts;
      }
      if row.run == run && Result(row.uniqueId, row.status) in last.results {
        assert Row(run, Result(row.uniqueId, row.status).uniqueId, Result(row.uniqueId, row.status).status) in RowsOf(run, last);
      }
    }
  }
}
