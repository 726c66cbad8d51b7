/** What a run shows of a node, told by the rows on record: which reports make a root healthy, and which make it covered. */
module Showing {
  import opened Ids
  import opened Checks
  import opened Incidents
  import opened DeskState

  // -- One node --------------------------------------------------------------------------

  /** Some invocation of the run said something of a node, other than that it was skipped. */
  ghost predicate Said(rows: set<Row>, run: Run, id: Id) {
    exists status :: status != "skipped" && Row(run, id, status) in rows
  }

  /** All in all the run said `status`: it said so, never anything bad, and nothing later in the order of statuses. */
  ghost predicate Says(rows: set<Row>, run: Run, id: Id, status: string) {
    && status != "skipped" && Row(run, id, status) in rows
    && forall other :: other != "skipped" && Row(run, id, other) in rows ==>
         other != "error" && other != "fail" && other != "runtime error" && Leq(other, status)
  }

  /** The last report that is not of a skip, when none is bad. */
  lemma {:induction false} LastIsWorst(reported: seq<string>, status: string)
    requires Ascending(reported) && status in reported && status != "skipped"
    requires forall s :: s in reported && s != "skipped" ==> s !in BAD && Leq(s, status)
    ensures Worst(reported) == Some(status)
  {
    var n := |reported| - 1;
    var rest, last := reported[..n], reported[n];
    assert reported == rest + [last];
    WorstIsBad(rest);
    if last == "skipped" {
      LastIsWorst(rest, status);
    } else if last != status {
      var i :| 0 <= i < n && reported[i] == status;
      assert last in reported;
      LeqAntisymmetric(status, last);
    }
  }

  lemma {:induction false} WorstIsLast(reported: seq<string>)
    requires Ascending(reported) && Worst(reported).Some? && Worst(reported).value !in BAD
    ensures forall s :: s in reported && s != "skipped" ==> s !in BAD && Leq(s, Worst(reported).value)
  {
    var n := |reported| - 1;
    var rest, last := reported[..n], reported[n];
    assert reported == rest + [last];
    WorstIsBad(reported);
    WorstIsBad(rest);
    LeqTotal(last, last);
    if last != "skipped" {
      forall s | s in reported ensures Leq(s, last) {
        var i :| 0 <= i < |reported| && reported[i] == s;
      }
    } else {
      WorstIsLast(rest);
    }
  }

  lemma InReported(rows: set<Row>, run: Run, id: Id, status: string)
    ensures status in Sorted(Reported(ReportsOf(rows, run), id)) <==> Row(run, id, status) in rows
  {
    InReports(rows, run, (id, status));
    if Row(run, id, status) in rows { assert (id, status).1 in Reported(ReportsOf(rows, run), id); }
  }

  /** The statuses reported of a node, in order. */
  ghost predicate Lists(reported: seq<string>, rows: set<Row>, run: Run, id: Id) {
    Ascending(reported) && forall s :: s in reported <==> Row(run, id, s) in rows
  }

  lemma WorstIsSaid(reported: seq<string>, rows: set<Row>, run: Run, id: Id, status: string)
    requires Lists(reported, rows, run, id) && status !in BAD
    ensures Worst(reported) == Some(status) <==> Says(rows, run, id, status)
  {
    if Worst(reported) == Some(status) {
      WorstIsBad(reported);
      WorstIsLast(reported);
    }
    if Says(rows, run, id, status) { LastIsWorst(reported, status); }
  }

  /** A status that is not bad is the run's exactly when the run says it. */
  lemma StatusIsWhatIsSaid(rows: set<Row>, run: Run, id: Id, status: string)
    requires status !in BAD
    ensures var statuses := Statuses(ReportsOf(rows, run));
      (id in statuses && statuses[id] == status) <==> Says(rows, run, id, status)
  {
    var reported := Sorted(Reported(ReportsOf(rows, run), id));
    SortedAscends(Reported(ReportsOf(rows, run), id));
    forall s ensures s in reported <==> Row(run, id, s) in rows { InReported(rows, run, id, s); }
    WorstIsSaid(reported, rows, run, id, status);
    StatusIsBad(ReportsOf(rows, run), id);
    StatusKnown(ReportsOf(rows, run), id);
  }

  /** The nodes a run passes on as skipped are those some invocation of it said were. */
  lemma SkippedAreSaid(rows: set<Row>, run: Run, id: Id)
    ensures id in Skipped(ReportsOf(rows, run)) <==> Row(run, id, "skipped") in rows
  {
    InReports(rows, run, (id, "skipped"));
  }

  /** And a run has a status for a node exactly when it said something of it. */
  lemma StatusIsSaid(rows: set<Row>, run: Run, id: Id)
    ensures id in Statuses(ReportsOf(rows, run)) <==> Said(rows, run, id)
  {
    StatusIsBad(ReportsOf(rows, run), id);
    forall s ensures (id, s) in ReportsOf(rows, run) <==> Row(run, id, s) in rows { InReports(rows, run, (id, s)); }
  }

  // -- The tests of a dataset ------------------------------------------------------------

  ghost predicate IsMacro(id: Id) { "macro." <= id }

  /** A test that hangs on `dataset`, or on nothing and reads one source, `dataset`. */
  ghost predicate Tests(nodes: Nodes, t: Id, dataset: Id) {
    && t in nodes && nodes[t].resourceType == "test"
    && match nodes[t].attachedNode
       case Some(model) => if model == "" then OnlySource(nodes[t].dependsOn, dataset) else model == dataset
       case None => OnlySource(nodes[t].dependsOn, dataset)
  }

  /** The one thing read that is not a macro is the source. */
  ghost predicate OnlySource(dependsOn: seq<Id>, source: Id) {
    && "source." <= source
    && exists i :: 0 <= i < |dependsOn| && dependsOn[i] == source && OnlyReads(dependsOn, i)
  }

  ghost predicate OnlyReads(dependsOn: seq<Id>, i: nat) {
    i < |dependsOn| && !IsMacro(dependsOn[i]) && forall j :: 0 <= j < |dependsOn| && j != i ==> IsMacro(dependsOn[j])
  }

  lemma {:induction false} NoParents(dependsOn: seq<Id>)
    ensures Parents(dependsOn) == [] <==> forall j :: 0 <= j < |dependsOn| ==> IsMacro(dependsOn[j])
  {
    if dependsOn != [] {
      NoParents(dependsOn[1..]);
      assert forall j :: 0 < j < |dependsOn| ==> dependsOn[j] == dependsOn[1..][j - 1];
      assert forall j :: 0 <= j < |dependsOn| - 1 ==> dependsOn[1..][j] == dependsOn[j + 1];
    }
  }

  lemma {:induction false} OneParent(dependsOn: seq<Id>, p: Id)
    ensures Parents(dependsOn) == [p] <==> exists i :: 0 <= i < |dependsOn| && dependsOn[i] == p && OnlyReads(dependsOn, i)
  {
    if dependsOn != [] {
      var first, rest := dependsOn[0], dependsOn[1..];
      assert dependsOn == [first] + rest;
      if IsMacro(first) {
        OneParent(rest, p);
        if i :| 0 <= i < |rest| && rest[i] == p && OnlyReads(rest, i) {
          ReadsOneMore(dependsOn, first, rest, i);
        }
        if i :| 0 <= i < |dependsOn| && dependsOn[i] == p && OnlyReads(dependsOn, i) {
          ReadsOneMore(dependsOn, first, rest, i - 1);
        }
      } else {
        FirstParent(dependsOn, first, rest, p);
      }
    }
  }

  lemma FirstParent(dependsOn: seq<Id>, first: Id, rest: seq<Id>, p: Id)
    requires dependsOn == [first] + rest && !IsMacro(first)
    ensures Parents(dependsOn) == [p] <==> exists i :: 0 <= i < |dependsOn| && dependsOn[i] == p && OnlyReads(dependsOn, i)
  {
    NoParents(rest);
    assert Parents(dependsOn) == [first] + Parents(rest);
    if Parents(dependsOn) == [p] {
      assert |Parents(rest)| == 0 && Parents(dependsOn)[0] == first;
      assert dependsOn[0] == p && OnlyReads(dependsOn, 0);
    }
    if i :| 0 <= i < |dependsOn| && dependsOn[i] == p && OnlyReads(dependsOn, i) {
      assert dependsOn[0] == first && i == 0;
      forall j | 0 <= j < |rest| ensures IsMacro(rest[j]) { assert rest[j] == dependsOn[j + 1]; }
    }
  }

  lemma ReadsOneMore(dependsOn: seq<Id>, first: Id, rest: seq<Id>, i: nat)
    requires dependsOn == [first] + rest && IsMacro(first) && i < |rest|
    ensures OnlyReads(dependsOn, i + 1) <==> OnlyReads(rest, i)
    ensures dependsOn[i + 1] == rest[i]
  {
    forall j | 0 <= j < |rest| ensures dependsOn[j + 1] == rest[j] {
    }
    if OnlyReads(dependsOn, i + 1) {
      forall j | 0 <= j < |rest| && j != i ensures IsMacro(rest[j]) {
        assert dependsOn[j + 1] == rest[j];
      }
    }
  }

  /** A dataset's tests are those that test it; a test never counts as its own. */
  lemma TestsAreThose(nodes: Nodes, t: Id, dataset: Id)
    requires WellFormed(nodes) && !IsTest(dataset)
    ensures t in TestsOf(nodes, dataset) <==> Tests(nodes, t, dataset)
  {
    if t in nodes && nodes[t].resourceType == "test" {
      var node := nodes[t];
      assert node.uniqueId == t && IsTest(t);
      OneParent(node.dependsOn, dataset);
      if !node.Attached() && |Parents(node.dependsOn)| == 1 {
        assert Parents(node.dependsOn) == [Parents(node.dependsOn)[0]];
      }
    }
  }

  // -- Healthy and covered ---------------------------------------------------------------

  /** What a run must show of a root: of a test, that it passed; else that the source is fresh or the model built, and that
      its tests passed, of which one ran if there are any. */
  ghost predicate ShownWell(nodes: Nodes, rows: set<Row>, run: Run, root: Id) {
    if "test." <= root then Says(rows, run, root, "pass")
    else ShownBuilt(rows, run, root) && ShownTested(nodes, rows, run, root)
  }

  ghost predicate ShownBuilt(rows: set<Row>, run: Run, root: Id) {
    if "source." <= root then Says(rows, run, root, "pass") || Says(rows, run, root, "warn")
    else Says(rows, run, root, "success")
  }

  ghost predicate ShownTested(nodes: Nodes, rows: set<Row>, run: Run, root: Id) {
    && ((exists t :: Tests(nodes, t, root)) ==> exists t :: Tests(nodes, t, root) && Said(rows, run, t))
    && forall t :: Tests(nodes, t, root) && Said(rows, run, t) ==> Says(rows, run, t, "pass")
  }

  ghost predicate PassedIn(statuses: map<Id, string>, t: Id) {
    t in statuses && statuses[t] == "pass"
  }

  lemma TestsPassTold(tests: set<Id>, statuses: map<Id, string>, test: Id -> bool, said: Id -> bool, passed: Id -> bool)
    requires forall t :: t in tests <==> test(t)
    requires forall t :: t in statuses <==> said(t)
    requires forall t :: PassedIn(statuses, t) <==> passed(t)
    ensures TestsPass(tests, statuses) <==>
              && ((exists t :: test(t)) ==> exists t :: test(t) && said(t))
              && forall t :: test(t) && said(t) ==> passed(t)
  {
    if !forall t :: test(t) && said(t) ==> passed(t) {
      var t :| test(t) && said(t) && !passed(t);
      assert t in tests && t in statuses && !PassedIn(statuses, t);
    } else {
      forall t | t in tests && t in statuses ensures statuses[t] == "pass" { assert PassedIn(statuses, t); }
    }
  }

  lemma TestsPassWhenSaid(nodes: Nodes, rows: set<Row>, run: Run, dataset: Id)
    requires WellFormed(nodes) && !IsTest(dataset)
    ensures TestsPass(TestsOf(nodes, dataset), Statuses(ReportsOf(rows, run))) <==> ShownTested(nodes, rows, run, dataset)
  {
    var tests, statuses := TestsOf(nodes, dataset), Statuses(ReportsOf(rows, run));
    forall t ensures t in tests <==> Tests(nodes, t, dataset) { TestsAreThose(nodes, t, dataset); }
    forall t ensures t in statuses <==> Said(rows, run, t) { StatusIsSaid(rows, run, t); }
    forall t ensures PassedIn(statuses, t) <==> Says(rows, run, t, "pass") { StatusIsWhatIsSaid(rows, run, t, "pass"); }
    TestsPassTold(tests, statuses, t => Tests(nodes, t, dataset), t => Said(rows, run, t), t => Says(rows, run, t, "pass"));
  }

  lemma BuiltIsSaid(rows: set<Row>, run: Run, root: Id)
    ensures var statuses := Statuses(ReportsOf(rows, run));
      (if IsSource(root) then root in statuses && statuses[root] in HEALTHY_FRESHNESS
       else root in statuses && statuses[root] == "success")
      <==> ShownBuilt(rows, run, root)
  {
    StatusIsWhatIsSaid(rows, run, root, "pass");
    StatusIsWhatIsSaid(rows, run, root, "warn");
    StatusIsWhatIsSaid(rows, run, root, "success");
  }

  lemma HealthyOfData(nodes: Nodes, statuses: map<Id, string>, root: Id)
    requires WellFormed(nodes) && !IsTest(root)
    ensures Healthy(root, nodes, statuses) <==>
              && (if IsSource(root) then root in statuses && statuses[root] in HEALTHY_FRESHNESS
                  else root in statuses && statuses[root] == "success")
              && TestsPass(TestsOf(nodes, root), statuses)
  {
    assert DatasetOf(root, nodes) == root;
  }

  /** The desk holds a root healthy exactly when the run's rows show it well. */
  lemma HealthyIsShown(nodes: Nodes, rows: set<Row>, run: Run, root: Id)
    requires WellFormed(nodes)
    ensures Healthy(root, nodes, Statuses(ReportsOf(rows, run))) <==> ShownWell(nodes, rows, run, root)
  {
    if IsTest(root) {
      StatusIsWhatIsSaid(rows, run, root, "pass");
    } else {
      HealthyOfData(nodes, Statuses(ReportsOf(rows, run)), root);
      BuiltIsSaid(rows, run, root);
      TestsPassWhenSaid(nodes, rows, run, root);
    }
  }

  /** The run said something of a root, or of the model a test hangs on. */
  ghost predicate SaidOf(nodes: Nodes, rows: set<Row>, run: Run, root: Id) {
    || Said(rows, run, root)
    || (root in nodes && nodes[root].resourceType == "test" && nodes[root].attachedNode.Some?
        && nodes[root].attachedNode.value != "" && Said(rows, run, nodes[root].attachedNode.value))
  }

  lemma CoveredIsSaid(nodes: Nodes, rows: set<Row>, run: Run, root: Id)
    ensures Covered(root, nodes, Statuses(ReportsOf(rows, run))) <==> SaidOf(nodes, rows, run, root)
  {
    StatusIsSaid(rows, run, root);
    StatusIsSaid(rows, run, DatasetOf(root, nodes));
  }
}
