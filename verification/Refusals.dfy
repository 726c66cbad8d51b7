/** Two ways a history that starts from the empty store is refused: a run that comes late, and one that comes back. */
module Refusals {
  import opened Ids
  import opened Checks
  import opened Incidents
  import opened DeskState
  import opened Regrouping
  import Lineage
  import Grouping

  // -- One source, checked for freshness -----------------------------------------------

  const FEED := "source.raw.orders"
  const CHECK := FreshnessCheckId(FEED)
  const NO_MODELS := Context(map[], map[])

  function Freshness(invocation: string, status: string): seq<Artifact> {
    [Artifact(invocation, Sources, 0, [Result(FEED, status)])]
  }

  lemma NoModelsIsValid()
    ensures ValidContext(NO_MODELS) && Lineage.Closed(NO_MODELS.graph) && Lineage.Acyclic(NO_MODELS.graph)
  {
    assert GraphOf(NO_MODELS.nodes) == map[];
    assert Lineage.Ranked(map[], map[]);
  }

  /** A store that knows nothing but this source: `failed` are the runs it was stale in. */
  ghost predicate OfFeed(s: Store, failed: set<Run>, known: set<string>) {
    && s.invocations.Keys == known
    && (forall k :: k in s.events <==> k.1 == CHECK && k.0 in failed)
    && (forall k :: k in s.events ==> s.events[k].subject == FEED)
  }

  function StaleIn(failed: set<Run>, run: Run, status: string): set<Run> {
    if status in FAILED_FRESHNESS then failed + {run} else failed
  }

  /** The store once a run's freshness is recorded. */
  function Recorded(s: Store, run: Run, invocation: string, status: string): Store {
    RecordAll(NO_MODELS.nodes, s, run, NotSeen(s.invocations, Freshness(invocation, status)))
  }

  lemma FeedSubject()
    ensures SubjectOf(CHECK, NO_MODELS.nodes) == FEED
  {
    assert CHECK[|"freshness:"|..] == FEED;
  }

  lemma FeedCheck(invocation: string, status: string)
    ensures CheckIds(Freshness(invocation, status)[0], NO_MODELS.nodes) == if status in FAILED_FRESHNESS then {CHECK} else {}
  {
    var a, r := Freshness(invocation, status)[0], Result(FEED, status);
    assert a.results == [r];
    if status in FAILED_FRESHNESS {
      assert r in a.results && EventOf(Sources, r, NO_MODELS.nodes) == Some(CheckEvent(CHECK, FEED));
    }
  }

  lemma OneIsUnseen(s: Store, invocation: string, status: string)
    requires invocation !in s.invocations
    ensures var unseen := NotSeen(s.invocations, Freshness(invocation, status));
      unseen == Freshness(invocation, status) && DistinctFrom(s.invocations.Keys, unseen)
  {
    var folder := Freshness(invocation, status);
    assert folder[..0] == [] && InvocationsOf(folder[..0]) == {};
    assert DistinctFrom(s.invocations.Keys, folder[..0]);
  }

  lemma OneRecorded(s: Store, run: Run, a: Artifact)
    ensures RecordAll(NO_MODELS.nodes, s, run, [a]) == Record(NO_MODELS.nodes, s, run, a)
  {
    assert [a][..0] == [];
  }

  lemma FeedAdds(s: Store, failed: set<Run>, known: set<string>, run: Run, checks: set<string>, more: set<Run>)
    requires OfFeed(s, failed, known)
    requires (checks == {} && more == failed) || (checks == {CHECK} && more == failed + {run})
    ensures var after := AddEvents(s.events, run, checks, NO_MODELS.nodes);
      && (forall k :: k in after <==> k.1 == CHECK && k.0 in more)
      && (forall k :: k in after ==> after[k].subject == FEED)
  {
    FeedSubject();
    var after := AddEvents(s.events, run, checks, NO_MODELS.nodes);
    forall k ensures k in after <==> k.1 == CHECK && k.0 in more {
      assert k in after <==> k in s.events || (k.0 == run && k.1 in checks);
    }
  }

  lemma FeedRows(run: Run, invocation: string, status: string)
    ensures RowsOf(run, Freshness(invocation, status)[0]) == {Row(run, FEED, status)}
  {
    assert Freshness(invocation, status)[0].results == [Result(FEED, status)];
  }

  lemma FeedRecorded(s: Store, failed: set<Run>, known: set<string>, run: Run, invocation: string, status: string)
    requires OfFeed(s, failed, known) && invocation !in known
    ensures var after := Recorded(s, run, invocation, status);
      && OfFeed(after, StaleIn(failed, run, status), known + {invocation})
      && after.incidents == s.incidents && after.rows == s.rows + {Row(run, FEED, status)}
  {
    OneIsUnseen(s, invocation, status);
    var a := Freshness(invocation, status)[0];
    OneRecorded(s, run, a);
    FeedRows(run, invocation, status);
    FeedCheck(invocation, status);
    FeedAdds(s, failed, known, run, CheckIds(a, NO_MODELS.nodes), StaleIn(failed, run, status));
  }

  // -- What the run shows --------------------------------------------------------------

  function Roots(stale: bool): map<Id, Id> {
    if stale then map[FEED := FEED] else map[]
  }

  lemma FeedFindings(s: Store, failed: set<Run>, known: set<string>, run: Run)
    requires OfFeed(s, failed, known)
    ensures ValidContext(NO_MODELS)
    ensures var f := FindingsIn(NO_MODELS, s, run);
      f.rootOf == Roots(run in failed) && Heads(f.rootOf) == if run in failed then [FEED] else []
  {
    NoModelsIsValid();
    var subjects := FailedOf(s.events, run);
    if run in failed {
      assert (run, CHECK) in s.events;
      assert subjects == {FEED};
      Grouping.TopIsItsOwnRoot(NO_MODELS.graph, subjects, FEED);
      assert Grouping.RootMap(NO_MODELS.graph, subjects) == Roots(true);
      HeadsOfOne();
    } else {
      assert subjects == {};
      assert Grouping.RootMap(NO_MODELS.graph, subjects) == map[];
      assert Sorted({}) == [];
    }
  }

  lemma HeadsOfOne()
    ensures Heads(Roots(true)) == [FEED]
  {
    assert Roots(true).Values == {FEED};
    var heads := Sorted({FEED});
    assert |heads| == 1 && heads[0] in {FEED};
  }

  lemma OnlyPass(s: Store, run: Run)
    requires Row(run, FEED, "pass") in s.rows && forall row :: row in s.rows && row.run == run ==> row.status == "pass"
    ensures StatusOf(ReportsOf(s.rows, run), FEED) == Some("pass")
  {
    var rows := ReportsOf(s.rows, run);
    InReports(s.rows, run, (FEED, "pass"));
    assert Reported(rows, FEED) == {"pass"};
    WorstIsBad(Sorted(Reported(rows, FEED)));
  }

  lemma PassIsHealthy(statuses: map<Id, string>)
    requires FEED in statuses && statuses[FEED] == "pass"
    ensures Healthy(FEED, NO_MODELS.nodes, statuses)
  {
    assert TestsOf(NO_MODELS.nodes, FEED) == {};
  }

  /** A source found fresh, and nothing else, is healthy. */
  lemma FeedIsHealthy(s: Store, run: Run)
    requires Row(run, FEED, "pass") in s.rows && forall row :: row in s.rows && row.run == run ==> row.status == "pass"
    requires ValidContext(NO_MODELS)
    ensures FindingsIn(NO_MODELS, s, run).healthy(FEED)
  {
    OnlyPass(s, run);
    StatusKnown(ReportsOf(s.rows, run), FEED);
    StatusIsBad(ReportsOf(s.rows, run), FEED);
    PassIsHealthy(Statuses(ReportsOf(s.rows, run)));
  }

  // -- One night -----------------------------------------------------------------------

  lemma Opens(f: Findings, found: seq<Incident>, run: Run, at: int)
    requires Before(found, run, at) == {} && Mine(found, run) == {}
    ensures After(f, found, run, at, [FEED]) == found + [NewIncident(FEED, run, at)]
  {
    var after := After(f, found, run, at, [FEED]);
    assert Existing(f, found, run, at, FEED).None?;
    assert [FEED][..0] == [];
    assert Opened(f, found, run, at, [FEED]) == [FEED];
    forall k: nat | k < |found| ensures after[k] == found[k] {
    }
  }

  lemma Resolves(f: Findings, first: Incident, run: Run, at: int)
    requires first.Open() && first.root == FEED && first.openedBy != run && first.openedAt <= at && f.healthy(FEED)
    ensures After(f, [first], run, at, []) == [first.(resolved := Some(Resolution(at, run)))]
  {
    assert 0 in Before([first], run, at);
    assert Opened(f, [first], run, at, []) == [];
  }

  /** The source is stale in a run that knows of no incident it could go to: a new one is opened. */
  lemma StaleNight(s: Store, failed: set<Run>, known: set<string>, run: Run, invocation: string, at: int,
                   more: set<Run>, all: set<string>)
    requires OfFeed(s, failed, known) && invocation !in known && more == failed + {run} && all == known + {invocation}
    requires Before(s.incidents, run, at) == {} && Mine(s.incidents, run) == {}
    ensures ValidContext(NO_MODELS)
    ensures var after := Ingest(NO_MODELS, s, run, Freshness(invocation, "error"), at);
      && OfFeed(after, more, all)
      && after.incidents == s.incidents + [NewIncident(FEED, run, at)]
      && after.rows == s.rows + {Row(run, FEED, "error")}
  {
    OneIsUnseen(s, invocation, "error");
    FeedRecorded(s, failed, known, run, invocation, "error");
    var recorded := Recorded(s, run, invocation, "error");
    FeedFindings(recorded, more, all, run);
    Opens(FindingsIn(NO_MODELS, recorded, run), s.incidents, run, at);
    StaysOfFeed(recorded, more, all, run, at);
  }

  lemma FreshFindings(s: Store, recorded: Store, failed: set<Run>, known: set<string>, run: Run)
    requires OfFeed(recorded, failed, known) && run !in failed && recorded.rows == s.rows + {Row(run, FEED, "pass")}
    requires forall row :: row in s.rows ==> row.run != run
    ensures ValidContext(NO_MODELS)
    ensures var f := FindingsIn(NO_MODELS, recorded, run); f.healthy(FEED) && Heads(f.rootOf) == []
  {
    FeedFindings(recorded, failed, known, run);
    FeedIsHealthy(recorded, run);
  }

  /** It is fresh in a run that finds one incident open: that is resolved. */
  lemma FreshNight(s: Store, failed: set<Run>, known: set<string>, run: Run, invocation: string, at: int, first: Incident)
    requires OfFeed(s, failed, known) && invocation !in known && run !in failed
    requires forall row :: row in s.rows ==> row.run != run
    requires s.incidents == [first]
    requires first.Open() && first.root == FEED && first.openedBy != run && first.openedAt <= at
    ensures ValidContext(NO_MODELS)
    ensures var after := Ingest(NO_MODELS, s, run, Freshness(invocation, "pass"), at);
      && OfFeed(after, failed, known + {invocation})
      && after.incidents == [first.(resolved := Some(Resolution(at, run)))]
  {
    OneIsUnseen(s, invocation, "pass");
    FeedRecorded(s, failed, known, run, invocation, "pass");
    var recorded := Recorded(s, run, invocation, "pass");
    FreshFindings(s, recorded, failed, known + {invocation}, run);
    Resolves(FindingsIn(NO_MODELS, recorded, run), first, run, at);
    StaysOfFeed(recorded, failed, known + {invocation}, run, at);
  }

  lemma StaysOfFeed(s: Store, failed: set<Run>, known: set<string>, run: Run, at: int)
    requires OfFeed(s, failed, known) && ValidContext(NO_MODELS)
    ensures OfFeed(Regroup(NO_MODELS, s, run, at), failed, known)
  {
  }

  /** What refuses a stale source's group refuses the call. */
  lemma StaleNightIsRefused(s: Store, failed: set<Run>, known: set<string>, run: Run, invocation: string, at: int)
    requires OfFeed(s, failed, known) && invocation !in known
    requires forall f :: GroupRefused(f, s.incidents, run, at, FEED)
    ensures ValidContext(NO_MODELS) && RefusesIngest(NO_MODELS, s, run, Freshness(invocation, "error"), at)
  {
    OneIsUnseen(s, invocation, "error");
    FeedRecorded(s, failed, known, run, invocation, "error");
    var recorded := Recorded(s, run, invocation, "error");
    FeedFindings(recorded, failed + {run}, known + {invocation}, run);
    var f := FindingsIn(NO_MODELS, recorded, run);
    assert GroupRefused(f, recorded.incidents, run, at, FEED) && FEED in Heads(f.rootOf);
  }

  lemma EmptyIsOfFeed()
    ensures OfFeed(EMPTY, {}, {})
  {
  }

  // -- The histories -------------------------------------------------------------------

  lemma LateRun(s: Store, first: Run, late: Run, at: int, before: int, a: string, b: string)
    requires OfFeed(s, {}, {}) && s.rows == {} && s.incidents == []
    requires first != late && a != b && before < at
    ensures ValidContext(NO_MODELS)
    ensures RefusesIngest(NO_MODELS, Ingest(NO_MODELS, s, first, Freshness(a, "error"), at), late, Freshness(b, "error"), before)
  {
    FirstNight(s, first, a, at);
    var after := Ingest(NO_MODELS, s, first, Freshness(a, "error"), at);
    OneOfThem(after, s, NewIncident(FEED, first, at), Row(first, FEED, "error"));
    LateIsRefused(after, {first}, {a}, late, b, before);
  }

  /** A run detected before the incident another run has opened at its root is refused: it comes late. */
  lemma LateRunIsRefused(first: Run, late: Run, at: int, before: int, a: string, b: string)
    requires first != late && a != b && before < at
    ensures ValidContext(NO_MODELS)
    ensures RefusesIngest(NO_MODELS, Ingest(NO_MODELS, EMPTY, first, Freshness(a, "error"), at), late, Freshness(b, "error"), before)
  {
    EmptyIsOfFeed();
    LateRun(EMPTY, first, late, at, before, a, b);
  }

  lemma LateIsRefused(s: Store, failed: set<Run>, known: set<string>, late: Run, invocation: string, at: int)
    requires OfFeed(s, failed, known) && invocation !in known
    requires |s.incidents| == 1 && s.incidents[0].Open() && s.incidents[0].root == FEED
    requires s.incidents[0].openedBy != late && s.incidents[0].openedAt > at
    ensures ValidContext(NO_MODELS) && RefusesIngest(NO_MODELS, s, late, Freshness(invocation, "error"), at)
  {
    forall f ensures GroupRefused(f, s.incidents, late, at, FEED) {
      NothingToReopen(f, s.incidents, late, at);
    }
    StaleNightIsRefused(s, failed, known, late, invocation, at);
  }

  lemma NothingToReopen(f: Findings, found: seq<Incident>, run: Run, at: int)
    requires |found| == 1 && found[0].Open() && found[0].root == FEED && found[0].openedBy != run && found[0].openedAt > at
    ensures GroupRefused(f, found, run, at, FEED)
  {
    NothingToTake(found, run, at);
    assert found[0].Open();
  }

  /** The store after one run opened an incident, a second resolved it, and a third found the source stale again. */
  function Resumed(first: Run, second: Run, third: Run, at: seq<int>, ids: seq<string>): Store
    requires |at| >= 3 && |ids| >= 3
  {
    NoModelsIsValid();
    var one := Ingest(NO_MODELS, EMPTY, first, Freshness(ids[0], "error"), at[0]);
    var two := Ingest(NO_MODELS, one, second, Freshness(ids[1], "pass"), at[1]);
    Ingest(NO_MODELS, two, third, Freshness(ids[2], "error"), at[2])
  }

  lemma NothingToTake(found: seq<Incident>, run: Run, at: int)
    requires forall k :: 0 <= k < |found| ==> found[k].openedBy != run && (!found[k].Contends(run) || found[k].openedAt > at)
    ensures Before(found, run, at) == {} && Mine(found, run) == {}
  {
  }

  lemma Together<T>(a: T, b: T, c: T)
    ensures {} + {a} == {a} && {a} + {b} == {a, b} && {a, b} + {c} == {a, b, c}
  {
  }

  ghost predicate Beside(incidents: seq<Incident>, older: Incident, newer: Incident) {
    |incidents| == 2 && incidents[0] == older && incidents[1] == newer
  }

  lemma TwoOfThem(after: Store, before: Store, newer: Incident)
    requires |before.incidents| == 1 && after.incidents == before.incidents + [newer]
    ensures Beside(after.incidents, before.incidents[0], newer)
  {
  }

  /** The third night, at whatever store the first two leave. */
  lemma ThirdNight(two: Store, first: Run, second: Run, third: Run, at: seq<int>, ids: seq<string>)
    requires first != third && second != third && |at| >= 3 && |ids| >= 3 && ids[2] != ids[0] && ids[2] != ids[1]
    requires OfFeed(two, {first}, {ids[0], ids[1]})
    requires two.incidents == [Incident(FEED, at[0], first, Some(Resolution(at[1], second)), None)]
    ensures ValidContext(NO_MODELS)
    ensures var s := Ingest(NO_MODELS, two, third, Freshness(ids[2], "error"), at[2]);
      && OfFeed(s, {first, third}, {ids[0], ids[1], ids[2]})
      && Beside(s.incidents, two.incidents[0], NewIncident(FEED, third, at[2]))
  {
    NothingToTake(two.incidents, third, at[2]);
    Together(first, third, third);
    Together(ids[0], ids[1], ids[2]);
    StaleNight(two, {first}, {ids[0], ids[1]}, third, ids[2], at[2], {first, third}, {ids[0], ids[1], ids[2]});
    TwoOfThem(Ingest(NO_MODELS, two, third, Freshness(ids[2], "error"), at[2]), two, NewIncident(FEED, third, at[2]));
  }

  lemma SecondNight(one: Store, first: Run, second: Run, at: seq<int>, ids: seq<string>)
    requires first != second && |at| >= 3 && at[0] <= at[1] && |ids| >= 3 && ids[1] != ids[0]
    requires OfFeed(one, {first}, {ids[0]}) && one.rows == {Row(first, FEED, "error")}
    requires one.incidents == [NewIncident(FEED, first, at[0])]
    ensures ValidContext(NO_MODELS)
    ensures var s := Ingest(NO_MODELS, one, second, Freshness(ids[1], "pass"), at[1]);
      && OfFeed(s, {first}, {ids[0], ids[1]})
      && s.incidents == [Incident(FEED, at[0], first, Some(Resolution(at[1], second)), None)]
  {
    Together(ids[0], ids[1], ids[2]);
    FreshNight(one, {first}, {ids[0]}, second, ids[1], at[1], NewIncident(FEED, first, at[0]));
  }

  lemma FirstNight(s: Store, first: Run, id: string, at: int)
    requires OfFeed(s, {}, {}) && s.rows == {} && s.incidents == []
    ensures ValidContext(NO_MODELS)
    ensures var after := Ingest(NO_MODELS, s, first, Freshness(id, "error"), at);
      && OfFeed(after, {first}, {id})
      && after.incidents == s.incidents + [NewIncident(FEED, first, at)]
      && after.rows == s.rows + {Row(first, FEED, "error")}
  {
    NothingToTake(s.incidents, first, at);
    Together(first, first, first);
    Together(id, id, id);
    StaleNight(s, {}, {}, first, id, at, {first}, {id});
  }

  lemma OneOfThem(one: Store, none: Store, incident: Incident, row: Row)
    requires none.incidents == [] && none.rows == {}
    requires one.incidents == none.incidents + [incident] && one.rows == none.rows + {row}
    ensures one.incidents == [incident] && one.rows == {row}
  {
  }

  /** What three nights leave: the first run's incident, resolved by the second, beside the third's. */
  ghost predicate ThreeNights(s: Store, first: Run, second: Run, third: Run, at: seq<int>, ids: seq<string>) {
    && |at| >= 3 && |ids| >= 3
    && OfFeed(s, {first, third}, {ids[0], ids[1], ids[2]})
    && Beside(s.incidents, Incident(FEED, at[0], first, Some(Resolution(at[1], second)), None), NewIncident(FEED, third, at[2]))
  }

  lemma ResumedIs(first: Run, second: Run, third: Run, at: seq<int>, ids: seq<string>)
    requires first != second && second != third && first != third
    requires |at| >= 3 && at[0] <= at[1] <= at[2]
    requires |ids| >= 3 && ids[0] != ids[1] && ids[1] != ids[2] && ids[0] != ids[2]
    ensures ThreeNights(Resumed(first, second, third, at, ids), first, second, third, at, ids)
  {
    EmptyIsOfFeed();
    FirstNight(EMPTY, first, ids[0], at[0]);
    var one := Ingest(NO_MODELS, EMPTY, first, Freshness(ids[0], "error"), at[0]);
    OneOfThem(one, EMPTY, NewIncident(FEED, first, at[0]), Row(first, FEED, "error"));
    SecondNight(one, first, second, at, ids);
    var two := Ingest(NO_MODELS, one, second, Freshness(ids[1], "pass"), at[1]);
    ThirdNight(two, first, second, third, at, ids);
  }

  /** The second run, coming back after the third and finding the source stale after all, is refused, though nothing is
      from its future: its old incident would open again beside the new one. */
  lemma ReturningRunIsRefused(first: Run, second: Run, third: Run, at: seq<int>, ids: seq<string>)
    requires first != second && second != third && first != third
    requires |at| == 4 && at[0] <= at[1] <= at[2] <= at[3]
    requires |ids| == 4 && ids[0] != ids[1] && ids[1] != ids[2] && ids[0] != ids[2] && ids[3] !in {ids[0], ids[1], ids[2]}
    ensures ValidContext(NO_MODELS)
    ensures var s := Resumed(first, second, third, at, ids);
      && (forall k :: 0 <= k < |s.incidents| ==> s.incidents[k].openedAt <= at[3])
      && RefusesIngest(NO_MODELS, s, second, Freshness(ids[3], "error"), at[3])
  {
    NoModelsIsValid();
    ResumedIs(first, second, third, at, ids);
    BackAgain(Resumed(first, second, third, at, ids), first, second, third, at, ids);
  }

  lemma BackAgain(s: Store, first: Run, second: Run, third: Run, at: seq<int>, ids: seq<string>)
    requires first != second && |at| == 4 && at[0] <= at[1] <= at[2] <= at[3]
    requires |ids| == 4 && ids[3] !in {ids[0], ids[1], ids[2]}
    requires ThreeNights(s, first, second, third, at, ids)
    ensures ValidContext(NO_MODELS) && RefusesIngest(NO_MODELS, s, second, Freshness(ids[3], "error"), at[3])
    ensures forall k :: 0 <= k < |s.incidents| ==> s.incidents[k].openedAt <= at[3]
  {
    ReturnIsRefused(s, {first, third}, {ids[0], ids[1], ids[2]}, second, ids[3], at[3],
                    Incident(FEED, at[0], first, Some(Resolution(at[1], second)), None), NewIncident(FEED, third, at[2]));
  }

  lemma ReturnIsRefused(s: Store, failed: set<Run>, known: set<string>, run: Run, invocation: string, at: int,
                        older: Incident, newer: Incident)
    requires OfFeed(s, failed, known) && invocation !in known && Beside(s.incidents, older, newer)
    requires older.root == FEED && older.openedAt <= at && newer.root == FEED && newer.openedAt <= at
    requires older.ResolvedBy(run) && older.Live() && older.openedBy != run && newer.Open()
    ensures ValidContext(NO_MODELS) && RefusesIngest(NO_MODELS, s, run, Freshness(invocation, "error"), at)
    ensures forall k :: 0 <= k < |s.incidents| ==> s.incidents[k].openedAt <= at
  {
    forall f ensures GroupRefused(f, s.incidents, run, at, FEED) {
      ReturnsToTheFirst(f, s.incidents, run, at);
    }
    StaleNightIsRefused(s, failed, known, run, invocation, at);
  }

  lemma ReturnsToTheFirst(f: Findings, found: seq<Incident>, run: Run, at: int)
    requires |found| == 2 && found[0].root == FEED && found[1].root == FEED && found[1].Open()
    requires found[0].ResolvedBy(run) && found[0].Live() && found[0].openedBy != run && found[0].openedAt <= at
    ensures GroupRefused(f, found, run, at, FEED)
  {
    var before := Before(found, run, at);
    assert 0 in before && 0 in WithRoot(found, before, FEED);
    assert Least(WithRoot(found, before, FEED)) == 0;
    assert Existing(f, found, run, at, FEED) == Some(0);
    assert found[1].Open() && found[1].root == found[0].root;
  }
}
