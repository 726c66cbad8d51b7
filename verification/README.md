# Verified model of the data platform's hard logic

A Dafny model of the parts of the platform where a mistake would be silent: the incident desk, the segmented diff and its
verdict, the watermark copy, column lineage, the cost split, the generator's id ranges, and the ownership registry. Each is
modelled the way the code runs (objects that change state are classes, loops are loops) and tied to a specification, and the
promises the code's documentation makes are proved of the specification for all inputs. Where a promise does not hold, a
lemma gives an input that breaks it and another says exactly when it does hold.

`dafny verify dfyconfig.toml` checks the whole project.

## The parts

- **The incident desk** (`Ids`, `Lineage`, `Checks`, `Grouping`, `Grouped`, `Incidents`, `Settling`, `Regrouping`, `Steadiness`,
  `DeskState`, `Desk`, `Confluence`, `History`, `Health`, `Refusals`, `Failing`, `Showing`, `Choice`).
  Result files become failing checks; failures are grouped under the failed node with no failed ancestor; one regrouping of a
  run opens, appends to, merges, resolves and reopens incidents.
  `Incidents.After` says what a regrouping does as a function, and the class `Desk.IncidentDesk` does it statement by
  statement against the store's unique index. Proved: how a run is cut into invocations and in what order they arrive does
  not change the answer; one open incident per root in every orderly history; exactly when a call is refused; and, told by
  the recorded rows and by paths of the lineage alone, where every check is counted and what becomes of every incident.
- **The segmented diff** (`Segments`, `Descent`, `DiffFindings`, `SegmentedDiff`, `Reconcile`, `Verdict`, `Comparing`).
  The hash is an uninterpreted function. Soundness, row-count conservation, progress and cost hold whatever it does;
  completeness needs that no two different segments of the tables have equal summaries, and unique legacy keys. The match
  rate a verdict reports is tied to the rows the copy really holds, and each of its failures to the rows and differences that
  call for it.
- **The watermark copy** (`CopyProtocol`, `Ingestion`, `Nightly`). One table's protocol over commits, deletes, loads,
  interrupted loads, replacements and background merges; the job over all tables; and the theorem that joins it to the diff.
- **Column lineage** (`Sql`, `RowShaping`, `NonInterference`, `ColumnLineage`, `LineageGaps`, `LineageExact`,
  `DistinctExact`, `DerivedExact`, `FoldingNeeded`, `Tracing`, `Demands`). A small SELECT language with its meaning, the
  folding rule, non-interference through subqueries and models, the exact condition for one query over tables, models and subqueries, and that no column is
  folded in vain.
- **Money** (`Splitting`, `Fairness`, `Showback`, `QueryShares`, `Bursts`, `Pricing`), in whole units of 1e-12 dollars.
- **The generator's id ranges** (`RawData`), in exact real arithmetic, square roots compared by their squares.
- **The ownership registry** (`Starter`, `Fewest`, `Registry`, `Patterns`, `StarterRegistry`).
- **Row strings** (`Canonical`, `Rendering`). What a row is hashed by, for every kind of column.

## Where the code and its documentation differ

- A key duplicated alike on both sides does not show in the summaries and is not reported, though
  `src/platform_ops/reconcile/diff.py:10-13` says a duplicate always shows: `SegmentedDiff.DuplicatedAlikeIsNotFound`; the
  exact condition is `SegmentedDiff.CompleteUpToHiddenDuplicates`.
- `src/platform_ops/metadata/column_lineage.py:19` says a column never depends on less than it should. Three kinds of query
  break it (`LineageGaps`): a WHERE that reads a left-joined side (GROUP BY, HAVING and DISTINCT are shut out with it), a
  LEFT JOIN whose ON reads another left-joined side, and a column that counts a subquery's rows without reading any of its
  columns. For one query it holds exactly when every LEFT JOIN a projection sees is folded into it and every model or
  subquery it sees has a folded column: `DerivedExact.GuardIsExact`, from `DerivedExact.FoldingIsExactOver` and, with DISTINCT
  over inner and LEFT joins, `DerivedExact.FoldingIsExactOverForDistinct`. The first two kinds fail the first half
  (`LineageExact.FoldingIsExact`), the third the second (`DerivedExact.CountsOfSubqueriesAreNotGuarded`).
- `src/platform_ops/incidents/desk.py:1-33` does not say that the unique index (`src/platform_ops/incidents/store.py:87-89`)
  can refuse a run. It does so in two ways: a run detected before an incident that is open at one of its new roots
  (`Refusals.LateRunIsRefused`), and a run that opens again an incident it had resolved beside one that another run opened
  since (`Refusals.ReturningRunIsRefused`). `Regrouping.Refuses` is the exact condition, and
  `Desk.IncidentDesk.IngestAt` is refused exactly then or when an unseen invocation comes twice in a folder.
- `src/platform_ops/metadata/bootstrap.py:46-67` can recurse for ever: `Starter.NeverEndsExactlyWhenInseparable` says exactly when,
  and `Starter.UnderscoresNeverEnd` gives the folders with a name and the same name behind underscores.
- `src/platform_ops/metadata/bootstrap.py:46-51` says a folder gets as few patterns as name prefixes allow. It does exactly when
  `Fewest.FewestExactlyWhenSettled` says; `Fewest.TwoWouldDo` is a folder that gets three where two would do.
- `src/platform_ops/simulation/ingest.py:155-161` allows a resync to a moment before the watermark, after which rows can be lost for
  good, and so does one that stops half way: `CopyProtocol.ReplacingLosesExactlyTheseRows` says which rows,
  `CopyProtocol.KeptExactlyWhenInTime` when there is none.
- `src/platform_ops/simulation/ingest.py:223-260` writes its bounds to the whole second while it records them whole:
  `Ingestion.CutReadsTheSame` says exactly when that reads the same rows.
- `src/platform_ops/cost/cluster.py:93-98` replaces a query's share when the query weighs something in two months:
  `QueryShares.WrittenOnceExactlyWhenPaidOnce`.
- `src/platform_ops/metadata/registry.py:90` closes "[!]" where the matcher does not: `Registry.NegatedClosingDiffers` for a family
  of patterns, `Registry.ScannedExactly` for when the two read a pattern alike.
- `src/platform_ops/simulation/raw_data.py:452` says a parent existed at the row's event time. For the ids below the first parent's
  share it may not have: `RawData.ParentsInTimeExactly` says exactly for which rows, `RawData.FirstRowsParents` for the first.
- `src/platform_ops/cost/cluster.py:72-82` can give the largest weight a negative share of a very small total:
  `Fairness.NegativeExactlyWhenRoundedUp` says exactly when for equal weights, `Fairness.SharesAreNotNegative` gives the total
  from which it cannot for any.

## Model

| member | source | states |
|---|---|---|
| `Lineage.NearestFailedAncestor` | src/platform_ops/metadata/lineage.py:51-68 | The search ring by ring returns the closest failed ancestor, the smallest id of those as close, or none when no ancestor failed |
| `Lineage.NearestIsClosest` | src/platform_ops/metadata/lineage.py:54-56 | The specification finds a failed node at the least number of edges above, ties to the smallest id, and nothing only when no failed node is any number of edges above |
| `Lineage.NearestExactlyWhenOneExists` | src/platform_ops/metadata/lineage.py:51-68 | On an acyclic graph the search answers exactly when the set of ancestors holds a failed node |
| `Lineage.AncestorsTransitive` | src/platform_ops/metadata/lineage.py:41-43 | What is above an ancestor is above the node |
| `Lineage.AncestorsRankLower` | src/platform_ops/metadata/lineage.py:41-43 | On an acyclic graph every ancestor ranks strictly lower, so nothing is above itself |
| `Lineage.WithinArePaths` | src/platform_ops/metadata/lineage.py:54-61 | Within a number of edges above a node are exactly the nodes some path of at most that many parent edges leads to |
| `Lineage.AncestorsAreAbove` | src/platform_ops/metadata/lineage.py:41-43 | The ancestors are exactly the nodes some path of parent edges leads to |
| `Lineage.NearestIsClosestUp` | src/platform_ops/metadata/lineage.py:51-68 | The nearest failed ancestor is told by paths: no path to a failed node is shorter, and of those as short none ends at a smaller id |
| `Checks.BuildGraph` | src/platform_ops/metadata/lineage.py:25-38 | The graph has every node, its parents in the manifest and no parent outside it |
| `Checks.Parse` | src/platform_ops/incidents/ingest.py:79-143 | The events of a result file are exactly those its lines report: errored models, failed tests with their subject, stale sources |
| `Failing.EventIsFailure` | src/platform_ops/incidents/ingest.py:95-143 | Line by line: a model fails on error, a test on fail or error about the model it hangs on, the source it reads or itself, a source's freshness on its own statuses; nothing else is an event |
| `Failing.RecordsTheFailures` | src/platform_ops/incidents/desk.py:198-238 | Recording files records exactly the checks that fail in them, each about the node its line names, first reports kept |
| `Failing.RecordsTheLines` | src/platform_ops/incidents/desk.py:198-220 | And its rows are the files' lines, one for each status reported of a node |
| `Checks.EventSubject` | src/platform_ops/incidents/ingest.py:57-71 | The node a failing check is about depends on its check id alone, whichever file reported it |
| `Checks.StatusIsBad` | src/platform_ops/incidents/desk.py:362-374 | A node reported several times in a run is bad exactly when one of its reports is; skipped reports are never a status |
| `Checks.CollectStatuses` | src/platform_ops/incidents/desk.py:364-374 | The loop over ordered reports gives each node its status and remembers nothing of nodes only skipped |
| `Grouping.RootIsTop` | src/platform_ops/incidents/grouping.py:6-12 | A failed node's root has failed, has no failed ancestor, and is the node itself or an ancestor of it |
| `Grouping.TopIsItsOwnRoot` | src/platform_ops/incidents/grouping.py:6-7 | A failed node with no failed ancestor is its own root |
| `Grouping.RootIsThatReached` | src/platform_ops/incidents/grouping.py:46-60 | A failed node's root is the one node reached by going to the closest failed node above until nothing above failed |
| `Grouping.RootsAreTheTopFailures` | src/platform_ops/incidents/grouping.py:46-60 | The roots are exactly the failed nodes with no failed ancestor |
| `Grouping.FailuresMoveRootsUp` | src/platform_ops/incidents/grouping.py:46-60 | More failures move an old root only to itself or to an ancestor that is a root now; it stays a root exactly when nothing above it failed |
| `Grouping.RootTable.Resolve` | src/platform_ops/incidents/grouping.py:51-56 | The memoised recursion answers the root and keeps every remembered root right |
| `Grouping.RootsByNode` | src/platform_ops/incidents/grouping.py:46-60 | The table has exactly the failed nodes, each with its root |
| `Grouping.EveryEventInExactlyOneGroup` | src/platform_ops/incidents/grouping.py:63-93 | Every failing check is in exactly the group its subject's root heads, as often as it was reported, and in no other |
| `Grouping.BucketEvents` | src/platform_ops/incidents/grouping.py:71-73 | Each root's bucket has its checks in order, and there is a bucket for the roots of the failures only |
| `Grouping.BucketSkipped` | src/platform_ops/incidents/grouping.py:75-81 | Each skipped node that has not failed is placed under the root of its nearest failed ancestor, if there is one |
| `Grouping.SharedFailures` | src/platform_ops/incidents/grouping.py:96-106 | The failed nodes below more than one root, each with exactly the roots above it |
| `Grouping.GroupFailures` | src/platform_ops/incidents/grouping.py:63-93 | One group per root in order of root id, each with its checks in order, its failed nodes, skipped and shared nodes |
| `Grouped.GroupsAreThose` | src/platform_ops/incidents/grouping.py:63-106 | The theorem told by paths: exactly the failed nodes with none above them head groups, in order; a group has the checks whose subject leads to its root, as often as reported and in order, the failed nodes that lead to it, the skipped nodes whose closest failed node above does, and the failed nodes below it and another root |
| `Grouping.ReportOrderDoesNotMatter` | src/platform_ops/incidents/grouping.py:67-67 | The groups depend on which checks failed and how often each was reported, not on the order of the reports |
| `Incidents.AssignedMeans` | src/platform_ops/incidents/desk.py:390-417 | Each group goes to its existing incident, or to the new one that was opened for its own root |
| `Incidents.OpenedAreNew` | src/platform_ops/incidents/desk.py:407-411 | Exactly the roots with no existing incident get a new one |
| `Incidents.OpenedOnce` | src/platform_ops/incidents/desk.py:391-411 | No two new incidents are opened for one root |
| `Choice.PicksTheLeast` | src/platform_ops/incidents/desk.py:392-404 | Each candidate has a rule number read off the findings (1 same root, 2 its failed root is the group's, 3 the group's root is above it, 4 it is above the group's root and not covered); the one chosen is least by number and position, and none is exactly when no candidate has a number |
| `Choice.AssignedByTheRules` | src/platform_ops/incidents/desk.py:390-417 | Every group goes to that candidate, else to the run's first own incident there, else to a new one, open at the root since the run's time |
| `Choice.ChecksGoWhereTheRulesSay` | src/platform_ops/incidents/desk.py:343-436 | The theorem told by the store, the manifest and paths of its lineage: after a regrouping each check of the run is counted under the incident those rules give its subject's root |
| `Choice.WhatBecomesOfEach` | src/platform_ops/incidents/desk.py:405-477 | The theorem: a candidate is open if a group goes to it or its root is not shown well, and otherwise resolved, once; an own incident that took nothing is merged where its root's checks are counted; every other stays as it was |
| `Choice.NewOnesCountTheirs` | src/platform_ops/incidents/desk.py:405-417 | Every incident a regrouping adds is open, of this run and time, and counts a check of its own root |
| `Choice.OthersAreLeftAlone` | src/platform_ops/incidents/desk.py:343-436 | A regrouping changes no row, no invocation, no subject and no other run's check |
| `Settling.TakenStaysLive` | src/platform_ops/incidents/desk.py:391-429 | An incident that takes a group is unmerged afterwards; an earlier run's is open, the run's own is at the group's root |
| `Settling.EarlierTaken` | src/platform_ops/incidents/desk.py:392-404 | An earlier incident takes a group exactly when it is the one chosen for some root |
| `Settling.OwnStaysLive` | src/platform_ops/incidents/desk.py:418-429 | An incident of the run's own stays unmerged only at a root that no earlier incident takes |
| `Settling.PickReadsRoots` | src/platform_ops/incidents/desk.py:392-404 | The four rules read nothing of earlier incidents but their roots and order |
| `Settling.OwnRootsSettle` | src/platform_ops/incidents/desk.py:375-429 | The roots a run stands by after a regrouping are a function of its findings and of what it found open, whatever came before in the run |
| `Settling.ResolvedSettle` | src/platform_ops/incidents/desk.py:468-477 | So are the incidents it has resolved |
| `Settling.HomesSettle` | src/platform_ops/incidents/desk.py:430-436 | And so is where every failing check is counted |
| `Regrouping.NewRefusedExactlyWhenLate` | src/platform_ops/incidents/store.py:87-89 | A new incident is refused exactly when another run's incident open at its root was opened after this run |
| `Regrouping.UnresolvedIsRefusedOnlyWhenLate` | src/platform_ops/incidents/store.py:87-89 | A run that has resolved nothing yet is refused only so |
| `Regrouping.CalmIsNotRefused` | src/platform_ops/incidents/desk.py:343-477 | A run that finds nothing from its future, and no two incidents it could leave open at one root, is never refused |
| `Steadiness.SteadyAfter` | src/platform_ops/incidents/desk.py:343-477 | A regrouping keeps that nothing the run could leave open shares a root, when nothing of other runs it could find open is from its future |
| `Steadiness.NextRunStartsSteady` | src/platform_ops/incidents/desk.py:380-387 | That carries over to a run the store has not seen |
| `Steadiness.MergesEndAfter` | src/platform_ops/incidents/desk.py:418-429 | A regrouping keeps merges acyclic |
| `Steadiness.ChainsEnd` | src/platform_ops/incidents/desk.py:418-429 | With acyclic merges, following `merged_into` from any incident ends at an unmerged one |
| `DeskState.RecordAllKeeps` | src/platform_ops/incidents/desk.py:198-238 | Recording keeps every check tied to the node its id says and touches no incident |
| `DeskState.RegroupKeeps` | src/platform_ops/incidents/desk.py:343-477 | A regrouping keeps every incident at a node its run failed on, and merges acyclic |
| `DeskState.GroundedIn` | src/platform_ops/incidents/desk.py:420-443 | The lookups of a root and of its assignment never fail: every failure and every own incident has a counted root |
| `Desk.IncidentDesk.constructor` | src/platform_ops/incidents/store.py:159-169 | A desk starts from the empty store, consistent |
| `Desk.IncidentDesk.RecordChecks` | src/platform_ops/incidents/desk.py:221-238 | Each failing check is recorded once per run, its first report kept |
| `Desk.IncidentDesk.RecordFresh` | src/platform_ops/incidents/desk.py:187-188 | Every unseen invocation is recorded; it fails exactly when an id comes twice in the folder |
| `Desk.IncidentDesk.Assign` | src/platform_ops/incidents/desk.py:390-417 | The loop over groups assigns and opens as specified (where is `Choice.AssignedByTheRules`), or is refused; it is refused exactly when the row a group opens, new or again, meets another one found open at its root |
| `Desk.IncidentDesk.MergeLeftovers` | src/platform_ops/incidents/desk.py:418-429 | Exactly the run's own incidents that took no group are merged, into the incident of their root's group |
| `Desk.IncidentDesk.Settle` | src/platform_ops/incidents/desk.py:468-477 | Earlier incidents without a failure are resolved when shown healthy (exactly when is `Choice.WhatBecomesOfEach`) and opened again when not; it is refused exactly when one opens again beside another that is open at its root at that moment |
| `Desk.IncidentDesk.Link` | src/platform_ops/incidents/desk.py:430-436 | Every check of the run is counted under the incident its subject's root went to, and no other run's check moves |
| `Desk.IncidentDesk.Regroup` | src/platform_ops/incidents/desk.py:343-477 | The whole regrouping equals the specification with one open incident per root, or is refused; it is refused exactly when a group or an earlier incident is, told by what the run finds |
| `Desk.IncidentDesk.IngestAt` | src/platform_ops/incidents/desk.py:179-192 | One call at a given time is nothing new, a full ingest as specified, or a refusal that leaves the store as it was, each under its exact condition; it keeps the store consistent with one open incident per root |
| `Desk.IncidentDesk.IngestTarget` | src/platform_ops/incidents/desk.py:158-195 | The same at the time the run is said to have detected its failures; when it says none, at a time no unseen file was written after and one was written at |
| `DeskState.LastWrittenIs` | src/platform_ops/incidents/desk.py:186-186 | The default is the latest time of a file, and the time of one of them |
| `Confluence.RegroupAnswers` | src/platform_ops/incidents/desk.py:9-13 | After a regrouping what people see is a function of the incidents found, the checks that failed and the reports, with no order in it |
| `Confluence.OrderDoesNotMatter` | src/platform_ops/incidents/desk.py:11-13 | The theorem: two ways of cutting and ordering one run's files, each invocation once in a folder, are never refused and end with the same own roots, the same incidents resolved, and each check counted at the same place |
| `Confluence.RefusesOnlyRepeats` | src/platform_ops/incidents/desk.py:158-195 | Whatever deliveries of the run came before, and in whatever order of their times, the next is refused exactly when an unseen invocation comes twice in its folder |
| `Confluence.AgainChangesNothing` | src/platform_ops/incidents/desk.py:32-32 | Ingesting the same artifacts again, for whichever run, finds nothing new and changes nothing |
| `Confluence.HoldsMore` | src/platform_ops/incidents/desk.py:198-238 | Whatever the order, the store holds exactly the checks and reports of the files recorded |
| `History.HoldsThroughout` | src/platform_ops/incidents/desk.py:158-195 | What the empty store satisfies, every call keeps and run changes carry over holds before and after every call of an orderly history |
| `History.OneOpenIncidentPerRootAlways` | src/platform_ops/incidents/store.py:87-89 | After any history of runs one after the other, with times that do not go back, there is one open incident per root and every merge chain ends unmerged |
| `History.OrderlyHistoryRefusesOnlyRepeats` | src/platform_ops/incidents/desk.py:158-195 | In such a history a call is refused exactly when an unseen invocation comes twice in its folder |
| `Health.IngestKeepsBacked` | src/platform_ops/incidents/desk.py:198-238 | Every recorded check was reported by an invocation of its run |
| `Health.HealthyIsNeverASubject` | src/platform_ops/incidents/desk.py:251-268 | A root a run shows healthy is the subject of none of its failing checks, whether of a model, an attached test, a source test, a freshness check or a test of several parents |
| `Showing.StatusIsWhatIsSaid` | src/platform_ops/incidents/desk.py:362-374 | A status that is not bad is a node's exactly when the run reported it, reported nothing bad, and nothing later in the order of statuses but a skip |
| `Showing.SkippedAreSaid` | src/platform_ops/incidents/desk.py:364-374 | The nodes a run passes on as skipped are those some row says were |
| `Showing.HealthyIsShown` | src/platform_ops/incidents/desk.py:251-268 | Healthy is told by the rows, by kind of root: a test that passed; a source that is "pass" or "warn" or a model that is "success", one of whose tests was reported if it has any and all that were said "pass" |
| `Showing.CoveredIsSaid` | src/platform_ops/incidents/desk.py:338-340 | Covered is that some row of the run reports the root, or the model a test hangs on |
| `Health.ResolvedMeansHealthy` | src/platform_ops/incidents/desk.py:468-477 | A run resolves an earlier incident exactly when it shows the root healthy (by its rows, `Showing.HealthyIsShown`) and no group of its own goes there; then it covered the root and no check of the run failed on it |
| `Refusals.LateRunIsRefused` | src/platform_ops/incidents/store.py:87-89 | After any run has opened an incident, another run detected before it that fails at the same root is refused, whatever the times, runs and invocations |
| `Refusals.ReturningRunIsRefused` | src/platform_ops/incidents/desk.py:390-417 | A run that is not late is refused too: it resolved an incident, another run opened a new one at the root, and now it fails there; reached from the empty store for all runs, times that do not go back and invocations |
| `Segments.SegmentIsShift` | src/platform_ops/reconcile/connectors.py:84-85 | The first digits of a key write its 32-bit bucket shifted right by 32 - 4 depth |
| `Segments.NumbersTellSegments` | src/platform_ops/reconcile/canonical.py:125-127 | Two segments of a depth with the same number are the same |
| `Segments.ParentSegment` | src/platform_ops/reconcile/diff.py:23-25 | A child segment's parent is the key's segment one digit shorter |
| `Descent.SummarySplits` | src/platform_ops/reconcile/connectors.py:127-140 | Counts and hash sums of disjoint segments add up |
| `Descent.SummaryEmpty` | src/platform_ops/reconcile/connectors.py:136-140 | A segment is in a side's answer exactly when its row count is positive |
| `Descent.UnequalAreDiffering` | src/platform_ops/reconcile/diff.py:103-104 | Comparing two answers, absent segments included, finds exactly the segments whose summaries differ |
| `Descent.EqualChildrenEqualParent` | src/platform_ops/reconcile/diff.py:119-137 | If every child segment agrees, the parent agrees |
| `Descent.DifferingChild` | src/platform_ops/reconcile/diff.py:119-137 | So every differing segment has a differing child |
| `Descent.DescentGoesDown` | src/platform_ops/reconcile/diff.py:132-137 | And if anything differs at one depth something differs at every depth below: the descent stops early at depth 1 only |
| `Descent.DescentComesTo` | src/platform_ops/reconcile/diff.py:119-137 | A row's segment is compared exactly when the sides differ in every segment above it, and gone on from exactly when they differ in it too |
| `Descent.DescentKeepsTheRowDifference` | src/platform_ops/reconcile/diff.py:119-137 | Whatever the hashes do, the difference in row counts is all inside the segments the descent keeps |
| `Descent.LeftOutIsEqual` | src/platform_ops/reconcile/diff.py:119-137 | A row the descent leaves out lies in a segment, at some depth, with equal summaries |
| `Descent.LevelsWiden` | src/platform_ops/reconcile/diff.py:119-137 | No level has more differing segments than a deeper one |
| `Descent.SummariesAreCheap` | src/platform_ops/reconcile/diff.py:27-29 | A descent to depth d with k differing leaves reads at most the bound in summary rows |
| `Descent.SummaryBoundIs` | src/platform_ops/reconcile/diff.py:27-29 | The bound is 32(1 + k(d - 1)), so equal tables cost at most 32 |
| `DiffFindings.CollectMeans` | src/platform_ops/reconcile/diff.py:150-163 | The lists hold exactly the keys that show missing, extra, in flight or duplicated, and exactly the cells that differ |
| `Comparing.WholeIs` | src/platform_ops/reconcile/diff.py:139-164 | Told by the rows of the two tables: a key is missing when the legacy side has one row of it that it compares and the copy none, extra or in flight when the copy has one and the legacy side none, by whether a row of it changed after the watermark, a duplicate when a side has several, and a cell differs in the columns where its two rows do |
| `Comparing.UntimedRowsAreCompared` | src/platform_ops/reconcile/connectors.py:102-107 | A legacy row without a time of change is always compared: alone with its key, it is missing when the copy has no row of it |
| `DiffFindings.CellsShow` | src/platform_ops/reconcile/diff.py:158-163 | The cell differences of a key are exactly its columns with different values, none exactly when the rows are equal |
| `DiffFindings.AccountedRows` | src/platform_ops/reconcile/diff.py:150-163 | Over any keys the findings account for target rows minus source rows |
| `DiffFindings.LeavingOutIsHarmlessExactlyWhenSame` | src/platform_ops/reconcile/diff.py:139-164 | Comparing fewer keys finds the same exactly when every key left out shows nothing |
| `SegmentedDiff.CopiesFetched` | src/platform_ops/reconcile/connectors.py:142-151 | Every copy of a key of a fetched segment is fetched, in order |
| `SegmentedDiff.FoundInLeaves` | src/platform_ops/reconcile/diff.py:139-164 | What the diff reports of the keys it looks at is what comparing whole tables reports of them |
| `SegmentedDiff.EverythingReportedIsReal` | src/platform_ops/reconcile/diff.py:139-164 | Whatever the hashes do, every missing, extra, in-flight, duplicated key and differing cell reported is one of the whole comparison |
| `SegmentedDiff.RowCountsAddUp` | src/platform_ops/reconcile/diff.py:119-164 | Whatever the hashes do, extra and in flight minus missing plus the surplus of duplicated keys is target rows minus source rows |
| `SegmentedDiff.CompleteExactlyWhenNothingIsLeftOut` | src/platform_ops/reconcile/diff.py:3-8 | The diff equals the whole comparison exactly when every key it left out shows nothing |
| `SegmentedDiff.LeftOutExactlyWhenSameRows` | src/platform_ops/reconcile/diff.py:119-164 | Without collisions a key is left out exactly when both sides hold the same rows in its leaf segment |
| `SegmentedDiff.CompleteUpToHiddenDuplicates` | src/platform_ops/reconcile/diff.py:10-13 | Without collisions the diff is complete exactly when in the leaf segment of every key held more than once the rows differ between the sides |
| `SegmentedDiff.CompleteWithAKey` | src/platform_ops/reconcile/diff.py:3-8 | Without collisions, and with unique legacy keys, the diff returns exactly what comparing both tables whole would |
| `SegmentedDiff.DuplicatedAlikeIsNotFound` | src/platform_ops/reconcile/diff.py:10-13 | A key duplicated alike on both sides is in the whole comparison and not in the diff |
| `Reconcile.PostgresConnector.Hashes` | src/platform_ops/reconcile/connectors.py:109-119 | The hashed rows are kept for a watermark until another one is asked about |
| `Reconcile.PostgresConnector.Forget` | src/platform_ops/reconcile/connectors.py:121-125 | After forgetting, whatever is asked is about the table as it is |
| `Reconcile.PostgresConnector.Summarize` | src/platform_ops/reconcile/connectors.py:127-140 | The answer groups the rows as of the watermark, under the parents asked about |
| `Reconcile.PostgresConnector.CountAfter` | src/platform_ops/reconcile/connectors.py:153-157 | The rows changed after the watermark are counted, none without a watermark |
| `Reconcile.LeafDepthIsEnough` | src/platform_ops/reconcile/diff.py:96-100 | The leaf depth is the first at which rows fit 16^d leaf widths, or the deepest there is |
| `Reconcile.LeafDepthIs` | src/platform_ops/reconcile/diff.py:96-100 | In numbers: 16, 256, 4,096 segments and so on, as many as it takes for `leafWidth` rows in each, eight digits at most |
| `Reconcile.LevelsAre` | src/platform_ops/reconcile/diff.py:119-137 | At each depth a level counts the segments that lie in segments that all differ, and those of them that differ too |
| `Reconcile.TotalRows` | src/platform_ops/reconcile/diff.py:126-128 | The row counts of the depth-1 segments add up to the side's rows |
| `Reconcile.GroupByKey` | src/platform_ops/reconcile/diff.py:167-173 | Each key's rows, every copy kept, in order |
| `Reconcile.CompareRows` | src/platform_ops/reconcile/diff.py:150-163 | The loop over keys collects what each key shows |
| `Reconcile.ChangedMatters` | src/platform_ops/reconcile/diff.py:145-149 | Asking which keys changed only when the copy has a key the legacy side has not gives the same findings |
| `Reconcile.Descend` | src/platform_ops/reconcile/diff.py:119-137 | The loop ends with the differing leaves at the leaf depth, both row counts, one level a depth, or one level when nothing differs, and within the bound on summary rows |
| `Reconcile.CompareLeaves` | src/platform_ops/reconcile/diff.py:139-164 | Fetching and comparing the leaves gives the segmented findings; the rows fetched are those of both sides' leaves and the keys asked about, in two queries or three |
| `Reconcile.DiffTable` | src/platform_ops/reconcile/diff.py:107-164 | The whole of `diff_table`: its findings and row counts, the rows accounted for, and what was counted: each level's segments, the summary rows with their bound, the rows fetched and the queries |
| `Reconcile.NextNight` | src/platform_ops/reconcile/connectors.py:121-125 | After forgetting, the next night finds the differences of the table as it is then, not as it was hashed before |
| `Verdict.Judge` | src/platform_ops/reconcile/metrics.py:79-142 | The whole verdict: row and column rates and differences by class, each told by the rows and differences found, and its failures: one is raised exactly when its reason holds, as `Verdict.FailuresAreThose` has it |
| `Verdict.FailuresAreThose` | src/platform_ops/reconcile/metrics.py:109-142 | A class fails exactly when more of the table's differences are of it than its limit, a column exactly when the part of the compared rows that differ in it is above one minus the minimum, the lag exactly when there is one above the limit |
| `Verdict.Tally` | src/platform_ops/reconcile/metrics.py:87-90 | Every class is counted, whether it has differences or not, and each difference once |
| `Verdict.RowsWithDiffsAre` | src/platform_ops/reconcile/parallel.py:185-205 | The rows with differing cells that a verdict counts are exactly those of the diff's cells, each once |
| `Verdict.GoneRows` | src/platform_ops/reconcile/metrics.py:92-96 | The rows a verdict takes away are exactly the legacy rows of the keys that show something |
| `Verdict.MatchedRowsAreTheEqualOnes` | src/platform_ops/reconcile/metrics.py:92-97 | Whatever the hashes do, at least the legacy rows the copy holds as they are count as matched, and those only exactly when every legacy key left out shows nothing |
| `Verdict.TheRateIsOfEqualRows` | src/platform_ops/reconcile/metrics.py:97-97 | With unique legacy keys and no collision, the row match rate is the part of the legacy rows the copy holds as they are |
| `Verdict.FailuresOfTheTable` | src/platform_ops/reconcile/metrics.py:105-118 | The failure beyond the rows found is raised exactly when the counts are not accounted for |
| `Verdict.Compare` | src/platform_ops/reconcile/metrics.py:105-142 | Over the diff of two sides that stay as they are, one discrepancy for each key and cell found and no other, its failures are those exactly, and the failure beyond the rows found is never raised |
| `Verdict.DiscrepanciesAre` | src/platform_ops/reconcile/parallel.py:185-205 | The discrepancies are those of the findings, each with its table, key, column and class |
| `CopyProtocol.MergesAreInvisible` | src/platform_ops/simulation/ingest.py:179-182 | Background merges of a `ReplacingMergeTree` change nothing that is read with `FINAL` |
| `CopyProtocol.InsertCopies` | src/platform_ops/simulation/ingest.py:244-246 | Inserting the rows stamped since a moment that is copied already copies everything up to the new one |
| `CopyProtocol.KeptExactlyWhenInTime` | src/platform_ops/simulation/ingest.py:146-260 | One action leaves everything up to the watermark minus the overlap copied exactly when it comes in time: a commit stamped inside the overlap, a replacement that reaches every row no later load reads again, an interrupted one with no such row |
| `CopyProtocol.KeptThroughout` | src/platform_ops/simulation/ingest.py:196-260 | A run of commits, deletes, loads, failed loads, replacements and merges keeps that throughout exactly when each of its actions comes in time |
| `CopyProtocol.EveryLoadCopiesUpToTheWatermark` | src/platform_ops/simulation/ingest.py:146-260 | After a load, full load, resync or backfill that does not go back in time, every row Postgres holds with a stamp up to the watermark is in raw in its current version |
| `CopyProtocol.CaughtExactlyWithinTheOverlap` | src/platform_ops/simulation/ingest.py:237-247 | A row committed after a load is caught by the next one exactly when its stamp is later than the watermark minus the overlap |
| `CopyProtocol.PromptCommitsAreTimely` | src/platform_ops/simulation/ingest.py:204-207 | A commit less than the overlap after its stamp is timely when no load reaches past the clock |
| `CopyProtocol.ReplacingLosesExactlyTheseRows` | src/platform_ops/simulation/ingest.py:155-169 | A resync, whole or interrupted once the table is empty, loses a row in every later history that neither writes it again nor reads the table in full, exactly when the row is no later than the watermark minus the overlap and the resync does not reach it |
| `Ingestion.MarkIsTheLatest` | src/platform_ops/simulation/ingest.py:187-194 | A table's watermark is the latest `loaded_until` on record, none when it has no record |
| `Ingestion.RecordsAre` | src/platform_ops/simulation/ingest.py:196-221 | One record a table pulled: from its mark less the overlap, if it has one, to the new end, with the number of rows read |
| `Ingestion.Ingestion.constructor` | src/platform_ops/simulation/ingest.py:139-144 | `recreate` leaves every raw table empty and no watermark |
| `Ingestion.Ingestion.Pull` | src/platform_ops/simulation/ingest.py:223-260 | Each table named gets exactly its rows from its mark minus the overlap on, and one record |
| `Ingestion.CutReadsTheSame` | src/platform_ops/simulation/ingest.py:223-260 | Times cut to whole seconds read the same rows exactly when none is stamped in a part of a second that is cut off, so always for whole seconds |
| `Ingestion.Ingestion.Watermarks` | src/platform_ops/simulation/ingest.py:187-194 | What is read back is every table's latest record |
| `Ingestion.Ingestion.PullAndRecord` | src/platform_ops/simulation/ingest.py:215-221 | Every table named takes one load, every other is left as it was |
| `Ingestion.Ingestion.Load` | src/platform_ops/simulation/ingest.py:196-221 | Every table not skipped takes the protocol's load, or full load; a skipped one keeps its rows and watermark |
| `Ingestion.Ingestion.Resync` | src/platform_ops/simulation/ingest.py:155-169 | The one table is replaced, every other is left as it was |
| `Ingestion.Ingestion.Backfill` | src/platform_ops/simulation/ingest.py:146-153 | Every table is replaced |
| `Nightly.CleanExactlyWhenCopied` | src/platform_ops/reconcile/connectors.py:102-107 | The whole comparison as of the watermark shows nothing but rows in flight exactly when every row up to it is copied and nothing else is; the keys in flight are exactly those only the copy has whose legacy row changed since |
| `Nightly.CleanNeedsNoHash` | src/platform_ops/reconcile/diff.py:119-164 | When the whole comparison is clean the segmented one is the same, whatever the hashes |
| `Nightly.SettledExactlyAfterTheMark` | src/platform_ops/simulation/ingest.py:196-221 | An action keeps a settled table settled exactly when it comes after the mark: a write stamped past it, no delete of what is copied, a replacement that reaches every row up to it |
| `Nightly.SettledThroughout` | src/platform_ops/simulation/ingest.py:196-221 | And a history keeps it settled throughout exactly when each of its actions does |
| `Nightly.SettledIsClean` | src/platform_ops/reconcile/diff.py:145-157 | A settled table compares clean, and exactly its keys in flight are reported as such |
| `Nightly.TheCopyComparesClean` | src/platform_ops/reconcile/diff.py:15-21 | The theorem: after any timely history without deletes that ends in a load, and any later writes past its watermark, loads, skips and merges, the diff as of the watermark has no missing, extra, duplicated or differing row, and every key only the copy has is in flight |
| `Nightly.LateCommitShowsUntilLoaded` | src/platform_ops/simulation/ingest.py:204-207 | Without collisions a write the copy misses shows in the segmented diff, and after the next load, when its stamp is inside the overlap, the diff is clean again |
| `RowShaping.FoldRowShaping` | src/platform_ops/metadata/column_lineage.py:146-184 | Each projection becomes the columns it reads, then those of WHERE, GROUP BY, HAVING, the other joins' ON, DISTINCT, and of the LEFT JOINs whose side it reads |
| `FoldingNeeded.FoldedAreThose` | src/platform_ops/metadata/column_lineage.py:146-184 | By the parts of the query, both ways: a column is folded exactly when the projection, WHERE, GROUP BY, HAVING or the ON of a join that is not LEFT reads it, or any projection under DISTINCT, or the ON of a LEFT JOIN whose side the projection reads |
| `FoldingNeeded.FoldedIsNeeded` | src/platform_ops/metadata/column_lineage.py:146-156 | No column is folded in vain: some query of the same shape and two views that agree on every other column give different answers for the projection |
| `FoldingNeeded.FoldedExactlyWhenNeeded` | src/platform_ops/metadata/column_lineage.py:1-19 | The theorem both ways: where every LEFT JOIN seen is folded, the folded columns are exactly those the projection depends on |
| `FoldingNeeded.DistinctOfOneGroup` | src/platform_ops/metadata/column_lineage.py:175-176 | An aggregate without GROUP BY has the same rows with DISTINCT and without, so what DISTINCT adds there is more than is needed |
| `FoldingNeeded.LineageIsByTrails` | src/platform_ops/metadata/column_lineage.py:111-126 | A raw column is in the lineage exactly when a trail leads to it: at each step a column the query's own parts take on, down through subqueries and models of lower rank |
| `FoldingNeeded.PlainLineage` | src/platform_ops/metadata/column_lineage.py:176-180 | A column of one table selected without joins depends on the columns its expression reads and on no other, whatever else is selected |
| `RowShaping.ReadingApartCloses` | src/platform_ops/metadata/column_lineage.py:13-16 | When nothing that shapes rows reads a left-joined side and an ON reads no left-joined side but its own, every LEFT JOIN a projection sees is folded into it |
| `NonInterference.OutputAlike` | src/platform_ops/metadata/column_lineage.py:10-16 | Two views that agree on the folded columns give output made of the same rows of every side seen |
| `NonInterference.AnswersAgree` | src/platform_ops/metadata/column_lineage.py:10-16 | And the same number of rows and the same values of the projection |
| `ColumnLineage.LineageIsEnough` | src/platform_ops/metadata/column_lineage.py:1-19 | The theorem: through subqueries and models, two databases that agree on a column's raw columns give the same rows and the same values of it, when every LEFT JOIN seen is folded and every one not seen matches at most one row |
| `ColumnLineage.LineageIsEnoughApart` | src/platform_ops/metadata/column_lineage.py:13-16 | So it is when every query the column comes from, down to the raw tables, reads its sides apart |
| `LineageExact.FoldingIsExact` | src/platform_ops/metadata/column_lineage.py:10-19 | Where every side seen keeps its number of rows, as raw tables do: whatever conditions and expressions make of the columns they read, the folded columns decide a projection exactly when every LEFT JOIN seen is folded; for every query but one with DISTINCT over its rows |
| `DerivedExact.FoldingIsExactOver` | src/platform_ops/metadata/column_lineage.py:10-19 | The exact condition over models and subqueries, of which nothing is known but their folded columns: every LEFT JOIN seen is folded, and every model or subquery seen has a folded column |
| `DerivedExact.FoldingIsExactOverForDistinct` | src/platform_ops/metadata/column_lineage.py:10-19 | The same with DISTINCT over its rows, as long as its joins are inner and LEFT |
| `DerivedExact.GuardIsExact` | src/platform_ops/metadata/column_lineage.py:10-19 | So what lineage needs of a query itself is exact, by the sources of its sides |
| `DerivedExact.CountsOfSubqueriesAreNotGuarded` | src/platform_ops/metadata/column_lineage.py:16-19 | A count of a subquery meets the first half of the condition and not the second |
| `DistinctExact.FoldingIsExactForDistinct` | src/platform_ops/metadata/column_lineage.py:10-19 | With DISTINCT over its rows too, as long as its joins are inner and LEFT |
| `DistinctExact.RightJoinsAreNotExact` | src/platform_ops/metadata/column_lineage.py:10-19 | With a RIGHT JOIN not: a DISTINCT of constants is decided by less |
| `LineageGaps.FilteringOnTheRightEscapes` | src/platform_ops/metadata/column_lineage.py:14-19 | A WHERE on a left-joined side makes a column depend on an ON its lineage leaves out |
| `LineageGaps.ChainingLeftJoinsEscapes` | src/platform_ops/metadata/column_lineage.py:14-19 | So does a LEFT JOIN whose ON reads another left-joined side |
| `LineageGaps.CountingASubqueryEscapes` | src/platform_ops/metadata/column_lineage.py:16-19 | And a count of a filtered subquery depends on a filter that is nowhere in its lineage |
| `Tracing.RawOfIsLineage` | src/platform_ops/metadata/column_lineage.py:111-126 | The raw columns resolved are the lineage of the column |
| `Demands.TraceableExactly` | src/platform_ops/metadata/column_lineage.py:93-126 | The theorem: a column can be traced exactly when no chain of demands, through folded columns, subqueries and whole models, comes to a column or a model that is not there |
| `Demands.ModelTracesWhole` | src/platform_ops/metadata/column_lineage.py:78-109 | A model can be traced exactly when each of its columns can |
| `Tracing.Tracer.Model` | src/platform_ops/metadata/column_lineage.py:78-82 | A model is traced once; what is remembered is every column's lineage, and a model that cannot be traced is reported as such exactly when some column needs one that is not there |
| `Tracing.Tracer.Trace` | src/platform_ops/metadata/column_lineage.py:93-109 | Each column of a query and the raw columns it depends on |
| `Tracing.Tracer.Resolve` | src/platform_ops/metadata/column_lineage.py:111-126 | Columns down to raw ones, through the models read |
| `Splitting.HalfEvenIsNearest` | src/platform_ops/cost/cluster.py:79-79 | A quantized share is a nearest whole unit, the even one on a tie |
| `Splitting.DownTruncates` | src/platform_ops/cost/attribution.py:150-150 | A part cut down is towards zero by less than a unit |
| `Splitting.LargestIsFirst` | src/platform_ops/cost/cluster.py:80-80 | The key that takes the remainder has the greatest weight, and the smallest name of those as great |
| `Splitting.Share` | src/platform_ops/cost/cluster.py:72-82 | The method leaves out weights that are not positive, rounds each part and settles the rest on the largest |
| `Splitting.PositiveAre` | src/platform_ops/cost/cluster.py:75-75 | What is shared out goes to the keys with a positive weight, each as often as weighed |
| `Splitting.Split` | src/platform_ops/cost/attribution.py:142-153 | The method cuts each part down and settles the rest on the most views |
| `Fairness.SharesAddUp` | src/platform_ops/cost/cluster.py:73-74 | Shares add up to the total exactly, or there is nothing to weigh and nothing is shared |
| `Fairness.SharesAreNear` | src/platform_ops/cost/cluster.py:79-81 | Each share is within half a unit of its exact value, the largest within (n - 1)/2 |
| `Fairness.SharesAreNotNegative` | src/platform_ops/cost/cluster.py:79-81 | No share is negative once the total is at least n(n - 1)/2 units |
| `Fairness.NegativeExactlyWhenRoundedUp` | src/platform_ops/cost/cluster.py:79-81 | Of n equal weights sharing q n + t units, t below n, some share is negative, the largest's, exactly when what is over rounds up and q + 1 + t is less than n |
| `Fairness.SplitsAddUp` | src/platform_ops/cost/attribution.py:145-147 | The parts add up to the amount |
| `Fairness.RemainderIsSmall` | src/platform_ops/cost/attribution.py:150-152 | What is left after cutting is less than a unit for each team |
| `Fairness.FewerViewsNeverPayMore` | src/platform_ops/cost/attribution.py:142-153 | No part is negative and fewer views never make a larger one |
| `Showback.SharesByMonth` | src/platform_ops/cost/cluster.py:101-115 | Month by month the weights are gathered and the pool shared; a month without a pool pays nothing |
| `Showback.WeightsAreTheLast` | src/platform_ops/cost/cluster.py:106-108 | The weights of a month have each key once, with what it weighed the last time |
| `Showback.CostsAreShares` | src/platform_ops/cost/cluster.py:101-115 | What a key pays of a month's pool is its share of that pool by the weights of that month |
| `QueryShares.ComputeShares` | src/platform_ops/cost/cluster.py:85-98 | The shares of queries go into one dictionary, where a later month's share of a query replaces an earlier one |
| `QueryShares.ShortByTheOverwritten` | src/platform_ops/cost/cluster.py:93-98 | The dictionary is short of what was shared out by exactly what was replaced |
| `QueryShares.WrittenOnceExactlyWhenPaidOnce` | src/platform_ops/cost/cluster.py:93-98 | Nothing is replaced exactly when no query weighs something in two months that have a pool |
| `QueryShares.PaidOnceAddsUp` | src/platform_ops/cost/cluster.py:93-98 | And then every share stands and the dictionary adds up to everything shared out |
| `Showback.PoolsArePaid` | src/platform_ops/cost/cluster.py:85-115 | Each month's shares add up to its pool, or to nothing when nothing of that month weighs anything |
| `Showback.PartsOfAddUp` | src/platform_ops/cost/run.py:77-82 | What the viewers or the one team pay of a query adds up to its cost |
| `Showback.Persist` | src/platform_ops/cost/run.py:504-515 | The loops book every part under its month, team, model, kind and actor, then the storage: every line of the book is the sum `Showback.EveryLineIs` gives |
| `Showback.EveryLineIs` | src/platform_ops/cost/run.py:504-515 | Line by line: the sum over the model's costs of that month, kind and actor of what the team takes, its part of the split when there are viewers, else the whole for the team charged and nothing for another, and on the storage line the storage of the tables it owns |
| `Showback.OthersPayNothingAtAll` | src/platform_ops/cost/run.py:504-515 | A team that viewed nothing of a month, was charged nothing and owns no table pays nothing that month |
| `Showback.TheBillIsConserved` | src/platform_ops/cost/run.py:503-515 | The theorem: a month's showback for the cluster is its compute pool plus its storage pool to the last unit, after sharing by bytes and splitting by viewers, whatever the other models cost |
| `Bursts.OrderedOfKeeps` | src/platform_ops/cost/pricing.py:105-105 | A warehouse's queries in order are exactly its queries, by submission and then id |
| `Bursts.LayOut` | src/platform_ops/cost/pricing.py:106-120 | The loop lays a warehouse's queries out in runs |
| `Pricing.AllBursts` | src/platform_ops/cost/pricing.py:96-121 | The bursts of every warehouse, by name |
| `Pricing.RunsFlatten` | src/platform_ops/cost/pricing.py:106-120 | The runs are the ordered queries cut into pieces |
| `Pricing.SubmittedIs` | src/platform_ops/cost/pricing.py:157-161 | A query counts as submitted at the whole millisecond before |
| `Pricing.RunEnds` | src/platform_ops/cost/pricing.py:116-117 | A run ends no sooner than the submission of any of its queries plus the time that one and all after it take, and as soon as that for one of them |
| `Pricing.EveryBurstLasts` | src/platform_ops/cost/pricing.py:108-118 | Every burst of every warehouse, with k queries, runs at least the sum of their times and at most that plus k - 1 idle timeouts |
| `Pricing.BilledSpansNeverOverlap` | src/platform_ops/cost/pricing.py:110-115 | From first submission to the end of the idle tail, no two spans of a warehouse overlap |
| `Pricing.BurstsNeverOverlap` | src/platform_ops/cost/pricing.py:96-121 | So no two bursts of one warehouse overlap, idle tail and all, over all warehouses' bursts |
| `Pricing.EveryQueryInOneBurst` | src/platform_ops/cost/pricing.py:96-121 | Every query is in exactly one burst, as often as it was asked |
| `Pricing.BurstsAreOfTheirWarehouse` | src/platform_ops/cost/pricing.py:104-120 | And that burst is of its own warehouse |
| `Pricing.SecondsCoverTheSpan` | src/platform_ops/cost/pricing.py:123-127 | The billed seconds cover the running time and the idle tail by less than a second, or are the minimum |
| `Pricing.Price` | src/platform_ops/cost/pricing.py:129-154 | Every query of every burst is priced by its part of the burst, and the prices are sorted by query id |
| `Pricing.EachHasItsPrice` | src/platform_ops/cost/pricing.py:129-153 | A query's price has its id and its burst's warehouse and start, the nearest unit to its part of the cost by duration, and its part of the milliseconds cut down; nothing in a burst without work |
| `Pricing.EveryIdIsPriced` | src/platform_ops/cost/pricing.py:129-154 | Every query id is priced as often as it was asked |
| `Pricing.ByIdKeeps` | src/platform_ops/cost/pricing.py:154-154 | Sorting loses, repeats and changes no price |
| `Pricing.BilledMsAddUp` | src/platform_ops/cost/pricing.py:142-143 | A burst's billed milliseconds add up to its seconds but for less than one for each query |
| `Pricing.BilledUsdIsTheCost` | src/platform_ops/cost/pricing.py:138-148 | Its dollars add up to its cost but for half a unit for each query |
| `Pricing.TheBillIsTheRunningTime` | src/platform_ops/cost/pricing.py:129-154 | Over the whole bill, the milliseconds add up to the seconds of the bursts that did any work, short by at most one for each query, and the dollars to their cost but for half a unit for each query |
| `RawData.NotAboveHigh` | src/platform_ops/simulation/raw_data.py:278-283 | A row that is in by the end of a window has an id up to the last one generated |
| `RawData.NotBelowLow` | src/platform_ops/simulation/raw_data.py:285-286 | A row that comes in after a window begins has an id from the first one generated on |
| `RawData.NothingIsPruned` | src/platform_ops/simulation/raw_data.py:263-290 | Every row loaded in a window has its id in the pruned range |
| `RawData.FewIdsAreWasted` | src/platform_ops/simulation/raw_data.py:276-286 | Few ids are made in vain: all but three at either end have an event time before the window's end and no more than three seconds over the longest lag before its start |
| `RawData.RowsOfAre` | src/platform_ops/simulation/raw_data.py:288-290 | A row comes in a window when it is loaded after the end of the load before and by the end of this one |
| `RawData.LoadWindow` | src/platform_ops/simulation/raw_data.py:307-338 | Generating only those ids inserts exactly the rows of the window, each once and in order |
| `RawData.LoadingInPartsIsLoadingOnce` | src/platform_ops/simulation/raw_data.py:314-321 | Loading (a, b] and then (b, c] inserts exactly what loading (a, c] does, no row twice |
| `RawData.EligibleAreThose` | src/platform_ops/simulation/raw_data.py:451-454 | The parents a row may have are the first, and exactly those whose step on the curve ends no later than the row's begins |
| `RawData.ParentsInTimeExactly` | src/platform_ops/simulation/raw_data.py:444-454 | The theorem: every parent a row may be given has an event time no later than the row's, whatever the two draw within their steps, exactly when the row is past the first parent's share of the ids, or no whole second lies after the row's step begins and before the first parent's ends |
| `RawData.FirstRowsParents` | src/platform_ops/simulation/raw_data.py:444-454 | For the first row exactly when there are at least as many parents as the history has seconds, squared |
| `RawData.ParentsExistExactlyPastTheFirst` | src/platform_ops/simulation/raw_data.py:451-454 | By places on the curve instead of event times: every parent is at a place no later exactly when the row is past the first parent's share of ids |
| `RawData.NotAfterIsNotLater` | src/platform_ops/simulation/raw_data.py:444-448 | A place no later on the curve has an event time no later |
| `Starter.NeverEndsExactlyWhenInseparable` | src/platform_ops/metadata/bootstrap.py:40-67 | The call never ends exactly when two names of the folder that differ in leading underscores only are together at every depth in a group that has to be split; a depth past the longest name's tokens repeats, so this can be checked beforehand |
| `Starter.UnderscoresNeverEnd` | src/platform_ops/metadata/bootstrap.py:40-67 | So it never ends on a folder that holds a name and the same name behind underscores, whatever else it holds |
| `Starter.UnderscoresCanEnd` | src/platform_ops/metadata/bootstrap.py:40-58 | But it ends on two names that both start with underscores |
| `Starter.CoversExactly` | src/platform_ops/metadata/bootstrap.py:46-67 | The theorem: whenever the call ends, the patterns match every name of the group exactly once and no other model of the project |
| `Fewest.FewestExactlyWhenSettled` | src/platform_ops/metadata/bootstrap.py:46-67 | The theorem: no shorter list of names and prefixes matches the folder and nothing else, exactly when any two names that could share a prefix are in one group at some depth whose shared prefix matches nothing outside it |
| `Fewest.OneTokenNamesSplit` | src/platform_ops/metadata/bootstrap.py:60-67 | So it is not for two names of one token each that could share a prefix, in a folder that splits |
| `Fewest.TwoWouldDo` | src/platform_ops/metadata/bootstrap.py:60-67 | "ab", "ac" and "d" get a pattern each where two would do |
| `Starter.EveryModelHasOneRule` | src/platform_ops/metadata/bootstrap.py:70-82 | Over all folders every model is matched by exactly one rule |
| `Starter.PlainNamesAreNameable` | src/platform_ops/metadata/bootstrap.py:70-82 | Distinct names without a leading underscore are all that needs |
| `Registry.Specificity` | src/platform_ops/metadata/registry.py:79-100 | The loop counts literal characters and wildcards |
| `Registry.SpecificityCountsScanned` | src/platform_ops/metadata/registry.py:79-100 | For every pattern the counts are the literal characters and wildcards of the pieces the scan takes |
| `Registry.ScannedExactly` | src/platform_ops/metadata/registry.py:79-100 | Those are the pieces the matcher reads exactly when the scan comes to no bracket that starts with "[!]" |
| `Registry.NegatedClosingDiffers` | src/platform_ops/metadata/registry.py:90-96 | Of "[!]" and then any text without a closing bracket the matcher reads three literal characters more and one wildcard fewer than are counted |
| `Registry.CandidatesAreThose` | src/platform_ops/metadata/registry.py:184-190 | The candidates are the rules that match, as often as written, the most specific first |
| `Registry.TheMostSpecificWins` | src/platform_ops/metadata/registry.py:184-195 | The rule resolved matches, and of all that match none has more literal characters, or as many and fewer wildcards, or as many of both and an earlier text; none only when nothing matches |
| `Patterns.MatchesExactlyWhenCutUp` | src/platform_ops/metadata/registry.py:187-187 | A pattern matches an id exactly when the id can be cut into one part for each piece: any text for "*", one character for "?", the character itself, or one the bracket accepts |
| `Patterns.PiecesAreTheText` | src/platform_ops/metadata/registry.py:187-187 | The pieces written out again are the pattern; a bracket ends at the first "]" that can close it, and a "[" stands for itself exactly when none can |
| `Registry.FileOrderDoesNotMatter` | src/platform_ops/metadata/registry.py:184-195 | Reordering the rules of a file resolves every dataset alike |
| `Registry.AmbiguousExactlyOnATie` | src/platform_ops/metadata/registry.py:115-116 | A resolution is ambiguous exactly when two different matching rules are as specific as any |
| `StarterRegistry.WrittenMatches` | src/platform_ops/metadata/bootstrap.py:54-57 | A written rule matches a model's id exactly when its pattern matches the name |
| `StarterRegistry.OtherPackagesNeverMatch` | src/platform_ops/metadata/bootstrap.py:112-115 | A rule for an installed package matches no model of the project |
| `StarterRegistry.OtherKindsNeverMatch` | src/platform_ops/metadata/bootstrap.py:95-122 | Nor does a rule for a source, seed, snapshot or exposure |
| `StarterRegistry.EachModelHasOneCandidate` | src/platform_ops/metadata/bootstrap.py:12-14 | The theorem: in the starter registry each model of the project has exactly one candidate and is never ambiguous |
| `Canonical.EscapeStep` | src/platform_ops/reconcile/canonical.py:81-82 | The two replacements escape each character on its own |
| `Canonical.UnescapeEscape` | src/platform_ops/reconcile/canonical.py:81-82 | Unescaping gives back the text |
| `Canonical.NoTextIsNull` | src/platform_ops/reconcile/canonical.py:46-46 | No escaped text is the NULL marker |
| `Canonical.RowsReadBack` | src/platform_ops/reconcile/canonical.py:116-117 | The theorem: splitting a row string at unescaped bars and unescaping gives back every value |
| `Canonical.StringsTellRowsApart` | src/platform_ops/reconcile/canonical.py:116-117 | Rows of at least one value have the same string exactly when they are the same, whatever their arity |
| `Canonical.NoValueLooksLikeAnEmptyOne` | src/platform_ops/reconcile/canonical.py:116-117 | A row of no value has the string of a row of one empty text |
| `Rendering.HalfUpIsNearest` | src/platform_ops/reconcile/canonical.py:92-95 | A decimal is rounded to a nearest unit of its scale, away from zero when it lies half way, and never past zero |
| `Rendering.DecimalIsWritten` | src/platform_ops/reconcile/canonical.py:92-95 | A decimal is the digits of its units, as many behind a point as its scale says and a shortest whole in front, a minus sign below zero and no point without places |
| `Rendering.NormalDrops` | src/platform_ops/reconcile/canonical.py:108-113 | A text loses the NULs at its end, then, where they do not count, the blanks at its end, and is lower-cased last |
| `Rendering.RenderedAsCell` | src/platform_ops/reconcile/canonical.py:85-113 | Only text needs escaping: whatever the kind, a value's text is that of a cell that can be read back |
| `Rendering.RenderedAlikeExactlyWhenEqual` | src/platform_ops/reconcile/canonical.py:85-113 | Two values of a column render alike exactly when the column's rule holds them equal: integers, booleans, dates and moments as they are, decimals once rounded, texts once trimmed and folded, NULL only with NULL |
| `Rendering.RowsAlikeExactlyWhenEqual` | src/platform_ops/reconcile/canonical.py:85-117 | The theorem: two rows of a table have the same string exactly when every column's rule holds their values equal |

## Left out

- Confluence.OrderDoesNotMatter: assumes that no other run is ingested in between, that times are not before the incidents the run found open, that an invocation id names one file and comes once in a folder; a fixed acyclic manifest, as everywhere in the desk. A folder with an unseen invocation twice is refused as a whole, and `RefusesOnlyRepeats` says that nothing else is.
- History.OneOpenIncidentPerRootAlways: assumes runs that follow one another and times that do not go back; runs that interleave are not modelled, and neither is a manifest that changes between runs.
- Desk.IncidentDesk.IngestTarget: incident numbers are positions in the list, and the time of each single check is not stored.
- Desk.IncidentDesk.Regroup: severity, routing, paging, escalation, notifications, the messages of checks, and the tables of run links and shared nodes are not part of the store; shared nodes are part of `Grouping`.
- Checks.Parse: the files are lists of results already read; JSON, missing invocation ids, messages and times are not modelled, and an event is its check and its subject; the list of skipped nodes is `Checks.Skipped`.
- SegmentedDiff.CompleteWithAKey: assumes that no two different segments of the two tables have equal summaries; MD5 is an uninterpreted function, and nothing is said of how likely a collision is.
- Reconcile.LeafDepthIsEnough: the depth is found by comparing with powers of 16; the rounding of a floating-point logarithm is not modelled.
- Reconcile.DiffTable: the two sides stay as they are while they are compared, and rows are already rendered; SQL text, SQL dialects and the `queries` counter's meaning are not modelled.
- Verdict.Judge: a cell's class is a parameter; rates are exact, not floating point; the discrepancies are not sorted by key and column, and the text of the failures and grading against ground truth are not modelled.
- CopyProtocol.EveryLoadCopiesUpToTheWatermark: stamps of one key increase and every action comes in time; `PromptCommitsAreTimely` gives a condition on the clock for it.
- Ingestion.Ingestion.Load: times are compared whole, where the query of the job cuts them to the second; `Ingestion.CutReadsTheSame` gives the difference. The delivered job's planted defects and nulled columns are not modelled; a load that fails between inserting and recording is one of the protocol's actions, not an outcome of this method.
- Nightly.TheCopyComparesClean: values are those the copy stores; what the two engines' types can and cannot hold is not modelled.
- ColumnLineage.LineageIsEnough: raw tables keep the same number of rows in both databases; ORDER BY, LIMIT, QUALIFY, window functions, set operations and correlated subqueries are not part of the language. Through models and subqueries the condition is sufficient; it is exact for each query by itself (`DerivedExact.GuardIsExact`).
- LineageExact.FoldingIsExact: all sides seen have equal row counts; `DerivedExact.FoldingIsExactOver` asks that of tables only. Conditions and expressions are any functions of the columns they name, and the condition is exact for all of them together, not for one; sides have different names and an ON reads sides joined by then, which is what SQL asks.
- DistinctExact.FoldingIsExactForDistinct: all sides seen have equal row counts; `DerivedExact.FoldingIsExactOverForDistinct` asks that of tables only. DISTINCT over ungrouped rows with a RIGHT or FULL JOIN has only the sufficient half, `LineageExact.ClosedIsEnough`; the other half is false there.
- FoldingNeeded.FoldedIsNeeded: a column that only DISTINCT adds is needed where rows are ungrouped and joins are inner and LEFT; with a RIGHT or FULL JOIN, or over GROUP BY, nothing is said of it, and of an aggregate without GROUP BY it is not needed (`FoldingNeeded.DistinctOfOneGroup`). Needed is of queries of the same shape: conditions and expressions that read the same columns.
- RowShaping.FoldRowShaping: a query is a syntax tree with every column qualified; parsing and qualifying, and projections without an alias, are not modelled.
- Tracing.Tracer.Model: every failure to trace is a missing column; parse errors and missing compiled files are not modelled, and databases and schemas are not told apart.
- Splitting.Share: exact rationals instead of a 28-digit decimal context.
- Showback.TheBillIsConserved: what each query costs is a list, so a query that weighs something in two months pays in both; the dictionary that keeps one is `QueryShares.ComputeShares`. `attribute`, `viewer_weights`, the proration of the pools and the split of the window into months are not modelled: who a query is charged to is a parameter.
- Pricing.Price: the price a second is a fraction; scan pricing is not modelled.
- RawData.NothingIsPruned: a row's place within its step of the curve and its lag are parameters between their bounds; floating point is not modelled, and of the tables only the ones with growing event times.
- Starter.CoversExactly: a call is given fuel, and the theorem is about every call that ends, as is `EveryModelHasOneRule`; names are matched by prefix here; `StarterRegistry.WrittenMatches` ties this to the matcher for names and projects without wildcard characters. Comments and labels of rules are not modelled.
- Fewest.FewestExactlyWhenSettled: the lists compared are of exact names and of prefixes that are not empty, as the code writes them.
- Registry.TheMostSpecificWins: what a bracket accepts is a parameter of the matcher.
- Rendering.RenderedAlikeExactlyWhenEqual: a value is already of its column's kind, a moment already in UTC, and years have four digits; lower-casing is a parameter, decimals are exact where the code has 28 digits, and the SQL that repeats the renderings is not modelled.
- Dashboards, reports, the command line, configuration, orchestration, the fault schedules and the cutover decision: little branching, or plumbing.
- Time zones and the classification of cell differences: they depend on the zone database and on rounding.
