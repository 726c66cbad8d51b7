/** Every history of runs that follow one another: what the store always satisfies. */
module History {
  import opened Ids
  import opened Checks
  import opened Incidents
  import opened Steadiness
  import opened DeskState
  import Grouping
  import Lineage
  import Settling
  import Regrouping

  /** One call of the desk. */
  datatype Step = Step(run: Run, artifacts: seq<Artifact>, at: int)

  /** A history is played call by call from the empty store. */
  function Fold(next: (Store, Step) --> Store, steps: seq<Step>): Store
    requires forall s, step :: next.requires(s, step)
  {
    if steps == [] then EMPTY
    else next(Fold(next, steps[..|steps| - 1]), steps[|steps| - 1])
  }

  function Call(ctx: Context): (Store, Step) --> Store {
    (s: Store, step: Step) requires Lineage.Closed(ctx.graph) && Lineage.Acyclic(ctx.graph) =>
      Ingest(ctx, s, step.run, step.artifacts, step.at)
  }

  function Play(ctx: Context, steps: seq<Step>): Store
    requires Lineage.Closed(ctx.graph) && Lineage.Acyclic(ctx.graph)
  {
    Fold(Call(ctx), steps)
  }

  /** Runs come one after the other, and time does not go back. */
  ghost predicate Orderly(steps: seq<Step>) {
    && (forall i, j :: 0 <= i < j < |steps| ==> steps[i].at <= steps[j].at)
    && (forall i, j, k :: 0 <= i < j < k < |steps| && steps[i].run == steps[k].run ==> steps[j].run == steps[i].run)
  }

  function RunsOf(steps: seq<Step>): set<Run> {
    if steps == [] then {} else RunsOf(steps[..|steps| - 1]) + {steps[|steps| - 1].run}
  }

  /** Whoever opened or resolved an incident is one of the runs. */
  ghost predicate By(incidents: seq<Incident>, runs: set<Run>) {
    forall k :: 0 <= k < |incidents| ==>
      && incidents[k].openedBy in runs
      && (incidents[k].resolved.Some? ==> incidents[k].resolved.value.run in runs)
  }

  /** What holds while `run` is being ingested, at time `at`. */
  ghost predicate During(ctx: Context, s: Store, run: Run, at: int, runs: set<Run>) {
    && Tied(ctx.nodes, s) && MergesEnd(s.incidents)
    && Steady(s.incidents, run) && OpenedBy(s.incidents, at) && By(s.incidents, runs)
  }

  lemma ByAfter(f: Findings, incidents: seq<Incident>, run: Run, at: int, heads: seq<Id>, runs: set<Run>)
    requires By(incidents, runs) && run in runs
    ensures By(After(f, incidents, run, at, heads), runs)
  {
    var after := After(f, incidents, run, at, heads);
    forall k: nat | k < |after|
      ensures after[k].openedBy in runs && (after[k].resolved.Some? ==> after[k].resolved.value.run in runs)
    {
      if k < |incidents| {
        assert after[k] == AfterOne(f, incidents, run, at, Assigned(f, incidents, run, at, heads), k);
      }
    }
  }

  lemma RegroupDuring(ctx: Context, s: Store, run: Run, at: int, runs: set<Run>)
    requires ValidContext(ctx) && During(ctx, s, run, at, runs) && run in runs
    ensures During(ctx, Regroup(ctx, s, run, at), run, at, runs)
  {
    var f := FindingsIn(ctx, s, run);
    SortedAscends(f.rootOf.Values);
    SteadyIsCalm(s.incidents, run, at);
    SteadyAfter(f, s.incidents, run, at, Heads(f.rootOf));
    OpenedByAfter(f, s.incidents, run, at, Heads(f.rootOf));
    ByAfter(f, s.incidents, run, at, Heads(f.rootOf), runs);
    RegroupKeeps(ctx, s, run, at);
  }

  lemma IngestDuring(ctx: Context, s: Store, step: Step, runs: set<Run>)
    requires ValidContext(ctx) && During(ctx, s, step.run, step.at, runs) && step.run in runs
    ensures During(ctx, Ingest(ctx, s, step.run, step.artifacts, step.at), step.run, step.at, runs)
  {
    var unseen := NotSeen(s.invocations, step.artifacts);
    if unseen != [] {
      RecordAllKeeps(ctx.nodes, s, step.run, unseen);
      RegroupDuring(ctx, RecordAll(ctx.nodes, s, step.run, unseen), step.run, step.at, runs);
    }
  }

  /** The next call, of the same run or of one never seen before, finds the store as it needs it. */
  lemma NextDuring(ctx: Context, s: Store, last: Step, next: Step, runs: set<Run>)
    requires During(ctx, s, last.run, last.at, runs) && last.at <= next.at
    requires next.run == last.run || next.run !in runs
    ensures During(ctx, s, next.run, next.at, runs + {next.run})
  {
    if next.run != last.run {
      SteadyIsCalm(s.incidents, last.run, last.at);
      NextRunStartsSteady(s.incidents, last.run, next.run);
    }
  }

  lemma EmptyDuring(ctx: Context, run: Run, at: int)
    ensures During(ctx, EMPTY, run, at, {run})
  {
    EmptyIsConsistent(ctx.nodes);
    NothingIsSteady(run, at, {run});
  }

  lemma NothingIsSteady(run: Run, at: int, runs: set<Run>)
    ensures Steady([], run) && OpenedBy([], at) && By([], runs)
  {
  }

  lemma {:induction false} RunsAreThose(steps: seq<Step>, r: Run)
    ensures r in RunsOf(steps) <==> exists i :: 0 <= i < |steps| && steps[i].run == r
  {
    if steps != [] {
      var n := |steps| - 1;
      RunsAreThose(steps[..n], r);
      if i :| 0 <= i < n && steps[i].run == r { assert steps[..n][i].run == r; }
    }
  }

  lemma OrderlyBefore(steps: seq<Step>)
    requires Orderly(steps) && steps != []
    ensures Orderly(steps[..|steps| - 1])
  {
  }

  /** The last call is of the run before it, or of one not seen before that. */
  lemma LastRunGoesOn(steps: seq<Step>, i: nat)
    requires Orderly(steps) && i < |steps| - 1 && steps[i].run == steps[|steps| - 1].run
    ensures steps[|steps| - 2].run == steps[|steps| - 1].run
  {
  }

  lemma OrderlyNext(steps: seq<Step>)
    requires Orderly(steps) && |steps| >= 2
    ensures var n := |steps| - 1;
      && Orderly(steps[..n]) && steps[n - 1].at <= steps[n].at
      && (steps[n].run == steps[n - 1].run || steps[n].run !in RunsOf(steps[..n]))
      && RunsOf(steps) == RunsOf(steps[..n]) + {steps[n].run}
  {
    var n := |steps| - 1;
    OrderlyBefore(steps);
    if steps[n].run in RunsOf(steps[..n]) {
      RunsAreThose(steps[..n], steps[n].run);
      var i :| 0 <= i < n && steps[..n][i].run == steps[n].run;
      LastRunGoesOn(steps, i);
    }
  }

  /** Something that may hold of a store while a run is being ingested. */
  type Invariant = (Store, Run, int, set<Run>) -> bool

  /** It holds of the empty store, every call keeps it, and it carries over to the next call. */
  ghost predicate Inductive(next: (Store, Step) --> Store, inv: Invariant)
    requires forall s, step :: next.requires(s, step)
  {
    && (forall step: Step :: inv(EMPTY, step.run, step.at, {step.run}))
    && (forall s, step: Step, runs :: inv(s, step.run, step.at, runs) && step.run in runs
                                ==> inv(next(s, step), step.run, step.at, runs))
    && (forall s, runs, last: Step, step: Step {:trigger inv(s, last.run, last.at, runs), inv(s, step.run, step.at, runs + {step.run})} ::
          inv(s, last.run, last.at, runs) && last.at <= step.at && (step.run == last.run || step.run !in runs)
          ==> inv(s, step.run, step.at, runs + {step.run}))
  }

  /** It holds before and after the last call of every orderly history. */
  lemma {:induction false} HoldsThroughout(next: (Store, Step) --> Store, inv: Invariant, steps: seq<Step>)
    requires forall s, step :: next.requires(s, step)
    requires Inductive(next, inv) && Orderly(steps) && steps != []
    ensures var last := steps[|steps| - 1];
      && inv(Fold(next, steps[..|steps| - 1]), last.run, last.at, RunsOf(steps))
      && inv(Fold(next, steps), last.run, last.at, RunsOf(steps))
  {
    var n := |steps| - 1;
    var step := steps[n];
    assert step.run in RunsOf(steps);
    var found := Fold(next, steps[..n]);
    if n == 0 {
      assert RunsOf(steps) == {step.run};
      assert inv(EMPTY, step.run, step.at, {step.run});
    } else {
      var last := steps[n - 1];
      OrderlyNext(steps);
      HoldsThroughout(next, inv, steps[..n]);
      assert steps[..n][n - 1] == last;
      assert inv(found, last.run, last.at, RunsOf(steps[..n]));
      assert inv(found, step.run, step.at, RunsOf(steps[..n]) + {step.run});
    }
    assert inv(next(found, step), step.run, step.at, RunsOf(steps));
  }

  ghost function Throughout(ctx: Context): Invariant {
    (s: Store, run: Run, at: int, runs: set<Run>) => During(ctx, s, run, at, runs)
  }

  lemma DuringIsInductive(ctx: Context)
    requires ValidContext(ctx)
    ensures Inductive(Call(ctx), Throughout(ctx))
  {
    var inv := Throughout(ctx);
    forall step: Step ensures inv(EMPTY, step.run, step.at, {step.run}) {
      EmptyDuring(ctx, step.run, step.at);
    }
    forall s, step: Step, runs | inv(s, step.run, step.at, runs) && step.run in runs
      ensures inv(Call(ctx)(s, step), step.run, step.at, runs)
    {
      IngestDuring(ctx, s, step, runs);
    }
    forall s, runs, last: Step, step: Step
      | inv(s, last.run, last.at, runs) && last.at <= step.at && (step.run == last.run || step.run !in runs)
      ensures inv(s, step.run, step.at, runs + {step.run})
    {
      NextDuring(ctx, s, last, step, runs);
    }
  }

  /** The store before the last call of an orderly history, and after it. */
  lemma OrderlyHistoryIsSteady(ctx: Context, steps: seq<Step>) returns (found: Store, left: Store)
    requires ValidContext(ctx) && Orderly(steps) && steps != []
    ensures found == Play(ctx, steps[..|steps| - 1]) && left == Play(ctx, steps)
    ensures During(ctx, found, steps[|steps| - 1].run, steps[|steps| - 1].at, RunsOf(steps))
    ensures During(ctx, left, steps[|steps| - 1].run, steps[|steps| - 1].at, RunsOf(steps))
  {
    found, left := Play(ctx, steps[..|steps| - 1]), Play(ctx, steps);
    DuringIsInductive(ctx);
    HoldsThroughout(Call(ctx), Throughout(ctx), steps);
  }

  ghost predicate EndsUnmerged(incidents: seq<Incident>, k: nat) {
    exists n: nat :: Follow(incidents, k, n) < |incidents| && incidents[Follow(incidents, k, n)].Live()
  }

  /** After any orderly history there is at most one open incident per root, and following merges ends at an unmerged one. */
  lemma OneOpenIncidentPerRootAlways(ctx: Context, steps: seq<Step>) returns (left: Store)
    requires ValidContext(ctx) && Orderly(steps)
    ensures left == Play(ctx, steps)
    ensures OneOpenPerRoot(left.incidents)
    ensures forall k :: 0 <= k < |left.incidents| ==> EndsUnmerged(left.incidents, k)
  {
    if steps == [] {
      left := EMPTY;
    } else {
      var _, s := OrderlyHistoryIsSteady(ctx, steps);
      left := s;
      SteadyIsCalm(left.incidents, steps[|steps| - 1].run, steps[|steps| - 1].at);
      forall k | 0 <= k < |left.incidents| ensures EndsUnmerged(left.incidents, k) {
        ChainsEnd(left.incidents, k);
      }
    }
  }

  /** No invocation comes twice in a folder. */
  ghost predicate Once(artifacts: seq<Artifact>) {
    forall i, j :: 0 <= i < j < |artifacts| ==> artifacts[i].invocation != artifacts[j].invocation
  }

  lemma OnceBefore(artifacts: seq<Artifact>, a: Artifact)
    requires Once(artifacts) && artifacts != [] && a in artifacts[..|artifacts| - 1]
    ensures a.invocation != artifacts[|artifacts| - 1].invocation
  {
    var i :| 0 <= i < |artifacts| - 1 && artifacts[..|artifacts| - 1][i] == a;
    assert artifacts[i] == a;
  }

  lemma DistinctGrows(known: set<string>, rest: seq<Artifact>, last: Artifact)
    requires DistinctFrom(known, rest) && last.invocation !in known
    requires forall a :: a in rest ==> a.invocation != last.invocation
    ensures DistinctFrom(known, rest + [last])
  {
    assert (rest + [last])[..|rest|] == rest;
    assert last.invocation !in known + InvocationsOf(rest);
  }

  lemma {:induction false} OnceUnseen(invocations: map<string, Run>, artifacts: seq<Artifact>)
    requires Once(artifacts)
    ensures forall a :: a in NotSeen(invocations, artifacts) ==> a in artifacts
    ensures DistinctFrom(invocations.Keys, NotSeen(invocations, artifacts))
  {
    if artifacts != [] {
      var n := |artifacts| - 1;
      var rest, last := NotSeen(invocations, artifacts[..n]), artifacts[n];
      OnceUnseen(invocations, artifacts[..n]);
      forall a | a in rest ensures a.invocation != last.invocation { OnceBefore(artifacts, a); }
      if last.invocation !in invocations { DistinctGrows(invocations.Keys, rest, last); }
    }
  }

  /** A calm store refuses nothing but an invocation that comes twice. */
  lemma CalmRefusesOnlyRepeats(ctx: Context, s: Store, step: Step)
    requires ValidContext(ctx) && Tied(ctx.nodes, s) && Calm(s.incidents, step.run, step.at)
    ensures RefusesIngest(ctx, s, step.run, step.artifacts, step.at)
            <==> !DistinctFrom(s.invocations.Keys, NotSeen(s.invocations, step.artifacts))
  {
    var unseen := NotSeen(s.invocations, step.artifacts);
    RecordAllKeeps(ctx.nodes, s, step.run, unseen);
    var f := FindingsIn(ctx, RecordAll(ctx.nodes, s, step.run, unseen), step.run);
    Regrouping.CalmIsNotRefused(f, s.incidents, step.run, step.at, Heads(f.rootOf));
  }

  /** In an orderly history a call is refused exactly when an unseen invocation comes twice in its folder. */
  lemma OrderlyHistoryRefusesOnlyRepeats(ctx: Context, steps: seq<Step>) returns (found: Store)
    requires ValidContext(ctx) && Orderly(steps) && steps != []
    ensures found == Play(ctx, steps[..|steps| - 1]) && Consistent(ctx.nodes, found)
    ensures var last := steps[|steps| - 1];
      && (RefusesIngest(ctx, found, last.run, last.artifacts, last.at)
          <==> !DistinctFrom(found.invocations.Keys, NotSeen(found.invocations, last.artifacts)))
      && (Once(last.artifacts) ==> !RefusesIngest(ctx, found, last.run, last.artifacts, last.at))
  {
    var last := steps[|steps| - 1];
    var left;
    found, left := OrderlyHistoryIsSteady(ctx, steps);
    SteadyIsCalm(found.incidents, last.run, last.at);
    CalmRefusesOnlyRepeats(ctx, found, last);
    if Once(last.artifacts) { OnceUnseen(found.invocations, last.artifacts); }
  }
}
