/** Where a run's failures are counted, and what becomes of every incident, told by the store the run finds. */
module Choice {
  import opened Ids
  import opened Checks
  import opened Incidents
  import opened DeskState
  import opened Showing
  import Lineage
  import Grouping
  import Settling

  // -- The rules --------------------------------------------------------------

  /** An incident of another run, not later than this one, open or resolved by this run. */
  ghost predicate Candidate(incidents: seq<Incident>, run: Run, at: int, k: nat) {
    && k < |incidents| && incidents[k].mergedInto == None
    && (incidents[k].resolved == None || incidents[k].resolved.value.run == run)
    && incidents[k].openedBy != run && incidents[k].openedAt <= at
  }

  /** By which rule a group's root lets it go to an incident at another: `rule(n, other, root)`. */
  type Rules = (nat, Id, Id) -> bool

  ghost predicate Numbered(rule: Rules, incidents: seq<Incident>, run: Run, at: int, root: Id, k: nat, n: nat) {
    Candidate(incidents, run, at, k) && rule(n, incidents[k].root, root)
  }

  /** By a lower rule than any other candidate, and the first of those by the same rule. */
  ghost predicate LeastBy(rule: Rules, incidents: seq<Incident>, run: Run, at: int, root: Id, k: nat, n: nat) {
    && Numbered(rule, incidents, run, at, root, k, n)
    && forall j, m :: Numbered(rule, incidents, run, at, root, j, m) ==> n < m || (n == m && k <= j)
  }

  /** The first incident the run itself opened at a root and stands by. */
  ghost predicate FirstOwn(incidents: seq<Incident>, run: Run, root: Id, k: nat) {
    && OwnAt(incidents, run, root, k)
    && forall j :: OwnAt(incidents, run, root, j) ==> k <= j
  }

  ghost predicate OwnAt(incidents: seq<Incident>, run: Run, root: Id, k: nat) {
    k < |incidents| && incidents[k].mergedInto == None && incidents[k].openedBy == run && incidents[k].root == root
  }

  /** Where a group goes: the candidate least by the rules, else the run's own incident there, else a new one. */
  ghost predicate GoesTo(rule: Rules, incidents: seq<Incident>, run: Run, at: int, root: Id, k: nat) {
    || (exists n :: LeastBy(rule, incidents, run, at, root, k, n))
    || ((forall j, m :: !Numbered(rule, incidents, run, at, root, j, m))
        && (FirstOwn(incidents, run, root, k)
            || (k >= |incidents| && forall j :: !OwnAt(incidents, run, root, j))))
  }

  ghost predicate SameRules(a: Rules, b: Rules) {
    forall n, other, root :: a(n, other, root) <==> b(n, other, root)
  }

  lemma SameRulesGoAlike(a: Rules, b: Rules, incidents: seq<Incident>, run: Run, at: int, root: Id, k: nat)
    requires SameRules(a, b) && GoesTo(a, incidents, run, at, root, k)
    ensures GoesTo(b, incidents, run, at, root, k)
  {
    forall j, m ensures Numbered(a, incidents, run, at, root, j, m) <==> Numbered(b, incidents, run, at, root, j, m) {
    }
    if n :| LeastBy(a, incidents, run, at, root, k, n) {
      assert LeastBy(b, incidents, run, at, root, k, n);
    }
  }

  // -- Told by the findings --------------------------------------------------------------

  /** The same root; one whose failures are of the group; one below it; one above it that the run did not cover. */
  ghost predicate RuleOf(f: Findings, n: nat, other: Id, root: Id) {
    || (n == 1 && other == root)
    || (n == 2 && other in f.rootOf && f.rootOf[other] == root)
    || (n == 3 && root in f.above(other))
    || (n == 4 && other in f.above(root) && !f.covered(other))
  }

  ghost function RulesOf(f: Findings): Rules {
    (n: nat, other: Id, root: Id) => RuleOf(f, n, other, root)
  }

  lemma CandidatesAreBefore(incidents: seq<Incident>, run: Run, at: int, k: nat)
    ensures k in Before(incidents, run, at) <==> Candidate(incidents, run, at, k)
  {
  }

  lemma FirstIs(s: set<nat>, k: nat)
    ensures First(s) == Some(k) <==> k in s && forall j :: j in s ==> k <= j
  {
  }

  /** The incidents a rule lets a group go to. */
  function ByRule(f: Findings, incidents: seq<Incident>, before: set<nat>, root: Id, n: nat): set<nat> {
    if n == 1 then WithRoot(incidents, before, root)
    else if n == 2 then WithRootIn(f, incidents, before, root)
    else if n == 3 then RootedBelow(f, incidents, before, root)
    else if n == 4 then RootedAbove(f, incidents, before, root)
    else {}
  }

  lemma ByRuleAre(f: Findings, incidents: seq<Incident>, run: Run, at: int, root: Id, k: nat, n: nat)
    ensures k in ByRule(f, incidents, Before(incidents, run, at), root, n) <==> Numbered(RulesOf(f), incidents, run, at, root, k, n)
  {
    CandidatesAreBefore(incidents, run, at, k);
  }

  lemma PickByRule(f: Findings, incidents: seq<Incident>, before: set<nat>, root: Id) returns (n: nat)
    ensures 1 <= n <= 4 && Pick(f, incidents, before, root) == First(ByRule(f, incidents, before, root, n))
    ensures forall m: nat :: m < n ==> ByRule(f, incidents, before, root, m) == {}
    ensures Pick(f, incidents, before, root).None? ==> forall m :: ByRule(f, incidents, before, root, m) == {}
  {
    n := if WithRoot(incidents, before, root) != {} then 1
         else if WithRootIn(f, incidents, before, root) != {} then 2
         else if RootedBelow(f, incidents, before, root) != {} then 3 else 4;
  }

  /** A group goes to the candidate least by rule and position, and to none of them exactly when no rule lets it. */
  lemma PicksTheLeast(f: Findings, incidents: seq<Incident>, run: Run, at: int, root: Id, k: nat)
    ensures var picked := Pick(f, incidents, Before(incidents, run, at), root);
      && (picked == Some(k) <==> exists n :: LeastBy(RulesOf(f), incidents, run, at, root, k, n))
      && (picked == None <==> forall j, m :: !Numbered(RulesOf(f), incidents, run, at, root, j, m))
  {
    var before := Before(incidents, run, at);
    var n := PickByRule(f, incidents, before, root);
    var picked := First(ByRule(f, incidents, before, root, n));
    forall j, m ensures j in ByRule(f, incidents, before, root, m) <==> Numbered(RulesOf(f), incidents, run, at, root, j, m) {
      ByRuleAre(f, incidents, run, at, root, j, m);
    }
    if picked.Some? { LeastOfAll(f, incidents, run, at, root, picked.value, n); }
    if m :| LeastBy(RulesOf(f), incidents, run, at, root, k, m) {
      assert k in ByRule(f, incidents, before, root, m);
      OneLeast(RulesOf(f), incidents, run, at, root, k, m, picked.value, n);
    }
  }

  lemma LeastOfAll(f: Findings, incidents: seq<Incident>, run: Run, at: int, root: Id, k: nat, n: nat)
    requires First(ByRule(f, incidents, Before(incidents, run, at), root, n)) == Some(k)
    requires forall m: nat :: m < n ==> ByRule(f, incidents, Before(incidents, run, at), root, m) == {}
    ensures LeastBy(RulesOf(f), incidents, run, at, root, k, n)
  {
    ByRuleAre(f, incidents, run, at, root, k, n);
    forall j, m | Numbered(RulesOf(f), incidents, run, at, root, j, m) ensures n < m || (n == m && k <= j) {
      ByRuleAre(f, incidents, run, at, root, j, m);
      FirstIs(ByRule(f, incidents, Before(incidents, run, at), root, n), k);
    }
  }

  lemma OneLeast(rule: Rules, incidents: seq<Incident>, run: Run, at: int, root: Id, k: nat, n: nat, j: nat, m: nat)
    requires LeastBy(rule, incidents, run, at, root, k, n) && LeastBy(rule, incidents, run, at, root, j, m)
    ensures k == j
  {
  }

  lemma OwnIs(incidents: seq<Incident>, run: Run, root: Id, k: nat)
    ensures var own := First(WithRoot(incidents, Mine(incidents, run), root));
      && (own == Some(k) <==> FirstOwn(incidents, run, root, k))
      && (own == None <==> forall j :: !OwnAt(incidents, run, root, j))
  {
    var mine := WithRoot(incidents, Mine(incidents, run), root);
    FirstIs(mine, k);
    forall j ensures j in mine <==> OwnAt(incidents, run, root, j) {
    }
  }

  lemma ExistingGoes(f: Findings, incidents: seq<Incident>, run: Run, at: int, root: Id, k: nat)
    requires Existing(f, incidents, run, at, root) == if k < |incidents| then Some(k) else None
    ensures GoesTo(RulesOf(f), incidents, run, at, root, k)
  {
    PicksTheLeast(f, incidents, run, at, root, k);
    OwnIs(incidents, run, root, k);
  }

  /** A group's incident, and what is there if it is new. */
  ghost predicate IsPlace(f: Findings, incidents: seq<Incident>, run: Run, at: int, root: Id, k: nat, after: seq<Incident>) {
    && GoesTo(RulesOf(f), incidents, run, at, root, k) && k < |after|
    && (k >= |incidents| ==> after[k] == Incident(root, at, run, None, None))
  }

  lemma OldPlace(f: Findings, incidents: seq<Incident>, run: Run, at: int, heads: seq<Id>, root: Id, k: nat)
    requires Existing(f, incidents, run, at, root) == Some(k)
    ensures IsPlace(f, incidents, run, at, root, k, After(f, incidents, run, at, heads))
  {
    ExistingGoes(f, incidents, run, at, root, k);
  }

  lemma NewPlace(f: Findings, incidents: seq<Incident>, run: Run, at: int, heads: seq<Id>, root: Id, i: nat)
    requires Existing(f, incidents, run, at, root).None?
    requires i < |Opened(f, incidents, run, at, heads)| && Opened(f, incidents, run, at, heads)[i] == root
    ensures IsPlace(f, incidents, run, at, root, |incidents| + i, After(f, incidents, run, at, heads))
  {
    ExistingGoes(f, incidents, run, at, root, |incidents| + i);
  }

  /** The incident every group goes to; a new one is as the run opens it. */
  lemma AssignedByTheRules(f: Findings, incidents: seq<Incident>, run: Run, at: int, heads: seq<Id>, root: Id)
    requires root in heads
    ensures IsPlace(f, incidents, run, at, root, Assigned(f, incidents, run, at, heads)[root], After(f, incidents, run, at, heads))
  {
    AssignedMeans(f, incidents, run, at, heads, root);
    match Existing(f, incidents, run, at, root) {
      case Some(k) => OldPlace(f, incidents, run, at, heads, root, k);
      case None => NewPlace(f, incidents, run, at, heads, root, Assigned(f, incidents, run, at, heads)[root] - |incidents|);
    }
  }

  // -- Told by the store -----------------------------------------------------------------

  /** The nodes the run's checks are about. */
  ghost predicate AreFailed(s: Store, run: Run, failed: set<Id>) {
    forall n :: n in failed <==> exists c :: (run, c) in s.events && s.events[(run, c)].subject == n
  }

  lemma FailedAreThose(s: Store, run: Run, failed: set<Id>)
    requires AreFailed(s, run, failed)
    ensures failed == FailedOf(s.events, run)
  {
    forall n | n in FailedOf(s.events, run) ensures n in failed {
      var k :| k in s.events && k.0 == run && s.events[k].subject == n;
      assert (run, k.1) == k;
    }
  }

  /** The rules as the store, the manifest and its lineage tell them. */
  ghost predicate DeskRule(ctx: Context, s: Store, run: Run, failed: set<Id>, n: nat, other: Id, root: Id) {
    || (n == 1 && other == root)
    || (n == 2 && other in failed && Grouping.IsRootOf(ctx.graph, failed, other, root))
    || (n == 3 && Lineage.IsAbove(ctx.graph, root, other))
    || (n == 4 && Lineage.IsAbove(ctx.graph, other, root) && !SaidOf(ctx.nodes, s.rows, run, other))
  }

  ghost function DeskRules(ctx: Context, s: Store, run: Run, failed: set<Id>): Rules {
    (n: nat, other: Id, root: Id) => DeskRule(ctx, s, run, failed, n, other, root)
  }

  lemma AboveIs(ctx: Context, s: Store, run: Run, a: Id, n: Id)
    requires ValidContext(ctx)
    ensures a in FindingsIn(ctx, s, run).above(n) <==> Lineage.IsAbove(ctx.graph, a, n)
  {
    Lineage.AncestorsAreAbove(ctx.graph, n, a);
  }

  lemma CoveredIs(ctx: Context, s: Store, run: Run, root: Id)
    requires ValidContext(ctx)
    ensures FindingsIn(ctx, s, run).covered(root) <==> SaidOf(ctx.nodes, s.rows, run, root)
  {
    CoveredIsSaid(ctx.nodes, s.rows, run, root);
  }

  lemma RootsAre(ctx: Context, s: Store, run: Run, failed: set<Id>, n: Id, root: Id)
    requires ValidContext(ctx) && failed == FailedOf(s.events, run)
    ensures var rootOf := FindingsIn(ctx, s, run).rootOf;
      n in rootOf && rootOf[n] == root <==> n in failed && Grouping.IsRootOf(ctx.graph, failed, n, root)
  {
    Grouping.RootIsThatReached(ctx.graph, failed, n, root);
  }

  lemma DeskRulesAre(ctx: Context, s: Store, run: Run, failed: set<Id>, n: nat, other: Id, root: Id)
    requires ValidContext(ctx) && failed == FailedOf(s.events, run)
    ensures RuleOf(FindingsIn(ctx, s, run), n, other, root) <==> DeskRule(ctx, s, run, failed, n, other, root)
  {
    AboveIs(ctx, s, run, root, other);
    AboveIs(ctx, s, run, other, root);
    RootsAre(ctx, s, run, failed, other, root);
    CoveredIs(ctx, s, run, other);
  }

  // -- After a regrouping ----------------------------------------------------------------

  /** The incident a check of the run is counted under. */
  ghost predicate CountedUnder(s: Store, run: Run, c: string, k: nat) {
    (run, c) in s.events && s.events[(run, c)].incident == Some(k)
  }

  ghost predicate Taken(s: Store, run: Run, k: nat) {
    exists c :: CountedUnder(s, run, c, k)
  }

  lemma LinkedTo(f: Findings, s: Store, run: Run, at: int, heads: seq<Id>, c: string)
    requires (run, c) in s.events && About(f, s, run) && forall r :: r in heads <==> r in f.rootOf.Values
    ensures s.events[(run, c)].subject in f.rootOf && f.rootOf[s.events[(run, c)].subject] in heads
    ensures CountedUnder(Regrouped(f, s, run, at, heads), run, c,
                         Assigned(f, s.incidents, run, at, heads)[f.rootOf[s.events[(run, c)].subject]])
  {
    assert s.events[(run, c)].subject in FailedOf(s.events, run);
  }

  lemma GroupGoes(ctx: Context, f: Findings, s: Store, run: Run, at: int, heads: seq<Id>, failed: set<Id>, root: Id)
    requires ValidContext(ctx) && f == FindingsIn(ctx, s, run) && failed == FailedOf(s.events, run)
    requires root in heads && Ascending(heads)
    ensures var k, after := Assigned(f, s.incidents, run, at, heads)[root], After(f, s.incidents, run, at, heads);
      && GoesTo(DeskRules(ctx, s, run, failed), s.incidents, run, at, root, k) && k < |after|
      && (k >= |s.incidents| ==> after[k] == Incident(root, at, run, None, None))
  {
    AssignedByTheRules(f, s.incidents, run, at, heads, root);
    forall n, other, r ensures RulesOf(f)(n, other, r) <==> DeskRules(ctx, s, run, failed)(n, other, r) {
      DeskRulesAre(ctx, s, run, failed, n, other, r);
    }
    SameRulesGoAlike(RulesOf(f), DeskRules(ctx, s, run, failed), s.incidents, run, at, root,
                     Assigned(f, s.incidents, run, at, heads)[root]);
  }

  lemma RootOfCheck(ctx: Context, s: Store, run: Run, failed: set<Id>, n: Id, root: Id)
    requires ValidContext(ctx) && failed == FailedOf(s.events, run) && n in failed
    requires Grouping.IsRootOf(ctx.graph, failed, n, root)
    ensures n in FindingsIn(ctx, s, run).rootOf && FindingsIn(ctx, s, run).rootOf[n] == root
  {
    Grouping.RootIsThatReached(ctx.graph, failed, n, root);
  }

  /** Where a check is counted after a regrouping, and what is there if it is new. */
  ghost predicate CountedByRules(rule: Rules, s: Store, after: Store, run: Run, at: int, c: string, root: Id, k: nat) {
    && CountedUnder(after, run, c, k) && k < |after.incidents|
    && GoesTo(rule, s.incidents, run, at, root, k)
    && (k >= |s.incidents| ==> after.incidents[k] == Incident(root, at, run, None, None))
  }

  /** Every check of the run is counted where the rules send the group of its subject's root. */
  lemma ChecksGoWhereTheRulesSay(ctx: Context, s: Store, run: Run, at: int, failed: set<Id>, c: string, root: Id)
    returns (k: nat)
    requires ValidContext(ctx) && Tied(ctx.nodes, s) && AreFailed(s, run, failed)
    requires (run, c) in s.events && Grouping.IsRootOf(ctx.graph, failed, s.events[(run, c)].subject, root)
    ensures CountedByRules(DeskRules(ctx, s, run, failed), s, Regroup(ctx, s, run, at), run, at, c, root, k)
  {
    var f := FindingsIn(ctx, s, run);
    var heads := Heads(f.rootOf);
    FailedAreThose(s, run, failed);
    FindingsAbout(ctx, s, run);
    GroundedIn(ctx.nodes, f, s, run);
    LinkedTo(f, s, run, at, heads, c);
    RootOfCheck(ctx, s, run, failed, s.events[(run, c)].subject, root);
    GroupGoes(ctx, f, s, run, at, heads, failed, root);
    k := Assigned(f, s.incidents, run, at, heads)[root];
  }

  /** A regrouping moves nothing but the run's own checks, and those only from one incident to another. */
  lemma OthersAreLeftAlone(ctx: Context, s: Store, run: Run, at: int)
    requires ValidContext(ctx)
    ensures var after := Regroup(ctx, s, run, at);
      && after.rows == s.rows && after.invocations == s.invocations && after.events.Keys == s.events.Keys
      && forall k :: k in s.events ==> after.events[k].subject == s.events[k].subject
                                       && (k.0 != run ==> after.events[k] == s.events[k])
  {
  }

  lemma TakenIsAssigned(f: Findings, s: Store, run: Run, at: int, heads: seq<Id>, k: nat)
    requires About(f, s, run) && forall r :: r in heads <==> r in f.rootOf.Values
    ensures Taken(Regrouped(f, s, run, at, heads), run, k) <==> k in Assigned(f, s.incidents, run, at, heads).Values
  {
    var chosen, after := Assigned(f, s.incidents, run, at, heads), Regrouped(f, s, run, at, heads);
    if c :| CountedUnder(after, run, c, k) {
      LinkedTo(f, s, run, at, heads, c);
      assert chosen[f.rootOf[s.events[(run, c)].subject]] == k;
    }
    if k in chosen.Values {
      var r :| r in chosen && chosen[r] == k;
      var n :| n in f.rootOf && f.rootOf[n] == r;
      assert n in FailedOf(s.events, run);
      var e :| e in s.events && e.0 == run && s.events[e].subject == n;
      LinkedTo(f, s, run, at, heads, e.1);
      assert e == (run, e.1);
    }
  }

  /** What the run makes of an incident it found: a candidate opens again when a group goes to it or the run does not show
      its root well, and is resolved otherwise, once; one of the run's own without a group is merged into the incident that
      counts its root's checks; every other stays as it was. */
  ghost predicate Becomes(ctx: Context, s: Store, after: Store, run: Run, at: int, k: nat, was: Incident, now: Incident) {
    if Candidate(s.incidents, run, at, k) then
      now == if Taken(after, run, k) || !ShownWell(ctx.nodes, s.rows, run, was.root) then was.(resolved := None)
             else if was.resolved.Some? then was else was.(resolved := Some(Resolution(at, run)))
    else if was.mergedInto == None && was.openedBy == run && !Taken(after, run, k) then
      && now == was.(mergedInto := now.mergedInto)
      && exists c :: (run, c) in s.events && s.events[(run, c)].subject == was.root
                     && (run, c) in after.events && now.mergedInto == after.events[(run, c)].incident
                     && now.mergedInto.Some?
    else now == was
  }

  lemma MergedIntoItsRoots(f: Findings, s: Store, run: Run, at: int, heads: seq<Id>, k: nat)
    requires About(f, s, run) && forall r :: r in heads <==> r in f.rootOf.Values
    requires k < |s.incidents| && s.incidents[k].Live() && s.incidents[k].openedBy == run
    requires s.incidents[k].root in FailedOf(s.events, run)
    requires k !in Assigned(f, s.incidents, run, at, heads).Values
    ensures var after := Regrouped(f, s, run, at, heads); var now := after.incidents[k];
      && now == s.incidents[k].(mergedInto := now.mergedInto) && now.mergedInto.Some?
      && exists c :: (run, c) in s.events && s.events[(run, c)].subject == s.incidents[k].root
                     && (run, c) in after.events && now.mergedInto == after.events[(run, c)].incident
  {
    var e :| e in s.events && e.0 == run && s.events[e].subject == s.incidents[k].root;
    assert e == (run, e.1);
    LinkedTo(f, s, run, at, heads, e.1);
    assert k in Mine(s.incidents, run) && k !in Before(s.incidents, run, at);
  }

  lemma CandidateBecomes(ctx: Context, f: Findings, s: Store, run: Run, at: int, heads: seq<Id>, k: nat)
    requires ValidContext(ctx) && f == FindingsIn(ctx, s, run) && Candidate(s.incidents, run, at, k)
    ensures var was, now := s.incidents[k], After(f, s.incidents, run, at, heads)[k];
      now == if k in Assigned(f, s.incidents, run, at, heads).Values || !ShownWell(ctx.nodes, s.rows, run, was.root)
             then was.(resolved := None)
             else if was.resolved.Some? then was else was.(resolved := Some(Resolution(at, run)))
  {
    CandidatesAreBefore(s.incidents, run, at, k);
    HealthyIsShown(ctx.nodes, s.rows, run, s.incidents[k].root);
  }

  lemma OtherStays(f: Findings, incidents: seq<Incident>, run: Run, at: int, heads: seq<Id>, k: nat)
    requires k < |incidents| && !Candidate(incidents, run, at, k)
    requires incidents[k].Live() && incidents[k].openedBy == run ==> k in Assigned(f, incidents, run, at, heads).Values
    ensures After(f, incidents, run, at, heads)[k] == incidents[k]
  {
    CandidatesAreBefore(incidents, run, at, k);
  }

  /** The theorem: what a regrouping makes of every incident found, and of nothing but those its checks are counted under. */
  lemma WhatBecomesOfEach(ctx: Context, s: Store, run: Run, at: int, k: nat)
    requires ValidContext(ctx) && Tied(ctx.nodes, s) && k < |s.incidents|
    ensures var after := Regroup(ctx, s, run, at);
      k < |after.incidents| && Becomes(ctx, s, after, run, at, k, s.incidents[k], after.incidents[k])
  {
    var f := FindingsIn(ctx, s, run);
    var heads := Heads(f.rootOf);
    FindingsAbout(ctx, s, run);
    GroundedIn(ctx.nodes, f, s, run);
    TakenIsAssigned(f, s, run, at, heads, k);
    var was := s.incidents[k];
    if Candidate(s.incidents, run, at, k) {
      CandidateBecomes(ctx, f, s, run, at, heads, k);
    } else if was.Live() && was.openedBy == run && k !in Assigned(f, s.incidents, run, at, heads).Values {
      MergedIntoItsRoots(f, s, run, at, heads, k);
    } else {
      OtherStays(f, s.incidents, run, at, heads, k);
    }
  }

  lemma NewIsAssigned(f: Findings, incidents: seq<Incident>, run: Run, at: int, heads: seq<Id>, k: nat)
    requires Ascending(heads) && |incidents| <= k < |After(f, incidents, run, at, heads)|
    ensures k in Assigned(f, incidents, run, at, heads).Values
  {
    var i: nat := k - |incidents|;
    Settling.OpenedForItself(f, incidents, run, at, heads, i);
    var root := Opened(f, incidents, run, at, heads)[i];
    assert Assigned(f, incidents, run, at, heads)[root] == k;
  }

  /** Every incident a regrouping opens counts a check of the run. */
  lemma NewOnesCountTheirs(ctx: Context, s: Store, run: Run, at: int, k: nat)
    requires ValidContext(ctx) && Tied(ctx.nodes, s) && |s.incidents| <= k < |Regroup(ctx, s, run, at).incidents|
    ensures Taken(Regroup(ctx, s, run, at), run, k)
  {
    var f := FindingsIn(ctx, s, run);
    var heads := Heads(f.rootOf);
    FindingsAbout(ctx, s, run);
    GroundedIn(ctx.nodes, f, s, run);
    TakenIsAssigned(f, s, run, at, heads, k);
    NewIsAssigned(f, s.incidents, run, at, heads, k);
  }
}
