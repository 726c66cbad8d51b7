/** The watermark copy of one table: commits on one side, loads into a last-version-wins table on the other. */
module CopyProtocol {
  import opened Ids

  /** A row's version: its `updated_at`, and its values. */
  datatype Version = Version(stamp: int, values: seq<string>)

  type Part = map<string, Version>

  /** One table on both sides: what Postgres holds, the parts inserted into raw, the watermark, and, for stating
      things only, the highest stamp each key was ever committed with. */
  datatype TableState = TableState(pg: map<string, Version>, raw: seq<Part>, mark: Option<int>, highest: map<string, int>)

  // -- What raw holds ------------------------------------------------------------------

  /** An insert into a `ReplacingMergeTree(updated_at)`: the latest version of a key wins, the last inserted on a tie. */
  function Upsert(before: Part, part: Part): (after: Part)
    ensures after.Keys == before.Keys + part.Keys
  {
    map k | k in before.Keys + part.Keys ::
      if k in part && (k in before ==> part[k].stamp >= before[k].stamp) then part[k] else before[k]
  }

  /** Raw as read with `FINAL`. */
  function Final(raw: seq<Part>): Part {
    if raw == [] then map[] else Upsert(Final(raw[..|raw| - 1]), raw[|raw| - 1])
  }

  lemma FinalAppends(raw: seq<Part>, part: Part)
    ensures Final(raw + [part]) == Upsert(Final(raw), part)
  {
    assert (raw + [part])[..|raw|] == raw;
  }

  lemma UpsertAssociates(a: Part, b: Part, c: Part)
    ensures Upsert(Upsert(a, b), c) == Upsert(a, Upsert(b, c))
  {
    var left, right := Upsert(Upsert(a, b), c), Upsert(a, Upsert(b, c));
    assert left.Keys == right.Keys;
    forall k | k in left ensures left[k] == right[k] {
    }
  }

  /** Raw after the engine merges part `i` with the next one. */
  function MergeParts(raw: seq<Part>, i: nat): seq<Part>
    requires i + 1 < |raw|
  {
    raw[..i] + [Upsert(raw[i], raw[i + 1])] + raw[i + 2..]
  }

  lemma SplitLastTwo(raw: seq<Part>, i: nat)
    requires i + 2 == |raw|
    ensures raw == raw[..i] + [raw[i]] + [raw[i + 1]] && MergeParts(raw, i) == raw[..i] + [Upsert(raw[i], raw[i + 1])]
  {
  }

  lemma SplitLast(raw: seq<Part>, i: nat)
    requires i + 2 < |raw|
    ensures var n := |raw| - 1;
      raw == raw[..n] + [raw[n]] && MergeParts(raw, i) == MergeParts(raw[..n], i) + [raw[n]]
  {
  }

  lemma LastMerge(raw: seq<Part>, i: nat)
    requires i + 2 == |raw|
    ensures Final(MergeParts(raw, i)) == Final(raw)
  {
    SplitLastTwo(raw, i);
    FinalAppends(raw[..i], raw[i]);
    FinalAppends(raw[..i] + [raw[i]], raw[i + 1]);
    FinalAppends(raw[..i], Upsert(raw[i], raw[i + 1]));
    UpsertAssociates(Final(raw[..i]), raw[i], raw[i + 1]);
  }

  /** Merges in the background change nothing that is read. */
  lemma {:induction false} MergesAreInvisible(raw: seq<Part>, i: nat)
    requires i + 1 < |raw|
    ensures Final(MergeParts(raw, i)) == Final(raw)
    decreases |raw|
  {
    var n := |raw| - 1;
    if i + 1 == n {
      LastMerge(raw, i);
    } else {
      MergesAreInvisible(raw[..n], i);
      SplitLast(raw, i);
      FinalAppends(MergeParts(raw[..n], i), raw[n]);
      FinalAppends(raw[..n], raw[n]);
    }
  }

  // -- One action ----------------------------------------------------------------------

  /** The rows stamped in `(since, until]`, or all up to `until`. */
  function Read(pg: map<string, Version>, since: Option<int>, until: int): Part {
    map k | k in pg && pg[k].stamp <= until && (since.Some? ==> pg[k].stamp > since.value) :: pg[k]
  }

  /** Where a load starts: the watermark minus the overlap. */
  function Since(mark: Option<int>, overlap: nat): Option<int> {
    match mark
    case None => None
    case Some(m) => Some(m - overlap)
  }

  /** The latest `loaded_until` on record. */
  function Raise(mark: Option<int>, until: int): Option<int> {
    if mark.Some? && mark.value > until then mark else Some(until)
  }

  /** What can happen to a table. A skipped load is no action at all. */
  datatype Action =
    | Commit(key: string, version: Version)
    | Delete(key: string)
    | Load(until: int)
    | LoadAll(until: int)   // `full`, into the table as it is
    | Replace(until: int)   // a resync, or one table of a backfill: emptied, then loaded in full
    | Unrecorded(until: int) // a load that stopped before its loads were recorded: the rows are in, the watermark is not
    | Emptied               // a replacement that stopped after the table was emptied
    | Merge(part: nat)

  /** The table once the rows stamped since `since` went in, and the load was recorded. */
  function Loaded(ts: TableState, since: Option<int>, until: int): TableState {
    ts.(raw := ts.raw + [Read(ts.pg, since, until)], mark := Raise(ts.mark, until))
  }

  function Apply(ts: TableState, overlap: nat, a: Action): TableState {
    match a
    case Commit(k, v) => ts.(pg := ts.pg[k := v], highest := ts.highest[k := v.stamp])
    case Delete(k) => ts.(pg := ts.pg - {k})
    case Load(until) => Loaded(ts, Since(ts.mark, overlap), until)
    case LoadAll(until) => Loaded(ts, None, until)
    case Replace(until) => Loaded(ts.(raw := []), None, until)
    case Unrecorded(until) => ts.(raw := ts.raw + [Read(ts.pg, Since(ts.mark, overlap), until)])
    case Emptied => ts.(raw := [])
    case Merge(i) => if i + 1 < |ts.raw| then ts.(raw := MergeParts(ts.raw, i)) else ts
  }

  // -- What the protocol keeps ---------------------------------------------------------

  /** A key's stamps increase. */
  ghost predicate Increasing(ts: TableState, a: Action) {
    a.Commit? && a.key in ts.highest ==> a.version.stamp > ts.highest[a.key]
  }

  /** Commits are no later than the overlap allows, and a replacement, whole or stopped half way, reads again every row
      that no later load will. */
  ghost predicate InTime(ts: TableState, overlap: nat, a: Action) {
    ts.mark.Some? ==>
      match a
      case Commit(_, v) => v.stamp > ts.mark.value - overlap
      case Replace(until) => forall k :: k in ts.pg && ts.pg[k].stamp <= ts.mark.value - overlap ==> ts.pg[k].stamp <= until
      case Emptied => forall k :: k in ts.pg ==> ts.pg[k].stamp > ts.mark.value - overlap
      case _ => true
  }

  ghost predicate Timely(ts: TableState, overlap: nat, a: Action) {
    Increasing(ts, a) && InTime(ts, overlap, a)
  }

  /** Postgres holds each key's highest version, and raw only versions that were committed. */
  ghost predicate Versioned(ts: TableState) {
    && (forall k :: k in ts.pg ==> k in ts.highest && ts.pg[k].stamp == ts.highest[k])
    && FromCommits(Final(ts.raw), ts)
  }

  ghost predicate FromCommits(final: Part, ts: TableState) {
    && (forall k :: k in final ==> k in ts.highest && final[k].stamp <= ts.highest[k])
    && (forall k :: k in final && k in ts.pg && final[k].stamp == ts.pg[k].stamp ==> final[k] == ts.pg[k])
  }

  /** Every row Postgres holds with a stamp up to `stamp` is in raw, in its current version. */
  ghost predicate CopiedTo(ts: TableState, stamp: int) {
    CopiedIn(Final(ts.raw), ts.pg, stamp)
  }

  ghost predicate CopiedIn(final: Part, pg: map<string, Version>, stamp: int) {
    forall k :: k in pg && pg[k].stamp <= stamp ==> k in final && final[k] == pg[k]
  }

  ghost predicate Kept(ts: TableState, overlap: nat) {
    Versioned(ts) && (ts.mark.Some? ==> CopiedTo(ts, ts.mark.value - overlap))
  }

  /** Inserting current versions over what raw holds keeps what was copied, and copies what was read. */
  lemma InsertCopies(ts: TableState, since: Option<int>, until: int)
    requires Versioned(ts)
    ensures var after := ts.(raw := ts.raw + [Read(ts.pg, since, until)]);
      && Versioned(after)
      && (forall stamp :: CopiedTo(ts, stamp) ==> CopiedTo(after, stamp))
      && ((since.Some? ==> CopiedTo(ts, since.value)) ==> CopiedTo(after, until))
  {
    var part := Read(ts.pg, since, until);
    FinalAppends(ts.raw, part);
    InsertPutsRight(ts, Final(ts.raw), part);
  }

  lemma InsertPutsRight(ts: TableState, final: Part, part: Part)
    requires forall k :: k in ts.pg ==> k in ts.highest && ts.pg[k].stamp == ts.highest[k]
    requires FromCommits(final, ts) && (forall k :: k in part ==> k in ts.pg && part[k] == ts.pg[k])
    ensures FromCommits(Upsert(final, part), ts)
    ensures forall k :: k in part ==> Upsert(final, part)[k] == ts.pg[k]
    ensures forall k :: k in final && k !in part ==> Upsert(final, part)[k] == final[k]
  {
  }

  lemma KeptByLoad(ts: TableState, overlap: nat, a: Action)
    requires Kept(ts, overlap) && (a.Load? || a.LoadAll? || a.Unrecorded?)
    ensures Kept(Apply(ts, overlap, a), overlap)
    ensures ts.mark.None? || a.until >= ts.mark.value ==> CopiedTo(Apply(ts, overlap, a), a.until)
  {
    InsertCopies(ts, if a.LoadAll? then None else Since(ts.mark, overlap), a.until);
  }

  lemma FinalOfOne(part: Part)
    ensures Final([part]) == part
  {
    FinalAppends([], part);
    assert [] + [part] == [part];
  }

  /** A replacement holds exactly the rows stamped up to its end. */
  lemma KeptByReplace(ts: TableState, overlap: nat, until: int)
    requires Kept(ts, overlap)
    ensures CopiedTo(Apply(ts, overlap, Replace(until)), until)
    ensures Kept(Apply(ts, overlap, Replace(until)), overlap) <==> InTime(ts, overlap, Replace(until))
  {
    FinalOfOne(Read(ts.pg, None, until));
  }

  lemma FromCommitsStill(ts: TableState, final: Part, k: string, v: Version)
    requires FromCommits(final, ts) && (k in ts.highest ==> v.stamp > ts.highest[k])
    ensures FromCommits(final, ts.(pg := ts.pg[k := v], highest := ts.highest[k := v.stamp]))
    ensures k in final ==> final[k] != v
  {
  }

  lemma KeptByCommit(ts: TableState, final: Part, overlap: nat, k: string, v: Version)
    requires Kept(ts, overlap) && final == Final(ts.raw) && Increasing(ts, Commit(k, v))
    ensures Kept(Apply(ts, overlap, Commit(k, v)), overlap) <==> InTime(ts, overlap, Commit(k, v))
  {
    FromCommitsStill(ts, final, k, v);
  }

  lemma KeptByDelete(ts: TableState, overlap: nat, a: Action)
    requires Kept(ts, overlap) && a.Delete?
    ensures Kept(Apply(ts, overlap, a), overlap) && InTime(ts, overlap, a)
  {
  }

  lemma KeptByEmptied(ts: TableState, overlap: nat, a: Action)
    requires Kept(ts, overlap) && a.Emptied?
    ensures Kept(Apply(ts, overlap, a), overlap) <==> InTime(ts, overlap, a)
  {
    assert Final([]) == map[];
  }

  lemma KeptByMerge(ts: TableState, overlap: nat, a: Action)
    requires Kept(ts, overlap) && a.Merge?
    ensures Kept(Apply(ts, overlap, a), overlap) && InTime(ts, overlap, a)
  {
    if a.part + 1 < |ts.raw| { MergesAreInvisible(ts.raw, a.part); }
  }

  lemma KeptByWrite(ts: TableState, overlap: nat, a: Action)
    requires Kept(ts, overlap) && Increasing(ts, a) && (a.Commit? || a.Replace?)
    ensures Kept(Apply(ts, overlap, a), overlap) <==> InTime(ts, overlap, a)
  {
    if a.Commit? { KeptByCommit(ts, Final(ts.raw), overlap, a.key, a.version); } else { KeptByReplace(ts, overlap, a.until); }
  }

  /** An action leaves everything up to the watermark minus the overlap copied exactly when it comes in time. */
  lemma KeptExactlyWhenInTime(ts: TableState, overlap: nat, a: Action)
    requires Kept(ts, overlap) && Increasing(ts, a)
    ensures Kept(Apply(ts, overlap, a), overlap) <==> InTime(ts, overlap, a)
  {
    if a.Commit? || a.Replace? {
      KeptByWrite(ts, overlap, a);
    } else if a.Delete? {
      KeptByDelete(ts, overlap, a);
    } else if a.Emptied? {
      KeptByEmptied(ts, overlap, a);
    } else if a.Merge? {
      KeptByMerge(ts, overlap, a);
    } else {
      KeptByLoad(ts, overlap, a);
    }
  }

  // -- Whole histories -----------------------------------------------------------------

  function Run(ts: TableState, overlap: nat, actions: seq<Action>): TableState {
    if actions == [] then ts
    else Apply(Run(ts, overlap, actions[..|actions| - 1]), overlap, actions[|actions| - 1])
  }

  ghost predicate AllTimely(ts: TableState, overlap: nat, actions: seq<Action>) {
    actions == [] ||
    (AllTimely(ts, overlap, actions[..|actions| - 1])
     && Timely(Run(ts, overlap, actions[..|actions| - 1]), overlap, actions[|actions| - 1]))
  }

  ghost predicate AllIncreasing(ts: TableState, overlap: nat, actions: seq<Action>) {
    actions == [] ||
    (AllIncreasing(ts, overlap, actions[..|actions| - 1])
     && Increasing(Run(ts, overlap, actions[..|actions| - 1]), actions[|actions| - 1]))
  }

  /** Kept after every action of a history. */
  ghost predicate AlwaysKept(ts: TableState, overlap: nat, actions: seq<Action>) {
    Kept(Run(ts, overlap, actions), overlap) && (actions == [] || AlwaysKept(ts, overlap, actions[..|actions| - 1]))
  }

  const NEW_TABLE := TableState(map[], [], None, map[])

  /** A history whose keys' stamps increase stays kept throughout exactly when every action comes in time. */
  lemma {:induction false} KeptThroughout(ts: TableState, overlap: nat, actions: seq<Action>)
    requires Kept(ts, overlap) && AllIncreasing(ts, overlap, actions)
    ensures AlwaysKept(ts, overlap, actions) <==> AllTimely(ts, overlap, actions)
  {
    if actions != [] {
      var n := |actions| - 1;
      KeptThroughout(ts, overlap, actions[..n]);
      if AlwaysKept(ts, overlap, actions[..n]) {
        KeptExactlyWhenInTime(Run(ts, overlap, actions[..n]), overlap, actions[n]);
      }
    }
  }

  lemma {:induction false} TimelyIsIncreasing(ts: TableState, overlap: nat, actions: seq<Action>)
    requires AllTimely(ts, overlap, actions)
    ensures AllIncreasing(ts, overlap, actions)
  {
    if actions != [] { TimelyIsIncreasing(ts, overlap, actions[..|actions| - 1]); }
  }

  lemma TimelyIsKept(ts: TableState, overlap: nat, actions: seq<Action>)
    requires Kept(ts, overlap) && AllTimely(ts, overlap, actions)
    ensures Kept(Run(ts, overlap, actions), overlap)
  {
    TimelyIsIncreasing(ts, overlap, actions);
    KeptThroughout(ts, overlap, actions);
  }

  /** The theorem: in any timely history, a load, resync or backfill that does not go back in time leaves every row
      already committed, with a stamp up to the watermark, in raw in its current version. */
  lemma EveryLoadCopiesUpToTheWatermark(overlap: nat, actions: seq<Action>)
    requires AllTimely(NEW_TABLE, overlap, actions) && actions != []
    requires var last := actions[|actions| - 1];
      && (last.Load? || last.LoadAll? || last.Replace?)
      && var mark := Run(NEW_TABLE, overlap, actions[..|actions| - 1]).mark; (mark.None? || last.until >= mark.value)
    ensures var ts := Run(NEW_TABLE, overlap, actions);
      ts.mark == Some(actions[|actions| - 1].until) && CopiedTo(ts, actions[|actions| - 1].until)
  {
    var n := |actions| - 1;
    var before := Run(NEW_TABLE, overlap, actions[..n]);
    TimelyIsKept(NEW_TABLE, overlap, actions[..n]);
    if actions[n].Replace? {
      KeptByReplace(before, overlap, actions[n].until);
    } else {
      KeptByLoad(before, overlap, actions[n]);
    }
  }

  // -- The edges of the overlap --------------------------------------------------------

  /** A row committed after a load is caught by the next one exactly when its stamp is inside the overlap. */
  lemma CaughtExactlyWithinTheOverlap(ts: TableState, overlap: nat, k: string, v: Version, until: int)
    requires Kept(ts, overlap) && ts.mark.Some? && (k in ts.highest ==> v.stamp > ts.highest[k])
    requires v.stamp <= until
    ensures var after := Final(Apply(Apply(ts, overlap, Commit(k, v)), overlap, Load(until)).raw);
      (k in after && after[k] == v) <==> v.stamp > ts.mark.value - overlap
  {
    var committed := Apply(ts, overlap, Commit(k, v));
    FinalAppends(ts.raw, Read(committed.pg, Since(ts.mark, overlap), until));
  }

  /** Commits that come less than the overlap after their stamp are timely, if no load reaches past the clock. */
  lemma PromptCommitsAreTimely(ts: TableState, overlap: nat, k: string, v: Version, now: int)
    requires ts.mark.Some? ==> ts.mark.value <= now
    requires now - v.stamp < overlap
    requires k in ts.highest ==> v.stamp > ts.highest[k]
    ensures Timely(ts, overlap, Commit(k, v))
  {
  }

  // -- Rows lost -----------------------------------------------------------------------

  /** Nothing that would read a row again: no later version of it, no load in full. */
  ghost predicate Passes(k: string, a: Action) {
    match a
    case Commit(key, _) => key != k
    case LoadAll(_) => false
    case Replace(_) => false
    case _ => true
  }

  ghost predicate AllPass(k: string, actions: seq<Action>) {
    forall a :: a in actions ==> Passes(k, a)
  }

  /** A row the copy does not hold, stamped before where any load from now on starts. */
  ghost predicate Lost(ts: TableState, overlap: nat, k: string) {
    && k !in Final(ts.raw)
    && ts.mark.Some? && (k in ts.pg ==> ts.pg[k].stamp <= ts.mark.value - overlap)
  }

  lemma LostStaysLost(ts: TableState, overlap: nat, k: string, a: Action)
    requires Lost(ts, overlap, k) && Passes(k, a)
    ensures Lost(Apply(ts, overlap, a), overlap, k)
  {
    match a {
      case Commit(_, _) =>
      case Delete(_) =>
      case Load(until) => FinalAppends(ts.raw, Read(ts.pg, Since(ts.mark, overlap), until));
      case Unrecorded(until) => FinalAppends(ts.raw, Read(ts.pg, Since(ts.mark, overlap), until));
      case Emptied => assert Final([]) == map[];
      case Merge(i) => if i + 1 < |ts.raw| { MergesAreInvisible(ts.raw, i); }
    }
  }

  lemma {:induction false} LostThroughout(ts: TableState, overlap: nat, k: string, actions: seq<Action>)
    requires Lost(ts, overlap, k) && AllPass(k, actions)
    ensures Lost(Run(ts, overlap, actions), overlap, k)
  {
    if actions != [] {
      var n := |actions| - 1;
      assert actions[n] in actions && actions == actions[..n] + [actions[n]];
      LostThroughout(ts, overlap, k, actions[..n]);
      LostStaysLost(Run(ts, overlap, actions[..n]), overlap, k, actions[n]);
    }
  }

  /** The row is in raw after none of the histories that pass it by. */
  ghost predicate LostForGood(ts: TableState, overlap: nat, k: string) {
    forall actions :: AllPass(k, actions) ==> k !in Final(Run(ts, overlap, actions).raw)
  }

  lemma LostIsForGood(ts: TableState, overlap: nat, k: string)
    requires Lost(ts, overlap, k)
    ensures LostForGood(ts, overlap, k)
  {
    forall actions | AllPass(k, actions) ensures k !in Final(Run(ts, overlap, actions).raw) {
      LostThroughout(ts, overlap, k, actions);
    }
  }

  lemma RunOfOne(ts: TableState, overlap: nat, a: Action)
    ensures Run(ts, overlap, []) == ts && Run(ts, overlap, [a]) == Apply(ts, overlap, a)
  {
    assert [a][..0] == [];
  }

  /** A row stamped past where the next load starts is caught by it. */
  lemma NotLost(ts: TableState, overlap: nat, k: string)
    requires k in ts.pg && (ts.mark.Some? ==> ts.pg[k].stamp > ts.mark.value - overlap)
    ensures !LostForGood(ts, overlap, k)
  {
    var load := Load(ts.pg[k].stamp);
    RunOfOne(ts, overlap, load);
    FinalAppends(ts.raw, Read(ts.pg, Since(ts.mark, overlap), load.until));
    assert AllPass(k, [load]);
  }

  /** What a replacement, whole or stopped half way, loses for good: exactly the rows no later load reads again that it
      did not read itself. */
  lemma ReplacingLosesExactlyTheseRows(ts: TableState, overlap: nat, k: string, a: Action)
    requires k in ts.pg && (a.Replace? || a.Emptied?)
    ensures LostForGood(Apply(ts, overlap, a), overlap, k)
            <==> ts.mark.Some? && ts.pg[k].stamp <= ts.mark.value - overlap && (a.Emptied? || a.until < ts.pg[k].stamp)
  {
    var after := Apply(ts, overlap, a);
    if a.Replace? {
      FinalOfOne(Read(ts.pg, None, a.until));
    }
    if Lost(after, overlap, k) {
      LostIsForGood(after, overlap, k);
    } else if k in Final(after.raw) {
      assert AllPass(k, []);
      assert Run(after, overlap, []) == after;
    } else {
      NotLost(after, overlap, k);
    }
  }
}
