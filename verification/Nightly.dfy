/** The watermark copy and the segmented diff together: what the nightly comparison of a table says of its copy. */
module Nightly {
  import opened Ids
  import opened Segments
  import opened DiffFindings
  import opened SegmentedDiff
  import opened Reconcile
  import opened CopyProtocol

  // -- The tables the comparison reads ---------------------------------------------------

  /** The keys of a table in some order: a primary key repeats nowhere. */
  ghost predicate Enumerates(keys: seq<string>, of: set<string>) {
    NoRepeats(keys) && forall k :: k in keys <==> k in of
  }

  function LegacyOf(k: string, version: Version): LegacyRow {
    LegacyRow(Row(k, version.values), Some(version.stamp))
  }

  /** The legacy table, in some order. */
  function LegacyRows(pg: map<string, Version>, keys: seq<string>): seq<LegacyRow>
    requires forall k :: k in keys ==> k in pg
  {
    if keys == [] then [] else
      var k := keys[|keys| - 1];
      LegacyRows(pg, keys[..|keys| - 1]) + [LegacyOf(k, pg[k])]
  }

  /** The copy as read with `FINAL`, in some order. */
  function CopyRows(final: Part, keys: seq<string>): seq<Row>
    requires forall k :: k in keys ==> k in final
  {
    if keys == [] then [] else
      var k := keys[|keys| - 1];
      CopyRows(final, keys[..|keys| - 1]) + [Row(k, final[k].values)]
  }

  lemma {:induction false} LegacyCopies(pg: map<string, Version>, keys: seq<string>, w: int, k: string)
    requires NoRepeats(keys) && forall k :: k in keys ==> k in pg
    ensures Copies(AsOf(LegacyRows(pg, keys), Some(w)), k)
         == if k in keys && pg[k].stamp <= w then [Row(k, pg[k].values)] else []
  {
    if keys != [] {
      var n := |keys| - 1;
      var before, row := LegacyRows(pg, keys[..n]), LegacyOf(keys[n], pg[keys[n]]);
      LegacyCopies(pg, keys[..n], w, k);
      LastOrBefore(keys, k);
      AsOfAppends(before, row, w);
      CopiesGrow(AsOf(before, Some(w)), row.row, k);
    }
  }

  lemma {:induction false} LegacyChanges(pg: map<string, Version>, keys: seq<string>, w: int, k: string)
    requires NoRepeats(keys) && forall k :: k in keys ==> k in pg
    ensures k in ChangedKeys(LegacyRows(pg, keys), Some(w)) <==> k in keys && pg[k].stamp > w
  {
    if keys != [] {
      var n := |keys| - 1;
      var before, row := LegacyRows(pg, keys[..n]), LegacyOf(keys[n], pg[keys[n]]);
      LegacyChanges(pg, keys[..n], w, k);
      LastOrBefore(keys, k);
      AsOfAppends(before, row, w);
    }
  }

  lemma LastOrBefore(keys: seq<string>, k: string)
    requires keys != []
    ensures k in keys <==> k in keys[..|keys| - 1] || k == keys[|keys| - 1]
  {
    assert keys == keys[..|keys| - 1] + [keys[|keys| - 1]];
  }

  lemma AsOfAppends(before: seq<LegacyRow>, row: LegacyRow, w: int)
    ensures AsOf(before + [row], Some(w))
         == if ChangedAfter(row, Some(w)) then AsOf(before, Some(w)) else AsOf(before, Some(w)) + [row.row]
    ensures ChangedKeys(before + [row], Some(w))
         == if ChangedAfter(row, Some(w)) then ChangedKeys(before, Some(w)) + {row.row.key} else ChangedKeys(before, Some(w))
  {
    assert (before + [row])[..|before|] == before;
  }

  lemma {:induction false} FinalCopies(final: Part, keys: seq<string>, k: string)
    requires NoRepeats(keys) && forall k :: k in keys ==> k in final
    ensures Copies(CopyRows(final, keys), k) == if k in keys then [Row(k, final[k].values)] else []
  {
    if keys != [] {
      var n := |keys| - 1;
      FinalCopies(final, keys[..n], k);
      assert keys == keys[..n] + [keys[n]];
      CopiesGrow(CopyRows(final, keys[..n]), Row(keys[n], final[keys[n]].values), k);
    }
  }

  // -- What a key shows ------------------------------------------------------------------

  /** One night: the table on both sides, and an order each side lists it in. */
  datatype Night = Night(ts: TableState, names: seq<string>, left: seq<string>, right: seq<string>)

  ghost predicate Compares(n: Night) {
    && n.ts.mark.Some?
    && Enumerates(n.left, n.ts.pg.Keys) && Enumerates(n.right, Final(n.ts.raw).Keys)
    && (forall k :: k in n.ts.pg ==> |n.ts.pg[k].values| == |n.names|)
    && (forall k :: k in Final(n.ts.raw) ==> |Final(n.ts.raw)[k].values| == |n.names|)
  }

  function Legacy(n: Night): seq<LegacyRow>
    requires Compares(n)
  {
    LegacyRows(n.ts.pg, n.left)
  }

  function Source(n: Night): seq<Row>
    requires Compares(n)
  {
    AsOf(Legacy(n), n.ts.mark)
  }

  function Target(n: Night): seq<Row>
    requires Compares(n)
  {
    CopyRows(Final(n.ts.raw), n.right)
  }

  function Shows(n: Night): string -> Finding
    requires Compares(n)
  {
    Classify(Source(n), Target(n), ChangedKeys(Legacy(n), n.ts.mark), n.names)
  }

  /** The whole comparison of the night, and what the segmented diff finds. */
  function WholeOf(n: Night): Findings
    requires Compares(n)
  {
    Whole(Source(n), Target(n), ChangedKeys(Legacy(n), n.ts.mark), n.names)
  }

  function FoundOf(n: Night, h: Hashing, leaf: nat): Findings
    requires Compares(n) && 1 <= leaf <= MAX_DEPTH
  {
    Found(h, Source(n), Target(n), ChangedKeys(Legacy(n), n.ts.mark), n.names, leaf)
  }

  /** What a key shows when each side holds at most one copy of it. */
  lemma ShowOne(key: string, left: Option<seq<string>>, right: Option<seq<string>>, changed: bool, names: seq<string>)
    requires left.Some? ==> |left.value| == |names|
    requires right.Some? ==> |right.value| == |names|
    ensures Show(key, One(key, left), One(key, right), changed, names) ==
      if left.None? then if right.None? then Same else if changed then InFlight else Extra
      else if right.None? then Missing
      else if left.value == right.value then Same
      else Cells(CellsOf(key, names, left.value, right.value))
  {
  }

  function One(key: string, values: Option<seq<string>>): seq<Row> {
    if values.Some? then [Row(key, values.value)] else []
  }

  /** What each side has of a key: the legacy side as of the watermark. */
  function LeftOf(n: Night, k: string): Option<seq<string>>
    requires Compares(n)
  {
    if k in n.ts.pg && n.ts.pg[k].stamp <= n.ts.mark.value then Some(n.ts.pg[k].values) else None
  }

  function RightOf(n: Night, k: string): Option<seq<string>>
    requires Compares(n)
  {
    if k in Final(n.ts.raw) then Some(Final(n.ts.raw)[k].values) else None
  }

  lemma SourceCopies(n: Night, k: string)
    requires Compares(n)
    ensures Copies(Source(n), k) == One(k, LeftOf(n, k))
  {
    LegacyCopies(n.ts.pg, n.left, n.ts.mark.value, k);
  }

  lemma TargetCopies(n: Night, k: string)
    requires Compares(n)
    ensures Copies(Target(n), k) == One(k, RightOf(n, k))
  {
    FinalCopies(Final(n.ts.raw), n.right, k);
  }

  lemma LegacyChanged(n: Night, k: string)
    requires Compares(n)
    ensures k in ChangedKeys(Legacy(n), n.ts.mark) <==> k in n.ts.pg && n.ts.pg[k].stamp > n.ts.mark.value
  {
    LegacyChanges(n.ts.pg, n.left, n.ts.mark.value, k);
  }

  lemma ShownByKey(n: Night, k: string)
    requires Compares(n)
    ensures Shows(n)(k)
         == Show(k, One(k, LeftOf(n, k)), One(k, RightOf(n, k)), k in n.ts.pg && n.ts.pg[k].stamp > n.ts.mark.value, n.names)
  {
    SourceCopies(n, k);
    TargetCopies(n, k);
    LegacyChanged(n, k);
  }

  // -- Clean exactly when copied ---------------------------------------------------------

  ghost predicate Clean(f: Findings) {
    f.missing == [] && f.extra == [] && f.duplicates == [] && f.cells == []
  }

  lemma NothingButInFlight(show: string -> Finding, keys: seq<string>)
    requires ShowsItsOwn(show)
    ensures Clean(Collect(show, keys)) <==> forall k :: k in keys ==> show(k) == Same || show(k) == InFlight
    ensures Clean(Collect(show, keys)) ==> Accounted(Collect(show, keys)) == |Collect(show, keys).inFlight|
  {
    CollectMeans(show, keys);
    var f := Collect(show, keys);
    assert f.missing == [] || f.missing[0] in f.missing;
    assert f.extra == [] || f.extra[0] in f.extra;
    assert f.duplicates == [] || f.duplicates[0] in f.duplicates;
    assert f.cells == [] || f.cells[0] in f.cells;
    if k :| k in keys && show(k) != Same && show(k) != InFlight {
      match show(k) {
        case Missing => assert k in f.missing;
        case Extra => assert k in f.extra;
        case Duplicate(a, b) => assert DuplicateKey(k, a, b) in f.duplicates;
        case Cells(cells) => assert cells[0] in f.cells;
      }
    }
  }

  /** What is copied of a key, and what is still on its way. */
  ghost predicate KeyAgrees(ts: TableState, k: string)
    requires ts.mark.Some?
  {
    && (k in ts.pg && ts.pg[k].stamp <= ts.mark.value
        ==> k in Final(ts.raw) && Final(ts.raw)[k].values == ts.pg[k].values)
    && (k in Final(ts.raw) ==> k in ts.pg)
  }

  ghost predicate KeyInFlight(ts: TableState, k: string)
    requires ts.mark.Some?
  {
    k in Final(ts.raw) && k in ts.pg && ts.pg[k].stamp > ts.mark.value
  }

  lemma ShownAs(n: Night, k: string)
    requires Compares(n)
    ensures Shows(n)(k) == Same || Shows(n)(k) == InFlight <==> KeyAgrees(n.ts, k)
    ensures Shows(n)(k) == InFlight <==> KeyInFlight(n.ts, k)
  {
    ShownByKey(n, k);
    ShowOne(k, LeftOf(n, k), RightOf(n, k), k in n.ts.pg && n.ts.pg[k].stamp > n.ts.mark.value, n.names);
  }

  /** A key that shows anything is on one of the sides. */
  lemma KeyIsShown(n: Night, k: string)
    requires Compares(n) && k !in KeysOf(Source(n)) + KeysOf(Target(n))
    ensures Shows(n)(k) == Same
  {
    KeyHasCopies(Source(n), k);
    KeyHasCopies(Target(n), k);
  }

  /** Comparing the two tables whole shows nothing but rows in flight exactly when the copy agrees up to the watermark. */
  lemma CleanExactlyWhenCopied(n: Night)
    requires Compares(n)
    ensures Clean(WholeOf(n)) <==> forall k :: KeyAgrees(n.ts, k)
    ensures forall k :: k in WholeOf(n).inFlight <==> KeyInFlight(n.ts, k)
  {
    var show, all := Shows(n), KeysOf(Source(n)) + KeysOf(Target(n));
    forall k
      ensures show(k) == Same || show(k) == InFlight <==> KeyAgrees(n.ts, k)
      ensures show(k) == InFlight <==> KeyInFlight(n.ts, k)
      ensures k in all || show(k) == Same
    {
      ShownAs(n, k);
      if k !in all { KeyIsShown(n, k); }
    }
    ClassifyShowsItsOwn(Source(n), Target(n), ChangedKeys(Legacy(n), n.ts.mark), n.names);
    NothingButInFlight(show, Sorted(all));
    CollectMeans(show, Sorted(all));
  }

  // -- No hash can hide a row in flight ----------------------------------------------------

  lemma InFlightAreKept(show: string -> Finding, keys: seq<string>, flight: set<string>)
    requires forall k :: k in keys ==> show(k) == Same || show(k) == InFlight
    requires forall k :: k in keys ==> (k in flight <==> show(k) == InFlight)
    ensures Collect(show, keys).inFlight == Keep(keys, flight)
  {
    if keys != [] {
      var n := |keys| - 1;
      assert keys == keys[..n] + [keys[n]];
      InFlightAreKept(show, keys[..n], flight);
    }
  }

  /** Comparing fewer keys, when all show nothing but rows in flight and as many of them, finds the same. */
  lemma FewerFindTheSame(show: string -> Finding, all: set<string>, seen: set<string>)
    requires ShowsItsOwn(show) && seen <= all && Clean(Collect(show, Sorted(all)))
    requires Accounted(Collect(show, Sorted(seen))) == Accounted(Collect(show, Sorted(all)))
    ensures Collect(show, Sorted(seen)) == Collect(show, Sorted(all))
  {
    NothingButInFlight(show, Sorted(all));
    NothingButInFlight(show, Sorted(seen));
    var flight := set k | k in all && show(k) == InFlight;
    InFlightAreKept(show, Sorted(all), flight);
    InFlightAreKept(show, Sorted(seen), flight);
    SortedKept(all, flight);
    SortedKept(seen, flight);
    SameSize(seen * flight, all * flight);
    LeavingOutIsHarmlessExactlyWhenSame(show, all, seen);
  }

  /** When the whole comparison shows only rows in flight, the segmented one shows exactly those, whatever the hashes. */
  lemma CleanNeedsNoHash(h: Hashing, s: seq<Row>, t: seq<Row>, changed: set<string>, names: seq<string>, leaf: nat)
    requires 1 <= leaf <= MAX_DEPTH && Clean(Whole(s, t, changed, names))
    ensures Found(h, s, t, changed, names, leaf) == Whole(s, t, changed, names)
  {
    ClassifyShowsItsOwn(s, t, changed, names);
    FoundInLeaves(h, s, t, changed, names, leaf);
    RowCountsAddUp(h, s, t, changed, names, leaf);
    WholeAddsUp(s, t, changed, names);
    FewerFindTheSame(Classify(s, t, changed, names), KeysOf(s) + KeysOf(t), InLeaves(h, s, t, leaf));
  }

  lemma SameSize(part: set<string>, whole: set<string>)
    requires part <= whole && |part| == |whole|
    ensures part == whole
  {
    assert |whole| == |part| + |whole - part| by { assert whole == part + (whole - part); }
  }

  lemma WholeAddsUp(s: seq<Row>, t: seq<Row>, changed: set<string>, names: seq<string>)
    ensures Accounted(Whole(s, t, changed, names)) == |t| - |s|
  {
    var all := KeysOf(s) + KeysOf(t);
    SortedAscends(all);
    AccountedRows(s, t, changed, names, Sorted(all));
    SetOfSorted(all);
    CountAll(s, all);
    CountAll(t, all);
  }

  // -- Histories ---------------------------------------------------------------------------

  /** Everything up to the watermark is copied, and the legacy side lost nothing that was. */
  ghost predicate Settled(ts: TableState) {
    && Versioned(ts) && NoneGone(ts)
    && (ts.mark.Some? ==> CopiedTo(ts, ts.mark.value))
  }

  ghost predicate NoneGone(ts: TableState) {
    forall k :: k in Final(ts.raw) ==> k in ts.pg
  }

  /** Writes come after the watermark, nothing that was copied is deleted, and a replacement, whole or stopped half way,
      reads again every row up to the watermark. */
  ghost predicate AfterTheMark(ts: TableState, a: Action) {
    match a
    case Commit(_, v) => ts.mark.Some? ==> v.stamp > ts.mark.value
    case Delete(k) => k !in Final(ts.raw)
    case Replace(until) => ts.mark.Some? ==> forall k :: k in ts.pg && ts.pg[k].stamp <= ts.mark.value ==> ts.pg[k].stamp <= until
    case Emptied => ts.mark.Some? ==> forall k :: k in ts.pg ==> ts.pg[k].stamp > ts.mark.value
    case _ => true
  }

  lemma NoneGoneByLoad(ts: TableState, since: Option<int>, until: int)
    requires NoneGone(ts)
    ensures NoneGone(ts.(raw := ts.raw + [Read(ts.pg, since, until)]))
  {
    FinalAppends(ts.raw, Read(ts.pg, since, until));
  }

  /** Any load or replacement up to at least the watermark settles a table that was kept. */
  lemma LoadSettles(ts: TableState, overlap: nat, a: Action)
    requires Kept(ts, overlap) && NoneGone(ts) && (a.Load? || a.LoadAll? || a.Replace?)
    requires ts.mark.Some? ==> a.until >= ts.mark.value
    ensures Settled(Apply(ts, overlap, a)) && Apply(ts, overlap, a).mark == Some(a.until)
  {
    if a.Replace? {
      KeptByReplace(ts, overlap, a.until);
      NoneGoneByLoad(ts.(raw := []), None, a.until);
    } else {
      KeptByLoad(ts, overlap, a);
      NoneGoneByLoad(ts, if a.Load? then Since(ts.mark, overlap) else None, a.until);
    }
  }

  lemma SettledByInsert(ts: TableState, since: Option<int>, until: int)
    requires Settled(ts) && (since.Some? ==> ts.mark.Some? && since.value <= ts.mark.value)
    ensures Settled(ts.(raw := ts.raw + [Read(ts.pg, since, until)]))
    ensures Settled(Loaded(ts, since, until))
  {
    InsertCopies(ts, since, until);
    NoneGoneByLoad(ts, since, until);
  }

  lemma SettledByCommit(ts: TableState, final: Part, key: string, v: Version)
    requires Settled(ts) && final == Final(ts.raw) && Increasing(ts, Commit(key, v))
    ensures FromCommits(final, ts.(pg := ts.pg[key := v], highest := ts.highest[key := v.stamp]))
    ensures (ts.mark.Some? ==> CopiedIn(final, ts.pg[key := v], ts.mark.value)) <==> AfterTheMark(ts, Commit(key, v))
  {
    FromCommitsStill(ts, final, key, v);
  }

  lemma SettledByReplace(ts: TableState, until: int)
    requires Settled(ts)
    ensures Settled(Loaded(ts.(raw := []), None, until)) <==> AfterTheMark(ts, Replace(until))
  {
    FinalOfOne(Read(ts.pg, None, until));
  }

  lemma SettledByRead(ts: TableState, overlap: nat, a: Action)
    requires Settled(ts) && (a.Load? || a.LoadAll? || a.Unrecorded?)
    ensures Settled(Apply(ts, overlap, a)) && AfterTheMark(ts, a)
  {
    SettledByInsert(ts, if a.LoadAll? then None else Since(ts.mark, overlap), a.until);
  }

  lemma SettledByDelete(ts: TableState, overlap: nat, a: Action)
    requires Settled(ts) && a.Delete?
    ensures Settled(Apply(ts, overlap, a)) <==> AfterTheMark(ts, a)
  {
  }

  lemma SettledByEmptied(ts: TableState, overlap: nat, a: Action)
    requires Settled(ts) && a.Emptied?
    ensures Settled(Apply(ts, overlap, a)) <==> AfterTheMark(ts, a)
  {
    assert Final([]) == map[];
  }

  /** Whatever reads alike is settled alike. */
  lemma SettledAlike(ts: TableState, raw: seq<Part>)
    requires Settled(ts) && Final(raw) == Final(ts.raw)
    ensures Settled(ts.(raw := raw))
  {
  }

  lemma SettledByMerge(ts: TableState, overlap: nat, a: Action)
    requires Settled(ts) && a.Merge?
    ensures Settled(Apply(ts, overlap, a)) && AfterTheMark(ts, a)
  {
    if a.part + 1 < |ts.raw| {
      MergesAreInvisible(ts.raw, a.part);
      SettledAlike(ts, MergeParts(ts.raw, a.part));
    }
  }

  lemma SettledByWrite(ts: TableState, overlap: nat, a: Action)
    requires Settled(ts) && Increasing(ts, a) && (a.Commit? || a.Replace?)
    ensures Settled(Apply(ts, overlap, a)) <==> AfterTheMark(ts, a)
  {
    if a.Commit? { SettledByCommit(ts, Final(ts.raw), a.key, a.version); } else { SettledByReplace(ts, a.until); }
  }

  /** An action keeps a settled table settled exactly when it comes after the mark. */
  lemma SettledExactlyAfterTheMark(ts: TableState, overlap: nat, a: Action)
    requires Settled(ts) && Increasing(ts, a)
    ensures Settled(Apply(ts, overlap, a)) <==> AfterTheMark(ts, a)
  {
    if a.Commit? || a.Replace? {
      SettledByWrite(ts, overlap, a);
    } else if a.Delete? {
      SettledByDelete(ts, overlap, a);
    } else if a.Emptied? {
      SettledByEmptied(ts, overlap, a);
    } else if a.Merge? {
      SettledByMerge(ts, overlap, a);
    } else {
      SettledByRead(ts, overlap, a);
    }
  }

  /** The actions that follow, each at the state the ones before leave. */
  ghost predicate AllAfterTheMark(ts: TableState, overlap: nat, actions: seq<Action>) {
    actions == [] ||
    (AllAfterTheMark(ts, overlap, actions[..|actions| - 1])
     && AfterTheMark(Run(ts, overlap, actions[..|actions| - 1]), actions[|actions| - 1]))
  }

  ghost predicate AlwaysSettled(ts: TableState, overlap: nat, actions: seq<Action>) {
    Settled(Run(ts, overlap, actions)) && (actions == [] || AlwaysSettled(ts, overlap, actions[..|actions| - 1]))
  }

  lemma {:induction false} MarkStays(ts: TableState, overlap: nat, actions: seq<Action>)
    requires ts.mark.Some?
    ensures Run(ts, overlap, actions).mark.Some?
  {
    if actions != [] { MarkStays(ts, overlap, actions[..|actions| - 1]); }
  }

  /** And a settled table stays settled throughout exactly when every action does. */
  lemma {:induction false} SettledThroughout(ts: TableState, overlap: nat, actions: seq<Action>)
    requires Settled(ts) && AllIncreasing(ts, overlap, actions)
    ensures AlwaysSettled(ts, overlap, actions) <==> AllAfterTheMark(ts, overlap, actions)
  {
    if actions != [] {
      var n := |actions| - 1;
      SettledThroughout(ts, overlap, actions[..n]);
      if AlwaysSettled(ts, overlap, actions[..n]) {
        SettledExactlyAfterTheMark(Run(ts, overlap, actions[..n]), overlap, actions[n]);
      }
    }
  }

  // -- End to end --------------------------------------------------------------------------

  /** A settled table compares clean: whatever the hashes, the diff finds exactly the rows still in flight. */
  lemma SettledIsClean(n: Night, h: Hashing, leaf: nat)
    requires Compares(n) && Settled(n.ts) && 1 <= leaf <= MAX_DEPTH
    ensures Clean(FoundOf(n, h, leaf))
    ensures forall k :: k in FoundOf(n, h, leaf).inFlight <==> KeyInFlight(n.ts, k)
  {
    CleanExactlyWhenCopied(n);
    forall k ensures KeyAgrees(n.ts, k) {
    }
    CleanNeedsNoHash(h, Source(n), Target(n), ChangedKeys(Legacy(n), n.ts.mark), n.names, leaf);
  }

  ghost predicate NeverDeletes(actions: seq<Action>) {
    forall a :: a in actions ==> !a.Delete?
  }

  lemma {:induction false} NoneGoneThroughout(ts: TableState, overlap: nat, actions: seq<Action>)
    requires NoneGone(ts) && NeverDeletes(actions)
    ensures NoneGone(Run(ts, overlap, actions))
  {
    if actions != [] {
      var n := |actions| - 1;
      assert actions[n] in actions && actions == actions[..n] + [actions[n]];
      NoneGoneThroughout(ts, overlap, actions[..n]);
      NoneGoneByAction(Run(ts, overlap, actions[..n]), overlap, actions[n]);
    }
  }

  lemma NoneGoneByAction(ts: TableState, overlap: nat, a: Action)
    requires NoneGone(ts) && !a.Delete?
    ensures NoneGone(Apply(ts, overlap, a))
  {
    match a {
      case Commit(k, v) =>
      case Load(until) => NoneGoneByLoad(ts, Since(ts.mark, overlap), until);
      case LoadAll(until) => NoneGoneByLoad(ts, None, until);
      case Unrecorded(until) => NoneGoneByLoad(ts, Since(ts.mark, overlap), until);
      case Replace(until) => NoneGoneByLoad(ts.(raw := []), None, until);
      case Emptied =>
      case Merge(i) => if i + 1 < |ts.raw| { MergesAreInvisible(ts.raw, i); }
    }
  }

  /** The theorem: after any timely history without deletes that ends in a load, resync or backfill, and after any
      writes stamped past the watermark, loads, skips and merges since, the comparison as of the watermark shows no
      missing, extra, duplicated or differing row, and every row only the copy has is in flight. */
  lemma TheCopyComparesClean(past: seq<Action>, load: Action, later: seq<Action>, n: Night, overlap: nat, h: Hashing, leaf: nat)
    requires AllTimely(NEW_TABLE, overlap, past) && NeverDeletes(past)
    requires load.Load? || load.LoadAll? || load.Replace?
    requires var mark := Run(NEW_TABLE, overlap, past).mark; mark.Some? ==> load.until >= mark.value
    requires var loaded := Apply(Run(NEW_TABLE, overlap, past), overlap, load);
      && AllIncreasing(loaded, overlap, later) && AllAfterTheMark(loaded, overlap, later)
      && n.ts == Run(loaded, overlap, later)
    requires Compares(n) && 1 <= leaf <= MAX_DEPTH
    ensures Clean(FoundOf(n, h, leaf))
    ensures forall k :: k in FoundOf(n, h, leaf).inFlight <==> KeyInFlight(n.ts, k)
  {
    PastSettles(past, load, overlap);
    LaterStaysSettled(Apply(Run(NEW_TABLE, overlap, past), overlap, load), later, overlap);
    SettledIsClean(n, h, leaf);
  }

  /** A timely history without deletes that ends in a load leaves the table settled. */
  lemma PastSettles(past: seq<Action>, load: Action, overlap: nat)
    requires AllTimely(NEW_TABLE, overlap, past) && NeverDeletes(past)
    requires load.Load? || load.LoadAll? || load.Replace?
    requires var mark := Run(NEW_TABLE, overlap, past).mark; mark.Some? ==> load.until >= mark.value
    ensures var loaded := Apply(Run(NEW_TABLE, overlap, past), overlap, load); Settled(loaded) && loaded.mark.Some?
  {
    TimelyIsKept(NEW_TABLE, overlap, past);
    NoneGoneThroughout(NEW_TABLE, overlap, past);
    LoadSettles(Run(NEW_TABLE, overlap, past), overlap, load);
  }

  lemma LaterStaysSettled(loaded: TableState, later: seq<Action>, overlap: nat)
    requires Settled(loaded) && loaded.mark.Some?
    requires AllIncreasing(loaded, overlap, later) && AllAfterTheMark(loaded, overlap, later)
    ensures Settled(Run(loaded, overlap, later)) && Run(loaded, overlap, later).mark.Some?
  {
    SettledThroughout(loaded, overlap, later);
    MarkStays(loaded, overlap, later);
  }

  // -- A late write ------------------------------------------------------------------------

  lemma LegacyKeysAreUnique(n: Night)
    requires Compares(n)
    ensures UniqueKeys(Source(n))
  {
    forall k ensures |Copies(Source(n), k)| <= 1 { LegacyCopies(n.ts.pg, n.left, n.ts.mark.value, k); }
  }

  /** A write that commits late shows, if no hashes collide, and no longer after the next load that catches it. */
  lemma LateCommitShowsUntilLoaded(n: Night, k: string, overlap: nat, next: Night, until: int, h: Hashing, leaf: nat)
    requires Compares(n) && k in n.ts.pg && n.ts.pg[k].stamp <= n.ts.mark.value
    requires k in Final(n.ts.raw) ==> Final(n.ts.raw)[k].values != n.ts.pg[k].values
    requires Kept(n.ts, overlap) && NoneGone(n.ts) && until >= n.ts.mark.value
    requires Compares(next) && next.ts == Apply(n.ts, overlap, Load(until))
    requires 1 <= leaf <= MAX_DEPTH && NoCollision(h, Source(n), Target(n))
    ensures !Clean(FoundOf(n, h, leaf)) && Clean(FoundOf(next, h, leaf))
  {
    assert !KeyAgrees(n.ts, k);
    CleanExactlyWhenCopied(n);
    LegacyKeysAreUnique(n);
    CompleteWithAKey(h, Source(n), Target(n), ChangedKeys(Legacy(n), n.ts.mark), n.names, leaf);
    LoadSettles(n.ts, overlap, Load(until));
    SettledIsClean(next, h, leaf);
  }
}
