/** Whether a folder's cover is as short as prefixes allow. */
module Fewest {
  import opened Ids
  import opened Starter

  // -- What prefixes allow ---------------------------------------------------------------

  /** Exact names and prefixes that match the names of a folder, and no other model. */
  ghost predicate Fits(patterns: seq<Pattern>, names: seq<string>, all: seq<string>) {
    && Prefix("") !in patterns
    && forall name :: name in all ==> (name in names <==> exists p :: p in patterns && MatchesName(p, name))
  }

  ghost predicate IsFewest(patterns: seq<Pattern>, names: seq<string>, all: seq<string>) {
    Fits(patterns, names, all) && forall other :: Fits(other, names, all) ==> |patterns| <= |other|
  }

  /** One prefix could match the two names and nothing outside the folder. */
  ghost predicate MayShare(names: seq<string>, all: seq<string>, a: string, b: string) {
    Shared(a, b) != "" && !CatchesOutside(Shared(a, b), all, names)
  }

  /** At some depth the two are in one group, and what that group shares matches nothing outside the group. */
  ghost predicate SettledTogether(names: seq<string>, all: seq<string>, a: string, b: string) {
    exists d: nat :: SettlesAt(names, all, d, a, b)
  }

  ghost predicate SettlesAt(names: seq<string>, all: seq<string>, d: nat, a: string, b: string) {
    a in Together(names, d, a) && b in Together(names, d, a) && !SplitsAt(names, all, d, a)
  }

  // -- Counting matches ------------------------------------------------------------------

  lemma {:induction false} CountsMatches(patterns: seq<Pattern>, name: string)
    ensures Count(patterns, name) > 0 <==> exists p :: p in patterns && MatchesName(p, name)
  {
    if patterns != [] {
      var rest, last := patterns[..|patterns| - 1], patterns[|patterns| - 1];
      assert patterns == rest + [last];
      CountsMatches(rest, name);
    }
  }

  lemma {:induction false} MatchedAt(patterns: seq<Pattern>, name: string, i: nat)
    requires i < |patterns| && MatchesName(patterns[i], name)
    ensures Count(patterns, name) >= 1
  {
    if i < |patterns| - 1 { MatchedAt(patterns[..|patterns| - 1], name, i); }
  }

  lemma {:induction false} MatchedTwice(patterns: seq<Pattern>, name: string, i: nat, j: nat)
    requires i < j < |patterns| && MatchesName(patterns[i], name) && MatchesName(patterns[j], name)
    ensures Count(patterns, name) >= 2
  {
    var rest := patterns[..|patterns| - 1];
    if j < |rest| { MatchedTwice(rest, name, i, j); } else { MatchedAt(rest, name, i); }
  }

  lemma OneMatch(patterns: seq<Pattern>, name: string, i: nat, j: nat)
    requires i < |patterns| && j < |patterns| && MatchesName(patterns[i], name) && MatchesName(patterns[j], name)
    requires Count(patterns, name) <= 1
    ensures i == j
  {
    if i < j { MatchedTwice(patterns, name, i, j); }
    if j < i { MatchedTwice(patterns, name, j, i); }
  }

  // -- What the patterns of a cover are --------------------------------------------------

  ghost predicate IsShared(names: seq<string>, all: seq<string>, d: nat, c: string, prefix: string) {
    var group := Together(names, d, c);
    group != [] && prefix == CommonPrefix(group) && !CatchesOutside(prefix, all, group)
  }

  /** A name, or what a group shares when nothing outside the group starts with it. */
  ghost predicate IsOne(names: seq<string>, all: seq<string>, p: Pattern) {
    match p
    case Exact(name) => name in names
    case Prefix(prefix) => prefix != "" && exists d: nat, c :: IsShared(names, all, d, c, prefix)
  }

  ghost predicate AreOnes(names: seq<string>, all: seq<string>, patterns: seq<Pattern>) {
    forall p :: p in patterns ==> IsOne(names, all, p)
  }

  lemma {:induction false} ExactsAre(names: seq<string>, p: Pattern)
    requires p in Exacts(names)
    ensures p.Exact? && p.name in names
  {
    var n := |names| - 1;
    assert names == names[..n] + [names[n]];
    if p != Exact(names[n]) { ExactsAre(names[..n], p); }
  }

  lemma SettledAreOnes(names: seq<string>, all: seq<string>, depth: nat, a: string)
    requires Together(names, depth, a) != [] && Step(Together(names, depth, a), all, depth).Settled?
    ensures AreOnes(names, all, Step(Together(names, depth, a), all, depth).patterns)
  {
    var group := Together(names, depth, a);
    forall n | n in group ensures n in names { InTogether(names, depth, a, n); }
    var patterns := Step(group, all, depth).patterns;
    forall p | p in patterns ensures IsOne(names, all, p) {
      if p.Prefix? {
        SettledPrefix(group, all, depth, p.prefix);
        assert IsShared(names, all, depth, a, p.prefix);
      } else {
        SettledName(group, all, depth, p.name);
      }
    }
  }

  lemma SettledPrefix(group: seq<string>, all: seq<string>, depth: nat, prefix: string)
    requires group != [] && Step(group, all, depth).Settled? && Prefix(prefix) in Step(group, all, depth).patterns
    ensures prefix != "" && prefix == CommonPrefix(group) && !CatchesOutside(prefix, all, group)
  {
    if !(CommonPrefix(group) != "" && !CatchesOutside(CommonPrefix(group), all, group)) && |group| > 1 {
      ExactsAre(Sorted(set n | n in group), Prefix(prefix));
    }
  }

  lemma SettledName(group: seq<string>, all: seq<string>, depth: nat, name: string)
    requires group != [] && Step(group, all, depth).Settled? && Exact(name) in Step(group, all, depth).patterns
    ensures name in group
  {
    if |group| > 1 { ExactsAre(Sorted(set n | n in group), Exact(name)); }
  }

  /** The cover of a group: of the names alike in `depth` tokens with `a`. */
  lemma {:induction false} CoverAreOnes(names: seq<string>, all: seq<string>, depth: nat, a: string, fuel: nat)
    requires Together(names, depth, a) != [] && Cover(Together(names, depth, a), all, depth, fuel).Some?
    ensures AreOnes(names, all, Cover(Together(names, depth, a), all, depth, fuel).value)
    decreases fuel, 2, 0
  {
    var group := Together(names, depth, a);
    match Step(group, all, depth) {
      case Settled(_) => SettledAreOnes(names, all, depth, a);
      case Split =>
        SplitIsByKeys(group, all, depth, fuel);
        KeysAreOnes(names, all, depth, a, group, Sorted(Keys(group, depth + 1)), fuel);
    }
  }

  lemma {:induction false} KeysAreOnes(names: seq<string>, all: seq<string>, depth: nat, a: string, group: seq<string>,
                                       keys: seq<string>, fuel: nat)
    requires group == Together(names, depth, a) && fuel > 0 && AreKeys(keys, Keys(group, depth + 1))
    requires CoverKeys(group, all, depth, keys, fuel).Some?
    ensures AreOnes(names, all, CoverKeys(group, all, depth, keys, fuel).value)
    decreases fuel, 1, |keys|
  {
    if keys == [] {
      NoKeys(group, all, depth, fuel);
    } else {
      var rest, key := keys[..|keys| - 1], keys[|keys| - 1];
      LastKey(group, all, depth, keys, fuel);
      KeysAreOnes(names, all, depth, a, group, rest, fuel);
      KeyAreOnes(names, all, depth, a, group, key, fuel);
      OnesOfBoth(names, all, CoverKeys(group, all, depth, rest, fuel).value, GroupCover(group, all, depth, key, fuel).value);
    }
  }

  lemma {:induction false} KeyAreOnes(names: seq<string>, all: seq<string>, depth: nat, a: string, group: seq<string>, key: string,
                                      fuel: nat)
    requires group == Together(names, depth, a) && fuel > 0 && key in Keys(group, depth + 1)
    requires GroupCover(group, all, depth, key, fuel).Some?
    ensures AreOnes(names, all, GroupCover(group, all, depth, key, fuel).value)
    decreases fuel, 0, 0
  {
    var n := GroupOfKey(names, all, depth, a, key, fuel);
    CoverAreOnes(names, all, depth + 1, n, fuel - 1);
  }

  lemma NoKeys(group: seq<string>, all: seq<string>, depth: nat, fuel: nat)
    requires fuel > 0 && AreKeys([], Keys(group, depth + 1))
    ensures CoverKeys(group, all, depth, [], fuel) == Some([])
  {
  }

  lemma LastKey(group: seq<string>, all: seq<string>, depth: nat, keys: seq<string>, fuel: nat)
    requires keys != [] && fuel > 0 && AreKeys(keys, Keys(group, depth + 1)) && CoverKeys(group, all, depth, keys, fuel).Some?
    ensures var rest, key := keys[..|keys| - 1], keys[|keys| - 1];
      && key in Keys(group, depth + 1) && AreKeys(rest, Keys(group, depth + 1))
      && CoverKeys(group, all, depth, rest, fuel).Some? && GroupCover(group, all, depth, key, fuel).Some?
      && CoverKeys(group, all, depth, keys, fuel).value
         == CoverKeys(group, all, depth, rest, fuel).value + GroupCover(group, all, depth, key, fuel).value
  {
  }

  lemma OnesOfBoth(names: seq<string>, all: seq<string>, a: seq<Pattern>, b: seq<Pattern>)
    requires AreOnes(names, all, a) && AreOnes(names, all, b)
    ensures AreOnes(names, all, a + b)
  {
  }

  /** The group of a key is that of one of its names, a token deeper. */
  lemma GroupOfKey(names: seq<string>, all: seq<string>, depth: nat, a: string, key: string, fuel: nat) returns (n: string)
    requires fuel > 0 && key in Keys(Together(names, depth, a), depth + 1)
    ensures TokenPrefix(n, depth + 1) == key && n in names && Together(names, depth + 1, n) != []
    ensures GroupCover(Together(names, depth, a), all, depth, key, fuel) == Cover(Together(names, depth + 1, n), all, depth + 1, fuel - 1)
  {
    n := NameOfKey(names, depth, a, key);
    GroupIsTogether(names, all, depth, n, fuel);
    assert Together(names, depth, a) == Together(names, depth, n);
  }

  // -- Names that are settled together ---------------------------------------------------

  ghost predicate MatchBoth(patterns: seq<Pattern>, a: string, b: string) {
    exists p :: p in patterns && MatchesName(p, a) && MatchesName(p, b)
  }

  lemma {:induction false} InCover(names: seq<string>, all: seq<string>, depth: nat, keys: seq<string>, fuel: nat, key: string)
    requires fuel > 0 && AreKeys(keys, Keys(names, depth + 1)) && key in keys && key in Keys(names, depth + 1)
    requires CoverKeys(names, all, depth, keys, fuel).Some?
    ensures GroupCover(names, all, depth, key, fuel).Some?
    ensures forall p :: p in GroupCover(names, all, depth, key, fuel).value ==> p in CoverKeys(names, all, depth, keys, fuel).value
  {
    if key != keys[|keys| - 1] { InCover(names, all, depth, keys[..|keys| - 1], fuel, key); }
  }

  lemma SettledMatchBoth(group: seq<string>, all: seq<string>, depth: nat, a: string, b: string)
    requires group != [] && a in group && b in group && a != b && Step(group, all, depth).Settled?
    ensures MatchBoth(Step(group, all, depth).patterns, a, b)
  {
    TwoAreMany(group, a, b);
    var prefix := CommonPrefix(group);
    if prefix != "" && !CatchesOutside(prefix, all, group) {
      assert Prefix(prefix) in [Prefix(prefix)];
    } else {
      KeyOf(group, depth + 1, a);
      KeyOf(group, depth + 1, b);
      OnlyKey(Keys(group, depth + 1), a, b);
    }
  }

  lemma OnlyKey(keys: set<string>, a: string, b: string)
    requires |keys| == 1 && a in keys && b in keys
    ensures a == b
  {
    assert |keys - {a}| == 0;
    assert b !in keys - {a};
  }

  lemma StillTogether(names: seq<string>, d: nat, e: nat, a: string, b: string)
    requires d <= e && b in Together(names, e, a)
    ensures TokenPrefix(b, d) == TokenPrefix(a, d) && b in Together(names, d, a)
  {
    InTogether(names, e, a, b);
    InTogether(names, d, a, b);
    PrefixesNest(a, b, e, d);
  }

  /** Names settled together stay together until one pattern matches both. */
  lemma {:induction false} StayTogether(names: seq<string>, all: seq<string>, depth: nat, a: string, b: string, d: nat, fuel: nat)
    requires a != b && depth <= d && SettlesAt(names, all, d, a, b)
    requires Together(names, depth, a) != [] && Cover(Together(names, depth, a), all, depth, fuel).Some?
    ensures MatchBoth(Cover(Together(names, depth, a), all, depth, fuel).value, a, b)
    decreases fuel
  {
    var group := Together(names, depth, a);
    StillTogether(names, depth, d, a, a);
    StillTogether(names, depth, d, a, b);
    match Step(group, all, depth) {
      case Settled(_) => SettledMatchBoth(group, all, depth, a, b);
      case Split =>
        SplitMeansSplits(group, all, depth);
        InTogether(names, depth, a, a);
        GroupIsTogether(names, all, depth, a, fuel);
        GoesOnTogether(names, all, depth, a, b, d, fuel);
    }
  }

  lemma {:induction false} GoesOnTogether(names: seq<string>, all: seq<string>, depth: nat, a: string, b: string, d: nat, fuel: nat)
    requires a != b && depth < d && SettlesAt(names, all, d, a, b) && a in names && fuel > 0
    requires Together(names, depth, a) != [] && Cover(Together(names, depth, a), all, depth, fuel).Some?
    requires Step(Together(names, depth, a), all, depth).Split?
    ensures MatchBoth(Cover(Together(names, depth, a), all, depth, fuel).value, a, b)
    decreases fuel, 0
  {
    var below := GroupIn(names, all, depth, a, fuel);
    StayTogether(names, all, depth + 1, a, b, d, fuel - 1);
    var p :| p in below && MatchesName(p, a) && MatchesName(p, b);
  }

  /** The patterns of a name's group, a token deeper, are among those of its group. */
  lemma GroupIn(names: seq<string>, all: seq<string>, depth: nat, a: string, fuel: nat) returns (below: seq<Pattern>)
    requires a in names && fuel > 0
    requires Together(names, depth, a) != [] && Cover(Together(names, depth, a), all, depth, fuel).Some?
    requires Step(Together(names, depth, a), all, depth).Split?
    ensures Together(names, depth + 1, a) != []
    ensures Cover(Together(names, depth + 1, a), all, depth + 1, fuel - 1) == Some(below)
    ensures forall p :: p in below ==> p in Cover(Together(names, depth, a), all, depth, fuel).value
  {
    var group, key := Together(names, depth, a), TokenPrefix(a, depth + 1);
    GroupIsTogether(names, all, depth, a, fuel);
    SplitIsByKeys(group, all, depth, fuel);
    InCover(group, all, depth, Sorted(Keys(group, depth + 1)), fuel, key);
    below := GroupCover(group, all, depth, key, fuel).value;
  }

  /** And two names one pattern matches are settled together. */
  lemma MatchedTogether(names: seq<string>, all: seq<string>, p: Pattern, a: string, b: string)
    requires a in all && b in all && a != b && IsOne(names, all, p) && MatchesName(p, a) && MatchesName(p, b)
    ensures SettledTogether(names, all, a, b)
  {
    var d: nat, c :| IsShared(names, all, d, c, p.prefix);
    InTogether(names, d, c, a);
    InTogether(names, d, c, b);
    assert a in Together(names, d, c) && b in Together(names, d, c);
    assert Together(names, d, a) == Together(names, d, c);
    assert SettlesAt(names, all, d, a, b);
  }

  // -- A shorter list --------------------------------------------------------------------

  lemma {:induction false} SharedIsLongest(a: string, b: string, p: string)
    requires p <= a && p <= b
    ensures p <= Shared(a, b)
  {
    if p != "" { SharedIsLongest(a[1..], b[1..], p[1..]); }
  }

  lemma PrefixesOfOne(p: string, s: string, a: string)
    requires p <= a && s <= a
    ensures p <= s || s <= p
  {
  }

  /** A cover: it fits, its patterns are such, and each name is matched once. */
  ghost predicate IsCover(names: seq<string>, all: seq<string>, cover: seq<Pattern>) {
    && AreOnes(names, all, cover)
    && forall name :: name in all ==> Count(cover, name) == if name in names then 1 else 0
  }

  lemma CoverFits(names: seq<string>, all: seq<string>, cover: seq<Pattern>)
    requires IsCover(names, all, cover)
    ensures Fits(cover, names, all)
  {
    forall name | name in all ensures name in names <==> exists p :: p in cover && MatchesName(p, name) {
      CountsMatches(cover, name);
    }
    assert !IsOne(names, all, Prefix(""));
  }

  lemma PlaceOf(cover: seq<Pattern>, name: string) returns (i: nat)
    requires Count(cover, name) > 0
    ensures i < |cover| && MatchesName(cover[i], name)
  {
    CountsMatches(cover, name);
    var p :| p in cover && MatchesName(p, name);
    i :| i < |cover| && cover[i] == p;
  }

  /** Two patterns replaced by one prefix. */
  function Merged(cover: seq<Pattern>, i: nat, j: nat, s: string): (merged: seq<Pattern>)
    requires i < |cover| && j < |cover| && i != j
    ensures |merged| == |cover| - 1
  {
    var low, high := if i < j then i else j, if i < j then j else i;
    cover[..low] + cover[low + 1..high] + cover[high + 1..] + [Prefix(s)]
  }

  lemma MergedKeeps(cover: seq<Pattern>, i: nat, j: nat, s: string, k: nat)
    requires i < |cover| && j < |cover| && k < |cover| && i != j && k != i && k != j
    ensures cover[k] in Merged(cover, i, j, s)
  {
    var low, high := if i < j then i else j, if i < j then j else i;
    if k < low {
      assert Merged(cover, i, j, s)[k] == cover[k];
    } else if k < high {
      assert Merged(cover, i, j, s)[k - 1] == cover[k];
    } else {
      assert Merged(cover, i, j, s)[k - 2] == cover[k];
    }
  }

  lemma MergedHas(cover: seq<Pattern>, i: nat, j: nat, s: string)
    requires i < |cover| && j < |cover| && i != j
    ensures Prefix(s) in Merged(cover, i, j, s)
    ensures forall p :: p in Merged(cover, i, j, s) ==> p == Prefix(s) || p in cover
  {
  }

  /** What a pattern that matches `a` and not `b` matches starts with what the two share. */
  lemma StartsShared(p: Pattern, a: string, b: string, name: string)
    requires MatchesName(p, a) && !MatchesName(p, b) && MatchesName(p, name)
    ensures Shared(a, b) <= name
  {
    if p.Prefix? { PrefixesOfOne(p.prefix, Shared(a, b), a); }
  }

  lemma {:induction false} SharedSwaps(a: string, b: string)
    ensures Shared(a, b) == Shared(b, a)
  {
    if a != "" && b != "" && a[0] == b[0] { SharedSwaps(a[1..], b[1..]); }
  }

  lemma MergedFits(names: seq<string>, all: seq<string>, cover: seq<Pattern>, a: string, b: string, i: nat, j: nat)
    requires IsCover(names, all, cover) && a in names && b in names && a in all && b in all && MayShare(names, all, a, b)
    requires i < |cover| && j < |cover| && i != j && MatchesName(cover[i], a) && MatchesName(cover[j], b)
    ensures Fits(Merged(cover, i, j, Shared(a, b)), names, all)
  {
    var s := Shared(a, b);
    var merged := Merged(cover, i, j, s);
    if MatchesName(cover[i], b) { OneMatch(cover, b, i, j); }
    if MatchesName(cover[j], a) { OneMatch(cover, a, i, j); }
    MergedHas(cover, i, j, s);
    assert !IsOne(names, all, Prefix(""));
    forall name | name in all ensures name in names <==> exists p :: p in merged && MatchesName(p, name) {
      MergedMatches(names, all, cover, a, b, i, j, name);
    }
  }

  lemma MergedMatches(names: seq<string>, all: seq<string>, cover: seq<Pattern>, a: string, b: string, i: nat, j: nat, name: string)
    requires IsCover(names, all, cover) && name in all && MayShare(names, all, a, b)
    requires i < |cover| && j < |cover| && i != j
    requires MatchesName(cover[i], a) && MatchesName(cover[j], b) && !MatchesName(cover[i], b) && !MatchesName(cover[j], a)
    ensures name in names <==> exists p :: p in Merged(cover, i, j, Shared(a, b)) && MatchesName(p, name)
  {
    var s := Shared(a, b);
    var merged := Merged(cover, i, j, s);
    MergedHas(cover, i, j, s);
    if name in names {
      var k := PlaceOf(cover, name);
      SharedSwaps(a, b);
      if k == i {
        StartsShared(cover[i], a, b, name);
      } else if k == j {
        StartsShared(cover[j], b, a, name);
      } else {
        MergedKeeps(cover, i, j, s, k);
      }
      assert MatchesName(if k == i || k == j then Prefix(s) else cover[k], name);
    } else if p :| p in merged && MatchesName(p, name) {
      if p != Prefix(s) { CountsMatches(cover, name); }
    }
  }

  // -- No shorter list -------------------------------------------------------------------

  lemma {:induction false} Pigeons(f: seq<nat>, n: nat)
    requires (forall i :: 0 <= i < |f| ==> f[i] < n) && forall i, j :: 0 <= i < j < |f| ==> f[i] != f[j]
    ensures |f| <= n
  {
    if f != [] {
      assert f[0] < n;
      if i :| 0 <= i < |f| && f[i] == n - 1 {
        var rest := f[..i] + f[i + 1..];
        assert forall k :: 0 <= k < |rest| ==> rest[k] == f[if k < i then k else k + 1];
        Pigeons(rest, n - 1);
      } else {
        Pigeons(f, n - 1);
      }
    }
  }

  /** For each of the first `k` patterns a name it matches, and the place of a pattern of the other list that does. */
  ghost predicate Chosen(cover: seq<Pattern>, other: seq<Pattern>, names: seq<string>, k: nat, chosen: seq<string>, f: seq<nat>) {
    && |chosen| == |f| == k <= |cover|
    && forall i :: 0 <= i < k ==> chosen[i] in names && MatchesName(cover[i], chosen[i])
                                  && f[i] < |other| && MatchesName(other[f[i]], chosen[i])
  }

  lemma MatchesSomeName(names: seq<string>, all: seq<string>, p: Pattern) returns (name: string)
    requires IsOne(names, all, p)
    ensures name in names && MatchesName(p, name)
  {
    match p {
      case Exact(n) => name := n;
      case Prefix(prefix) =>
        var d: nat, c :| IsShared(names, all, d, c, prefix);
        name := Together(names, d, c)[0];
        InTogether(names, d, c, name);
    }
  }

  lemma {:induction false} Choose(names: seq<string>, all: seq<string>, cover: seq<Pattern>, other: seq<Pattern>, k: nat)
    returns (chosen: seq<string>, f: seq<nat>)
    requires k <= |cover| && AreOnes(names, all, cover) && Fits(other, names, all) && forall name :: name in names ==> name in all
    ensures Chosen(cover, other, names, k, chosen, f)
  {
    if k == 0 {
      chosen, f := [], [];
    } else {
      chosen, f := Choose(names, all, cover, other, k - 1);
      var name := MatchesSomeName(names, all, cover[k - 1]);
      var p :| p in other && MatchesName(p, name);
      var i: nat :| i < |other| && other[i] == p;
      chosen, f := chosen + [name], f + [i];
    }
  }

  /** A pattern of another list matches names of two patterns of the cover only if they may share a prefix. */
  lemma BothMayShare(names: seq<string>, all: seq<string>, other: seq<Pattern>, p: Pattern, a: string, b: string)
    requires Fits(other, names, all) && p in other && a != b && MatchesName(p, a) && MatchesName(p, b)
    ensures MayShare(names, all, a, b)
  {
    SharedIsLongest(a, b, p.prefix);
    assert Prefix("") !in other;
    forall name | name in all && Shared(a, b) <= name ensures name in names {
      assert MatchesName(p, name);
    }
  }

  // -- Exactly when ----------------------------------------------------------------------

  ghost predicate AllSettled(names: seq<string>, all: seq<string>) {
    forall a, b :: a in names && b in names && a != b && MayShare(names, all, a, b) ==> SettledTogether(names, all, a, b)
  }

  ghost predicate KeptTogether(names: seq<string>, all: seq<string>, cover: seq<Pattern>) {
    forall a, b :: a in names && b in names && a != b && SettledTogether(names, all, a, b) ==> MatchBoth(cover, a, b)
  }

  lemma DifferentPlaces(names: seq<string>, all: seq<string>, cover: seq<Pattern>, other: seq<Pattern>, chosen: seq<string>,
                        f: seq<nat>, i: nat, j: nat)
    requires IsCover(names, all, cover) && KeptTogether(names, all, cover) && AllSettled(names, all) && Fits(other, names, all)
    requires Chosen(cover, other, names, |cover|, chosen, f) && i < j < |cover| && forall name :: name in names ==> name in all
    ensures f[i] != f[j]
  {
    var a, b := chosen[i], chosen[j];
    if a == b { OneMatch(cover, a, i, j); }
    if f[i] == f[j] {
      BothMayShare(names, all, other, other[f[i]], a, b);
      var p :| p in cover && MatchesName(p, a) && MatchesName(p, b);
      var k :| 0 <= k < |cover| && cover[k] == p;
      OneMatch(cover, a, i, k);
      OneMatch(cover, b, j, k);
    }
  }

  lemma NoShorter(names: seq<string>, all: seq<string>, cover: seq<Pattern>, other: seq<Pattern>)
    requires IsCover(names, all, cover) && KeptTogether(names, all, cover) && AllSettled(names, all) && Fits(other, names, all)
    requires forall name :: name in names ==> name in all
    ensures |cover| <= |other|
  {
    var chosen, f := Choose(names, all, cover, other, |cover|);
    forall i: nat, j: nat | i < j < |f| ensures f[i] != f[j] {
      DifferentPlaces(names, all, cover, other, chosen, f, i, j);
    }
    Pigeons(f, |other|);
  }

  lemma Shorter(names: seq<string>, all: seq<string>, cover: seq<Pattern>, a: string, b: string) returns (other: seq<Pattern>)
    requires IsCover(names, all, cover) && a in names && b in names && a in all && b in all && a != b
    requires MayShare(names, all, a, b) && !SettledTogether(names, all, a, b)
    ensures Fits(other, names, all) && |other| < |cover|
  {
    var i := PlaceOf(cover, a);
    var j := PlaceOf(cover, b);
    if i == j { MatchedTogether(names, all, cover[i], a, b); }
    MergedFits(names, all, cover, a, b, i, j);
    other := Merged(cover, i, j, Shared(a, b));
  }

  lemma CoveredIs(names: seq<string>, all: seq<string>)
    requires names != [] && Covered(names, all).Some?
    ensures IsCover(names, all, Covered(names, all).value) && KeptTogether(names, all, Covered(names, all).value)
  {
    var fuel := Deepest(names) + 1;
    var cover := Cover(names, all, 0, fuel).value;
    AllTogether(names, names[0]);
    CoverAreOnes(names, all, 0, names[0], fuel);
    forall name | name in all ensures Count(cover, name) == if name in names then 1 else 0 {
      CoversExactly(names, all, 0, fuel, name);
    }
    forall a, b | a in names && b in names && a != b && SettledTogether(names, all, a, b) ensures MatchBoth(cover, a, b) {
      var d: nat :| SettlesAt(names, all, d, a, b);
      AllTogether(names, a);
      StayTogether(names, all, 0, a, b, d, fuel);
    }
  }

  /** The theorem: the cover is as short as prefixes allow exactly when any two names that may share a prefix are settled
    * together. */
  lemma FewestExactlyWhenSettled(names: seq<string>, all: seq<string>)
    requires names != [] && Covered(names, all).Some? && forall name :: name in names ==> name in all
    ensures IsFewest(Covered(names, all).value, names, all) <==> AllSettled(names, all)
  {
    var cover := Covered(names, all).value;
    CoveredIs(names, all);
    CoverFits(names, all, cover);
    if AllSettled(names, all) {
      forall other | Fits(other, names, all) ensures |cover| <= |other| { NoShorter(names, all, cover, other); }
    } else {
      var a, b :| a in names && b in names && a != b && MayShare(names, all, a, b) && !SettledTogether(names, all, a, b);
      var other := Shorter(names, all, cover, a, b);
    }
  }

  // -- Where it is not -------------------------------------------------------------------

  lemma {:induction false} OneToken(s: string)
    requires '_' !in s
    ensures RestFrom(s, true) == ""
  {
    if s != "" { OneToken(s[1..]); }
  }

  lemma IsItsFirstToken(name: string, d: nat)
    requires '_' !in name && d > 0
    ensures TokenPrefix(name, d) == name
  {
    OneToken(name);
    assert name != "" ==> name[0] in name;
    assert Stripped(name) == name;
    assert Tokens("") == 0;
    assert Tokens(name) <= 1;
    TakeAll(name, d);
  }

  /** Names of one token each are never in one group: where the folder splits, no prefix they may share is used. */
  lemma OneTokenNamesSplit(names: seq<string>, all: seq<string>, a: string, b: string)
    requires names != [] && Covered(names, all).Some? && forall name :: name in names ==> name in all
    requires a in names && b in names && a != b && '_' !in a && '_' !in b
    requires MayShare(names, all, a, b) && Splits(names, all)
    ensures !IsFewest(Covered(names, all).value, names, all)
  {
    FewestExactlyWhenSettled(names, all);
    forall d: nat ensures !SettlesAt(names, all, d, a, b) {
      if d == 0 {
        AllTogether(names, a);
      } else {
        IsItsFirstToken(a, d);
        IsItsFirstToken(b, d);
        InTogether(names, d, a, b);
      }
    }
    assert !SettledTogether(names, all, a, b);
  }

  /** "ab", "ac" and "d" get a pattern each, where "a*" and "d" would do. */
  lemma TwoWouldDo()
    ensures var names := ["ab", "ac", "d"];
      Covered(names, names).Some? && !IsFewest(Covered(names, names).value, names, names)
  {
    var names := ["ab", "ac", "d"];
    Three("ab", "ac", "d");
    SharedFirst();
    PlainEnds(names, names);
    OneTokenNamesSplit(names, names, "ab", "ac");
  }

  lemma Three(a: string, b: string, c: string)
    requires a != b && b != c && a != c
    ensures NoRepeats([a, b, c]) && CommonPrefix([a, b, c]) == Shared(Shared(a, b), c)
  {
    assert [a, b, c][..2] == [a, b] && [a, b][..1] == [a] && [a][..0] == [];
    assert NoRepeats([a]) && NoRepeats([a, b]);
    assert CommonPrefix([a]) == a && CommonPrefix([a, b]) == Shared(a, b);
  }

  lemma SharedFirst()
    ensures Shared("ab", "ac") == "a" && Shared("a", "d") == ""
  {
    assert "ab"[1..] == "b" && "ac"[1..] == "c" && Shared("b", "c") == "";
  }
}
