/** A starter registry: a folder's models covered by name prefixes that match nothing outside it. */
module Starter {
  import opened Ids

  // -- Name tokens -----------------------------------------------------------------------

  /** What follows a token, in its part or already in the underscores after it. */
  function RestFrom(s: string, part: bool): (rest: string)
    ensures rest != "" ==> rest[0] != '_'
    ensures |rest| <= |s| && (s != "" && part ==> |rest| < |s|)
  {
    if s == "" then ""
    else if s[0] == '_' then RestFrom(s[1..], false)
    else if part then RestFrom(s[1..], true)
    else s
  }

  /** The token itself: a part, with the underscores after it. */
  function TokenFrom(s: string, part: bool): string {
    if s == "" then ""
    else if s[0] == '_' then ['_'] + TokenFrom(s[1..], false)
    else if part then [s[0]] + TokenFrom(s[1..], true)
    else ""
  }

  function Stripped(name: string): (s: string)
    ensures s != "" ==> s[0] != '_'
  {
    RestFrom(name, false)
  }

  function Take(s: string, tokens: nat): string
    decreases |s|
  {
    if tokens == 0 || s == "" then "" else TokenFrom(s, true) + Take(RestFrom(s, true), tokens - 1)
  }

  function Tokens(s: string): nat
    decreases |s|
  {
    if s == "" then 0 else 1 + Tokens(RestFrom(s, true))
  }

  /** The first tokens of a name; underscores before the first are dropped. */
  function TokenPrefix(name: string, tokens: nat): string {
    Take(Stripped(name), tokens)
  }

  lemma {:induction false} TokenAndRest(s: string, part: bool)
    ensures s == TokenFrom(s, part) + RestFrom(s, part)
  {
    if s != "" && (s[0] == '_' || part) { TokenAndRest(s[1..], s[0] != '_'); }
  }

  lemma {:induction false} TakeAll(s: string, tokens: nat)
    requires tokens >= Tokens(s)
    ensures Take(s, tokens) == s
    decreases |s|
  {
    if s != "" {
      TakeAll(RestFrom(s, true), tokens - 1);
      TokenAndRest(s, true);
    }
  }

  lemma {:induction false} TakeIsPrefix(s: string, tokens: nat)
    ensures Take(s, tokens) <= s
    decreases |s|
  {
    if tokens > 0 && s != "" {
      TakeIsPrefix(RestFrom(s, true), tokens - 1);
      TokenAndRest(s, true);
    }
  }

  lemma FirstOf(c: char, token: string, y: string)
    ensures var t := [c] + token + y; t != "" && t[0] == c && t[1..] == token + y
  {
  }

  /** A token before the start of what followed it is the token again. */
  lemma {:induction false} TokenAgain(s: string, part: bool, y: string)
    requires y <= RestFrom(s, part)
    ensures var t := TokenFrom(s, part) + y; TokenFrom(t, part) == TokenFrom(s, part) && RestFrom(t, part) == y
  {
    if s != "" && (s[0] == '_' || part) {
      TokenAgain(s[1..], s[0] != '_', y);
      FirstOf(s[0], TokenFrom(s[1..], s[0] != '_'), y);
    }
  }

  /** The first tokens of the first tokens. */
  lemma {:induction false} TakeTake(s: string, more: nat, tokens: nat)
    requires tokens <= more
    ensures Take(Take(s, more), tokens) == Take(s, tokens)
    decreases |s|
  {
    if tokens > 0 && s != "" {
      var y := Take(RestFrom(s, true), more - 1);
      TakeIsPrefix(RestFrom(s, true), more - 1);
      TokenAgain(s, true, y);
      TakeTake(RestFrom(s, true), more - 1, tokens - 1);
    }
  }

  /** Names alike in more tokens are alike in fewer. */
  lemma PrefixesNest(a: string, b: string, more: nat, tokens: nat)
    requires tokens <= more && TokenPrefix(a, more) == TokenPrefix(b, more)
    ensures TokenPrefix(a, tokens) == TokenPrefix(b, tokens)
  {
    TakeTake(Stripped(a), more, tokens);
    TakeTake(Stripped(b), more, tokens);
  }

  function Deepest(names: seq<string>): (n: nat)
    ensures forall name :: name in names ==> Tokens(Stripped(name)) <= n
  {
    if names == [] then 0
    else
      var before, last := Deepest(names[..|names| - 1]), Tokens(Stripped(names[|names| - 1]));
      if before < last then last else before
  }

  // -- Shared prefixes -------------------------------------------------------------------

  function Shared(a: string, b: string): (p: string)
    ensures p <= a && p <= b
  {
    if a == "" || b == "" || a[0] != b[0] then "" else [a[0]] + Shared(a[1..], b[1..])
  }

  function CommonPrefix(names: seq<string>): (p: string)
    requires names != []
    ensures forall name :: name in names ==> p <= name
  {
    var n := |names| - 1;
    if n == 0 then names[0]
    else
      var before := CommonPrefix(names[..n]);
      assert forall name :: name in names ==> name in names[..n] || name == names[n];
      assert Shared(before, names[n]) <= before;
      Shared(before, names[n])
  }

  // -- Patterns --------------------------------------------------------------------------

  /** A rule's pattern, without the part every model of the project shares. */
  datatype Pattern = Exact(name: string) | Prefix(prefix: string)

  predicate MatchesName(p: Pattern, name: string) {
    match p
    case Exact(n) => n == name
    case Prefix(prefix) => prefix <= name
  }

  function Count(patterns: seq<Pattern>, name: string): nat {
    if patterns == [] then 0
    else Count(patterns[..|patterns| - 1], name) + if MatchesName(patterns[|patterns| - 1], name) then 1 else 0
  }

  lemma {:induction false} CountAdds(a: seq<Pattern>, b: seq<Pattern>, name: string)
    ensures Count(a + b, name) == Count(a, name) + Count(b, name)
  {
    if b == [] {
      assert a + b == a;
    } else {
      CountAdds(a, b[..|b| - 1], name);
      assert (a + b)[..|a + b| - 1] == a + b[..|b| - 1];
    }
  }

  // -- The cover -------------------------------------------------------------------------

  /** The names with one token prefix, in order. */
  function Within(names: seq<string>, tokens: nat, key: string): seq<string> {
    if names == [] then []
    else
      var rest, last := Within(names[..|names| - 1], tokens, key), names[|names| - 1];
      if TokenPrefix(last, tokens) == key then rest + [last] else rest
  }

  function Keys(names: seq<string>, tokens: nat): set<string> {
    if names == [] then {} else Keys(names[..|names| - 1], tokens) + {TokenPrefix(names[|names| - 1], tokens)}
  }

  lemma {:induction false} KeyOf(names: seq<string>, tokens: nat, name: string)
    requires name in names
    ensures TokenPrefix(name, tokens) in Keys(names, tokens)
  {
    var n := |names| - 1;
    assert names == names[..n] + [names[n]];
    if name != names[n] { KeyOf(names[..n], tokens, name); }
  }

  lemma {:induction false} KeyHasName(names: seq<string>, tokens: nat, key: string) returns (name: string)
    requires key in Keys(names, tokens)
    ensures name in names && TokenPrefix(name, tokens) == key
  {
    var n := |names| - 1;
    if key == TokenPrefix(names[n], tokens) {
      name := names[n];
    } else {
      name := KeyHasName(names[..n], tokens, key);
    }
  }

  lemma {:induction false} InGroup(names: seq<string>, tokens: nat, key: string, name: string)
    ensures name in Within(names, tokens, key) <==> name in names && TokenPrefix(name, tokens) == key
  {
    if names != [] {
      var n := |names| - 1;
      InGroup(names[..n], tokens, key, name);
      assert names == names[..n] + [names[n]];
    }
  }

  lemma {:induction false} WithinHasNoRepeats(names: seq<string>, tokens: nat, key: string)
    requires NoRepeats(names)
    ensures NoRepeats(Within(names, tokens, key))
  {
    if names != [] {
      var n := |names| - 1;
      var before := Within(names[..n], tokens, key);
      WithinHasNoRepeats(names[..n], tokens, key);
      InGroup(names[..n], tokens, key, names[n]);
      assert (before + [names[n]])[..|before|] == before;
    }
  }

  predicate CatchesOutside(prefix: string, all: seq<string>, names: seq<string>) {
    exists name :: name in all && name !in names && prefix <= name
  }

  function Exacts(names: seq<string>): seq<Pattern> {
    if names == [] then [] else Exacts(names[..|names| - 1]) + [Exact(names[|names| - 1])]
  }

  /** What one call does: settles its names, or splits them by one more token. */
  datatype Outcome = Settled(patterns: seq<Pattern>) | Split

  function Step(names: seq<string>, all: seq<string>, depth: nat): Outcome
    requires names != []
  {
    if |names| == 1 then Settled([Exact(names[0])])
    else
      var prefix := CommonPrefix(names);
      if prefix != "" && !CatchesOutside(prefix, all, names) then Settled([Prefix(prefix)])
      else if |Keys(names, depth + 1)| == 1 && (forall name :: name in names ==> TokenPrefix(name, depth + 1) == name)
      then Settled(Exacts(Sorted(set name | name in names)))
      else Split
  }

  ghost predicate AreKeys(keys: seq<string>, from: set<string>) {
    keys == [] || (keys[|keys| - 1] in from && AreKeys(keys[..|keys| - 1], from))
  }

  lemma {:induction false} AllAreKeys(keys: seq<string>, from: set<string>)
    requires forall key :: key in keys ==> key in from
    ensures AreKeys(keys, from)
  {
    if keys != [] {
      assert keys[|keys| - 1] in keys;
      AllAreKeys(keys[..|keys| - 1], from);
    }
  }

  lemma GroupHasNames(names: seq<string>, tokens: nat, key: string)
    requires key in Keys(names, tokens)
    ensures Within(names, tokens, key) != []
  {
    var name := KeyHasName(names, tokens, key);
    InGroup(names, tokens, key, name);
  }

  /** `_cover`, as deep as `fuel` calls: none when that is not deep enough. */
  function Cover(names: seq<string>, all: seq<string>, depth: nat, fuel: nat): Option<seq<Pattern>>
    requires names != []
    decreases fuel, 1, 0
  {
    match Step(names, all, depth)
    case Settled(patterns) => Some(patterns)
    case Split =>
      if fuel == 0 then None
      else
        AllAreKeys(Sorted(Keys(names, depth + 1)), Keys(names, depth + 1));
        CoverKeys(names, all, depth, Sorted(Keys(names, depth + 1)), fuel)
  }

  /** The groups' covers, one after the other. */
  function CoverKeys(names: seq<string>, all: seq<string>, depth: nat, keys: seq<string>, fuel: nat): Option<seq<Pattern>>
    requires fuel > 0 && AreKeys(keys, Keys(names, depth + 1))
    decreases fuel, 0, |keys|
  {
    if keys == [] then Some([])
    else
      var rest, key := CoverKeys(names, all, depth, keys[..|keys| - 1], fuel), keys[|keys| - 1];
      var group := GroupCover(names, all, depth, key, fuel);
      if rest.Some? && group.Some? then Some(rest.value + group.value) else None
  }

  /** The cover of one group, one call deeper. */
  function GroupCover(names: seq<string>, all: seq<string>, depth: nat, key: string, fuel: nat): Option<seq<Pattern>>
    requires fuel > 0 && key in Keys(names, depth + 1)
    decreases fuel, 0, 0
  {
    GroupHasNames(names, depth + 1, key);
    Cover(Within(names, depth + 1, key), all, depth + 1, fuel - 1)
  }

  // -- When it ends ----------------------------------------------------------------------

  /** A call that splits its names rather than settle them by what they start with. */
  ghost predicate Splits(names: seq<string>, all: seq<string>) {
    names != [] && (CommonPrefix(names) == "" || CatchesOutside(CommonPrefix(names), all, names))
  }

  /** The names alike in so many tokens: whom a name is still together with at a depth. */
  function Together(names: seq<string>, depth: nat, name: string): seq<string> {
    Within(names, depth, TokenPrefix(name, depth))
  }

  ghost predicate SplitsAt(names: seq<string>, all: seq<string>, depth: nat, name: string) {
    Splits(Together(names, depth, name), all)
  }

  /** Two names that differ only in the underscores before their first part, together in a group that splits at every depth
      there are tokens for. */
  ghost predicate Inseparable(names: seq<string>, all: seq<string>, a: string, b: string) {
    && a in names && b in names && a != b && Stripped(a) == Stripped(b)
    && forall d: nat :: d <= Deepest(names) ==> SplitsAt(names, all, d, a)
  }

  lemma InTogether(names: seq<string>, depth: nat, a: string, b: string)
    ensures b in Together(names, depth, a) <==> b in names && TokenPrefix(b, depth) == TokenPrefix(a, depth)
  {
    InGroup(names, depth, TokenPrefix(a, depth), b);
  }

  lemma {:induction false} WithinWithin(names: seq<string>, d: nat, e: nat, a: string)
    requires d <= e
    ensures Within(Together(names, d, a), e, TokenPrefix(a, e)) == Together(names, e, a)
  {
    if names != [] {
      var n := |names| - 1;
      var last, before := names[n], Together(names[..n], d, a);
      WithinWithin(names[..n], d, e, a);
      if TokenPrefix(last, e) == TokenPrefix(a, e) { PrefixesNest(last, a, e, d); }
      if TokenPrefix(last, d) == TokenPrefix(a, d) { assert (before + [last])[..|before|] == before; }
    }
  }

  /** Past the last token every group is what it was. */
  lemma DeeperIsTheSame(name: string, names: seq<string>, depth: nat)
    requires name in names && depth >= Deepest(names)
    ensures TokenPrefix(name, depth) == Stripped(name)
  {
    TakeAll(Stripped(name), depth);
  }

  lemma {:induction false} SameGroup(names: seq<string>, all: seq<string>, d: nat, e: nat, a: string)
    requires a in all && (forall name :: name in names ==> name in all) && d >= Deepest(all) && e >= Deepest(all)
    ensures Together(names, d, a) == Together(names, e, a)
  {
    if names != [] {
      var n := |names| - 1;
      assert names[n] in names;
      SameGroup(names[..n], all, d, e, a);
      DeeperIsTheSame(names[n], all, d);
      DeeperIsTheSame(names[n], all, e);
      DeeperIsTheSame(a, all, d);
      DeeperIsTheSame(a, all, e);
    }
  }

  lemma StuckAtAnyDepth(names: seq<string>, all: seq<string>, a: string, b: string, depth: nat)
    requires Inseparable(names, all, a, b)
    ensures SplitsAt(names, all, depth, a) && a in Together(names, depth, a) && b in Together(names, depth, a)
  {
    InTogether(names, depth, a, a);
    InTogether(names, depth, a, b);
    if depth > Deepest(names) {
      SameGroup(names, names, depth, Deepest(names), a);
      assert SplitsAt(names, all, Deepest(names), a);
    }
  }

  lemma TwoSplit(group: seq<string>, all: seq<string>, a: string, b: string, depth: nat)
    requires Splits(group, all) && a in group && b in group && a != b && Stripped(a) == Stripped(b)
    ensures Step(group, all, depth).Split? && TokenPrefix(a, depth + 1) in Keys(group, depth + 1)
  {
    TwoAreMany(group, a, b);
    KeyOf(group, depth + 1, a);
  }

  /** Two inseparable names keep their call going. */
  lemma StuckSplits(names: seq<string>, all: seq<string>, a: string, b: string, depth: nat)
    requires Inseparable(names, all, a, b)
    ensures var group := Together(names, depth, a);
      group != [] && Step(group, all, depth).Split? && TokenPrefix(a, depth + 1) in Keys(group, depth + 1)
  {
    StuckAtAnyDepth(names, all, a, b, depth);
    TwoSplit(Together(names, depth, a), all, a, b, depth);
  }

  lemma TwoAreMany(names: seq<string>, a: string, b: string)
    requires a in names && b in names && a != b
    ensures |names| >= 2
  {
  }

  lemma {:induction false} OneEndless(names: seq<string>, all: seq<string>, depth: nat, keys: seq<string>, fuel: nat, key: string)
    requires fuel > 0 && AreKeys(keys, Keys(names, depth + 1)) && key in keys && key in Keys(names, depth + 1)
    requires GroupCover(names, all, depth, key, fuel).None?
    ensures CoverKeys(names, all, depth, keys, fuel).None?
  {
    if key != keys[|keys| - 1] { OneEndless(names, all, depth, keys[..|keys| - 1], fuel, key); }
  }

  lemma SplitIsByKeys(names: seq<string>, all: seq<string>, depth: nat, fuel: nat)
    requires names != [] && Step(names, all, depth).Split? && fuel > 0
    ensures var keys := Keys(names, depth + 1);
      AreKeys(Sorted(keys), keys) && Cover(names, all, depth, fuel) == CoverKeys(names, all, depth, Sorted(keys), fuel)
  {
    AllAreKeys(Sorted(Keys(names, depth + 1)), Keys(names, depth + 1));
  }

  lemma SplitEndless(names: seq<string>, all: seq<string>, depth: nat, fuel: nat, key: string)
    requires names != [] && Step(names, all, depth).Split? && fuel > 0 && key in Keys(names, depth + 1)
    requires GroupCover(names, all, depth, key, fuel).None?
    ensures Cover(names, all, depth, fuel).None?
  {
    SplitIsByKeys(names, all, depth, fuel);
    OneEndless(names, all, depth, Sorted(Keys(names, depth + 1)), fuel, key);
  }

  lemma GroupIsTogether(names: seq<string>, all: seq<string>, depth: nat, a: string, fuel: nat)
    requires fuel > 0 && a in names
    ensures var group, key := Together(names, depth, a), TokenPrefix(a, depth + 1);
      && key in Keys(group, depth + 1) && Together(names, depth + 1, a) != []
      && GroupCover(group, all, depth, key, fuel) == Cover(Together(names, depth + 1, a), all, depth + 1, fuel - 1)
  {
    InTogether(names, depth, a, a);
    InTogether(names, depth + 1, a, a);
    KeyOf(Together(names, depth, a), depth + 1, a);
    WithinWithin(names, depth, depth + 1, a);
  }

  lemma StuckStep(names: seq<string>, all: seq<string>, a: string, b: string, depth: nat, fuel: nat)
    requires Inseparable(names, all, a, b) && fuel > 0 && Together(names, depth, a) != [] && Together(names, depth + 1, a) != []
    requires Cover(Together(names, depth + 1, a), all, depth + 1, fuel - 1).None?
    ensures Cover(Together(names, depth, a), all, depth, fuel).None?
  {
    StuckSplits(names, all, a, b, depth);
    GroupIsTogether(names, all, depth, a, fuel);
    SplitEndless(Together(names, depth, a), all, depth, fuel, TokenPrefix(a, depth + 1));
  }

  lemma IsTogether(names: seq<string>, depth: nat, a: string)
    requires a in names
    ensures Together(names, depth, a) != []
  {
    InTogether(names, depth, a, a);
  }

  lemma {:induction false} StuckNeverEnds(names: seq<string>, all: seq<string>, a: string, b: string, depth: nat, fuel: nat)
    requires Inseparable(names, all, a, b) && Together(names, depth, a) != []
    ensures Cover(Together(names, depth, a), all, depth, fuel).None?
    decreases fuel
  {
    if fuel == 0 {
      StuckSplits(names, all, a, b, depth);
    } else {
      IsTogether(names, depth + 1, a);
      StuckNeverEnds(names, all, a, b, depth + 1, fuel - 1);
      StuckStep(names, all, a, b, depth, fuel);
    }
  }

  lemma {:induction false} FirstTwoDiffer(names: seq<string>)
    requires NoRepeats(names) && |names| >= 2
    ensures names[0] != names[1]
  {
    if |names| > 2 {
      FirstTwoDiffer(names[..|names| - 1]);
    } else {
      assert names[0] in names[..1];
    }
  }

  ghost predicate AllSeparable(names: seq<string>, all: seq<string>) {
    forall a, b :: !Inseparable(names, all, a, b)
  }

  /** Two names together past every token, in groups that all split, are inseparable. */
  lemma LastTwo(names: seq<string>, all: seq<string>, a: string)
    requires NoRepeats(names) && a in names && |Together(names, Deepest(names), a)| >= 2
    requires forall e: nat :: e <= Deepest(names) ==> SplitsAt(names, all, e, a)
    ensures exists b :: Inseparable(names, all, a, b)
  {
    var d := Deepest(names);
    var group := Together(names, d, a);
    WithinHasNoRepeats(names, d, TokenPrefix(a, d));
    FirstTwoDiffer(group);
    var b := if group[0] == a then group[1] else group[0];
    assert b in group;
    InTogether(names, d, a, b);
    DeeperIsTheSame(a, names, d);
    DeeperIsTheSame(b, names, d);
    assert Inseparable(names, all, a, b);
  }

  lemma {:induction false} AllEnd(names: seq<string>, all: seq<string>, depth: nat, keys: seq<string>, fuel: nat)
    requires fuel > 0 && AreKeys(keys, Keys(names, depth + 1))
    requires forall key :: key in Keys(names, depth + 1) ==> GroupCover(names, all, depth, key, fuel).Some?
    ensures CoverKeys(names, all, depth, keys, fuel).Some?
  {
    if keys != [] { AllEnd(names, all, depth, keys[..|keys| - 1], fuel); }
  }

  lemma SplitEnds(names: seq<string>, all: seq<string>, depth: nat, fuel: nat)
    requires names != [] && Step(names, all, depth).Split? && fuel > 0
    requires forall key :: key in Keys(names, depth + 1) ==> GroupCover(names, all, depth, key, fuel).Some?
    ensures Cover(names, all, depth, fuel).Some?
  {
    SplitIsByKeys(names, all, depth, fuel);
    AllEnd(names, all, depth, Sorted(Keys(names, depth + 1)), fuel);
  }

  lemma SplitsSoFar(names: seq<string>, all: seq<string>, a: string, n: string, depth: nat)
    requires TokenPrefix(a, depth) == TokenPrefix(n, depth)
    requires forall e: nat :: e <= depth ==> SplitsAt(names, all, e, a)
    ensures forall e: nat :: e < depth + 1 ==> SplitsAt(names, all, e, n)
  {
    forall e: nat | e < depth + 1 ensures SplitsAt(names, all, e, n) {
      assert SplitsAt(names, all, e, a);
      PrefixesNest(a, n, depth, e);
    }
  }

  /** A name whose groups have all split so far is settled before its tokens run out. */
  lemma {:induction false} EndsBelow(names: seq<string>, all: seq<string>, a: string, depth: nat)
    requires NoRepeats(names) && a in names && depth <= Deepest(names) && AllSeparable(names, all)
    requires forall e: nat :: e < depth ==> SplitsAt(names, all, e, a)
    ensures var group := Together(names, depth, a);
      group != [] && Cover(group, all, depth, Deepest(names) - depth + 1).Some?
    decreases Deepest(names) - depth, 2
  {
    var group := Together(names, depth, a);
    InTogether(names, depth, a, a);
    if Step(group, all, depth).Split? {
      SplitMeansSplits(group, all, depth);
      if depth == Deepest(names) {
        LastTwo(names, all, a);
      } else {
        GroupEnds(names, all, a, depth);
      }
    }
  }

  lemma GroupOfAnother(names: seq<string>, all: seq<string>, depth: nat, a: string, n: string, fuel: nat)
    requires n in names && TokenPrefix(a, depth) == TokenPrefix(n, depth) && fuel > 0
    requires Together(names, depth + 1, n) != [] && Cover(Together(names, depth + 1, n), all, depth + 1, fuel - 1).Some?
    ensures TokenPrefix(n, depth + 1) in Keys(Together(names, depth, a), depth + 1)
    ensures GroupCover(Together(names, depth, a), all, depth, TokenPrefix(n, depth + 1), fuel).Some?
  {
    GroupIsTogether(names, all, depth, n, fuel);
    assert Together(names, depth, a) == Together(names, depth, n);
  }

  lemma {:induction false} GroupEnds(names: seq<string>, all: seq<string>, a: string, depth: nat)
    requires NoRepeats(names) && depth < Deepest(names) && AllSeparable(names, all)
    requires forall e: nat :: e <= depth ==> SplitsAt(names, all, e, a)
    requires Together(names, depth, a) != [] && Step(Together(names, depth, a), all, depth).Split?
    ensures Cover(Together(names, depth, a), all, depth, Deepest(names) - depth + 1).Some?
    decreases Deepest(names) - depth, 1
  {
    var group, fuel := Together(names, depth, a), Deepest(names) - depth + 1;
    forall key | key in Keys(group, depth + 1) ensures GroupCover(group, all, depth, key, fuel).Some? {
      var n := NameOfKey(names, depth, a, key);
      KeyEnds(names, all, a, n, depth);
    }
    SplitEnds(group, all, depth, fuel);
  }

  lemma {:induction false} KeyEnds(names: seq<string>, all: seq<string>, a: string, n: string, depth: nat)
    requires NoRepeats(names) && n in names && depth < Deepest(names) && AllSeparable(names, all)
    requires forall e: nat :: e <= depth ==> SplitsAt(names, all, e, a)
    requires TokenPrefix(n, depth) == TokenPrefix(a, depth)
    ensures TokenPrefix(n, depth + 1) in Keys(Together(names, depth, a), depth + 1)
    ensures GroupCover(Together(names, depth, a), all, depth, TokenPrefix(n, depth + 1), Deepest(names) - depth + 1).Some?
    decreases Deepest(names) - depth, 0
  {
    var below, fuel := depth + 1, Deepest(names) - depth + 1;
    SplitsSoFar(names, all, a, n, depth);
    EndsBelow(names, all, n, below);
    assert fuel - 1 == Deepest(names) - below + 1;
    GroupOfAnother(names, all, depth, a, n, fuel);
  }

  lemma SplitMeansSplits(names: seq<string>, all: seq<string>, depth: nat)
    requires names != [] && Step(names, all, depth).Split?
    ensures Splits(names, all) && |names| >= 2
  {
  }

  lemma NameOfKey(names: seq<string>, depth: nat, a: string, key: string) returns (n: string)
    requires key in Keys(Together(names, depth, a), depth + 1)
    ensures n in names && TokenPrefix(n, depth) == TokenPrefix(a, depth) && TokenPrefix(n, depth + 1) == key
  {
    n := KeyHasName(Together(names, depth, a), depth + 1, key);
    InTogether(names, depth, a, n);
  }

  lemma {:induction false} AllTogether(names: seq<string>, a: string)
    ensures Together(names, 0, a) == names
  {
    if names != [] {
      AllTogether(names[..|names| - 1], a);
      assert names == names[..|names| - 1] + [names[|names| - 1]];
    }
  }

  /** The cover of a folder: as many calls deep as its names have tokens is deep enough, or nothing is. */
  function Covered(names: seq<string>, all: seq<string>): Option<seq<Pattern>>
    requires names != []
  {
    Cover(names, all, 0, Deepest(names) + 1)
  }

  /** The theorem: the call never ends exactly when two of its names are inseparable, and if it ends it ends no deeper than
      its names have tokens. */
  lemma NeverEndsExactlyWhenInseparable(names: seq<string>, all: seq<string>)
    requires NoRepeats(names) && names != []
    ensures (forall fuel :: Cover(names, all, 0, fuel).None?) <==> exists a, b :: Inseparable(names, all, a, b)
    ensures Covered(names, all).None? <==> exists a, b :: Inseparable(names, all, a, b)
  {
    if a, b :| Inseparable(names, all, a, b) {
      forall fuel ensures Cover(names, all, 0, fuel).None? { StuckFromTheTop(names, all, a, b, fuel); }
    } else {
      EndsFromTheTop(names, all);
      assert Cover(names, all, 0, Deepest(names) + 1).Some?;
    }
  }

  lemma StuckFromTheTop(names: seq<string>, all: seq<string>, a: string, b: string, fuel: nat)
    requires names != [] && Inseparable(names, all, a, b)
    ensures Cover(names, all, 0, fuel).None?
  {
    AllTogether(names, a);
    StuckNeverEnds(names, all, a, b, 0, fuel);
  }

  lemma EndsFromTheTop(names: seq<string>, all: seq<string>)
    requires NoRepeats(names) && names != [] && AllSeparable(names, all)
    ensures Covered(names, all).Some?
  {
    AllTogether(names, names[0]);
    EndsBelow(names, all, names[0], 0);
  }

  lemma {:induction false} FirstCharacters(names: seq<string>, a: string, b: string)
    requires a in names && b in names && a != "" && b != "" && a[0] != b[0]
    ensures CommonPrefix(names) == ""
  {
    assert CommonPrefix(names) <= a && CommonPrefix(names) <= b;
  }

  /** A name and the same name behind underscores are inseparable, whatever else is there. */
  lemma UnderscoresAreInseparable(names: seq<string>, all: seq<string>, a: string, b: string)
    requires a in names && b in names && a != b && Stripped(b) == a
    ensures Inseparable(names, all, a, b)
  {
    assert Stripped(a) == a;
    forall d: nat | d <= Deepest(names) ensures SplitsAt(names, all, d, a) {
      InTogether(names, d, a, a);
      InTogether(names, d, a, b);
      var group := Together(names, d, a);
      if a != "" {
        assert b != "" && b[0] == '_';
        FirstCharacters(group, a, b);
      } else {
        assert CommonPrefix(group) <= a;
      }
    }
  }

  /** So a folder with both never gets a cover. */
  lemma UnderscoresNeverEnd(names: seq<string>, all: seq<string>, a: string, b: string, fuel: nat)
    requires a in names && b in names && a != b && Stripped(b) == a
    ensures names != [] && Cover(names, all, 0, fuel).None?
  {
    UnderscoresAreInseparable(names, all, a, b);
    StuckFromTheTop(names, all, a, b, fuel);
  }

  /** But a folder of names that all start with an underscore can end. */
  lemma UnderscoresCanEnd(depth: nat)
    ensures Step(["__a", "_a"], ["__a", "_a"], depth) == Settled([Prefix("_")])
  {
    var names := ["__a", "_a"];
    assert names[..1] == ["__a"];
    assert CommonPrefix(["__a"]) == "__a";
    assert Shared("_a", "a") == "";
    assert Shared("__a", "_a") == "_";
    assert !CatchesOutside("_", names, names);
  }

  // -- It covers -------------------------------------------------------------------------

  lemma {:induction false} CountExacts(names: seq<string>, name: string)
    requires NoRepeats(names)
    ensures Count(Exacts(names), name) == if name in names then 1 else 0
  {
    if names != [] {
      var n := |names| - 1;
      CountExacts(names[..n], name);
      assert names == names[..n] + [names[n]];
      assert Exacts(names)[..|Exacts(names)| - 1] == Exacts(names[..n]);
    }
  }

  lemma {:induction false} AscendingHasNoRepeats(names: seq<string>)
    requires Ascending(names)
    ensures NoRepeats(names)
  {
    if names != [] { AscendingHasNoRepeats(names[..|names| - 1]); }
  }

  /** The theorem: if the call ends, every name of the group is matched by exactly one pattern, and no other model by any. */
  lemma {:induction false} CoversExactly(names: seq<string>, all: seq<string>, depth: nat, fuel: nat, name: string)
    requires names != [] && name in all && Cover(names, all, depth, fuel).Some?
    ensures Count(Cover(names, all, depth, fuel).value, name) == if name in names then 1 else 0
    decreases fuel, 1, 0
  {
    match Step(names, all, depth) {
      case Settled(patterns) => SettledExactly(names, all, depth, name);
      case Split =>
        var keys := Keys(names, depth + 1);
        SortedAscends(keys);
        AllAreKeys(Sorted(keys), keys);
        KeysCoverExactly(names, all, depth, Sorted(keys), fuel, name);
        if name in names { KeyOf(names, depth + 1, name); }
    }
  }

  lemma CountOne(p: Pattern, name: string)
    ensures Count([p], name) == if MatchesName(p, name) then 1 else 0
  {
    assert [p][..0] == [];
  }

  lemma PrefixExactly(names: seq<string>, all: seq<string>, name: string)
    requires names != [] && name in all && !CatchesOutside(CommonPrefix(names), all, names)
    ensures MatchesName(Prefix(CommonPrefix(names)), name) <==> name in names
  {
  }

  lemma SettledExactly(names: seq<string>, all: seq<string>, depth: nat, name: string)
    requires names != [] && name in all && Step(names, all, depth).Settled?
    ensures Count(Step(names, all, depth).patterns, name) == if name in names then 1 else 0
  {
    var prefix, sorted := CommonPrefix(names), Sorted(set n | n in names);
    if |names| == 1 {
      CountOne(Exact(names[0]), name);
    } else if prefix != "" && !CatchesOutside(prefix, all, names) {
      CountOne(Prefix(prefix), name);
      PrefixExactly(names, all, name);
    } else {
      SortedAscends(set n | n in names);
      AscendingHasNoRepeats(sorted);
      CountExacts(sorted, name);
    }
  }

  lemma InLonger(keys: seq<string>, key: string)
    requires Ascending(keys) && keys != []
    ensures key in keys <==> key in keys[..|keys| - 1] || key == keys[|keys| - 1]
    ensures keys[|keys| - 1] !in keys[..|keys| - 1] && Ascending(keys[..|keys| - 1])
  {
    assert keys == keys[..|keys| - 1] + [keys[|keys| - 1]];
  }

  lemma {:induction false} KeysCoverExactly(names: seq<string>, all: seq<string>, depth: nat, keys: seq<string>, fuel: nat,
                                            name: string)
    requires fuel > 0 && Ascending(keys) && name in all && AreKeys(keys, Keys(names, depth + 1))
    requires CoverKeys(names, all, depth, keys, fuel).Some?
    ensures Count(CoverKeys(names, all, depth, keys, fuel).value, name)
         == if name in names && TokenPrefix(name, depth + 1) in keys then 1 else 0
    decreases fuel, 0, |keys|
  {
    if keys != [] {
      var rest, key := keys[..|keys| - 1], keys[|keys| - 1];
      InLonger(keys, TokenPrefix(name, depth + 1));
      InLonger(keys, key);
      KeysCoverExactly(names, all, depth, rest, fuel, name);
      GroupCoversExactly(names, all, depth, key, fuel, name);
      CountAdds(CoverKeys(names, all, depth, rest, fuel).value, GroupCover(names, all, depth, key, fuel).value, name);
    }
  }

  lemma {:induction false} GroupCoversExactly(names: seq<string>, all: seq<string>, depth: nat, key: string, fuel: nat, name: string)
    requires fuel > 0 && key in Keys(names, depth + 1) && name in all && GroupCover(names, all, depth, key, fuel).Some?
    ensures Count(GroupCover(names, all, depth, key, fuel).value, name)
         == if name in names && TokenPrefix(name, depth + 1) == key then 1 else 0
    decreases fuel, 0, 0
  {
    GroupHasNames(names, depth + 1, key);
    InGroup(names, depth + 1, key, name);
    CoversExactly(Within(names, depth + 1, key), all, depth + 1, fuel - 1, name);
  }

  // -- All the folders -------------------------------------------------------------------

  datatype Model = Model(name: string, folder: string)

  function NamesIn(models: set<Model>, folder: string): set<string> {
    set m | m in models && m.folder == folder :: m.name
  }

  function AllNames(models: set<Model>): set<string> {
    set m | m in models :: m.name
  }

  function Folders(models: set<Model>): set<string> {
    set m | m in models :: m.folder
  }

  /** A name is one model's, and the cover of every folder ends. */
  ghost predicate Nameable(models: set<Model>) {
    && (forall m, n :: m in models && n in models && m.name == n.name ==> m == n)
    && forall folder :: folder in Folders(models) ==>
         Sorted(NamesIn(models, folder)) != [] && Covered(Sorted(NamesIn(models, folder)), Sorted(AllNames(models))).Some?
  }

  /** A name that does not start with an underscore. */
  predicate Plain(name: string) {
    name == "" || name[0] != '_'
  }

  /** Distinct names without leading underscores are all separable. */
  lemma PlainEnds(names: seq<string>, all: seq<string>)
    requires NoRepeats(names) && names != [] && forall name :: name in names ==> Plain(name)
    ensures Covered(names, all).Some?
  {
    forall a, b | a in names && b in names && Stripped(a) == Stripped(b) ensures a == b {
      assert Stripped(a) == a && Stripped(b) == b;
    }
    NeverEndsExactlyWhenInseparable(names, all);
  }

  /** Names without leading underscores only need to be distinct. */
  lemma PlainNamesAreNameable(models: set<Model>)
    requires forall m, n :: m in models && n in models && m.name == n.name ==> m == n
    requires forall m :: m in models ==> Plain(m.name)
    ensures Nameable(models)
  {
    forall folder | folder in Folders(models)
      ensures Sorted(NamesIn(models, folder)) != [] && Covered(Sorted(NamesIn(models, folder)), Sorted(AllNames(models))).Some?
    {
      FolderHasNames(models, folder);
      SortedAscends(NamesIn(models, folder));
      AscendingHasNoRepeats(Sorted(NamesIn(models, folder)));
      PlainEnds(Sorted(NamesIn(models, folder)), Sorted(AllNames(models)));
    }
  }

  lemma FolderHasNames(models: set<Model>, folder: string)
    requires folder in Folders(models)
    ensures Sorted(NamesIn(models, folder)) != []
  {
    var m :| m in models && m.folder == folder;
    assert m.name in NamesIn(models, folder);
  }

  function FolderCover(models: set<Model>, folder: string): seq<Pattern>
    requires Nameable(models) && folder in Folders(models)
  {
    Covered(Sorted(NamesIn(models, folder)), Sorted(AllNames(models))).value
  }

  lemma CoveredExactly(names: seq<string>, all: seq<string>, name: string)
    requires names != [] && name in all && Covered(names, all).Some?
    ensures Count(Covered(names, all).value, name) == if name in names then 1 else 0
  {
    CoversExactly(names, all, 0, Deepest(names) + 1, name);
  }

  lemma FolderCoversOnce(models: set<Model>, folder: string, m: Model)
    requires Nameable(models) && folder in Folders(models) && m in models
    ensures Count(FolderCover(models, folder), m.name) == if m.folder == folder then 1 else 0
  {
    assert m.name in Sorted(AllNames(models));
    assert m.name in Sorted(NamesIn(models, folder)) <==> m.folder == folder;
    CoveredExactly(Sorted(NamesIn(models, folder)), Sorted(AllNames(models)), m.name);
  }

  /** `_model_rules`: folder by folder. */
  function FolderRules(models: set<Model>, folders: seq<string>): seq<Pattern>
    requires Nameable(models) && AreKeys(folders, Folders(models))
  {
    if folders == [] then []
    else
      var folder := folders[|folders| - 1];
      FolderRules(models, folders[..|folders| - 1]) + FolderCover(models, folder)
  }

  function ModelRules(models: set<Model>): seq<Pattern>
    requires Nameable(models)
  {
    AllAreKeys(Sorted(Folders(models)), Folders(models));
    FolderRules(models, Sorted(Folders(models)))
  }

  lemma {:induction false} FoldersCoverOnce(models: set<Model>, folders: seq<string>, m: Model)
    requires Nameable(models) && AreKeys(folders, Folders(models)) && Ascending(folders) && m in models
    ensures Count(FolderRules(models, folders), m.name) == if m.folder in folders then 1 else 0
  {
    if folders != [] {
      var rest, folder := folders[..|folders| - 1], folders[|folders| - 1];
      InLonger(folders, m.folder);
      InLonger(folders, folder);
      FoldersCoverOnce(models, rest, m);
      FolderCoversOnce(models, folder, m);
      CountAdds(FolderRules(models, rest), FolderCover(models, folder), m.name);
    }
  }

  /** Every model is matched by exactly one rule. */
  lemma EveryModelHasOneRule(models: set<Model>, m: Model)
    requires Nameable(models) && m in models
    ensures Count(ModelRules(models), m.name) == 1
  {
    SortedAscends(Folders(models));
    AllAreKeys(Sorted(Folders(models)), Folders(models));
    FoldersCoverOnce(models, Sorted(Folders(models)), m);
  }
}
