/** The starter registry resolved: each model of the project has exactly one candidate. */
module StarterRegistry {
  import opened Ids
  import Starter
  import opened Registry

  // -- Patterns as they are written ------------------------------------------------------

  /** No character of a name is one the matcher reads as a wildcard. */
  predicate Literally(s: string) {
    s == "" || (s[0] != '*' && s[0] != '?' && s[0] != '[' && Literally(s[1..]))
  }

  function Id(root: string, name: string): string {
    "model." + root + "." + name
  }

  function Written(root: string, p: Starter.Pattern): string {
    match p
    case Exact(name) => Id(root, name)
    case Prefix(prefix) => Id(root, prefix) + "*"
  }

  function Letters(s: string): seq<Piece> {
    if s == "" then [] else [Literal(s[0])] + Letters(s[1..])
  }

  lemma {:induction false} LiterallyJoins(a: string, b: string)
    requires Literally(a) && Literally(b)
    ensures Literally(a + b)
  {
    if a == "" {
      assert a + b == b;
    } else {
      LiterallyJoins(a[1..], b);
      assert (a + b)[1..] == a[1..] + b;
    }
  }

  lemma PiecesStep(s: string)
    requires s != "" && s[0] != '*' && s[0] != '?' && s[0] != '['
    ensures Pieces(s) == [Literal(s[0])] + Pieces(s[1..])
  {
  }

  lemma PiecesGrow(s: string, tail: string, more: seq<Piece>)
    requires Literally(s) && s != "" && Pieces(s[1..] + tail) == Letters(s[1..]) + more
    ensures Pieces(s + tail) == Letters(s) + more
  {
    assert (s + tail)[1..] == s[1..] + tail && (s + tail)[0] == s[0];
    PiecesStep(s + tail);
    Associative([Literal(s[0])], Letters(s[1..]), more);
  }

  lemma {:induction false} PiecesOfLetters(s: string, tail: string, more: seq<Piece>)
    requires Literally(s) && more == Pieces(tail)
    ensures Pieces(s + tail) == Letters(s) + more
  {
    if s == "" {
      assert s + tail == tail && [] + more == more;
    } else {
      PiecesOfLetters(s[1..], tail, more);
      PiecesGrow(s, tail, more);
    }
  }

  lemma {:induction false} MatchesLetters(accepts: (string, char) -> bool, s: string, pieces: seq<Piece>, id: string)
    ensures Matches(accepts, Letters(s) + pieces, id) <==> s <= id && Matches(accepts, pieces, id[|s|..])
  {
    if s == "" {
      assert Letters(s) + pieces == pieces && id[0..] == id;
    } else {
      var all := Letters(s) + pieces;
      assert all[0] == Literal(s[0]) && all[1..] == Letters(s[1..]) + pieces;
      if id != "" {
        MatchesLetters(accepts, s[1..], pieces, id[1..]);
        StartsWith(s, id);
        if s <= id { assert id[1..][|s| - 1..] == id[|s|..]; }
      }
    }
  }

  lemma StartsWith(s: string, id: string)
    requires s != "" && id != ""
    ensures s <= id <==> s[0] == id[0] && s[1..] <= id[1..]
  {
    if s[0] == id[0] && s[1..] <= id[1..] {
      assert s == [s[0]] + s[1..] && id == [id[0]] + id[1..];
    }
  }

  lemma {:induction false} AnyMatchesAll(accepts: (string, char) -> bool, id: string)
    ensures Matches(accepts, [Any], id)
  {
    if id == "" {
      assert [Any][1..] == [] && Matches(accepts, [], "");
    } else {
      AnyMatchesAll(accepts, id[1..]);
    }
  }

  /** What is written matches an id exactly when the pattern matches the name. */
  lemma WrittenMatches(accepts: (string, char) -> bool, root: string, p: Starter.Pattern, name: string)
    requires Literally(root) && Literally(if p.Exact? then p.name else p.prefix)
    ensures Matches(accepts, Pieces(Written(root, p)), Id(root, name)) <==> Starter.MatchesName(p, name)
  {
    var text := if p.Exact? then p.name else p.prefix;
    var written, id := Id(root, text), Id(root, name);
    IdIsLiteral(root, text);
    IdStarts(root, text, name);
    var tail := if p.Exact? then "" else "*";
    assert Written(root, p) == written + tail;
    assert "*"[1..] == "" && Pieces("") == [] && Pieces("*") == [Any];
    PiecesOfLetters(written, tail, if p.Exact? then [] else [Any]);
    if p.Exact? {
      MatchesLetters(accepts, written, [], id);
      if written <= id && id[|written|..] == "" { assert id == written; }
    } else {
      MatchesLetters(accepts, written, [Any], id);
      if written <= id { AnyMatchesAll(accepts, id[|written|..]); }
    }
  }

  lemma IdIsLiteral(root: string, name: string)
    requires Literally(root) && Literally(name)
    ensures Literally(Id(root, name))
  {
    assert Literally("model.") by { LettersOfModel(); }
    assert Literally(".") by { assert "."[1..] == ""; }
    LiterallyJoins("model.", root);
    LiterallyJoins("model." + root, ".");
    LiterallyJoins("model." + root + ".", name);
  }

  lemma LettersOfModel()
    ensures Literally("model.")
  {
    assert "model."[1..] == "odel." && "odel."[1..] == "del." && "del."[1..] == "el." && "el."[1..] == "l.";
    assert "l."[1..] == "." && "."[1..] == "";
    assert Literally(".");
    assert Literally("l.");
    assert Literally("el.");
    assert Literally("del.");
    assert Literally("odel.");
  }

  lemma IdStarts(root: string, prefix: string, name: string)
    ensures Id(root, prefix) <= Id(root, name) <==> prefix <= name
    ensures Id(root, prefix) == Id(root, name) <==> prefix == name
  {
    var front := "model." + root + ".";
    assert Id(root, prefix) == front + prefix && Id(root, name) == front + name;
    assert Id(root, name)[|front|..] == name && Id(root, prefix)[|front|..] == prefix;
    if Id(root, prefix) <= Id(root, name) {
      assert Id(root, name)[..|front| + |prefix|] == Id(root, prefix);
      assert name[..|prefix|] == prefix;
    }
  }

  // -- One candidate ---------------------------------------------------------------------

  function RulesOf(root: string, patterns: seq<Starter.Pattern>, owner: string, team: string): seq<Rule> {
    if patterns == [] then []
    else
      RulesOf(root, patterns[..|patterns| - 1], owner, team)
      + [Rule(Written(root, patterns[|patterns| - 1]), owner, team)]
  }

  ghost predicate AllLiteral(patterns: seq<Starter.Pattern>) {
    patterns == []
    || (AllLiteral(patterns[..|patterns| - 1])
        && Literally(var p := patterns[|patterns| - 1]; if p.Exact? then p.name else p.prefix))
  }

  lemma {:induction false} InsertGrows(ranked: seq<Rule>, r: Rule)
    ensures |Insert(ranked, r)| == |ranked| + 1
  {
    if ranked != [] && !Before(r, ranked[0]) { InsertGrows(ranked[1..], r); }
  }

  /** As many candidates as patterns that match. */
  lemma {:induction false} CandidatesAreCounted(accepts: (string, char) -> bool, root: string, patterns: seq<Starter.Pattern>,
                                                owner: string, team: string, name: string)
    requires Literally(root) && AllLiteral(patterns)
    ensures |Candidates(accepts, RulesOf(root, patterns, owner, team), Id(root, name))| == Starter.Count(patterns, name)
  {
    if patterns != [] {
      var n := |patterns| - 1;
      var rules := RulesOf(root, patterns, owner, team);
      CandidatesAreCounted(accepts, root, patterns[..n], owner, team, name);
      assert rules[..|rules| - 1] == RulesOf(root, patterns[..n], owner, team);
      WrittenMatches(accepts, root, patterns[n], name);
      InsertGrows(Candidates(accepts, rules[..|rules| - 1], Id(root, name)), rules[|rules| - 1]);
    }
  }

  lemma {:induction false} OthersAddNothing(accepts: (string, char) -> bool, rules: seq<Rule>, others: seq<Rule>, id: string)
    requires forall r :: r in others ==> !Applies(accepts, r, id)
    ensures Candidates(accepts, rules + others, id) == Candidates(accepts, rules, id)
  {
    if others == [] {
      assert rules + others == rules;
    } else {
      var n := |others| - 1;
      assert others[n] in others;
      OthersAddNothing(accepts, rules, others[..n], id);
      assert (rules + others)[..|rules + others| - 1] == rules + others[..n];
    }
  }

  /** A rule for another kind of dataset, `source.`, `seed.`, `snapshot.` or `exposure.`, matches no model. */
  lemma OtherKindsNeverMatch(accepts: (string, char) -> bool, r: Rule, root: string, name: string)
    requires r.pattern != "" && r.pattern[0] in {'s', 'e'}
    ensures !Applies(accepts, r, Id(root, name))
  {
    var pieces := Pieces(r.pattern);
    assert pieces[0] == Literal(r.pattern[0]);
    assert Id(root, name)[0] == 'm';
  }

  /** A rule for an installed package, `model.package.*`, matches no model of the project. */
  lemma OtherPackagesNeverMatch(accepts: (string, char) -> bool, package: string, root: string, name: string)
    requires Literally(package) && package != root && '.' !in package && '.' !in root
    ensures !Matches(accepts, Pieces(Written(package, Starter.Prefix(""))), Id(root, name))
  {
    var written, id := Id(package, ""), Id(root, name);
    assert Literally("");
    IdIsLiteral(package, "");
    assert "*"[1..] == "" && Pieces("") == [] && Pieces("*") == [Any];
    PiecesOfLetters(written, "*", [Any]);
    MatchesLetters(accepts, written, [Any], id);
    if written <= id {
      DotsTellPackages(package, root, name);
    }
  }

  lemma DotsTellPackages(package: string, root: string, name: string)
    requires Id(package, "") <= Id(root, name) && '.' !in package && '.' !in root
    ensures package == root
  {
    var left, right := package + ".", root + "." + name;
    assert Id(package, "") == "model." + left && Id(root, name) == "model." + right;
    assert left <= right by {
      assert |left| <= |right|;
      forall i | 0 <= i < |left| ensures left[i] == right[i] {
        assert Id(package, "")[6 + i] == left[i] && Id(root, name)[6 + i] == right[i];
      }
    }
    SameBeforeTheDot(package, root, name);
  }

  /** How much of a text is before its first dot. */
  function BeforeDot(s: string): nat {
    if s == "" || s[0] == '.' then 0 else 1 + BeforeDot(s[1..])
  }

  lemma {:induction false} BeforeDotIs(a: string, tail: string)
    requires '.' !in a
    ensures BeforeDot(a + "." + tail) == |a|
  {
    if a == "" {
      assert (a + "." + tail)[0] == '.';
    } else {
      BeforeDotIs(a[1..], tail);
      assert (a + "." + tail)[1..] == a[1..] + "." + tail;
      assert (a + "." + tail)[0] == a[0];
    }
  }

  lemma SameBeforeTheDot(a: string, b: string, tail: string)
    requires a + "." <= b + "." + tail && '.' !in a && '.' !in b
    ensures a == b
  {
    var whole := b + "." + tail;
    assert whole == a + "." + whole[|a| + 1..];
    BeforeDotIs(a, whole[|a| + 1..]);
    BeforeDotIs(b, tail);
    assert whole[..|a|] == a && whole[..|b|] == b;
  }

  /** A rule of the starter registry that is not for the project's own models. */
  ghost predicate ForOthers(r: Rule, root: string) {
    || (r.pattern != "" && r.pattern[0] in {'s', 'e'})
    || (exists package :: Literally(package) && package != root && '.' !in package && '.' !in root
                          && r.pattern == Written(package, Starter.Prefix("")))
  }

  // -- The names a cover writes are parts of the names it covers ---------------------------

  lemma {:induction false} LiteralPrefix(s: string, p: string)
    requires Literally(s) && p <= s
    ensures Literally(p)
  {
    if p != "" {
      StartsWith(p, s);
      LiteralPrefix(s[1..], p[1..]);
    }
  }

  lemma AllLiteralMore(a: seq<Starter.Pattern>, p: Starter.Pattern)
    ensures AllLiteral(a + [p]) <==> AllLiteral(a) && AllLiteral([p])
  {
    assert (a + [p])[..|a|] == a && [p][..0] == [];
  }

  lemma {:induction false} AllLiteralJoins(a: seq<Starter.Pattern>, b: seq<Starter.Pattern>)
    requires AllLiteral(a) && AllLiteral(b)
    ensures AllLiteral(a + b)
  {
    if b == [] {
      assert a + b == a;
    } else {
      var rest, last := b[..|b| - 1], b[|b| - 1];
      assert b == rest + [last];
      AllLiteralMore(rest, last);
      AllLiteralJoins(a, rest);
      AllLiteralMore(a + rest, last);
      Associative(a, rest, [last]);
    }
  }

  lemma {:induction false} ExactsAreLiteral(names: seq<string>)
    requires forall name :: name in names ==> Literally(name)
    ensures AllLiteral(Starter.Exacts(names))
  {
    if names != [] {
      assert names[|names| - 1] in names;
      ExactsAreLiteral(names[..|names| - 1]);
      assert Starter.Exacts(names)[..|Starter.Exacts(names)| - 1] == Starter.Exacts(names[..|names| - 1]);
    }
  }

  lemma SettledIsLiteral(names: seq<string>, all: seq<string>, depth: nat)
    requires names != [] && Starter.Step(names, all, depth).Settled? && forall name :: name in names ==> Literally(name)
    ensures AllLiteral(Starter.Step(names, all, depth).patterns)
  {
    var patterns, prefix := Starter.Step(names, all, depth).patterns, Starter.CommonPrefix(names);
    assert names[0] in names;
    LiteralPrefix(names[0], prefix);
    ExactsAreLiteral(Sorted(set n | n in names));
    if |patterns| == 1 { assert patterns[..0] == []; }
  }

  lemma {:induction false} CoverIsLiteral(names: seq<string>, all: seq<string>, depth: nat, fuel: nat)
    requires names != [] && Starter.Cover(names, all, depth, fuel).Some? && forall name :: name in names ==> Literally(name)
    ensures AllLiteral(Starter.Cover(names, all, depth, fuel).value)
    decreases fuel, 1, 0
  {
    match Starter.Step(names, all, depth) {
      case Settled(_) => SettledIsLiteral(names, all, depth);
      case Split =>
        var keys := Starter.Keys(names, depth + 1);
        Starter.AllAreKeys(Sorted(keys), keys);
        KeysAreLiteral(names, all, depth, Sorted(keys), fuel);
    }
  }

  lemma {:induction false} KeysAreLiteral(names: seq<string>, all: seq<string>, depth: nat, keys: seq<string>, fuel: nat)
    requires fuel > 0 && Starter.AreKeys(keys, Starter.Keys(names, depth + 1))
    requires Starter.CoverKeys(names, all, depth, keys, fuel).Some?
    requires forall name :: name in names ==> Literally(name)
    ensures AllLiteral(Starter.CoverKeys(names, all, depth, keys, fuel).value)
    decreases fuel, 0, |keys|
  {
    if keys != [] {
      var rest, key := keys[..|keys| - 1], keys[|keys| - 1];
      KeysAreLiteral(names, all, depth, rest, fuel);
      GroupIsLiteral(names, all, depth, key, fuel);
      AllLiteralJoins(Starter.CoverKeys(names, all, depth, rest, fuel).value, Starter.GroupCover(names, all, depth, key, fuel).value);
    }
  }

  lemma {:induction false} GroupIsLiteral(names: seq<string>, all: seq<string>, depth: nat, key: string, fuel: nat)
    requires fuel > 0 && key in Starter.Keys(names, depth + 1) && Starter.GroupCover(names, all, depth, key, fuel).Some?
    requires forall name :: name in names ==> Literally(name)
    ensures AllLiteral(Starter.GroupCover(names, all, depth, key, fuel).value)
    decreases fuel, 0, 0
  {
    Starter.GroupHasNames(names, depth + 1, key);
    var group := Starter.Within(names, depth + 1, key);
    forall name | name in group ensures Literally(name) { Starter.InGroup(names, depth + 1, key, name); }
    CoverIsLiteral(group, all, depth + 1, fuel - 1);
  }

  lemma CoveredIsLiteral(names: seq<string>, all: seq<string>)
    requires names != [] && Starter.Covered(names, all).Some? && forall name :: name in names ==> Literally(name)
    ensures AllLiteral(Starter.Covered(names, all).value)
  {
    CoverIsLiteral(names, all, 0, Starter.Deepest(names) + 1);
  }

  lemma FolderIsLiteral(models: set<Starter.Model>, folder: string)
    requires Starter.Nameable(models) && folder in Starter.Folders(models)
    requires forall m :: m in models ==> Literally(m.name)
    ensures AllLiteral(Starter.FolderCover(models, folder))
  {
    CoveredIsLiteral(Sorted(Starter.NamesIn(models, folder)), Sorted(Starter.AllNames(models)));
  }

  lemma {:induction false} FoldersAreLiteral(models: set<Starter.Model>, folders: seq<string>)
    requires Starter.Nameable(models) && Starter.AreKeys(folders, Starter.Folders(models))
    requires forall m :: m in models ==> Literally(m.name)
    ensures AllLiteral(Starter.FolderRules(models, folders))
  {
    if folders != [] {
      var folder := folders[|folders| - 1];
      FoldersAreLiteral(models, folders[..|folders| - 1]);
      FolderIsLiteral(models, folder);
      AllLiteralJoins(Starter.FolderRules(models, folders[..|folders| - 1]), Starter.FolderCover(models, folder));
    }
  }

  lemma OtherNeverApplies(accepts: (string, char) -> bool, r: Rule, root: string, name: string)
    requires ForOthers(r, root)
    ensures !Applies(accepts, r, Id(root, name))
  {
    if r.pattern != "" && r.pattern[0] in {'s', 'e'} {
      OtherKindsNeverMatch(accepts, r, root, name);
    } else {
      var package :| Literally(package) && package != root && '.' !in package && '.' !in root
                     && r.pattern == Written(package, Starter.Prefix(""));
      OtherPackagesNeverMatch(accepts, package, root, name);
    }
  }

  /** The theorem: whatever other kinds of rules stand beside them, each model of the project resolves to exactly one
      candidate, and is never ambiguous. */
  lemma EachModelHasOneCandidate(accepts: (string, char) -> bool, root: string, models: set<Starter.Model>, owner: string,
                                 team: string, others: seq<Rule>, m: Starter.Model)
    requires Starter.Nameable(models) && m in models
    requires Literally(root) && forall n :: n in models ==> Literally(n.name)
    requires forall r :: r in others ==> ForOthers(r, root)
    ensures var r := Resolve(accepts, RulesOf(root, Starter.ModelRules(models), owner, team) + others, Id(root, m.name));
      |r.candidates| == 1 && r.rule == Some(r.candidates[0]) && !r.ambiguous
  {
    var rules := RulesOf(root, Starter.ModelRules(models), owner, team);
    Starter.AllAreKeys(Sorted(Starter.Folders(models)), Starter.Folders(models));
    FoldersAreLiteral(models, Sorted(Starter.Folders(models)));
    Starter.EveryModelHasOneRule(models, m);
    CandidatesAreCounted(accepts, root, Starter.ModelRules(models), owner, team, m.name);
    forall r | r in others ensures !Applies(accepts, r, Id(root, m.name)) {
      OtherNeverApplies(accepts, r, root, m.name);
    }
    OthersAddNothing(accepts, rules, others, Id(root, m.name));
  }
}
