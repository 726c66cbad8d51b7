/** Ownership rules: the most specific matching pattern wins, and a tie is ambiguous. */
module Registry {
  import opened Ids

  // -- Patterns --------------------------------------------------------------------------

  /** A piece of a pattern; what a bracket accepts is told by its text. */
  datatype Piece = Literal(c: char) | One | Any | Bracket(text: string)

  /** The first ']' of a text. */
  function Find(s: string): (found: Option<nat>)
    ensures found.Some? ==> found.value < |s| && s[found.value] == ']'
  {
    if s == "" then None
    else if s[0] == ']' then Some(0)
    else match Find(s[1..]) case None => None case Some(k) => Some(k + 1)
  }

  /** Where a bracket closes, as the matcher reads it: a ']' first, or first after '!', is one of its characters. */
  function Closing(s: string): (close: Option<nat>)
    requires s != "" && s[0] == '['
    ensures close.Some? ==> 1 < close.value < |s|
  {
    var from := if |s| > 1 && s[1] == '!' then 2 else 1;
    var start := if from < |s| && s[from] == ']' then from + 1 else from;
    match Find(s[start..])
    case None => None
    case Some(k) => Some(start + k)
  }

  function Pieces(s: string): seq<Piece> {
    if s == "" then []
    else if s[0] == '*' then [Any] + Pieces(s[1..])
    else if s[0] == '?' then [One] + Pieces(s[1..])
    else if s[0] == '[' && Closing(s).Some? then [Bracket(s[1..Closing(s).value])] + Pieces(s[Closing(s).value + 1..])
    else [Literal(s[0])] + Pieces(s[1..])
  }

  /** `fnmatchcase`; `accepts` tells what a bracket matches. */
  predicate Matches(accepts: (string, char) -> bool, pieces: seq<Piece>, id: string)
    decreases |pieces|, |id|
  {
    if pieces == [] then id == ""
    else
      match pieces[0]
      case Any => Matches(accepts, pieces[1..], id) || (id != "" && Matches(accepts, pieces, id[1..]))
      case One => id != "" && Matches(accepts, pieces[1..], id[1..])
      case Literal(c) => id != "" && id[0] == c && Matches(accepts, pieces[1..], id[1..])
      case Bracket(text) => id != "" && accepts(text, id[0]) && Matches(accepts, pieces[1..], id[1..])
  }

  // -- Specificity -----------------------------------------------------------------------

  /** Where `specificity` has a bracket close: the first ']' from the second character after '['. */
  function ClosingSimply(s: string): (close: Option<nat>)
    requires s != "" && s[0] == '['
    ensures close.Some? ==> 1 < close.value < |s|
  {
    if |s| < 2 then None
    else match Find(s[2..]) case None => None case Some(k) => Some(k + 2)
  }

  /** What `specificity` takes for the next piece: its length, and whether it is a wildcard. */
  function NextLength(s: string): (n: nat)
    requires s != ""
    ensures 0 < n <= |s|
  {
    if s[0] == '[' && ClosingSimply(s).Some? then ClosingSimply(s).value + 1 else 1
  }

  predicate NextIsWildcard(s: string)
    requires s != ""
  {
    s[0] == '*' || s[0] == '?' || (s[0] == '[' && ClosingSimply(s).Some?)
  }

  /** Literal characters and wildcard tokens. */
  datatype Specific = Specific(literal: nat, wildcards: nat) {
    function Plus(wildcard: bool): Specific {
      if wildcard then Specific(literal, wildcards + 1) else Specific(literal + 1, wildcards)
    }
  }

  function Counted(s: string): Specific {
    if s == "" then Specific(0, 0) else Counted(s[NextLength(s)..]).Plus(NextIsWildcard(s))
  }

  /** What comes before and what is counted of the rest. */
  function Both(a: Specific, b: Specific): Specific {
    Specific(a.literal + b.literal, a.wildcards + b.wildcards)
  }

  lemma PlusMoves(a: Specific, wildcard: bool, b: Specific)
    ensures Both(a.Plus(wildcard), b) == Both(a, b.Plus(wildcard))
  {
  }

  /** What is counted so far and what is still to be counted make the whole. */
  ghost predicate Counting(pattern: string, rest: string, counted: Specific) {
    Both(counted, Counted(rest)) == Counted(pattern)
  }

  lemma CountingStep(pattern: string, rest: string, counted: Specific, wildcard: bool, length: nat)
    requires Counting(pattern, rest, counted) && rest != ""
    requires wildcard == NextIsWildcard(rest) && length == NextLength(rest)
    ensures Counting(pattern, rest[length..], counted.Plus(wildcard))
  {
    PlusMoves(counted, wildcard, Counted(rest[length..]));
  }

  /** The next piece: a wildcard, a bracket that closes, or one literal character. */
  method Next(rest: string) returns (wildcard: bool, length: nat)
    requires rest != ""
    ensures wildcard == NextIsWildcard(rest) && length == NextLength(rest)
  {
    wildcard, length := rest[0] == '*' || rest[0] == '?', 1;
    if rest[0] == '[' {
      var close := ClosingSimply(rest);
      if close.Some? {
        wildcard, length := true, close.value + 1;
      }
    }
  }

  method Specificity(pattern: string) returns (counted: Specific)
    ensures counted == Counted(pattern)
  {
    counted := Specific(0, 0);
    var rest := pattern;
    while rest != ""
      invariant Counting(pattern, rest, counted)
      decreases |rest|
    {
      var wildcard, length := Next(rest);
      CountingStep(pattern, rest, counted, wildcard, length);
      counted := counted.Plus(wildcard);
      rest := rest[length..];
    }
  }

  function Literals(pieces: seq<Piece>): nat {
    if pieces == [] then 0 else (if pieces[0].Literal? then 1 else 0) + Literals(pieces[1..])
  }

  function Wildcards(pieces: seq<Piece>): nat {
    if pieces == [] then 0 else (if pieces[0].Literal? then 0 else 1) + Wildcards(pieces[1..])
  }

  /** No piece the scan comes to starts with "[!]". */
  ghost predicate ScansAlike(s: string)
    decreases |s|
  {
    s == "" || (!("[!]" <= s) && ScansAlike(s[NextLength(s)..]))
  }

  lemma ClosingsAgree(s: string)
    requires s != "" && s[0] == '[' && !("[!]" <= s)
    ensures ClosingSimply(s) == Closing(s)
  {
    if |s| >= 3 {
      assert s[1..][1..] == s[2..] && s[2..][0] == s[2];
      assert s[..3] == [s[0], s[1], s[2]];
    } else if |s| == 2 {
      assert s[1..][1..] == s[2..] == "";
    }
  }

  /** The pieces of a pattern as `specificity` takes them: those of the matcher, but for where a bracket closes. */
  function Scanned(s: string): seq<Piece> {
    if s == "" then []
    else if s[0] == '*' then [Any] + Scanned(s[1..])
    else if s[0] == '?' then [One] + Scanned(s[1..])
    else if s[0] == '[' && ClosingSimply(s).Some?
    then [Bracket(s[1..ClosingSimply(s).value])] + Scanned(s[ClosingSimply(s).value + 1..])
    else [Literal(s[0])] + Scanned(s[1..])
  }

  lemma FirstScanned(s: string)
    requires s != ""
    ensures var rest := Scanned(s[NextLength(s)..]);
      Scanned(s) != [] && Scanned(s) == [Scanned(s)[0]] + rest && Scanned(s)[1..] == rest
    ensures Scanned(s)[0].Literal? <==> !NextIsWildcard(s)
  {
  }

  /** `specificity` counts the pieces it takes, whatever the pattern. */
  lemma {:induction false} SpecificityCountsScanned(s: string)
    ensures Counted(s) == Specific(Literals(Scanned(s)), Wildcards(Scanned(s)))
    decreases |s|
  {
    if s != "" {
      SpecificityCountsScanned(s[NextLength(s)..]);
      FirstScanned(s);
    }
  }

  /** What the two make of a bracket that starts with "[!]". */
  lemma NegatedFirst(s: string)
    requires "[!]" <= s
    ensures ClosingSimply(s) == Some(2) && (Closing(s).Some? ==> Closing(s).value > 2)
  {
    assert s[0] == '[' && s[1] == '!' && s[2] == ']' && s[2..][0] == ']';
  }

  lemma FirstDiffers(s: string)
    requires "[!]" <= s
    ensures Scanned(s) != Pieces(s)
  {
    NegatedFirst(s);
    assert Scanned(s)[0] == Bracket(s[1..2]);
    if Closing(s).Some? {
      assert Pieces(s)[0] == Bracket(s[1..Closing(s).value]);
      assert |s[1..2]| == 1 && |s[1..Closing(s).value]| > 1;
    } else {
      assert Pieces(s)[0] == Literal('[');
    }
  }

  lemma FirstRead(s: string)
    requires s != "" && (s[0] == '[' ==> ClosingSimply(s) == Closing(s))
    ensures Scanned(s) != [] && Pieces(s) == [Scanned(s)[0]] + Pieces(s[NextLength(s)..])
  {
  }

  lemma SameAfterTheFirst(x: Piece, a: seq<Piece>, b: seq<Piece>)
    ensures [x] + a == [x] + b <==> a == b
  {
    assert ([x] + a)[1..] == a && ([x] + b)[1..] == b;
  }

  /** Past a piece both take alike, they take the pattern alike exactly when they take the rest alike. */
  lemma RestDecides(s: string)
    requires s != "" && !("[!]" <= s)
    ensures var rest := s[NextLength(s)..]; Scanned(s) == Pieces(s) <==> Scanned(rest) == Pieces(rest)
  {
    if s[0] == '[' { ClosingsAgree(s); }
    var rest := s[NextLength(s)..];
    FirstScanned(s);
    FirstRead(s);
    SameAfterTheFirst(Scanned(s)[0], Scanned(rest), Pieces(rest));
  }

  /** They are the pieces the matcher reads exactly when the scan comes to no bracket that starts with "[!]". */
  lemma {:induction false} ScannedExactly(s: string)
    ensures Scanned(s) == Pieces(s) <==> ScansAlike(s)
    decreases |s|
  {
    if s != "" {
      if "[!]" <= s {
        FirstDiffers(s);
      } else {
        RestDecides(s);
        ScannedExactly(s[NextLength(s)..]);
      }
    }
  }

  // -- Where the two differ --------------------------------------------------------------

  lemma {:induction false} NoClosing(t: string)
    requires ']' !in t
    ensures Find(t) == None
  {
    if t != "" { NoClosing(t[1..]); }
  }

  lemma HasNoNegated(t: string)
    requires ']' !in t
    ensures !("[!]" <= t)
  {
    forall i | 0 <= i < |t| ensures t[i] != ']' {
      assert t[i] in t;
    }
    assert "[!]"[2] == ']';
  }

  lemma {:induction false} OpenScansAlike(t: string)
    requires ']' !in t
    ensures ScansAlike(t)
    decreases |t|
  {
    if t != "" {
      HasNoNegated(t);
      OpenScansAlike(t[NextLength(t)..]);
    }
  }

  lemma LiteralFirst(s: string)
    requires s != "" && s[0] != '*' && s[0] != '?' && (s[0] == '[' ==> Closing(s).None?)
    ensures Literals(Pieces(s)) == 1 + Literals(Pieces(s[1..])) && Wildcards(Pieces(s)) == Wildcards(Pieces(s[1..]))
  {
    assert Pieces(s) == [Literal(s[0])] + Pieces(s[1..]);
    assert Pieces(s)[1..] == Pieces(s[1..]);
  }

  /** "[!]" and then no other ']': one wildcard to `specificity`, three literal characters to the matcher. */
  lemma NegatedClosingDiffers(t: string)
    requires ']' !in t
    ensures var s := "[!]" + t;
      Literals(Pieces(s)) == Counted(s).literal + 3 && Wildcards(Pieces(s)) + 1 == Counted(s).wildcards
  {
    var s := "[!]" + t;
    assert s[1..] == "!]" + t && s[2..] == "]" + t && s[3..] == t;
    assert s[1..][1..] == s[2..] && s[2..][1..] == t;
    NoClosing(t);
    NegatedFirst(s);
    LiteralFirst(s);
    LiteralFirst(s[1..]);
    LiteralFirst(s[2..]);
    OpenScansAlike(t);
    ScannedExactly(t);
    SpecificityCountsScanned(t);
  }

  // -- Resolving -------------------------------------------------------------------------

  datatype Rule = Rule(pattern: string, owner: string, team: string)

  datatype Resolution = Resolution(rule: Option<Rule>, candidates: seq<Rule>, ambiguous: bool)

  predicate SameRank(a: Rule, b: Rule) {
    Counted(a.pattern) == Counted(b.pattern)
  }

  /** More literal characters, then fewer wildcards. */
  predicate MoreSpecific(a: Rule, b: Rule) {
    var x, y := Counted(a.pattern), Counted(b.pattern);
    x.literal > y.literal || (x.literal == y.literal && x.wildcards < y.wildcards)
  }

  predicate Before(a: Rule, b: Rule) {
    MoreSpecific(a, b) || (SameRank(a, b) && Leq(a.pattern, b.pattern))
  }

  lemma BeforeIsTotal(a: Rule, b: Rule)
    ensures Before(a, b) || Before(b, a)
  {
    LeqTotal(a.pattern, b.pattern);
  }

  lemma BeforeIsTransitive(a: Rule, b: Rule, c: Rule)
    requires Before(a, b) && Before(b, c)
    ensures Before(a, c)
  {
    if SameRank(a, c) && SameRank(a, b) { LeqTransitive(a.pattern, b.pattern, c.pattern); }
  }

  lemma BeforeIsAntisymmetric(a: Rule, b: Rule)
    requires Before(a, b) && Before(b, a)
    ensures a.pattern == b.pattern
  {
    LeqAntisymmetric(a.pattern, b.pattern);
  }

  predicate Applies(accepts: (string, char) -> bool, r: Rule, id: string) {
    Matches(accepts, Pieces(r.pattern), id)
  }

  function Insert(ranked: seq<Rule>, r: Rule): seq<Rule> {
    if ranked == [] then [r]
    else if Before(r, ranked[0]) then [r] + ranked
    else [ranked[0]] + Insert(ranked[1..], r)
  }

  /** The rules that match, the most specific first. */
  function Candidates(accepts: (string, char) -> bool, rules: seq<Rule>, id: string): seq<Rule> {
    if rules == [] then []
    else
      var before, last := Candidates(accepts, rules[..|rules| - 1], id), rules[|rules| - 1];
      if Applies(accepts, last, id) then Insert(before, last) else before
  }

  function Resolve(accepts: (string, char) -> bool, rules: seq<Rule>, id: string): Resolution {
    var c := Candidates(accepts, rules, id);
    Resolution(if c == [] then None else Some(c[0]), c, |c| >= 2 && SameRank(c[0], c[1]))
  }

  ghost predicate Ranked(rules: seq<Rule>) {
    forall i, j :: 0 <= i < j < |rules| ==> Before(rules[i], rules[j])
  }

  lemma RankedFirst(first: Rule, rest: seq<Rule>)
    requires Ranked(rest) && forall x :: x in rest ==> Before(first, x)
    ensures Ranked([first] + rest)
  {
    var all := [first] + rest;
    forall i, j | 0 <= i < j < |all| ensures Before(all[i], all[j]) {
      assert all[j] == rest[j - 1] && all[j] in rest;
    }
  }

  lemma FirstIsBefore(ranked: seq<Rule>, r: Rule)
    requires Ranked(ranked) && ranked != [] && Before(r, ranked[0])
    ensures forall x :: x in ranked ==> Before(r, x)
  {
    forall x | x in ranked ensures Before(r, x) {
      var j :| 0 <= j < |ranked| && ranked[j] == x;
      if j > 0 { BeforeIsTransitive(r, ranked[0], ranked[j]); }
    }
  }

  lemma RestIsAfter(ranked: seq<Rule>)
    requires Ranked(ranked) && ranked != []
    ensures Ranked(ranked[1..]) && (forall x :: x in ranked[1..] ==> Before(ranked[0], x))
    ensures ranked == [ranked[0]] + ranked[1..]
  {
  }

  lemma {:induction false} InsertIs(ranked: seq<Rule>, r: Rule)
    ensures multiset(Insert(ranked, r)) == multiset(ranked) + multiset{r}
    ensures forall x :: x in Insert(ranked, r) <==> x in ranked || x == r
  {
    if ranked != [] {
      assert ranked == [ranked[0]] + ranked[1..];
      if !Before(r, ranked[0]) { InsertIs(ranked[1..], r); }
    }
  }

  lemma {:induction false} InsertKeeps(ranked: seq<Rule>, r: Rule)
    requires Ranked(ranked)
    ensures Ranked(Insert(ranked, r))
  {
    if ranked != [] {
      BeforeIsTotal(r, ranked[0]);
      RestIsAfter(ranked);
      if Before(r, ranked[0]) {
        FirstIsBefore(ranked, r);
        RankedFirst(r, ranked);
      } else {
        InsertKeeps(ranked[1..], r);
        InsertIs(ranked[1..], r);
        RankedFirst(ranked[0], Insert(ranked[1..], r));
      }
    }
  }

  /** The candidates are the rules that match, as often as they are written, the most specific first. */
  lemma {:induction false} CandidatesAreThose(accepts: (string, char) -> bool, rules: seq<Rule>, id: string)
    ensures Ranked(Candidates(accepts, rules, id))
    ensures forall r :: multiset(Candidates(accepts, rules, id))[r] == if Applies(accepts, r, id) then multiset(rules)[r] else 0
  {
    if rules != [] {
      var n := |rules| - 1;
      CandidatesAreThose(accepts, rules[..n], id);
      assert rules == rules[..n] + [rules[n]];
      if Applies(accepts, rules[n], id) {
        InsertKeeps(Candidates(accepts, rules[..n], id), rules[n]);
        InsertIs(Candidates(accepts, rules[..n], id), rules[n]);
      }
    }
  }

  lemma InMultiset(s: seq<Rule>, r: Rule)
    ensures r in s <==> multiset(s)[r] > 0
  {
  }

  /** Among the pieces `specificity` takes, more literal characters than another pattern, or as many and fewer wildcards, or
    * as many of both and a text that is no later. */
  ghost predicate Outranks(a: string, b: string) {
    var p, q := Scanned(a), Scanned(b);
    && Literals(p) >= Literals(q)
    && (Literals(p) == Literals(q) ==> Wildcards(p) <= Wildcards(q) && (Wildcards(p) == Wildcards(q) ==> Leq(a, b)))
  }

  lemma BeforeOutranks(a: Rule, b: Rule)
    ensures Before(a, b) <==> Outranks(a.pattern, b.pattern)
  {
    SpecificityCountsScanned(a.pattern);
    SpecificityCountsScanned(b.pattern);
  }

  lemma OutranksItself(a: string)
    ensures Outranks(a, a)
  {
    LeqTotal(a, a);
  }

  /** The rule resolved is one that matches, and outranks every rule that matches. */
  lemma TheMostSpecificWins(accepts: (string, char) -> bool, rules: seq<Rule>, id: string)
    ensures var r := Resolve(accepts, rules, id).rule;
      if r.None? then forall x :: x in rules ==> !Applies(accepts, x, id)
      else r.value in rules && Applies(accepts, r.value, id)
           && forall x :: x in rules && Applies(accepts, x, id) ==> Outranks(r.value.pattern, x.pattern)
  {
    var c := Candidates(accepts, rules, id);
    CandidatesAreThose(accepts, rules, id);
    forall x ensures x in c <==> x in rules && Applies(accepts, x, id) {
      InMultiset(c, x);
      InMultiset(rules, x);
    }
    if c != [] {
      assert c[0] in c;
      forall x | x in c ensures Outranks(c[0].pattern, x.pattern) {
        var i :| 0 <= i < |c| && c[i] == x;
        OutranksItself(x.pattern);
        BeforeOutranks(c[0], c[i]);
      }
    }
  }

  // -- File order does not matter --------------------------------------------------------

  ghost predicate DistinctPatterns(rules: seq<Rule>) {
    forall i, j :: 0 <= i < j < |rules| ==> rules[i].pattern != rules[j].pattern
  }

  /** A ranked list without repeated patterns is told by its rules. */
  lemma {:induction false} RankedIsUnique(a: seq<Rule>, b: seq<Rule>)
    requires Ranked(a) && Ranked(b) && DistinctPatterns(a) && multiset(a) == multiset(b)
    ensures a == b
  {
    if a == [] {
      assert |b| == |multiset(b)|;
    } else {
      assert |a| == |multiset(a)| && |b| == |multiset(b)|;
      FirstIsFirst(a, b);
      TailMultiset(a);
      TailMultiset(b);
      RankedIsUnique(a[1..], b[1..]);
    }
  }

  lemma TailMultiset(a: seq<Rule>)
    requires a != []
    ensures a == [a[0]] + a[1..] && multiset(a[1..]) == multiset(a) - multiset{a[0]}
  {
    assert a == [a[0]] + a[1..];
  }

  lemma FirstIsFirst(a: seq<Rule>, b: seq<Rule>)
    requires Ranked(a) && Ranked(b) && DistinctPatterns(a) && multiset(a) == multiset(b) && a != [] && b != []
    ensures a[0] == b[0]
  {
    assert b[0] in multiset(b) && a[0] in multiset(a);
    assert b[0] in a && a[0] in b;
    var i :| 0 <= i < |a| && a[i] == b[0];
    var j :| 0 <= j < |b| && b[j] == a[0];
    if i > 0 && j > 0 {
      BeforeIsAntisymmetric(a[0], a[i]);
    }
  }

  lemma {:induction false} CandidatesDistinct(accepts: (string, char) -> bool, rules: seq<Rule>, id: string)
    requires DistinctPatterns(rules)
    ensures DistinctPatterns(Candidates(accepts, rules, id))
  {
    if rules != [] {
      var n := |rules| - 1;
      var before := Candidates(accepts, rules[..n], id);
      CandidatesDistinct(accepts, rules[..n], id);
      CandidatesAreThose(accepts, rules[..n], id);
      if Applies(accepts, rules[n], id) {
        forall x | x in before ensures x.pattern != rules[n].pattern {
          InMultiset(before, x);
          InMultiset(rules[..n], x);
        }
        InsertDistinct(before, rules[n]);
      }
    }
  }

  lemma {:induction false} InsertDistinct(ranked: seq<Rule>, r: Rule)
    requires DistinctPatterns(ranked) && forall x :: x in ranked ==> x.pattern != r.pattern
    ensures DistinctPatterns(Insert(ranked, r))
    ensures forall x :: x in Insert(ranked, r) ==> x in ranked || x == r
  {
    if ranked != [] && !Before(r, ranked[0]) {
      InsertDistinct(ranked[1..], r);
      var rest := Insert(ranked[1..], r);
      forall j | 0 <= j < |rest| ensures rest[j].pattern != ranked[0].pattern {
        assert rest[j] in rest;
      }
    }
  }

  /** The theorem: reordering the lines of the file hands no dataset to anyone else. */
  lemma FileOrderDoesNotMatter(accepts: (string, char) -> bool, rules: seq<Rule>, other: seq<Rule>, id: string)
    requires DistinctPatterns(rules) && multiset(rules) == multiset(other)
    ensures Resolve(accepts, rules, id) == Resolve(accepts, other, id)
  {
    var a, b := Candidates(accepts, rules, id), Candidates(accepts, other, id);
    CandidatesAreThose(accepts, rules, id);
    CandidatesAreThose(accepts, other, id);
    CandidatesDistinct(accepts, rules, id);
    assert multiset(a) == multiset(b);
    RankedIsUnique(a, b);
  }

  /** It is ambiguous exactly when two of the rules that match are as specific as any. */
  lemma AmbiguousExactlyOnATie(accepts: (string, char) -> bool, rules: seq<Rule>, id: string)
    requires DistinctPatterns(rules)
    ensures Resolve(accepts, rules, id).ambiguous
       <==> exists a, b :: a in rules && b in rules && a != b && Top(accepts, rules, id, a) && Top(accepts, rules, id, b)
  {
    var c := Candidates(accepts, rules, id);
    CandidatesAreThose(accepts, rules, id);
    CandidatesDistinct(accepts, rules, id);
    forall x ensures x in c <==> x in rules && Applies(accepts, x, id) {
      InMultiset(c, x);
      InMultiset(rules, x);
    }
    if |c| >= 2 && SameRank(c[0], c[1]) {
      assert c[0] in c && c[1] in c;
      FirstIsTop(accepts, rules, id, c);
      assert Top(accepts, rules, id, c[1]);
    }
    if a, b :| a in rules && b in rules && a != b && Top(accepts, rules, id, a) && Top(accepts, rules, id, b) {
      TiedAtTheTop(c, a, b);
    }
  }

  /** A rule that matches, and that no rule that matches is more specific than. */
  ghost predicate Top(accepts: (string, char) -> bool, rules: seq<Rule>, id: string, r: Rule) {
    Applies(accepts, r, id) && forall x :: x in rules && Applies(accepts, x, id) ==> !MoreSpecific(x, r)
  }

  lemma FirstIsTop(accepts: (string, char) -> bool, rules: seq<Rule>, id: string, c: seq<Rule>)
    requires Ranked(c) && c != [] && forall x :: x in c <==> x in rules && Applies(accepts, x, id)
    ensures Top(accepts, rules, id, c[0])
  {
    assert c[0] in c;
    forall x | x in c ensures !MoreSpecific(x, c[0]) {
      var i :| 0 <= i < |c| && c[i] == x;
      if i > 0 { assert Before(c[0], c[i]); }
    }
  }

  lemma TiedAtTheTop(c: seq<Rule>, a: Rule, b: Rule)
    requires Ranked(c) && a in c && b in c && a != b
    requires forall x :: x in c ==> !MoreSpecific(x, a) && !MoreSpecific(x, b)
    ensures |c| >= 2 && SameRank(c[0], c[1])
  {
    var i :| 0 <= i < |c| && c[i] == a;
    var j :| 0 <= j < |c| && c[j] == b;
    assert c[0] in c && c[1] in c;
    var last := if i < j then j else i;
    assert Before(c[0], c[1]);
    if last > 1 { assert Before(c[1], c[last]); }
    assert !MoreSpecific(c[0], c[last]);
    assert Before(c[0], c[last]);
  }
}
