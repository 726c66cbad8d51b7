/** What a pattern says: its pieces are its text cut up, and it matches an id that can be cut up to fit them. */
module Patterns {
  import opened Ids
  import opened Registry

  // -- Matching is cutting up ------------------------------------------------------------

  function Joined(cuts: seq<string>): string {
    if cuts == [] then "" else cuts[0] + Joined(cuts[1..])
  }

  /** A part of an id that a piece takes: any text for '*', one character for the others, that or one it accepts. */
  ghost predicate Takes(accepts: (string, char) -> bool, piece: Piece, part: string) {
    match piece
    case Any => true
    case One => |part| == 1
    case Literal(c) => part == [c]
    case Bracket(text) => |part| == 1 && accepts(text, part[0])
  }

  /** The parts, one for each piece, make the id. */
  ghost predicate CutsUp(accepts: (string, char) -> bool, pieces: seq<Piece>, id: string, cuts: seq<string>) {
    && |cuts| == |pieces|
    && Joined(cuts) == id
    && forall i :: 0 <= i < |cuts| ==> Takes(accepts, pieces[i], cuts[i])
  }

  lemma CutFirst(accepts: (string, char) -> bool, pieces: seq<Piece>, id: string, first: string, rest: seq<string>)
    requires pieces != [] && first <= id && Takes(accepts, pieces[0], first)
    requires CutsUp(accepts, pieces[1..], id[|first|..], rest)
    ensures CutsUp(accepts, pieces, id, [first] + rest)
  {
    var cuts := [first] + rest;
    assert cuts[1..] == rest;
    forall i | 0 <= i < |cuts| ensures Takes(accepts, pieces[i], cuts[i]) {
      if i > 0 { assert Takes(accepts, pieces[1..][i - 1], rest[i - 1]); }
    }
  }

  /** One character more for the '*' that comes first. */
  lemma CutLonger(accepts: (string, char) -> bool, pieces: seq<Piece>, id: string, cuts: seq<string>)
    requires pieces != [] && pieces[0].Any? && id != "" && CutsUp(accepts, pieces, id[1..], cuts)
    ensures CutsUp(accepts, pieces, id, cuts[0 := id[..1] + cuts[0]])
  {
    var longer := cuts[0 := id[..1] + cuts[0]];
    assert longer[1..] == cuts[1..];
    assert id == id[..1] + id[1..];
  }

  lemma {:induction false} MatchedIsCut(accepts: (string, char) -> bool, pieces: seq<Piece>, id: string) returns (cuts: seq<string>)
    requires Matches(accepts, pieces, id)
    ensures CutsUp(accepts, pieces, id, cuts)
    decreases |pieces|, |id|
  {
    if pieces == [] {
      cuts := [];
    } else if pieces[0].Any? && !Matches(accepts, pieces[1..], id) {
      var shorter := MatchedIsCut(accepts, pieces, id[1..]);
      CutLonger(accepts, pieces, id, shorter);
      cuts := shorter[0 := id[..1] + shorter[0]];
    } else {
      var first := if pieces[0].Any? then "" else id[..1];
      assert id[|first|..] == if pieces[0].Any? then id else id[1..];
      var rest := MatchedIsCut(accepts, pieces[1..], id[|first|..]);
      CutFirst(accepts, pieces, id, first, rest);
      cuts := [first] + rest;
    }
  }

  /** The part taken first, and the rest cut up. */
  lemma RestIsCut(accepts: (string, char) -> bool, pieces: seq<Piece>, id: string, cuts: seq<string>)
    requires pieces != [] && CutsUp(accepts, pieces, id, cuts)
    ensures Takes(accepts, pieces[0], cuts[0]) && cuts[0] <= id && CutsUp(accepts, pieces[1..], id[|cuts[0]|..], cuts[1..])
  {
    assert id == cuts[0] + Joined(cuts[1..]);
  }

  lemma {:induction false} AnyTakesText(accepts: (string, char) -> bool, pieces: seq<Piece>, text: string, id: string)
    requires pieces != [] && pieces[0].Any? && Matches(accepts, pieces[1..], id)
    ensures Matches(accepts, pieces, text + id)
  {
    if text == "" {
      assert text + id == id;
    } else {
      AnyTakesText(accepts, pieces, text[1..], id);
      assert (text + id)[1..] == text[1..] + id;
    }
  }

  lemma {:induction false} CutIsMatched(accepts: (string, char) -> bool, pieces: seq<Piece>, id: string, cuts: seq<string>)
    requires CutsUp(accepts, pieces, id, cuts)
    ensures Matches(accepts, pieces, id)
    decreases |pieces|
  {
    if pieces != [] {
      RestIsCut(accepts, pieces, id, cuts);
      var rest := id[|cuts[0]|..];
      CutIsMatched(accepts, pieces[1..], rest, cuts[1..]);
      assert id == cuts[0] + rest;
      if pieces[0].Any? { AnyTakesText(accepts, pieces, cuts[0], rest); }
    }
  }

  /** A pattern matches an id exactly when the id can be cut up so that each piece takes its part. */
  lemma MatchesExactlyWhenCutUp(accepts: (string, char) -> bool, pieces: seq<Piece>, id: string)
    ensures Matches(accepts, pieces, id) <==> exists cuts :: CutsUp(accepts, pieces, id, cuts)
  {
    if Matches(accepts, pieces, id) {
      var cuts := MatchedIsCut(accepts, pieces, id);
    }
    if cuts :| CutsUp(accepts, pieces, id, cuts) {
      CutIsMatched(accepts, pieces, id, cuts);
    }
  }

  // -- The pieces are the text -----------------------------------------------------------

  function Text(piece: Piece): string {
    match piece
    case Any => "*"
    case One => "?"
    case Literal(c) => [c]
    case Bracket(text) => "[" + text + "]"
  }

  function TextOf(pieces: seq<Piece>): string {
    if pieces == [] then "" else Text(pieces[0]) + TextOf(pieces[1..])
  }

  /** The first place after '[' at which a ']' would not close it: a '!' may come before. */
  function Kept(inside: string): nat {
    if inside != "" && inside[0] == '!' then 1 else 0
  }

  /** There is a ']' that closes the bracket that `inside` comes after. */
  ghost predicate Closes(inside: string) {
    exists i :: Kept(inside) < i < |inside| && inside[i] == ']'
  }

  /** A piece read before some text: a bracket up to the first ']' that closes it, a literal '[' when none does. */
  ghost predicate ReadBefore(piece: Piece, after: string) {
    match piece
    case Any => true
    case One => true
    case Literal(c) => c != '*' && c != '?' && (c == '[' ==> !Closes(after))
    case Bracket(text) => |text| > Kept(text) && !Closes(text)
  }

  ghost predicate AllRead(pieces: seq<Piece>) {
    pieces == [] || (ReadBefore(pieces[0], TextOf(pieces[1..])) && AllRead(pieces[1..]))
  }

  lemma {:induction false} FindIsFirst(s: string)
    ensures Find(s).None? ==> ']' !in s
    ensures Find(s).Some? ==> ']' !in s[..Find(s).value]
  {
    if s != "" && s[0] != ']' {
      FindIsFirst(s[1..]);
      assert s == [s[0]] + s[1..];
      if Find(s).Some? { assert s[..Find(s).value] == [s[0]] + s[1..][..Find(s[1..]).value]; }
    }
  }

  /** Where the search for the ']' begins. */
  function Start(s: string): (start: nat)
    requires s != "" && s[0] == '['
    ensures start == Kept(s[1..]) + 1 || (start == Kept(s[1..]) + 2 && start - 1 < |s| && s[start - 1] == ']')
    ensures start <= |s|
  {
    var from := if |s| > 1 && s[1] == '!' then 2 else 1;
    if from < |s| && s[from] == ']' then from + 1 else from
  }

  lemma ClosedAt(s: string, start: nat, close: nat)
    requires s != "" && s[0] == '[' && start == Start(s) && start <= close < |s|
    requires s[close] == ']' && ']' !in s[start..][..close - start]
    ensures Closes(s[1..]) && !Closes(s[1..close]) && close - 1 > Kept(s[1..close])
  {
    var inside := s[1..];
    assert inside[close - 1] == ']';
    assert Kept(s[1..close]) == Kept(inside);
    forall i | Kept(inside) < i < close - 1 ensures s[1..close][i] != ']' {
      assert s[start..][..close - start][i + 1 - start] == s[i + 1];
    }
  }

  lemma NeverClosed(s: string, start: nat)
    requires s != "" && s[0] == '[' && start == Start(s) && ']' !in s[start..]
    ensures !Closes(s[1..])
  {
    var inside := s[1..];
    forall i | Kept(inside) < i < |inside| ensures inside[i] != ']' {
      assert s[start..][i + 1 - start] == s[i + 1];
    }
  }

  /** A bracket is closed by the first ']' past where one could stand for itself. */
  lemma ClosingIs(s: string)
    requires s != "" && s[0] == '['
    ensures Closing(s).Some? <==> Closes(s[1..])
    ensures Closing(s).Some? ==> var close := Closing(s).value;
      s[close] == ']' && !Closes(s[1..close]) && close - 1 > Kept(s[1..close])
  {
    var start := Start(s);
    FindIsFirst(s[start..]);
    if Find(s[start..]).Some? {
      ClosedAt(s, start, start + Find(s[start..]).value);
    } else {
      NeverClosed(s, start);
    }
  }

  lemma CutAt(s: string, close: nat)
    requires 0 < close < |s| && s[0] == '[' && s[close] == ']'
    ensures s == Text(Bracket(s[1..close])) + s[close + 1..]
  {
  }

  lemma FirstRests(first: Piece, rest: seq<Piece>)
    requires AllRead(rest) && ReadBefore(first, TextOf(rest))
    ensures AllRead([first] + rest) && TextOf([first] + rest) == Text(first) + TextOf(rest)
  {
    assert ([first] + rest)[1..] == rest;
  }

  ghost predicate Reads(pieces: seq<Piece>, s: string) {
    TextOf(pieces) == s && AllRead(pieces)
  }

  lemma ReadsBracket(s: string, close: nat, rest: seq<Piece>)
    requires s != "" && s[0] == '[' && Closing(s) == Some(close) && Reads(rest, s[close + 1..])
    ensures Reads([Bracket(s[1..close])] + rest, s)
  {
    ClosingIs(s);
    CutAt(s, close);
    FirstRests(Bracket(s[1..close]), rest);
  }

  lemma ReadsOther(s: string, first: Piece, rest: seq<Piece>)
    requires s != "" && Text(first) == [s[0]] && Reads(rest, s[1..]) && (s[0] == '[' ==> Closing(s).None?)
    requires first.Literal? ==> s[0] != '*' && s[0] != '?'
    ensures Reads([first] + rest, s)
  {
    if s[0] == '[' { ClosingIs(s); }
    assert s == [s[0]] + s[1..];
    FirstRests(first, rest);
  }

  /** The pieces of a pattern are its text, cut where each piece ends. */
  lemma {:induction false} PiecesAreTheText(s: string)
    ensures TextOf(Pieces(s)) == s && AllRead(Pieces(s))
    decreases |s|
  {
    if s != "" {
      if s[0] == '[' && Closing(s).Some? {
        PiecesAreTheText(s[Closing(s).value + 1..]);
        ReadsBracket(s, Closing(s).value, Pieces(s[Closing(s).value + 1..]));
      } else {
        PiecesAreTheText(s[1..]);
        ReadsOther(s, Pieces(s)[0], Pieces(s[1..]));
      }
    }
  }
}
