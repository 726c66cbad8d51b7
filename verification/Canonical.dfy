/** The canonical rendering of a row: text escaped and joined by bars, so that it can be read back. */
module Canonical {
  import opened Ids

  // -- Escaping --------------------------------------------------------------------------

  function ReplaceAll(s: string, c: char, with: string): string {
    if s == "" then "" else (if s[0] == c then with else [s[0]]) + ReplaceAll(s[1..], c, with)
  }

  /** `text.replace("\\", "\\\\").replace("|", "\\|")`. */
  function Escape(text: string): string {
    ReplaceAll(ReplaceAll(text, '\\', "\\\\"), '|', "\\|")
  }

  /** What one character becomes. */
  function Escaped(c: char): string {
    if c == '\\' then "\\\\" else if c == '|' then "\\|" else [c]
  }

  function Replaced(x: char, c: char, with: string): string {
    if x == c then with else [x]
  }

  lemma ReplaceStep(x: char, rest: string, c: char, with: string)
    ensures ReplaceAll([x] + rest, c, with) == Replaced(x, c, with) + ReplaceAll(rest, c, with)
  {
    assert ([x] + rest)[1..] == rest;
  }

  lemma {:induction false} ReplaceJoins(a: string, b: string, c: char, with: string)
    ensures ReplaceAll(a + b, c, with) == ReplaceAll(a, c, with) + ReplaceAll(b, c, with)
  {
    if a == "" {
      assert a + b == b;
    } else {
      var x, rest := a[0], a[1..];
      assert a == [x] + rest;
      Associative([x], rest, b);
      ReplaceJoins(rest, b, c, with);
      ReplaceStep(x, rest, c, with);
      ReplaceStep(x, rest + b, c, with);
      Associative(Replaced(x, c, with), ReplaceAll(rest, c, with), ReplaceAll(b, c, with));
    }
  }

  /** The two replacements, one after the other, escape each character on its own. */
  lemma EscapeStep(text: string)
    requires text != ""
    ensures Escape(text) == Escaped(text[0]) + Escape(text[1..])
  {
    var first := if text[0] == '\\' then "\\\\" else [text[0]];
    ReplaceJoins(first, ReplaceAll(text[1..], '\\', "\\\\"), '|', "\\|");
    assert "\\\\"[1..] == "\\" && "\\"[1..] == "" && [text[0]][1..] == "";
    assert ReplaceAll("\\", '|', "\\|") == "\\";
    assert ReplaceAll("\\\\", '|', "\\|") == "\\\\";
  }

  function Unescape(s: string): string {
    if s == "" then ""
    else if s[0] == '\\' && |s| >= 2 then [s[1]] + Unescape(s[2..])
    else [s[0]] + Unescape(s[1..])
  }

  lemma {:induction false} UnescapeEscape(text: string)
    ensures Unescape(Escape(text)) == text
  {
    if text != "" {
      UnescapeEscape(text[1..]);
      EscapeStep(text);
      var rest := Escape(text[1..]);
      if text[0] == '\\' || text[0] == '|' {
        assert Escape(text)[2..] == rest && Escape(text)[0] == '\\' && Escape(text)[1] == text[0];
      } else {
        assert Escape(text)[1..] == rest;
      }
    }
  }

  // -- Cells and rows --------------------------------------------------------------------

  /** A value as text, or NULL. */
  datatype Cell = Null | Text(text: string)

  const NULL := "\\N"

  function Render(c: Cell): string {
    match c
    case Null => NULL
    case Text(text) => Escape(text)
  }

  function Read(s: string): Cell {
    if s == NULL then Null else Text(Unescape(s))
  }

  function Join(values: seq<string>): string {
    if values == [] then ""
    else if |values| == 1 then values[0]
    else values[0] + "|" + Join(values[1..])
  }

  function RenderAll(cells: seq<Cell>): seq<string> {
    if cells == [] then [] else [Render(cells[0])] + RenderAll(cells[1..])
  }

  function RowString(cells: seq<Cell>): string {
    Join(RenderAll(cells))
  }

  /** The fields of a row: cut at every bar no backslash stands before. */
  function Fields(s: string): (fields: seq<string>)
    ensures fields != []
  {
    if s == "" then [""]
    else if s[0] == '\\' && |s| >= 2 then var rest := Fields(s[2..]); [s[..2] + rest[0]] + rest[1..]
    else if s[0] == '|' then [""] + Fields(s[1..])
    else var rest := Fields(s[1..]); [[s[0]] + rest[0]] + rest[1..]
  }

  function ReadAll(fields: seq<string>): seq<Cell> {
    if fields == [] then [] else [Read(fields[0])] + ReadAll(fields[1..])
  }

  /** Every backslash stands before a character of its own, and every bar after a backslash. */
  predicate Closed(s: string) {
    s == "" || (if s[0] == '\\' then |s| >= 2 && Closed(s[2..]) else s[0] != '|' && Closed(s[1..]))
  }

  lemma {:induction false} EscapeIsClosed(text: string)
    ensures Closed(Escape(text))
  {
    if text != "" {
      EscapeIsClosed(text[1..]);
      EscapeStep(text);
      var rest := Escape(text[1..]);
      if text[0] == '\\' || text[0] == '|' {
        assert Escape(text)[2..] == rest;
      } else {
        assert Escape(text)[1..] == rest;
      }
    }
  }

  lemma RenderIsClosed(c: Cell)
    ensures Closed(Render(c))
  {
    match c {
      case Null => assert NULL[2..] == "";
      case Text(text) => EscapeIsClosed(text);
    }
  }

  /** Reading on after one character, or an escaped one. */
  function Prepend(head: string, fields: seq<string>): seq<string>
    requires fields != []
  {
    [head + fields[0]] + fields[1..]
  }

  lemma PlainStep(s: string, rest: string)
    requires s != "" && s[0] != '\\' && s[0] != '|'
    ensures Fields(s + rest) == Prepend([s[0]], Fields(s[1..] + rest))
  {
    assert (s + rest)[0] == s[0] && (s + rest)[1..] == s[1..] + rest;
  }

  lemma EscapedStep(s: string, rest: string)
    requires |s| >= 2 && s[0] == '\\'
    ensures Fields(s + rest) == Prepend(s[..2], Fields(s[2..] + rest))
  {
    assert (s + rest)[0] == s[0] && (s + rest)[..2] == s[..2] && (s + rest)[2..] == s[2..] + rest;
  }

  lemma PrependOne(head: string, s: string, rest: seq<string>)
    ensures Prepend(head, [s] + rest) == [head + s] + rest
  {
    assert ([s] + rest)[1..] == rest;
  }

  lemma CutAt(s: string, k: nat)
    requires k <= |s|
    ensures s[..k] + s[k..] == s && s + "" == s && s[k..] + "" == s[k..]
    ensures k == 1 ==> s[..1] == [s[0]]
  {
  }

  lemma {:induction false} FieldsOfOne(s: string)
    requires Closed(s)
    ensures Fields(s) == [s]
  {
    if s == "" {
    } else if s[0] == '\\' {
      CutAt(s, 2);
      EscapedStep(s, "");
      FieldsOfOne(s[2..]);
      PrependOne(s[..2], s[2..], []);
    } else {
      CutAt(s, 1);
      PlainStep(s, "");
      FieldsOfOne(s[1..]);
      PrependOne([s[0]], s[1..], []);
    }
  }

  lemma {:induction false} FieldsOfMore(s: string, rest: string)
    requires Closed(s)
    ensures Fields(s + ("|" + rest)) == [s] + Fields(rest)
  {
    if s == "" {
      assert s + ("|" + rest) == "|" + rest && ("|" + rest)[1..] == rest;
    } else if s[0] == '\\' {
      CutAt(s, 2);
      EscapedStep(s, "|" + rest);
      FieldsOfMore(s[2..], rest);
      PrependOne(s[..2], s[2..], Fields(rest));
    } else {
      CutAt(s, 1);
      PlainStep(s, "|" + rest);
      FieldsOfMore(s[1..], rest);
      PrependOne([s[0]], s[1..], Fields(rest));
    }
  }

  /** No text is rendered as NULL is. */
  lemma NoTextIsNull(text: string)
    ensures Escape(text) != NULL
  {
    assert NULL[0] == '\\' && NULL[1] == 'N';
    if text != "" {
      EscapeStep(text);
      assert Escape(text)[0] == Escaped(text[0])[0];
      assert |Escaped(text[0])| == 2 ==> Escape(text)[1] == text[0];
    }
  }

  lemma ReadRender(c: Cell)
    ensures Read(Render(c)) == c
  {
    if c.Text? {
      NoTextIsNull(c.text);
      UnescapeEscape(c.text);
    }
  }

  lemma ReadAllStep(first: string, rest: seq<string>)
    ensures ReadAll([first] + rest) == [Read(first)] + ReadAll(rest)
  {
    assert ([first] + rest)[1..] == rest;
  }

  /** The theorem: a row of at least one value can be read back. */
  lemma {:induction false} RowsReadBack(cells: seq<Cell>)
    requires cells != []
    ensures ReadAll(Fields(RowString(cells))) == cells
  {
    var first := Render(cells[0]);
    RenderIsClosed(cells[0]);
    ReadRender(cells[0]);
    assert cells == [cells[0]] + cells[1..];
    if |cells| == 1 {
      RenderedOne(cells);
      FieldsOfOne(first);
      ReadAllStep(first, []);
    } else {
      RowsReadBack(cells[1..]);
      RenderedRest(cells);
      FieldsOfMore(first, RowString(cells[1..]));
      ReadAllStep(first, Fields(RowString(cells[1..])));
    }
  }

  lemma RenderedOne(cells: seq<Cell>)
    requires |cells| == 1
    ensures RowString(cells) == Render(cells[0])
  {
    assert RenderAll(cells[1..]) == [];
  }

  lemma RenderedRest(cells: seq<Cell>)
    requires |cells| > 1
    ensures RowString(cells) == Render(cells[0]) + ("|" + RowString(cells[1..]))
  {
    assert |RenderAll(cells[1..])| >= 1;
    assert RenderAll(cells)[1..] == RenderAll(cells[1..]);
    assert RenderAll(cells)[0] + "|" + Join(RenderAll(cells[1..])) == RenderAll(cells)[0] + ("|" + Join(RenderAll(cells[1..])));
  }

  /** So different rows, and different keys, have different strings; without a value they would not. */
  lemma StringsTellRowsApart(a: seq<Cell>, b: seq<Cell>)
    requires a != [] && b != []
    ensures RowString(a) == RowString(b) <==> a == b
  {
    RowsReadBack(a);
    RowsReadBack(b);
  }

  lemma NoValueLooksLikeAnEmptyOne()
    ensures RowString([]) == RowString([Text("")])
  {
    assert RenderAll([Text("")]) == [Render(Text(""))] by { assert [Text("")][1..] == []; }
  }
}
