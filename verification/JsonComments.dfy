/**
 What the minifier keeps of any text. A text is cut into blanks, comments, string literals and other characters; the
 minifier stays inside it exactly when that can be done, and then keeps the literals and the other characters.
 */
module JsonComments {

  import opened Options
  import M = JsonMinify

  /** A blank, a line comment up to its line break, a block comment, the mark that opens and closes one at once, a
      string literal, or one other character. */
  datatype Part =
    | White(c: char)
    | Line(text: string)
    | Block(text: string)
    | Mark
    | Literal(text: string)
    | Other(c: char)

  function PartText(p: Part): string {
    match p
    case White(c) => [c]
    case Line(text) => "//" + text
    case Block(text) => "/*" + (text + "*/")
    case Mark => "/*/"
    case Literal(text) => "\"" + (text + "\"")
    case Other(c) => [c]
  }

  /** What stands between two quotes: characters, and pairs of a backslash and any character. */
  predicate IsLiteral(text: string) {
    text == "" ||
    (if text[0] == '\\' then |text| > 1 && IsLiteral(text[2..]) else text[0] != '\"' && IsLiteral(text[1..]))
  }

  predicate OneLine(text: string) {
    forall i :: 0 <= i < |text| ==> text[i] != '\n'
  }

  /** No slash stands behind a star. */
  predicate NoMark(text: string) {
    forall i :: 0 < i < |text| && text[i] == '/' ==> text[i - 1] != '*'
  }

  /** A part before the text y. */
  predicate IsPart(p: Part, y: string) {
    match p
    case White(c) => c == ' ' || c == '\t' || c == '\r' || c == '\n'
    case Line(text) => OneLine(text) && (y == "" || y[0] == '\n')
    case Block(text) => NoMark("*" + text)
    case Mark => true
    case Literal(text) => IsLiteral(text)
    case Other(c) =>
      && c != ' ' && c != '\t' && c != '\r' && c != '\n' && c != '\"'
      && (c == '/' ==> y == "" || (y[0] != '/' && y[0] != '*'))
  }

  function Text(ps: seq<Part>): string {
    if ps == [] then "" else PartText(ps[0]) + Text(ps[1..])
  }

  predicate AreParts(ps: seq<Part>) {
    ps == [] || (IsPart(ps[0], Text(ps[1..])) && AreParts(ps[1..]))
  }

  /** Without blanks and comments. */
  function Kept(ps: seq<Part>): string {
    if ps == [] then ""
    else (if ps[0].Literal? || ps[0].Other? then PartText(ps[0]) else "") + Kept(ps[1..])
  }

  // ----- Minifying what is cut -----

  lemma {:induction false} LineEnds(text: string, y: string)
    requires OneLine(text) && (y == "" || y[0] == '\n')
    ensures M.AfterLine(text + y) == y
  {
    if text == "" {
      assert text + y == y;
    } else {
      assert (text + y)[1..] == text[1..] + y;
      LineEnds(text[1..], y);
    }
  }

  lemma {:induction false} BlockEnds(text: string, y: string)
    requires NoMark(text)
    ensures M.AfterBlock(text + ("*/" + y)) == Some(y)
  {
    var end := "*/" + y;
    if text == "" {
      assert text + end == end && end[2..] == y;
    } else {
      assert (text + end)[1..] == text[1..] + end;
      assert |text| > 1 ==> (text + end)[1] == text[1];
      assert |text| == 1 ==> (text + end)[1] == '*';
      BlockEnds(text[1..], y);
    }
  }

  lemma {:induction false} LiteralEnds(text: string, y: string)
    requires IsLiteral(text)
    ensures M.LiteralLength(text + ("\"" + y)) == Some(|text| + 1)
  {
    var end := "\"" + y;
    if text == "" {
      assert text + end == end;
    } else if text[0] == '\\' {
      assert (text + end)[2..] == text[2..] + end;
      LiteralEnds(text[2..], y);
    } else {
      assert (text + end)[1..] == text[1..] + end;
      LiteralEnds(text[1..], y);
    }
  }

  /** One part: what the minifier makes of it, before anything. */
  lemma PartMinified(p: Part, y: string)
    requires IsPart(p, y)
    ensures M.Minified(PartText(p) + y)
         == if p.Literal? || p.Other? then M.Prepend(PartText(p), M.Minified(y)) else M.Minified(y)
  {
    hide M.Minified, M.Prepend;
    match p
    case White(c) => CharMinified(p, c, y);
    case Line(text) =>
      LineEnds(text, y);
      TwoSlashes("//" + text + y, text + y);
    case Block(text) => BlockMinified(text, y);
    case Mark => MarkMinified(y);
    case Literal(text) => LiteralMinified(text, y);
    case Other(c) => CharMinified(p, c, y);
  }

  lemma CharMinified(p: Part, c: char, y: string)
    requires IsPart(p, y) && (p == White(c) || p == Other(c))
    ensures M.Minified([c] + y) == if p.Other? then M.Prepend([c], M.Minified(y)) else M.Minified(y)
  {
    hide M.Minified, M.Prepend;
    var s := [c] + y;
    assert s[0..] == s && s[1..] == y;
    if p.White? {
      M.StepBlank(s, 0);
    } else {
      M.StepOther(s, 0);
    }
  }

  lemma TwoSlashes(s: string, t: string)
    requires |s| >= 2 && s[0] == '/' && s[1] == '/' && s[2..] == t
    ensures M.AfterLine(s) == M.AfterLine(t) && M.Minified(s) == M.Minified(M.AfterLine(t))
  {
    assert s[1..][1..] == t;
    assert M.AfterLine(s) == M.AfterLine(s[1..]) == M.AfterLine(t);
  }

  lemma BlockMinified(text: string, y: string)
    requires NoMark("*" + text)
    ensures M.Minified(PartText(Block(text)) + y) == M.Minified(y)
  {
    var s, inner := PartText(Block(text)) + y, "*" + text;
    assert s == "/" + (inner + ("*/" + y));
    assert s[1..] == inner + ("*/" + y) && s[1] == '*';
    BlockEnds(inner, y);
    hide M.Minified;
    assert M.AfterBlock(s) == Some(y);
    M.StepComment(s, 0);
    assert s[0..] == s;
  }

  lemma MarkMinified(y: string)
    ensures M.Minified("/*/" + y) == M.Minified(y)
  {
    var s := "/*/" + y;
    assert s[0..] == s && s[1..] == "" + ("*/" + y);
    BlockEnds("", y);
    hide M.Minified;
    assert M.AfterBlock(s) == M.AfterBlock(s[1..]);
    M.StepComment(s, 0);
  }

  lemma LiteralMinified(text: string, y: string)
    requires IsLiteral(text)
    ensures M.Minified(PartText(Literal(text)) + y) == M.Prepend(PartText(Literal(text)), M.Minified(y))
  {
    hide M.LiteralLength, IsLiteral;
    var s := PartText(Literal(text)) + y;
    assert s[1..] == text + ("\"" + y);
    LiteralEnds(text, y);
    M.MinifiedLiteral(s, |text| + 2);
    assert s[..|text| + 2] == PartText(Literal(text)) && s[|text| + 2..] == y;
  }

  lemma {:induction false} PartsMinified(ps: seq<Part>)
    requires AreParts(ps)
    ensures M.Minified(Text(ps)) == Some(Kept(ps))
  {
    hide IsPart, PartText;
    if ps != [] {
      hide M.Minified;
      PartMinified(ps[0], Text(ps[1..]));
      PartsMinified(ps[1..]);
      assert "" + Kept(ps[1..]) == Kept(ps[1..]);
    }
  }

  // ----- Cutting what can be minified -----

  lemma {:induction false} LineCut(s: string)
    ensures var y := M.AfterLine(s); var text := s[..|s| - |y|];
      s == text + y && OneLine(text) && (y == "" || y[0] == '\n')
  {
    hide OneLine;
    if s == "" || s[0] == '\n' {
      LineStart(s);
    } else {
      LineCut(s[1..]);
      var text := s[1..][..|s| - 1 - |M.AfterLine(s[1..])|];
      LineMore(s[0], text);
      assert s[..1 + |text|] == [s[0]] + text;
      assert s == [s[0]] + s[1..];
    }
  }

  lemma LineStart(s: string)
    requires s == "" || s[0] == '\n'
    ensures M.AfterLine(s) == s && OneLine(s[..0])
  {
  }

  lemma LineMore(c: char, text: string)
    requires c != '\n' && OneLine(text)
    ensures OneLine([c] + text)
  {
  }

  lemma {:induction false} BlockCut(s: string)
    requires M.AfterBlock(s).Some?
    ensures var y := M.AfterBlock(s).value;
      |s| >= |y| + 2 && var text := s[..|s| - |y| - 2];
      s == text + ("*/" + y) && NoMark(text)
  {
    hide NoMark;
    if M.StartsWith(s, '*', '/') {
      assert s == "*/" + s[2..];
      NoneMark(s);
    } else {
      BlockCut(s[1..]);
      var y := M.AfterBlock(s).value;
      var text := s[1..][..|s| - 1 - |y| - 2];
      BlockMore(s[0], text, s[1..], y);
      assert s[..1 + |text|] == [s[0]] + text;
      assert s == [s[0]] + s[1..];
    }
  }

  lemma NoneMark(s: string)
    ensures NoMark(s[..0])
  {
  }

  lemma BlockMore(c: char, text: string, t: string, y: string)
    requires NoMark(text) && t == text + ("*/" + y) && !(c == '*' && t[0] == '/')
    ensures NoMark([c] + text)
  {
    assert text != "" ==> t[0] == text[0];
  }

  lemma {:induction false} LiteralCut(s: string)
    requires M.LiteralLength(s).Some?
    ensures var n := M.LiteralLength(s).value; s[n - 1] == '\"' && IsLiteral(s[..n - 1])
  {
    if s[0] != '\"' {
      var k := if s[0] == '\\' then 2 else 1;
      LiteralCut(s[k..]);
      var n := M.LiteralLength(s).value;
      assert s[..n - 1][k..] == s[k..][..n - k - 1];
    }
  }

  /** The first part of a text that can be minified, and the rest. */
  lemma FirstPart(s: string) returns (p: Part, y: string)
    requires s != "" && M.Minified(s).Some?
    ensures s == PartText(p) + y && IsPart(p, y) && |y| < |s| && M.Minified(y).Some?
  {
    y := s[1..];
    assert s == [s[0]] + y;
    if M.IsBlank(s[0]) {
      p := White(s[0]);
    } else if M.StartsWith(s, '/', '/') {
      p, y := FirstLine(s);
    } else if M.StartsWith(s, '/', '*') {
      p, y := FirstBlock(s);
    } else if s[0] == '\"' {
      p, y := FirstLiteral(s);
    } else {
      p := Other(s[0]);
    }
  }

  lemma FirstLine(s: string) returns (p: Part, y: string)
    requires M.StartsWith(s, '/', '/') && M.Minified(s).Some?
    ensures s == PartText(p) + y && IsPart(p, y) && |y| < |s| && M.Minified(y).Some?
  {
    hide M.Minified, M.AfterLine;
    var t := s[2..];
    LineCut(t);
    y := M.AfterLine(t);
    p := Line(t[..|t| - |y|]);
    assert s == "//" + t;
    TwoSlashes(s, t);
  }

  lemma FirstLiteral(s: string) returns (p: Part, y: string)
    requires s != "" && s[0] == '\"' && M.Minified(s).Some?
    ensures s == PartText(p) + y && IsPart(p, y) && |y| < |s| && M.Minified(y).Some?
  {
    LiteralInside(s);
    hide M.Minified, M.LiteralLength, IsLiteral;
    var t := s[1..];
    LiteralCut(t);
    var n := M.LiteralLength(t).value;
    y := s[n + 1..];
    p := Literal(t[..n - 1]);
    assert s == "\"" + (t[..n - 1] + "\"") + y;
  }

  lemma LiteralInside(s: string)
    requires s != "" && s[0] == '\"' && M.Minified(s).Some?
    ensures M.LiteralLength(s[1..]).Some? && M.Minified(s[M.LiteralLength(s[1..]).value + 1..]).Some?
  {
    hide M.LiteralLength;
  }

  lemma FirstBlock(s: string) returns (p: Part, y: string)
    requires M.StartsWith(s, '/', '*') && M.Minified(s).Some?
    ensures s == PartText(p) + y && IsPart(p, y) && |y| < |s| && M.Minified(y).Some?
  {
    BlockInside(s);
    hide M.AfterBlock, M.Minified, NoMark;
    var t := s[1..];
    y := M.AfterBlock(t).value;
    BlockCut(t);
    var inner := t[..|t| - |y| - 2];
    assert s == "/" + t;
    if inner == "" {
      p := Mark;
      assert t == "*/" + y;
    } else {
      assert inner[0] == t[0] == '*' && inner == "*" + inner[1..];
      p := Block(inner[1..]);
      assert s == "/*" + (inner[1..] + "*/") + y;
    }
  }

  lemma BlockInside(s: string)
    requires M.StartsWith(s, '/', '*') && M.Minified(s).Some?
    ensures M.AfterBlock(s[1..]).Some? && M.Minified(M.AfterBlock(s[1..]).value).Some?
  {
    assert M.AfterBlock(s) == M.AfterBlock(s[1..]);
  }

  lemma {:induction false} Cut(s: string) returns (ps: seq<Part>)
    requires M.Minified(s).Some?
    ensures AreParts(ps) && Text(ps) == s
    decreases |s|
  {
    if s == "" {
      ps := [];
    } else {
      var p, y := FirstPart(s);
      hide M.Minified, IsPart, PartText;
      var rest := Cut(y);
      ps := [p] + rest;
      assert ps[1..] == rest;
    }
  }

  /** The minified text of s is t exactly when s can be cut into parts of which t is what is kept. */
  lemma MinifiedExactly(s: string, t: string)
    ensures M.Minified(s) == Some(t) <==> exists ps :: AreParts(ps) && Text(ps) == s && Kept(ps) == t
  {
    hide M.Minified, AreParts, Text, Kept;
    if M.Minified(s) == Some(t) {
      var ps := Cut(s);
      PartsMinified(ps);
    }
    if ps: seq<Part> :| AreParts(ps) && Text(ps) == s && Kept(ps) == t {
      PartsMinified(ps);
    }
  }
}
