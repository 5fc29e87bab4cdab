/**
 What the two print formats look like: the unformatted print is the text of RFC 8259 without blanks that stands for the
 tree, and the formatted print is its layout, made of line breaks, tabs and spaces between the tokens.
 */
module JsonLayout {

  import opened Json
  import opened JsonText
  import opened Options
  import M = JsonMinify

  // ----- The layout of a text -----

  /** n tabs. */
  function Indented(n: nat): string {
    if n == 0 then "" else "\t" + Indented(n - 1)
  }

  /** How many characters a string literal takes after its opening quote. */
  function StringLength(s: string): (n: nat)
    ensures n <= |s|
  {
    if s == "" then 0
    else if s[0] == '\"' then 1
    else if s[0] == '\\' && |s| > 1 then 2 + StringLength(s[2..])
    else 1 + StringLength(s[1..])
  }

  /** An array or an object that is open. */
  datatype Nest = InArray | InObject

  /**
   A text without blanks, laid out. open are the arrays and objects around it, the innermost last. Each member of an
   object stands on a line of its own, behind a tab for every open array or object; the brace that closes the object
   stands on the next line, behind a tab less. A tab follows a colon, a space the comma of an array. An empty
   object takes two lines too, with a tab less before its second brace than there are open arrays and objects.
   */
  function Layout(s: string, open: seq<Nest>): string
    decreases |s|
  {
    if s == "" then ""
    else
      var rest := s[1..];
      match s[0]
      case '\"' => "\"" + rest[..StringLength(rest)] + Layout(rest[StringLength(rest)..], open)
      case '{' =>
        if rest != "" && rest[0] == '}' then
          "{\n" + Indented(if open == [] then 0 else |open| - 1) + "}" + Layout(rest[1..], open)
        else "{\n" + Indented(|open| + 1) + Layout(rest, open + [InObject])
      case '}' =>
        var outer := if open == [] then [] else open[..|open| - 1];
        "\n" + Indented(|outer|) + "}" + Layout(rest, outer)
      case '[' => "[" + Layout(rest, open + [InArray])
      case ']' => "]" + Layout(rest, if open == [] then [] else open[..|open| - 1])
      case ',' =>
        if open != [] && open[|open| - 1] == InObject then ",\n" + Indented(|open|) + Layout(rest, open)
        else ", " + Layout(rest, open)
      case ':' => ":\t" + Layout(rest, open)
      case c => [c] + Layout(rest, open)
  }

  /** A text without tokens of its own. */
  predicate NoMarks(s: string) {
    forall i :: 0 <= i < |s| ==> s[i] !in "\"{}[],:"
  }

  lemma {:induction false} MarksFree(p: string, rest: string, open: seq<Nest>)
    requires NoMarks(p)
    ensures Layout(p + rest, open) == p + Layout(rest, open)
  {
    if p == "" {
      assert p + rest == rest;
    } else {
      assert (p + rest)[1..] == p[1..] + rest;
      MarksFree(p[1..], rest, open);
    }
  }

  lemma {:induction false} TabsIndent(n: nat)
    ensures Tabs(n) == Indented(n)
  {
    if n > 0 {
      TabsIndent(n - 1);
      assert Tabs(n) == "\t" + Tabs(n - 1);
    }
  }

  lemma {:induction false} DigitsFree(n: nat)
    ensures NoMarks(Digits(n))
  {
    if n >= 10 {
      DigitsFree(n / 10);
    }
  }

  lemma EscapeCharLength(c: char, tail: string)
    ensures StringLength(EscapeChar(c) + tail) == |EscapeChar(c)| + StringLength(tail)
  {
    var e := EscapeChar(c);
    M.ShortEscapes(c);
    if ShortEscape(c) != '\0' {
      assert (e + tail)[2..] == tail;
    } else if c as int < 32 {
      M.Hex4Plain(c as int);
      var h := Hex4(c as int);
      assert e == ['\\', 'u'] + h;
      hide ShortEscape, Hex4;
      PlainLength(h, tail);
      assert (e + tail)[2..] == h + tail;
    } else {
      assert (e + tail)[1..] == tail;
    }
  }

  lemma {:induction false} PlainLength(h: string, tail: string)
    requires forall i :: 0 <= i < |h| ==> h[i] != '\\' && h[i] != '\"'
    ensures StringLength(h + tail) == |h| + StringLength(tail)
  {
    if h == "" {
      assert h + tail == tail;
    } else {
      assert (h + tail)[1..] == h[1..] + tail;
      PlainLength(h[1..], tail);
    }
  }

  lemma {:induction false} EscapeLength(t: string, rest: string)
    ensures StringLength(Escape(t) + ("\"" + rest)) == |Escape(t)| + 1
  {
    hide EscapeChar;
    var end := "\"" + rest;
    if t == "" {
      assert Escape(t) + end == end;
    } else {
      EscapeLength(t[1..], rest);
      EscapeCharLength(t[0], Escape(t[1..]) + end);
      hide StringLength;
      assert Escape(t) + end == EscapeChar(t[0]) + (Escape(t[1..]) + end);
    }
  }

  lemma QuoteLayout(t: string, rest: string, open: seq<Nest>)
    ensures Layout(Quote(t) + rest, open) == Quote(t) + Layout(rest, open)
  {
    EscapeLength(t, rest);
    hide StringLength, Escape;
    var s := Quote(t) + rest;
    var e := Escape(t) + ("\"" + rest);
    assert s[0] == '\"' && s[1..] == e;
    LayoutString(s, e, Escape(t) + "\"", rest, open);
  }

  lemma LayoutString(s: string, e: string, body: string, rest: string, open: seq<Nest>)
    requires s != "" && s[0] == '\"' && s[1..] == e && e == body + rest && StringLength(e) == |body|
    ensures Layout(s, open) == "\"" + body + Layout(rest, open)
  {
    hide StringLength;
    assert e[..|body|] == body && e[|body|..] == rest;
  }

  // ----- Printing is laying out -----

  /** The formatted rendering is the layout of the unformatted one, whatever follows. */
  lemma {:induction false} RenderLayout(v: Json, depth: nat, rest: string, open: seq<Nest>)
    ensures Layout(Render(v, depth, false) + rest, open) == Render(v, |open|, true) + Layout(rest, open)
    decreases v, 1
  {
    hide Layout, RenderItems, RenderMembers, Quote, Tabs, Digits, Indented;
    match v
    case Null => MarksFree("null", rest, open);
    case False => MarksFree("false", rest, open);
    case True => MarksFree("true", rest, open);
    case Number(m, _) =>
      DigitsFree(if m < 0 then -m else m);
      MarksFree(Decimal(m), rest, open);
    case Str(t) => QuoteLayout(t, rest, open);
    case Arr(items) =>
      var inner := "[" + (RenderItems(items, depth + 1, false) + ("]" + rest));
      assert Render(v, depth, false) + rest == inner;
      ItemsLayout(items, depth + 1, "]" + rest, open + [InArray]);
      ArrayLayout(RenderItems(items, depth + 1, false) + ("]" + rest), rest, open);
      assert Render(v, |open|, true) + Layout(rest, open)
          == "[" + (RenderItems(items, |open| + 1, true) + ("]" + Layout(rest, open)));
    case Obj(members) => ObjectLayout(members, depth, rest, open);
  }

  lemma ArrayLayout(s: string, rest: string, open: seq<Nest>)
    ensures Layout("[" + s, open) == "[" + Layout(s, open + [InArray])
    ensures Layout("]" + rest, open + [InArray]) == "]" + Layout(rest, open)
  {
    assert ("[" + s)[1..] == s && ("]" + rest)[1..] == rest;
    assert (open + [InArray])[..|open|] == open;
  }

  lemma {:induction false} ItemsLayout(items: Items, depth: nat, rest: string, open: seq<Nest>)
    requires open != [] && open[|open| - 1] == InArray
    ensures Layout(RenderItems(items, depth, false) + rest, open)
      == RenderItems(items, |open|, true) + Layout(rest, open)
    decreases items, 0
  {
    hide Layout, Render;
    match items
    case NoItems => assert RenderItems(items, depth, false) + rest == rest;
    case Item(v, next) =>
      var r, more := Render(v, depth, false), RenderItems(next, depth, false);
      if next.NoItems? {
        assert RenderItems(items, depth, false) + rest == r + rest;
        RenderLayout(v, depth, rest, open);
      } else {
        assert RenderItems(items, depth, false) + rest == r + ("," + (more + rest));
        RenderLayout(v, depth, "," + (more + rest), open);
        CommaLayout(more + rest, open);
        ItemsLayout(next, depth, rest, open);
        hide RenderItems;
        assert Render(v, |open|, true) + (", " + (RenderItems(next, |open|, true) + Layout(rest, open)))
            == Render(v, |open|, true) + (", " + RenderItems(next, |open|, true)) + Layout(rest, open);
      }
  }

  lemma CommaLayout(s: string, open: seq<Nest>)
    requires open != []
    ensures Layout("," + s, open)
         == if open[|open| - 1] == InArray then ", " + Layout(s, open) else ",\n" + Indented(|open|) + Layout(s, open)
  {
    hide Indented, StringLength;
    var t := "," + s;
    assert t[0] == ',' && t[1..] == s;
  }

  lemma ObjectLayout(members: Members, depth: nat, rest: string, open: seq<Nest>)
    ensures Layout(Render(Obj(members), depth, false) + rest, open)
      == Render(Obj(members), |open|, true) + Layout(rest, open)
    decreases members, 1
  {
    hide Layout, RenderMembers, Tabs, Indented;
    if members.NoMembers? {
      assert Render(Obj(members), depth, false) + rest == "{}" + rest;
      EmptyLayout(rest, open);
      TabsIndent(if open == [] then 0 else |open| - 1);
    } else {
      var body := RenderMembers(members, depth + 1, false);
      assert Render(Obj(members), depth, false) + rest == "{" + (body + ("}" + rest));
      FirstMember(members, depth + 1);
      BraceOpens(body + ("}" + rest), open);
      MembersLayout(members, depth + 1, rest, open + [InObject]);
      TabsIndent(|open|);
      assert (open + [InObject])[..|open|] == open;
      ObjectAround(members, Layout(rest, open), |open|);
    }
  }

  lemma ObjectAround(members: Members, rest: string, depth: nat)
    requires members.Member?
    ensures Render(Obj(members), depth, true) + rest
         == "{\n" + (RenderMembers(members, depth + 1, true) + (Tabs(depth) + ("}" + rest)))
  {
    hide RenderMembers, Tabs;
  }

  lemma EmptyLayout(rest: string, open: seq<Nest>)
    ensures Layout("{}" + rest, open)
      == "{\n" + Indented(if open == [] then 0 else |open| - 1) + "}" + Layout(rest, open)
  {
    hide Indented;
    assert ("{}" + rest)[1..] == "}" + rest && ("}" + rest)[1..] == rest;
  }

  lemma BraceOpens(s: string, open: seq<Nest>)
    requires s != "" && s[0] != '}'
    ensures Layout("{" + s, open) == "{\n" + (Indented(|open| + 1) + Layout(s, open + [InObject]))
  {
    hide Indented, StringLength;
    var t := "{" + s;
    assert t[0] == '{' && t[1..] == s;
  }

  lemma BraceCloses(rest: string, open: seq<Nest>)
    requires open != []
    ensures Layout("}" + rest, open) == "\n" + (Indented(|open| - 1) + ("}" + Layout(rest, open[..|open| - 1])))
  {
    hide Indented, StringLength;
    var t := "}" + rest;
    assert t[0] == '}' && t[1..] == rest;
  }

  lemma ColonLayout(s: string, open: seq<Nest>)
    ensures Layout(":" + s, open) == ":\t" + Layout(s, open)
  {
    hide StringLength;
    var t := ":" + s;
    assert t[0] == ':' && t[1..] == s;
  }

  lemma FirstMember(members: Members, depth: nat)
    requires members.Member?
    ensures RenderMembers(members, depth, false) != "" && RenderMembers(members, depth, false)[0] == '\"'
  {
  }

  /** The members, with the tabs in front of the first, up to the closing brace. */
  lemma {:induction false} MembersLayout(members: Members, depth: nat, rest: string, open: seq<Nest>)
    requires members.Member? && open != [] && open[|open| - 1] == InObject
    ensures Indented(|open|) + Layout(RenderMembers(members, depth, false) + ("}" + rest), open)
         == RenderMembers(members, |open|, true)
            + (Indented(|open| - 1) + ("}" + Layout(rest, open[..|open| - 1])))
    decreases members, 0
  {
    hide Layout, Render, Quote, RenderMembers, Indented, Tabs;
    var name, v, next := members.name, members.value, members.next;
    var r, after := Render(v, depth, false), "}" + rest;
    var end := Indented(|open| - 1) + ("}" + Layout(rest, open[..|open| - 1]));
    if next.NoMembers? {
      MemberText(members, depth, after);
      PairLayout(name, v, depth, after, open);
      BraceCloses(rest, open);
      LastLine(members, open, end);
    } else {
      var more := RenderMembers(next, depth, false) + after;
      MemberText(members, depth, after);
      PairLayout(name, v, depth, "," + more, open);
      CommaLayout(more, open);
      MembersLayout(next, depth, rest, open);
      NextLine(members, open, Layout(more, open), end);
    }
  }

  lemma MemberText(members: Members, depth: nat, after: string)
    requires members.Member?
    ensures RenderMembers(members, depth, false) + after
         == Quote(members.name) + (":" + (Render(members.value, depth, false)
            + (if members.next.NoMembers? then after else "," + (RenderMembers(members.next, depth, false) + after))))
  {
    hide Quote, Render;
    if members.next.NoMembers? {
      assert RenderMembers(members.next, depth, false) == "";
      hide RenderMembers;
    }
  }

  lemma {:induction false} PairLayout(name: string, v: Json, depth: nat, rest: string, open: seq<Nest>)
    ensures Layout(Quote(name) + (":" + (Render(v, depth, false) + rest)), open)
         == Quote(name) + (":\t" + (Render(v, |open|, true) + Layout(rest, open)))
    decreases v, 2
  {
    hide Layout, Render, Quote;
    var s := Render(v, depth, false) + rest;
    QuoteLayout(name, ":" + s, open);
    ColonLayout(s, open);
    RenderLayout(v, depth, rest, open);
  }

  lemma MemberLine(members: Members, depth: nat)
    requires members.Member?
    ensures RenderMembers(members, depth, true)
         == Indented(depth) + (Quote(members.name) + ":\t" + Render(members.value, depth, true)
            + (if members.next.NoMembers? then "\n" else ",\n" + RenderMembers(members.next, depth, true)))
  {
    TabsIndent(depth);
    hide Quote, Render, Indented, Tabs;
    var next := members.next;
    if next.NoMembers? {
      assert RenderMembers(next, depth, true) == "" && "" + "\n" + "" == "\n";
    } else {
      assert "," + "\n" + RenderMembers(next, depth, true) == ",\n" + RenderMembers(next, depth, true);
    }
    var line := LineEnd(next, true) + RenderMembers(next, depth, true);
    hide RenderMembers, LineEnd;
    LineText(Indented(depth), Quote(members.name), Render(members.value, depth, true), line, "");
  }

  lemma LastLine(members: Members, open: seq<Nest>, end: string)
    requires members.Member? && members.next.NoMembers?
    ensures Indented(|open|) + (Quote(members.name) + (":\t" + (Render(members.value, |open|, true) + ("\n" + end))))
         == RenderMembers(members, |open|, true) + end
  {
    hide Quote, Render, RenderMembers, Indented;
    MemberLine(members, |open|);
    LineText(Indented(|open|), Quote(members.name), Render(members.value, |open|, true), "\n", end);
  }

  lemma NextLine(members: Members, open: seq<Nest>, more: string, end: string)
    requires members.Member? && members.next.Member?
    requires Indented(|open|) + more == RenderMembers(members.next, |open|, true) + end
    ensures Indented(|open|) + (Quote(members.name) + (":\t" + (Render(members.value, |open|, true)
            + (",\n" + Indented(|open|) + more))))
         == RenderMembers(members, |open|, true) + end
  {
    hide Quote, Render, RenderMembers, Indented;
    MemberLine(members, |open|);
    var i, next := Indented(|open|), RenderMembers(members.next, |open|, true);
    Grouped(",\n", i, more);
    Grouped(",\n", next, end);
    LineText(i, Quote(members.name), Render(members.value, |open|, true), ",\n" + next, end);
  }

  lemma Grouped(a: string, b: string, c: string)
    ensures a + b + c == a + (b + c)
  {
  }

  lemma LineText(i: string, name: string, r: string, line: string, end: string)
    ensures i + (name + (":\t" + (r + (line + end)))) == i + (name + ":\t" + r + line) + end
  {
  }

  /** cJSON_Print lays out what cJSON_PrintUnformatted writes. */
  lemma PrintLayout(v: Json)
    ensures Render(v, 0, true) == Layout(Render(v, 0, false), [])
  {
    hide Render, Layout;
    RenderLayout(v, 0, "", []);
    LayoutNothing();
    assert Render(v, 0, false) + "" == Render(v, 0, false);
    assert Render(v, 0, true) + "" == Render(v, 0, true);
  }

  lemma LayoutNothing()
    ensures Layout("", []) == ""
  {
  }
}
