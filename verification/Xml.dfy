/**
 The XML fragment parser as functions of the bytes from the cursor on. The cursor never leaves the
 buffer: moving past the end leaves it on the last byte, so a rest is never empty.
 */
module Xml {

  import opened Options

  /** A parsed node: its name, its text if it has one, and its children. */
  datatype Tree = Tree(name: string, content: Option<string>, children: seq<Tree>)

  // ----- The cursor -----

  predicate IsSpace(c: char) {
    c == ' ' || 9 <= c as int <= 13
  }

  /** xml_parser_peek: the n-th byte that is not whitespace, or zero. */
  function Peek(s: string, n: nat): char {
    if s == "" then '\0'
    else if IsSpace(s[0]) then Peek(s[1..], n)
    else if n == 0 then s[0]
    else Peek(s[1..], n - 1)
  }

  /** xml_parser_consume. */
  function Consume(s: string, n: nat): (rest: string)
    requires s != ""
    ensures 0 < |rest| <= |s| && (n > 0 && |s| > 1 ==> |rest| < |s|)
  {
    s[if n < |s| then n else |s| - 1..]
  }

  /** xml_skip_whitespace. */
  function SkipSpace(s: string): (rest: string)
    requires s != ""
    ensures 0 < |rest| <= |s|
  {
    if IsSpace(s[0]) && |s| > 1 then SkipSpace(s[1..]) else s
  }

  /** How many bytes come before the first one from which the next byte seen is stop; None when there is none. */
  function Scan(s: string, stop: char): (n: Option<nat>)
    requires stop != '\0'
    ensures n.Some? ==> n.value < |s| && Peek(s[n.value..], 0) == stop
    ensures n.Some? ==> forall i: nat :: i < n.value ==> Peek(s[i..], 0) != stop
  {
    if s == "" then None
    else if Peek(s, 0) == stop then assert s[0..] == s; Some(0)
    else
      match Scan(s[1..], stop)
      case None => None
      case Some(n) =>
        assert s[1..][n..] == s[n + 1..];
        assert forall i: nat :: 0 < i < n + 1 ==> s[i..] == s[1..][i - 1..];
        assert s[0..] == s;
        Some(n + 1)
  }

  // ----- Tags and text -----

  /** xml_parse_tag_end. */
  function TagEnd(s: string): (r: Option<(string, string)>)
    requires s != ""
    ensures r.Some? ==> 0 < |r.value.1| <= |s|
  {
    match Scan(s, '>')
    case None => None
    case Some(n) => Some((s[..n], Consume(s[n..], 1)))
  }

  /** xml_parse_tag_open. */
  function TagOpen(s: string): (r: Option<(string, string)>)
    requires s != ""
    ensures r.Some? ==> 0 < |r.value.1| < |s|
  {
    var t := SkipSpace(s);
    if Peek(t, 0) != '<' then None else TagEnd(Consume(t, 1))
  }

  /** xml_parse_tag_close. */
  function TagClose(s: string): (r: Option<(string, string)>)
    requires s != ""
    ensures r.Some? ==> 0 < |r.value.1| <= |s|
  {
    var t := SkipSpace(s);
    if Peek(t, 0) != '<' || Peek(t, 1) != '/' then None else TagEnd(Consume(t, 2))
  }

  /** Without the whitespace at the end. */
  function Trim(s: string): string {
    if s != "" && IsSpace(s[|s| - 1]) then Trim(s[..|s| - 1]) else s
  }

  /** xml_parse_content. */
  function Content(s: string): (r: Option<(string, string)>)
    requires s != ""
    ensures r.Some? ==> 0 < |r.value.1| <= |s|
  {
    var t := SkipSpace(s);
    match Scan(t, '<')
    case None => None
    case Some(n) => Some((Trim(t[..n]), t[n..]))
  }

  /** xml_string_equals: only the shorter of the two lengths is compared. */
  predicate Matches(a: string, b: string) {
    var n := if |a| > |b| then |b| else |a|;
    a[..n] == b[..n]
  }

  // ----- Nodes -----

  predicate SelfClosing(name: string) {
    name != "" && name[|name| - 1] == '/'
  }

  /** xml_parse_node: the tree and what follows it. */
  function ParseNode(s: string): (r: Option<(Tree, string)>)
    requires s != ""
    ensures r.Some? ==> 0 < |r.value.1| < |s|
    decreases |s|, 0
  {
    match TagOpen(s)
    case None => None
    case Some((open, rest)) =>
      if SelfClosing(open) then Some((Tree(open[..|open| - 1], None, []), rest))
      else if Peek(rest, 0) != '<' then
        match Content(rest)
        case None => None
        case Some((text, end)) => Close(Tree(open, Some(text), []), end)
      else
        match ParseChildren(rest)
        case None => None
        case Some((children, end)) => Close(Tree(open, None, children), end)
  }

  /** The loop over the children. */
  function ParseChildren(s: string): (r: Option<(seq<Tree>, string)>)
    requires s != ""
    ensures r.Some? ==> 0 < |r.value.1| <= |s|
    decreases |s|, 1
  {
    if Peek(s, 1) == '/' then Some(([], s))
    else
      match ParseNode(s)
      case None => None
      case Some((child, rest)) =>
        match ParseChildren(rest)
        case None => None
        case Some((children, end)) => Some(([child] + children, end))
  }

  /** The closing tag of a node, which has to match its name. */
  function Close(t: Tree, s: string): (r: Option<(Tree, string)>)
    requires s != ""
    ensures r.Some? ==> r.value.0 == t && 0 < |r.value.1| <= |s|
  {
    match TagClose(s)
    case None => None
    case Some((name, rest)) => if Matches(t.name, name) then Some((t, rest)) else None
  }

  /** xml_parse_document: nothing for an empty buffer. */
  function ParseDocument(s: string): Option<Tree> {
    if s == "" then None
    else match ParseNode(s) case None => None case Some((t, _)) => Some(t)
  }

  // ----- Documents of the described grammar -----

  /** A node with the whitespace of its text: before it, and around what it holds. */
  datatype Doc =
    | Empty(before: string, name: string)
    | Element(before: string, name: string, body: Body)

  /** What stands between two tags: a text, or nodes. */
  datatype Body =
    | Words(left: string, text: string, right: string)
    | Inner(docs: Docs, end: string)

  datatype Docs = NoDocs | More(doc: Doc, next: Docs)

  /** Space, tab, line feed, vertical tab, form feed, carriage return. */
  predicate White(c: char) {
    c == ' ' || c == '\t' || c == '\n' || c == 0x0B as char || c == 0x0C as char || c == '\r'
  }

  predicate Blank(s: string) {
    forall i :: 0 <= i < |s| ==> White(s[i])
  }

  /** What stands between the brackets of a tag, attributes included: no closing bracket, no whitespace at the end. */
  predicate IsTag(s: string) {
    (forall i :: 0 <= i < |s| ==> s[i] != '>') && (s != "" ==> !White(s[|s| - 1]))
  }

  /** The first character that is no whitespace is a slash. */
  predicate SlashLeads(s: string) {
    s != "" && (s[0] == '/' || (White(s[0]) && SlashLeads(s[1..])))
  }

  predicate SlashEnds(s: string) {
    s != "" && s[|s| - 1] == '/'
  }

  /** Not empty, trimmed, without an opening bracket. */
  predicate IsText(s: string) {
    s != "" && !White(s[0]) && !White(s[|s| - 1]) && forall i :: 0 <= i < |s| ==> s[i] != '<'
  }

  /** The tag of an element neither starts nor ends in a slash, that of an empty one ends in one. */
  predicate Proper(d: Doc) {
    match d
    case Empty(before, name) => Blank(before) && IsTag(name + "/") && !SlashLeads(name + "/")
    case Element(before, name, body) =>
      Blank(before) && IsTag(name) && !SlashLeads(name) && !SlashEnds(name) && ProperBody(body)
  }

  predicate ProperBody(body: Body) {
    match body
    case Words(left, text, right) => Blank(left) && IsText(text) && Blank(right)
    case Inner(docs, end) => AllProper(docs) && Blank(end)
  }

  predicate AllProper(docs: Docs) {
    docs.NoDocs? || (Proper(docs.doc) && AllProper(docs.next))
  }

  function Text(d: Doc): string {
    match d
    case Empty(before, name) => before + ("<" + (name + "/>"))
    case Element(before, name, body) => before + ("<" + (name + (">" + (BodyText(body) + Closing(name)))))
  }

  function BodyText(body: Body): string {
    match body
    case Words(left, text, right) => left + (text + right)
    case Inner(docs, end) => AllText(docs) + end
  }

  function AllText(docs: Docs): string {
    if docs.NoDocs? then "" else Text(docs.doc) + AllText(docs.next)
  }

  function Closing(name: string): string {
    "</" + (name + ">")
  }

  /** The tree a document describes. */
  function Meaning(d: Doc): Tree {
    match d
    case Empty(_, name) => Tree(name, None, [])
    case Element(_, name, body) => Named(name, body)
  }

  function Named(name: string, body: Body): Tree
    decreases body
  {
    match body
    case Words(_, text, _) => Tree(name, Some(text), [])
    case Inner(docs, _) => Tree(name, None, AllMeaning(docs))
  }

  function AllMeaning(docs: Docs): seq<Tree> {
    if docs.NoDocs? then [] else [Meaning(docs.doc)] + AllMeaning(docs.next)
  }

  /** Where the cursor stands after a closing bracket: on what follows, or on the bracket itself at the end of the
      buffer. */
  function AfterBracket(rest: string): string {
    if rest == "" then ">" else rest
  }

  // ----- Parsing a document gives back its tree -----

  lemma {:induction false} PeekBlank(w: string, s: string, n: nat)
    requires Blank(w)
    ensures Peek(w + s, n) == Peek(s, n)
  {
    if w == "" {
      assert w + s == s;
    } else {
      PeekBlank(w[1..], s, n);
      assert (w + s)[1..] == w[1..] + s;
    }
  }

  lemma {:induction false} SkipBlank(w: string, s: string)
    requires Blank(w) && s != "" && !IsSpace(s[0])
    ensures SkipSpace(w + s) == s
  {
    if w == "" {
      assert w + s == s;
    } else {
      SkipBlank(w[1..], s);
      assert (w + s)[1..] == w[1..] + s;
    }
  }

  /** A scan runs over a text in which nothing seen is the stop. */
  lemma {:induction false} ScanOver(a: string, s: string, stop: char)
    requires stop != '\0' && s != "" && Peek(s, 0) == stop
    requires forall i :: 0 <= i < |a| ==> Peek(a[i..] + s, 0) != stop
    ensures Scan(a + s, stop) == Some(|a|)
  {
    if a == "" {
      assert a + s == s;
    } else {
      assert a[0..] == a;
      assert (a + s)[1..] == a[1..] + s;
      forall i | 0 <= i < |a[1..]| ensures Peek(a[1..][i..] + s, 0) != stop {
        assert a[1..][i..] == a[i + 1..];
      }
      ScanOver(a[1..], s, stop);
    }
  }

  /** What is seen inside a text that does not end in whitespace is a byte of the text. */
  lemma {:induction false} PeekInside(a: string, s: string, stop: char)
    requires a != "" && !IsSpace(a[|a| - 1]) && forall i :: 0 <= i < |a| ==> a[i] != stop
    ensures Peek(a + s, 0) != stop
  {
    if IsSpace(a[0]) {
      PeekInside(a[1..], s, stop);
      assert (a + s)[1..] == a[1..] + s;
    }
  }

  lemma ScanInside(a: string, s: string, stop: char)
    requires stop != '\0' && s != "" && Peek(s, 0) == stop
    requires a != "" && !IsSpace(a[|a| - 1]) && forall i :: 0 <= i < |a| ==> a[i] != stop
    ensures Scan(a + s, stop) == Some(|a|)
  {
    forall i | 0 <= i < |a| ensures Peek(a[i..] + s, 0) != stop {
      PeekInside(a[i..], s, stop);
    }
    ScanOver(a, s, stop);
  }

  /** The whitespace of the parser is that of the grammar. */
  lemma SpaceSame(c: char)
    ensures IsSpace(c) <==> White(c)
  {
  }

  lemma TagEndOf(name: string, rest: string)
    requires IsTag(name)
    ensures TagEnd(name + (">" + rest)) == Some((name, AfterBracket(rest)))
  {
    hide Scan, Peek;
    BracketSeen(rest);
    var s := name + (">" + rest);
    if name == "" {
      ScanOver(name, ">" + rest, '>');
    } else {
      ScanInside(name, ">" + rest, '>');
    }
    assert s[..|name|] == name && s[|name|..] == ">" + rest;
    assert rest != "" ==> (">" + rest)[1..] == rest;
    assert rest == "" ==> ">" + rest == ">" && ">"[0..] == ">";
  }

  lemma BracketSeen(rest: string)
    ensures Peek(">" + rest, 0) == '>'
  {
  }

  lemma TagOpenOf(before: string, name: string, rest: string)
    requires Blank(before) && IsTag(name)
    ensures TagOpen(before + ("<" + (name + (">" + rest)))) == Some((name, AfterBracket(rest)))
  {
    hide TagEnd, SkipSpace;
    var s := "<" + (name + (">" + rest));
    SkipBlank(before, s);
    assert s[1..] == name + (">" + rest);
    TagEndOf(name, rest);
  }

  lemma TagCloseOf(before: string, name: string, rest: string)
    requires Blank(before) && IsTag(name)
    ensures TagClose(before + (Closing(name) + rest)) == Some((name, AfterBracket(rest)))
  {
    var s := Closing(name) + rest;
    ClosingParts(name, rest);
    ClosingSeen("", name, rest);
    assert "" + s == s;
    TagEndOf(name, rest);
    hide TagEnd, SkipSpace, Peek, Closing;
    SkipBlank(before, s);
  }

  lemma ClosingParts(name: string, rest: string)
    ensures var s := Closing(name) + rest; |s| > 2 && s[0] == '<' && s[2..] == name + (">" + rest)
  {
  }

  lemma ClosingSeen(w: string, name: string, rest: string)
    requires Blank(w)
    ensures Peek(w + (Closing(name) + rest), 0) == '<' && Peek(w + (Closing(name) + rest), 1) == '/'
  {
    var s := Closing(name) + rest;
    PeekBlank(w, s, 0);
    PeekBlank(w, s, 1);
    assert s[0] == '<' && s[1..] == "/" + (name + ">" + rest);
  }

  lemma CloseWith(t: Tree, before: string, name: string, rest: string)
    requires Blank(before) && IsTag(name)
    ensures Close(t, before + (Closing(name) + rest))
         == if t.name <= name || name <= t.name then Some((t, AfterBracket(rest))) else None
  {
    hide TagClose, Matches;
    TagCloseOf(before, name, rest);
    MatchesMeansPrefix(t.name, name);
  }

  lemma ContentOf(left: string, text: string, right: string, name: string, rest: string)
    requires Blank(left) && IsText(text) && Blank(right)
    ensures Peek(left + (text + (right + (Closing(name) + rest))), 0) != '<'
    ensures Content(left + (text + (right + (Closing(name) + rest)))) == Some((text, right + (Closing(name) + rest)))
  {
    hide SkipSpace, Peek, Scan;
    var s := right + (Closing(name) + rest);
    PeekBlank(left, text + s, 0);
    PeekInside(text, s, '<');
    SkipBlank(left, text + s);
    ClosingSeen(right, name, rest);
    ScanInside(text, s, '<');
    assert (text + s)[..|text|] == text && (text + s)[|text|..] == s;
  }

  /** A document starts, after whitespace, with a bracket and no slash. */
  lemma DocSeen(d: Doc, rest: string)
    requires Proper(d)
    ensures Peek(Text(d) + rest, 0) == '<' && Peek(Text(d) + rest, 1) != '/'
  {
    var tag := if d.Empty? then d.name + "/" else d.name;
    var tail := if d.Empty? then ">" else ">" + (BodyText(d.body) + Closing(d.name));
    assert Text(d) == d.before + ("<" + (tag + tail)) by {
      hide BodyText, Closing;
      assert d.Empty? ==> d.name + "/>" == tag + tail;
    }
    hide Text, BodyText, Closing;
    var s := "<" + (tag + (tail + rest));
    assert Text(d) + rest == d.before + s;
    PeekBlank(d.before, s, 0);
    PeekBlank(d.before, s, 1);
    assert s[1..] == tag + (tail + rest);
    LeadSeen(tag, tail + rest);
  }

  /** Past a tag that no slash leads, no slash is seen. */
  lemma {:induction false} LeadSeen(tag: string, s: string)
    requires !SlashLeads(tag) && s != "" && s[0] == '>'
    ensures Peek(tag + s, 0) != '/'
  {
    if tag == "" {
      assert tag + s == s;
    } else {
      assert (tag + s)[1..] == tag[1..] + s;
      if White(tag[0]) {
        LeadSeen(tag[1..], s);
      }
    }
  }

  /**
   An element with any proper body between an opening tag, attributes included, and a closing tag, either of them
   possibly empty, is accepted exactly when one of the two is a prefix of the other; its name is then the whole
   first one.
   */
  lemma {:induction false} PairParses(before: string, name: string, body: Body, close: string, rest: string)
    requires Blank(before) && IsTag(name) && !SlashEnds(name) && ProperBody(body) && IsTag(close)
    ensures ParseNode(before + ("<" + (name + (">" + (BodyText(body) + (Closing(close) + rest))))))
         == if name <= close || close <= name then Some((Named(name, body), AfterBracket(rest))) else None
    decreases body
  {
    hide TagOpen, Close, Content, Closing, ParseChildren, Peek;
    var after := BodyText(body) + (Closing(close) + rest);
    TagOpenOf(before, name, after);
    ClosingParts(close, rest);
    match body
    case Words(left, text, right) =>
      assert after == left + (text + (right + (Closing(close) + rest)));
      ContentOf(left, text, right, close, rest);
      CloseWith(Tree(name, Some(text), []), right, close, rest);
    case Inner(docs, end) =>
      assert after == AllText(docs) + (end + (Closing(close) + rest));
      ParseAllText(docs, end, close, rest);
      CloseWith(Tree(name, None, AllMeaning(docs)), end, close, rest);
  }

  lemma BlankTag(before: string, name: string, w: string, rest: string)
    requires Blank(before) && IsTag(name) && !SlashEnds(name) && Blank(w) && w != ""
    ensures TagOpen(before + ("<" + (name + (w + (">" + rest))))) == Some((name, w[1..] + (">" + rest)))
  {
    hide TagEnd, Peek, SkipSpace, White, IsTag;
    var t := "<" + (name + (w + (">" + rest)));
    BlankTagEnd(name, w, rest);
    assert t[1..] == name + (w + (">" + rest));
    BracketNotWhite();
    SkipBlank(before, t);
    OpenSeen(name + (w + (">" + rest)));
  }

  lemma BlankTagEnd(name: string, w: string, rest: string)
    requires IsTag(name) && Blank(w) && w != ""
    ensures TagEnd(name + (w + (">" + rest))) == Some((name, w[1..] + (">" + rest)))
  {
    hide Scan, Peek, IsSpace, White;
    var s := w + (">" + rest);
    BracketSeen(rest);
    PeekBlank(w, ">" + rest, 0);
    if name == "" {
      ScanOver(name, s, '>');
    } else {
      SpaceSame(name[|name| - 1]);
      ScanInside(name, s, '>');
    }
    assert (name + s)[..|name|] == name && (name + s)[|name|..] == s && s[1..] == w[1..] + (">" + rest);
  }

  lemma OpenSeen(s: string)
    ensures Peek("<" + s, 0) == '<'
  {
  }

  lemma BracketNotWhite()
    ensures !White('<') && !White('>')
  {
  }

  lemma ContentUpTo(left: string, text: string, s: string)
    requires Blank(left) && IsText(text) && s != "" && Peek(s, 0) == '<'
    ensures Peek(left + (text + s), 0) != '<' && Content(left + (text + s)) == Some((text, s))
  {
    hide SkipSpace, Peek, Scan;
    PeekBlank(left, text + s, 0);
    PeekInside(text, s, '<');
    SkipBlank(left, text + s);
    ScanInside(text, s, '<');
    assert (text + s)[..|text|] == text && (text + s)[|text|..] == s;
  }

  /**
   Whitespace in front of the bracket that ends an opening tag: the first of it is consumed in place of the bracket,
   which becomes the start of a text. An element with a text or without nodes keeps the bracket in its text; one
   with nodes is rejected.
   */
  lemma BlankTagParses(before: string, name: string, w: string, body: Body, close: string, rest: string)
    requires Blank(before) && IsTag(name) && !SlashEnds(name) && Blank(w) && w != "" && ProperBody(body) && IsTag(close)
    ensures ParseNode(before + ("<" + (name + (w + (">" + (BodyText(body) + (Closing(close) + rest)))))))
         == if !(name <= close || close <= name) || (body.Inner? && body.docs.More?) then None
            else
              Some((Tree(name, Some(if body.Words? then ">" + (body.left + body.text) else ">"), []),
                    AfterBracket(rest)))
  {
    hide ParseNode, Closing, BodyText, AllText, ProperBody;
    if body.Words? {
      BlankTagWords(before, name, w, body, close, rest);
    } else {
      BlankTagInner(before, name, w, body, close, rest);
    }
  }

  lemma BlankTagWords(before: string, name: string, w: string, body: Body, close: string, rest: string)
    requires Blank(before) && IsTag(name) && !SlashEnds(name) && Blank(w) && w != "" && ProperBody(body) && IsTag(close)
    requires body.Words?
    ensures ParseNode(before + ("<" + (name + (w + (">" + (BodyText(body) + (Closing(close) + rest)))))))
         == if name <= close || close <= name
            then Some((Tree(name, Some(">" + (body.left + body.text)), []), AfterBracket(rest))) else None
  {
    hide ParseNode, Closing, BodyText, Close;
    var s, text := body.right + (Closing(close) + rest), ">" + (body.left + body.text);
    ClosingParts(close, rest);
    WordsText(body, Closing(close) + rest);
    ClosingSeen(body.right, close, rest);
    BracketText(body.left, body.text);
    BlankTagText(before, name, w, BodyText(body) + (Closing(close) + rest), text, s);
    CloseWith(Tree(name, Some(text), []), body.right, close, rest);
  }

  lemma BlankTagInner(before: string, name: string, w: string, body: Body, close: string, rest: string)
    requires Blank(before) && IsTag(name) && !SlashEnds(name) && Blank(w) && w != "" && ProperBody(body) && IsTag(close)
    requires body.Inner?
    ensures ParseNode(before + ("<" + (name + (w + (">" + (BodyText(body) + (Closing(close) + rest)))))))
         == if body.docs.NoDocs? && (name <= close || close <= name)
            then Some((Tree(name, Some(">"), []), AfterBracket(rest))) else None
  {
    hide ParseNode, Closing, BodyText, AllText, Close;
    var t, tail := Tree(name, Some(">"), []), body.end + (Closing(close) + rest);
    var s := AllText(body.docs) + tail;
    InnerText(body, Closing(close) + rest);
    ParseAllText(body.docs, body.end, close, rest);
    BlankTagText(before, name, w, BodyText(body) + (Closing(close) + rest), ">", s);
    if body.docs.NoDocs? {
      CloseWith(t, body.end, close, rest);
    } else {
      NodeIsNoClosing(t, body.docs, tail);
    }
  }

  lemma WordsText(body: Body, s: string)
    requires body.Words?
    ensures ">" + (BodyText(body) + s) == ">" + (body.left + body.text) + (body.right + s)
  {
  }

  lemma InnerText(body: Body, s: string)
    requires body.Inner?
    ensures BodyText(body) + s == AllText(body.docs) + (body.end + s)
    ensures body.docs.NoDocs? ==> AllText(body.docs) + (body.end + s) == body.end + s
  {
    assert body.docs.NoDocs? ==> AllText(body.docs) == "";
    hide AllText;
  }

  lemma BlankTagText(before: string, name: string, w: string, after: string, text: string, s: string)
    requires Blank(before) && IsTag(name) && !SlashEnds(name) && Blank(w) && w != ""
    requires ">" + after == text + s && IsText(text) && s != "" && Peek(s, 0) == '<'
    ensures ParseNode(before + ("<" + (name + (w + (">" + after))))) == Close(Tree(name, Some(text), []), s)
  {
    BlankTag(before, name, w, after);
    ContentUpTo(w[1..], text, s);
    hide TagOpen, Close, Content, ParseChildren, Peek, White;
  }

  lemma BracketText(left: string, text: string)
    requires Blank(left) && IsText(text)
    ensures IsText(">" + (left + text))
  {
    var t := left + text;
    assert t[|t| - 1] == text[|text| - 1];
  }

  lemma NodeIsNoClosing(t: Tree, docs: Docs, tail: string)
    requires docs.More? && AllProper(docs) && AllText(docs) + tail != ""
    ensures Close(t, AllText(docs) + tail) == None
  {
    hide Peek, Text;
    var s, more := AllText(docs) + tail, AllText(docs.next) + tail;
    assert s == Text(docs.doc) + more;
    DocSeen(docs.doc, more);
    hide SkipSpace;
    PeekSkipTwice(s);
  }

  /** Skipping whitespace changes nothing in what is seen, where something is seen. */
  lemma {:induction false} PeekSkipTwice(s: string)
    requires s != ""
    ensures Peek(SkipSpace(s), 1) == Peek(s, 1)
  {
    if IsSpace(s[0]) && |s| > 1 {
      PeekSkipTwice(s[1..]);
    }
  }

  /** Every proper document parses to the tree it describes, and the cursor ends right after it. */
  lemma {:induction false} ParseText(d: Doc, rest: string)
    requires Proper(d)
    ensures Text(d) + rest != "" && ParseNode(Text(d) + rest) == Some((Meaning(d), AfterBracket(rest)))
    decreases d
  {
    hide TagOpen, Closing, Named, BodyText;
    var s := Text(d) + rest;
    match d
    case Empty(before, name) =>
      TagOpenOf(before, name + "/", rest);
      assert s == before + ("<" + (name + "/" + (">" + rest)));
      assert (name + "/")[..|name|] == name;
    case Element(before, name, body) =>
      assert s == before + ("<" + (name + (">" + (BodyText(body) + (Closing(name) + rest)))));
      hide ParseNode;
      PairParses(before, name, body, name, rest);
  }

  lemma {:induction false} ParseAllText(docs: Docs, end: string, name: string, rest: string)
    requires AllProper(docs) && Blank(end)
    ensures var s := AllText(docs) + (end + (Closing(name) + rest));
      s != "" && Peek(s, 0) == '<' && ParseChildren(s) == Some((AllMeaning(docs), end + (Closing(name) + rest)))
    decreases docs
  {
    hide ParseNode, Peek, Text;
    var close := end + (Closing(name) + rest);
    var s := AllText(docs) + close;
    if docs.NoDocs? {
      ClosingSeen(end, name, rest);
      assert "" + close == close;
    } else {
      var more := AllText(docs.next) + close;
      assert s == Text(docs.doc) + more;
      DocSeen(docs.doc, more);
      ParseText(docs.doc, more);
      ParseAllText(docs.next, end, name, rest);
    }
  }

  /** xml_parse_document recovers every tree written in the grammar, whatever the whitespace and whatever follows. */
  lemma ParseDocumentText(d: Doc, rest: string)
    requires Proper(d)
    ensures ParseDocument(Text(d) + rest) == Some(Meaning(d))
  {
    hide ParseNode, Text;
    ParseText(d, rest);
  }

  // ----- What every parsed tree is like, for any buffer -----

  /** Names hold no closing bracket; text is trimmed, not empty and holds no opening bracket; a node has text or
      children, not both. */
  predicate WellFormed(t: Tree) {
    && (forall i :: 0 <= i < |t.name| ==> t.name[i] != '>')
    && (t.content.Some? ==> IsText(t.content.value) && t.children == [])
    && forall i :: 0 <= i < |t.children| ==> WellFormed(t.children[i])
  }

  lemma NameHolds(s: string)
    requires s != "" && TagEnd(s).Some?
    ensures forall i :: 0 <= i < |TagEnd(s).value.0| ==> TagEnd(s).value.0[i] != '>'
  {
    var n := Scan(s, '>').value;
    forall i | 0 <= i < n ensures s[i] != '>' {
      assert Peek(s[i..], 0) != '>';
      assert s[i..][0] == s[i];
    }
  }

  lemma {:induction false} SkipSpaceStops(s: string)
    requires s != ""
    ensures |SkipSpace(s)| == 1 || !IsSpace(SkipSpace(s)[0])
  {
    if IsSpace(s[0]) && |s| > 1 {
      SkipSpaceStops(s[1..]);
    }
  }

  lemma {:induction false} PeekSkip(s: string)
    requires s != ""
    ensures Peek(SkipSpace(s), 0) == Peek(s, 0)
  {
    if IsSpace(s[0]) && |s| > 1 {
      PeekSkip(s[1..]);
    }
  }

  /** The text of a node is trimmed already: the loop that drops trailing whitespace never finds any. */
  lemma ContentHolds(s: string)
    requires s != "" && Peek(s, 0) != '<' && Content(s).Some?
    ensures IsText(Content(s).value.0)
  {
    hide Scan, SkipSpace, Peek, IsSpace, IsText;
    var t := SkipSpace(s);
    var n := Scan(t, '<').value;
    SkipSpaceStops(s);
    PeekSkip(s);
    assert t[0..] == t;
    TextBefore(t, n);
  }

  /** What lies between a byte that is no space and the byte before which the next one seen becomes the bracket. */
  lemma TextBefore(t: string, n: nat)
    requires 0 < n < |t| && !IsSpace(t[0]) && Peek(t[n..], 0) == '<'
    requires forall i: nat :: i < n ==> Peek(t[i..], 0) != '<'
    ensures IsText(t[..n]) && Trim(t[..n]) == t[..n]
  {
    hide Peek, IsSpace, White;
    forall i | 0 <= i < n ensures t[i] != '<' {
      PeekFirst(t[i..]);
    }
    assert t[n - 1..][1..] == t[n..];
    PeekFirst(t[n - 1..]);
    SpaceSame(t[0]);
    SpaceSame(t[n - 1]);
  }

  lemma PeekFirst(s: string)
    requires s != ""
    ensures IsSpace(s[0]) ==> Peek(s, 0) == Peek(s[1..], 0)
    ensures !IsSpace(s[0]) ==> Peek(s, 0) == s[0]
    ensures IsSpace(s[0]) ==> s[0] != '<'
  {
  }

  /** Whatever the buffer, a tree that is returned is well formed. */
  lemma {:induction false} ParsedWellFormed(s: string)
    requires s != "" && ParseNode(s).Some?
    ensures WellFormed(ParseNode(s).value.0)
    decreases |s|, 0
  {
    hide Content, Close, ParseChildren, Peek, TagEnd, SkipSpace, Consume;
    var (open, rest) := TagOpen(s).value;
    NameHolds(Consume(SkipSpace(s), 1));
    if SelfClosing(open) {
    } else if Peek(rest, 0) != '<' {
      ContentHolds(rest);
    } else {
      ChildrenWellFormed(rest);
    }
  }

  lemma {:induction false} ChildrenWellFormed(s: string)
    requires s != "" && ParseChildren(s).Some?
    ensures forall i :: 0 <= i < |ParseChildren(s).value.0| ==> WellFormed(ParseChildren(s).value.0[i])
    decreases |s|, 1
  {
    hide Peek, ParseNode;
    if Peek(s, 1) != '/' {
      ParsedWellFormed(s);
      ChildrenWellFormed(ParseNode(s).value.1);
    }
  }

  // ----- Closing tags -----

  /** xml_string_equals holds exactly when one string is a prefix of the other. */
  lemma MatchesMeansPrefix(a: string, b: string)
    ensures Matches(a, b) <==> a <= b || b <= a
  {
  }

  /** It decides equality exactly when neither string is a proper prefix of the other. */
  lemma MatchesMeansEqual(a: string, b: string)
    ensures (Matches(a, b) <==> a == b) <==> !(a < b) && !(b < a)
  {
  }

  /** A closing tag without a name closes every element. */
  lemma NamelessCloses(name: string, body: Body, rest: string)
    requires IsTag(name) && !SlashEnds(name) && ProperBody(body)
    ensures ParseDocument("<" + (name + (">" + (BodyText(body) + ("</>" + rest))))) == Some(Named(name, body))
  {
    hide ParseNode, BodyText, Named;
    assert Closing("") == "</>";
    var s := "<" + (name + (">" + (BodyText(body) + ("</>" + rest))));
    assert "" + s == s;
    PairParses("", name, body, "", rest);
  }

  /** Two tags that differ pass as a pair. */
  lemma PrefixCloses()
    ensures ParseDocument("<" + ("ab" + (">" + ("" + ("</a>" + ""))))) == Some(Tree("ab", None, []))
  {
    hide ParseNode;
    var body := Inner(NoDocs, "");
    assert BodyText(body) == "" && Closing("a") == "</a>";
    var s := "<" + ("ab" + (">" + (BodyText(body) + (Closing("a") + ""))));
    assert "" + s == s;
    PairParses("", "ab", body, "a", "");
  }
}
