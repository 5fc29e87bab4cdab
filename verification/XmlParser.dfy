/**
 The XML parser object: a cursor into a fixed buffer that every routine moves, and nodes made of
 slices of the buffer. Each routine is proved to compute the function of module Xml of the same name.
 */
module XmlParser {

  import opened Options
  import opened Xml

  /** An xml_string: a stretch of the buffer. */
  datatype Slice = Slice(start: nat, length: nat)

  /** An xml_node. */
  datatype Node = Node(name: Slice, content: Option<Slice>, children: seq<Node>)

  predicate Inside(buffer: string, s: Slice) {
    s.start + s.length <= |buffer|
  }

  predicate NodeInside(buffer: string, n: Node) {
    && Inside(buffer, n.name) && (n.content.Some? ==> Inside(buffer, n.content.value))
    && forall i :: 0 <= i < |n.children| ==> NodeInside(buffer, n.children[i])
  }

  function Bytes(buffer: string, s: Slice): string
    requires Inside(buffer, s)
  {
    buffer[s.start..s.start + s.length]
  }

  /** The tree a node shows. */
  function View(buffer: string, n: Node): Tree
    requires NodeInside(buffer, n)
  {
    Tree(Bytes(buffer, n.name),
         if n.content.Some? then Some(Bytes(buffer, n.content.value)) else None,
         ViewAll(buffer, n.children))
  }

  function ViewAll(buffer: string, nodes: seq<Node>): (trees: seq<Tree>)
    requires forall i :: 0 <= i < |nodes| ==> NodeInside(buffer, nodes[i])
  {
    if nodes == [] then [] else ViewAll(buffer, nodes[..|nodes| - 1]) + [View(buffer, nodes[|nodes| - 1])]
  }

  /** xml_string_equals. */
  method StringEquals(buffer: string, a: Slice, b: Slice) returns (equal: bool)
    requires Inside(buffer, a) && Inside(buffer, b)
    ensures equal == Matches(Bytes(buffer, a), Bytes(buffer, b))
  {
    ghost var s, t := Bytes(buffer, a), Bytes(buffer, b);
    var minLength := if a.length > b.length then b.length else a.length;
    var i := 0;
    while i < minLength
      invariant i <= minLength && s[..i] == t[..i]
    {
      assert s[..minLength][i] == s[i] && t[..minLength][i] == t[i];
      if buffer[a.start + i] != buffer[b.start + i] {
        return false;
      }
      i := i + 1;
    }
    equal := true;
  }

  /** Adds to a number of bytes scanned. */
  function Shift(k: nat, n: Option<nat>): Option<nat> {
    if n.Some? then Some(n.value + k) else None
  }

  lemma ScanStep(buffer: string, at: nat, stop: char)
    requires at <= |buffer| && stop != '\0'
    ensures at == |buffer| ==> Scan(buffer[at..], stop) == None
    ensures at < |buffer| && Peek(buffer[at..], 0) == stop ==> Scan(buffer[at..], stop) == Some(0)
    ensures at < |buffer| && Peek(buffer[at..], 0) != stop ==>
      Scan(buffer[at..], stop) == Shift(1, Scan(buffer[at + 1..], stop))
  {
  }

  class Parser {
    const buffer: string
    var position: nat

    ghost predicate Valid()
      reads this
    {
      position < |buffer|
    }

    /** What is left of the buffer. */
    ghost function Rest(): (s: string)
      requires Valid()
      reads this
      ensures s != ""
    {
      buffer[position..]
    }

    constructor (buffer: string)
      requires buffer != ""
      ensures Valid() && this.buffer == buffer && Rest() == buffer
    {
      this.buffer := buffer;
      position := 0;
    }

    /** xml_parser_peek. */
    method Look(n0: nat) returns (c: char)
      requires Valid()
      ensures c == Peek(Rest(), n0)
    {
      var at, n := position, n0;
      while at < |buffer|
        invariant position <= at <= |buffer| && Peek(buffer[at..], n) == Peek(Rest(), n0)
      {
        assert buffer[at..][1..] == buffer[at + 1..];
        if !IsSpace(buffer[at]) {
          if n == 0 {
            return buffer[at];
          } else {
            n := n - 1;
          }
        }
        at := at + 1;
      }
      c := '\0';
    }

    /** xml_parser_consume. */
    method Advance(n: nat)
      requires Valid()
      modifies this`position
      ensures Valid() && Rest() == Consume(old(Rest()), n)
      ensures position == if old(position) + n < |buffer| then old(position) + n else |buffer| - 1
    {
      ghost var s := Rest();
      position := position + n;
      if position >= |buffer| {
        position := |buffer| - 1;
        assert s[|s| - 1..] == buffer[position..];
      } else {
        assert s[n..] == buffer[position..];
      }
    }

    /** xml_skip_whitespace. */
    method SkipWhitespace()
      requires Valid()
      modifies this`position
      ensures Valid() && old(position) <= position && Rest() == SkipSpace(old(Rest()))
    {
      while IsSpace(buffer[position])
        invariant old(position) <= position && Valid() && SkipSpace(Rest()) == SkipSpace(old(Rest()))
        decreases |buffer| - position
      {
        assert buffer[position..][1..] == buffer[position + 1..];
        if position + 1 >= |buffer| {
          return;
        } else {
          position := position + 1;
        }
      }
    }

    /**
     The loops of xml_parse_tag_end and xml_parse_content: moves to where the stop byte is the next one seen.
     The further test for whitespace in xml_parse_tag_end never holds of a byte that was peeked.
     */
    method ScanTo(stop: char) returns (length: nat)
      requires Valid() && stop != '\0'
      modifies this`position
      ensures Valid()
      ensures var n := Scan(old(Rest()), stop);
        if n.Some? then length == n.value && position == old(position) + length && Peek(Rest(), 0) == stop
          else Peek(Rest(), 0) != stop
    {
      hide Scan, Peek, Consume;
      var start := position;
      length := 0;
      while start + length < |buffer|
        invariant start + length <= |buffer| && start == old(position)
        invariant position == if start + length < |buffer| then start + length else |buffer| - 1
        invariant Scan(buffer[start..], stop) == Shift(length, Scan(buffer[start + length..], stop))
        invariant start + length == |buffer| ==> Peek(Rest(), 0) != stop
        decreases |buffer| - (start + length)
      {
        var current := Look(0);
        ScanStep(buffer, start + length, stop);
        if current == stop {
          break;
        }
        Advance(1);
        length := length + 1;
      }
      ScanStep(buffer, start + length, stop);
    }

    /** xml_parse_tag_end. */
    method ParseTagEnd() returns (name: Option<Slice>)
      requires Valid()
      modifies this`position
      ensures Valid()
      ensures var r := TagEnd(old(Rest()));
        if name.Some? then Inside(buffer, name.value) && r == Some((Bytes(buffer, name.value), Rest())) else r == None
    {
      hide Scan, Peek, Consume;
      var start := position;
      ghost var s := Rest();
      var length := ScanTo('>');
      var c := Look(0);
      if c != '>' {
        return None;
      }
      assert s[..length] == buffer[start..start + length] && s[length..] == Rest();
      Advance(1);
      name := Some(Slice(start, length));
    }

    /** xml_parse_tag_open. */
    method ParseTagOpen() returns (name: Option<Slice>)
      requires Valid()
      modifies this`position
      ensures Valid()
      ensures var r := TagOpen(old(Rest()));
        if name.Some? then Inside(buffer, name.value) && r == Some((Bytes(buffer, name.value), Rest())) else r == None
    {
      hide TagEnd, SkipSpace, Peek, Consume;
      SkipWhitespace();
      var c := Look(0);
      if c != '<' {
        return None;
      }
      Advance(1);
      name := ParseTagEnd();
    }

    /** xml_parse_tag_close. */
    method ParseTagClose() returns (name: Option<Slice>)
      requires Valid()
      modifies this`position
      ensures Valid()
      ensures var r := TagClose(old(Rest()));
        if name.Some? then Inside(buffer, name.value) && r == Some((Bytes(buffer, name.value), Rest())) else r == None
    {
      hide TagEnd, SkipSpace, Peek, Consume;
      SkipWhitespace();
      var c := Look(0);
      var d := Look(1);
      if c != '<' || d != '/' {
        return None;
      }
      Advance(2);
      name := ParseTagEnd();
    }

    /** xml_parse_content. */
    method ParseContent() returns (content: Option<Slice>)
      requires Valid()
      modifies this`position
      ensures Valid()
      ensures var r := Content(old(Rest()));
        if content.Some? then Inside(buffer, content.value) && r == Some((Bytes(buffer, content.value), Rest()))
          else r == None
    {
      hide Scan, SkipSpace, Peek;
      SkipWhitespace();
      var start := position;
      ghost var t := Rest();
      var length := ScanTo('<');
      var c := Look(0);
      if c != '<' {
        return None;
      }
      assert t[..length] == buffer[start..start + length] && t[length..] == Rest();
      while length > 0 && IsSpace(buffer[start + length - 1])
        invariant start + length <= position && Trim(buffer[start..start + length]) == Content(old(Rest())).value.0
      {
        assert buffer[start..start + length][..length - 1] == buffer[start..start + length - 1];
        length := length - 1;
      }
      content := Some(Slice(start, length));
    }

    /** xml_parse_node: every node that is returned moves the cursor on, so the recursion ends. */
    method ParseNode() returns (node: Option<Node>)
      requires Valid()
      modifies this`position
      ensures Valid()
      ensures var r := Xml.ParseNode(old(Rest()));
        if node.Some? then NodeInside(buffer, node.value) && r == Some((View(buffer, node.value), Rest()))
          else r == None
      decreases |buffer| - position, 0
    {
      hide TagOpen, TagClose, Content, Xml.ParseChildren, Peek, Matches;
      var open := ParseTagOpen();
      if open.None? {
        return None;
      }
      var name := open.value;
      if name.length > 0 && buffer[name.start + name.length - 1] == '/' {
        var short := Slice(name.start, name.length - 1);
        assert Bytes(buffer, name)[..name.length - 1] == Bytes(buffer, short);
        return Some(Node(short, None, []));
      }
      var content: Option<Slice> := None;
      var children := [];
      var c := Look(0);
      if c != '<' {
        content := ParseContent();
        if content.None? {
          return None;
        }
      } else {
        var kids := ParseChildren();
        if kids.None? {
          return None;
        }
        children := kids.value;
      }
      ghost var end := Rest();
      ghost var tree := View(buffer, Node(name, content, children));
      var close := ParseTagClose();
      if close.None? {
        return None;
      }
      var same := StringEquals(buffer, name, close.value);
      if !same {
        return None;
      }
      node := Some(Node(name, content, children));
    }

    /** The loop of xml_parse_node over the children. */
    method ParseChildren() returns (children: Option<seq<Node>>)
      requires Valid()
      modifies this`position
      ensures Valid()
      ensures children.Some? ==> forall i :: 0 <= i < |children.value| ==> NodeInside(buffer, children.value[i])
      ensures var r := Xml.ParseChildren(old(Rest()));
        if children.Some? then r == Some((ViewAll(buffer, children.value), Rest())) else r == None
      decreases |buffer| - position, 1
    {
      hide Xml.ParseNode, Peek, View, NodeInside;
      var nodes: seq<Node> := [];
      var c := Look(1);
      BeforeEnds([], Xml.ParseChildren(Rest()));
      while c != '/'
        invariant old(position) <= position && Valid() && c == Peek(Rest(), 1)
        invariant forall i :: 0 <= i < |nodes| ==> NodeInside(buffer, nodes[i])
        invariant Xml.ParseChildren(old(Rest())) == Before(ViewAll(buffer, nodes), Xml.ParseChildren(Rest()))
        decreases |buffer| - position
      {
        ghost var s := Rest();
        var child := ParseNode();
        if child.None? {
          return None;
        }
        BeforeTwice(ViewAll(buffer, nodes), View(buffer, child.value), Xml.ParseChildren(Rest()));
        ViewAppend(buffer, nodes, child.value);
        nodes := nodes + [child.value];
        c := Look(1);
      }
      BeforeEnds(ViewAll(buffer, nodes), Xml.ParseChildren(Rest()));
      children := Some(nodes);
    }
  }

  /** Trees already parsed put before those still to come. */
  function Before(trees: seq<Tree>, r: Option<(seq<Tree>, string)>): Option<(seq<Tree>, string)> {
    if r.Some? then Some((trees + r.value.0, r.value.1)) else None
  }

  lemma BeforeTwice(trees: seq<Tree>, t: Tree, r: Option<(seq<Tree>, string)>)
    ensures Before(trees, Before([t], r)) == Before(trees + [t], r)
  {
    if r.Some? {
      assert trees + ([t] + r.value.0) == trees + [t] + r.value.0;
    }
  }

  lemma BeforeEnds(trees: seq<Tree>, r: Option<(seq<Tree>, string)>)
    ensures Before([], r) == r
    ensures r.Some? && r.value.0 == [] ==> Before(trees, r) == Some((trees, r.value.1))
  {
    if r.Some? {
      assert [] + r.value.0 == r.value.0 && trees + [] == trees;
    }
  }

  lemma ViewAppend(buffer: string, nodes: seq<Node>, n: Node)
    requires (forall i :: 0 <= i < |nodes| ==> NodeInside(buffer, nodes[i])) && NodeInside(buffer, n)
    ensures ViewAll(buffer, nodes + [n]) == ViewAll(buffer, nodes) + [View(buffer, n)]
  {
  }

  /** xml_parse_document. */
  method ParseDocument(buffer: string) returns (root: Option<Node>)
    ensures if root.Some? then
      NodeInside(buffer, root.value) && Xml.ParseDocument(buffer) == Some(View(buffer, root.value))
            else Xml.ParseDocument(buffer) == None
  {
    if |buffer| == 0 {
      return None;
    }
    var parser := new Parser(buffer);
    root := parser.ParseNode();
  }
}
