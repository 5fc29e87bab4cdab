/**
 The unbuffered cJSON renderer: every routine allocates its result at a length computed beforehand.
 */
module JsonPrint {

  import opened Json

  // ----- Writing into a fresh block -----

  /** The first |s| characters of a block. */
  ghost predicate Has(out: array<char>, s: string)
    reads out
  {
    |s| <= out.Length && out[..|s|] == s
  }

  method PutChar(out: array<char>, at: nat, c: char, ghost s: string) returns (end: nat)
    requires Has(out, s) && at == |s| < out.Length
    modifies out
    ensures Has(out, s + [c]) && end == |s| + 1
  {
    out[at] := c;
    end := at + 1;
    assert out[..end] == s + [c];
  }

  /** strcpy or memcpy of a text, without its terminator. */
  method PutText(out: array<char>, at: nat, text: string, ghost s: string) returns (end: nat)
    requires Has(out, s) && at == |s| && at + |text| <= out.Length
    modifies out
    ensures Has(out, s + text) && end == |s| + |text|
  {
    var i := 0;
    end := at;
    assert s + text[..0] == s;
    while i < |text|
      invariant i <= |text| && end == at + i && Has(out, s + text[..i])
    {
      end := PutChar(out, end, text[i], s + text[..i]);
      assert s + text[..i] + [text[i]] == s + text[..i + 1];
      i := i + 1;
    }
    assert text[..i] == text;
  }

  // ----- Strings -----

  /** Whether a byte is written as an escape. */
  predicate Escaped(c: char) {
    c as int < 32 || c == '\"' || c == '\\'
  }

  lemma {:induction false} EscapeAppend(s: string, c: char)
    ensures Escape(s + [c]) == Escape(s) + EscapeChar(c)
  {
    hide EscapeChar;
    if s == "" {
      assert "" + [c] == [c] && Escape([c]) == EscapeChar(c) + Escape([]);
    } else {
      EscapeAppend(s[1..], c);
      var t := s + [c];
      assert t[0] == s[0] && t[1..] == s[1..] + [c];
      EscapeFirst(t);
      EscapeFirst(s);
      hide Escape;
      assert EscapeChar(s[0]) + (Escape(s[1..]) + EscapeChar(c)) == EscapeChar(s[0]) + Escape(s[1..]) + EscapeChar(c);
    }
  }

  lemma EscapeFirst(s: string)
    requires s != ""
    ensures Escape(s) == EscapeChar(s[0]) + Escape(s[1..])
  {
    hide EscapeChar;
  }

  lemma {:induction false} EscapePlain(s: string)
    requires forall i :: 0 <= i < |s| ==> !Escaped(s[i])
    ensures Escape(s) == s
  {
    if s != "" {
      EscapePlain(s[1..]);
      assert s == [s[0]] + s[1..];
    }
  }

  lemma EscapeTake(s: string, i: nat)
    requires i < |s|
    ensures Escape(s[..i + 1]) == Escape(s[..i]) + EscapeChar(s[i])
  {
    EscapeAppend(s[..i], s[i]);
    assert s[..i + 1] == s[..i] + [s[i]];
  }

  lemma {:induction false} EscapeMonotone(s: string, i: nat)
    requires i <= |s|
    ensures |Escape(s[..i])| <= |Escape(s)|
    decreases |s| - i
  {
    if i < |s| {
      EscapeTake(s, i);
      EscapeMonotone(s, i + 1);
    } else {
      assert s[..i] == s;
    }
  }

  /** The scan for bytes to escape. */
  method NeedsEscape(str: string) returns (flag: bool)
    ensures flag <==> exists i :: 0 <= i < |str| && Escaped(str[i])
  {
    flag := false;
    var i := 0;
    while i < |str|
      invariant i <= |str| && (flag <==> exists j :: 0 <= j < i && Escaped(str[j]))
    {
      flag := flag || Escaped(str[i]);
      i := i + 1;
    }
  }

  /** The scan that computes how long the escaped text will be. */
  method EscapedLength(str: string) returns (len: nat)
    ensures len == |Escape(str)|
  {
    len := 0;
    var i := 0;
    while i < |str|
      invariant i <= |str| && len == |Escape(str[..i])|
    {
      EscapeTake(str, i);
      len := len + 1;
      if str[i] == '\"' || str[i] == '\\' || str[i] == 8 as char || str[i] == 12 as char || str[i] == '\n'
        || str[i] == '\r' || str[i] == '\t' {
        len := len + 1;
      } else if str[i] as int < 32 {
        len := len + 5;
      }
      i := i + 1;
    }
    assert str[..i] == str;
  }

  /** One round of the escaping loop. */
  method PutEscaped(out: array<char>, at: nat, c: char, ghost s: string) returns (end: nat)
    requires Has(out, s) && at == |s| && at + |EscapeChar(c)| <= out.Length
    modifies out
    ensures Has(out, s + EscapeChar(c)) && end == |s| + |EscapeChar(c)|
  {
    hide Has, Hex4;
    if c as int > 31 && c != '\"' && c != '\\' {
      assert EscapeChar(c) == [c];
      end := PutChar(out, at, c, s);
    } else {
      end := PutChar(out, at, '\\', s);
      ghost var t, e := s + ['\\'], EscapeChar(c)[1..];
      assert t + e == s + EscapeChar(c);
      match c {
        case '\\' => assert e == ['\\']; end := PutChar(out, end, '\\', t);
        case '\"' => assert e == ['\"']; end := PutChar(out, end, '\"', t);
        case '\n' => assert e == ['n']; end := PutChar(out, end, 'n', t);
        case '\r' => assert e == ['r']; end := PutChar(out, end, 'r', t);
        case '\t' => assert e == ['t']; end := PutChar(out, end, 't', t);
        case _ =>
          if c == 8 as char {
            assert e == ['b'];
            end := PutChar(out, end, 'b', t);
          } else if c == 12 as char {
            assert e == ['f'];
            end := PutChar(out, end, 'f', t);
          } else {
            assert e == ['u'] + Hex4(c as int);
            end := PutText(out, end, ['u'] + Hex4(c as int), t);
          }
      }
    }
  }

  /** The escaping loop. */
  method PutEscapes(out: array<char>, at0: nat, str: string, ghost s: string) returns (at: nat)
    requires Has(out, s) && at0 == |s| && at0 + |Escape(str)| <= out.Length
    modifies out
    ensures Has(out, s + Escape(str)) && at == |s| + |Escape(str)|
  {
    hide Has, EscapeChar, Escape;
    at := at0;
    var i := 0;
    EscapeNothing();
    assert s + "" == s && str[..0] == "";
    while i < |str|
      invariant i <= |str| && at == |s| + |Escape(str[..i])| && Has(out, s + Escape(str[..i]))
    {
      EscapeTake(str, i);
      EscapeMonotone(str, i + 1);
      at := PutEscaped(out, at, str[i], s + Escape(str[..i]));
      assert s + Escape(str[..i]) + EscapeChar(str[i]) == s + Escape(str[..i + 1]);
      i := i + 1;
    }
    assert str[..i] == str;
  }

  lemma EscapeNothing()
    ensures Escape("") == ""
  {
  }

  /** The writing part of print_string_ptr, into a block of the computed length. */
  method PutQuoted(out: array<char>, at0: nat, str: string, flag: bool, ghost s: string) returns (at: nat)
    requires Has(out, s) && at0 == |s| && at0 + |Quote(str)| <= out.Length
    requires flag <==> exists i :: 0 <= i < |str| && Escaped(str[i])
    modifies out
    ensures Has(out, s + Quote(str)) && at == |s| + |Quote(str)|
  {
    at := PutChar(out, at0, '\"', s);
    if !flag {
      EscapePlain(str);
      at := PutText(out, at, str, s + ['\"']);
    } else {
      at := PutEscapes(out, at, str, s + ['\"']);
    }
    at := PutChar(out, at, '\"', s + ['\"'] + Escape(str));
    assert s + ['\"'] + Escape(str) + ['\"'] == s + Quote(str);
  }

  /** print_string_ptr without a buffer. */
  method PrintString(str: string) returns (text: string)
    ensures text == Quote(str)
  {
    var flag := NeedsEscape(str);
    var len := |str|;
    if flag {
      len := EscapedLength(str);
    } else {
      EscapePlain(str);
    }
    var out := new char[len + 3];
    var at := PutQuoted(out, 0, str, flag, "");
    assert "" + Quote(str) == Quote(str);
    out[at] := '\0';
    text := out[..at];
  }

  // ----- Numbers -----

  function Pow10(k: nat): nat {
    if k == 0 then 1 else 10 * Pow10(k - 1)
  }

  lemma {:induction false} DigitsBound(n: nat, k: nat)
    requires k > 0 && n < Pow10(k)
    ensures |Digits(n)| <= k
  {
    if n >= 10 {
      assert Pow10(k - 1) * 10 == Pow10(k);
      assert k > 1 by { assert Pow10(1) == 10 * Pow10(0); }
      DigitsBound(n / 10, k - 1);
    }
  }

  /** A 32-bit number prints in at most eleven characters; the source reserves twenty-one. */
  lemma DecimalBound(v: int)
    requires -0x8000_0000 <= v < 0x8000_0000
    ensures |Decimal(v)| <= 11
  {
    assert Pow10(10) == 10000000000 by {
      assert Pow10(3) == 1000;
      assert Pow10(6) == 1000 * Pow10(3);
      assert Pow10(9) == 1000 * Pow10(6);
    }
    DigitsBound(if v < 0 then -v else v, 10);
  }

  /** print_number on a 32-bit number, without a buffer. */
  method PrintNumber(v: int) returns (text: string)
    requires -0x8000_0000 <= v < 0x8000_0000
    ensures text == Decimal(v)
  {
    DecimalBound(v);
    var out := new char[if v == 0 then 2 else 21];
    var at := PutText(out, 0, if v == 0 then "0" else Decimal(v), "");
    assert "" + Decimal(v) == Decimal(v);
    out[at] := '\0';
    text := out[..at];
  }

  // ----- Arrays -----

  function RenderedItems(items: Items, depth: nat, fmt: bool): seq<string> {
    if items.NoItems? then [] else [Render(items.value, depth, fmt)] + RenderedItems(items.next, depth, fmt)
  }

  function Joined(entries: seq<string>, fmt: bool): string {
    if entries == [] then ""
      else entries[0] + ((if |entries| == 1 then "" else if fmt then ", " else ",") + Joined(entries[1..], fmt))
  }

  /** The sum of the entry lengths and of a fixed number of characters for each. */
  function Room(entries: seq<string>, extra: nat): nat {
    if entries == [] then 0 else |entries[0]| + extra + Room(entries[1..], extra)
  }

  lemma RoomNothing(extra: nat)
    ensures Room([], extra) == 0
  {
  }

  lemma {:induction false} RoomAppend(entries: seq<string>, e: string, extra: nat)
    ensures Room(entries + [e], extra) == Room(entries, extra) + |e| + extra
  {
    if entries != [] {
      RoomAppend(entries[1..], e, extra);
      assert (entries + [e])[1..] == entries[1..] + [e];
    } else {
      assert [] + [e] == [e];
    }
  }

  lemma {:induction false} JoinedFits(entries: seq<string>, fmt: bool)
    ensures |Joined(entries, fmt)| <= Room(entries, if fmt then 3 else 2)
  {
    if entries != [] {
      JoinedFits(entries[1..], fmt);
    }
  }

  lemma {:induction false} JoinedIsRender(items: Items, depth: nat, fmt: bool)
    ensures Joined(RenderedItems(items, depth, fmt), fmt) == RenderItems(items, depth, fmt)
  {
    hide Render;
    if items.Item? {
      JoinedIsRender(items.next, depth, fmt);
      assert RenderedItems(items, depth, fmt)[1..] == RenderedItems(items.next, depth, fmt);
    }
  }

  /** The loop that composes an array from its entries. */
  method PutEntries(out: array<char>, at0: nat, entries: seq<string>, fmt: bool, ghost s: string) returns (at: nat)
    requires Has(out, s) && at0 == |s| && at0 + |Joined(entries, fmt)| <= out.Length
    modifies out
    ensures Has(out, s + Joined(entries, fmt)) && at == |s| + |Joined(entries, fmt)|
  {
    hide Has;
    at := at0;
    var i := 0;
    ghost var w := s;
    ghost var all := s + Joined(entries, fmt);
    assert entries[0..] == entries;
    while i < |entries|
      invariant i <= |entries| && at == |w| && Has(out, w) && w + Joined(entries[i..], fmt) == all
    {
      var sep := if i == |entries| - 1 then "" else if fmt then ", " else ",";
      JoinedStep(entries, i, fmt, w);
      at := PutText(out, at, entries[i], w);
      at := PutText(out, at, sep, w + entries[i]);
      w := w + entries[i] + sep;
      i := i + 1;
    }
    assert w + "" == w;
  }

  lemma JoinedStep(entries: seq<string>, i: nat, fmt: bool, w: string)
    requires i < |entries|
    ensures var sep := if i == |entries| - 1 then "" else if fmt then ", " else ",";
      w + Joined(entries[i..], fmt) == w + entries[i] + sep + Joined(entries[i + 1..], fmt)
  {
  }

  /** print_value without a buffer. */
  method PrintValue(item: Json, depth: nat, fmt: bool) returns (text: string)
    requires Renderable(item)
    ensures text == Render(item, depth, fmt)
    decreases item, 1
  {
    match item
    case Null => text := "null";
    case False => text := "false";
    case True => text := "true";
    case Number(m, _) => text := PrintNumber(m);
    case Str(t) => text := PrintString(t);
    case Arr(items) => text := PrintArray(items, depth, fmt);
    case Obj(members) => text := PrintObject(members, depth, fmt);
  }

  /** print_array without a buffer: the computed length is room enough. */
  method PrintArray(items: Items, depth: nat, fmt: bool) returns (text: string)
    requires RenderableItems(items)
    ensures text == Render(Arr(items), depth, fmt)
    decreases items, 2
  {
    if items.NoItems? {
      return "[]";
    }
    hide Render, RenderItems, Joined, Room, RenderedItems;
    var entries, len := PrintItems(items, depth + 1, fmt);
    JoinedFits(entries, fmt);
    JoinedIsRender(items, depth + 1, fmt);
    var out := new char[len];
    text := ComposeArray(out, entries, fmt);
    RenderArrayText(items, depth, fmt);
  }

  method ComposeArray(out: array<char>, entries: seq<string>, fmt: bool) returns (text: string)
    requires |Joined(entries, fmt)| + 3 <= out.Length
    modifies out
    ensures text == "[" + Joined(entries, fmt) + "]"
  {
    hide Joined;
    var at := PutChar(out, 0, '[', "");
    at := PutEntries(out, at, entries, fmt, "" + ['[']);
    at := PutChar(out, at, ']', "" + ['['] + Joined(entries, fmt));
    out[at] := '\0';
    text := out[..at];
    assert "" + ['['] + Joined(entries, fmt) + [']'] == "[" + Joined(entries, fmt) + "]";
  }

  lemma RenderArrayText(items: Items, depth: nat, fmt: bool)
    ensures Render(Arr(items), depth, fmt) == "[" + RenderItems(items, depth + 1, fmt) + "]"
  {
  }

  lemma ItemsStep(entries: seq<string>, child: Items, depth: nat, fmt: bool)
    ensures child.NoItems? ==> RenderedItems(child, depth, fmt) == []
    ensures child.Item? ==>
      entries + RenderedItems(child, depth, fmt)
        == entries + [Render(child.value, depth, fmt)] + RenderedItems(child.next, depth, fmt)
  {
  }

  /** The loop that renders the items and adds up the length. */
  method PrintItems(items: Items, depth: nat, fmt: bool) returns (entries: seq<string>, len: nat)
    requires RenderableItems(items)
    ensures entries == RenderedItems(items, depth, fmt) && len == 5 + Room(entries, if fmt then 3 else 2)
    decreases items, 1
  {
    hide Render, RenderedItems, Room;
    entries, len := [], 5;
    RoomNothing(if fmt then 3 else 2);
    var child := items;
    while child.Item?
      invariant RenderableItems(child) && (child == items || child < items)
      invariant entries + RenderedItems(child, depth, fmt) == RenderedItems(items, depth, fmt)
      invariant len == 5 + Room(entries, if fmt then 3 else 2)
      decreases child
    {
      var ret := PrintValue(child.value, depth, fmt);
      RoomAppend(entries, ret, if fmt then 3 else 2);
      ItemsStep(entries, child, depth, fmt);
      entries := entries + [ret];
      len := len + |ret| + 2 + if fmt then 1 else 0;
      child := child.next;
    }
    ItemsStep(entries, child, depth, fmt);
  }

  // ----- Objects -----

  function RenderedNames(members: Members): seq<string> {
    if members.NoMembers? then [] else [Quote(members.name)] + RenderedNames(members.next)
  }

  function RenderedValues(members: Members, depth: nat, fmt: bool): seq<string> {
    if members.NoMembers? then [] else [Render(members.value, depth, fmt)] + RenderedValues(members.next, depth, fmt)
  }

  /** One line of an object. */
  function Line(name: string, entry: string, last: bool, depth: nat, fmt: bool): string {
    Indent(depth, fmt) + (name + Colon(fmt) + entry + ((if last then "" else ",") + if fmt then "\n" else ""))
  }

  function Lines(names: seq<string>, entries: seq<string>, depth: nat, fmt: bool): string
    requires |names| == |entries|
  {
    if names == [] then ""
      else Line(names[0], entries[0], |names| == 1, depth, fmt) + Lines(names[1..], entries[1..], depth, fmt)
  }

  lemma {:induction false} LinesFit(names: seq<string>, entries: seq<string>, depth: nat, fmt: bool)
    requires |names| == |entries|
    ensures |Lines(names, entries, depth, fmt)| <= Room(names, 0) + Room(entries, 2 + if fmt then 2 + depth else 0)
  {
    if names != [] {
      LinesFit(names[1..], entries[1..], depth, fmt);
    }
  }

  lemma {:induction false} RenderedLengths(members: Members, depth: nat, fmt: bool)
    ensures |RenderedNames(members)| == |RenderedValues(members, depth, fmt)|
    ensures members.Member? ==> RenderedNames(members) != []
  {
    if members.Member? {
      RenderedLengths(members.next, depth, fmt);
    }
  }

  lemma {:induction false} LinesAreRender(members: Members, depth: nat, fmt: bool)
    ensures |RenderedNames(members)| == |RenderedValues(members, depth, fmt)|
    ensures Lines(RenderedNames(members), RenderedValues(members, depth, fmt), depth, fmt)
      == RenderMembers(members, depth, fmt)
  {
    hide Render, Quote, Indent, Colon;
    if members.Member? {
      var next := members.next;
      LinesAreRender(next, depth, fmt);
      RenderedLengths(next, depth, fmt);
      var names, values := RenderedNames(members), RenderedValues(members, depth, fmt);
      assert names[1..] == RenderedNames(next) && values[1..] == RenderedValues(next, depth, fmt);
      var i, pair, more := Indent(depth, fmt), RenderPair(members.name, members.value, depth, fmt),
        RenderMembers(next, depth, fmt);
      var end := LineEnd(next, fmt);
      assert Line(names[0], values[0], |names| == 1, depth, fmt) == i + (pair + end);
      assert i + (pair + end) + more == i + (pair + (end + more));
    }
  }

  /** The loop that composes an object from its names and entries. */
  method PutLines(out: array<char>, at0: nat, names: seq<string>, entries: seq<string>, depth: nat, fmt: bool,
                  ghost s: string) returns (at: nat)
    requires |names| == |entries| && Has(out, s) && at0 == |s|
      && at0 + |Lines(names, entries, depth, fmt)| <= out.Length
    modifies out
    ensures Has(out, s + Lines(names, entries, depth, fmt)) && at == |s| + |Lines(names, entries, depth, fmt)|
  {
    hide Has, Line;
    at := at0;
    var i := 0;
    ghost var w := s;
    ghost var all := s + Lines(names, entries, depth, fmt);
    assert names[0..] == names && entries[0..] == entries;
    while i < |names|
      invariant i <= |names| && at == |w| && Has(out, w) && w + Lines(names[i..], entries[i..], depth, fmt) == all
    {
      LinesStep(names, entries, i, depth, fmt, w);
      ghost var line := Line(names[i], entries[i], i == |names| - 1, depth, fmt);
      at := PutLine(out, at, names[i], entries[i], i == |names| - 1, depth, fmt, w);
      w := w + line;
      i := i + 1;
    }
    assert w + "" == w;
  }

  lemma LinesStep(names: seq<string>, entries: seq<string>, i: nat, depth: nat, fmt: bool, w: string)
    requires |names| == |entries| && i < |names|
    ensures w + Lines(names[i..], entries[i..], depth, fmt)
         == w + Line(names[i], entries[i], i == |names| - 1, depth, fmt)
           + Lines(names[i + 1..], entries[i + 1..], depth, fmt)
  {
    hide Line;
    assert names[i..][1..] == names[i + 1..] && entries[i..][1..] == entries[i + 1..];
  }

  method PutLine(out: array<char>, at0: nat, name: string, entry: string, last: bool, depth: nat, fmt: bool,
                 ghost s: string) returns (at: nat)
    requires Has(out, s) && at0 == |s| && at0 + |Line(name, entry, last, depth, fmt)| <= out.Length
    modifies out
    ensures Has(out, s + Line(name, entry, last, depth, fmt)) && at == |s| + |Line(name, entry, last, depth, fmt)|
  {
    var end := (if last then "" else ",") + if fmt then "\n" else "";
    LineText(s, Indent(depth, fmt), name, Colon(fmt), entry, end);
    hide Has, Indent, Colon;
    ghost var t := s + Indent(depth, fmt);
    at := PutText(out, at0, Indent(depth, fmt), s);
    at := PutText(out, at, name, t);
    at := PutText(out, at, Colon(fmt), t + name);
    at := PutText(out, at, entry, t + name + Colon(fmt));
    at := PutText(out, at, end, t + name + Colon(fmt) + entry);
  }

  lemma LineText(s: string, indent: string, name: string, colon: string, entry: string, end: string)
    ensures s + indent + name + colon + entry + end == s + (indent + (name + colon + entry + end))
  {
  }

  /** The text of an empty object. */
  function EmptyObject(depth: nat, fmt: bool): string {
    if fmt then "{\n" + Tabs(if depth > 0 then depth - 1 else 0) + "}" else "{}"
  }

  /** print_object without a buffer: the computed length is room enough. */
  method PrintObject(members: Members, depth: nat, fmt: bool) returns (text: string)
    requires RenderableMembers(members)
    ensures text == Render(Obj(members), depth, fmt)
    decreases members, 2
  {
    hide RenderMembers, Lines, Tabs, Room, RenderedNames, RenderedValues;
    if members.NoMembers? {
      text := PrintEmptyObject(depth, fmt);
      return;
    }
    var names, entries, len := PrintMembers(members, depth + 1, fmt);
    LinesAreRender(members, depth + 1, fmt);
    LinesFit(names, entries, depth + 1, fmt);
    TabsLength(depth);
    var out := new char[len];
    text := ComposeObject(out, names, entries, depth, fmt);
  }

  method PrintEmptyObject(depth: nat, fmt: bool) returns (text: string)
    ensures text == EmptyObject(depth, fmt)
  {
    var out := new char[if fmt then depth + 4 else 3];
    var at := PutText(out, 0, EmptyObject(depth, fmt), "");
    assert "" + EmptyObject(depth, fmt) == EmptyObject(depth, fmt);
    out[at] := '\0';
    text := out[..at];
  }

  lemma TabsLength(n: nat)
    ensures |Tabs(n)| == n
  {
  }

  method ComposeObject(out: array<char>, names: seq<string>, entries: seq<string>, depth: nat, fmt: bool)
    returns (text: string)
    requires |names| == |entries|
    requires |Opening(fmt)| + |Lines(names, entries, depth + 1, fmt)| + |Indent(depth, fmt)| + 2 <= out.Length
    modifies out
    ensures text == Opening(fmt) + Lines(names, entries, depth + 1, fmt) + (Indent(depth, fmt) + "}")
  {
    hide Lines, Opening, Indent, Has;
    ghost var lines := Lines(names, entries, depth + 1, fmt);
    HasNothing(out);
    ObjectAround(Opening(fmt), lines, Indent(depth, fmt));
    var at := PutText(out, 0, Opening(fmt), "");
    at := PutLines(out, at, names, entries, depth + 1, fmt, "" + Opening(fmt));
    at := PutText(out, at, Indent(depth, fmt), "" + Opening(fmt) + lines);
    at := PutChar(out, at, '}', "" + Opening(fmt) + lines + Indent(depth, fmt));
    text := TextOf(out, at, "" + Opening(fmt) + lines + Indent(depth, fmt) + ['}']);
  }

  lemma HasNothing(out: array<char>)
    ensures Has(out, "")
  {
  }

  lemma ObjectAround(opening: string, lines: string, indent: string)
    ensures "" + opening + lines + indent + ['}'] == opening + lines + (indent + "}")
  {
  }

  /** The finished text is terminated. */
  method TextOf(out: array<char>, at: nat, ghost s: string) returns (text: string)
    requires Has(out, s) && at == |s| < out.Length
    modifies out
    ensures text == s
  {
    out[at] := '\0';
    text := out[..at];
  }

  lemma MembersStep(names: seq<string>, entries: seq<string>, child: Members, depth: nat, fmt: bool)
    ensures child.NoMembers? ==> RenderedNames(child) == [] && RenderedValues(child, depth, fmt) == []
    ensures child.Member? ==> names + RenderedNames(child) == names + [Quote(child.name)] + RenderedNames(child.next)
    ensures child.Member? ==>
      entries + RenderedValues(child, depth, fmt)
        == entries + [Render(child.value, depth, fmt)] + RenderedValues(child.next, depth, fmt)
  {
  }

  /** The loop that renders names and values and adds up the length. */
  method PrintMembers(members: Members, depth: nat, fmt: bool)
    returns (names: seq<string>, entries: seq<string>, len: nat)
    requires RenderableMembers(members)
    ensures names == RenderedNames(members) && entries == RenderedValues(members, depth, fmt)
    ensures len == 7 + (if fmt then depth else 0) + Room(names, 0) + Room(entries, 2 + if fmt then 2 + depth else 0)
    decreases members, 1
  {
    hide Render, Quote, RenderedNames, RenderedValues, Room;
    names, entries, len := [], [], 7 + if fmt then depth else 0;
    RoomNothing(0);
    RoomNothing(2 + if fmt then 2 + depth else 0);
    var child := members;
    var extra := 2 + if fmt then 2 + depth else 0;
    while child.Member?
      invariant RenderableMembers(child) && (child == members || child < members)
      invariant names + RenderedNames(child) == RenderedNames(members)
      invariant entries + RenderedValues(child, depth, fmt) == RenderedValues(members, depth, fmt)
      invariant len == 7 + (if fmt then depth else 0) + Room(names, 0) + Room(entries, extra)
      decreases child
    {
      var str := PrintString(child.name);
      var ret := PrintValue(child.value, depth, fmt);
      RoomAppend(names, str, 0);
      RoomAppend(entries, ret, extra);
      MembersStep(names, entries, child, depth, fmt);
      names, entries := names + [str], entries + [ret];
      len := len + |ret| + |str| + 2 + if fmt then 2 + depth else 0;
      child := child.next;
    }
    MembersStep(names, entries, child, depth, fmt);
  }

  /** cJSON_Print and cJSON_PrintUnformatted. */
  method Print(item: Json, fmt: bool) returns (text: string)
    requires Renderable(item)
    ensures text == Render(item, 0, fmt)
  {
    text := PrintValue(item, 0, fmt);
  }
}
