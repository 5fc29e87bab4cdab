/**
 The buffered cJSON renderer: one growing buffer that every routine appends to, through its offset.
 */
module JsonBuffer {

  import opened Bits
  import opened Json
  import P = JsonPrint

  /** pow2gt: the least power of two that is at least x. */
  method Pow2Gt(x0: nat) returns (r: nat)
    requires x0 > 0
    ensures r >= x0
    ensures x0 <= 0x1_0000_0000 ==> LeastPower(x0, r)
  {
    hide Pow2, Or, ShiftRight, Smeared;
    var x := x0 - 1;
    SmearStart(x0 - 1);
    x := Smear(x, 1, x0 - 1);
    x := Smear(x, 2, x0 - 1);
    x := Smear(x, 4, x0 - 1);
    x := Smear(x, 8, x0 - 1);
    x := Smear(x, 16, x0 - 1);
    r := x + 1;
    if x0 <= 0x1_0000_0000 {
      FilledIsLeastPower(x0, x);
    }
  }

  /** One step x |= x >> w. */
  method Smear(x: nat, w: nat, ghost a: nat) returns (y: nat)
    requires Smeared(x, a, w) && x >= a
    ensures Smeared(y, a, 2 * w) && y >= a
  {
    SmearStep(x, a, w);
    OrAbove(x, ShiftRight(x, w));
    y := Or(x, ShiftRight(x, w));
  }

  lemma FilledIsLeastPower(n: nat, x: nat)
    requires 0 < n <= 0x1_0000_0000 && Smeared(x, n - 1, 32)
    ensures LeastPower(n, x + 1)
  {
    if n == 1 {
      NoBits(x);
      assert Pow2(0) == 1;
      assert x + 1 == Pow2(0) && n <= x + 1;
    } else {
      assert Pow2(32) == 0x1_0000_0000 by {
        assert Pow2(8) == 256;
        assert Pow2(16) == 256 * Pow2(8);
        assert Pow2(24) == 256 * Pow2(16);
        assert Pow2(32) == 256 * Pow2(24);
      }
      var k := Magnitude(n - 1, 32);
      SmearedIsOnes(x, n - 1, k, 32);
      assert x + 1 == Pow2(k + 1);
      assert Pow2(k + 1 - 1) < n;
    }
  }

  lemma NoBits(x: nat)
    requires Smeared(x, 0, 32)
    ensures x == 0
  {
    forall i: nat ensures Bit(x, i) == Bit(0, i) {
      assert Bit(x, i) <==> InWindow(0, i, 32);
      NoBitAbove(0, 0, i);
      if InWindow(0, i, 32) {
        var j: nat :| i <= j < i + 32 && Bit(0, j);
        NoBitAbove(0, 0, j);
      }
    }
    SameBits(x, 0);
  }

  class PrintBuffer {
    var buffer: array<char>
    var length: nat
    var offset: nat

    ghost predicate Valid()
      reads this, buffer
    {
      length == buffer.Length && offset <= length
    }

    /** The buffer starts with s. */
    ghost predicate Holds(s: string)
      reads this, buffer
    {
      |s| <= buffer.Length && buffer[..|s|] == s
    }

    /** The buffer is the C string s. */
    ghost predicate Ends(s: string)
      reads this, buffer
    {
      Holds(s) && |s| < buffer.Length && buffer[|s|] == '\0'
    }

    constructor (prebuffer: nat)
      requires prebuffer >= 1
      ensures Valid() && length == prebuffer && offset == 0 && fresh(buffer)
    {
      buffer := new char[prebuffer];
      length, offset := prebuffer, 0;
    }

    /** ensure: room for needed more characters, with everything before kept. */
    method Ensure(needed: nat) returns (at: nat)
      requires Valid() && needed > 0
      modifies this
      ensures Valid() && offset == old(offset) && at == offset
      ensures at + needed <= length && old(length) <= length
      ensures buffer == old(buffer) || fresh(buffer)
      ensures buffer[..old(length)] == old(buffer[..])
    {
      at := offset;
      if needed + offset <= length {
        return;
      }
      var newsize := Pow2Gt(needed + offset);
      var newbuffer := new char[newsize];
      var i := 0;
      while i < length
        invariant i <= length <= newsize && newbuffer[..i] == buffer[..i]
        modifies newbuffer
      {
        newbuffer[i] := buffer[i];
        i := i + 1;
      }
      length := newsize;
      buffer := newbuffer;
    }

    /** update: the offset moved past the C string that starts there. */
    method Update(ghost s: string)
      requires Valid() && Ends(s) && offset <= |s| && CString(s[offset..])
      modifies this`offset
      ensures offset == |s|
    {
      assert forall i :: offset <= i < |s| ==> buffer[i] == s[i] == s[offset..][i - offset];
      var n := 0;
      while buffer[offset + n] != '\0'
        invariant offset + n <= |s|
        decreases |s| - n
      {
        n := n + 1;
      }
      offset := offset + n;
    }

    /** Writes a text at the offset and moves past it; no terminator. */
    method PutText(text: string, ghost s: string)
      requires Valid() && Holds(s) && offset == |s| && text != ""
      modifies this, buffer
      ensures Valid() && Holds(s + text) && offset == |s + text|
      ensures buffer == old(buffer) || fresh(buffer)
    {
      var at := Ensure(|text|);
      HoldsLonger(s, old(buffer[..]));
      at := P.PutText(buffer, at, text, s);
      offset := offset + |text|;
    }

    lemma HoldsLonger(s: string, was: seq<char>)
      requires |s| <= |was| <= buffer.Length && buffer[..|was|] == was && was[..|s|] == s
      ensures P.Has(buffer, s)
    {
    }

    /** Writes a text and its terminator at the offset, which moves past the text only if asked to. */
    method PutTerminated(text: string, needed: nat, advance: bool, ghost s: string)
      requires Valid() && Holds(s) && offset == |s| && needed > |text|
      modifies this, buffer
      ensures Valid() && Ends(s + text) && offset == if advance then |s + text| else |s|
      ensures buffer == old(buffer) || fresh(buffer)
    {
      var at := Ensure(needed);
      HoldsLonger(s, old(buffer[..]));
      at := P.PutText(buffer, at, text, s);
      buffer[at] := '\0';
      assert buffer[..at] == s + text;
      if advance {
        offset := offset + |text|;
      }
    }

    /** print_string_ptr into the buffer. */
    method PrintString(str: string, ghost s: string)
      requires Valid() && Holds(s) && offset == |s|
      modifies this, buffer
      ensures Valid() && Ends(s + Quote(str)) && offset == |s|
      ensures buffer == old(buffer) || fresh(buffer)
    {
      var flag := P.NeedsEscape(str);
      var len := |str|;
      if flag {
        len := P.EscapedLength(str);
      } else {
        P.EscapePlain(str);
      }
      var at := Ensure(len + 3);
      HoldsLonger(s, old(buffer[..]));
      at := P.PutQuoted(buffer, at, str, flag, s);
      buffer[at] := '\0';
      assert buffer[..at] == s + Quote(str);
    }

    /** What a routine that prints r at the offset |s| leaves: r after s, the offset somewhere in r. */
    ghost predicate Printed(s: string, r: string)
      reads this, buffer
    {
      Valid() && Ends(s + r) && |s| <= offset <= |s| + |r|
    }

    /** The update that follows a printing routine. */
    method Advance(ghost s: string, ghost r: string)
      requires Printed(s, r) && CString(r)
      modifies this`offset
      ensures Valid() && Holds(s + r) && offset == |s + r|
    {
      assert (s + r)[offset..] == r[offset - |s|..];
      Update(s + r);
    }

    /** print_value into the buffer. */
    method PrintValue(item: Json, depth: nat, fmt: bool, ghost s: string)
      requires Valid() && Holds(s) && offset == |s| && Renderable(item)
      modifies this, buffer
      ensures Printed(s, Render(item, depth, fmt))
      ensures buffer == old(buffer) || fresh(buffer)
      decreases item, 1
    {
      hide Ends, Holds;
      match item
      case Null => PutTerminated("null", 5, false, s);
      case False => PutTerminated("false", 6, false, s);
      case True => PutTerminated("true", 5, false, s);
      case Number(m, _) =>
        P.DecimalBound(m);
        if m == 0 {
          PutTerminated("0", 2, false, s);
        } else {
          PutTerminated(Decimal(m), 21, false, s);
        }
      case Str(t) => PrintString(t, s);
      case Arr(items) => PrintArray(items, depth, fmt, s);
      case Obj(members) => PrintObject(members, depth, fmt, s);
    }

    /** print_array into the buffer. */
    method PrintArray(items: Items, depth: nat, fmt: bool, ghost s: string)
      requires Valid() && Holds(s) && offset == |s| && RenderableItems(items)
      modifies this, buffer
      ensures Printed(s, Render(Arr(items), depth, fmt))
      ensures buffer == old(buffer) || fresh(buffer)
      decreases items, 2
    {
      hide Ends, Holds, Render, RenderItems, RenderableItems;
      ghost var body := RenderItems(items, depth + 1, fmt);
      ArrayAfter(s, items, depth, fmt);
      if items.NoItems? {
        PutTerminated("[]", 3, false, s);
      } else {
        PutText("[", s);
        PrintItems(items, depth + 1, fmt, s + "[");
        PutTerminated("]", 2, false, s + "[" + body);
      }
    }

    lemma ArrayAfter(s: string, items: Items, depth: nat, fmt: bool)
      ensures var r, body := Render(Arr(items), depth, fmt), RenderItems(items, depth + 1, fmt);
        if items.NoItems? then r == "[]" else s + "[" + body + "]" == s + r
    {
      assert items.NoItems? ==> RenderItems(items, depth + 1, fmt) == "";
      hide RenderItems;
    }

    /** The loop of print_array. */
    method PrintItems(items: Items, depth: nat, fmt: bool, ghost s: string)
      requires Valid() && Holds(s) && offset == |s| && RenderableItems(items)
      modifies this, buffer
      ensures Valid() && Holds(s + RenderItems(items, depth, fmt)) && offset == |s + RenderItems(items, depth, fmt)|
      ensures buffer == old(buffer) || fresh(buffer)
      decreases items, 1
    {
      hide Ends, Holds, Render, RenderItems, Printed;
      ghost var w, all := s, s + RenderItems(items, depth, fmt);
      var child := items;
      while child.Item?
        invariant RenderableItems(child) && (child == items || child < items)
        invariant Valid() && Holds(w) && offset == |w| && w + RenderItems(child, depth, fmt) == all
        invariant buffer == old(buffer) || fresh(buffer)
        decreases child
      {
        ItemsStep(child, depth, fmt, w);
        ghost var r := Render(child.value, depth, fmt);
        PrintValue(child.value, depth, fmt, w);
        RenderCString(child.value, depth, fmt);
        Advance(w, r);
        w := w + r;
        if child.next.Item? {
          PutTerminated(if fmt then ", " else ",", if fmt then 3 else 2, true, w);
          EndsHolds(w + Separator(child.next, fmt));
        }
        assert w + "" == w;
        w := w + Separator(child.next, fmt);
        child := child.next;
      }
      ItemsStep(child, depth, fmt, w);
    }

    lemma EndsHolds(s: string)
      requires Ends(s)
      ensures Holds(s)
    {
    }

    /** print_object into the buffer. */
    method PrintObject(members: Members, depth: nat, fmt: bool, ghost s: string)
      requires Valid() && Holds(s) && offset == |s| && RenderableMembers(members)
      modifies this, buffer
      ensures Printed(s, Render(Obj(members), depth, fmt))
      ensures buffer == old(buffer) || fresh(buffer)
      decreases members, 2
    {
      ObjectTexts(depth, fmt);
      hide Ends, Holds, Tabs, Render, RenderMembers, RenderableMembers, Opening, Indent, P.EmptyObject;
      ghost var body := RenderMembers(members, depth + 1, fmt);
      ObjectAfter(s, members, depth, fmt);
      if members.NoMembers? {
        PutTerminated(P.EmptyObject(depth, fmt), if fmt then depth + 4 else 3, false, s);
      } else {
        PutTerminated(Opening(fmt), if fmt then 3 else 2, true, s);
        EndsHolds(s + Opening(fmt));
        PrintMembers(members, depth + 1, fmt, s + Opening(fmt));
        PutTerminated(Indent(depth, fmt) + "}", if fmt then depth + 2 else 2, false, s + Opening(fmt) + body);
      }
    }

    /** The texts around the members fit what is asked for them. */
    lemma ObjectTexts(depth: nat, fmt: bool)
      ensures |P.EmptyObject(depth, fmt)| < if fmt then depth + 4 else 3
      ensures |Opening(fmt)| < if fmt then 3 else 2
      ensures |Indent(depth, fmt)| + 1 < if fmt then depth + 2 else 2
    {
      P.TabsLength(if depth > 0 then depth - 1 else 0);
      P.TabsLength(depth);
      hide Tabs;
    }

    lemma ObjectAfter(s: string, members: Members, depth: nat, fmt: bool)
      ensures var r, body := Render(Obj(members), depth, fmt), RenderMembers(members, depth + 1, fmt);
        if members.NoMembers? then r == P.EmptyObject(depth, fmt)
        else s + Opening(fmt) + body + (Indent(depth, fmt) + "}") == s + r
    {
      hide RenderMembers, Opening, Indent, Tabs;
    }

    /** The loop of print_object. */
    method PrintMembers(members: Members, depth: nat, fmt: bool, ghost s: string)
      requires Valid() && Holds(s) && offset == |s| && RenderableMembers(members) && depth > 0
      modifies this, buffer
      ensures Valid() && Holds(s + RenderMembers(members, depth, fmt))
        && offset == |s + RenderMembers(members, depth, fmt)|
      ensures buffer == old(buffer) || fresh(buffer)
      decreases members, 1
    {
      hide Ends, Holds, Render, RenderMembers, Printed, Quote, Tabs;
      ghost var w, all := s, s + RenderMembers(members, depth, fmt);
      var child := members;
      while child.Member?
        invariant RenderableMembers(child) && (child == members || child < members)
        invariant Valid() && Holds(w) && offset == |w| && w + RenderMembers(child, depth, fmt) == all
        invariant buffer == old(buffer) || fresh(buffer)
        decreases child
      {
        MembersStep(child, depth, fmt, w);
        w := PrintPair(child.name, child.value, depth, fmt, w);
        ghost var end := LineEnd(child.next, fmt);
        var text := if child.next.Member? then (if fmt then ",\n" else ",") else if fmt then "\n" else "";
        assert text == end;
        PutTerminated(text, |text| + 1, true, w);
        EndsHolds(w + text);
        w := w + end;
        child := child.next;
      }
      MembersStep(child, depth, fmt, w);
    }

    /** The indentation, the name, the colon and the value. */
    method PrintPair(name: string, v: Json, depth: nat, fmt: bool, ghost s: string) returns (ghost w: string)
      requires Valid() && Holds(s) && offset == |s| && CString(name) && Renderable(v) && depth > 0
      modifies this, buffer
      ensures w == s + (Indent(depth, fmt) + RenderPair(name, v, depth, fmt))
      ensures Valid() && Holds(w) && offset == |w|
      ensures buffer == old(buffer) || fresh(buffer)
      decreases v, 2
    {
      hide Ends, Holds, Render, Quote, Tabs;
      w := s;
      if fmt {
        P.TabsLength(depth);
        PutText(Tabs(depth), w);
        w := w + Tabs(depth);
      }
      PrintString(name, w);
      QuoteCString(name);
      Advance(w, Quote(name));
      w := w + Quote(name);
      PutText(Colon(fmt), w);
      w := w + Colon(fmt);
      PrintValue(v, depth, fmt, w);
      RenderCString(v, depth, fmt);
      Advance(w, Render(v, depth, fmt));
      w := w + Render(v, depth, fmt);
      PairParts(s, name, v, depth, fmt);
    }
  }

  lemma PairParts(s: string, name: string, v: Json, depth: nat, fmt: bool)
    ensures s + (Indent(depth, fmt) + RenderPair(name, v, depth, fmt))
         == (if fmt then s + Tabs(depth) else s) + Quote(name) + Colon(fmt) + Render(v, depth, fmt)
  {
  }

  lemma ItemsStep(child: Items, depth: nat, fmt: bool, w: string)
    ensures child.NoItems? ==> w + RenderItems(child, depth, fmt) == w
    ensures child.Item? ==>
      w + RenderItems(child, depth, fmt)
        == w + Render(child.value, depth, fmt) + Separator(child.next, fmt) + RenderItems(child.next, depth, fmt)
  {
  }

  lemma MembersStep(child: Members, depth: nat, fmt: bool, w: string)
    ensures child.NoMembers? ==> w + RenderMembers(child, depth, fmt) == w
    ensures child.Member? ==>
      w + RenderMembers(child, depth, fmt)
        == w + (Indent(depth, fmt) + RenderPair(child.name, child.value, depth, fmt)) + LineEnd(child.next, fmt)
          + RenderMembers(child.next, depth, fmt)
  {
  }

  // ----- A rendering holds no terminator -----

  lemma {:induction false} DigitsCString(n: nat)
    ensures CString(Digits(n))
  {
    if n >= 10 {
      DigitsCString(n / 10);
    }
  }

  lemma {:induction false} EscapeCString(s: string)
    requires CString(s)
    ensures CString(Escape(s))
  {
    if s != "" {
      EscapeCString(s[1..]);
      EscapeCharCString(s[0]);
    }
  }

  lemma EscapeCharCString(c: char)
    requires c as int < 256
    ensures CString(EscapeChar(c))
  {
  }

  lemma QuoteCString(s: string)
    requires CString(s)
    ensures CString(Quote(s))
  {
    EscapeCString(s);
  }

  lemma CStringAppend(a: string, b: string)
    requires CString(a) && CString(b)
    ensures CString(a + b)
  {
  }

  lemma {:induction false} RenderCString(v: Json, depth: nat, fmt: bool)
    requires Renderable(v)
    ensures CString(Render(v, depth, fmt))
    decreases v
  {
    hide CString;
    CStringWords(if depth > 0 then depth - 1 else 0);
    CStringWords(depth);
    match v
    case Number(m, _) =>
      DigitsCString(if m < 0 then -m else m);
      CStringAppend("-", Digits(if m < 0 then -m else m));
    case Str(t) => QuoteCString(t);
    case Arr(items) =>
      RenderItemsCString(items, depth + 1, fmt);
      CStringAppend("[", RenderItems(items, depth + 1, fmt));
      CStringAppend("[" + RenderItems(items, depth + 1, fmt), "]");
    case Obj(members) =>
      if members.Member? {
        RenderMembersCString(members, depth + 1, fmt);
        CStringAppend(Opening(fmt), RenderMembers(members, depth + 1, fmt));
        CStringAppend(Opening(fmt) + RenderMembers(members, depth + 1, fmt), Indent(depth, fmt) + "}");
      }
    case _ =>
  }

  lemma CStringWords(n: nat)
    ensures CString("null") && CString("false") && CString("true") && CString("-") && CString("[") && CString("]")
    ensures CString("{") && CString("{\n") && CString("{}") && CString("{\n" + Tabs(n) + "}") && CString(Tabs(n) + "}")
      && CString("" + "}")
  {
  }

  lemma {:induction false} RenderItemsCString(items: Items, depth: nat, fmt: bool)
    requires RenderableItems(items)
    ensures CString(RenderItems(items, depth, fmt))
    decreases items
  {
    hide Render;
    if items.Item? {
      RenderCString(items.value, depth, fmt);
      RenderItemsCString(items.next, depth, fmt);
      CStringAppend(Separator(items.next, fmt), RenderItems(items.next, depth, fmt));
    }
  }

  lemma MarksCString(depth: nat, next: Members, fmt: bool)
    ensures CString(Indent(depth, fmt)) && CString(Colon(fmt)) && CString(LineEnd(next, fmt)) && CString("")
  {
  }

  lemma {:induction false} RenderMembersCString(members: Members, depth: nat, fmt: bool)
    requires RenderableMembers(members)
    ensures CString(RenderMembers(members, depth, fmt))
    decreases members
  {
    MarksCString(depth, if members.Member? then members.next else members, fmt);
    hide Render, Quote, CString, Tabs;
    if members.Member? {
      QuoteCString(members.name);
      RenderCString(members.value, depth, fmt);
      RenderMembersCString(members.next, depth, fmt);
      CStringAppend(Quote(members.name), Colon(fmt));
      CStringAppend(Quote(members.name) + Colon(fmt), Render(members.value, depth, fmt));
      CStringAppend(LineEnd(members.next, fmt), RenderMembers(members.next, depth, fmt));
      var pair, more := RenderPair(members.name, members.value, depth, fmt), RenderMembers(members.next, depth, fmt);
      CStringAppend(pair, LineEnd(members.next, fmt) + more);
      CStringAppend(Indent(depth, fmt), pair + (LineEnd(members.next, fmt) + more));
    }
  }

  /** cJSON_PrintBuffered: the same text as the unbuffered renderer, for every initial size. */
  method PrintBuffered(item: Json, prebuffer: nat, fmt: bool) returns (out: array<char>)
    requires Renderable(item) && prebuffer >= 1
    ensures |Render(item, 0, fmt)| < out.Length
    ensures out[..|Render(item, 0, fmt)|] == Render(item, 0, fmt) && out[|Render(item, 0, fmt)|] == '\0'
  {
    hide Render;
    var p := new PrintBuffer(prebuffer);
    p.PrintValue(item, 0, fmt, "");
    assert "" + Render(item, 0, fmt) == Render(item, 0, fmt);
    out := p.buffer;
  }
}
