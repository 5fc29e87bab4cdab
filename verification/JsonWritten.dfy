/**
 The unformatted print as a text of RFC 8259: which text it is, and that it stands for the printed tree.
 */
module JsonWritten {

  import opened Json
  import opened JsonText
  import opened JsonParse
  import opened JsonGrammar
  import opened JsonLayout

  // ----- Strings -----

  /** How a byte is written: seven short escapes, a code unit for the other control characters, or as it is. */
  function WrittenChar(c: char): Piece {
    if c == '\"' || c == '\\' then Short(c)
    else if c == 0x08 as char then Short('b')
    else if c == 0x09 as char then Short('t')
    else if c == 0x0A as char then Short('n')
    else if c == 0x0C as char then Short('f')
    else if c == 0x0D as char then Short('r')
    else if c as int < 0x20 then Unit(['0', '0', if c as int < 0x10 then '0' else '1', HEX_LOWER[c as int % 0x10]])
    else Plain(c)
  }

  function WrittenString(t: string): (ps: seq<Piece>)
    ensures |ps| == |t|
  {
    if t == "" then [] else [WrittenChar(t[0])] + WrittenString(t[1..])
  }

  lemma LowerHexDigit(n: nat)
    requires n < 16
    ensures HexDigit(n) == HEX_LOWER[n]
  {
  }

  lemma WrittenCharIs(c: char, y: string)
    requires 0 < c as int < 256
    ensures PutPiece(WrittenChar(c), y) == EscapeChar(c) + y
  {
    if c as int < 0x20 && ShortEscape(c) == '\0' {
      var n := c as int;
      LowerHexDigit(0);
      LowerHexDigit(1);
      LowerHexDigit(n % 0x10);
      assert n / 0x1000 == 0 && n / 0x100 == 0 && n / 16 % 16 == (if n < 0x10 then 0 else 1);
      hide HexDigit;
      assert Hex4(n) == ['0', '0', if n < 0x10 then '0' else '1', HEX_LOWER[n % 0x10]];
    }
  }

  lemma HexValues()
    ensures IsHexDigit('0') && HexDigitValue('0') == 0 && IsHexDigit('1') && HexDigitValue('1') == 1
  {
    HexDigitSame('0');
    HexDigitSame('1');
  }

  lemma HexLowerValue(n: nat)
    requires n < 16
    ensures IsHexDigit(HEX_LOWER[n]) && HexDigitValue(HEX_LOWER[n]) == n
  {
    LowerHex(n);
    HexDigitSame(HEX_LOWER[n]);
  }

  lemma WrittenCharStands(c: char)
    requires 0 < c as int < 256
    ensures IsPiece(WrittenChar(c), true)
    ensures match WrittenChar(c)
      case Plain(d) => d == c
      case Short(d) => ShortValue(d) == c
      case Unit(h) => UnitValue(h) == c as int && UnitText(c as int) == [c]
  {
    hide IsHexDigit, HexDigitValue, UnitValue, UnitText;
    if WrittenChar(c).Unit? {
      ControlStands(c as int);
    }
  }

  lemma ControlStands(n: nat)
    requires 0 < n < 0x20
    ensures var h := ['0', '0', if n < 0x10 then '0' else '1', HEX_LOWER[n % 0x10]];
      IsPiece(Unit(h), false) && IsPiece(Unit(h), true) && UnitValue(h) == n && UnitText(n) == [n as char]
  {
    HexValues();
    HexLowerValue(n % 0x10);
    ControlUnit(n, HEX_LOWER[n % 0x10]);
    ControlText(n);
    hide IsHexDigit, HexDigitValue, UnitValue, UnitText, IsPiece;
  }

  lemma ControlUnit(n: nat, low: char)
    requires n < 0x20 && IsHexDigit(low) && HexDigitValue(low) == n % 0x10
    ensures var h := ['0', '0', if n < 0x10 then '0' else '1', low];
      IsPiece(Unit(h), false) && IsPiece(Unit(h), true) && UnitValue(h) == n
  {
    hide IsHexDigit, HexDigitValue, UnitValue;
    HexValues();
    var h := ['0', '0', if n < 0x10 then '0' else '1', low];
    UnitIs(h, if n < 0x10 then 0 else 1, n % 0x10);
  }

  lemma UnitIs(h: string, middle: nat, low: nat)
    requires IsPiece(Unit(h), false) && HexDigitValue(h[0]) == 0 && HexDigitValue(h[1]) == 0
    requires HexDigitValue(h[2]) == middle && HexDigitValue(h[3]) == low
    ensures UnitValue(h) == 0x10 * middle + low
  {
    hide IsHexDigit, HexDigitValue;
  }

  lemma ControlText(n: nat)
    requires 0 < n < 0x20
    ensures UnitText(n) == [n as char]
  {
  }

  lemma {:induction false} WrittenStringStands(t: string)
    requires CString(t)
    ensures ArePieces(WrittenString(t), false) && ArePieces(WrittenString(t), true)
    ensures StandsFor(WrittenString(t)) == t
  {
    if t != "" {
      var p, ps := WrittenChar(t[0]), WrittenString(t[1..]);
      WrittenCharStands(t[0]);
      WrittenStringStands(t[1..]);
      hide WrittenChar, IsPiece, UnitText, UnitValue, ShortValue;
      assert ([p] + ps)[1..] == ps;
      PieceWide(p);
      AddedPieces(p, ps);
      StandsStep(p, ps, t[0]);
      assert [t[0]] + t[1..] == t;
    }
  }

  lemma PieceWide(p: Piece)
    requires IsPiece(p, true)
    ensures IsPiece(p, false)
  {
  }

  lemma AddedPieces(p: Piece, ps: seq<Piece>)
    requires IsPiece(p, true) && IsPiece(p, false) && ArePieces(ps, true) && ArePieces(ps, false)
    ensures ArePieces([p] + ps, true) && ArePieces([p] + ps, false)
  {
    hide IsPiece;
  }

  lemma StandsStep(p: Piece, ps: seq<Piece>, c: char)
    requires ArePieces([p] + ps, false) && ArePieces(ps, false) && c as int < 256
    requires IsPiece(p, false)
    requires match p
      case Plain(d) => d == c
      case Short(d) => ShortValue(d) == c
      case Unit(h) => UnitValue(h) == c as int && UnitText(c as int) == [c]
    ensures StandsFor([p] + ps) == [c] + StandsFor(ps)
  {
    hide IsPiece, UnitValue, UnitText, ShortValue, PairText;
    assert ([p] + ps)[1..] == ps;
  }

  lemma {:induction false} WrittenStringIs(t: string, y: string)
    requires CString(t)
    ensures PutPieces(WrittenString(t), true, y) == Escape(t) + ("\"" + y)
  {
    hide WrittenChar, EscapeChar, PutPiece;
    if t == "" {
      assert Escape(t) + ("\"" + y) == "\"" + y;
    } else {
      WrittenStringIs(t[1..], y);
      assert WrittenString(t)[1..] == WrittenString(t[1..]);
      WrittenCharIs(t[0], Escape(t[1..]) + ("\"" + y));
      assert EscapeChar(t[0]) + (Escape(t[1..]) + ("\"" + y)) == Escape(t) + ("\"" + y);
    }
  }

  lemma WrittenQuote(t: string, y: string)
    requires CString(t)
    ensures "\"" + PutPieces(WrittenString(t), true, y) == Quote(t) + y
  {
    hide Escape, PutPieces, WrittenString;
    WrittenStringIs(t, y);
  }

  // ----- Numbers -----

  /** An integer: its sign and its decimal digits. */
  function WrittenNum(m: int): Num {
    Num(if m < 0 then "-" else "", Digits(if m < 0 then -m else m), "", "", "", "")
  }

  /** They are those of the grammar, without fraction or exponent, worth the integer. */
  lemma WrittenNumStands(m: int)
    ensures IsNum(WrittenNum(m), true) && IsNum(WrittenNum(m), false) && NumValue(WrittenNum(m)) == Number(m, 0)
    ensures PutNum(WrittenNum(m)) == Decimal(m)
  {
    hide Digits, AreDigits, DigitsValue;
    var n: nat := if m < 0 then -m else m;
    DigitsStand(n);
    NoDigitsValue();
    assert Digits(n) + "" == Digits(n);
  }

  lemma DigitsStand(n: nat)
    ensures AreDigits(Digits(n)) && DigitsValue(Digits(n)) == n
    ensures Digits(n) != "" && (Digits(n)[0] == '0' ==> Digits(n) == "0")
  {
    hide Digits, Horner, AreDigits, AllDigits, DigitsValue, IsDigit;
    FirstDigit(n);
    DigitsHorner(n);
    DigitsSame(Digits(n));
    HornerPlaces(Digits(n), 0);
    ZeroAlone(n);
  }

  lemma ZeroAlone(n: nat)
    ensures Digits(n)[0] == '0' ==> Digits(n) == "0"
  {
    FirstDigit(n);
  }

  lemma NoDigitsValue()
    ensures AreDigits("") && DigitsValue("") == 0
  {
  }

  // ----- Trees -----

  /** The text of a tree, without blanks. */
  function Written(v: Json): Text {
    match v
    case Null => TNull
    case False => TFalse
    case True => TTrue
    case Number(m, _) => TNumber(WrittenNum(m))
    case Str(t) => TString(WrittenString(t), true)
    case Arr(items) => TArray("", WrittenItems(items))
    case Obj(members) => TObject("", WrittenMembers(members))
  }

  function WrittenItems(items: Items): TItems {
    match items
    case NoItems => TNoItems
    case Item(v, next) => TItem("", Written(v), "", WrittenItems(next))
  }

  function WrittenMembers(members: Members): TMembers {
    match members
    case NoMembers => TNoMembers
    case Member(name, v, next) => TMember("", WrittenString(name), "", "", Written(v), "", WrittenMembers(next))
  }

  /** It belongs to the grammar of RFC 8259 and stands for the tree. */
  lemma {:induction false} WrittenStands(v: Json)
    requires Renderable(v)
    ensures IsText(Written(v), true) && IsText(Written(v), false) && TreeOf(Written(v)) == v && Closed(Written(v))
    decreases v
  {
    hide WrittenNum, WrittenString, NumValue, IsNum, StandsFor, ArePieces;
    match v
    case Number(m, _) => WrittenNumStands(m);
    case Str(t) => WrittenStringStands(t);
    case Arr(items) => WrittenItemsStand(items);
    case Obj(members) => WrittenMembersStand(members);
    case _ =>
  }

  lemma {:induction false} WrittenItemsStand(items: Items)
    requires RenderableItems(items)
    ensures AreItems(WrittenItems(items), true) && AreItems(WrittenItems(items), false)
    ensures TreeItems(WrittenItems(items)) == items
    decreases items
  {
    hide Written, IsText, TreeOf, Closed, Renderable, IsWs;
    NoWs();
    if items.Item? {
      WrittenStands(items.value);
      WrittenItemsStand(items.next);
    }
  }

  lemma NoWs()
    ensures IsWs("", true) && IsWs("", false)
  {
  }

  lemma {:induction false} WrittenMembersStand(members: Members)
    requires RenderableMembers(members)
    ensures AreMembers(WrittenMembers(members), true) && AreMembers(WrittenMembers(members), false)
    ensures TreeMembers(WrittenMembers(members)) == members
    decreases members
  {
    hide Written, WrittenString, IsText, TreeOf, Closed, StandsFor, ArePieces, Renderable, CString, IsWs;
    NoWs();
    if members.Member? {
      WrittenStringStands(members.name);
      WrittenStands(members.value);
      WrittenMembersStand(members.next);
    }
  }

  /** The unformatted rendering, before any y. */
  lemma {:induction false} WrittenIs(v: Json, depth: nat, y: string)
    requires Renderable(v)
    ensures Put(Written(v), y) == Render(v, depth, false) + y
    decreases v, 0
  {
    hide WrittenNum, WrittenString, PutNum, PutPieces, PutItems, PutMembers, Quote, Decimal, RenderItems,
      RenderMembers, WrittenItems, WrittenMembers;
    match v
    case Number(m, _) => WrittenNumStands(m);
    case Str(t) => WrittenQuote(t, y);
    case Arr(items) => WrittenArrayIs(items, depth, y);
    case Obj(members) => WrittenObjectIs(members, depth, y);
    case _ =>
  }

  lemma {:induction false} WrittenArrayIs(items: Items, depth: nat, y: string)
    requires RenderableItems(items)
    ensures Put(TArray("", WrittenItems(items)), y) == Render(Arr(items), depth, false) + y
    decreases items, 2
  {
    var r := RenderItems(items, depth + 1, false);
    if items.NoItems? {
      assert r == "" && "" + ("]" + y) == "]" + y;
      assert Render(Arr(items), depth, false) + y == "[" + ("]" + y);
    } else {
      hide RenderItems, PutItems;
      WrittenItemsAre(items, depth + 1, y);
      assert Render(Arr(items), depth, false) + y == "[" + (r + ("]" + y));
    }
  }

  lemma {:induction false} WrittenItemsAre(items: Items, depth: nat, y: string)
    requires RenderableItems(items)
    ensures PutItems(WrittenItems(items), y) == RenderItems(items, depth, false) + ("]" + y)
    decreases items, 1
  {
    hide Put, Render, Written, RenderableItems, Renderable;
    if items.NoItems? {
      assert RenderItems(items, depth, false) + ("]" + y) == "]" + y;
    } else {
      var next := items.next;
      var tail := PutMoreItems(WrittenItems(next), y);
      ItemsParts(items);
      WrittenIs(items.value, depth, tail);
      WrittenItemsAre(next, depth, y);
      assert PutItems(WrittenItems(items), y) == Put(Written(items.value), tail) by {
        hide WrittenItems;
        BlankFree(Written(items.value), tail);
      }
      ItemsJoin(items, depth, y);
    }
  }

  lemma ItemsParts(items: Items)
    requires RenderableItems(items) && items.Item?
    ensures Renderable(items.value) && RenderableItems(items.next)
  {
  }

  lemma BlankFree(t: Text, tail: string)
    ensures "" + Put(t, "" + tail) == Put(t, tail)
  {
    hide Put;
    assert "" + tail == tail;
  }

  lemma ItemsJoin(items: Items, depth: nat, y: string)
    requires items.Item?
    requires PutItems(WrittenItems(items.next), y) == RenderItems(items.next, depth, false) + ("]" + y)
    ensures Render(items.value, depth, false) + PutMoreItems(WrittenItems(items.next), y)
         == RenderItems(items, depth, false) + ("]" + y)
  {
    var next := items.next;
    assert next.NoItems? ==> RenderItems(next, depth, false) == "";
    hide PutItems, Render;
  }

  lemma {:induction false} WrittenObjectIs(members: Members, depth: nat, y: string)
    requires RenderableMembers(members)
    ensures Put(TObject("", WrittenMembers(members)), y) == Render(Obj(members), depth, false) + y
    decreases members, 2
  {
    hide RenderMembers, PutMembers, Render;
    BracedText(members, depth, y);
    if members.Member? {
      WrittenMembersAre(members, depth + 1, y);
    }
  }

  lemma BracedText(members: Members, depth: nat, y: string)
    ensures Render(Obj(members), depth, false) + y
         == "{" + (if members.NoMembers? then "" + ("}" + y) else RenderMembers(members, depth + 1, false) + ("}" + y))
  {
    hide RenderMembers;
    if members.NoMembers? {
      assert "{}" + y == "{" + ("" + ("}" + y));
    }
  }

  lemma {:induction false} WrittenMembersAre(members: Members, depth: nat, y: string)
    requires RenderableMembers(members)
    ensures PutMembers(WrittenMembers(members), y) == RenderMembers(members, depth, false) + ("}" + y)
    decreases members, 1
  {
    hide Put, PutPieces, Render, Quote, Written, WrittenString, RenderableMembers, Renderable;
    if members.NoMembers? {
      assert RenderMembers(members, depth, false) + ("}" + y) == "}" + y;
    } else {
      var next := members.next;
      var tail := PutMoreMembers(WrittenMembers(next), y);
      MembersParts(members);
      WrittenIs(members.value, depth, tail);
      WrittenMembersAre(next, depth, y);
      var v := Put(Written(members.value), tail);
      WrittenQuote(members.name, ":" + v);
      assert PutMembers(WrittenMembers(members), y) == "\"" + PutPieces(WrittenString(members.name), true, ":" + v) by {
        MembersText(members, y);
      }
      MembersJoin(members, depth, y);
    }
  }

  lemma MembersText(members: Members, y: string)
    requires members.Member?
    ensures PutMembers(WrittenMembers(members), y)
         == "\"" + PutPieces(WrittenString(members.name), true,
                             ":" + Put(Written(members.value), PutMoreMembers(WrittenMembers(members.next), y)))
  {
    hide Put, PutPieces, Written, WrittenString;
    var tail := PutMoreMembers(WrittenMembers(members.next), y);
    hide PutMoreMembers;
    var v := Put(Written(members.value), "" + tail);
    BlankFree(Written(members.value), tail);
    assert "" + v == v;
    assert "" + (":" + v) == ":" + v;
    var s := "\"" + PutPieces(WrittenString(members.name), true, ":" + v);
    assert "" + s == s;
  }

  lemma MembersParts(members: Members)
    requires RenderableMembers(members) && members.Member?
    ensures CString(members.name) && Renderable(members.value) && RenderableMembers(members.next)
  {
  }

  lemma MembersJoin(members: Members, depth: nat, y: string)
    requires members.Member?
    requires PutMembers(WrittenMembers(members.next), y) == RenderMembers(members.next, depth, false) + ("}" + y)
    ensures Quote(members.name)
      + (":" + (Render(members.value, depth, false) + PutMoreMembers(WrittenMembers(members.next), y)))
         == RenderMembers(members, depth, false) + ("}" + y)
  {
    hide PutMembers, Render, RenderMembers, Quote;
    MemberText(members, depth, "}" + y);
  }

  /** cJSON_PrintUnformatted writes the text of RFC 8259 without blanks that stands for the tree. */
  lemma PrintStands(v: Json)
    requires Renderable(v)
    ensures Render(v, 0, false) == Put(Written(v), "")
    ensures IsText(Written(v), true) && IsText(Written(v), false) && TreeOf(Written(v)) == v
  {
    hide Render, Put, Written, IsText, TreeOf;
    WrittenIs(v, 0, "");
    WrittenStands(v);
    assert Render(v, 0, false) + "" == Render(v, 0, false);
  }
}
