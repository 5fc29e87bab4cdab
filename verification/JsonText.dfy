/**
 JSON texts and what they stand for, after RFC 8259 and apart from any parser: every blank, escape and number as it
 is written. Each grammar comes in two widths: the strict one is that of the RFC, the wide one adds what cJSON
 takes as well.
 */
module JsonText {

  import opened Json

  // ----- Characters -----

  const DECIMAL := "0123456789"
  const HEX_LOWER := "0123456789abcdef"
  const HEX_UPPER := "0123456789ABCDEF"

  /** The first position of c in s. */
  function Index(c: char, s: string): (i: nat)
    requires c in s
    ensures i < |s| && s[i] == c
  {
    if s[0] == c then 0 else 1 + Index(c, s[1..])
  }

  predicate IsDecimalDigit(c: char) {
    c in DECIMAL
  }

  function DecimalDigitValue(c: char): (n: nat)
    requires IsDecimalDigit(c)
    ensures n < 10
  {
    Index(c, DECIMAL)
  }

  predicate IsHexDigit(c: char) {
    c in HEX_LOWER || c in HEX_UPPER
  }

  function HexDigitValue(c: char): (n: nat)
    requires IsHexDigit(c)
    ensures n < 16
  {
    if c in HEX_LOWER then Index(c, HEX_LOWER) else Index(c, HEX_UPPER)
  }

  /** The letters of section 7 that stand for another character after a backslash, and that character's code. */
  function ShortValue(c: char): char {
    match c
    case '\"' => 0x22 as char
    case '\\' => 0x5C as char
    case '/' => 0x2F as char
    case 'b' => 0x08 as char
    case 'f' => 0x0C as char
    case 'n' => 0x0A as char
    case 'r' => 0x0D as char
    case 't' => 0x09 as char
    case _ => c
  }

  /** The bytes of a code point, by the table of section 3 of RFC 3629. */
  function CodePointBytes(cp: nat): string
    requires cp < 0x110000
  {
    if cp <= 0x7F then [cp as char]
    else if cp <= 0x7FF then [(0xC0 + cp / 0x40) as char, (0x80 + cp % 0x40) as char]
    else if cp <= 0xFFFF then
      [(0xE0 + cp / 0x1000) as char, (0x80 + cp / 0x40 % 0x40) as char, (0x80 + cp % 0x40) as char]
    else
      [(0xF0 + cp / 0x40000) as char, (0x80 + cp / 0x1000 % 0x40) as char, (0x80 + cp / 0x40 % 0x40) as char,
       (0x80 + cp % 0x40) as char]
  }

  // ----- Strings -----

  /** One char of section 7: an unescaped character, an escape of one letter, or \u with four hex digits. */
  datatype Piece = Plain(c: char) | Short(c: char) | Unit(h: string)

  /** cJSON takes control characters as they are, and any letter but u after a backslash. */
  predicate IsPiece(p: Piece, strict: bool) {
    match p
    case Plain(c) => c != '\"' && c != '\\' && (strict ==> c as int >= 0x20)
    case Short(c) => if strict then c in "\"\\/bfnrt" else c != 'u'
    case Unit(h) => |h| == 4 && IsHexDigit(h[0]) && IsHexDigit(h[1]) && IsHexDigit(h[2]) && IsHexDigit(h[3])
  }

  predicate ArePieces(ps: seq<Piece>, strict: bool) {
    forall i :: 0 <= i < |ps| ==> IsPiece(ps[i], strict)
  }

  function UnitValue(h: string): (uc: nat)
    requires IsPiece(Unit(h), false)
    ensures uc < 0x10000
  {
    0x1000 * HexDigitValue(h[0]) + 0x100 * HexDigitValue(h[1]) + 0x10 * HexDigitValue(h[2]) + HexDigitValue(h[3])
  }

  predicate HighSurrogate(uc: nat) {
    0xD800 <= uc <= 0xDBFF
  }

  predicate LowSurrogate(uc: nat) {
    0xDC00 <= uc <= 0xDFFF
  }

  /** A code unit on its own. Zero and lone surrogates stand for nothing. */
  function UnitText(uc: nat): string
    requires uc < 0x10000
  {
    if uc == 0 || HighSurrogate(uc) || LowSurrogate(uc) then "" else CodePointBytes(uc)
  }

  /** A high surrogate and the code unit after it, which is lost when it is not a low one. */
  function PairText(high: nat, low: nat): string
    requires HighSurrogate(high)
  {
    if LowSurrogate(low) then CodePointBytes(0x10000 + (high - 0xD800) * 0x400 + (low - 0xDC00)) else ""
  }

  /** A high surrogate with a code unit after it. */
  predicate Paired(ps: seq<Piece>)
    requires ArePieces(ps, false)
  {
    |ps| > 1 && ps[0].Unit? && ps[1].Unit? && HighSurrogate(UnitValue(ps[0].h))
  }

  /** The bytes that a string stands for. */
  function StandsFor(ps: seq<Piece>): string
    requires ArePieces(ps, false)
    decreases |ps|
  {
    if ps == [] then ""
    else
      match ps[0]
      case Plain(c) => [c] + StandsFor(ps[1..])
      case Short(c) => [ShortValue(c)] + StandsFor(ps[1..])
      case Unit(h) =>
        if Paired(ps) then PairText(UnitValue(h), UnitValue(ps[1].h)) + StandsFor(ps[2..])
        else UnitText(UnitValue(h)) + StandsFor(ps[1..])
  }

  /** A piece before y. */
  function PutPiece(p: Piece, y: string): string {
    match p
    case Plain(c) => [c] + y
    case Short(c) => ['\\', c] + y
    case Unit(h) => ['\\', 'u'] + (h + y)
  }

  /** The pieces and the closing quote, before y. A string that is not closed ends the text. */
  function PutPieces(ps: seq<Piece>, closed: bool, y: string): string {
    if ps != [] then PutPiece(ps[0], PutPieces(ps[1..], closed, y)) else if closed then "\"" + y else y
  }

  // ----- Numbers -----

  /** Minus, digits before the point, digits after it, exponent mark, its sign, its digits; any may be empty. */
  datatype Num = Num(minus: string, whole: string, fraction: string, mark: string, sign: string, digits: string)

  predicate AreDigits(s: string) {
    forall i :: 0 <= i < |s| ==> IsDecimalDigit(s[i])
  }

  /**
   The numbers of section 6. cJSON also takes one zero before other digits, a minus without digits, and an
   exponent mark without digits.
   */
  predicate IsNum(n: Num, strict: bool) {
    && (n.minus == "" || n.minus == "-") && AreDigits(n.whole) && AreDigits(n.fraction) && AreDigits(n.digits)
    && (n.mark == "" || n.mark == "e" || n.mark == "E") && (n.sign == "" || n.sign == "+" || n.sign == "-")
    && (n.mark == "" ==> n.sign == "" && n.digits == "")
    && (if strict then
          n.whole != "" && (n.whole[0] == '0' ==> n.whole == "0") && (n.mark != "" ==> n.digits != "")
        else
          (n.minus == "" ==> n.whole != "") && (|n.whole| > 1 && n.whole[0] == '0' ==> n.whole[1] != '0'))
  }

  function PutNum(n: Num): string {
    n.minus + (n.whole + ((if n.fraction == "" then "" else "." + n.fraction) + (n.mark + (n.sign + n.digits))))
  }

  function Power10(k: nat): nat {
    if k == 0 then 1 else 10 * Power10(k - 1)
  }

  /** The number that decimal digits write, each worth its place. */
  function DigitsValue(s: string): nat
    requires AreDigits(s)
  {
    hide IsDecimalDigit;
    if s == "" then 0 else DecimalDigitValue(s[0]) * Power10(|s| - 1) + DigitsValue(s[1..])
  }

  function Minus(sign: string, n: int): int {
    if sign == "-" then -n else n
  }

  /** The exact value: all digits as one number, times ten to the exponent less the number of digits after the point. */
  function NumValue(n: Num): Json
    requires IsNum(n, false)
  {
    Number(Minus(n.minus, DigitsValue(n.whole + n.fraction)), Minus(n.sign, DigitsValue(n.digits)) - |n.fraction|)
  }

  // ----- Texts -----

  /** The blanks of section 2; cJSON takes every character up to the space. */
  predicate IsWs(b: string, strict: bool) {
    forall i :: 0 <= i < |b| ==>
      if strict then b[i] == ' ' || b[i] == '\t' || b[i] == '\n' || b[i] == '\r' else b[i] as int <= 32
  }

  /** A value as it is written; an empty array or object keeps the blanks inside it. */
  datatype Text =
    | TNull
    | TFalse
    | TTrue
    | TNumber(n: Num)
    | TString(ps: seq<Piece>, closed: bool)
    | TArray(blank: string, items: TItems)
    | TObject(blank: string, members: TMembers)

  /** The items, each with the blanks around it. */
  datatype TItems = TNoItems | TItem(before: string, value: Text, after: string, next: TItems)

  /** The members, each with the blanks around its name and its value. */
  datatype TMembers =
    | TNoMembers
    | TMember(before: string, name: seq<Piece>, behind: string, ahead: string, value: Text, after: string,
              next: TMembers)

  /** Not a string that runs to the end of the text. */
  predicate Closed(t: Text) {
    t.TString? ==> t.closed
  }

  /** The grammar. cJSON also takes a last string that is not closed. */
  predicate IsText(t: Text, strict: bool) {
    match t
    case TNumber(n) => IsNum(n, strict)
    case TString(ps, closed) => ArePieces(ps, strict) && (strict ==> closed)
    case TArray(blank, items) => IsWs(blank, strict) && AreItems(items, strict)
    case TObject(blank, members) => IsWs(blank, strict) && AreMembers(members, strict)
    case _ => true
  }

  predicate AreItems(items: TItems, strict: bool) {
    match items
    case TNoItems => true
    case TItem(before, value, after, next) =>
      IsWs(before, strict) && IsText(value, strict) && Closed(value) && IsWs(after, strict) && AreItems(next, strict)
  }

  predicate AreMembers(members: TMembers, strict: bool) {
    match members
    case TNoMembers => true
    case TMember(before, name, behind, ahead, value, after, next) =>
      IsWs(before, strict) && ArePieces(name, strict) && IsWs(behind, strict) && IsWs(ahead, strict)
      && IsText(value, strict) && Closed(value) && IsWs(after, strict) && AreMembers(next, strict)
  }

  /** The text before y. */
  function Put(t: Text, y: string): string
    decreases t, 0
  {
    match t
    case TNull => "null" + y
    case TFalse => "false" + y
    case TTrue => "true" + y
    case TNumber(n) => PutNum(n) + y
    case TString(ps, closed) => "\"" + PutPieces(ps, closed, y)
    case TArray(blank, items) => "[" + (if items.TNoItems? then blank + ("]" + y) else PutItems(items, y))
    case TObject(blank, members) => "{" + (if members.TNoMembers? then blank + ("}" + y) else PutMembers(members, y))
  }

  /** The items and the closing bracket, before y. */
  function PutItems(items: TItems, y: string): string
    decreases items, 1
  {
    match items
    case TNoItems => "]" + y
    case TItem(before, value, after, next) => before + Put(value, after + PutMoreItems(next, y))
  }

  function PutMoreItems(items: TItems, y: string): string
    decreases items, 2
  {
    if items.TNoItems? then "]" + y else "," + PutItems(items, y)
  }

  /** The members and the closing brace, before y. */
  function PutMembers(members: TMembers, y: string): string
    decreases members, 1
  {
    match members
    case TNoMembers => "}" + y
    case TMember(before, name, behind, ahead, value, after, next) =>
      before + ("\"" + PutPieces(name, true, behind + (":" + (ahead + Put(value, after + PutMoreMembers(next, y))))))
  }

  function PutMoreMembers(members: TMembers, y: string): string
    decreases members, 2
  {
    if members.TNoMembers? then "}" + y else "," + PutMembers(members, y)
  }

  /** The tree that a text stands for. */
  function TreeOf(t: Text): Json
    requires IsText(t, false)
  {
    match t
    case TNull => Null
    case TFalse => False
    case TTrue => True
    case TNumber(n) => NumValue(n)
    case TString(ps, _) => Str(StandsFor(ps))
    case TArray(_, items) => Arr(TreeItems(items))
    case TObject(_, members) => Obj(TreeMembers(members))
  }

  function TreeItems(items: TItems): Items
    requires AreItems(items, false)
  {
    match items
    case TNoItems => NoItems
    case TItem(_, value, _, next) => Item(TreeOf(value), TreeItems(next))
  }

  function TreeMembers(members: TMembers): Members
    requires AreMembers(members, false)
  {
    match members
    case TNoMembers => NoMembers
    case TMember(_, name, _, _, value, _, next) => Member(StandsFor(name), TreeOf(value), TreeMembers(next))
  }

  // ----- The strict grammar lies in the wide one -----

  lemma PiecesWide(ps: seq<Piece>)
    requires ArePieces(ps, true)
    ensures ArePieces(ps, false)
  {
    forall i | 0 <= i < |ps| ensures IsPiece(ps[i], false) {
      assert IsPiece(ps[i], true);
    }
  }

  lemma {:induction false} TextWide(t: Text)
    requires IsText(t, true)
    ensures IsText(t, false) && Closed(t)
    decreases t
  {
    match t
    case TString(ps, _) => PiecesWide(ps);
    case TArray(_, items) => ItemsWide(items);
    case TObject(_, members) => MembersWide(members);
    case _ =>
  }

  lemma {:induction false} ItemsWide(items: TItems)
    requires AreItems(items, true)
    ensures AreItems(items, false)
    decreases items
  {
    if items.TItem? {
      TextWide(items.value);
      ItemsWide(items.next);
    }
  }

  lemma {:induction false} MembersWide(members: TMembers)
    requires AreMembers(members, true)
    ensures AreMembers(members, false)
    decreases members
  {
    if members.TMember? {
      PiecesWide(members.name);
      TextWide(members.value);
      MembersWide(members.next);
    }
  }

  // ----- A text before y is the text, and then y -----

  lemma {:induction false} PiecesThen(ps: seq<Piece>, closed: bool, y: string)
    ensures PutPieces(ps, closed, y) == PutPieces(ps, closed, "") + y
  {
    if ps != [] {
      PiecesThen(ps[1..], closed, y);
      hide PutPieces;
      PieceThen(ps[0], PutPieces(ps[1..], closed, ""), y);
    }
  }

  lemma PieceThen(p: Piece, x: string, y: string)
    ensures PutPiece(p, x + y) == PutPiece(p, x) + y
  {
  }

  lemma {:induction false} TextThen(t: Text, y: string)
    ensures Put(t, y) == Put(t, "") + y
    decreases t, 0
  {
    hide PutPieces, PutItems, PutMembers, PutNum;
    match t
    case TString(ps, closed) => PiecesThen(ps, closed, y);
    case TArray(blank, items) =>
      if items.TItem? {
        ItemsThen(items, y);
      } else {
        assert blank + ("]" + y) == blank + ("]" + "") + y;
      }
    case TObject(blank, members) =>
      if members.TMember? {
        MembersThen(members, y);
      } else {
        assert blank + ("}" + y) == blank + ("}" + "") + y;
      }
    case _ =>
  }

  lemma {:induction false} ItemsThen(items: TItems, y: string)
    ensures PutItems(items, y) == PutItems(items, "") + y && PutMoreItems(items, y) == PutMoreItems(items, "") + y
    decreases items, 0
  {
    hide Put;
    if items.TItem? {
      var more := items.after + PutMoreItems(items.next, "");
      ItemsThen(items.next, y);
      hide PutMoreItems;
      assert items.after + PutMoreItems(items.next, y) == more + y;
      TextMoved(items.value, more, y);
      Grouped(items.before, Put(items.value, more), y);
      assert PutItems(items, y) == PutItems(items, "") + y;
    }
    hide PutItems;
    MoreThen(items, TNoMembers, y);
  }

  lemma MoreThen(items: TItems, members: TMembers, y: string)
    ensures PutItems(items, y) == PutItems(items, "") + y ==> PutMoreItems(items, y) == PutMoreItems(items, "") + y
    ensures PutMembers(members, y) == PutMembers(members, "") + y ==>
      PutMoreMembers(members, y) == PutMoreMembers(members, "") + y
  {
    hide PutItems, PutMembers;
    Grouped(",", PutItems(items, ""), y);
    Grouped(",", PutMembers(members, ""), y);
  }

  lemma TextMoved(t: Text, x: string, y: string)
    ensures Put(t, x + y) == Put(t, x) + y
    decreases t, 1
  {
    hide Put;
    TextThen(t, x + y);
    TextThen(t, x);
  }

  lemma Grouped(a: string, b: string, y: string)
    ensures a + (b + y) == a + b + y
  {
  }

  lemma {:induction false} MembersThen(members: TMembers, y: string)
    ensures PutMembers(members, y) == PutMembers(members, "") + y
      && PutMoreMembers(members, y) == PutMoreMembers(members, "") + y
    decreases members, 0
  {
    hide Put, PutPieces;
    if members.TMember? {
      var more := members.after + PutMoreMembers(members.next, "");
      MembersThen(members.next, y);
      hide PutMoreMembers;
      assert members.after + PutMoreMembers(members.next, y) == more + y;
      TextMoved(members.value, more, y);
      PairThen(members, Put(members.value, more), y);
      assert PutMembers(members, y) == PutMembers(members, "") + y;
    }
    hide PutMembers;
    MoreThen(TNoItems, members, y);
  }

  lemma PairThen(m: TMembers, v: string, y: string)
    requires m.TMember?
    ensures m.before + ("\"" + PutPieces(m.name, true, m.behind + (":" + (m.ahead + (v + y)))))
         == m.before + ("\"" + PutPieces(m.name, true, m.behind + (":" + (m.ahead + v)))) + y
  {
    hide PutPieces;
    var z := m.behind + (":" + (m.ahead + v));
    assert m.behind + (":" + (m.ahead + (v + y))) == z + y;
    PiecesThen(m.name, true, z + y);
    PiecesThen(m.name, true, z);
  }
}
