/**
 JSON trees as cJSON keeps them, and the text its two formats give them.
 */
module Json {

  /** A tree; items and members follow the next pointers of the C nodes. Number is mantissa * 10^exponent. */
  datatype Json =
    | Null
    | False
    | True
    | Number(mantissa: int, exponent: int)
    | Str(text: string)
    | Arr(items: Items)
    | Obj(members: Members)

  datatype Items = NoItems | Item(value: Json, next: Items)

  datatype Members = NoMembers | Member(name: string, value: Json, next: Members)

  /** The contents of a C string: bytes other than the terminator. */
  predicate CString(s: string) {
    forall i :: 0 <= i < |s| ==> 0 < s[i] as int < 256
  }

  /** Trees whose numbers are 32-bit integers: what the renderers print without floating point. */
  predicate Renderable(v: Json) {
    match v
    case Number(m, e) => e == 0 && -0x8000_0000 <= m < 0x8000_0000
    case Str(t) => CString(t)
    case Arr(items) => RenderableItems(items)
    case Obj(members) => RenderableMembers(members)
    case _ => true
  }

  predicate RenderableItems(items: Items) {
    items.NoItems? || (Renderable(items.value) && RenderableItems(items.next))
  }

  predicate RenderableMembers(members: Members) {
    members.NoMembers? || (CString(members.name) && Renderable(members.value) && RenderableMembers(members.next))
  }

  // ----- Numbers -----

  function Digit(n: nat): char
    requires n < 10
  {
    '0' + n as char
  }

  function Digits(n: nat): string {
    if n < 10 then [Digit(n)] else Digits(n / 10) + [Digit(n % 10)]
  }

  /** What %d prints. */
  function Decimal(v: int): string {
    if v < 0 then "-" + Digits(-v) else Digits(v)
  }

  // ----- Strings -----

  function HexDigit(n: nat): char
    requires n < 16
  {
    if n < 10 then '0' + n as char else 'a' + (n - 10) as char
  }

  /** What %04x prints below 0x10000. */
  function Hex4(n: nat): string
    requires n < 0x10000
  {
    [HexDigit(n / 0x1000), HexDigit(n / 0x100 % 16), HexDigit(n / 16 % 16), HexDigit(n % 16)]
  }

  /** The letter of a two-character escape; NUL when the byte has none. */
  function ShortEscape(c: char): char {
    if c == '\\' then '\\'
    else if c == '\"' then '\"'
    else if c == 8 as char then 'b'
    else if c == 12 as char then 'f'
    else if c == '\n' then 'n'
    else if c == '\r' then 'r'
    else if c == '\t' then 't'
    else '\0'
  }

  /** How a byte appears inside a rendered string. */
  function EscapeChar(c: char): string {
    if ShortEscape(c) != '\0' then ['\\', ShortEscape(c)]
    else if c as int < 32 then ['\\', 'u'] + Hex4(c as int)
    else [c]
  }

  function Escape(s: string): string {
    if s == "" then "" else EscapeChar(s[0]) + Escape(s[1..])
  }

  function Quote(s: string): string {
    "\"" + Escape(s) + "\""
  }

  // ----- Trees -----

  function Tabs(n: nat): string {
    seq(n, _ => '\t')
  }

  /** The text of a tree: fmt selects cJSON_Print over cJSON_PrintUnformatted. */
  function Render(v: Json, depth: nat, fmt: bool): string
    decreases v, 0
  {
    match v
    case Null => "null"
    case False => "false"
    case True => "true"
    case Number(m, _) => Decimal(m)
    case Str(t) => Quote(t)
    case Arr(items) => "[" + RenderItems(items, depth + 1, fmt) + "]"
    case Obj(members) =>
      if members.NoMembers? then
        if fmt then "{\n" + Tabs(if depth > 0 then depth - 1 else 0) + "}" else "{}"
      else
        Opening(fmt) + RenderMembers(members, depth + 1, fmt) + (Indent(depth, fmt) + "}")
  }

  function RenderItems(items: Items, depth: nat, fmt: bool): string
    decreases items, 0
  {
    match items
    case NoItems => ""
    case Item(v, next) => Render(v, depth, fmt) + (Separator(next, fmt) + RenderItems(next, depth, fmt))
  }

  function RenderMembers(members: Members, depth: nat, fmt: bool): string
    decreases members, 0
  {
    match members
    case NoMembers => ""
    case Member(name, v, next) =>
      Indent(depth, fmt) + (RenderPair(name, v, depth, fmt) + (LineEnd(next, fmt) + RenderMembers(next, depth, fmt)))
  }

  function RenderPair(name: string, v: Json, depth: nat, fmt: bool): string
    decreases v, 1
  {
    Quote(name) + Colon(fmt) + Render(v, depth, fmt)
  }

  /** The tabs before a name or a closing brace. */
  function Indent(depth: nat, fmt: bool): string {
    if fmt then Tabs(depth) else ""
  }

  function Separator(next: Items, fmt: bool): string {
    if next.NoItems? then "" else if fmt then ", " else ","
  }

  function Opening(fmt: bool): string {
    if fmt then "{\n" else "{"
  }

  function Colon(fmt: bool): string {
    if fmt then ":\t" else ":"
  }

  function LineEnd(next: Members, fmt: bool): string {
    (if next.NoMembers? then "" else ",") + if fmt then "\n" else ""
  }
}
