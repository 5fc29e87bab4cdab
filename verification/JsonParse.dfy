/**
 The cJSON parser. A position in the text is the rest of the text from there; reading at its end reads the terminator.
 */
module JsonParse {

  import opened Json

  /**
   What a parsing function does: succeed and move on, fail and leave the error pointer, or meet an escape
   outside the grammar of section 7 of RFC 8259 (a backslash at the end, or \u without four hex digits),
   where this model stops.
   */
  datatype Outcome<T> = Ok(value: T, rest: string) | Fail(at: string) | Malformed

  // ----- Blanks and numbers -----

  function Skip(s: string): (rest: string)
    ensures |rest| <= |s|
  {
    if s != "" && s[0] as int <= 32 then Skip(s[1..]) else s
  }

  predicate IsDigit(c: char) {
    '0' <= c <= '9'
  }

  predicate AtDigit(s: string) {
    s != "" && IsDigit(s[0])
  }

  predicate At(s: string, c: char) {
    s != "" && s[0] == c
  }

  function DigitValue(c: char): nat
    requires IsDigit(c)
  {
    c as int - '0' as int
  }

  function Signed(negative: bool, n: int): int {
    if negative then -n else n
  }

  /** A run of digits continuing the number acc: its value, its length, and what follows. */
  function DigitRun(s: string, acc: nat): (r: (nat, nat, string))
    ensures |r.2| + r.1 == |s|
    decreases |s|
  {
    if AtDigit(s) then
      var r := DigitRun(s[1..], acc * 10 + DigitValue(s[0]));
      (r.0, r.1 + 1, r.2)
    else (acc, 0, s)
  }

  /** The exponent part, if there is one. */
  function ParseExponent(s: string): (r: (int, string))
    ensures |r.1| <= |s|
  {
    if At(s, 'e') || At(s, 'E') then
      var t := if At(s[1..], '+') || At(s[1..], '-') then s[2..] else s[1..];
      var d := DigitRun(t, 0);
      (Signed(At(s[1..], '-'), d.0), d.2)
    else (0, s)
  }

  /** The digits before the point: a zero is read alone, then a run that does not start with zero. */
  function ParseWhole(s: string): (r: (nat, string))
    ensures |r.1| <= |s| && (AtDigit(s) ==> |r.1| < |s|)
  {
    var t := if At(s, '0') then s[1..] else s;
    if AtDigit(t) && t[0] != '0' then (DigitRun(t, 0).0, DigitRun(t, 0).2) else (0, t)
  }

  /** The digits after the point, continuing the number n: the number, how many there are, and what follows. */
  function ParseFraction(s: string, n: nat): (r: (nat, nat, string))
    ensures |r.2| <= |s|
  {
    if At(s, '.') && AtDigit(s[1..]) then DigitRun(s[1..], n) else (n, 0, s)
  }

  /** The digits, the power of ten, and what follows. */
  function ParseUnsigned(s: string): (r: (nat, int, string))
    ensures |r.2| <= |s| && (AtDigit(s) ==> |r.2| < |s|)
  {
    var whole := ParseWhole(s);
    var fraction := ParseFraction(whole.1, whole.0);
    var exponent := ParseExponent(fraction.2);
    (fraction.0, exponent.0 - fraction.1, exponent.1)
  }

  function ParseNumber(s: string): (r: (Json, string))
    ensures r.0.Number? && |r.1| <= |s| && (At(s, '-') || AtDigit(s) ==> |r.1| < |s|)
  {
    var negative := At(s, '-');
    var u := ParseUnsigned(if negative then s[1..] else s);
    (Number(Signed(negative, u.0), u.1), u.2)
  }

  // ----- Strings -----

  predicate IsHex(c: char) {
    '0' <= c <= '9' || 'A' <= c <= 'F' || 'a' <= c <= 'f'
  }

  function HexValue(c: char): (n: nat)
    requires IsHex(c)
    ensures n < 16
  {
    if c <= '9' then c as int - '0' as int else if c <= 'F' then 10 + c as int - 'A' as int
      else 10 + c as int - 'a' as int
  }

  predicate AtHex4(s: string) {
    |s| >= 4 && IsHex(s[0]) && IsHex(s[1]) && IsHex(s[2]) && IsHex(s[3])
  }

  /** parse_hex4, on four hex digits. */
  function ParseHex4(s: string): (n: nat)
    requires AtHex4(s)
    ensures n < 0x10000
  {
    ((HexValue(s[0]) * 16 + HexValue(s[1])) * 16 + HexValue(s[2])) * 16 + HexValue(s[3])
  }

  /** A continuation byte: (uc | 0x80) & 0xBF in eight bits. */
  function Continuation(uc: nat): char {
    (128 + uc % 64) as char
  }

  /** The bytes of a code point, as the fall-through switch of parse_string lays them down. */
  function Utf8(uc: nat): string
    requires uc < 0x110000
  {
    if uc < 0x80 then [uc as char]
    else if uc < 0x800 then [(0xC0 + uc / 64) as char, Continuation(uc)]
    else if uc < 0x10000 then [(0xE0 + uc / 64 / 64) as char, Continuation(uc / 64), Continuation(uc)]
    else [(0xF0 + uc / 64 / 64 / 64) as char, Continuation(uc / 64 / 64), Continuation(uc / 64), Continuation(uc)]
  }

  datatype Unicode = Bytes(text: string, used: nat) | BadEscape

  predicate IsHigh(uc: nat) { 0xD800 <= uc <= 0xDBFF }

  predicate IsLow(uc: nat) { 0xDC00 <= uc <= 0xDFFF }

  /** The escape after \u: what it stands for and how many characters it takes. Lone surrogates and zero stand for
      nothing. */
  function ParseUnicode(s: string): (r: Unicode)
    ensures r.Bytes? ==> 4 <= r.used <= |s| && |r.text| <= 4
  {
    if !AtHex4(s) then BadEscape else
    var uc := ParseHex4(s);
    if IsLow(uc) || uc == 0 then Bytes("", 4)
    else if !IsHigh(uc) then Bytes(Utf8(uc), 4)
    else if !(At(s[4..], '\\') && At(s[5..], 'u')) then Bytes("", 4)
    else if !AtHex4(s[6..]) then BadEscape
    else if !IsLow(ParseHex4(s[6..])) then Bytes("", 10)
    else Bytes(Utf8(0x10000 + uc % 0x400 * 0x400 + ParseHex4(s[6..]) % 0x400), 10)
  }

  /** What a backslash and this letter stand for. */
  function Unescape(c: char): char {
    match c
    case 'b' => 8 as char
    case 'f' => 12 as char
    case 'n' => '\n'
    case 'r' => '\r'
    case 't' => '\t'
    case _ => c
  }

  function Then(text: string, o: Outcome<string>): Outcome<string> {
    if o.Ok? then Ok(text + o.value, o.rest) else o
  }

  /** The string up to its closing quote, or up to the end of the text. */
  function Decode(s: string): (o: Outcome<string>)
    ensures o.Ok? ==> |o.rest| <= |s|
    decreases |s|
  {
    if s == "" then Ok("", "")
    else if s[0] == '\"' then Ok("", s[1..])
    else if s[0] != '\\' then Then([s[0]], Decode(s[1..]))
    else if |s| < 2 then Malformed
    else if s[1] != 'u' then Then([Unescape(s[1])], Decode(s[2..]))
    else
      match ParseUnicode(s[2..])
      case BadEscape => Malformed
      case Bytes(text, used) => Then(text, Decode(s[2 + used..]))
  }

  function ParseString(s: string): (o: Outcome<string>)
    ensures o.Ok? ==> |o.rest| < |s|
  {
    if At(s, '\"') then Decode(s[1..]) else Fail(s)
  }

  // ----- Trees -----

  function Arrayed(o: Outcome<Items>): Outcome<Json> {
    match o case Ok(items, rest) => Ok(Arr(items), rest) case Fail(at) => Fail(at) case Malformed => Malformed
  }

  function Objected(o: Outcome<Members>): Outcome<Json> {
    match o case Ok(members, rest) => Ok(Obj(members), rest) case Fail(at) => Fail(at) case Malformed => Malformed
  }

  function ParseValue(s: string): (o: Outcome<Json>)
    ensures o.Ok? ==> |o.rest| < |s|
    decreases |s|, 0
  {
    if "null" <= s then Ok(Null, s[4..])
    else if "false" <= s then Ok(False, s[5..])
    else if "true" <= s then Ok(True, s[4..])
    else if At(s, '\"') then
      match ParseString(s) case Ok(t, rest) => Ok(Str(t), rest) case Fail(at) => Fail(at) case Malformed => Malformed
    else if At(s, '-') || AtDigit(s) then Ok(ParseNumber(s).0, ParseNumber(s).1)
    else if At(s, '[') then
      var t := Skip(s[1..]);
      if At(t, ']') then Ok(Arr(NoItems), t[1..])
      else Arrayed(ParseItems(Skip(t)))
    else if At(s, '{') then
      var t := Skip(s[1..]);
      if At(t, '}') then Ok(Obj(NoMembers), t[1..])
      else Objected(ParseMembers(Skip(t)))
    else Fail(s)
  }

  /** One or more items and the closing bracket. */
  function ParseItems(s: string): (o: Outcome<Items>)
    ensures o.Ok? ==> |o.rest| < |s|
    decreases |s|, 1
  {
    match ParseValue(s)
    case Fail(at) => Fail(at)
    case Malformed => Malformed
    case Ok(v, rest) =>
      var o := ParseMoreItems(Skip(rest));
      if o.Ok? then Ok(Item(v, o.value), o.rest) else o
  }

  /** What follows an item: a comma and more items, or the closing bracket. */
  function ParseMoreItems(t: string): (o: Outcome<Items>)
    ensures o.Ok? ==> |o.rest| < |t|
    decreases |t|, 0
  {
    if At(t, ',') then ParseItems(Skip(t[1..]))
    else if At(t, ']') then Ok(NoItems, t[1..])
    else Fail(t)
  }

  /** One name, its colon and its value. */
  function ParsePair(s: string): (o: Outcome<(string, Json)>)
    ensures o.Ok? ==> |o.rest| < |s|
    decreases |s|, 1
  {
    match ParseString(s)
    case Fail(at) => Fail(at)
    case Malformed => Malformed
    case Ok(name, rest) =>
      var t := Skip(rest);
      if At(t, ':') then
        match ParseValue(Skip(t[1..]))
        case Ok(v, end) => Ok((name, v), end)
        case Fail(at) => Fail(at)
        case Malformed => Malformed
      else Fail(t)
  }

  /** One or more members and the closing brace. */
  function ParseMembers(s: string): (o: Outcome<Members>)
    ensures o.Ok? ==> |o.rest| < |s|
    decreases |s|, 2
  {
    match ParsePair(s)
    case Fail(at) => Fail(at)
    case Malformed => Malformed
    case Ok(pair, rest) =>
      var o := ParseMoreMembers(Skip(rest));
      if o.Ok? then Ok(Member(pair.0, pair.1, o.value), o.rest) else o
  }

  /** What follows a member: a comma and more members, or the closing brace. */
  function ParseMoreMembers(t: string): (o: Outcome<Members>)
    ensures o.Ok? ==> |o.rest| < |t|
    decreases |t|, 0
  {
    if At(t, ',') then ParseMembers(Skip(t[1..]))
    else if At(t, '}') then Ok(NoMembers, t[1..])
    else Fail(t)
  }

  /** cJSON_ParseWithOpts. */
  function Parse(s: string, requireEnd: bool): Outcome<Json> {
    var o := ParseValue(Skip(s));
    if o.Ok? && requireEnd && Skip(o.rest) != "" then Fail(Skip(o.rest))
    else if o.Ok? && requireEnd then Ok(o.value, Skip(o.rest))
    else o
  }

  // ----- Parsing what was rendered: numbers -----

  /** A text that cannot be read as more of a number before it. */
  predicate CannotExtend(s: string) {
    !AtDigit(s) && !At(s, 'e') && !At(s, 'E') && !(At(s, '.') && AtDigit(s[1..]))
  }

  lemma {:induction false} FirstDigit(n: nat)
    ensures Digits(n) != "" && IsDigit(Digits(n)[0]) && (n > 0 ==> Digits(n)[0] != '0')
  {
    if n >= 10 {
      FirstDigit(n / 10);
    }
  }

  predicate AllDigits(s: string) {
    forall i :: 0 <= i < |s| ==> IsDigit(s[i])
  }

  /** The number a string of digits writes, continuing the number acc. */
  function Horner(digits: string, acc: nat): nat
    requires AllDigits(digits)
  {
    if digits == "" then acc
    else Horner(digits[..|digits| - 1], acc) * 10 + DigitValue(digits[|digits| - 1])
  }

  lemma {:induction false} HornerAppend(a: string, b: string, acc: nat)
    requires AllDigits(a) && AllDigits(b)
    ensures Horner(a + b, acc) == Horner(b, Horner(a, acc))
  {
    if b == "" {
      assert a + b == a;
    } else {
      var n := |b| - 1;
      HornerAppend(a, b[..n], acc);
      assert (a + b)[..|a + b| - 1] == a + b[..n];
    }
  }

  lemma {:induction false} DigitsHorner(n: nat)
    ensures AllDigits(Digits(n)) && Horner(Digits(n), 0) == n
  {
    if n >= 10 {
      DigitsHorner(n / 10);
      assert Digits(n)[..|Digits(n)| - 1] == Digits(n / 10);
    } else {
      assert Digits(n)[..0] == "";
    }
  }

  lemma {:induction false} RunIsHorner(digits: string, acc: nat, rest: string)
    requires AllDigits(digits) && !AtDigit(rest)
    ensures DigitRun(digits + rest, acc) == (Horner(digits, acc), |digits|, rest)
  {
    if digits == "" {
      assert digits + rest == rest;
    } else {
      var d := digits[..1];
      assert d[..0] == "" && Horner(d, acc) == acc * 10 + DigitValue(digits[0]);
      assert digits == d + digits[1..];
      HornerAppend(d, digits[1..], acc);
      RunIsHorner(digits[1..], Horner(d, acc), rest);
      assert (digits + rest)[1..] == digits[1..] + rest;
    }
  }

  lemma WholeOfDigits(n: nat, rest: string)
    requires !AtDigit(rest)
    ensures ParseWhole(Digits(n) + rest) == (n, rest)
  {
    var s := Digits(n) + rest;
    FirstDigit(n);
    DigitsHorner(n);
    RunIsHorner(Digits(n), 0, rest);
    assert s[0] == Digits(n)[0];
    if n == 0 {
      assert s[1..] == rest;
    }
  }

  lemma SignThen(negative: bool, u: string)
    requires AtDigit(u)
    ensures var s := (if negative then "-" else "") + u; var p := ParseUnsigned(u);
      (At(s, '-') || AtDigit(s)) && ParseNumber(s) == (Number(Signed(negative, p.0), p.1), p.2)
  {
    hide ParseUnsigned;
    var s := (if negative then "-" else "") + u;
    if negative {
      assert s[1..] == u;
    } else {
      assert s == u;
    }
  }

  lemma ParseDecimal(v: int, rest: string)
    requires CannotExtend(rest)
    ensures ParseNumber(Decimal(v) + rest) == (Number(v, 0), rest)
    ensures At(Decimal(v) + rest, '-') || AtDigit(Decimal(v) + rest)
  {
    var n: nat := if v < 0 then -v else v;
    hide ParseUnsigned, ParseNumber, Digits, CannotExtend, AtDigit;
    var u := Digits(n) + rest;
    ParseDigits(n, rest);
    SignThen(v < 0, u);
    assert Decimal(v) + rest == (if v < 0 then "-" else "") + u;
  }

  lemma ParseDigits(n: nat, rest: string)
    requires CannotExtend(rest)
    ensures AtDigit(Digits(n) + rest) && ParseUnsigned(Digits(n) + rest) == (n, 0, rest)
  {
    hide ParseWhole, ParseFraction, ParseExponent, ParseUnsigned, Digits;
    var u := Digits(n) + rest;
    FirstDigit(n);
    assert u[0] == Digits(n)[0];
    WholeOfDigits(n, rest);
    NothingMore(rest, n);
    UnsignedParts(u, n, rest, n, 0, rest);
  }

  lemma NothingMore(rest: string, n: nat)
    requires CannotExtend(rest)
    ensures ParseFraction(rest, n) == (n, 0, rest) && ParseExponent(rest) == (0, rest)
  {
  }

  /** Whole digits, a point and fraction digits, before a text whose exponent reads as given. */
  lemma UnsignedFraction(n: nat, fraction: string, x: string)
    requires fraction != "" && AllDigits(fraction) && !AtDigit(x)
    ensures AllDigits(Digits(n))
    ensures var u := Digits(n) + ("." + (fraction + x)); var e := ParseExponent(x);
      AtDigit(u) && ParseUnsigned(u) == (Horner(Digits(n) + fraction, 0), e.0 - |fraction|, e.1)
  {
    hide ParseWhole, ParseFraction, ParseExponent, ParseUnsigned, Digits, Horner, AllDigits;
    FirstDigit(n);
    DigitsHorner(n);
    HornerAppend(Digits(n), fraction, 0);
    var f := "." + (fraction + x);
    assert f[0] == '.';
    WholeOfDigits(n, f);
    FractionOf(fraction, x, n);
    UnsignedParts(Digits(n) + f, n, f, Horner(fraction, n), |fraction|, x);
    assert (Digits(n) + f)[0] == Digits(n)[0];
  }

  lemma UnsignedParts(u: string, n: nat, f: string, m: nat, k: nat, x: string)
    requires ParseWhole(u) == (n, f) && ParseFraction(f, n) == (m, k, x)
    ensures ParseUnsigned(u) == (m, ParseExponent(x).0 - k, ParseExponent(x).1)
  {
    hide ParseWhole, ParseFraction, ParseExponent;
  }

  /** An exponent mark, its sign and its digits. */
  function Exponent(down: bool, e: nat, rest: string): string {
    "e" + ((if down then "-" else "") + (Digits(e) + rest))
  }

  /** Scientific notation reads as the digits without the point, scaled by the exponent less the number of fraction
      digits. */
  lemma ParseScientific(negative: bool, n: nat, fraction: string, down: bool, e: nat, rest: string)
    requires fraction != "" && AllDigits(fraction) && !AtDigit(rest)
    ensures AllDigits(Digits(n))
    ensures ParseNumber((if negative then "-" else "") + (Digits(n) + ("." + (fraction + Exponent(down, e, rest)))))
         == (Number(Signed(negative, Horner(Digits(n) + fraction, 0)), Signed(down, e) - |fraction|), rest)
  {
    ExponentOf(down, e, rest);
    assert Exponent(down, e, rest)[0] == 'e';
    hide ParseUnsigned, ParseExponent, ParseNumber, Digits, Horner, AllDigits, Exponent;
    var x := Exponent(down, e, rest);
    UnsignedFraction(n, fraction, x);
    SignThen(negative, Digits(n) + ("." + (fraction + x)));
  }

  lemma FractionOf(fraction: string, x: string, n: nat)
    requires fraction != "" && AllDigits(fraction) && !AtDigit(x)
    ensures ParseFraction("." + (fraction + x), n) == (Horner(fraction, n), |fraction|, x)
  {
    hide DigitRun, Horner;
    RunIsHorner(fraction, n, x);
    var s := "." + (fraction + x);
    assert s[1..] == fraction + x;
    assert s[1..][0] == fraction[0];
  }

  lemma ExponentOf(down: bool, e: nat, rest: string)
    requires !AtDigit(rest)
    ensures ParseExponent(Exponent(down, e, rest)) == (Signed(down, e), rest)
  {
    hide DigitRun, Horner, Digits;
    FirstDigit(e);
    DigitsHorner(e);
    RunIsHorner(Digits(e), 0, rest);
    var d := Digits(e) + rest;
    assert d[0] == Digits(e)[0];
    var s := Exponent(down, e, rest);
    assert down ==> s[1..] == "-" + d && s[2..] == d;
    assert !down ==> s[1..] == d;
  }

  /** One zero before the other digits is read past, although the JSON grammar has no such number. */
  lemma ParseLeadingZero(n: nat, rest: string)
    requires n > 0 && CannotExtend(rest)
    ensures ParseNumber("0" + (Digits(n) + rest)) == (Number(n, 0), rest)
  {
    FirstDigit(n);
    DigitsHorner(n);
    RunIsHorner(Digits(n), 0, rest);
    hide DigitRun, Digits, Horner;
    var d := Digits(n) + rest;
    assert d[0] == Digits(n)[0];
    var s := "0" + d;
    assert s[1..] == d;
  }

  // ----- Strings -----

  lemma DecodeOne(c: char, tail: string)
    requires c != '\\' && c != '\"'
    ensures Decode([c] + tail) == Then([c], Decode(tail))
  {
  }

  lemma DecodeTwo(c: char, tail: string)
    requires c != 'u'
    ensures Decode(['\\', c] + tail) == Then([Unescape(c)], Decode(tail))
  {
  }

  /** An escape \u and what it stands for. */
  lemma DecodeUnicode(h: string, tail: string)
    requires ParseUnicode(h + tail).Bytes? && ParseUnicode(h + tail).used == |h|
    ensures Decode(['\\', 'u'] + h + tail) == Then(ParseUnicode(h + tail).text, Decode(tail))
  {
    var s := ['\\', 'u'] + h + tail;
    assert s[2..] == h + tail;
    assert s[2 + |h|..] == tail;
  }

  lemma HexPlain(s: string)
    requires AtHex4(s)
    ensures forall i :: 0 <= i < 4 ==> s[i] != '\"' && s[i] != '\\'
  {
  }

  /** What decoding does at an escape \u. */
  lemma DecodeAtUnicode(s: string)
    requires |s| >= 2 && s[0] == '\\' && s[1] == 'u' && !Decode(s).Malformed?
    ensures ParseUnicode(s[2..]).Bytes?
    ensures var u := ParseUnicode(s[2..]); var rest := s[2 + u.used..];
      Decode(s) == Then(u.text, Decode(rest)) && !Decode(rest).Malformed?
  {
    hide ParseUnicode;
  }

  lemma HexOfDigit(n: nat)
    requires n < 16
    ensures IsHex(HexDigit(n)) && HexValue(HexDigit(n)) == n
    ensures HexDigit(n) != '\\' && HexDigit(n) != '\"'
  {
  }

  lemma Nibbles(n: nat)
    ensures ((n / 0x1000 * 16 + n / 0x100 % 16) * 16 + n / 16 % 16) * 16 + n % 16 == n
  {
    var m := n / 16;
    var k := m / 16;
    assert n / 0x100 == k;
    assert n / 0x1000 == k / 16;
  }

  lemma HexRoundTrip(n: nat, tail: string)
    requires n < 0x10000
    ensures AtHex4(Hex4(n) + tail) && ParseHex4(Hex4(n) + tail) == n
  {
    hide HexDigit, HexValue, IsHex;
    HexOfDigit(n / 0x1000);
    HexOfDigit(n / 0x100 % 16);
    HexOfDigit(n / 16 % 16);
    HexOfDigit(n % 16);
    Nibbles(n);
    var h, s := Hex4(n), Hex4(n) + tail;
    assert s[0] == h[0] && s[1] == h[1] && s[2] == h[2] && s[3] == h[3];
  }

  lemma ByteAsHex(c: char, tail: string)
    requires 0 < c as int < 128
    ensures ParseUnicode(Hex4(c as int) + tail) == Bytes([c], 4)
  {
    HexRoundTrip(c as int, tail);
  }

  lemma DecodeEscapedChar(c: char, tail: string)
    requires 0 < c as int < 256
    ensures Decode(EscapeChar(c) + tail) == Then([c], Decode(tail))
  {
    assert ShortEscape(c) == '\0' ==> c != '\\' && c != '\"';
    assert ShortEscape(c) != '\0' ==> ShortEscape(c) != 'u' && Unescape(ShortEscape(c)) == c;
    hide Decode, ShortEscape, Unescape, ParseUnicode;
    if ShortEscape(c) != '\0' {
      DecodeTwo(ShortEscape(c), tail);
    } else if c as int < 32 {
      ByteAsHex(c, tail);
      DecodeUnicode(Hex4(c as int), tail);
    } else {
      DecodeOne(c, tail);
    }
  }

  lemma {:induction false} DecodeEscaped(t: string, rest: string)
    requires CString(t)
    ensures Decode(Escape(t) + ("\"" + rest)) == Ok(t, rest)
  {
    hide Decode, EscapeChar;
    var end := "\"" + rest;
    if t == "" {
      DecodeQuote(rest);
      assert Escape(t) + end == end;
    } else {
      DecodeEscaped(t[1..], rest);
      var e, tail := EscapeChar(t[0]), Escape(t[1..]);
      DecodeEscapedChar(t[0], tail + end);
      assert Escape(t) + end == e + (tail + end);
      assert [t[0]] + t[1..] == t;
    }
  }

  lemma DecodeQuote(rest: string)
    ensures Decode("\"" + rest) == Ok("", rest)
  {
    assert ("\"" + rest)[1..] == rest;
  }

  lemma ParseQuote(t: string, rest: string)
    requires CString(t)
    ensures ParseString(Quote(t) + rest) == Ok(t, rest) && At(Quote(t) + rest, '\"')
  {
    hide Decode, Escape;
    DecodeEscaped(t, rest);
    assert (Quote(t) + rest)[1..] == Escape(t) + ("\"" + rest);
  }

  // ----- Trees -----

  lemma SkipNothing(s: string)
    requires s != "" ==> s[0] as int > 32
    ensures Skip(s) == s
  {
  }

  predicate Blank(s: string) {
    forall i :: 0 <= i < |s| ==> s[i] as int <= 32
  }

  lemma {:induction false} SkipBlanks(b: string, s: string)
    requires Blank(b)
    ensures Skip(b + s) == Skip(s)
  {
    if b == "" {
      assert b + s == s;
    } else {
      SkipBlanks(b[1..], s);
      assert (b + s)[1..] == b[1..] + s;
    }
  }

  /** A rendering starts with a character that is neither blank nor a closing mark. */
  predicate Starts(s: string) {
    s != "" && s[0] as int > 32 && s[0] != ']' && s[0] != '}' && s[0] != ','
  }

  lemma RenderStarts(v: Json, depth: nat, fmt: bool)
    ensures Starts(Render(v, depth, fmt))
  {
    if v.Number? {
      FirstDigit(if v.mantissa < 0 then -v.mantissa else v.mantissa);
    }
  }

  lemma ParseWord(s: string, rest: string)
    ensures ParseValue("null" + rest) == Ok(Null, rest)
    ensures ParseValue("false" + rest) == Ok(False, rest)
    ensures ParseValue("true" + rest) == Ok(True, rest)
  {
    var n, f, t := "null" + rest, "false" + rest, "true" + rest;
    assert "null" <= n && n[4..] == rest;
    assert f[0] == 'f' && "false" <= f && f[5..] == rest;
    assert t[0] == 't' && "true" <= t && t[4..] == rest;
  }

  /** Parsing a rendering, in either format and at any depth, gives the tree back and stops at the end of its text. */
  lemma {:induction false} ParseRender(v: Json, depth: nat, fmt: bool, rest: string)
    requires Renderable(v) && (v.Number? ==> CannotExtend(rest))
    ensures ParseValue(Render(v, depth, fmt) + rest) == Ok(v, rest)
    decreases v, 2
  {
    match v
    case Null => ParseWord("", rest);
    case False => ParseWord("", rest);
    case True => ParseWord("", rest);
    case Number(m, _) =>
      hide ParseNumber, Decimal;
      ParseDecimal(m, rest);
    case Str(t) =>
      hide ParseString, Quote;
      ParseQuote(t, rest);
    case Arr(items) => ParseRenderArray(items, depth, fmt, rest);
    case Obj(members) => ParseRenderObject(members, depth, fmt, rest);
  }

  lemma {:induction false} ParseRenderArray(items: Items, depth: nat, fmt: bool, rest: string)
    requires RenderableItems(items)
    ensures ParseValue(Render(Arr(items), depth, fmt) + rest) == Ok(Arr(items), rest)
    decreases items, 1
  {
    hide Render, RenderItems, RenderableItems, ParseItems, ParseValue, Skip;
    var s := Render(Arr(items), depth, fmt) + rest;
    var t := RenderItems(items, depth + 1, fmt) + ("]" + rest);
    ArrayText(items, depth, fmt, rest);
    if items.NoItems? {
      SkipNothing(t);
      assert t[1..] == rest;
      ValueAtBracket(s);
    } else {
      ItemsStart(items, depth + 1, fmt);
      ParseRenderItems(items, depth + 1, fmt, rest);
      ParseBracketed(s, t, items, rest);
    }
  }

  lemma ArrayText(items: Items, depth: nat, fmt: bool, rest: string)
    ensures var s, t := Render(Arr(items), depth, fmt) + rest, RenderItems(items, depth + 1, fmt) + ("]" + rest);
      At(s, '[') && s[1..] == t && (items.NoItems? ==> t == "]" + rest)
  {
    var body := RenderItems(items, depth + 1, fmt);
    assert items.NoItems? ==> body == "";
    hide RenderItems;
    assert Render(Arr(items), depth, fmt) + rest == "[" + (body + ("]" + rest));
    assert items.NoItems? ==> body + ("]" + rest) == "]" + rest;
  }

  lemma ValueAtBracket(s: string)
    requires At(s, '[')
    ensures var t := Skip(s[1..]);
      ParseValue(s) == if At(t, ']') then Ok(Arr(NoItems), t[1..]) else Arrayed(ParseItems(Skip(t)))
  {
    hide ParseItems, Skip;
  }

  lemma ValueAtBrace(s: string)
    requires At(s, '{')
    ensures var t := Skip(s[1..]);
      ParseValue(s) == if At(t, '}') then Ok(Obj(NoMembers), t[1..]) else Objected(ParseMembers(Skip(t)))
  {
    hide ParseMembers, Skip;
  }

  lemma ParseBracketed(s: string, t: string, items: Items, rest: string)
    requires At(s, '[') && s[1..] == t && Starts(t) && ParseItems(t) == Ok(items, rest)
    ensures ParseValue(s) == Ok(Arr(items), rest)
  {
  }

  lemma ItemsStart(items: Items, depth: nat, fmt: bool)
    requires items.Item?
    ensures Starts(RenderItems(items, depth, fmt))
  {
    hide Render;
    RenderStarts(items.value, depth, fmt);
  }

  lemma {:induction false} ParseRenderItems(items: Items, depth: nat, fmt: bool, rest: string)
    requires items.Item? && RenderableItems(items)
    ensures ParseItems(RenderItems(items, depth, fmt) + ("]" + rest)) == Ok(items, rest)
    decreases items, 0
  {
    hide Render, ParseItems, ParseValue, Skip, Renderable;
    var v, next := items.value, items.next;
    var r := Render(v, depth, fmt);
    if next.NoItems? {
      assert RenderItems(items, depth, fmt) == r;
      ParseRender(v, depth, fmt, "]" + rest);
      LastItem(r, v, rest);
    } else {
      var more := RenderItems(next, depth, fmt);
      var tail := Separator(next, fmt) + (more + ("]" + rest));
      assert RenderItems(items, depth, fmt) + ("]" + rest) == r + tail;
      ParseRender(v, depth, fmt, tail);
      ParseRenderItems(next, depth, fmt, rest);
      ItemsStart(next, depth, fmt);
      assert tail == "," + (if fmt then " " else "") + (more + ("]" + rest));
      MoreItems(r, v, next, if fmt then " " else "", more, rest);
    }
  }

  lemma LastItem(r: string, v: Json, rest: string)
    requires ParseValue(r + ("]" + rest)) == Ok(v, "]" + rest)
    ensures ParseItems(r + ("]" + rest)) == Ok(Item(v, NoItems), rest)
  {
  }

  lemma MoreItems(r: string, v: Json, next: Items, blank: string, more: string, rest: string)
    requires Blank(blank) && Starts(more)
    requires var tail := "," + blank + (more + ("]" + rest)); ParseValue(r + tail) == Ok(v, tail)
    requires ParseItems(more + ("]" + rest)) == Ok(next, rest)
    ensures ParseItems(r + ("," + blank + (more + ("]" + rest)))) == Ok(Item(v, next), rest)
  {
    hide ParseValue;
    var tail := "," + blank + (more + ("]" + rest));
    SkipNothing(tail);
    assert tail[1..] == blank + (more + ("]" + rest));
    SkipBlanks(blank, more + ("]" + rest));
    SkipNothing(more + ("]" + rest));
  }

  // ----- Objects -----

  lemma {:induction false} ParseRenderObject(members: Members, depth: nat, fmt: bool, rest: string)
    requires RenderableMembers(members)
    ensures ParseValue(Render(Obj(members), depth, fmt) + rest) == Ok(Obj(members), rest)
    decreases members, 1
  {
    hide Render, RenderMembers, ParseMembers, ParseValue, RenderableMembers, Indent;
    IndentBlank(depth, fmt);
    IndentBlank(depth + 1, fmt);
    ObjectText(members, depth, fmt);
    if members.NoMembers? {
      ParseEmptyObject(if fmt then "\n" + Tabs(if depth > 0 then depth - 1 else 0) else "", rest);
    } else {
      ParseRenderMembers(members, depth + 1, fmt, Indent(depth, fmt), rest);
      MembersStart(members, depth + 1, fmt);
      var i := Indent(depth + 1, fmt);
      var t := RenderMembers(members, depth + 1, fmt)[|i|..] + (Indent(depth, fmt) + "}" + rest);
      ObjectBody(members, depth, fmt, rest);
      ParseBraced(Render(Obj(members), depth, fmt) + rest, (if fmt then "\n" else "") + i, t, members, rest);
    }
  }

  lemma ObjectText(members: Members, depth: nat, fmt: bool)
    ensures members.NoMembers? ==>
      Render(Obj(members), depth, fmt)
        == "{" + (if fmt then "\n" + Tabs(if depth > 0 then depth - 1 else 0) else "") + "}"
    ensures members.Member? ==>
      Render(Obj(members), depth, fmt)
        == "{" + ((if fmt then "\n" else "") + (RenderMembers(members, depth + 1, fmt) + (Indent(depth, fmt) + "}")))
  {
    hide RenderMembers, Indent;
  }

  lemma ObjectBody(members: Members, depth: nat, fmt: bool, rest: string)
    requires members.Member?
    ensures var s := Render(Obj(members), depth, fmt) + rest;
      var i, body := Indent(depth + 1, fmt), RenderMembers(members, depth + 1, fmt);
      i <= body && At(s, '{')
        && s[1..] == (if fmt then "\n" else "") + i + (body[|i|..] + (Indent(depth, fmt) + "}" + rest))
  {
    hide Render, RenderMembers, Indent;
    MembersStart(members, depth + 1, fmt);
    ObjectText(members, depth, fmt);
    var i, body := Indent(depth + 1, fmt), RenderMembers(members, depth + 1, fmt);
    assert i + body[|i|..] == body;
  }

  lemma ParseEmptyObject(blank: string, rest: string)
    requires Blank(blank)
    ensures ParseValue("{" + blank + "}" + rest) == Ok(Obj(NoMembers), rest)
  {
    hide ParseMembers, ParseValue, Skip;
    var s, t := "{" + blank + "}" + rest, "}" + rest;
    assert s[1..] == blank + t;
    SkipBlanks(blank, t);
    SkipNothing(t);
    assert t[1..] == rest;
    ValueAtBrace(s);
  }

  lemma MembersStart(members: Members, depth: nat, fmt: bool)
    requires members.Member?
    ensures var i := Indent(depth, fmt);
      i <= RenderMembers(members, depth, fmt) && Starts(RenderMembers(members, depth, fmt)[|i|..])
  {
  }

  lemma ParseBraced(s: string, blank: string, t: string, members: Members, rest: string)
    requires At(s, '{') && s[1..] == blank + t && Blank(blank) && Starts(t) && ParseMembers(t) == Ok(members, rest)
    ensures ParseValue(s) == Ok(Obj(members), rest)
  {
    hide ParseMembers, ParseValue, Skip;
    ValueAtBrace(s);
    SkipBlanks(blank, t);
    SkipNothing(t);
  }

  /** The members after the blanks that start their first line. */
  lemma {:induction false} ParseRenderMembers(members: Members, depth: nat, fmt: bool, close: string, rest: string)
    requires members.Member? && RenderableMembers(members)
    requires Blank(close)
    ensures Indent(depth, fmt) <= RenderMembers(members, depth, fmt)
    ensures ParseMembers(RenderMembers(members, depth, fmt)[|Indent(depth, fmt)|..] + (close + "}" + rest))
      == Ok(members, rest)
    decreases members, 0
  {
    hide Render, RenderPair, ParseMembers, ParsePair, ParseValue, Skip, Renderable, Tabs;
    var v, next := members.value, members.next;
    var i := Indent(depth, fmt);
    var pair := RenderPair(members.name, v, depth, fmt);
    var more := RenderMembers(next, depth, fmt);
    var end := if fmt then "\n" else "";
    IndentBlank(depth, fmt);
    if next.NoMembers? {
      var tail := end + close + "}" + rest;
      assert |end + close| > 0 ==> tail[0] == (end + close)[0];
      ParseOnePair(members.name, v, depth, fmt, tail);
      LastMember(pair, members.name, v, end + close, rest);
      RegroupLast(pair, end, close, rest);
    } else {
      ParseRenderMembers(next, depth, fmt, close, rest);
      MembersStart(next, depth, fmt);
      var body := more[|i|..];
      assert more == i + body;
      var after := close + "}" + rest;
      var tail := "," + (end + i) + (body + after);
      ParseOnePair(members.name, v, depth, fmt, tail);
      MoreMembers(pair, members.name, v, next, end + i, body, after, rest);
      RegroupMore(pair, end, i, body, after);
    }
  }

  lemma RegroupLast(pair: string, end: string, close: string, rest: string)
    ensures pair + ("" + end + "") + (close + "}" + rest) == pair + (end + close + "}" + rest)
  {
  }

  lemma RegroupMore(pair: string, end: string, i: string, body: string, after: string)
    ensures pair + ("," + end + (i + body)) + after == pair + ("," + (end + i) + (body + after))
  {
  }

  lemma IndentBlank(depth: nat, fmt: bool)
    ensures Blank((if fmt then "\n" else "") + Indent(depth, fmt)) && Blank(Indent(depth, fmt))
  {
  }

  lemma {:induction false} ParseOnePair(name: string, v: Json, depth: nat, fmt: bool, rest: string)
    requires CString(name) && Renderable(v) && rest != "" && (rest[0] == ',' || rest[0] as int <= 32 || rest[0] == '}')
    ensures ParsePair(RenderPair(name, v, depth, fmt) + rest) == Ok((name, v), rest)
    decreases v, 3
  {
    hide Render, ParseValue, ParseString, Quote, Renderable;
    var r := Render(v, depth, fmt) + rest;
    var tail := Colon(fmt) + r;
    assert RenderPair(name, v, depth, fmt) + rest == Quote(name) + tail;
    ParseQuote(name, tail);
    SkipNothing(tail);
    assert tail[1..] == (if fmt then "\t" else "") + r;
    SkipBlanks(if fmt then "\t" else "", r);
    RenderStarts(v, depth, fmt);
    SkipNothing(r);
    ParseRender(v, depth, fmt, rest);
  }

  lemma LastMember(pair: string, name: string, v: Json, blank: string, rest: string)
    requires Blank(blank)
    requires ParsePair(pair + (blank + "}" + rest)) == Ok((name, v), blank + "}" + rest)
    ensures ParseMembers(pair + (blank + "}" + rest)) == Ok(Member(name, v, NoMembers), rest)
  {
    hide ParsePair;
    assert blank + "}" + rest == blank + ("}" + rest);
    SkipBlanks(blank, "}" + rest);
    SkipNothing("}" + rest);
    assert ("}" + rest)[1..] == rest;
  }

  lemma MoreMembers(pair: string, name: string, v: Json, next: Members, blank: string, body: string, after: string,
                    rest: string)
    requires Blank(blank) && Starts(body)
    requires var tail := "," + blank + (body + after); ParsePair(pair + tail) == Ok((name, v), tail)
    requires ParseMembers(body + after) == Ok(next, rest)
    ensures ParseMembers(pair + ("," + blank + (body + after))) == Ok(Member(name, v, next), rest)
  {
    hide ParsePair;
    var tail := "," + blank + (body + after);
    SkipNothing(tail);
    assert tail[1..] == blank + (body + after);
    SkipBlanks(blank, body + after);
    SkipNothing(body + after);
  }

  /** cJSON_Parse, with or without the check for trailing text, undoes cJSON_Print and cJSON_PrintUnformatted. */
  lemma ParsePrint(v: Json, fmt: bool, requireEnd: bool)
    requires Renderable(v)
    ensures Parse(Render(v, 0, fmt), requireEnd) == Ok(v, "")
  {
    hide Render, ParseValue, Renderable;
    RenderStarts(v, 0, fmt);
    SkipNothing(Render(v, 0, fmt));
    ParseRender(v, 0, fmt, "");
    assert Render(v, 0, fmt) + "" == Render(v, 0, fmt);
  }

  // ----- Transcoding of \u escapes -----

  predicate IsTail(c: char) { 0x80 <= c as int <= 0xBF }

  /** The code point a UTF-8 sequence stands for, by the table of section 3 of RFC 3629; None when it is not one in
      shortest form. */
  function Utf8Value(b: string): (n: int) {
    if |b| == 1 && b[0] as int <= 0x7F then b[0] as int
    else if |b| == 2 && 0xC2 <= b[0] as int <= 0xDF && IsTail(b[1]) then
      (b[0] as int - 0xC0) * 0x40 + (b[1] as int - 0x80)
    else if |b| == 3 && 0xE0 <= b[0] as int <= 0xEF && IsTail(b[1]) && IsTail(b[2])
      && (b[0] as int == 0xE0 ==> b[1] as int >= 0xA0) then
      (b[0] as int - 0xE0) * 0x1000 + (b[1] as int - 0x80) * 0x40 + (b[2] as int - 0x80)
    else if |b| == 4 && 0xF0 <= b[0] as int <= 0xF4 && IsTail(b[1]) && IsTail(b[2]) && IsTail(b[3])
      && (b[0] as int == 0xF0 ==> b[1] as int >= 0x90) then
      (b[0] as int - 0xF0) * 0x40000 + (b[1] as int - 0x80) * 0x1000 + (b[2] as int - 0x80) * 0x40
        + (b[3] as int - 0x80)
    else -1
  }

  /** The bytes laid down for a code point are its UTF-8 form. */
  lemma Utf8RoundTrip(uc: nat)
    requires uc < 0x110000
    ensures Utf8Value(Utf8(uc)) == uc
  {
  }

  /** How section 7 of RFC 8259 escapes a code point: one escape, or the surrogate pair of section 2.2 of RFC 2781. */
  function EscapeUnicode(cp: nat): string
    requires cp < 0x110000
  {
    if cp < 0x10000 then ['\\', 'u'] + Hex4(cp)
    else ['\\', 'u'] + Hex4(0xD800 + (cp - 0x10000) / 0x400) + (['\\', 'u'] + Hex4(0xDC00 + (cp - 0x10000) % 0x400))
  }

  /** Every escaped code point other than zero decodes to its UTF-8 bytes. */
  lemma DecodeEscapeUnicode(cp: nat, rest: string)
    requires 0 < cp < 0x110000 && !IsHigh(cp) && !IsLow(cp)
    ensures Decode(EscapeUnicode(cp) + rest) == Then(Utf8(cp), Decode(rest))
  {
    hide Decode, Utf8, Hex4, AtHex4, ParseHex4;
    if cp < 0x10000 {
      HexRoundTrip(cp, rest);
      HexLength(cp);
      DecodeUnicode(Hex4(cp), rest);
    } else {
      var hi, lo := 0xD800 + (cp - 0x10000) / 0x400, 0xDC00 + (cp - 0x10000) % 0x400;
      var tail := ['\\', 'u'] + Hex4(lo) + rest;
      HexRoundTrip(hi, tail);
      HexRoundTrip(lo, rest);
      var s := Hex4(hi) + tail;
      HexLength(hi);
      HexLength(lo);
      assert s[4..] == tail && tail[1..] == s[5..] && s[6..] == Hex4(lo) + rest;
      SurrogateValue(cp);
      assert Hex4(hi) + (['\\', 'u'] + Hex4(lo)) + rest == s;
      DecodeUnicode(Hex4(hi) + (['\\', 'u'] + Hex4(lo)), rest);
      assert EscapeUnicode(cp) + rest == ['\\', 'u'] + (Hex4(hi) + (['\\', 'u'] + Hex4(lo))) + rest;
    }
  }

  lemma HexLength(n: nat)
    requires n < 0x10000
    ensures |Hex4(n)| == 4
  {
  }

  lemma SurrogateValue(cp: nat)
    requires 0x10000 <= cp < 0x110000
    ensures var hi, lo := 0xD800 + (cp - 0x10000) / 0x400, 0xDC00 + (cp - 0x10000) % 0x400;
      IsHigh(hi) && IsLow(lo) && 0x10000 + hi % 0x400 * 0x400 + lo % 0x400 == cp
  {
  }
}
