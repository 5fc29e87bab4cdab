/**
 cJSON reads every text of RFC 8259 as the tree it stands for; and the texts it reads at all are exactly those of the
 wide grammar.
 */
module JsonGrammar {

  import opened Json
  import opened JsonText
  import opened JsonParse
  import opened JsonNumbers
  import opened JsonMeaning
  import M = JsonMinify

  // ----- Characters -----

  lemma LowerHex(i: nat)
    requires i < 16
    ensures IsHex(HEX_LOWER[i]) && HexValue(HEX_LOWER[i]) == i
  {
  }

  lemma UpperHex(i: nat)
    requires i < 16
    ensures IsHex(HEX_UPPER[i]) && HexValue(HEX_UPPER[i]) == i
  {
  }

  lemma HexDigitSame(c: char)
    ensures IsHexDigit(c) <==> IsHex(c)
    ensures IsHex(c) ==> HexDigitValue(c) == HexValue(c)
  {
    if IsHex(c) {
      var i := HexValue(c);
      assert c == HEX_LOWER[i] || c == HEX_UPPER[i];
    }
    if IsHexDigit(c) {
      LowerHex(HexDigitValue(c));
      UpperHex(HexDigitValue(c));
    }
  }

  lemma DecimalAt(i: nat)
    requires i < 10
    ensures IsDigit(DECIMAL[i]) && DigitValue(DECIMAL[i]) == i
  {
  }

  lemma DigitSame(c: char)
    ensures IsDecimalDigit(c) <==> IsDigit(c)
    ensures IsDigit(c) ==> DecimalDigitValue(c) == DigitValue(c)
  {
    if IsDigit(c) {
      assert c == DECIMAL[DigitValue(c)];
    }
    if IsDecimalDigit(c) {
      DecimalAt(DecimalDigitValue(c));
    }
  }

  lemma Utf8Same(cp: nat)
    requires cp < 0x110000
    ensures CodePointBytes(cp) == Utf8(cp)
  {
    var q := cp / 64;
    var r := q / 64;
    assert cp / 0x1000 == r && cp / 0x40000 == r / 64;
  }

  lemma ShortSame(c: char)
    ensures ShortValue(c) == Unescape(c)
  {
  }

  // ----- Strings -----

  predicate AtUnicode(s: string) {
    |s| >= 2 && s[0] == '\\' && s[1] == 'u'
  }

  /** Four hex digits in front of a text, as the parser reads them. */
  lemma HexBefore(h: string, y: string)
    requires IsPiece(Unit(h), false)
    ensures |h| == 4 && AtHex4(h + y) && ParseHex4(h + y) == UnitValue(h) && (h + y)[4..] == y
  {
    HexDigitSame(h[0]);
    HexDigitSame(h[1]);
    HexDigitSame(h[2]);
    HexDigitSame(h[3]);
    hide IsHex, IsHexDigit, HexValue, HexDigitValue;
    var s := h + y;
    assert s[0] == h[0] && s[1] == h[1] && s[2] == h[2] && s[3] == h[3];
  }

  lemma UnicodeAlone(h: string, y: string)
    requires IsPiece(Unit(h), false) && !(HighSurrogate(UnitValue(h)) && AtUnicode(y))
    ensures ParseUnicode(h + y) == Bytes(UnitText(UnitValue(h)), 4)
  {
    hide ParseHex4, AtHex4, Utf8, CodePointBytes, UnitValue, IsPiece;
    HexBefore(h, y);
    Utf8Same(UnitValue(h));
    var s := h + y;
    assert y != "" ==> s[5..] == y[1..];
  }

  /** The low ten bits of a surrogate. */
  lemma SurrogateBits(uc: nat)
    ensures IsHigh(uc) ==> uc % 0x400 == uc - 0xD800
    ensures IsLow(uc) ==> uc % 0x400 == uc - 0xDC00
  {
  }

  lemma UnicodePair(h: string, l: string, y: string)
    requires IsPiece(Unit(h), false) && HighSurrogate(UnitValue(h)) && IsPiece(Unit(l), false)
    ensures ParseUnicode(h + (['\\', 'u'] + (l + y))) == Bytes(PairText(UnitValue(h), UnitValue(l)), 10)
  {
    hide ParseUnicode, ParseHex4, AtHex4, Utf8, CodePointBytes, UnitValue, IsPiece;
    var t := ['\\', 'u'] + (l + y);
    HexBefore(h, t);
    HexBefore(l, y);
    var s := h + t;
    assert s[5..] == t[1..] && s[6..] == l + y;
    UnicodeHigh(s);
    SurrogatePair(UnitValue(h), UnitValue(l));
  }

  lemma SurrogatePair(high: nat, low: nat)
    requires HighSurrogate(high)
    ensures IsHigh(high) && (IsLow(low) <==> LowSurrogate(low))
    ensures PairText(high, low) == if IsLow(low) then Utf8(0x10000 + high % 0x400 * 0x400 + low % 0x400) else ""
  {
    SurrogateBits(high);
    SurrogateBits(low);
    if LowSurrogate(low) {
      Utf8Same(0x10000 + (high - 0xD800) * 0x400 + (low - 0xDC00));
    }
    hide Utf8, CodePointBytes;
  }

  lemma UnicodeHigh(s: string)
    requires AtHex4(s) && IsHigh(ParseHex4(s)) && At(s[4..], '\\') && At(s[5..], 'u') && AtHex4(s[6..])
    ensures var uc, low := ParseHex4(s), ParseHex4(s[6..]);
      ParseUnicode(s) == Bytes(if IsLow(low) then Utf8(0x10000 + uc % 0x400 * 0x400 + low % 0x400) else "", 10)
  {
    hide ParseHex4, AtHex4, Utf8;
  }

  /** Decoding reads the pieces, up to the closing quote or, where there is none, to the end of the text. */
  lemma {:induction false} DecodePieces(ps: seq<Piece>, closed: bool, y: string)
    requires ArePieces(ps, false) && (closed || y == "")
    ensures Decode(PutPieces(ps, closed, y)) == Ok(StandsFor(ps), y)
    decreases |ps|
  {
    hide Decode, ParseUnicode, PairText, UnitText, Unescape, UnitValue, ShortValue;
    if ps == [] {
      DecodeEnd(closed, y);
    } else {
      var tail := PutPieces(ps[1..], closed, y);
      DecodePieces(ps[1..], closed, y);
      assert IsPiece(ps[0], false);
      match ps[0]
      case Plain(c) => DecodeOne(c, tail);
      case Short(c) => DecodeTwo(c, tail); ShortSame(c);
      case Unit(h) =>
        if Paired(ps) {
          DecodePieces(ps[2..], closed, y);
          DecodePair(ps, closed, y);
        } else {
          NotUnicode(ps, closed, y);
          DecodeAlone(h, tail);
        }
    }
  }

  lemma DecodeEnd(closed: bool, y: string)
    requires closed || y == ""
    ensures Decode(if closed then "\"" + y else y) == Ok("", y)
  {
    DecodeQuote(y);
  }

  lemma DecodeAlone(h: string, tail: string)
    requires IsPiece(Unit(h), false) && !(HighSurrogate(UnitValue(h)) && AtUnicode(tail))
    ensures Decode(['\\', 'u'] + (h + tail)) == Then(UnitText(UnitValue(h)), Decode(tail))
  {
    hide Decode, ParseUnicode, UnitText, UnitValue;
    UnicodeAlone(h, tail);
    DecodeUnicode(h, tail);
    assert ['\\', 'u'] + h + tail == ['\\', 'u'] + (h + tail);
  }

  lemma DecodePair(ps: seq<Piece>, closed: bool, y: string)
    requires ArePieces(ps, false) && Paired(ps)
    ensures Decode(PutPieces(ps, closed, y))
         == Then(PairText(UnitValue(ps[0].h), UnitValue(ps[1].h)), Decode(PutPieces(ps[2..], closed, y)))
  {
    hide Decode, ParseUnicode, PairText, UnitValue;
    var h, l, tail := ps[0].h, ps[1].h, PutPieces(ps[2..], closed, y);
    assert IsPiece(ps[0], false) && IsPiece(ps[1], false);
    var code := h + ['\\', 'u'] + l;
    UnicodePair(h, l, tail);
    assert code + tail == h + (['\\', 'u'] + (l + tail));
    DecodeUnicode(code, tail);
    assert ps[1..][1..] == ps[2..];
    assert PutPieces(ps[1..], closed, y) == ['\\', 'u'] + (l + tail);
    assert PutPieces(ps, closed, y) == ['\\', 'u'] + (h + (['\\', 'u'] + (l + tail)));
    assert ['\\', 'u'] + code + tail == ['\\', 'u'] + (h + (['\\', 'u'] + (l + tail)));
  }

  lemma NotUnicode(ps: seq<Piece>, closed: bool, y: string)
    requires ArePieces(ps, false) && ps != [] && ps[0].Unit? && !Paired(ps) && (closed || y == "")
    ensures IsPiece(ps[0], false)
    ensures !(HighSurrogate(UnitValue(ps[0].h)) && AtUnicode(PutPieces(ps[1..], closed, y)))
  {
    hide UnitValue;
    assert IsPiece(ps[0], false);
    if |ps| > 1 {
      assert IsPiece(ps[1], false);
    }
  }

  // ----- Numbers -----

  /** The parts of a number as the reader sees them. */
  function Parts(n: Num): NumberText {
    NumberText(n.minus, n.whole, if n.fraction == "" then "" else "." + n.fraction, n.mark + n.sign, n.digits)
  }

  lemma DigitsSame(s: string)
    ensures AreDigits(s) <==> AllDigits(s)
  {
    hide IsDigit, IsDecimalDigit;
    forall i | 0 <= i < |s| ensures IsDecimalDigit(s[i]) <==> IsDigit(s[i]) {
      DigitSame(s[i]);
    }
  }

  /** Reading digits from the left, and adding up their place values. */
  lemma {:induction false} HornerPlaces(s: string, acc: nat)
    requires AreDigits(s) && AllDigits(s)
    ensures Horner(s, acc) == acc * Power10(|s|) + DigitsValue(s)
    decreases |s|
  {
    hide Horner, DigitsValue, Power10, AreDigits, AllDigits;
    if s == "" {
      NoDigits(acc);
    } else {
      DigitsTail(s);
      HornerFirst(s, acc);
      PlacesFirst(s);
      HornerPlaces(s[1..], acc * 10 + DecimalDigitValue(s[0]));
      PlaceStep(acc, DecimalDigitValue(s[0]), Power10(|s| - 1));
    }
  }

  lemma NoDigits(acc: nat)
    ensures AreDigits("") && AllDigits("") && Horner("", acc) == acc * Power10(0) + DigitsValue("")
  {
  }

  lemma DigitsTail(s: string)
    requires AreDigits(s) && AllDigits(s) && s != ""
    ensures AreDigits(s[1..]) && AllDigits(s[1..]) && IsDecimalDigit(s[0])
  {
  }

  lemma HornerFirst(s: string, acc: nat)
    requires AreDigits(s) && AllDigits(s) && s != ""
    ensures Horner(s, acc) == Horner(s[1..], acc * 10 + DecimalDigitValue(s[0]))
  {
    hide Horner, AreDigits, AllDigits, DigitValue, DecimalDigitValue;
    var d := s[..1];
    DigitsTail(s);
    OneDigit(d, acc);
    assert s == d + s[1..];
    HornerAppend(d, s[1..], acc);
  }

  lemma OneDigit(d: string, acc: nat)
    requires |d| == 1 && IsDecimalDigit(d[0])
    ensures AllDigits(d) && Horner(d, acc) == acc * 10 + DecimalDigitValue(d[0])
  {
    hide DigitValue, DecimalDigitValue, IsDecimalDigit, IsDigit;
    DigitSame(d[0]);
    assert d[..0] == "";
  }

  lemma PlacesFirst(s: string)
    requires AreDigits(s) && s != ""
    ensures DigitsValue(s) == DecimalDigitValue(s[0]) * Power10(|s| - 1) + DigitsValue(s[1..])
    ensures Power10(|s|) == 10 * Power10(|s| - 1)
  {
  }

  lemma PlaceStep(acc: nat, d: nat, p: nat)
    ensures (acc * 10 + d) * p == acc * (10 * p) + d * p
  {
  }

  lemma NumberSame(n: Num)
    requires IsNum(n, false)
    ensures Shaped(Parts(n)) && Flat(Parts(n)) == PutNum(n) && Flat(Parts(n)) != "" && Value(Parts(n)) == NumValue(n)
    ensures PutNum(n)[0] == '-' || IsDigit(PutNum(n)[0])
  {
    PartsShaped(n);
    PartsFlat(n);
    PartsValue(n);
  }

  lemma PartsShaped(n: Num)
    requires IsNum(n, false)
    ensures Shaped(Parts(n))
  {
    DigitsSame(n.whole);
    DigitsSame(n.fraction);
    DigitsSame(n.digits);
    hide AreDigits, AllDigits;
    assert n.fraction != "" ==> ("." + n.fraction)[1..] == n.fraction;
    assert n.mark != "" ==> (n.mark + n.sign)[0] == n.mark[0];
    assert n.mark != "" && n.sign != "" ==> (n.mark + n.sign)[1] == n.sign[0];
  }

  lemma PartsFlat(n: Num)
    requires IsNum(n, false)
    ensures Flat(Parts(n)) == PutNum(n) && Flat(Parts(n)) != ""
    ensures PutNum(n)[0] == '-' || IsDigit(PutNum(n)[0])
  {
    hide IsDigit, IsDecimalDigit;
    assert n.mark + n.sign + n.digits == n.mark + (n.sign + n.digits);
    var u := n.whole + ((if n.fraction == "" then "" else "." + n.fraction) + (n.mark + (n.sign + n.digits)));
    if n.minus == "" {
      assert u[0] == n.whole[0] && PutNum(n) == u;
      DigitSame(n.whole[0]);
    }
  }

  lemma PartsValue(n: Num)
    requires IsNum(n, false)
    ensures Shaped(Parts(n)) && Value(Parts(n)) == NumValue(n)
  {
    hide Horner, DigitsValue, AreDigits, AllDigits, Power10;
    PartsShaped(n);
    MantissaSame(n.whole, n.fraction);
    NoDigits(0);
    MantissaSame(n.digits, "");
    assert n.digits + "" == n.digits;
    assert n.fraction != "" ==> ("." + n.fraction)[1..] == n.fraction;
    assert n.mark != "" && n.sign != "" ==> (n.mark + n.sign)[1] == n.sign[0];
    assert n.mark == "" ==> n.mark + n.sign == "";
  }

  lemma MantissaSame(a: string, b: string)
    requires AreDigits(a) && AreDigits(b)
    ensures AllDigits(a) && AllDigits(b) && AreDigits(a + b)
    ensures Horner(b, Horner(a, 0)) == DigitsValue(a + b)
    ensures b == "" ==> Horner(a, 0) == DigitsValue(a + b)
  {
    DigitsSame(a);
    DigitsSame(b);
    DigitsSame(a + b);
    assert a + "" == a;
    hide Horner, DigitsValue, Power10;
    HornerAppend(a, b, 0);
    HornerPlaces(a + b, 0);
  }

  /** The strict numbers are those of the grammar as one pattern. */
  lemma NumberTexts(p: string)
    ensures IsNumber(p) <==> exists n :: IsNum(n, true) && PutNum(n) == p
  {
    if IsNumber(p) {
      var minus, i, f, x :| Composed(p, minus, i, f, x);
      ComposedNum(p, minus, i, f, x);
    }
    if n: Num :| IsNum(n, true) && PutNum(n) == p {
      NumComposed(n);
    }
  }

  lemma ComposedNum(p: string, minus: string, i: string, f: string, x: string)
    requires Composed(p, minus, i, f, x)
    ensures exists n :: IsNum(n, true) && PutNum(n) == p
  {
    hide IsInt, IsExp, FractionShape, IsNum, PutNum;
    var fraction := if f == "" then "" else f[1..];
    var mark := if x == "" then "" else x[..1];
    var sign := if |x| > 1 && (x[1] == '+' || x[1] == '-') then x[1..2] else "";
    var digits := x[|mark| + |sign|..];
    var n := Num(minus, i, fraction, mark, sign, digits);
    ComposedIsNum(n, i, f, x);
    ComposedPut(n, p, f, x);
  }

  lemma ComposedIsNum(n: Num, i: string, f: string, x: string)
    requires IsInt(i) && FractionShape(f) && IsExp(x) && (n.minus == "" || n.minus == "-")
    requires |n.mark| + |n.sign| <= |x|
    requires n == Num(n.minus, i, if f == "" then "" else f[1..], if x == "" then "" else x[..1],
                      if |x| > 1 && (x[1] == '+' || x[1] == '-') then x[1..2] else "", x[|n.mark| + |n.sign|..])
    ensures IsNum(n, true)
  {
    DigitsSame(i);
    DigitsSame(n.fraction);
    DigitsSame(n.digits);
    assert AllDigits("");
    hide AreDigits, AllDigits;
  }

  lemma ComposedPut(n: Num, p: string, f: string, x: string)
    requires FractionShape(f) && p == n.minus + (n.whole + (f + x)) && |n.mark| + |n.sign| <= |x|
    requires n == Num(n.minus, n.whole, if f == "" then "" else f[1..], if x == "" then "" else x[..1],
                      if |x| > 1 && (x[1] == '+' || x[1] == '-') then x[1..2] else "", x[|n.mark| + |n.sign|..])
    ensures PutNum(n) == p
  {
    hide AllDigits;
    assert x == n.mark + (n.sign + n.digits);
    assert f == if n.fraction == "" then "" else "." + n.fraction;
  }

  lemma NumComposed(n: Num)
    requires IsNum(n, true)
    ensures IsNumber(PutNum(n))
  {
    var f := if n.fraction == "" then "" else "." + n.fraction;
    var x := n.mark + (n.sign + n.digits);
    DigitsSame(n.whole);
    DigitsSame(n.fraction);
    DigitsSame(n.digits);
    assert IsExp(x) by {
      if n.mark != "" {
        var m := n.mark + n.sign;
        assert x == m + n.digits && m[0] == n.mark[0];
        assert |m| == 2 ==> m[1] == n.sign[0];
        MarkIsExp(m, n.digits);
      } else {
        assert x == "";
      }
    }
    assert n.fraction != "" ==> f[1..] == n.fraction;
    assert Composed(PutNum(n), n.minus, n.whole, f, x);
  }

  /** What can only follow the end of a number. */
  predicate Ends(y: string) {
    y == "" || y[0] as int <= 32 || y[0] == ',' || y[0] == ']' || y[0] == '}'
  }

  lemma EndsStop(phase: Phase, y: string)
    requires Ends(y)
    ensures !Continues(phase, y)
  {
  }

  /** A number that what follows does not continue is read as its value. */
  lemma NumberReads(n: Num, y: string)
    requires IsNum(n, false) && !Continues(PhaseOf(Parts(n)), y)
    ensures ParseValue(PutNum(n) + y) == Ok(NumValue(n), y)
    ensures Starts(PutNum(n) + y)
  {
    hide ParseNumber, Value, NumValue, PutNum, IsNum, Flat, Shaped, Continues, PhaseOf, Parts;
    NumberSame(n);
    Reads(Parts(n), y);
    assert (PutNum(n) + y)[0] == PutNum(n)[0];
  }

  // ----- Reading -----

  lemma WsSkipped(b: string, s: string)
    requires IsWs(b, false)
    ensures Blank(b) && Skip(b + s) == Skip(s)
  {
    SkipBlanks(b, s);
  }

  lemma WsEnds(b: string, s: string)
    requires IsWs(b, false) && Ends(s)
    ensures Ends(b + s)
  {
    assert b == "" ==> b + s == s;
  }

  lemma TextStarts(t: Text, y: string)
    requires IsText(t, false)
    ensures Starts(Put(t, y))
  {
    if t.TNumber? {
      NumberSame(t.n);
      hide PutNum, IsNum;
      assert (PutNum(t.n) + y)[0] == PutNum(t.n)[0];
    }
  }

  lemma MoreEnds(items: TItems, members: TMembers, y: string)
    ensures Ends(PutMoreItems(items, y)) && Ends(PutMoreMembers(members, y))
  {
    hide PutItems, PutMembers;
  }

  lemma QuoteReads(ps: seq<Piece>, closed: bool, y: string)
    requires ArePieces(ps, false) && (closed || y == "")
    ensures var s := "\"" + PutPieces(ps, closed, y); At(s, '\"') && ParseString(s) == Ok(StandsFor(ps), y)
  {
    hide Decode, PutPieces, StandsFor;
    DecodePieces(ps, closed, y);
    assert ("\"" + PutPieces(ps, closed, y))[1..] == PutPieces(ps, closed, y);
  }

  lemma ValueAtQuote(s: string, text: string, y: string)
    requires At(s, '\"') && ParseString(s) == Ok(text, y)
    ensures ParseValue(s) == Ok(Str(text), y)
  {
    hide ParseString;
  }

  /** What may follow a text: nothing that continues a number, and nothing at all after a string that is not closed. */
  predicate Follows(t: Text, y: string) {
    (t.TNumber? ==> !Continues(PhaseOf(Parts(t.n)), y)) && (t.TString? ==> t.closed || y == "")
  }

  /** What follows a value in the grammar may follow it. */
  lemma EndsFollow(t: Text, y: string)
    requires Closed(t) && Ends(y)
    ensures Follows(t, y)
  {
    if t.TNumber? {
      EndsStop(PhaseOf(Parts(t.n)), y);
    }
  }

  /** Every text, wide or strict, is read as its tree, and reading stops at its end. */
  lemma {:induction false} ParseText(t: Text, y: string)
    requires IsText(t, false) && Follows(t, y)
    ensures ParseValue(Put(t, y)) == Ok(TreeOf(t), y)
    decreases t, 0
  {
    hide ParseValue, PutItems, PutMembers, PutPieces, StandsFor, NumValue, PutNum, Skip, IsNum, Continues, PhaseOf,
      Parts;
    match t
    case TNull => ParseWord("", y);
    case TFalse => ParseWord("", y);
    case TTrue => ParseWord("", y);
    case TNumber(n) => NumberReads(n, y);
    case TString(ps, closed) =>
      QuoteReads(ps, closed, y);
      ValueAtQuote("\"" + PutPieces(ps, closed, y), StandsFor(ps), y);
    case TArray(blank, items) =>
      if items.TNoItems? {
        EmptyReads(blank, y);
      } else {
        ParseTextItems(items, y);
        ArrayReads(PutItems(items, y), TreeItems(items), y);
      }
    case TObject(blank, members) =>
      if members.TNoMembers? {
        EmptyReads(blank, y);
      } else {
        ParseTextMembers(members, y);
        ObjectReads(PutMembers(members, y), TreeMembers(members), y);
      }
  }

  lemma EmptyReads(blank: string, y: string)
    requires IsWs(blank, false)
    ensures ParseValue("[" + (blank + ("]" + y))) == Ok(Arr(NoItems), y)
    ensures ParseValue("{" + (blank + ("}" + y))) == Ok(Obj(NoMembers), y)
  {
    hide ParseValue, Skip;
    var a, o := "]" + y, "}" + y;
    WsSkipped(blank, a);
    WsSkipped(blank, o);
    SkipNothing(a);
    SkipNothing(o);
    assert a[1..] == y && o[1..] == y;
    assert ("[" + (blank + a))[1..] == blank + a && ("{" + (blank + o))[1..] == blank + o;
    ValueAtBracket("[" + (blank + a));
    ValueAtBrace("{" + (blank + o));
  }

  lemma ArrayReads(s: string, items: Items, y: string)
    requires Starts(Skip(s)) && ParseItems(Skip(s)) == Ok(items, y)
    ensures ParseValue("[" + s) == Ok(Arr(items), y)
  {
    hide ParseValue, ParseItems;
    assert ("[" + s)[1..] == s;
    ValueAtBracket("[" + s);
    SkipNothing(Skip(s));
  }

  lemma ObjectReads(s: string, members: Members, y: string)
    requires Starts(Skip(s)) && ParseMembers(Skip(s)) == Ok(members, y)
    ensures ParseValue("{" + s) == Ok(Obj(members), y)
  {
    hide ParseValue, ParseMembers;
    assert ("{" + s)[1..] == s;
    ValueAtBrace("{" + s);
    SkipNothing(Skip(s));
  }

  lemma {:induction false} ParseTextItems(items: TItems, y: string)
    requires items.TItem? && AreItems(items, false)
    ensures Starts(Skip(PutItems(items, y))) && ParseItems(Skip(PutItems(items, y))) == Ok(TreeItems(items), y)
    decreases items, 0
  {
    hide ParseValue, ParseItems, Put, TreeOf, IsText, Skip, Starts, Ends, Follows;
    var next, more := items.next, PutMoreItems(items.next, y);
    var tail := items.after + more;
    var s := Put(items.value, tail);
    MoreEnds(next, TNoMembers, y);
    WsEnds(items.after, more);
    EndsFollow(items.value, tail);
    ParseText(items.value, tail);
    TextStarts(items.value, tail);
    StartsStays(s);
    WsSkipped(items.before, s);
    WsSkipped(items.after, more);
    if next.TItem? {
      ParseTextItems(next, y);
      hide PutItems;
      MoreItemsRead(PutItems(next, y), TreeItems(next), y);
    } else {
      LastItemRead(y);
    }
    ItemReads(s, TreeOf(items.value), tail, TreeItems(next), y);
  }

  lemma StartsStays(s: string)
    requires Starts(s)
    ensures Skip(s) == s
  {
  }

  lemma MoreItemsRead(s: string, items: Items, y: string)
    requires ParseItems(Skip(s)) == Ok(items, y)
    ensures ParseMoreItems(Skip("," + s)) == Ok(items, y)
  {
    hide ParseItems;
    SkipNothing("," + s);
    assert ("," + s)[1..] == s;
  }

  lemma LastItemRead(y: string)
    ensures ParseMoreItems(Skip("]" + y)) == Ok(NoItems, y)
  {
    hide ParseItems;
    SkipNothing("]" + y);
    assert ("]" + y)[1..] == y;
  }

  lemma ItemReads(s: string, v: Json, tail: string, items: Items, y: string)
    requires ParseValue(s) == Ok(v, tail) && ParseMoreItems(Skip(tail)) == Ok(items, y)
    ensures ParseItems(s) == Ok(Item(v, items), y)
  {
    hide ParseValue, ParseMoreItems, Skip;
  }

  lemma {:induction false} ParseTextMembers(members: TMembers, y: string)
    requires members.TMember? && AreMembers(members, false)
    ensures Starts(Skip(PutMembers(members, y)))
      && ParseMembers(Skip(PutMembers(members, y))) == Ok(TreeMembers(members), y)
    decreases members, 0
  {
    hide ParseValue, ParsePair, ParseMembers, Put, PutPieces, StandsFor, TreeOf, IsText, Skip, Starts, Ends, Follows;
    var next, more := members.next, PutMoreMembers(members.next, y);
    var tail := members.after + more;
    MoreEnds(TNoItems, next, y);
    WsEnds(members.after, more);
    EndsFollow(members.value, tail);
    ParseText(members.value, tail);
    PairReads(members.name, members.behind, members.ahead, members.value, tail);
    var s := PutPair(members.name, members.behind, members.ahead, members.value, tail);
    StartsStays(s);
    WsSkipped(members.before, s);
    WsSkipped(members.after, more);
    if next.TMember? {
      ParseTextMembers(next, y);
      hide PutMembers;
      MoreMembersRead(PutMembers(next, y), TreeMembers(next), y);
    } else {
      LastMemberRead(y);
    }
    MemberReads(s, StandsFor(members.name), TreeOf(members.value), tail, TreeMembers(next), y);
  }

  /** One member before y. */
  function PutPair(name: seq<Piece>, behind: string, ahead: string, value: Text, y: string): string {
    "\"" + PutPieces(name, true, behind + (":" + (ahead + Put(value, y))))
  }

  lemma PairReads(name: seq<Piece>, behind: string, ahead: string, value: Text, y: string)
    requires ArePieces(name, false) && IsWs(behind, false) && IsWs(ahead, false) && IsText(value, false)
    requires ParseValue(Put(value, y)) == Ok(TreeOf(value), y)
    ensures var s := PutPair(name, behind, ahead, value, y);
      Starts(s) && ParsePair(s) == Ok((StandsFor(name), TreeOf(value)), y)
  {
    hide ParseValue, ParseString, Put, PutPieces, StandsFor, TreeOf, IsText, Skip, Starts;
    var v := Put(value, y);
    var colon := ":" + (ahead + v);
    QuoteReads(name, true, behind + colon);
    WsSkipped(behind, colon);
    WsSkipped(ahead, v);
    TextStarts(value, y);
    StartsStays(v);
    assert colon[1..] == ahead + v;
    SkipNothing(colon);
    QuoteStarts(PutPieces(name, true, behind + colon));
  }

  lemma QuoteStarts(s: string)
    ensures Starts("\"" + s)
  {
  }

  lemma MoreMembersRead(s: string, members: Members, y: string)
    requires ParseMembers(Skip(s)) == Ok(members, y)
    ensures ParseMoreMembers(Skip("," + s)) == Ok(members, y)
  {
    hide ParseMembers;
    SkipNothing("," + s);
    assert ("," + s)[1..] == s;
  }

  lemma LastMemberRead(y: string)
    ensures ParseMoreMembers(Skip("}" + y)) == Ok(NoMembers, y)
  {
    hide ParseMembers;
    SkipNothing("}" + y);
    assert ("}" + y)[1..] == y;
  }

  lemma MemberReads(s: string, name: string, v: Json, tail: string, members: Members, y: string)
    requires ParsePair(s) == Ok((name, v), tail) && ParseMoreMembers(Skip(tail)) == Ok(members, y)
    ensures ParseMembers(s) == Ok(Member(name, v, members), y)
  {
    hide ParsePair, ParseMoreMembers, Skip;
  }

  /** cJSON_ParseWithOpts on a whole text of RFC 8259, with blanks around the value. */
  lemma ParseGrammar(before: string, t: Text, after: string)
    requires IsWs(before, true) && IsText(t, true) && IsWs(after, true)
    ensures IsText(t, false)
    ensures Parse(before + Put(t, after), true) == Ok(TreeOf(t), "")
    ensures Parse(before + Put(t, after), false) == Ok(TreeOf(t), after)
  {
    hide ParseValue, Parse, Put, IsText, TreeOf, Skip, Starts, Follows, Ends, Closed;
    TextWide(t);
    assert IsWs(before, false) && IsWs(after, false);
    EmptyEnds();
    WsEnds(after, "");
    assert after + "" == after;
    EndsFollow(t, after);
    ParseText(t, after);
    TextStarts(t, after);
    ReadWhole(before, Put(t, after), TreeOf(t), after);
  }

  lemma ReadWhole(before: string, s: string, v: Json, after: string)
    requires IsWs(before, false) && Starts(s) && ParseValue(s) == Ok(v, after) && IsWs(after, false)
    ensures Parse(before + s, true) == Ok(v, "") && Parse(before + s, false) == Ok(v, after)
  {
    hide ParseValue, Skip, Starts;
    WsSkipped(before, s);
    StartsStays(s);
    WsSkipped(after, "");
    assert after + "" == after;
    SkipNothing("");
  }

  lemma EmptyEnds()
    ensures Ends("")
  {
  }

  // ----- Minifying -----

  lemma {:induction false} PiecesClosed(ps: seq<Piece>, y: string)
    requires ArePieces(ps, false)
    ensures M.LiteralLength(PutPieces(ps, true, y)).Some?
  {
    hide M.LiteralLength;
    if ps == [] {
      M.LiteralEnd("\"" + y, 0);
      assert ("\"" + y)[0..] == "\"" + y;
    } else {
      PiecesClosed(ps[1..], y);
      PieceInside(ps[0], PutPieces(ps[1..], true, y));
    }
  }

  lemma PieceInside(p: Piece, tail: string)
    requires IsPiece(p, false) && M.LiteralLength(tail).Some?
    ensures M.LiteralLength(PutPiece(p, tail)).Some?
  {
    hide M.LiteralLength;
    match p
    case Plain(c) => M.OneInLiteral(c, tail);
    case Short(c) => M.TwoInLiteral(c, tail);
    case Unit(h) =>
      HexBefore(h, "");
      assert h + "" == h;
      HexPlain(h);
      M.PlainInLiteral(h, tail);
      M.TwoInLiteral('u', h + tail);
  }

  lemma TextClosed(t: Text, y: string)
    requires IsText(t, false) && Closed(t)
    ensures !OpenLiteral(Put(t, y))
  {
    if t.TString? {
      PiecesClosed(t.ps, y);
      hide M.LiteralLength, PutPieces;
      assert ("\"" + PutPieces(t.ps, true, y))[1..] == PutPieces(t.ps, true, y);
    } else if t.TNumber? {
      NumberSame(t.n);
      hide M.LiteralLength, PutNum, IsNum;
      assert (PutNum(t.n) + y)[0] == PutNum(t.n)[0];
    }
  }

  /** Every text of the grammar can be minified, and the minified text stands for the same tree. */
  lemma MinifyGrammar(before: string, t: Text, after: string)
    requires IsWs(before, true) && IsText(t, true) && IsWs(after, true)
    ensures IsText(t, false) && M.Minified(before + Put(t, after)).Some?
    ensures Parse(Min(before + Put(t, after)), true) == Ok(TreeOf(t), "")
  {
    hide ParseValue, Parse, Put, IsText, TreeOf, Skip, Starts, OpenLiteral, M.Minified;
    ParseGrammar(before, t, after);
    TextWide(t);
    assert IsWs(before, false);
    WsSkipped(before, Put(t, after));
    TextStarts(t, after);
    StartsStays(Put(t, after));
    TextClosed(t, after);
    MinifyKeepsMeaning(before + Put(t, after));
  }
}
