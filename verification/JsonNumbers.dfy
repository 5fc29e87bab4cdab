/**
 Which text parse_number reads as one number: its parts, what would make it read on, and how it compares
 with the number grammar of section 6 of RFC 8259.
 */
module JsonNumbers {

  import opened Json
  import opened JsonParse

  // ----- The parts of a number -----

  /** Minus, whole digits, fraction with its point, exponent mark with its sign, exponent digits; any may be empty. */
  datatype NumberText = NumberText(minus: string, whole: string, fraction: string, mark: string, digits: string)

  function Flat(n: NumberText): string {
    n.minus + (n.whole + (n.fraction + (n.mark + n.digits)))
  }

  /** A zero can only be followed by a digit other than zero. */
  predicate WholeShape(w: string) {
    AllDigits(w) && (|w| > 1 && w[0] == '0' ==> w[1] != '0')
  }

  predicate FractionShape(f: string) {
    f == "" || (|f| > 1 && f[0] == '.' && AllDigits(f[1..]))
  }

  predicate MarkShape(m: string) {
    m == "" || ((m[0] == 'e' || m[0] == 'E') && (|m| == 1 || (|m| == 2 && (m[1] == '+' || m[1] == '-'))))
  }

  predicate Shaped(n: NumberText) {
    && (n.minus == "" || n.minus == "-") && WholeShape(n.whole) && FractionShape(n.fraction)
    && MarkShape(n.mark) && AllDigits(n.digits) && (n.mark == "" ==> n.digits == "")
  }

  function FractionDigits(f: string): string {
    if f == "" then "" else f[1..]
  }

  /** What the parts are worth. */
  function Value(n: NumberText): Json
    requires Shaped(n)
  {
    Number(Signed(n.minus == "-", Horner(FractionDigits(n.fraction), Horner(n.whole, 0))),
           Signed(|n.mark| == 2 && n.mark[1] == '-', Horner(n.digits, 0)) - |FractionDigits(n.fraction)|)
  }

  // ----- Reading on -----

  /** Where in a number its text ends. */
  datatype Phase = AfterMinus | AfterZero | InWhole | InFraction | AfterMark | AfterSign | InExponent

  function PhaseOf(n: NumberText): Phase {
    if n.digits != "" then InExponent
    else if |n.mark| > 1 then AfterSign
    else if n.mark != "" then AfterMark
    else if n.fraction != "" then InFraction
    else if n.whole == "" then AfterMinus
    else if n.whole == "0" then AfterZero
    else InWhole
  }

  predicate AtMark(y: string) {
    At(y, 'e') || At(y, 'E')
  }

  predicate AtFraction(y: string) {
    At(y, '.') && AtDigit(y[1..])
  }

  /** What would be read as more of a number that ends there. */
  predicate Continues(phase: Phase, y: string) {
    match phase
    case AfterMinus => AtDigit(y) || AtFraction(y) || AtMark(y)
    case AfterZero => (AtDigit(y) && y[0] != '0') || AtFraction(y) || AtMark(y)
    case InWhole => AtDigit(y) || AtFraction(y) || AtMark(y)
    case InFraction => AtDigit(y) || AtMark(y)
    case AfterMark => AtDigit(y) || At(y, '+') || At(y, '-')
    case AfterSign => AtDigit(y)
    case InExponent => AtDigit(y)
  }

  lemma {:induction false} RunMore(digits: string, acc: nat, y: string)
    requires AllDigits(digits) && AtDigit(y)
    ensures |DigitRun(digits + y, acc).2| < |y|
  {
    if digits == "" {
      assert digits + y == y;
    } else {
      assert (digits + y)[1..] == digits[1..] + y;
      RunMore(digits[1..], acc * 10 + DigitValue(digits[0]), y);
    }
  }

  lemma WholeReads(w: string, y: string)
    requires WholeShape(w)
    ensures var more := AtDigit(y) && (w == "0" ==> y[0] != '0');
      if more then |ParseWhole(w + y).1| < |y| else ParseWhole(w + y) == (Horner(w, 0), y)
  {
    if w == "" {
      assert w + y == y;
    } else {
      var z := if w[0] == '0' then 1 else 0;
      var v := w[z..];
      assert w == w[..z] + v && AllDigits(v);
      var t := v + y;
      assert z == 1 ==> (w + y)[1..] == t;
      assert z == 0 ==> w + y == t;
      assert v != "" ==> t[0] == v[0];
      LeadingZero(w, z);
      if v == "" {
        assert t == y && w == "0";
      } else if AtDigit(y) {
        RunMore(v, 0, y);
      } else {
        RunIsHorner(v, 0, y);
      }
    }
  }

  lemma LeadingZero(w: string, z: nat)
    requires AllDigits(w) && w != "" && z == if w[0] == '0' then 1 else 0
    ensures AllDigits(w[z..]) && Horner(w[z..], 0) == Horner(w, 0)
  {
    if z == 1 {
      assert w == "0" + w[1..] && "0"[..0] == "";
      HornerAppend("0", w[1..], 0);
    } else {
      assert w[0..] == w;
    }
  }

  lemma FractionReads(f: string, n: nat, y: string)
    requires FractionShape(f)
    ensures var more := if f == "" then AtFraction(y) else AtDigit(y);
      if more then |ParseFraction(f + y, n).2| < |y|
      else
        AllDigits(FractionDigits(f)) &&
        ParseFraction(f + y, n) == (Horner(FractionDigits(f), n), |FractionDigits(f)|, y)
  {
    hide DigitRun;
    if f == "" {
      assert f + y == y;
      if AtFraction(y) {
        assert y[1..] == "" + y[1..];
        RunMore("", n, y[1..]);
      }
    } else {
      var d := f[1..];
      assert (f + y)[1..] == d + y;
      if AtDigit(y) {
        RunMore(d, n, y);
      } else {
        RunIsHorner(d, n, y);
      }
    }
  }

  lemma ExponentReads(mark: string, digits: string, y: string)
    requires MarkShape(mark) && AllDigits(digits) && (mark == "" ==> digits == "")
    ensures var more :=
        if mark == "" then AtMark(y)
        else AtDigit(y) || (digits == "" && |mark| == 1 && (At(y, '+') || At(y, '-')));
      if more then |ParseExponent(mark + (digits + y)).1| < |y|
      else ParseExponent(mark + (digits + y)) == (Signed(|mark| == 2 && mark[1] == '-', Horner(digits, 0)), y)
  {
    hide DigitRun;
    var s := mark + (digits + y);
    if mark == "" {
      assert s == y;
    } else {
      var t := digits + y;
      assert digits == "" ==> t == y;
      assert digits != "" ==> t[0] == digits[0];
      assert |mark| == 1 ==> s[1..] == t && (t != "" ==> s[2..] == t[1..]);
      assert |mark| == 2 ==> s[1..][0] == mark[1] && s[2..] == t;
      if AtDigit(y) {
        RunMore(digits, 0, y);
      } else {
        RunIsHorner(digits, 0, y);
      }
    }
  }

  lemma UnsignedReads(n: NumberText, y: string)
    requires Shaped(n)
    ensures var u := n.whole + (n.fraction + (n.mark + (n.digits + y)));
      if Continues(PhaseOf(n), y) then |ParseUnsigned(u).2| < |y|
      else ParseUnsigned(u) == (Horner(FractionDigits(n.fraction), Horner(n.whole, 0)),
                                Signed(|n.mark| == 2 && n.mark[1] == '-', Horner(n.digits, 0))
                                - |FractionDigits(n.fraction)|, y)
  {
    hide ParseWhole, ParseFraction, ParseExponent, Horner;
    var x := n.mark + (n.digits + y);
    var f := n.fraction + x;
    assert n.mark != "" ==> x[0] == n.mark[0];
    assert n.mark == "" ==> x == y;
    assert n.fraction != "" ==> f[0] == '.';
    assert n.fraction == "" ==> f == x;
    WholeReads(n.whole, f);
    FractionReads(n.fraction, ParseWhole(n.whole + f).0, x);
    ExponentReads(n.mark, n.digits, y);
  }

  lemma FlatThen(n: NumberText, y: string)
    ensures Flat(n) + y == n.minus + (n.whole + (n.fraction + (n.mark + (n.digits + y))))
  {
    var d := n.mark + n.digits;
    assert d + y == n.mark + (n.digits + y);
    assert n.fraction + d + y == n.fraction + (d + y);
    assert n.whole + (n.fraction + d) + y == n.whole + (n.fraction + d + y);
  }

  /** A number text before y reads as its value up to y exactly when y does not continue it. */
  lemma Reads(n: NumberText, y: string)
    requires Shaped(n) && Flat(n) != ""
    ensures if Continues(PhaseOf(n), y) then |ParseNumber(Flat(n) + y).1| < |y|
      else ParseNumber(Flat(n) + y) == (Value(n), y)
  {
    hide ParseNumber, ParseUnsigned, Flat, Continues, PhaseOf, Horner, FractionDigits, WholeShape, FractionShape,
      MarkShape;
    UnsignedReads(n, y);
    FlatThen(n, y);
    FirstOfFlat(n);
    var u := n.whole + (n.fraction + (n.mark + (n.digits + y)));
    assert n.minus == "" ==> "" + u == u && u[0] == Flat(n)[0];
    SignBefore(n.minus, u);
  }

  lemma SignBefore(minus: string, u: string)
    requires minus == "-" || (minus == "" && !At(u, '-'))
    ensures var p := ParseUnsigned(u);
      ParseNumber(minus + u) == (Number(Signed(minus == "-", p.0), p.1), p.2)
  {
    hide ParseUnsigned;
    if minus == "-" {
      assert (minus + u)[1..] == u;
    } else {
      assert minus + u == u;
    }
  }

  lemma FirstOfFlat(n: NumberText)
    requires Shaped(n) && Flat(n) != ""
    ensures n.minus == "-" || (n.minus == "" && Flat(n)[0] != '-')
  {
    var x := n.mark + n.digits;
    var f := n.fraction + x;
    if n.minus == "" {
      assert Flat(n) == n.whole + f;
      assert n.whole != "" ==> Flat(n)[0] == n.whole[0];
      assert n.whole == "" ==> Flat(n) == f;
      assert n.fraction != "" ==> f[0] == '.';
      assert n.fraction == "" ==> f == x;
    }
  }

  // ----- The parts of what was read -----

  /** What is read of s before the rest r. */
  function Before(s: string, r: string): string {
    s[..if |r| <= |s| then |s| - |r| else 0]
  }

  function ExponentHead(s: string): nat {
    if AtMark(s) then if At(s[1..], '+') || At(s[1..], '-') then 2 else 1 else 0
  }

  /** The number text, without minus, at the front of t. */
  function UnsignedText(t: string): NumberText {
    var t2 := ParseWhole(t).1;
    var t3 := ParseFraction(t2, 0).2;
    var k := ExponentHead(t3);
    NumberText("", Before(t, t2), Before(t2, t3), t3[..k], Before(t3[k..], ParseExponent(t3).1))
  }

  /** The number text at the front of s. */
  function TextOf(s: string): NumberText {
    var m := if At(s, '-') then 1 else 0;
    UnsignedText(s[m..]).(minus := s[..m])
  }

  lemma {:induction false} RunSplit(s: string, acc: nat)
    ensures var r := DigitRun(s, acc);
      r.1 <= |s| && r.2 == s[r.1..] && AllDigits(s[..r.1]) && Before(s, r.2) == s[..r.1] && s == s[..r.1] + r.2
    decreases |s|
  {
    if AtDigit(s) {
      var acc' := acc * 10 + DigitValue(s[0]);
      RunSplit(s[1..], acc');
      var c := DigitRun(s[1..], acc').1;
      assert s[1..][c..] == s[c + 1..] && s[..c + 1] == [s[0]] + s[1..][..c];
    }
  }

  lemma RunFirst(s: string, acc: nat)
    requires AtDigit(s)
    ensures DigitRun(s, acc).1 > 0
  {
  }

  lemma WholeSplit(s: string)
    ensures var r := ParseWhole(s).1; |r| <= |s| && s == Before(s, r) + r && WholeShape(Before(s, r))
    ensures AtDigit(s) ==> Before(s, ParseWhole(s).1) != ""
  {
    var z := if At(s, '0') then 1 else 0;
    var t := s[z..];
    if AtDigit(t) && t[0] != '0' {
      RunSplit(t, 0);
      RunFirst(t, 0);
      hide DigitRun;
      var c := DigitRun(t, 0).1;
      var r := t[c..];
      assert s == s[..z + c] + r && Before(s, r) == s[..z + c];
      assert s[..z + c] == s[..z] + t[..c];
    }
  }

  lemma FractionSplit(s: string, n: nat)
    ensures var r := ParseFraction(s, n).2; |r| <= |s| && s == Before(s, r) + r && FractionShape(Before(s, r))
    ensures ParseFraction(s, n).2 == ParseFraction(s, 0).2
  {
    if AtFraction(s) {
      var t := s[1..];
      RunSplit(t, n);
      RunSplit(t, 0);
      RunFirst(t, n);
      RunLength(t, n, 0);
      hide DigitRun;
      var c := DigitRun(t, n).1;
      var r := t[c..];
      assert Before(s, r) == s[..1 + c] == "." + t[..c];
      assert s[..1 + c][1..] == t[..c];
    }
  }

  lemma {:induction false} RunLength(s: string, n: nat, m: nat)
    ensures DigitRun(s, n).1 == DigitRun(s, m).1
    decreases |s|
  {
    if AtDigit(s) {
      RunLength(s[1..], n * 10 + DigitValue(s[0]), m * 10 + DigitValue(s[0]));
    }
  }

  lemma ExponentSplit(s: string)
    ensures var k, r := ExponentHead(s), ParseExponent(s).1;
      k <= |s| && |r| <= |s[k..]| && s == s[..k] + (Before(s[k..], r) + r) && MarkShape(s[..k])
        && AllDigits(Before(s[k..], r))
      && (k == 0 ==> Before(s[k..], r) == "")
  {
    if AtMark(s) {
      RunSplit(s[ExponentHead(s)..], 0);
      hide DigitRun;
    }
  }

  lemma UnsignedSplit(t: string)
    ensures var n, r := UnsignedText(t), ParseUnsigned(t).2;
      Shaped(n) && n.minus == "" && t == n.whole + (n.fraction + (n.mark + (n.digits + r)))
        && (AtDigit(t) ==> n.whole != "")
  {
    WholeSplit(t);
    var t2 := ParseWhole(t).1;
    FractionSplit(t2, ParseWhole(t).0);
    var t3 := ParseFraction(t2, 0).2;
    ExponentSplit(t3);
    hide ParseWhole, ParseFraction, ParseExponent, WholeShape, FractionShape, MarkShape, AllDigits, Before,
      ExponentHead;
    ExponentHeadBound(t3);
    var n := UnsignedText(t);
    assert n.mark == "" ==> n.digits == "";
  }

  lemma ExponentHeadBound(s: string)
    ensures ExponentHead(s) <= |s|
  {
  }

  /** What is read of a number has the shape of a number text, and the rest does not continue it. */
  lemma NumberSplit(s: string)
    requires At(s, '-') || AtDigit(s)
    ensures var n, r := TextOf(s), ParseNumber(s).1;
      Shaped(n) && Flat(n) != "" && s == Flat(n) + r && ParseNumber(s).0 == Value(n) && !Continues(PhaseOf(n), r)
  {
    var n, r := TextOf(s), ParseNumber(s).1;
    ShapedSplit(s);
    hide Continues, PhaseOf, Shaped, Value, Flat, TextOf, ParseNumber;
    Reads(n, r);
  }

  lemma ShapedSplit(s: string)
    requires At(s, '-') || AtDigit(s)
    ensures var n, r := TextOf(s), ParseNumber(s).1; Shaped(n) && Flat(n) != "" && s == Flat(n) + r
  {
    var m := if At(s, '-') then 1 else 0;
    var t := s[m..];
    assert m == 0 ==> t == s;
    UnsignedSplit(t);
    hide UnsignedText, ParseUnsigned, WholeShape, FractionShape, MarkShape, AllDigits;
    var n, r := TextOf(s), ParseNumber(s).1;
    assert s == s[..m] + t;
    assert m == 1 ==> s[..m] == "-";
    FlatThen(n, r);
    WholeNotEmpty(n);
    hide Flat;
  }

  lemma WholeNotEmpty(n: NumberText)
    requires n.minus != "" || n.whole != ""
    ensures Flat(n) != ""
  {
    assert |Flat(n)| == |n.minus| + |n.whole| + |n.fraction| + |n.mark| + |n.digits|;
  }

  /** The text a number was read from reads the same before y exactly when y does not continue it. */
  lemma NumberExact(s: string, y: string)
    requires At(s, '-') || AtDigit(s)
    ensures ParseNumber(Flat(TextOf(s)) + y) == (ParseNumber(s).0, y) <==> !Continues(PhaseOf(TextOf(s)), y)
  {
    hide ParseNumber, Continues, PhaseOf, TextOf, Shaped, Value;
    NumberSplit(s);
    Reads(TextOf(s), y);
  }

  // ----- The grammar of section 6 of RFC 8259 -----

  predicate IsInt(i: string) {
    i != "" && AllDigits(i) && (i[0] == '0' ==> i == "0")
  }

  /** A mark, an optional sign, and at least one digit. */
  predicate IsExp(x: string) {
    x == "" ||
    ((x[0] == 'e' || x[0] == 'E')
     && var k := if |x| > 1 && (x[1] == '+' || x[1] == '-') then 2 else 1; |x| > k && AllDigits(x[k..]))
  }

  predicate Composed(p: string, minus: string, i: string, f: string, x: string) {
    p == minus + (i + (f + x)) && (minus == "" || minus == "-") && IsInt(i) && FractionShape(f) && IsExp(x)
  }

  /** number = [ minus ] int [ frac ] [ exp ] */
  ghost predicate IsNumber(p: string) {
    exists minus, i, f, x :: Composed(p, minus, i, f, x)
  }

  predicate HasMark(p: string) {
    exists j :: 0 <= j < |p| && (p[j] == 'e' || p[j] == 'E')
  }

  /** A digit after the minus, none after a leading zero, and one at the end when there is an exponent mark. */
  predicate Strict(p: string) {
    var u := if At(p, '-') then p[1..] else p;
    AtDigit(u) && !(u[0] == '0' && AtDigit(u[1..])) && (HasMark(p) ==> IsDigit(p[|p| - 1]))
  }

  /** What parse_number reads is a number of the grammar exactly when it is strict. */
  lemma GrammarExact(s: string)
    requires At(s, '-') || AtDigit(s)
    ensures IsNumber(Flat(TextOf(s))) <==> Strict(Flat(TextOf(s)))
  {
    hide TextOf, ParseNumber, Value, IsNumber, Strict, Continues, PhaseOf;
    NumberSplit(s);
    var n := TextOf(s);
    if Strict(Flat(n)) {
      StrictIsNumber(n);
    }
    if IsNumber(Flat(n)) {
      NumberIsStrict(Flat(n));
    }
  }

  lemma StrictIsNumber(n: NumberText)
    requires Shaped(n) && Flat(n) != "" && Strict(Flat(n))
    ensures IsNumber(Flat(n))
  {
    WholeIsInt(n);
    var x := n.mark + n.digits;
    if n.mark == "" {
      assert x == "";
    } else {
      MarkInside(n);
      MarkIsExp(n.mark, n.digits);
    }
    hide IsInt, IsExp, FractionShape, Strict;
    assert Composed(Flat(n), n.minus, n.whole, n.fraction, x);
  }

  lemma TailNotDigit(n: NumberText)
    requires Shaped(n)
    ensures !AtDigit(n.fraction + (n.mark + n.digits))
  {
    var x := n.mark + n.digits;
    var f := n.fraction + x;
    assert n.fraction != "" ==> f[0] == '.';
    assert n.fraction == "" ==> f == x;
    assert n.mark != "" ==> x[0] == n.mark[0];
  }

  lemma WholeIsInt(n: NumberText)
    requires Shaped(n) && Flat(n) != "" && Strict(Flat(n))
    ensures IsInt(n.whole)
  {
    var p := Flat(n);
    var f := n.fraction + (n.mark + n.digits);
    var u := n.whole + f;
    FirstOfFlat(n);
    TailNotDigit(n);
    assert n.minus == "-" ==> p[1..] == u;
    assert n.minus == "" ==> p == u;
    hide HasMark, Flat;
    assert n.whole == "" ==> u == f;
    assert n.whole != "";
    assert u[0] == n.whole[0];
    assert |n.whole| > 1 ==> u[1..][0] == n.whole[1];
  }

  lemma MarkIsExp(mark: string, digits: string)
    requires MarkShape(mark) && mark != "" && AllDigits(digits) && digits != ""
    ensures IsExp(mark + digits)
  {
    var x := mark + digits;
    assert x[0] == mark[0] && x[|mark|..] == digits;
    assert |mark| == 2 ==> x[1] == mark[1];
    assert |mark| == 1 ==> x[1] == digits[0];
  }

  lemma MarkInside(n: NumberText)
    requires Shaped(n) && n.mark != ""
    ensures HasMark(Flat(n)) && Flat(n) != "" && (IsDigit(Flat(n)[|Flat(n)| - 1]) ==> n.digits != "")
  {
    var p := Flat(n);
    var j := |n.minus| + |n.whole| + |n.fraction|;
    assert p == n.minus + n.whole + n.fraction + n.mark + n.digits;
    assert p[j] == n.mark[0];
    assert n.digits == "" ==> p[|p| - 1] == n.mark[|n.mark| - 1];
  }

  lemma NumberIsStrict(p: string)
    requires IsNumber(p)
    ensures Strict(p)
  {
    var minus, i, f, x :| Composed(p, minus, i, f, x);
    ComposedStarts(p, minus, i, f, x);
    if HasMark(p) {
      MarkEndsInDigit(p, minus, i, f, x);
    }
  }

  lemma ComposedStarts(p: string, minus: string, i: string, f: string, x: string)
    requires Composed(p, minus, i, f, x)
    ensures p != ""
    ensures var u := if At(p, '-') then p[1..] else p; AtDigit(u) && !(u[0] == '0' && AtDigit(u[1..]))
  {
    var t := f + x;
    var u := i + t;
    assert minus == "-" ==> p[0] == '-' && p[1..] == u;
    assert minus == "" ==> p == u;
    assert u[0] == i[0];
    assert f != "" ==> t[0] == '.';
    assert f == "" ==> t == x;
    assert i == "0" ==> u[1..] == t;
  }

  lemma MarkEndsInDigit(p: string, minus: string, i: string, f: string, x: string)
    requires Composed(p, minus, i, f, x) && HasMark(p) && p != ""
    ensures IsDigit(p[|p| - 1])
  {
    if x == "" {
      assert p == minus + i + f;
      MarkFree(minus, i, f);
    } else {
      assert p[|p| - 1] == x[|x| - 1];
      var k := if |x| > 1 && (x[1] == '+' || x[1] == '-') then 2 else 1;
      assert x[k..][|x| - k - 1] == x[|x| - 1];
    }
  }

  lemma MarkFree(minus: string, i: string, f: string)
    requires (minus == "" || minus == "-") && AllDigits(i) && FractionShape(f)
    ensures !HasMark(minus + i + f)
  {
    var p := minus + i + f;
    forall j | 0 <= j < |p| ensures p[j] != 'e' && p[j] != 'E' {
      if j >= |minus| + |i| + 1 {
        assert p[j] == f[1..][j - |minus| - |i| - 1];
      }
    }
  }

  /** A lone minus is read as zero. */
  lemma BareMinus()
    ensures ParseNumber("-") == (Number(0, 0), "") && !IsNumber("-")
  {
    if IsNumber("-") {
      NumberIsStrict("-");
    }
  }

  /** An exponent mark without digits is read as part of the number. */
  lemma BareMark()
    ensures ParseNumber("1e") == (Number(1, 0), "") && !IsNumber("1e")
  {
    var n := NumberText("", "1", "", "e", "");
    assert "1"[..0] == "";
    Reads(n, "");
    assert Flat(n) + "" == "1e";
    if IsNumber("1e") {
      assert HasMark("1e") by {
        assert "1e"[1] == 'e';
      }
      NumberIsStrict("1e");
    }
  }
}
