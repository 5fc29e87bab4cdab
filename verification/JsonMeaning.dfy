/**
 Minifying keeps the meaning of a text: whatever text parses as a whole, and is not a string literal that the text
 leaves open, its minified form parses to the same tree.
 */
module JsonMeaning {

  import opened Json
  import opened JsonNumbers
  import opened JsonParse
  import opened Options
  import M = JsonMinify

  /** The minified text, where there is one. */
  ghost function Min(s: string): string
    requires M.Minified(s).Some?
  {
    M.Minified(s).value
  }

  // ----- What minifying does at a token -----

  lemma MinPlain(p: string, s: string)
    requires M.Plain(p) && M.Minified(p + s).Some?
    ensures M.Minified(s).Some? && Min(p + s) == p + Min(s)
  {
    hide M.Minified;
    M.ShrinksPlain(p);
    assert M.Minified(p + s) == M.Prepend(p, M.Minified(s));
  }

  /** A mark: a printable byte that starts neither a string nor a comment. */
  predicate IsMark(c: char) {
    c as int > 32 && c != '/' && c != '\"'
  }

  lemma MinMark(s: string)
    requires s != "" && IsMark(s[0]) && M.Minified(s).Some?
    ensures M.Minified(s[1..]).Some? && Min(s) == [s[0]] + Min(s[1..])
  {
  }

  /** Skipping blanks and minifying commute, when what follows the blanks is no comment. */
  lemma {:induction false} MinSkip(s: string)
    requires M.Minified(s).Some? && !At(Skip(s), '/')
    ensures M.Minified(Skip(s)).Some? && Skip(Min(s)) == Min(Skip(s))
    ensures s != "" && s[0] as int > 32 ==> Skip(s) == s
  {
    if s != "" {
      if s[0] as int > 32 {
        MinFirst(s);
      } else if M.IsBlank(s[0]) {
        MinSkip(s[1..]);
      } else {
        MinPlain(s[..1], s[1..]);
        assert s == s[..1] + s[1..];
        MinSkip(s[1..]);
        assert Min(s)[1..] == Min(s[1..]);
      }
    }
  }

  /** A text that starts with no comment and no blank keeps its first byte. */
  lemma MinFirst(s: string)
    requires s != "" && s[0] as int > 32 && s[0] != '/' && M.Minified(s).Some?
    ensures Min(s) != "" && Min(s)[0] == s[0]
  {
  }

  // ----- Strings -----

  lemma {:induction false} LiteralPlain(s: string, k: nat)
    requires k <= |s| && M.LiteralLength(s).Some? && forall i :: 0 <= i < k ==> s[i] != '\"' && s[i] != '\\'
    ensures M.LiteralLength(s[k..]).Some? && M.LiteralLength(s).value == k + M.LiteralLength(s[k..]).value
  {
    if k > 0 {
      LiteralPlain(s[1..], k - 1);
      assert s[1..][k - 1..] == s[k..];
    } else {
      assert s[0..] == s;
    }
  }

  lemma LiteralEscape(s: string)
    requires At(s, '\\') && M.LiteralLength(s).Some?
    ensures |s| > 2 && M.LiteralLength(s[2..]).Some? && M.LiteralLength(s).value == 2 + M.LiteralLength(s[2..]).value
  {
  }

  /** An escape \u lies wholly inside its literal. */
  lemma LiteralUnicode(u: string)
    requires ParseUnicode(u).Bytes? && M.LiteralLength(u).Some?
    ensures var k := ParseUnicode(u).used;
      M.LiteralLength(u[k..]).Some? && M.LiteralLength(u).value == k + M.LiteralLength(u[k..]).value
    ensures At(u[4..], '\\') ==> M.LiteralLength(u).value > 6
  {
    hide M.LiteralLength, Utf8, ParseHex4;
    HexPlain(u);
    LiteralPlain(u, 4);
    var t := u[4..];
    if At(t, '\\') {
      LiteralEscape(t);
    }
    if ParseUnicode(u).used == 10 {
      assert t[2..] == u[6..];
      HexPlain(u[6..]);
      LiteralPlain(u[6..], 4);
      assert u[6..][4..] == u[10..];
    }
  }

  /** What an escape \u stands for depends on its literal only. */
  lemma UnicodeLocal(u: string, w: string, n: nat)
    requires ParseUnicode(u).Bytes? && M.LiteralLength(u) == Some(n)
    requires n <= |u| && n <= |w| && forall i :: 0 <= i < n ==> w[i] == u[i]
    ensures ParseUnicode(w) == ParseUnicode(u)
  {
    hide Utf8, ParseHex4, M.LiteralLength;
    LiteralUnicode(u);
    var k := ParseUnicode(u).used;
    assert M.LiteralLength(u[k..]).value > 0;
    HexSame(u, w);
    assert At(u[4..], '\\') <==> At(w[4..], '\\');
    if At(u[4..], '\\') {
      assert At(u[5..], 'u') <==> At(w[5..], 'u');
      if k == 10 {
        HexSame(u[6..], w[6..]);
      }
    }
  }

  lemma HexSame(u: string, w: string)
    requires AtHex4(u) && |w| >= 4 && forall i :: 0 <= i < 4 ==> w[i] == u[i]
    ensures AtHex4(w) && ParseHex4(w) == ParseHex4(u)
  {
  }

  lemma DecodeAtPlain(s: string)
    requires s != "" && s[0] != '\"' && s[0] != '\\' && Decode(s).Ok? && M.LiteralLength(s).Some?
    ensures Decode(s) == Then([s[0]], Decode(s[1..]))
    ensures M.LiteralLength(s[1..]).Some? && M.LiteralLength(s).value == 1 + M.LiteralLength(s[1..]).value
  {
  }

  lemma DecodeAtShort(s: string)
    requires |s| >= 2 && s[0] == '\\' && s[1] != 'u' && Decode(s).Ok?
    ensures Decode(s) == Then([Unescape(s[1])], Decode(s[2..]))
  {
  }

  lemma DecodeAtQuote(s: string, y: string)
    requires At(s, '\"')
    ensures Decode(s) == Ok("", s[1..]) && M.LiteralLength(s) == Some(1) && Decode(s[..1] + y) == Ok("", y)
  {
  }

  /** One unit of a literal: its k bytes stand for text whatever follows. */
  lemma LocalStep(s: string, y: string, n: nat, k: nat, text: string)
    requires k <= n <= |s|
    requires var rest := s[k..]; var tail := rest[..n - k] + y;
      Decode(s) == Then(text, Decode(rest)) && Decode(s[..k] + tail) == Then(text, Decode(tail))
      && Decode(rest).Ok? && Decode(rest).rest == rest[n - k..] && Decode(tail) == Ok(Decode(rest).value, y)
    ensures Decode(s).rest == s[n..] && Decode(s[..n] + y) == Ok(Decode(s).value, y)
  {
    hide Decode;
    assert s[..n] + y == s[..k] + (s[k..][..n - k] + y);
    assert s[k..][n - k..] == s[n..];
  }

  /** A closed literal decodes the same way whatever follows it. */
  lemma {:induction false} DecodeLocal(s: string, y: string)
    requires Decode(s).Ok? && M.LiteralLength(s).Some?
    ensures var n := M.LiteralLength(s).value;
      Decode(s).rest == s[n..] && Decode(s[..n] + y) == Ok(Decode(s).value, y)
    decreases |s|
  {
    hide ParseUnicode, Decode, M.LiteralLength, Unescape;
    var n := M.LiteralLength(s).value;
    if s[0] == '\"' {
      DecodeAtQuote(s, y);
    } else if s[0] != '\\' {
      DecodeAtPlain(s);
      DecodeLocal(s[1..], y);
      assert s[..1] == [s[0]];
      DecodeOne(s[0], s[1..][..n - 1] + y);
      LocalStep(s, y, n, 1, [s[0]]);
    } else {
      LiteralEscape(s);
      if s[1] != 'u' {
        DecodeAtShort(s);
        DecodeLocal(s[2..], y);
        assert s[..2] == ['\\', s[1]];
        DecodeTwo(s[1], s[2..][..n - 2] + y);
        LocalStep(s, y, n, 2, [Unescape(s[1])]);
      } else {
        DecodeLocalUnicode(s, y);
      }
    }
  }

  lemma {:induction false} DecodeLocalUnicode(s: string, y: string)
    requires |s| >= 2 && s[0] == '\\' && s[1] == 'u' && Decode(s).Ok? && M.LiteralLength(s).Some?
    ensures var n := M.LiteralLength(s).value;
      Decode(s).rest == s[n..] && Decode(s[..n] + y) == Ok(Decode(s).value, y)
    decreases |s|, 0
  {
    hide ParseUnicode, Decode, M.LiteralLength;
    var n := M.LiteralLength(s).value;
    DecodeAtUnicode(s);
    LiteralEscape(s);
    var u := ParseUnicode(s[2..]);
    LiteralUnicode(s[2..]);
    var k := 2 + u.used;
    assert s[2..][u.used..] == s[k..];
    DecodeLocal(s[k..], y);
    var h, tail := s[2..k], s[k..][..n - k] + y;
    assert s[..k] + tail == ['\\', 'u'] + h + tail;
    UnicodeLocal(s[2..], h + tail, n - 2);
    DecodeUnicode(h, tail);
    LocalStep(s, y, n, k, u.text);
  }

  /** A parsed string: its literal is copied as it is. */
  lemma MinString(s: string)
    requires ParseString(s).Ok? && M.Minified(s).Some?
    ensures M.Minified(ParseString(s).rest).Some?
    ensures At(Min(s), '\"') && ParseString(Min(s)) == Ok(ParseString(s).value, Min(ParseString(s).rest))
  {
    hide Decode, M.LiteralLength;
    var n := M.LiteralLength(s[1..]).value;
    var y := Min(s[n + 1..]);
    assert s[1..][n..] == s[n + 1..];
    DecodeLocal(s[1..], y);
    assert Min(s) == s[..n + 1] + y;
    assert Min(s)[1..] == s[1..][..n] + y;
  }

  // ----- Numbers -----

  /** What can follow a value inside an array or object, or at the end of a text. */
  predicate Terminated(s: string) {
    s == "" || s[0] as int <= 32 || s[0] == ',' || s[0] == ']' || s[0] == '}'
  }

  lemma TerminatedStops(phase: Phase, y: string)
    requires Terminated(y)
    ensures !Continues(phase, y)
  {
  }

  /** A number reads the same whatever terminated text follows it. */
  lemma NumberLocal(s: string, y: string)
    requires (At(s, '-') || AtDigit(s)) && Terminated(y)
    ensures ParseNumber(Flat(TextOf(s)) + y) == (ParseNumber(s).0, y)
  {
    hide ParseNumber, TextOf, PhaseOf;
    NumberExact(s, y);
    TerminatedStops(PhaseOf(TextOf(s)), y);
  }

  lemma FlatPlain(n: NumberText)
    requires Shaped(n)
    ensures M.Plain(Flat(n))
  {
    var w, f, m, d := n.whole, n.fraction, n.mark, n.digits;
    forall i | 0 <= i < |f| ensures f[i] == '.' || IsDigit(f[i]) {
      assert i > 0 ==> f[i] == f[1..][i - 1];
    }
    assert M.Plain(n.minus) && M.Plain(w) && M.Plain(f) && M.Plain(m) && M.Plain(d);
  }

  /** A number in minified text: it reads the same exactly when what is left after it does not continue it. */
  lemma MinNumber(s: string)
    requires (At(s, '-') || AtDigit(s)) && M.Minified(s).Some?
    ensures M.Minified(ParseNumber(s).1).Some? && Min(s) != "" && Min(s)[0] == s[0]
    ensures var y := Min(ParseNumber(s).1);
      ParseNumber(Min(s)) == (ParseNumber(s).0, y) <==> !Continues(PhaseOf(TextOf(s)), y)
  {
    NumberSplit(s);
    FlatPlain(TextOf(s));
    hide ParseNumber, TextOf, PhaseOf, Flat, Continues, Shaped, Value;
    var p, r := Flat(TextOf(s)), ParseNumber(s).1;
    MinPlain(p, r);
    NumberExact(s, Min(r));
    assert Min(s)[0] == p[0] == s[0];
  }

  // ----- Trees -----

  lemma MinWord(word: string, s: string)
    requires M.Plain(word) && word <= s && M.Minified(s).Some?
    ensures M.Minified(s[|word|..]).Some? && Min(s) == word + Min(s[|word|..])
  {
    assert s == word + s[|word|..];
    MinPlain(word, s[|word|..]);
  }

  lemma ValueStarts(s: string)
    requires ParseValue(s).Ok?
    ensures s != "" && s[0] as int > 32 && s[0] != '/' && s[0] != ']' && s[0] != '}'
  {
    hide ParseItems, ParseMembers, ParseString, ParseNumber;
  }

  lemma ItemsStart(s: string)
    requires ParseItems(s).Ok?
    ensures s != "" && s[0] as int > 32 && s[0] != '/' && s[0] != ']'
  {
  }

  lemma MembersStart(s: string)
    requires ParseMembers(s).Ok?
    ensures At(s, '\"')
  {
  }

  /** A text whose first printable byte is a mark, or that has none, is terminated. */
  lemma TerminatedBySkip(s: string)
    requires Skip(s) == "" || At(Skip(s), ',') || At(Skip(s), ']') || At(Skip(s), '}')
    ensures Terminated(s)
  {
  }

  /**
   Parsing a value commutes with minifying: the minified text holds the same tree, followed by the
   minified rest, exactly when the value is no number or that rest does not continue it.
   */
  lemma {:induction false} MinValue(s: string)
    requires ParseValue(s).Ok? && M.Minified(s).Some?
    ensures M.Minified(ParseValue(s).rest).Some?
    ensures var v, y := ParseValue(s).value, Min(ParseValue(s).rest);
      ParseValue(Min(s)) == Ok(v, y) <==> (v.Number? ==> !Continues(PhaseOf(TextOf(s)), y))
    decreases |s|, 1
  {
    hide PhaseOf, TextOf, Continues, M.Minified, ParseString, ParseNumber, ParseItems, ParseMembers, Skip;
    if "null" <= s {
      MinWord("null", s);
      ParseWord("", Min(s[4..]));
    } else if "false" <= s {
      MinWord("false", s);
      ParseWord("", Min(s[5..]));
    } else if "true" <= s {
      MinWord("true", s);
      ParseWord("", Min(s[4..]));
    } else if At(s, '\"') {
      MinString(s);
    } else if At(s, '-') || AtDigit(s) {
      MinNumber(s);
    } else if At(s, '[') {
      MinArray(s);
    } else {
      MinObject(s);
    }
  }

  lemma {:induction false} MinArray(s: string)
    requires At(s, '[') && ParseValue(s).Ok? && M.Minified(s).Some?
    ensures M.Minified(ParseValue(s).rest).Some?
    ensures ParseValue(Min(s)) == Ok(ParseValue(s).value, Min(ParseValue(s).rest))
    decreases |s|, 0
  {
    hide ParseValue, ParseItems, Skip, M.Minified;
    MinMark(s);
    ValueAtBracket(s);
    ValueAtBracket(Min(s));
    var t := Skip(s[1..]);
    assert Min(s)[1..] == Min(s[1..]);
    if !At(t, ']') {
      ItemsStart(Skip(t));
      SkipTwice(s[1..]);
    }
    MinSkip(s[1..]);
    if At(t, ']') {
      MinMark(t);
      assert Min(t)[1..] == Min(t[1..]);
    } else {
      MinFirst(t);
      MinSkip(t);
      MinItems(t);
    }
  }

  lemma {:induction false} SkipTwice(s: string)
    ensures Skip(Skip(s)) == Skip(s)
  {
    if s != "" && s[0] as int <= 32 {
      SkipTwice(s[1..]);
    }
  }

  lemma ItemsFirst(s: string)
    ensures ParseItems(s).Ok? <==> ParseValue(s).Ok? && ParseMoreItems(Skip(ParseValue(s).rest)).Ok?
    ensures ParseItems(s).Ok? ==>
      var o := ParseMoreItems(Skip(ParseValue(s).rest)); ParseItems(s) == Ok(Item(ParseValue(s).value, o.value), o.rest)
  {
  }

  lemma {:induction false} MinItems(s: string)
    requires ParseItems(s).Ok? && M.Minified(s).Some?
    ensures M.Minified(ParseItems(s).rest).Some?
    ensures ParseItems(Min(s)) == Ok(ParseItems(s).value, Min(ParseItems(s).rest))
    decreases |s|, 2
  {
    hide ParseValue, ParseItems, ParseMoreItems, Skip, M.Minified;
    ItemsFirst(s);
    MinValue(s);
    var r := ParseValue(s).rest;
    var t := Skip(r);
    MoreItemsStart(t);
    MinSkip(r);
    MinFirst(t);
    TerminatedBySkip(Min(r));
    TerminatedStops(PhaseOf(TextOf(s)), Min(r));
    MinMoreItems(t);
    ItemsFirst(Min(s));
  }

  lemma MoreItemsStart(t: string)
    requires ParseMoreItems(t).Ok?
    ensures At(t, ',') || At(t, ']')
    ensures At(t, ',') ==> ParseItems(Skip(t[1..])).Ok?
  {
  }

  lemma {:induction false} MinMoreItems(t: string)
    requires ParseMoreItems(t).Ok? && M.Minified(t).Some?
    ensures M.Minified(ParseMoreItems(t).rest).Some?
    ensures ParseMoreItems(Min(t)) == Ok(ParseMoreItems(t).value, Min(ParseMoreItems(t).rest))
    decreases |t|, 0
  {
    hide ParseItems, Skip, M.Minified;
    MoreItemsStart(t);
    MinMark(t);
    assert Min(t)[1..] == Min(t[1..]);
    if At(t, ',') {
      ItemsStart(Skip(t[1..]));
      MinSkip(t[1..]);
      MinItems(Skip(t[1..]));
    }
  }

  lemma {:induction false} MinObject(s: string)
    requires At(s, '{') && ParseValue(s).Ok? && M.Minified(s).Some?
    ensures M.Minified(ParseValue(s).rest).Some?
    ensures ParseValue(Min(s)) == Ok(ParseValue(s).value, Min(ParseValue(s).rest))
    decreases |s|, 0
  {
    hide ParseValue, ParseMembers, Skip, M.Minified;
    MinMark(s);
    ValueAtBrace(s);
    ValueAtBrace(Min(s));
    var t := Skip(s[1..]);
    assert Min(s)[1..] == Min(s[1..]);
    if !At(t, '}') {
      MembersStart(Skip(t));
      SkipTwice(s[1..]);
    }
    MinSkip(s[1..]);
    if At(t, '}') {
      MinMark(t);
      assert Min(t)[1..] == Min(t[1..]);
    } else {
      MinFirst(t);
      MinSkip(t);
      MinMembers(t);
    }
  }

  lemma PairParts(s: string)
    ensures ParsePair(s).Ok? ==> ParseString(s).Ok?
    ensures ParseString(s).Ok? ==>
      var t := Skip(ParseString(s).rest);
      (ParsePair(s).Ok? <==> At(t, ':') && ParseValue(Skip(t[1..])).Ok?)
      && (ParsePair(s).Ok? ==>
          var v := ParseValue(Skip(t[1..])); ParsePair(s) == Ok((ParseString(s).value, v.value), v.rest))
  {
  }

  lemma {:induction false} MinPair(s: string)
    requires ParsePair(s).Ok? && M.Minified(s).Some?
    ensures M.Minified(ParsePair(s).rest).Some?
    ensures Terminated(Min(ParsePair(s).rest)) ==> ParsePair(Min(s)) == Ok(ParsePair(s).value, Min(ParsePair(s).rest))
    decreases |s|, 2
  {
    hide ParseString, ParsePair, ParseValue, Skip, M.Minified;
    PairParts(s);
    MinString(s);
    var r := ParseString(s).rest;
    var t := Skip(r);
    MinSkip(r);
    MinMark(t);
    assert Min(t)[1..] == Min(t[1..]);
    ValueStarts(Skip(t[1..]));
    MinSkip(t[1..]);
    MinValue(Skip(t[1..]));
    if Terminated(Min(ParsePair(s).rest)) {
      TerminatedStops(PhaseOf(TextOf(Skip(t[1..]))), Min(ParsePair(s).rest));
    }
    PairParts(Min(s));
  }

  lemma MembersFirst(s: string)
    ensures ParseMembers(s).Ok? <==> ParsePair(s).Ok? && ParseMoreMembers(Skip(ParsePair(s).rest)).Ok?
    ensures ParseMembers(s).Ok? ==>
      var o := ParseMoreMembers(Skip(ParsePair(s).rest));
      ParseMembers(s) == Ok(Member(ParsePair(s).value.0, ParsePair(s).value.1, o.value), o.rest)
  {
  }

  lemma {:induction false} MinMembers(s: string)
    requires ParseMembers(s).Ok? && M.Minified(s).Some?
    ensures M.Minified(ParseMembers(s).rest).Some?
    ensures ParseMembers(Min(s)) == Ok(ParseMembers(s).value, Min(ParseMembers(s).rest))
    decreases |s|, 3
  {
    hide ParsePair, ParseMembers, ParseMoreMembers, Skip, M.Minified;
    MembersFirst(s);
    MinPair(s);
    var r := ParsePair(s).rest;
    var t := Skip(r);
    MoreMembersStart(t);
    MinSkip(r);
    MinFirst(t);
    TerminatedBySkip(Min(r));
    MinMoreMembers(t);
    MembersFirst(Min(s));
  }

  lemma MoreMembersStart(t: string)
    requires ParseMoreMembers(t).Ok?
    ensures At(t, ',') || At(t, '}')
    ensures At(t, ',') ==> ParseMembers(Skip(t[1..])).Ok?
  {
  }

  lemma {:induction false} MinMoreMembers(t: string)
    requires ParseMoreMembers(t).Ok? && M.Minified(t).Some?
    ensures M.Minified(ParseMoreMembers(t).rest).Some?
    ensures ParseMoreMembers(Min(t)) == Ok(ParseMoreMembers(t).value, Min(ParseMoreMembers(t).rest))
    decreases |t|, 0
  {
    hide ParseMembers, Skip, M.Minified;
    MoreMembersStart(t);
    MinMark(t);
    assert Min(t)[1..] == Min(t[1..]);
    if At(t, ',') {
      MembersStart(Skip(t[1..]));
      MinSkip(t[1..]);
      MinMembers(Skip(t[1..]));
    }
  }

  // ----- When the minified text exists -----

  /** A literal that the text does not close. */
  predicate OpenLiteral(s: string) {
    At(s, '\"') && M.LiteralLength(s[1..]).None?
  }

  lemma PlainDefined(p: string, s: string)
    requires M.Plain(p)
    ensures M.Minified(p + s).Some? <==> M.Minified(s).Some?
  {
    hide M.Minified;
    M.ShrinksPlain(p);
    assert M.Minified(p + s) == M.Prepend(p, M.Minified(s));
  }

  lemma MarkDefined(s: string)
    requires s != "" && IsMark(s[0])
    ensures M.Minified(s).Some? <==> M.Minified(s[1..]).Some?
  {
    assert s == [s[0]] + s[1..];
    PlainDefined([s[0]], s[1..]);
  }

  lemma {:induction false} SkipDefined(s: string)
    ensures M.Minified(s).Some? <==> M.Minified(Skip(s)).Some?
  {
    if s != "" && s[0] as int <= 32 {
      SkipDefined(s[1..]);
      if !M.IsBlank(s[0]) {
        assert s == s[..1] + s[1..];
        PlainDefined(s[..1], s[1..]);
      }
    }
  }

  /** A string that is followed by something was closed. */
  lemma {:induction false} DecodedClosed(s: string)
    requires Decode(s).Ok? && Decode(s).rest != ""
    ensures M.LiteralLength(s).Some?
    decreases |s|
  {
    hide ParseUnicode;
    if s[0] != '\"' {
      if s[0] != '\\' {
        DecodedClosed(s[1..]);
      } else if s[1] != 'u' {
        DecodedClosed(s[2..]);
      } else {
        DecodeAtUnicode(s);
        var u := ParseUnicode(s[2..]);
        DecodedClosed(s[2 + u.used..]);
        assert s[2..][u.used..] == s[2 + u.used..];
        LiteralBack(s[2..]);
      }
    }
  }

  /** A literal that is closed after an escape \u is closed. */
  lemma LiteralBack(u: string)
    requires ParseUnicode(u).Bytes? && M.LiteralLength(u[ParseUnicode(u).used..]).Some?
    ensures M.LiteralLength(u).Some?
  {
    hide M.LiteralLength, Utf8, ParseHex4;
    HexPlain(u);
    if ParseUnicode(u).used == 10 {
      HexPlain(u[6..]);
      assert u[6..][4..] == u[10..];
      LiteralPlainBack(u[6..], 4);
      var t := u[4..];
      assert t[2..] == u[6..];
      LiteralEscapeBack(t);
    }
    LiteralPlainBack(u, 4);
  }

  lemma {:induction false} LiteralPlainBack(s: string, k: nat)
    requires k <= |s| && M.LiteralLength(s[k..]).Some? && forall i :: 0 <= i < k ==> s[i] != '\"' && s[i] != '\\'
    ensures M.LiteralLength(s).Some?
  {
    if k > 0 {
      assert s[1..][k - 1..] == s[k..];
      LiteralPlainBack(s[1..], k - 1);
    } else {
      assert s[0..] == s;
    }
  }

  lemma LiteralEscapeBack(s: string)
    requires |s| >= 2 && s[0] == '\\' && M.LiteralLength(s[2..]).Some?
    ensures M.LiteralLength(s).Some?
  {
  }

  lemma StringDefined(s: string)
    requires ParseString(s).Ok?
    ensures M.Minified(s).Some? <==> !OpenLiteral(s) && M.Minified(ParseString(s).rest).Some?
    ensures ParseString(s).rest != "" ==> !OpenLiteral(s)
  {
    hide Decode, M.LiteralLength;
    if ParseString(s).rest != "" {
      DecodedClosed(s[1..]);
    }
    if !OpenLiteral(s) {
      var n := M.LiteralLength(s[1..]).value;
      DecodeLocal(s[1..], "");
      assert s[1..][n..] == s[n + 1..];
    }
  }

  lemma NumberDefined(s: string)
    requires At(s, '-') || AtDigit(s)
    ensures M.Minified(s).Some? <==> M.Minified(ParseNumber(s).1).Some?
  {
    NumberSplit(s);
    FlatPlain(TextOf(s));
    hide ParseNumber, TextOf, Flat, Shaped, Value, M.Minified;
    PlainDefined(Flat(TextOf(s)), ParseNumber(s).1);
  }

  /** Where a value was parsed, the minifier stays inside the text exactly when it does so after the value and the
      value is no open literal. */
  lemma {:induction false} ValueDefined(s: string)
    requires ParseValue(s).Ok?
    ensures M.Minified(s).Some? <==> !OpenLiteral(s) && M.Minified(ParseValue(s).rest).Some?
    decreases |s|, 1
  {
    hide OpenLiteral, M.Minified, ParseString, ParseNumber, ParseItems, ParseMembers, Skip;
    NotOpen(s);
    if "null" <= s {
      assert s == "null" + s[4..];
      PlainDefined("null", s[4..]);
    } else if "false" <= s {
      assert s == "false" + s[5..];
      PlainDefined("false", s[5..]);
    } else if "true" <= s {
      assert s == "true" + s[4..];
      PlainDefined("true", s[4..]);
    } else if At(s, '\"') {
      StringDefined(s);
    } else if At(s, '-') || AtDigit(s) {
      NumberDefined(s);
    } else if At(s, '[') {
      ValueAtBracket(s);
      MarkDefined(s);
      SkipDefined(s[1..]);
      var t := Skip(s[1..]);
      if At(t, ']') {
        MarkDefined(t);
      } else {
        SkipDefined(t);
        SkipShorter(s);
        ItemsDefined(Skip(t));
      }
    } else {
      ValueAtBrace(s);
      MarkDefined(s);
      SkipDefined(s[1..]);
      var t := Skip(s[1..]);
      if At(t, '}') {
        MarkDefined(t);
      } else {
        SkipDefined(t);
        SkipShorter(s);
        MembersDefined(Skip(t));
      }
    }
  }

  lemma NotOpen(s: string)
    ensures OpenLiteral(s) ==> At(s, '\"')
  {
  }

  lemma SkipShorter(s: string)
    requires s != ""
    ensures |Skip(Skip(s[1..]))| < |s|
  {
  }

  lemma {:induction false} ItemsDefined(s: string)
    requires ParseItems(s).Ok?
    ensures M.Minified(s).Some? <==> M.Minified(ParseItems(s).rest).Some?
    decreases |s|, 2
  {
    hide ParseValue, ParseItems, ParseMoreItems, Skip, M.Minified, OpenLiteral;
    ItemsFirst(s);
    ValueDefined(s);
    var r := ParseValue(s).rest;
    var t := Skip(r);
    MoreItemsStart(t);
    SkipDefined(r);
    ClosedBefore(s);
    MarkDefined(t);
    if At(t, ',') {
      SkipDefined(t[1..]);
      ItemsDefined(Skip(t[1..]));
      CommaItems(t);
    } else {
      BracketItems(t);
    }
  }

  /** A value that is followed by something is no open literal. */
  lemma ClosedBefore(s: string)
    requires ParseValue(s).Ok? && Skip(ParseValue(s).rest) != ""
    ensures !OpenLiteral(s)
  {
    hide ParseString, ParseItems, ParseMembers, ParseNumber, OpenLiteral;
    NotOpen(s);
    if At(s, '\"') {
      StringDefined(s);
    }
  }

  lemma CommaItems(t: string)
    requires At(t, ',')
    ensures ParseMoreItems(t) == ParseItems(Skip(t[1..]))
  {
    hide ParseItems, Skip;
  }

  lemma BracketItems(t: string)
    requires At(t, ']')
    ensures ParseMoreItems(t) == Ok(NoItems, t[1..])
  {
  }

  lemma {:induction false} PairDefined(s: string)
    requires ParsePair(s).Ok? && Skip(ParsePair(s).rest) != ""
    ensures M.Minified(s).Some? <==> M.Minified(ParsePair(s).rest).Some?
    decreases |s|, 2
  {
    hide ParseString, ParsePair, ParseValue, Skip, M.Minified, OpenLiteral;
    PairParts(s);
    StringDefined(s);
    var r := ParseString(s).rest;
    var t := Skip(r);
    SkipDefined(r);
    SkipEmpty();
    MarkDefined(t);
    SkipDefined(t[1..]);
    ValueDefined(Skip(t[1..]));
    ClosedBefore(Skip(t[1..]));
  }

  lemma SkipEmpty()
    ensures Skip("") == ""
  {
  }

  lemma {:induction false} MembersDefined(s: string)
    requires ParseMembers(s).Ok?
    ensures M.Minified(s).Some? <==> M.Minified(ParseMembers(s).rest).Some?
    decreases |s|, 3
  {
    hide ParsePair, ParseMembers, ParseMoreMembers, Skip, M.Minified;
    MembersFirst(s);
    var r := ParsePair(s).rest;
    var t := Skip(r);
    MoreMembersStart(t);
    PairDefined(s);
    SkipDefined(r);
    MarkDefined(t);
    if At(t, ',') {
      SkipDefined(t[1..]);
      MembersDefined(Skip(t[1..]));
      CommaMembers(t);
    } else {
      BraceMembers(t);
    }
  }

  lemma CommaMembers(t: string)
    requires At(t, ',')
    ensures ParseMoreMembers(t) == ParseMembers(Skip(t[1..]))
  {
    hide ParseMembers, Skip;
  }

  lemma BraceMembers(t: string)
    requires At(t, '}')
    ensures ParseMoreMembers(t) == Ok(NoMembers, t[1..])
  {
  }

  // ----- Whole texts -----

  /** On a text that parses as a whole, the minifier stays inside the text exactly when the text is not one open
      literal. */
  lemma MinifyDefined(s: string)
    requires Parse(s, true).Ok?
    ensures M.Minified(s).Some? <==> !OpenLiteral(Skip(s))
  {
    hide ParseValue, Skip, M.Minified, OpenLiteral;
    SkipDefined(s);
    ValueDefined(Skip(s));
    SkipDefined(ParseValue(Skip(s)).rest);
    MinNothing();
  }

  /** A text that parses as a whole, and is not one open literal, parses to the same tree once minified. */
  lemma MinifyKeepsMeaning(s: string)
    requires Parse(s, true).Ok? && !OpenLiteral(Skip(s))
    ensures M.Minified(s).Some? && Parse(Min(s), true) == Ok(Parse(s, true).value, "")
  {
    hide ParseValue, Skip, M.Minified, OpenLiteral;
    MinifyDefined(s);
    ValueStarts(Skip(s));
    MinSkip(s);
    MinValue(Skip(s));
    var r := ParseValue(Skip(s)).rest;
    MinSkip(r);
    MinNothing();
    TerminatedBySkip(Min(r));
    TerminatedStops(PhaseOf(TextOf(Skip(s))), Min(r));
  }

  /** An open literal parses as a whole, and the minifier runs past its end. */
  lemma OpenLiteralParses()
    ensures Parse("\"a", true) == Ok(Str("a"), "") && M.Minified("\"a").None?
  {
    var s := "\"a";
    assert s[1..] == "a" && "a"[1..] == "";
    DecodeOne('a', "");
    assert ['a'] + "" == "a";
    assert ParseValue(s) == Ok(Str("a"), "");
    assert OpenLiteral(s) && Skip(s) == s;
    MinifyDefined(s);
  }

  /**
   Without the check for trailing text: where the minifier stays inside the text, the minified text parses
   to the same tree, followed by the minified rest, exactly when that rest does not continue a number.
   */
  lemma MinifyPartly(s: string)
    requires Parse(s, false).Ok? && M.Minified(s).Some?
    ensures M.Minified(Parse(s, false).rest).Some?
    ensures var v, y := Parse(s, false).value, Min(Parse(s, false).rest);
      Parse(Min(s), false) == Ok(v, y) <==> (v.Number? ==> !Continues(PhaseOf(TextOf(Skip(s))), y))
  {
    hide ParseValue, Skip, M.Minified, Continues, PhaseOf, TextOf;
    ValueStarts(Skip(s));
    MinSkip(s);
    MinValue(Skip(s));
  }

  lemma MinNothing()
    ensures M.Minified("") == Some("")
  {
  }

  lemma ParseOneNumber(n: nat, rest: string)
    requires CannotExtend(rest)
    ensures Parse(Digits(n) + rest, false) == Ok(Number(n, 0), rest)
  {
    hide ParseNumber;
    var s := Digits(n) + rest;
    ParseDecimal(n, rest);
    FirstDigit(n);
    assert s[0] == Digits(n)[0];
    SkipNothing(s);
  }

  /** Without the check for trailing text it need not: what ended a number may be gone. */
  lemma MinifyJoinsNumbers()
    ensures Parse("1" + " 2", false) == Ok(Number(1, 0), " 2")
    ensures M.Minified("1" + " 2") == Some("12") && Parse("12" + "", false) == Ok(Number(12, 0), "")
  {
    assert Digits(1) == "1" && Digits(12) == Digits(1) + [Digit(2)] == "12";
    ParseOneNumber(1, " 2");
    ParseOneNumber(12, "");
    MinifiedGap();
  }

  lemma MinifiedGap()
    ensures M.Minified("1" + " 2") == Some("12")
  {
    hide M.Minified;
    MinNothing();
    M.ShrinksPlain("1");
    M.ShrinksBlank(" ");
    M.ShrinksPlain("2");
    assert "1" + " 2" == "1" + (" " + ("2" + ""));
    assert "1" + ("" + ("2" + "")) == "12";
  }
}
