/**
 Which texts cJSON reads: a value is read from a text exactly when the text starts with one of the wide grammar that
 what follows does not continue.
 */
module JsonAccepted {

  import opened Json
  import opened JsonText
  import opened JsonParse
  import opened JsonNumbers
  import opened JsonMeaning
  import opened JsonGrammar

  // ----- Blanks, strings and numbers -----

  /** The blanks that Skip passes. */
  lemma {:induction false} SkippedWs(s: string) returns (b: string)
    ensures IsWs(b, false) && s == b + Skip(s)
  {
    if s != "" && s[0] as int <= 32 {
      b := SkippedWs(s[1..]);
      b := [s[0]] + b;
      assert s == [s[0]] + s[1..];
    } else {
      b := "";
    }
  }

  lemma HexFront(s: string)
    requires AtHex4(s)
    ensures IsPiece(Unit(s[..4]), false)
  {
    HexDigitSame(s[0]);
    HexDigitSame(s[1]);
    HexDigitSame(s[2]);
    HexDigitSame(s[3]);
  }

  /** What an escape \u takes is one code unit, or two with the mark between them. */
  lemma UnicodeUsed(s: string)
    requires ParseUnicode(s).Bytes?
    ensures var used := ParseUnicode(s).used;
      && |s| >= used && IsPiece(Unit(s[..4]), false)
      && (used == 4 || (used == 10 && s[4] == '\\' && s[5] == 'u' && IsPiece(Unit(s[6..10]), false)))
  {
    HexFront(s);
    hide AtHex4, ParseHex4, Utf8, IsPiece;
    if ParseUnicode(s).used == 10 {
      HexFront(s[6..]);
      assert s[6..][..4] == s[6..10];
    }
  }

  lemma DecodeStep(s: string)
    requires s != "" && s[0] != '\"' && Decode(s).Ok?
    ensures s[0] != '\\' ==> Decode(s[1..]).Ok? && Decode(s).rest == Decode(s[1..]).rest
    ensures s[0] == '\\' ==> |s| >= 2
    ensures s[0] == '\\' && s[1] != 'u' ==> Decode(s[2..]).Ok? && Decode(s).rest == Decode(s[2..]).rest
    ensures s[0] == '\\' && s[1] == 'u' ==>
      var u := ParseUnicode(s[2..]);
      u.Bytes? && u.used <= |s| - 2 && Decode(s[2 + u.used..]).Ok? && Decode(s).rest == Decode(s[2 + u.used..]).rest
  {
    hide ParseUnicode;
  }

  /** The pieces of a string that was decoded; it is closed, or it ends the text. */
  lemma {:induction false} AcceptedPieces(s: string) returns (ps: seq<Piece>, closed: bool)
    requires Decode(s).Ok?
    ensures ArePieces(ps, false) && (closed || Decode(s).rest == "")
    ensures s == PutPieces(ps, closed, Decode(s).rest)
    decreases |s|
  {
    hide Decode, ParseUnicode, PutPieces, ArePieces, IsPiece;
    if s == "" || s[0] == '\"' {
      NoPieces(s);
      return [], s != "";
    }
    DecodeStep(s);
    var rest := Decode(s).rest;
    if s[0] != '\\' {
      ps, closed := AcceptedPieces(s[1..]);
      ps := AddPiece(Plain(s[0]), ps, closed, s, 1, rest);
    } else if s[1] != 'u' {
      ps, closed := AcceptedPieces(s[2..]);
      ps := AddPiece(Short(s[1]), ps, closed, s, 2, rest);
    } else {
      UnicodeUsed(s[2..]);
      if ParseUnicode(s[2..]).used == 4 {
        ps, closed := AcceptedPieces(s[6..]);
      } else {
        ps, closed := AcceptedPieces(s[12..]);
        ps := AddUnit(ps, closed, s[6..], s[2..][6..10], rest);
      }
      ps := AddUnit(ps, closed, s, s[2..][..4], rest);
    }
  }

  lemma NoPieces(s: string)
    requires s == "" || s[0] == '\"'
    ensures ArePieces([], false) && s == PutPieces([], s != "", Decode(s).rest) && (s == "" ==> Decode(s).rest == "")
  {
    assert s != "" ==> s == "\"" + s[1..];
  }

  /** A piece of one or two characters in front. */
  lemma AddPiece(p: Piece, ps: seq<Piece>, closed: bool, s: string, n: nat, rest: string) returns (more: seq<Piece>)
    requires ArePieces(ps, false) && n <= |s| && s[n..] == PutPieces(ps, closed, rest)
    requires match p
      case Plain(c) => n == 1 && s[0] == c && c != '\\' && c != '\"'
      case Short(c) => n == 2 && s[0] == '\\' && s[1] == c && c != 'u'
      case Unit(_) => s == PutPiece(p, s[n..]) && IsPiece(p, false)
    ensures ArePieces(more, false) && s == PutPieces(more, closed, rest)
  {
    more := [p] + ps;
    assert more[1..] == ps;
    assert s == PutPiece(p, s[n..]);
  }

  /** Four hex digits with their mark in front. */
  lemma AddUnit(ps: seq<Piece>, closed: bool, s: string, h: string, rest: string) returns (more: seq<Piece>)
    requires ArePieces(ps, false) && |s| >= 6 && s[6..] == PutPieces(ps, closed, rest)
    requires s[0] == '\\' && s[1] == 'u' && h == s[2..6] && IsPiece(Unit(h), false)
    ensures ArePieces(more, false) && s == PutPieces(more, closed, rest)
  {
    hide ArePieces, IsPiece, PutPieces;
    assert s == ['\\', 'u'] + (h + s[6..]);
    more := AddPiece(Unit(h), ps, closed, s, 6, rest);
  }

  lemma AcceptedNum(s: string) returns (n: Num)
    requires At(s, '-') || AtDigit(s)
    ensures IsNum(n, false) && s == PutNum(n) + ParseNumber(s).1 && !Continues(PhaseOf(Parts(n)), ParseNumber(s).1)
  {
    var t := TextOf(s);
    NumberSplit(s);
    n := Num(t.minus, t.whole, FractionDigits(t.fraction), if t.mark == "" then "" else t.mark[..1],
             if t.mark == "" then "" else t.mark[1..], t.digits);
    FlatStarts(t, s, ParseNumber(s).1);
    hide ParseNumber, TextOf, Value, Continues, PhaseOf, Flat;
    PartsBack(t, n);
    NumberSame(n);
  }

  /** A number text at a minus or a digit has one of them. */
  lemma FlatStarts(t: NumberText, s: string, r: string)
    requires Shaped(t) && s == Flat(t) + r && Flat(t) != "" && (At(s, '-') || AtDigit(s))
    ensures t.minus == "" ==> t.whole != ""
  {
    assert s[0] == Flat(t)[0];
    NoDigitFirst(t);
  }

  lemma NoDigitFirst(t: NumberText)
    requires Shaped(t) && Flat(t) != ""
    ensures t.minus == "" && t.whole == "" ==> Flat(t)[0] == '.' || Flat(t)[0] == 'e' || Flat(t)[0] == 'E'
  {
    var x := t.mark + t.digits;
    var f := t.fraction + x;
    assert t.minus == "" && t.whole == "" ==> Flat(t) == f;
    assert t.fraction != "" ==> f[0] == '.';
    assert t.fraction == "" ==> f == x;
    assert t.mark != "" ==> x[0] == t.mark[0];
  }

  lemma PartsBack(t: NumberText, n: Num)
    requires Shaped(t) && (t.minus == "" ==> t.whole != "")
    requires n == Num(t.minus, t.whole, FractionDigits(t.fraction), if t.mark == "" then "" else t.mark[..1],
                      if t.mark == "" then "" else t.mark[1..], t.digits)
    ensures Parts(n) == t && IsNum(n, false)
  {
    DigitsSame(n.whole);
    DigitsSame(n.fraction);
    DigitsSame(n.digits);
    assert AllDigits("");
    hide AreDigits, AllDigits;
    assert t.fraction != "" ==> t.fraction == "." + t.fraction[1..];
    assert t.mark != "" ==> t.mark == t.mark[..1] + t.mark[1..];
    assert t.mark != "" ==> n.mark == "e" || n.mark == "E";
    assert |t.mark| == 2 ==> t.mark[1..] == [t.mark[1]];
  }

  // ----- Values -----

  /** The text that a value was read from. */
  lemma {:induction false} AcceptedText(s: string) returns (t: Text)
    requires ParseValue(s).Ok?
    ensures IsText(t, false) && Follows(t, ParseValue(s).rest) && s == Put(t, ParseValue(s).rest)
    decreases |s|, 1
  {
    hide ParseString, ParseNumber, ParseItems, ParseMembers, Skip, PutNum, PutPieces, IsNum, Continues, PhaseOf, Parts;
    if "null" <= s {
      t := TNull;
      assert s == "null" + s[4..];
    } else if "false" <= s {
      t := TFalse;
      assert s == "false" + s[5..];
    } else if "true" <= s {
      t := TTrue;
      assert s == "true" + s[4..];
    } else if At(s, '\"') {
      t := AcceptedString(s);
    } else if At(s, '-') || AtDigit(s) {
      var n := AcceptedNum(s);
      t := TNumber(n);
    } else if At(s, '[') {
      t := AcceptedArray(s);
    } else {
      t := AcceptedObject(s);
    }
  }

  lemma AcceptedString(s: string) returns (t: Text)
    requires At(s, '\"') && ParseString(s).Ok?
    ensures t.TString? && IsText(t, false) && Follows(t, ParseString(s).rest) && s == Put(t, ParseString(s).rest)
  {
    hide Decode, PutPieces;
    var ps, closed := AcceptedPieces(s[1..]);
    t := TString(ps, closed);
    assert s == "\"" + s[1..];
  }

  lemma {:induction false} AcceptedArray(s: string) returns (t: Text)
    requires At(s, '[') && ParseValue(s).Ok?
    ensures t.TArray? && IsText(t, false) && s == Put(t, ParseValue(s).rest)
    decreases |s|, 0
  {
    hide ParseValue, ParseItems, PutItems, AreItems, Skip;
    ValueAtBracket(s);
    var u := Skip(s[1..]);
    var b := SkippedWs(s[1..]);
    SkipTwice(s[1..]);
    assert s == "[" + (b + u);
    if At(u, ']') {
      NoneAre();
      t := TArray(b, TNoItems);
      assert u == "]" + u[1..];
    } else {
      var items := AcceptedItems(u, b);
      t := TArray("", items);
    }
  }

  lemma {:induction false} AcceptedObject(s: string) returns (t: Text)
    requires At(s, '{') && ParseValue(s).Ok?
    ensures t.TObject? && IsText(t, false) && s == Put(t, ParseValue(s).rest)
    decreases |s|, 0
  {
    hide ParseValue, ParseMembers, PutMembers, AreMembers, Skip;
    ValueAtBrace(s);
    var u := Skip(s[1..]);
    var b := SkippedWs(s[1..]);
    SkipTwice(s[1..]);
    assert s == "{" + (b + u);
    if At(u, '}') {
      NoneAre();
      t := TObject(b, TNoMembers);
      assert u == "}" + u[1..];
    } else {
      var members := AcceptedMembers(u, b);
      t := TObject("", members);
    }
  }

  /** Items and the closing bracket, with the blanks that were skipped before them. */
  lemma {:induction false} AcceptedItems(s: string, before: string) returns (items: TItems)
    requires ParseItems(s).Ok? && IsWs(before, false)
    ensures items.TItem? && AreItems(items, false) && before + s == PutItems(items, ParseItems(s).rest)
    decreases |s|, 2
  {
    hide ParseValue, ParseItems, ParseMoreItems, Skip, Put, IsText, IsWs;
    ItemsFirst(s);
    var t := AcceptedText(s);
    var r := ParseValue(s).rest;
    var after := SkippedWs(r);
    var next := AcceptedMoreItems(Skip(r));
    FollowsClosed(t, r);
    items := TItem(before, t, after, next);
  }

  lemma {:induction false} AcceptedMoreItems(u: string) returns (items: TItems)
    requires ParseMoreItems(u).Ok?
    ensures AreItems(items, false) && u == PutMoreItems(items, ParseMoreItems(u).rest) && u != ""
    decreases |u|, 0
  {
    hide ParseItems, ParseMoreItems, Skip, PutItems, AreItems;
    MoreItemsStart(u);
    assert u == [u[0]] + u[1..];
    if At(u, ',') {
      CommaItems(u);
      var b := SkippedWs(u[1..]);
      items := AcceptedItems(Skip(u[1..]), b);
    } else {
      BracketItems(u);
      items := TNoItems;
      NoneAre();
    }
  }

  lemma NoneAre()
    ensures AreItems(TNoItems, false) && AreMembers(TNoMembers, false)
  {
  }

  lemma FollowsClosed(t: Text, r: string)
    requires Follows(t, r) && r != ""
    ensures Closed(t)
  {
  }

  /** Members and the closing brace, with the blanks that were skipped before them. */
  lemma {:induction false} AcceptedMembers(s: string, before: string) returns (members: TMembers)
    requires ParseMembers(s).Ok? && IsWs(before, false)
    ensures members.TMember? && AreMembers(members, false) && before + s == PutMembers(members, ParseMembers(s).rest)
    decreases |s|, 3
  {
    hide ParsePair, ParseMembers, ParseMoreMembers, Skip, Put, PutPieces, IsText, IsWs, ArePieces;
    MembersFirst(s);
    var r := ParsePair(s).rest;
    var after := SkippedWs(r);
    var next := AcceptedMoreMembers(Skip(r));
    var name, behind, ahead, t := AcceptedPair(s);
    FollowsClosed(t, r);
    members := TMember(before, name, behind, ahead, t, after, next);
  }

  lemma {:induction false} AcceptedMoreMembers(u: string) returns (members: TMembers)
    requires ParseMoreMembers(u).Ok?
    ensures AreMembers(members, false) && u == PutMoreMembers(members, ParseMoreMembers(u).rest) && u != ""
    decreases |u|, 0
  {
    hide ParseMembers, ParseMoreMembers, Skip, PutMembers, AreMembers;
    MoreMembersStart(u);
    assert u == [u[0]] + u[1..];
    if At(u, ',') {
      CommaMembers(u);
      var b := SkippedWs(u[1..]);
      members := AcceptedMembers(Skip(u[1..]), b);
    } else {
      BraceMembers(u);
      members := TNoMembers;
      NoneAre();
    }
  }

  lemma {:induction false} AcceptedPair(s: string)
    returns (name: seq<Piece>, behind: string, ahead: string, t: Text)
    requires ParsePair(s).Ok?
    ensures ArePieces(name, false) && IsWs(behind, false) && IsWs(ahead, false) && IsText(t, false)
    ensures Follows(t, ParsePair(s).rest) && s == PutPair(name, behind, ahead, t, ParsePair(s).rest)
    decreases |s|, 2
  {
    hide ParsePair, ParseString, ParseValue, Skip, Put, PutPieces, IsText, IsWs, ArePieces, Follows;
    PairParts(s);
    var r := ParseString(s).rest;
    var u := Skip(r);
    StringAtQuote(s);
    var closed;
    name, closed := AcceptedName(s);
    behind := SkippedWs(r);
    assert u == ":" + u[1..];
    ahead := SkippedWs(u[1..]);
    t := AcceptedText(Skip(u[1..]));
  }

  lemma StringAtQuote(s: string)
    requires ParseString(s).Ok?
    ensures At(s, '\"')
  {
  }

  lemma AcceptedName(s: string) returns (name: seq<Piece>, closed: bool)
    requires At(s, '\"') && ParseString(s).Ok?
    ensures ArePieces(name, false) && (closed || ParseString(s).rest == "")
    ensures s == "\"" + PutPieces(name, closed, ParseString(s).rest)
  {
    hide Decode, PutPieces, ArePieces;
    name, closed := AcceptedPieces(s[1..]);
    assert s == "\"" + s[1..];
  }

  // ----- Exactly these -----

  /** A value is read, with a rest, exactly from the wide texts before that rest which it may follow. */
  lemma ReadsExactly(s: string, v: Json, rest: string)
    ensures ParseValue(s) == Ok(v, rest) <==>
      exists t :: IsText(t, false) && Follows(t, rest) && s == Put(t, rest) && v == TreeOf(t)
  {
    hide ParseValue, Put, IsText, TreeOf, Follows;
    if ParseValue(s) == Ok(v, rest) {
      var t := AcceptedText(s);
      ParseText(t, rest);
    }
    if t: Text :| IsText(t, false) && Follows(t, rest) && s == Put(t, rest) && v == TreeOf(t) {
      ParseText(t, rest);
    }
  }

  /** A whole text is accepted exactly when it is a wide text between blanks, and then its tree is that of the text. */
  lemma AcceptsExactly(s: string, v: Json)
    ensures Parse(s, true) == Ok(v, "") <==>
      exists before, t, after :: IsWs(before, false) && IsText(t, false) && IsWs(after, false)
        && Follows(t, after) && s == before + Put(t, after) && v == TreeOf(t)
  {
    hide ParseValue, Put, IsText, TreeOf, Follows, Skip, Starts;
    if Parse(s, true) == Ok(v, "") {
      var before := SkippedWs(s);
      var t := AcceptedText(Skip(s));
      var after := ParseValue(Skip(s)).rest;
      var a := SkippedWs(after);
      ParseText(t, after);
      assert a + "" == a;
      assert s == before + Put(t, after) && v == TreeOf(t) && after == a;
    }
    if before, t, after :|
      IsWs(before, false) && IsText(t, false) && IsWs(after, false)
      && Follows(t, after) && s == before + Put(t, after) && v == TreeOf(t)
    {
      TextStarts(t, after);
      ParseText(t, after);
      ReadWhole(before, Put(t, after), v, after);
    }
  }
}
