/**
 Where cJSON leaves its error pointer: at the first place where neither a value nor the mark that is due stands, behind
 a text of the wide grammar that is complete up to there.
 */
module JsonErrors {

  import opened Json
  import opened JsonText
  import opened JsonParse
  import opened JsonNumbers
  import opened JsonMeaning
  import opened JsonGrammar
  import opened JsonAccepted

  // ----- Texts that break off -----

  /** A value that breaks off: where it should start, or inside an array or an object. */
  datatype Broken = AtValue | InArray(items: BrokenItems) | InObject(members: BrokenMembers)

  /** Items that break off: inside one, behind one and its comma, or where a comma or a bracket is due. */
  datatype BrokenItems =
    | InItem(before: string, broken: Broken)
    | ItemThen(before: string, value: Text, after: string, next: BrokenItems)
    | NoComma(before: string, value: Text, after: string)

  /** Members that break off: where a name or a colon is due, inside a value, behind a member and its comma, or where a
      comma or a brace is due. */
  datatype BrokenMembers =
    | NoName(before: string)
    | NoColon(before: string, name: seq<Piece>, closed: bool, behind: string)
    | InValue(before: string, name: seq<Piece>, behind: string, ahead: string, broken: Broken)
    | MemberThen(before: string, name: seq<Piece>, behind: string, ahead: string, value: Text, after: string,
                 next: BrokenMembers)
    | NoMore(before: string, name: seq<Piece>, behind: string, ahead: string, value: Text, after: string)

  /** What is written up to there, and then the text at. */
  function PutBroken(b: Broken, at: string): string
    decreases b
  {
    match b
    case AtValue => at
    case InArray(items) => "[" + PutBrokenItems(items, at)
    case InObject(members) => "{" + PutBrokenMembers(members, at)
  }

  function PutBrokenItems(items: BrokenItems, at: string): string
    decreases items
  {
    match items
    case InItem(before, broken) => before + PutBroken(broken, at)
    case ItemThen(before, value, after, next) => before + Put(value, after + ("," + PutBrokenItems(next, at)))
    case NoComma(before, value, after) => before + Put(value, after + at)
  }

  function PutBrokenMembers(members: BrokenMembers, at: string): string
    decreases members
  {
    match members
    case NoName(before) => before + at
    case NoColon(before, name, closed, behind) => before + ("\"" + PutPieces(name, closed, behind + at))
    case InValue(before, name, behind, ahead, broken) =>
      before + ("\"" + PutPieces(name, true, behind + (":" + (ahead + PutBroken(broken, at)))))
    case MemberThen(before, name, behind, ahead, value, after, next) =>
      before + PutPair(name, behind, ahead, value, after + ("," + PutBrokenMembers(next, at)))
    case NoMore(before, name, behind, ahead, value, after) =>
      before + PutPair(name, behind, ahead, value, after + at)
  }

  /** No value starts here. */
  predicate NoValue(at: string) {
    at == "" ||
    (at[0] !in "\"-0123456789[{" && !("null" <= at) && !("false" <= at) && !("true" <= at))
  }

  predicate Due(at: string) {
    at == "" || at[0] as int > 32
  }

  predicate DueBut(at: string, c: char, d: char) {
    at == "" || (at[0] as int > 32 && at[0] != c && at[0] != d)
  }

  /** What stands at the break is none of what is due there. */
  predicate IsBroken(b: Broken, at: string)
    decreases b
  {
    match b
    case AtValue => NoValue(at)
    case InArray(items) => AreBrokenItems(items, at) && (items.InItem? && items.broken.AtValue? ==> !At(at, ']'))
    case InObject(members) => AreBrokenMembers(members, at) && (members.NoName? ==> !At(at, '}'))
  }

  predicate AreBrokenItems(items: BrokenItems, at: string)
    decreases items
  {
    match items
    case InItem(before, broken) => IsWs(before, false) && IsBroken(broken, at) && (broken.AtValue? ==> Due(at))
    case ItemThen(before, value, after, next) =>
      IsWs(before, false) && IsText(value, false) && Closed(value) && IsWs(after, false) && AreBrokenItems(next, at)
    case NoComma(before, value, after) =>
      IsWs(before, false) && IsText(value, false) && IsWs(after, false) && DueBut(at, ',', ']')
      && Follows(value, after + at)
  }

  predicate AreBrokenMembers(members: BrokenMembers, at: string)
    decreases members
  {
    match members
    case NoName(before) => IsWs(before, false) && DueBut(at, '\"', '\"')
    case NoColon(before, name, closed, behind) =>
      IsWs(before, false) && ArePieces(name, false) && IsWs(behind, false) && DueBut(at, ':', ':')
      && (closed || behind + at == "")
    case InValue(before, name, behind, ahead, broken) =>
      IsWs(before, false) && ArePieces(name, false) && IsWs(behind, false) && IsWs(ahead, false)
      && IsBroken(broken, at) && (broken.AtValue? ==> Due(at))
    case MemberThen(before, name, behind, ahead, value, after, next) =>
      IsWs(before, false) && ArePieces(name, false) && IsWs(behind, false) && IsWs(ahead, false)
      && IsText(value, false) && Closed(value) && IsWs(after, false) && AreBrokenMembers(next, at)
    case NoMore(before, name, behind, ahead, value, after) =>
      IsWs(before, false) && ArePieces(name, false) && IsWs(behind, false) && IsWs(ahead, false)
      && IsText(value, false) && IsWs(after, false) && DueBut(at, ',', '}') && Follows(value, after + at)
  }

  // ----- They fail at the break -----

  lemma NoValueFails(at: string)
    requires NoValue(at)
    ensures ParseValue(at) == Fail(at)
  {
    if at != "" {
      DigitSame(at[0]);
      FirstOfValue(at[0]);
      hide ParseNumber, ParseString, ParseItems, ParseMembers, Skip, IsDigit, IsDecimalDigit;
    }
  }

  lemma FirstOfValue(c: char)
    ensures c in "\"-0123456789[{" <==> c == '\"' || c == '-' || IsDecimalDigit(c) || c == '[' || c == '{'
  {
  }

  lemma DueStays(at: string)
    requires Due(at)
    ensures Skip(at) == at
  {
  }

  /** A value that breaks off is read up to the break, and no further. */
  lemma {:induction false} BrokenFails(b: Broken, at: string)
    requires IsBroken(b, at)
    ensures ParseValue(PutBroken(b, at)) == Fail(at)
    decreases b, 0
  {
    hide ParseValue, Skip, NoValue, PutBrokenItems, PutBrokenMembers, AreBrokenItems, AreBrokenMembers;
    match b
    case AtValue => NoValueFails(at);
    case InArray(items) =>
      BrokenItemsFail(items, at);
      ArrayFails(PutBrokenItems(items, at), at);
    case InObject(members) =>
      BrokenMembersFail(members, at);
      ObjectFails(PutBrokenMembers(members, at), at);
  }

  lemma ArrayFails(s: string, at: string)
    requires ParseItems(Skip(s)) == Fail(at) && !At(Skip(s), ']')
    ensures ParseValue("[" + s) == Fail(at)
  {
    hide ParseValue, ParseItems, Skip;
    assert ("[" + s)[1..] == s;
    ValueAtBracket("[" + s);
    SkipTwice(s);
  }

  lemma ObjectFails(s: string, at: string)
    requires ParseMembers(Skip(s)) == Fail(at) && !At(Skip(s), '}')
    ensures ParseValue("{" + s) == Fail(at)
  {
    hide ParseValue, ParseMembers, Skip;
    assert ("{" + s)[1..] == s;
    ValueAtBrace("{" + s);
    SkipTwice(s);
  }

  /** What a break behind a value can stand before. */
  lemma BrokenStarts(b: Broken, at: string)
    requires IsBroken(b, at) && (b.AtValue? ==> Due(at))
    ensures Skip(PutBroken(b, at)) == PutBroken(b, at)
    ensures At(PutBroken(b, at), ']') ==> b.AtValue? && At(at, ']')
  {
    hide PutBrokenItems, PutBrokenMembers, AreBrokenItems, AreBrokenMembers, NoValue;
    if b.AtValue? {
      DueStays(at);
    } else {
      SkipNothing(PutBroken(b, at));
    }
  }

  lemma {:induction false} BrokenItemsFail(items: BrokenItems, at: string)
    requires AreBrokenItems(items, at)
    ensures ParseItems(Skip(PutBrokenItems(items, at))) == Fail(at)
    ensures At(Skip(PutBrokenItems(items, at)), ']') ==> items.InItem? && items.broken.AtValue? && At(at, ']')
    decreases items, 0
  {
    hide ParseValue, ParseItems, ParseMoreItems, Put, PutBroken, IsText, IsBroken, TreeOf, Skip, Starts, Ends, Follows,
      Closed;
    match items
    case InItem(before, broken) =>
      BrokenFails(broken, at);
      BrokenStarts(broken, at);
      WsSkipped(before, PutBroken(broken, at));
      ItemFails(PutBroken(broken, at), at);
    case ItemThen(before, value, after, next) =>
      var more := "," + PutBrokenItems(next, at);
      BrokenItemsFail(next, at);
      CommaFails(PutBrokenItems(next, at), at);
      CommaEnds(PutBrokenItems(next, at));
      WsEnds(after, more);
      EndsFollow(value, after + more);
      ItemThenFails(before, value, after, more, at);
    case NoComma(before, value, after) =>
      assert after + at == after + at;
      NoCommaFails(at);
      ItemThenFails(before, value, after, at, at);
  }

  lemma ItemFails(s: string, at: string)
    requires ParseValue(s) == Fail(at)
    ensures ParseItems(s) == Fail(at)
  {
    hide ParseValue, ParseMoreItems;
  }

  lemma CommaEnds(s: string)
    ensures Ends("," + s)
  {
  }

  lemma CommaFails(s: string, at: string)
    requires ParseItems(Skip(s)) == Fail(at)
    ensures ParseMoreItems(Skip("," + s)) == Fail(at)
  {
    hide ParseItems;
    SkipNothing("," + s);
    assert ("," + s)[1..] == s;
  }

  lemma NoCommaFails(at: string)
    requires DueBut(at, ',', ']')
    ensures ParseMoreItems(Skip(at)) == Fail(at)
  {
    hide ParseItems;
    SkipNothing(at);
  }

  /** An item that is read, and a failure behind it. */
  lemma ItemThenFails(before: string, value: Text, after: string, more: string, at: string)
    requires IsWs(before, false) && IsText(value, false) && IsWs(after, false) && Follows(value, after + more)
    requires ParseMoreItems(Skip(more)) == Fail(at)
    ensures ParseItems(Skip(before + Put(value, after + more))) == Fail(at)
    ensures !At(Skip(before + Put(value, after + more)), ']')
  {
    var s := Put(value, after + more);
    hide ParseMoreItems, Put, IsText, TreeOf, Skip, Follows;
    ParseText(value, after + more);
    TextStarts(value, after + more);
    StartsStays(s);
    WsSkipped(before, s);
    WsSkipped(after, more);
    hide ParseValue;
    assert ParseItems(s) == Fail(at);
  }

  lemma {:induction false} BrokenMembersFail(members: BrokenMembers, at: string)
    requires AreBrokenMembers(members, at)
    ensures ParseMembers(Skip(PutBrokenMembers(members, at))) == Fail(at)
    ensures At(Skip(PutBrokenMembers(members, at)), '}') ==> members.NoName? && At(at, '}')
    decreases members, 0
  {
    hide ParseValue, ParsePair, ParseMembers, ParseMoreMembers, Put, PutPair, PutPieces, PutBroken, IsText, IsBroken,
      TreeOf, StandsFor, ArePieces, Skip, Starts, Ends, Follows, Closed;
    match members
    case NoName(before) =>
      WsSkipped(before, at);
      DueStays(at);
      NoNameFails(at);
    case NoColon(before, name, closed, behind) => NoColonFails(before, name, closed, behind, at);
    case InValue(before, name, behind, ahead, broken) =>
      BrokenFails(broken, at);
      BrokenStarts(broken, at);
      InValueFails(before, name, behind, ahead, PutBroken(broken, at), at);
    case MemberThen(before, name, behind, ahead, value, after, next) =>
      var more := "," + PutBrokenMembers(next, at);
      BrokenMembersFail(next, at);
      CommaMembersFail(PutBrokenMembers(next, at), at);
      CommaEnds(PutBrokenMembers(next, at));
      WsEnds(after, more);
      EndsFollow(value, after + more);
      MemberThenFails(before, name, behind, ahead, value, after, more, at);
    case NoMore(before, name, behind, ahead, value, after) =>
      NoMoreFails(at);
      MemberThenFails(before, name, behind, ahead, value, after, at, at);
  }

  lemma NoNameFails(at: string)
    requires DueBut(at, '\"', '\"')
    ensures ParseMembers(at) == Fail(at)
  {
  }

  lemma MemberFails(s: string, at: string)
    requires ParsePair(s) == Fail(at)
    ensures ParseMembers(s) == Fail(at)
  {
    hide ParsePair, ParseMoreMembers;
  }

  lemma NoColonFails(before: string, name: seq<Piece>, closed: bool, behind: string, at: string)
    requires IsWs(before, false) && ArePieces(name, false) && IsWs(behind, false) && DueBut(at, ':', ':')
    requires closed || behind + at == ""
    ensures var s := before + ("\"" + PutPieces(name, closed, behind + at));
      ParseMembers(Skip(s)) == Fail(at) && !At(Skip(s), '}')
  {
    hide ParseValue, ParseString, ParseMembers, PutPieces, StandsFor, ArePieces, Skip;
    var s := "\"" + PutPieces(name, closed, behind + at);
    QuoteReads(name, closed, behind + at);
    WsSkipped(behind, at);
    DueStays(at);
    QuoteStarts(PutPieces(name, closed, behind + at));
    WsSkipped(before, s);
    StartsStays(s);
    assert ParsePair(s) == Fail(at);
    MemberFails(s, at);
  }

  lemma InValueFails(before: string, name: seq<Piece>, behind: string, ahead: string, v: string, at: string)
    requires IsWs(before, false) && ArePieces(name, false) && IsWs(behind, false) && IsWs(ahead, false)
    requires ParseValue(v) == Fail(at) && Skip(v) == v
    ensures var s := before + ("\"" + PutPieces(name, true, behind + (":" + (ahead + v))));
      ParseMembers(Skip(s)) == Fail(at) && !At(Skip(s), '}')
  {
    hide ParseValue, ParseString, ParseMembers, PutPieces, StandsFor, ArePieces, Skip;
    var colon := ":" + (ahead + v);
    var s := "\"" + PutPieces(name, true, behind + colon);
    QuoteReads(name, true, behind + colon);
    WsSkipped(behind, colon);
    WsSkipped(ahead, v);
    SkipNothing(colon);
    assert colon[1..] == ahead + v;
    QuoteStarts(PutPieces(name, true, behind + colon));
    WsSkipped(before, s);
    StartsStays(s);
    assert ParsePair(s) == Fail(at);
    MemberFails(s, at);
  }

  lemma CommaMembersFail(s: string, at: string)
    requires ParseMembers(Skip(s)) == Fail(at)
    ensures ParseMoreMembers(Skip("," + s)) == Fail(at)
  {
    hide ParseMembers;
    SkipNothing("," + s);
    assert ("," + s)[1..] == s;
  }

  lemma NoMoreFails(at: string)
    requires DueBut(at, ',', '}')
    ensures ParseMoreMembers(Skip(at)) == Fail(at)
  {
    hide ParseMembers;
    SkipNothing(at);
  }

  lemma MemberThenFails(before: string, name: seq<Piece>, behind: string, ahead: string, value: Text, after: string,
                        more: string, at: string)
    requires IsWs(before, false) && ArePieces(name, false) && IsWs(behind, false) && IsWs(ahead, false)
    requires IsText(value, false) && IsWs(after, false) && Follows(value, after + more)
    requires ParseMoreMembers(Skip(more)) == Fail(at)
    ensures var s := before + PutPair(name, behind, ahead, value, after + more);
      ParseMembers(Skip(s)) == Fail(at) && !At(Skip(s), '}')
  {
    hide ParseValue, ParsePair, ParseMoreMembers, Put, IsText, TreeOf, StandsFor, Skip, Follows, IsWs;
    var s := PutPair(name, behind, ahead, value, after + more);
    ParseText(value, after + more);
    PairReads(name, behind, ahead, value, after + more);
    assert At(s, '\"');
    hide PutPair;
    StartsStays(s);
    WsSkipped(before, s);
    WsSkipped(after, more);
    assert ParseMembers(s) == Fail(at);
  }

  // ----- Every failure is one of these -----

  lemma {:induction false} SkipIsDue(s: string)
    ensures Due(Skip(s)) && (Due(s) ==> Skip(s) == s)
  {
    if s != "" && s[0] as int <= 32 {
      SkipIsDue(s[1..]);
    }
  }

  lemma {:induction false} DecodeNeverFails(s: string)
    ensures !Decode(s).Fail?
    decreases |s|
  {
    if s != "" && s[0] != '\"' {
      if s[0] != '\\' {
        DecodeNeverFails(s[1..]);
      } else if |s| > 1 && s[1] != 'u' {
        DecodeNeverFails(s[2..]);
      } else if |s| > 1 && ParseUnicode(s[2..]).Bytes? {
        hide ParseUnicode;
        DecodeNeverFails(s[2 + ParseUnicode(s[2..]).used..]);
      }
    }
  }

  lemma StringFails(s: string)
    ensures ParseString(s).Fail? <==> !At(s, '\"')
    ensures ParseString(s).Fail? ==> ParseString(s).at == s
  {
    if At(s, '\"') {
      DecodeNeverFails(s[1..]);
    }
    hide Decode;
  }

  /** A failure that is not inside an array or an object is at a place where no value starts. */
  lemma FailsHere(s: string)
    requires ParseValue(s).Fail? && !At(s, '[') && !At(s, '{')
    ensures NoValue(s) && ParseValue(s).at == s
  {
    StringFails(s);
    if s != "" {
      DigitSame(s[0]);
      FirstOfValue(s[0]);
    }
    hide ParseNumber, ParseString, ParseItems, ParseMembers, Skip, IsDigit, IsDecimalDigit;
  }

  /** The break behind which a value was not read. */
  lemma {:induction false} FindBroken(s: string) returns (b: Broken)
    requires ParseValue(s).Fail?
    ensures IsBroken(b, ParseValue(s).at) && s == PutBroken(b, ParseValue(s).at)
    decreases |s|, 1
  {
    hide ParseValue, ParseItems, ParseMembers, Skip, PutBrokenItems, PutBrokenMembers, AreBrokenItems, AreBrokenMembers,
      NoValue;
    if At(s, '[') {
      b := FindBrokenArray(s);
    } else if At(s, '{') {
      b := FindBrokenObject(s);
    } else {
      FailsHere(s);
      b := AtValue;
    }
  }

  lemma {:induction false} FindBrokenArray(s: string) returns (b: Broken)
    requires At(s, '[') && ParseValue(s).Fail?
    ensures IsBroken(b, ParseValue(s).at) && s == PutBroken(b, ParseValue(s).at)
    decreases |s|, 0
  {
    hide ParseValue, ParseItems, Skip, PutBrokenItems, AreBrokenItems, Due;
    ValueAtBracket(s);
    var before := SkippedWs(s[1..]);
    SkipIsDue(s[1..]);
    SkipTwice(s[1..]);
    var items := FindBrokenItems(Skip(s[1..]), before);
    b := InArray(items);
    assert s == "[" + s[1..];
  }

  lemma {:induction false} FindBrokenObject(s: string) returns (b: Broken)
    requires At(s, '{') && ParseValue(s).Fail?
    ensures IsBroken(b, ParseValue(s).at) && s == PutBroken(b, ParseValue(s).at)
    decreases |s|, 0
  {
    hide ParseValue, ParseMembers, Skip, PutBrokenMembers, AreBrokenMembers, Due;
    ValueAtBrace(s);
    var before := SkippedWs(s[1..]);
    SkipIsDue(s[1..]);
    SkipTwice(s[1..]);
    var members := FindBrokenMembers(Skip(s[1..]), before);
    b := InObject(members);
    assert s == "{" + s[1..];
  }

  /** Items that break off, with the blanks that were skipped before them. */
  lemma {:induction false} FindBrokenItems(s: string, before: string) returns (items: BrokenItems)
    requires ParseItems(s).Fail? && Due(s) && IsWs(before, false)
    ensures AreBrokenItems(items, ParseItems(s).at) && before + s == PutBrokenItems(items, ParseItems(s).at)
    ensures items.InItem? && items.broken.AtValue? ==> ParseItems(s).at == s
    decreases |s|, 2
  {
    hide ParseValue, ParseItems, ParseMoreItems, Skip, Put, PutBroken, PutBrokenItems, AreBrokenItems, IsBroken, IsText,
      IsWs, Follows, Closed, Due;
    ItemsFailure(s);
    if ParseValue(s).Fail? {
      var b := FindBroken(s);
      items := InItem(before, b);
      BrokenAtValue(b, ParseValue(s).at);
      BrokenItem(before, b, ParseValue(s).at);
    } else {
      var t := AcceptedText(s);
      var r := ParseValue(s).rest;
      var after := SkippedWs(r);
      SkipIsDue(r);
      var more, next := FindBrokenMore(Skip(r));
      if more {
        FollowsClosed(t, r);
      }
      items := if more then ItemThen(before, t, after, next) else NoComma(before, t, after);
      BrokenBehind(items, ParseItems(s).at, r);
    }
  }

  lemma BrokenItem(before: string, b: Broken, at: string)
    requires IsWs(before, false) && IsBroken(b, at) && (b.AtValue? ==> Due(at))
    ensures AreBrokenItems(InItem(before, b), at) && PutBrokenItems(InItem(before, b), at) == before + PutBroken(b, at)
  {
    hide IsWs, IsBroken, PutBroken, Due;
  }

  /** Behind an item: a comma and items that break off, or the break. */
  lemma {:induction false} FindBrokenMore(u: string) returns (more: bool, next: BrokenItems)
    requires ParseMoreItems(u).Fail? && Due(u)
    ensures more ==> AreBrokenItems(next, ParseMoreItems(u).at) && u == "," + PutBrokenItems(next, ParseMoreItems(u).at)
    ensures !more ==> DueBut(u, ',', ']') && ParseMoreItems(u).at == u
    decreases |u|, 0
  {
    hide ParseItems, ParseMoreItems, Skip, PutBrokenItems, AreBrokenItems;
    MoreItemsFailure(u);
    more := At(u, ',');
    if more {
      var b := SkippedWs(u[1..]);
      SkipIsDue(u[1..]);
      next := FindBrokenItems(Skip(u[1..]), b);
      assert u == "," + u[1..];
    } else {
      next := InItem("", AtValue);
    }
  }

  lemma BrokenBehind(items: BrokenItems, at: string, r: string)
    requires !items.InItem? && IsWs(items.before, false) && IsText(items.value, false) && IsWs(items.after, false)
    requires items.ItemThen? ==>
      Closed(items.value) && AreBrokenItems(items.next, at) && r == items.after + ("," + PutBrokenItems(items.next, at))
    requires items.NoComma? ==> DueBut(at, ',', ']') && Follows(items.value, r) && r == items.after + at
    ensures AreBrokenItems(items, at) && PutBrokenItems(items, at) == items.before + Put(items.value, r)
  {
    hide IsWs, IsText, Closed, Follows, Put, DueBut;
  }

  lemma BrokenAtValue(b: Broken, at: string)
    ensures b.AtValue? ==> PutBroken(b, at) == at
  {
  }

  lemma ItemsFailure(s: string)
    requires ParseItems(s).Fail?
    ensures !ParseValue(s).Malformed?
    ensures ParseValue(s).Fail? ==> ParseItems(s) == Fail(ParseValue(s).at)
    ensures ParseValue(s).Ok? ==>
      var o := ParseMoreItems(Skip(ParseValue(s).rest)); o.Fail? && ParseItems(s) == Fail(o.at)
  {
    hide ParseValue, ParseMoreItems, Skip;
  }

  lemma MoreItemsFailure(u: string)
    requires ParseMoreItems(u).Fail?
    ensures At(u, ',') ==> ParseItems(Skip(u[1..])).Fail? && ParseMoreItems(u) == Fail(ParseItems(Skip(u[1..])).at)
    ensures !At(u, ',') ==> !At(u, ']') && ParseMoreItems(u).at == u
  {
    hide ParseItems, Skip;
  }

  lemma {:induction false} FindBrokenMembers(s: string, before: string) returns (members: BrokenMembers)
    requires ParseMembers(s).Fail? && Due(s) && IsWs(before, false)
    ensures AreBrokenMembers(members, ParseMembers(s).at) && before + s == PutBrokenMembers(members, ParseMembers(s).at)
    ensures members.NoName? ==> ParseMembers(s).at == s
    decreases |s|, 3
  {
    hide ParsePair, ParseMembers, ParseMoreMembers, Skip, Put, PutPair, PutPieces, PutBroken, PutBrokenMembers,
      AreBrokenMembers, IsBroken, IsText, IsWs, ArePieces, Follows, Closed, Due;
    MembersFailure(s);
    if ParsePair(s).Fail? {
      members := FindBrokenPair(s, before);
    } else {
      var r := ParsePair(s).rest;
      var name, behind, ahead, t := AcceptedPair(s);
      var after := SkippedWs(r);
      SkipIsDue(r);
      var more, next := FindBrokenMoreMembers(Skip(r));
      if more {
        FollowsClosed(t, r);
      }
      members :=
        if more then MemberThen(before, name, behind, ahead, t, after, next)
        else NoMore(before, name, behind, ahead, t, after);
      BrokenBehindMember(members, ParseMembers(s).at, r);
    }
  }

  /** Behind a member: a comma and members that break off, or the break. */
  lemma {:induction false} FindBrokenMoreMembers(u: string) returns (more: bool, next: BrokenMembers)
    requires ParseMoreMembers(u).Fail? && Due(u)
    ensures more ==>
      AreBrokenMembers(next, ParseMoreMembers(u).at) && u == "," + PutBrokenMembers(next, ParseMoreMembers(u).at)
    ensures !more ==> DueBut(u, ',', '}') && ParseMoreMembers(u).at == u
    decreases |u|, 0
  {
    hide ParseMembers, ParseMoreMembers, Skip, PutBrokenMembers, AreBrokenMembers;
    MoreMembersFailure(u);
    more := At(u, ',');
    if more {
      var b := SkippedWs(u[1..]);
      SkipIsDue(u[1..]);
      next := FindBrokenMembers(Skip(u[1..]), b);
      assert u == "," + u[1..];
    } else {
      next := NoName("");
    }
  }

  lemma BrokenBehindMember(members: BrokenMembers, at: string, r: string)
    requires members.MemberThen? || members.NoMore?
    requires IsWs(members.before, false) && ArePieces(members.name, false) && IsWs(members.behind, false)
    requires IsWs(members.ahead, false) && IsText(members.value, false) && IsWs(members.after, false)
    requires members.MemberThen? ==>
      Closed(members.value) && AreBrokenMembers(members.next, at)
      && r == members.after + ("," + PutBrokenMembers(members.next, at))
    requires members.NoMore? ==> DueBut(at, ',', '}') && Follows(members.value, r) && r == members.after + at
    ensures AreBrokenMembers(members, at)
    ensures PutBrokenMembers(members, at)
         == members.before + PutPair(members.name, members.behind, members.ahead, members.value, r)
  {
    hide IsWs, IsText, Closed, Follows, PutPair, DueBut, ArePieces;
  }

  lemma MembersFailure(s: string)
    requires ParseMembers(s).Fail?
    ensures !ParsePair(s).Malformed?
    ensures ParsePair(s).Fail? ==> ParseMembers(s) == Fail(ParsePair(s).at)
    ensures ParsePair(s).Ok? ==>
      var o := ParseMoreMembers(Skip(ParsePair(s).rest)); o.Fail? && ParseMembers(s) == Fail(o.at)
  {
    hide ParsePair, ParseMoreMembers, Skip;
  }

  lemma MoreMembersFailure(u: string)
    requires ParseMoreMembers(u).Fail?
    ensures At(u, ',') ==>
      ParseMembers(Skip(u[1..])).Fail? && ParseMoreMembers(u) == Fail(ParseMembers(Skip(u[1..])).at)
    ensures !At(u, ',') ==> !At(u, '}') && ParseMoreMembers(u).at == u
  {
    hide ParseMembers, Skip;
  }

  lemma {:induction false} FindBrokenPair(s: string, before: string) returns (members: BrokenMembers)
    requires ParsePair(s).Fail? && Due(s) && IsWs(before, false)
    ensures AreBrokenMembers(members, ParsePair(s).at) && before + s == PutBrokenMembers(members, ParsePair(s).at)
    ensures members.NoName? ==> ParsePair(s).at == s
    decreases |s|, 2
  {
    hide ParsePair, ParseString, ParseValue, Skip, PutPieces, PutBroken, PutBrokenMembers, AreBrokenMembers, IsBroken,
      IsWs, ArePieces;
    PairFailure(s);
    StringFails(s);
    if ParseString(s).Fail? {
      members := NoName(before);
      BrokenName(before, s);
    } else {
      var r := ParseString(s).rest;
      var u := Skip(r);
      var name, closed := AcceptedName(s);
      var behind := SkippedWs(r);
      SkipIsDue(r);
      if At(u, ':') {
        var ahead, b := FindBrokenValue(u);
        members := InValue(before, name, behind, ahead, b);
        BrokenPair(members, ParsePair(s).at, r);
      } else {
        members := NoColon(before, name, closed, behind);
        BrokenPair(members, u, r);
      }
    }
  }

  lemma {:induction false} FindBrokenValue(u: string) returns (ahead: string, b: Broken)
    requires At(u, ':') && ParseValue(Skip(u[1..])).Fail?
    ensures var at := ParseValue(Skip(u[1..])).at;
      IsWs(ahead, false) && IsBroken(b, at) && (b.AtValue? ==> Due(at)) && u == ":" + (ahead + PutBroken(b, at))
    decreases |u|, 0
  {
    hide ParseValue, Skip, PutBroken, IsBroken, IsWs, Due;
    ahead := SkippedWs(u[1..]);
    SkipIsDue(u[1..]);
    var v := Skip(u[1..]);
    b := FindBroken(v);
    BrokenAtValue(b, ParseValue(v).at);
    ColonText(u, ahead, v);
  }

  lemma ColonText(u: string, ahead: string, v: string)
    requires At(u, ':') && u[1..] == ahead + v
    ensures u == ":" + (ahead + v)
  {
    assert u == ":" + u[1..];
  }

  lemma BrokenName(before: string, at: string)
    requires IsWs(before, false) && Due(at) && !At(at, '\"')
    ensures AreBrokenMembers(NoName(before), at) && PutBrokenMembers(NoName(before), at) == before + at
  {
    hide IsWs;
  }

  lemma BrokenPair(members: BrokenMembers, at: string, r: string)
    requires members.InValue? || members.NoColon?
    requires IsWs(members.before, false) && ArePieces(members.name, false) && IsWs(members.behind, false)
    requires members.InValue? ==>
      IsWs(members.ahead, false) && IsBroken(members.broken, at) && (members.broken.AtValue? ==> Due(at))
      && r == members.behind + (":" + (members.ahead + PutBroken(members.broken, at)))
    requires members.NoColon? ==> DueBut(at, ':', ':') && (members.closed || r == "") && r == members.behind + at
    ensures AreBrokenMembers(members, at)
    ensures PutBrokenMembers(members, at)
         == members.before + ("\"" + PutPieces(members.name, members.InValue? || members.closed, r))
  {
    hide IsWs, PutPieces, PutBroken, IsBroken, DueBut, ArePieces, Due;
  }

  lemma PairFailure(s: string)
    requires ParsePair(s).Fail?
    ensures !ParseString(s).Malformed?
    ensures ParseString(s).Fail? ==> ParsePair(s) == Fail(ParseString(s).at)
    ensures ParseString(s).Ok? ==>
      var t := Skip(ParseString(s).rest);
      if At(t, ':') then ParseValue(Skip(t[1..])).Fail? && ParsePair(s) == Fail(ParseValue(Skip(t[1..])).at)
      else ParsePair(s) == Fail(t)
  {
    hide ParseString, ParseValue, Skip;
  }

  // ----- Exactly these -----

  /** A value is not read, with the error pointer at a place, exactly where a text breaks off there. */
  lemma FailsExactly(s: string, at: string)
    ensures ParseValue(s) == Fail(at) <==> exists b :: IsBroken(b, at) && s == PutBroken(b, at)
  {
    hide ParseValue, IsBroken, PutBroken;
    if ParseValue(s) == Fail(at) {
      var b := FindBroken(s);
    }
    if b: Broken :| IsBroken(b, at) && s == PutBroken(b, at) {
      BrokenFails(b, at);
    }
  }

  /** A whole text fails there, or behind a value that is followed by something else. */
  lemma ParseFailsExactly(s: string, at: string)
    ensures Parse(s, true) == Fail(at) <==>
      || ParseValue(Skip(s)) == Fail(at)
      || (ParseValue(Skip(s)).Ok? && at != "" && Skip(ParseValue(Skip(s)).rest) == at)
  {
    hide ParseValue, Skip;
  }
}
