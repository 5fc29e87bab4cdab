/**
 The loops of the cJSON parser, over positions in a NUL-terminated text, proved to compute the functions of JsonParse.
 */
module JsonReader {

  import opened Json
  import opened JsonParse

  /** What a parsing routine reports: the item and the position after it, the error pointer, or an escape it cannot be
      followed on. */
  datatype Read<T> = Done(value: T, end: nat) | Failed(ep: nat) | Stopped

  /** The same failure, of a routine that returns something else. */
  function Relay<T, U>(r: Read<T>): Read<U>
    requires !r.Done?
  {
    match r case Failed(ep) => Failed(ep) case Stopped => Stopped
  }

  ghost predicate Agrees<T>(text: string, r: Read<T>, o: Outcome<T>) {
    match r
    case Done(v, end) => end <= |text| && o == Ok(v, text[end..])
    case Failed(ep) => ep <= |text| && o == Fail(text[ep..])
    case Stopped => o == Malformed
  }

  /** The character at a position; the terminator at the end. */
  function CharAt(text: string, at: nat): char
    requires at <= |text|
  {
    if at < |text| then text[at] else '\0'
  }

  lemma Suffix(text: string, at: nat, k: nat)
    requires at + k <= |text|
    ensures text[at..][k..] == text[at + k..]
  {
  }

  // ----- Blanks and numbers -----

  method SkipBlank(text: string, at0: nat) returns (at: nat)
    requires CString(text) && at0 <= |text|
    ensures at0 <= at <= |text| && text[at..] == Skip(text[at0..])
  {
    at := at0;
    while CharAt(text, at) != '\0' && CharAt(text, at) as int <= 32
      invariant at0 <= at <= |text| && Skip(text[at..]) == Skip(text[at0..])
      decreases |text| - at
    {
      Suffix(text, at, 1);
      at := at + 1;
    }
  }

  method ReadDigits(text: string, at0: nat, acc: nat) returns (n: nat, count: nat, at: nat)
    requires at0 <= |text|
    ensures at == at0 + count && at <= |text| && DigitRun(text[at0..], acc) == (n, count, text[at..])
  {
    n, count, at := acc, 0, at0;
    while IsDigit(CharAt(text, at))
      invariant at == at0 + count && at <= |text|
      invariant var r, all := DigitRun(text[at..], n), DigitRun(text[at0..], acc);
        all == (r.0, r.1 + count, r.2)
      decreases |text| - at
    {
      Suffix(text, at, 1);
      n, count, at := n * 10 + DigitValue(text[at]), count + 1, at + 1;
    }
  }

  method ReadNumber(text: string, at0: nat) returns (item: Json, at: nat)
    requires at0 <= |text|
    ensures at <= |text| && ParseNumber(text[at0..]) == (item, text[at..])
  {
    hide DigitRun;
    at := at0;
    var negative := false;
    Suffix(text, at, if at < |text| then 1 else 0);
    if CharAt(text, at) == '-' {
      negative, at := true, at + 1;
    }
    var n, count, scale: nat := 0, 0, 0;
    n, at := ReadWhole(text, at);
    n, scale, at := ReadFraction(text, at, n);
    var subscale;
    subscale, at := ReadExponent(text, at);
    item := Number(Signed(negative, n), subscale - scale);
  }

  method ReadWhole(text: string, at0: nat) returns (n: nat, at: nat)
    requires at0 <= |text|
    ensures at <= |text| && ParseWhole(text[at0..]) == (n, text[at..])
  {
    n, at := 0, at0;
    if CharAt(text, at) == '0' {
      Suffix(text, at, 1);
      at := at + 1;
    }
    if '1' <= CharAt(text, at) <= '9' {
      var count;
      n, count, at := ReadDigits(text, at, 0);
    }
  }

  method ReadFraction(text: string, at0: nat, n0: nat) returns (n: nat, scale: nat, at: nat)
    requires at0 <= |text|
    ensures at <= |text| && ParseFraction(text[at0..], n0) == (n, scale, text[at..])
  {
    n, scale, at := n0, 0, at0;
    if at < |text| {
      Suffix(text, at, 1);
    }
    if CharAt(text, at) == '.' && IsDigit(CharAt(text, at + 1)) {
      n, scale, at := ReadDigits(text, at + 1, n);
    }
  }

  method ReadExponent(text: string, at0: nat) returns (e: int, at: nat)
    requires at0 <= |text|
    ensures at <= |text| && ParseExponent(text[at0..]) == (e, text[at..])
  {
    e, at := 0, at0;
    if CharAt(text, at) == 'e' || CharAt(text, at) == 'E' {
      Suffix(text, at, 1);
      at := at + 1;
      var negative := false;
      if at < |text| {
        Suffix(text, at0, 2);
      }
      if CharAt(text, at) == '+' {
        at := at + 1;
      } else if CharAt(text, at) == '-' {
        negative, at := true, at + 1;
      }
      var count;
      e, count, at := ReadDigits(text, at, 0);
      e := Signed(negative, e);
    }
  }

  // ----- Strings -----

  /** How many characters and escapes there are before the closing quote: what the first scan counts. */
  function Units(s: string): nat
    decreases |s|
  {
    if s == "" || s[0] == '\"' then 0
    else if s[0] == '\\' then 1 + Units(if |s| < 2 then "" else s[2..])
    else 1 + Units(s[1..])
  }

  lemma UnitsPlain(s: string, k: nat)
    requires k <= |s| && forall i :: 0 <= i < k ==> s[i] != '\"' && s[i] != '\\'
    ensures Units(s) == k + Units(s[k..])
  {
    if k > 0 {
      UnitsPlain(s[1..], k - 1);
      assert s[1..][k - 1..] == s[k..];
    } else {
      assert s[0..] == s;
    }
  }

  /** An escape \u is counted at least as large as the bytes it stands for. */
  lemma UnitsUnicode(s: string)
    requires ParseUnicode(s).Bytes?
    ensures var u := ParseUnicode(s); Units(s) + 1 >= |u.text| + Units(s[u.used..])
  {
    hide Utf8, ParseHex4;
    HexPlain(s);
    UnitsPlain(s, 4);
    var u := ParseUnicode(s);
    if u.used == 10 {
      var t := s[4..];
      assert t[2..] == s[6..];
      assert Units(t) == 1 + Units(s[6..]);
      HexPlain(s[6..]);
      UnitsPlain(s[6..], 4);
      assert s[6..][4..] == s[10..];
    }
  }

  /** The first scan never steps over the terminator. */
  predicate Scannable(s: string)
    decreases |s|
  {
    if s == "" || s[0] == '\"' then true
    else if s[0] == '\\' then |s| >= 2 && Scannable(s[2..])
    else Scannable(s[1..])
  }

  lemma ScannablePlain(s: string, k: nat)
    requires k <= |s| && forall i :: 0 <= i < k ==> s[i] != '\"' && s[i] != '\\'
    ensures Scannable(s) == Scannable(s[k..])
  {
    if k > 0 {
      ScannablePlain(s[1..], k - 1);
      assert s[1..][k - 1..] == s[k..];
    } else {
      assert s[0..] == s;
    }
  }

  lemma ScannableUnicode(s: string)
    requires ParseUnicode(s).Bytes?
    ensures Scannable(s) == Scannable(s[ParseUnicode(s).used..])
  {
    hide Utf8, ParseHex4;
    HexPlain(s);
    ScannablePlain(s, 4);
    if ParseUnicode(s).used == 10 {
      var t := s[4..];
      assert t[2..] == s[6..];
      HexPlain(s[6..]);
      ScannablePlain(s[6..], 4);
      assert s[6..][4..] == s[10..];
    }
  }

  lemma {:induction false} WellFormedScannable(s: string)
    requires !Decode(s).Malformed?
    ensures Scannable(s)
    decreases |s|
  {
    hide ParseUnicode;
    if s != "" && s[0] != '\"' {
      if s[0] != '\\' {
        WellFormedScannable(s[1..]);
      } else if s[1] != 'u' {
        WellFormedScannable(s[2..]);
      } else {
        var u := ParseUnicode(s[2..]).used;
        ScannableUnicode(s[2..]);
        assert s[2..][u..] == s[2 + u..];
        WellFormedScannable(s[2 + u..]);
      }
    }
  }

  /** The first scan of parse_string; false where it steps over the terminator. */
  method CountUnits(text: string, at0: nat) returns (inside: bool, len: nat)
    requires CString(text) && at0 <= |text|
    ensures inside <==> Scannable(text[at0..])
    ensures inside ==> len == Units(text[at0..])
  {
    len := 0;
    var at := at0;
    while CharAt(text, at) != '\"' && CharAt(text, at) != '\0'
      invariant at <= |text| && Scannable(text[at0..]) == Scannable(text[at..])
        && Units(text[at0..]) == len + Units(text[at..])
      decreases |text| - at
    {
      len := len + 1;
      Suffix(text, at, 1);
      if CharAt(text, at) == '\\' {
        at := at + 1;
        if at == |text| {
          return false, len;
        }
        Suffix(text, at - 1, 2);
      }
      at := at + 1;
    }
    inside := true;
  }

  /** The bits of uc above the lowest k groups of six. */
  function Above(uc: nat, k: nat): nat {
    if k == 0 then uc else Above(uc, k - 1) / 64
  }

  /** The bytes for the lowest k groups of six bits. */
  function Below(uc: nat, k: nat): (r: string)
    ensures |r| == k
  {
    if k == 0 then "" else [Continuation(Above(uc, k - 1))] + Below(uc, k - 1)
  }

  /** How many bytes a code point takes. */
  function Utf8Length(uc: nat): nat {
    if uc < 0x80 then 1 else if uc < 0x800 then 2 else if uc < 0x10000 then 3 else 4
  }

  /** The first of len bytes, above its other bits. */
  function First(len: nat, uc: nat): char
    requires uc < 0x80
  {
    ((match len case 1 => 0 case 2 => 0xC0 case 3 => 0xE0 case _ => 0xF0) + uc) as char
  }

  lemma Utf8Parts(uc: nat)
    requires uc < 0x110000
    ensures var len := Utf8Length(uc);
      Above(uc, len - 1) < 0x80 && Utf8(uc) == [First(len, Above(uc, len - 1))] + Below(uc, len - 1)
  {
    hide Continuation;
    AboveBelow(uc);
    hide Above, Below;
  }

  lemma AboveBelow(uc: nat)
    ensures Above(uc, 0) == uc && Above(uc, 1) == uc / 64 && Above(uc, 2) == uc / 64 / 64
      && Above(uc, 3) == uc / 64 / 64 / 64
    ensures Below(uc, 0) == "" && Below(uc, 1) == [Continuation(uc)]
      && Below(uc, 2) == [Continuation(uc / 64), Continuation(uc)]
    ensures Below(uc, 3) == [Continuation(uc / 64 / 64), Continuation(uc / 64), Continuation(uc)]
  {
    hide Continuation;
    assert Above(uc, 3) == Above(uc, 2) / 64 && Above(uc, 2) == Above(uc, 1) / 64 && Above(uc, 1) == Above(uc, 0) / 64;
    assert Below(uc, 3) == [Continuation(Above(uc, 2))] + Below(uc, 2)
      && Below(uc, 2) == [Continuation(Above(uc, 1))] + Below(uc, 1);
    assert Below(uc, 1) == [Continuation(Above(uc, 0))] + Below(uc, 0);
  }

  /** The switch that lays down the bytes of a code point, last byte first. */
  method PutUtf8(out: array<char>, to0: nat, uc0: nat) returns (to: nat)
    requires uc0 < 0x110000 && to0 + |Utf8(uc0)| <= out.Length
    modifies out
    ensures to == to0 + |Utf8(uc0)| && out[..to] == old(out[..to0]) + Utf8(uc0)
  {
    Utf8Parts(uc0);
    var uc, len := uc0, Utf8Length(uc0);
    assert len <= 4 && Above(uc0, 0) == uc0;
    hide Utf8, Above, Below, Utf8Length, First;
    to := to0 + len;
    ghost var end, done := to, 0;
    assert out[to..end] == Below(uc0, 0);
    if len >= 4 {
      to, uc := PutLow(out, to, uc, to0, end, uc0, done);
      done := done + 1;
    }
    if len >= 3 {
      to, uc := PutLow(out, to, uc, to0, end, uc0, done);
      done := done + 1;
    }
    if len >= 2 {
      to, uc := PutLow(out, to, uc, to0, end, uc0, done);
      done := done + 1;
    }
    assert done == len - 1 && uc == Above(uc0, done) && out[to..end] == Below(uc0, done);
    PutFirst(out, to, len, uc, to0, end);
    to := to0 + len;
  }

  /** The last step of that switch. */
  method PutFirst(out: array<char>, to1: nat, len: nat, uc: nat, ghost start: nat, ghost end: nat)
    requires uc < 0x80 && to1 == start + 1 <= end <= out.Length
    modifies out
    ensures out[..end] == old(out[..start]) + ([First(len, uc)] + old(out[to1..end]))
  {
    hide First;
    out[to1 - 1] := First(len, uc);
  }

  /** One step of that switch: the byte for the next six bits goes in front of those already laid down. */
  method PutLow(out: array<char>, to0: nat, uc0: nat, ghost start: nat, ghost end: nat, ghost whole: nat,
                ghost done: nat)
    returns (to: nat, uc: nat)
    requires start < to0 <= end <= out.Length
    requires uc0 == Above(whole, done) && out[to0..end] == Below(whole, done)
    modifies out
    ensures to == to0 - 1 && uc == Above(whole, done + 1)
    ensures out[to..end] == Below(whole, done + 1) && out[..start] == old(out[..start])
  {
    hide Continuation;
    to := to0 - 1;
    out[to] := Continuation(uc0);
    uc := uc0 / 64;
    assert out[to..end] == [Continuation(uc0)] + old(out[to0..end]);
  }

  /** The case of \u: at0 is the position of its first hex digit. False when there are not four. */
  method ReadUnicode(text: string, at0: nat, out: array<char>, to0: nat) returns (inside: bool, at: nat, to: nat)
    requires at0 <= |text|
    requires ParseUnicode(text[at0..]).Bytes? ==> to0 + |ParseUnicode(text[at0..]).text| <= out.Length
    requires to0 <= out.Length
    modifies out
    ensures inside <==> ParseUnicode(text[at0..]).Bytes?
    ensures inside ==> at == at0 + ParseUnicode(text[at0..]).used && to == to0 + |ParseUnicode(text[at0..]).text|
    ensures inside ==> out[..to] == old(out[..to0]) + ParseUnicode(text[at0..]).text
  {
    hide Utf8, ParseHex4;
    ghost var s := text[at0..];
    inside, at, to := true, at0 + 4, to0;
    if !AtHex4(text[at0..]) {
      return false, at, to;
    }
    var uc := ParseHex4(text[at0..]);
    assert at0 + 4 < |text| ==> s[4..][0] == text[at0 + 4];
    assert at0 + 5 < |text| ==> s[5..][0] == text[at0 + 5];
    if IsLow(uc) || uc == 0 {
    } else if !IsHigh(uc) {
      to := PutUtf8(out, to, uc);
    } else if CharAt(text, at) == '\\' && CharAt(text, at + 1) == 'u' {
      assert s[6..] == text[at0 + 6..];
      if !AtHex4(text[at0 + 6..]) {
        return false, at, to;
      }
      var uc2 := ParseHex4(text[at0 + 6..]);
      at := at + 6;
      if IsLow(uc2) {
        to := PutUtf8(out, to, 0x10000 + uc % 0x400 * 0x400 + uc2 % 0x400);
      }
    }
  }

  /** What the second scan keeps: w is what it has written from position start up to position at, and the rest fits in
      len. */
  ghost predicate Decoding(text: string, start: nat, at: nat, w: string, len: nat) {
    && start <= at <= |text| && Scannable(text[at..])
    && Decode(text[start..]) == Then(w, Decode(text[at..]))
    && |w| + Units(text[at..]) <= len
  }

  lemma ThenTwice(a: string, b: string, o: Outcome<string>)
    ensures Then(a, Then(b, o)) == Then(a + b, o)
  {
    if o.Ok? {
      assert a + (b + o.value) == a + b + o.value;
    }
  }

  lemma DecodingStarts(text: string, start: nat)
    requires start <= |text| && Scannable(text[start..])
    ensures Decoding(text, start, start, "", Units(text[start..]))
  {
    hide Decode;
    var o := Decode(text[start..]);
    assert o.Ok? ==> "" + o.value == o.value;
  }

  lemma DecodingPlain(text: string, start: nat, at: nat, w: string, len: nat)
    requires Decoding(text, start, at, w, len) && at < |text| && text[at] != '\"' && text[at] != '\\'
    ensures |w| < len && Decoding(text, start, at + 1, w + [text[at]], len)
  {
    Suffix(text, at, 1);
    ThenTwice(w, [text[at]], Decode(text[at + 1..]));
  }

  lemma DecodingShort(text: string, start: nat, at: nat, w: string, len: nat)
    requires Decoding(text, start, at, w, len) && at < |text| && text[at] == '\\'
    ensures |w| < len && at + 1 < |text|
    ensures text[at + 1] != 'u' ==> Decoding(text, start, at + 2, w + [Unescape(text[at + 1])], len)
  {
    hide ParseUnicode;
    if at + 1 < |text| && text[at + 1] != 'u' {
      Suffix(text, at, 2);
      ThenTwice(w, [Unescape(text[at + 1])], Decode(text[at + 2..]));
    }
  }

  lemma UnitsAtEscape(s: string)
    requires |s| >= 2 && s[0] == '\\'
    ensures Units(s) == 1 + Units(s[2..])
  {
  }

  lemma DecodeAtBytes(s: string)
    requires |s| >= 2 && s[0] == '\\' && s[1] == 'u'
    ensures match ParseUnicode(s[2..])
      case BadEscape => Decode(s) == Malformed
      case Bytes(t, used) => Decode(s) == Then(t, Decode(s[2 + used..]))
  {
    hide ParseUnicode;
  }

  lemma ScannableAtEscape(s: string)
    requires At(s, '\\')
    ensures Scannable(s) <==> |s| >= 2 && Scannable(s[2..])
  {
  }

  lemma DecodingUnicode(text: string, start: nat, at: nat, w: string, len: nat)
    requires Decoding(text, start, at, w, len) && at + 1 < |text| && text[at] == '\\' && text[at + 1] == 'u'
    ensures match ParseUnicode(text[at + 2..])
      case BadEscape => Decode(text[start..]) == Malformed
      case Bytes(t, used) => |w| + |t| <= len && Decoding(text, start, at + 2 + used, w + t, len)
  {
    hide ParseUnicode, Decode, Units, Scannable;
    DecodeAtBytes(text[at..]);
    Suffix(text, at, 2);
    var u := ParseUnicode(text[at + 2..]);
    if u.Bytes? {
      UnitsAtEscape(text[at..]);
      ScannableAtEscape(text[at..]);
      UnitsUnicode(text[at + 2..]);
      ScannableUnicode(text[at + 2..]);
      Suffix(text, at + 2, u.used);
      Suffix(text, at, 2 + u.used);
      ThenTwice(w, u.text, Decode(text[at + 2 + u.used..]));
    }
  }

  lemma DecodingEnds(text: string, start: nat, at: nat, w: string, len: nat)
    requires Decoding(text, start, at, w, len) && (at < |text| ==> text[at] == '\"')
    ensures |w| <= len && Decode(text[start..]) == Ok(w, text[if at < |text| then at + 1 else at..])
  {
    if at < |text| {
      Suffix(text, at, 1);
    }
    assert w + "" == w;
  }

  /** One round of the second scan of parse_string; false at an escape \u without four hex digits. */
  method DecodeRound(text: string, at0: nat, out: array<char>, to0: nat, ghost start: nat, ghost len: nat)
      returns (inside: bool, at: nat, to: nat)
    requires len < out.Length && to0 <= out.Length && Decoding(text, start, at0, out[..to0], len)
    requires at0 < |text| && text[at0] != '\"'
    modifies out
    ensures if inside then at0 < at && to <= out.Length && Decoding(text, start, at, out[..to], len)
            else Decode(text[start..]) == Malformed
  {
    hide Decoding, ParseUnicode, Decode;
    ghost var w := out[..to0];
    inside := true;
    if text[at0] != '\\' {
      DecodingPlain(text, start, at0, w, len);
      out[to0] := text[at0];
      at, to := at0 + 1, to0 + 1;
      assert out[..to] == w + [text[at0]];
    } else {
      DecodingShort(text, start, at0, w, len);
      if text[at0 + 1] != 'u' {
        out[to0] := Unescape(text[at0 + 1]);
        at, to := at0 + 2, to0 + 1;
        assert out[..to] == w + [Unescape(text[at0 + 1])];
      } else {
        DecodingUnicode(text, start, at0, w, len);
        inside, at, to := ReadUnicode(text, at0 + 2, out, to0);
      }
    }
  }

  /** parse_string: the length the first scan counts is room enough for the second. */
  method ReadString(text: string, at0: nat) returns (r: Read<string>)
    requires CString(text) && at0 <= |text|
    ensures Agrees(text, r, ParseString(text[at0..]))
  {
    if CharAt(text, at0) != '\"' {
      return Failed(at0);
    }
    hide Decode, Decoding, Scannable;
    Suffix(text, at0, 1);
    ghost var start := at0 + 1;
    if !Decode(text[start..]).Malformed? {
      WellFormedScannable(text[start..]);
    }
    var inside, len := CountUnits(text, at0 + 1);
    if !inside {
      return Stopped;
    }
    var out := new char[len + 1];
    var at, to := at0 + 1, 0;
    assert out[..0] == "";
    DecodingStarts(text, start);
    while CharAt(text, at) != '\"' && CharAt(text, at) != '\0'
      invariant at <= |text| && to <= out.Length && Decoding(text, start, at, out[..to], len)
      decreases |text| - at
    {
      inside, at, to := DecodeRound(text, at, out, to, start, len);
      if !inside {
        return Stopped;
      }
      DecodingBounds(text, start, at, out[..to], len);
    }
    DecodingEnds(text, start, at, out[..to], len);
    out[to] := '\0';
    if CharAt(text, at) == '\"' {
      at := at + 1;
    }
    r := Done(out[..to], at);
  }

  lemma DecodingBounds(text: string, start: nat, at: nat, w: string, len: nat)
    requires Decoding(text, start, at, w, len)
    ensures at <= |text|
  {
  }

  // ----- Trees -----

  function ToItems(values: seq<Json>, end: Items): Items {
    if values == [] then end else ToItems(values[..|values| - 1], Item(values[|values| - 1], end))
  }

  function ToMembers(pairs: seq<(string, Json)>, end: Members): Members {
    if pairs == [] then end
    else ToMembers(pairs[..|pairs| - 1], Member(pairs[|pairs| - 1].0, pairs[|pairs| - 1].1, end))
  }

  /** The items already read, put before what is still to be read. */
  function WithItems(values: seq<Json>, o: Outcome<Items>): Outcome<Items> {
    if o.Ok? then Ok(ToItems(values, o.value), o.rest) else o
  }

  function WithMembers(pairs: seq<(string, Json)>, o: Outcome<Members>): Outcome<Members> {
    if o.Ok? then Ok(ToMembers(pairs, o.value), o.rest) else o
  }

  /** parse_value. */
  method ReadValue(text: string, at: nat) returns (r: Read<Json>)
    requires CString(text) && at <= |text|
    ensures Agrees(text, r, ParseValue(text[at..]))
    decreases |text| - at, 1
  {
    hide ParseNumber, ParseString;
    ghost var s := text[at..];
    if "null" <= text[at..] {
      Suffix(text, at, 4);
      return Done(Null, at + 4);
    } else if "false" <= text[at..] {
      Suffix(text, at, 5);
      return Done(False, at + 5);
    } else if "true" <= text[at..] {
      Suffix(text, at, 4);
      return Done(True, at + 4);
    } else if CharAt(text, at) == '\"' {
      var t := ReadString(text, at);
      r := if t.Done? then Done(Str(t.value), t.end) else Relay(t);
    } else if CharAt(text, at) == '-' || IsDigit(CharAt(text, at)) {
      var item, end := ReadNumber(text, at);
      r := Done(item, end);
    } else if CharAt(text, at) == '[' {
      r := ReadArray(text, at);
    } else if CharAt(text, at) == '{' {
      r := ReadObject(text, at);
    } else {
      r := Failed(at);
    }
  }

  /** parse_array. */
  method ReadArray(text: string, at0: nat) returns (r: Read<Json>)
    requires CString(text) && at0 < |text| && text[at0] == '['
    ensures Agrees(text, r, ParseValue(text[at0..]))
    decreases |text| - at0, 0
  {
    hide ParseItems, ParseValue, Skip;
    ValueAtBracket(text[at0..]);
    Suffix(text, at0, 1);
    var at := SkipBlank(text, at0 + 1);
    if CharAt(text, at) == ']' {
      Suffix(text, at, 1);
      return Done(Arr(NoItems), at + 1);
    }
    at := SkipBlank(text, at);
    var items := ReadItems(text, at);
    r := if items.Done? then Done(Arr(items.value), items.end) else Relay(items);
  }

  lemma OneItem(s: string, v: Json, rest: string)
    requires ParseValue(s) == Ok(v, rest)
    ensures ParseItems(s) == WithItems([v], ParseMoreItems(Skip(rest)))
  {
    hide ParseValue, ParseMoreItems, Skip;
    var o := ParseMoreItems(Skip(rest));
    assert o.Ok? ==> ToItems([v], o.value) == ToItems([], Item(v, o.value));
  }

  lemma {:induction false} OneMoreItem(values: seq<Json>, v: Json, o: Outcome<Items>)
    ensures WithItems(values, WithItems([v], o)) == WithItems(values + [v], o)
  {
    if o.Ok? {
      assert (values + [v])[..|values|] == values;
      assert ToItems([v], o.value) == ToItems([], Item(v, o.value));
    }
  }

  /** The loop of parse_array: an item, then one more for every comma. */
  method ReadItems(text: string, start: nat) returns (r: Read<Items>)
    requires CString(text) && start <= |text|
    ensures Agrees(text, r, ParseItems(text[start..]))
    decreases |text| - start, 2
  {
    hide ParseValue, Skip, ToItems, ToMembers;
    var item := ReadValue(text, start);
    if !item.Done? {
      return Relay(item);
    }
    OneItem(text[start..], item.value, text[item.end..]);
    var values := [item.value];
    var at := SkipBlank(text, item.end);
    while CharAt(text, at) == ','
      invariant start < at <= |text|
      invariant ParseItems(text[start..]) == WithItems(values, ParseMoreItems(text[at..]))
      decreases |text| - at
    {
      Suffix(text, at, 1);
      at := SkipBlank(text, at + 1);
      item := ReadValue(text, at);
      if !item.Done? {
        return Relay(item);
      }
      OneItem(text[at..], item.value, text[item.end..]);
      at := SkipBlank(text, item.end);
      OneMoreItem(values, item.value, ParseMoreItems(text[at..]));
      values := values + [item.value];
    }
    if CharAt(text, at) == ']' {
      Suffix(text, at, 1);
      return Done(ToItems(values, NoItems), at + 1);
    }
    r := Failed(at);
  }

  /** parse_object. */
  method ReadObject(text: string, at0: nat) returns (r: Read<Json>)
    requires CString(text) && at0 < |text| && text[at0] == '{'
    ensures Agrees(text, r, ParseValue(text[at0..]))
    decreases |text| - at0, 0
  {
    hide ParseMembers, ParseValue, Skip;
    ValueAtBrace(text[at0..]);
    Suffix(text, at0, 1);
    var at := SkipBlank(text, at0 + 1);
    if CharAt(text, at) == '}' {
      Suffix(text, at, 1);
      return Done(Obj(NoMembers), at + 1);
    }
    at := SkipBlank(text, at);
    var members := ReadMembers(text, at);
    r := if members.Done? then Done(Obj(members.value), members.end) else Relay(members);
  }

  /** One name, its colon and its value. */
  method ReadPair(text: string, at0: nat) returns (r: Read<(string, Json)>)
    requires CString(text) && at0 <= |text|
    ensures Agrees(text, r, ParsePair(text[at0..]))
    decreases |text| - at0, 2
  {
    hide ParseValue, ParseString, Skip;
    var name := ReadString(text, at0);
    if !name.Done? {
      return Relay(name);
    }
    var at := SkipBlank(text, name.end);
    if CharAt(text, at) != ':' {
      return Failed(at);
    }
    Suffix(text, at, 1);
    at := SkipBlank(text, at + 1);
    var v := ReadValue(text, at);
    r := if v.Done? then Done((name.value, v.value), v.end) else Relay(v);
  }

  lemma OneMember(s: string, pair: (string, Json), rest: string)
    requires ParsePair(s) == Ok(pair, rest)
    ensures ParseMembers(s) == WithMembers([pair], ParseMoreMembers(Skip(rest)))
  {
    hide ParsePair, ParseMoreMembers, Skip;
    var o := ParseMoreMembers(Skip(rest));
    assert o.Ok? ==> ToMembers([pair], o.value) == ToMembers([], Member(pair.0, pair.1, o.value));
  }

  lemma {:induction false} OneMoreMember(pairs: seq<(string, Json)>, pair: (string, Json), o: Outcome<Members>)
    ensures WithMembers(pairs, WithMembers([pair], o)) == WithMembers(pairs + [pair], o)
  {
    if o.Ok? {
      assert (pairs + [pair])[..|pairs|] == pairs;
      assert ToMembers([pair], o.value) == ToMembers([], Member(pair.0, pair.1, o.value));
    }
  }

  /** The loop of parse_object: a member, then one more for every comma. */
  method ReadMembers(text: string, start: nat) returns (r: Read<Members>)
    requires CString(text) && start <= |text|
    ensures Agrees(text, r, ParseMembers(text[start..]))
    decreases |text| - start, 3
  {
    hide ParsePair, Skip, ToItems, ToMembers;
    var pair := ReadPair(text, start);
    if !pair.Done? {
      return Relay(pair);
    }
    OneMember(text[start..], pair.value, text[pair.end..]);
    var pairs := [pair.value];
    var at := SkipBlank(text, pair.end);
    while CharAt(text, at) == ','
      invariant start < at <= |text|
      invariant ParseMembers(text[start..]) == WithMembers(pairs, ParseMoreMembers(text[at..]))
      decreases |text| - at
    {
      Suffix(text, at, 1);
      at := SkipBlank(text, at + 1);
      pair := ReadPair(text, at);
      if !pair.Done? {
        return Relay(pair);
      }
      OneMember(text[at..], pair.value, text[pair.end..]);
      at := SkipBlank(text, pair.end);
      OneMoreMember(pairs, pair.value, ParseMoreMembers(text[at..]));
      pairs := pairs + [pair.value];
    }
    if CharAt(text, at) == '}' {
      Suffix(text, at, 1);
      return Done(ToMembers(pairs, NoMembers), at + 1);
    }
    r := Failed(at);
  }

  /** cJSON_ParseWithOpts. */
  method ParseWithOpts(text: string, requireEnd: bool) returns (r: Read<Json>)
    requires CString(text)
    ensures Agrees(text, r, Parse(text, requireEnd))
  {
    hide ParseValue, Skip;
    assert text[0..] == text;
    var at := SkipBlank(text, 0);
    r := ReadValue(text, at);
    if r.Done? && requireEnd {
      var end := SkipBlank(text, r.end);
      r := if CharAt(text, end) != '\0' then Failed(end) else Done(r.value, end);
    }
  }
}
