/**
 cJSON_Minify: the text it leaves, the in-place loop that produces it, and the law that minifying the
 formatted rendering of a tree gives the unformatted one.
 */
module JsonMinify {

  import opened Json
  import opened Options

  // ----- Specification -----

  predicate IsBlank(c: char) {
    c == ' ' || c == '\t' || c == '\r' || c == '\n'
  }

  predicate StartsWith(s: string, a: char, b: char) {
    |s| >= 2 && s[0] == a && s[1] == b
  }

  /** What follows a line comment: the line break, or the end of the text. */
  function AfterLine(s: string): (rest: string)
    ensures |rest| <= |s| && (s != "" && s[0] != '\n' ==> |rest| < |s|)
  {
    if s == "" || s[0] == '\n' then s else AfterLine(s[1..])
  }

  /** What follows the first closing mark; None when there is none. */
  function AfterBlock(s: string): (rest: Option<string>)
    ensures rest.Some? ==> |rest.value| < |s|
  {
    if s == "" then None
    else if StartsWith(s, '*', '/') then Some(s[2..])
    else AfterBlock(s[1..])
  }

  /** How long a string literal is, counted after its opening quote and with its closing one; None when it is not
      closed. */
  function LiteralLength(s: string): (n: Option<nat>)
    ensures n.Some? ==> 0 < n.value <= |s|
  {
    if s == "" then None
    else if s[0] == '\"' then Some(1)
    else
      var k := if s[0] == '\\' then 2 else 1;
      if |s| < k then None
      else match LiteralLength(s[k..]) case None => None case Some(n) => Some(n + k)
  }

  function Prepend(a: string, b: Option<string>): Option<string> {
    match b case None => None case Some(t) => Some(a + t)
  }

  /** The minified text; None where the loop would run past the terminator: an unclosed comment or literal. */
  function Minified(s: string): Option<string>
    decreases |s|
  {
    if s == "" then Some("")
    else if IsBlank(s[0]) then Minified(s[1..])
    else if StartsWith(s, '/', '/') then Minified(AfterLine(s))
    else if StartsWith(s, '/', '*') then
      match AfterBlock(s) case None => None case Some(rest) => Minified(rest)
    else if s[0] == '\"' then
      match LiteralLength(s[1..]) case None => None case Some(n) => Prepend(s[..n + 1], Minified(s[n + 1..]))
    else Prepend(s[..1], Minified(s[1..]))
  }

  // ----- The loop in place -----

  /** The text a NUL-terminated buffer holds. */
  ghost predicate Holds(a: array<char>, s: string)
    reads a
  {
    Unread(a, s, 0)
  }

  ghost predicate NulFree(s: string) {
    forall i :: 0 <= i < |s| ==> s[i] != '\0'
  }

  lemma NulFreeAppend(w: string, s: string, from: nat, to: nat)
    requires NulFree(w) && NulFree(s) && from <= to <= |s|
    ensures NulFree(w + s[from..to])
  {
  }

  /** From position at on, the buffer still holds the original text. */
  ghost predicate Unread(a: array<char>, s: string, at: nat)
    reads a
  {
    && at <= |s| < a.Length && a[|s|] == '\0'
    && NulFree(s)
    && (forall i :: at <= i < |s| ==> a[i] == s[i])
  }

  /** Before position into, the buffer holds what has been written. */
  ghost predicate Written(a: array<char>, w: string, into: nat)
    reads a
  {
    into == |w| <= a.Length && forall i :: 0 <= i < into ==> a[i] == w[i]
  }

  lemma LineStep(s: string, at: nat)
    requires at < |s| && s[at] != '\n'
    ensures AfterLine(s[at..]) == AfterLine(s[at + 1..])
  {
  }

  lemma BlockStep(s: string, at: nat)
    requires at < |s| && !(s[at] == '*' && at + 1 < |s| && s[at + 1] == '/')
    ensures AfterBlock(s[at..]) == AfterBlock(s[at + 1..])
  {
  }

  /** Adds to a length. */
  function Plus(k: nat, n: Option<nat>): Option<nat> {
    match n case None => None case Some(m) => Some(m + k)
  }

  lemma LiteralStep(s: string, at: nat)
    requires at < |s| && s[at] != '\"'
    ensures var k := if s[at] == '\\' then 2 else 1;
      LiteralLength(s[at..]) == if at + k > |s| then None else Plus(k, LiteralLength(s[at + k..]))
  {
    var k := if s[at] == '\\' then 2 else 1;
    assert at + k <= |s| ==> s[at..][k..] == s[at + k..];
  }

  lemma LiteralEnd(s: string, at: nat)
    requires at <= |s| && (at < |s| ==> s[at] == '\"')
    ensures LiteralLength(s[at..]) == if at < |s| then Some(1) else None
  {
  }

  method SkipLine(a: array<char>, start: nat, ghost s: string) returns (at: nat)
    requires Unread(a, s, start)
    ensures start <= at <= |s| && s[at..] == AfterLine(s[start..])
  {
    at := start;
    while a[at] != '\0' && a[at] != '\n'
      invariant start <= at <= |s| && AfterLine(s[at..]) == AfterLine(s[start..])
      decreases |s| - at
    {
      LineStep(s, at);
      at := at + 1;
    }
  }

  /** Whether the comment is closed, and where it ends; at the terminator the source steps two bytes on. */
  method SkipBlock(a: array<char>, start: nat, ghost s: string) returns (inside: bool, at: nat)
    requires Unread(a, s, start)
    ensures inside <==> AfterBlock(s[start..]).Some?
    ensures inside ==> start <= at <= |s| && s[at..] == AfterBlock(s[start..]).value
  {
    at := start;
    while a[at] != '\0' && !(a[at] == '*' && a[at + 1] == '/')
      invariant start <= at <= |s| && AfterBlock(s[at..]) == AfterBlock(s[start..])
      decreases |s| - at
    {
      BlockStep(s, at);
      at := at + 1;
    }
    if a[at] == '\0' {
      return false, at;
    }
    assert s[at..][2..] == s[at + 2..];
    inside, at := true, at + 2;
  }

  /** The characters at and after the read cursor are those of the text. */
  lemma Look(a: array<char>, s: string, at: nat)
    requires Unread(a, s, at)
    ensures at <= |s| < a.Length && (a[at] == '\0' <==> at == |s|)
    ensures at < |s| ==> a[at] == s[at] && (a[at + 1] == if at + 1 < |s| then s[at + 1] else '\0')
    ensures forall k: nat :: at <= k <= |s| ==> Unread(a, s, k)
  {
  }

  /** From position at on, the buffer is as it was. */
  ghost predicate Kept(a: array<char>, was: seq<char>, at: nat)
    reads a
  {
    |was| == a.Length && forall i :: at <= i < a.Length ==> a[i] == was[i]
  }

  lemma KeptLater(a: array<char>, was: seq<char>, at: nat, later: nat)
    requires Kept(a, was, at) && at <= later
    ensures Kept(a, was, later)
  {
  }

  /** Copies one character down to the write cursor, which is at or before the read cursor. */
  method CopyDown(a: array<char>, into: nat, at: nat, ghost w: string, ghost s: string, ghost was: seq<char>)
    requires Kept(a, was, at) && into <= at < |s| && Unread(a, s, at) && Written(a, w, into)
    modifies a
    ensures Unread(a, s, at + 1) && Written(a, w + [s[at]], into + 1) && Kept(a, was, at + 1)
  {
    a[into] := a[at];
  }

  /** Inside a literal that started at position from: the text up to position at has been copied after w. */
  ghost predicate Copied(a: array<char>, s: string, was: seq<char>, w: string, from: nat, into: nat, at: nat)
    reads a
  {
    && from <= at <= |s| < a.Length && into <= at && Unread(a, s, at) && Kept(a, was, at)
    && Written(a, w + s[from..at], into)
  }

  /** CopyDown inside a literal. */
  method CopyNext(a: array<char>, into: nat, at: nat, ghost s: string, ghost was: seq<char>, ghost w: string,
                  ghost from: nat)
    requires Copied(a, s, was, w, from, into, at) && at < |s|
    modifies a
    ensures Copied(a, s, was, w, from, into + 1, at + 1)
    ensures if at + 1 == |s| then a[at + 1] == '\0' else a[at + 1] == s[at + 1] != '\0'
  {
    CopyDown(a, into, at, w + s[from..at], s, was);
    assert w + s[from..at] + [s[at]] == w + s[from..at + 1];
  }

  /**
   Copies a string literal, from its opening quote to its closing one; false when it is not closed, where the
   source goes on past the terminator.
   */
  method CopyLiteral(a: array<char>, into0: nat, at0: nat, ghost w: string, ghost s: string, ghost was: seq<char>)
      returns (inside: bool, into: nat, at: nat)
    requires Kept(a, was, at0) && into0 <= at0 < |s| && Unread(a, s, at0) && Written(a, w, into0)
    requires s[at0] == '\"'
    modifies a
    ensures inside <==> LiteralLength(s[at0 + 1..]).Some?
    ensures inside ==>
      && at == at0 + 1 + LiteralLength(s[at0 + 1..]).value && into - into0 == at - at0 && at <= |s|
      && Unread(a, s, at) && Written(a, w + s[at0..at], into) && Kept(a, was, at)
  {
    hide Copied, LiteralLength, Unread, Kept, Written;
    CopiedStart(a, s, was, w, into0, at0);
    CopyNext(a, into0, at0, s, was, w, at0);
    into, at := into0 + 1, at0 + 1;
    while a[at] != '\0' && a[at] != '\"'
      invariant at0 < at <= |s| < a.Length && into - into0 == at - at0
      invariant Copied(a, s, was, w, at0, into, at)
      invariant if at < |s| then a[at] == s[at] != '\0' else a[at] == '\0'
      invariant LiteralLength(s[at0 + 1..]) == Plus(at - at0 - 1, LiteralLength(s[at..]))
      decreases |s| - at
    {
      inside, into, at := CopyPiece(a, into, at, s, was, w, at0);
      if !inside {
        return;
      }
    }
    LiteralEnd(s, at);
    if a[at] == '\0' {
      return false, into, at;
    }
    CopyNext(a, into, at, s, was, w, at0);
    inside, into, at := true, into + 1, at + 1;
    CopiedDone(a, s, was, w, at0, into, at);
  }

  /** One round of that loop: a byte, or a backslash and the byte after it. */
  method CopyPiece(a: array<char>, into0: nat, at0: nat, ghost s: string, ghost was: seq<char>, ghost w: string,
                   ghost from: nat) returns (inside: bool, into: nat, at: nat)
    requires Copied(a, s, was, w, from, into0, at0) && at0 < |s| < a.Length && a[at0] == s[at0] != '\"'
    modifies a
    ensures !inside ==> LiteralLength(s[at0..]).None?
    ensures inside ==> at0 < at <= |s| && into - into0 == at - at0 && Copied(a, s, was, w, from, into, at)
    ensures inside ==> LiteralLength(s[at0..]) == Plus(at - at0, LiteralLength(s[at..]))
    ensures inside ==> if at < |s| then a[at] == s[at] != '\0' else a[at] == '\0'
  {
    hide Copied, LiteralLength;
    LiteralStep(s, at0);
    into, at := into0, at0;
    if a[at] == '\\' {
      CopyNext(a, into, at, s, was, w, from);
      into, at := into + 1, at + 1;
      if a[at] == '\0' {
        return false, into, at;
      }
    }
    CopyNext(a, into, at, s, was, w, from);
    inside, into, at := true, into + 1, at + 1;
  }

  lemma CopiedStart(a: array<char>, s: string, was: seq<char>, w: string, into: nat, at: nat)
    requires into <= at && Unread(a, s, at) && Kept(a, was, at) && Written(a, w, into)
    ensures at <= |s| < a.Length && Copied(a, s, was, w, at, into, at)
  {
  }

  lemma CopiedDone(a: array<char>, s: string, was: seq<char>, w: string, from: nat, into: nat, at: nat)
    requires Copied(a, s, was, w, from, into, at)
    ensures from <= at <= |s| && Unread(a, s, at) && Kept(a, was, at) && Written(a, w + s[from..at], into)
  {
  }

  lemma StepLiteral(s: string, at: nat)
    requires at < |s| && s[at] == '\"'
    ensures match LiteralLength(s[at + 1..])
      case None => Minified(s[at..]).None?
      case Some(n) => Minified(s[at..]) == Prepend(s[at..at + 1 + n], Minified(s[at + 1 + n..]))
  {
    var t := s[at..];
    assert t[1..] == s[at + 1..];
    if LiteralLength(t[1..]).Some? {
      var n := LiteralLength(t[1..]).value + 1;
      assert t[..n] == s[at..at + n] && t[n..] == s[at + n..];
    }
  }

  lemma StepBlank(s: string, at: nat)
    requires at < |s| && IsBlank(s[at])
    ensures Minified(s[at..]) == Minified(s[at + 1..])
  {
  }

  lemma StepOther(s: string, at: nat)
    requires at < |s| && !IsBlank(s[at]) && s[at] != '\"'
    requires s[at] == '/' && at + 1 < |s| ==> s[at + 1] != '/' && s[at + 1] != '*'
    ensures Minified(s[at..]) == Prepend([s[at]], Minified(s[at + 1..]))
  {
    var t := s[at..];
    assert t[1..] == s[at + 1..] && t[..1] == [s[at]];
  }

  lemma StepComment(s: string, at: nat)
    requires at + 1 < |s| && s[at] == '/'
    ensures s[at + 1] == '/' ==> Minified(s[at..]) == Minified(AfterLine(s[at..]))
    ensures s[at + 1] == '*' ==>
      Minified(s[at..]) == if AfterBlock(s[at..]).None? then None else Minified(AfterBlock(s[at..]).value)
  {
  }

  lemma PrependTwice(a: string, b: string, c: Option<string>)
    ensures Prepend(a, Prepend(b, c)) == Prepend(a + b, c)
  {
    if c.Some? {
      assert a + (b + c.value) == a + b + c.value;
    }
  }

  /** What the loop of cJSON_Minify keeps: w is what it has written, and s from at on is what it has to read. */
  ghost predicate Loop(a: array<char>, s: string, was: seq<char>, w: string, into: nat, at: nat)
    reads a
  {
    && into <= at <= |s| < a.Length && Unread(a, s, at) && Written(a, w, into) && Kept(a, was, at) && NulFree(w)
    && Minified(s) == Prepend(w, Minified(s[at..]))
  }

  /** One round that copies nothing: blanks and comments. False where the source goes past the terminator. */
  method SkipRound(a: array<char>, into: nat, at: nat, ghost s: string, ghost was: seq<char>, ghost w: string)
      returns (inside: bool, at': nat)
    requires Loop(a, s, was, w, into, at) && at < |s|
    requires a[at] == ' ' || a[at] == '\t' || a[at] == '\r' || a[at] == '\n'
      || (a[at] == '/' && (a[at + 1] == '/' || a[at + 1] == '*'))
    ensures if inside then into <= at < at' && Loop(a, s, was, w, into, at') else Minified(s).None?
  {
    PrependNone(w);
    hide Written, Kept, NulFree, LiteralLength, Minified, Unread, Prepend, AfterBlock;
    Look(a, s, at);
    inside := true;
    if a[at] == ' ' || a[at] == '\t' || a[at] == '\r' || a[at] == '\n' {
      StepBlank(s, at);
      at' := at + 1;
    } else if a[at] == '/' && a[at + 1] == '/' {
      StepComment(s, at);
      at' := SkipLine(a, at, s);
    } else {
      hide AfterLine;
      StepComment(s, at);
      inside, at' := SkipBlock(a, at, s);
      if !inside {
        return;
      }
    }
    KeptLater(a, was, at, at');
  }

  /** One round that copies a literal or one other character. False where the source goes past the terminator. */
  method CopyRound(a: array<char>, into: nat, at: nat, ghost s: string, ghost was: seq<char>, ghost w: string)
      returns (inside: bool, into': nat, at': nat, ghost w': string)
    requires Loop(a, s, was, w, into, at) && at < |s|
    requires !IsBlank(a[at]) && (a[at] == '/' ==> a[at + 1] != '/' && a[at + 1] != '*')
    modifies a
    ensures if inside then into' <= at' && at < at' && Loop(a, s, was, w', into', at') else Minified(s).None?
  {
    PrependNone(w);
    hide Written, Kept, LiteralLength, Minified, Unread, Prepend, AfterLine, AfterBlock;
    Look(a, s, at);
    NulFreeText(a, s, at);
    hide NulFree;
    w' := w;
    if a[at] == '\"' {
      StepLiteral(s, at);
      inside, into', at' := CopyLiteral(a, into, at, w, s, was);
      if !inside {
        return;
      }
    } else {
      StepOther(s, at);
      CopyDown(a, into, at, w, s, was);
      inside, into', at' := true, into + 1, at + 1;
      assert s[at..at'] == [s[at]];
    }
    PrependTwice(w, s[at..at'], Minified(s[at'..]));
    NulFreeAppend(w, s, at, at');
    w' := w + s[at..at'];
  }

  lemma PrependNone(w: string)
    ensures Prepend(w, None) == None
  {
  }

  lemma NulFreeText(a: array<char>, s: string, at: nat)
    requires Unread(a, s, at)
    ensures NulFree(s)
  {
  }

  /**
   cJSON_Minify: the write cursor never passes the read cursor, and what it leaves is the minified text. The
   result is false where the source goes past the terminator, which happens exactly on texts whose minified
   form is missing.
   */
  method Minify(json: array<char>, ghost s: string) returns (inside: bool)
    requires Holds(json, s)
    modifies json
    ensures inside <==> Minified(s).Some?
    ensures inside ==> |Minified(s).value| <= |s| && Holds(json, Minified(s).value)
    ensures inside ==> forall i :: |s| < i < json.Length ==> json[i] == old(json[i])
  {
    var into: nat, at: nat := 0, 0;
    ghost var was, w := json[..], "";
    LoopStart(json, s);
    while json[at] != '\0'
      invariant at < json.Length && Loop(json, s, was, w, into, at) && (json[at] == '\0' <==> at == |s|)
      decreases |s| - at
    {
      hide Loop;
      AtText(json, s, was, w, into, at);
      if json[at] == ' ' || json[at] == '\t' || json[at] == '\r' || json[at] == '\n'
        || (json[at] == '/' && (json[at + 1] == '/' || json[at + 1] == '*')) {
        inside, at := SkipRound(json, into, at, s, was, w);
      } else {
        inside, into, at, w := CopyRound(json, into, at, s, was, w);
      }
      if !inside {
        return;
      }
      AtText(json, s, was, w, into, at);
    }
    assert w + "" == w;
    json[into] := '\0';
    inside := true;
  }

  lemma LoopStart(a: array<char>, s: string)
    requires Holds(a, s)
    ensures Loop(a, s, a[..], "", 0, 0) && (a[0] == '\0' <==> 0 == |s|)
  {
    assert s[0..] == s && (Minified(s).Some? ==> "" + Minified(s).value == Minified(s).value);
  }

  lemma AtText(a: array<char>, s: string, was: seq<char>, w: string, into: nat, at: nat)
    requires Loop(a, s, was, w, into, at)
    ensures at <= |s| < a.Length && (a[at] == '\0' <==> at == |s|)
  {
  }

  // ----- Minifying a rendering -----

  /** Whatever follows it, text s minifies to t. */
  ghost predicate Shrinks(s: string, t: string) {
    forall rest: string {:trigger s + rest} :: Minified(s + rest) == Prepend(t, Minified(rest))
  }

  lemma ShrinksAppend(s: string, t: string, s': string, t': string)
    requires Shrinks(s, t) && Shrinks(s', t')
    ensures Shrinks(s + s', t + t')
  {
    hide Minified, Prepend;
    forall rest: string ensures Minified(s + s' + rest) == Prepend(t + t', Minified(rest)) {
      assert s + s' + rest == s + (s' + rest);
      assert Minified(s' + rest) == Prepend(t', Minified(rest));
      PrependTwice(t, t', Minified(rest));
    }
  }

  lemma ShrinksNothing()
    ensures Shrinks("", "")
  {
    forall rest: string ensures Minified("" + rest) == Prepend("", Minified(rest)) {
      assert "" + rest == rest;
      if Minified(rest).Some? {
        assert "" + Minified(rest).value == Minified(rest).value;
      }
    }
  }

  predicate Plain(s: string) {
    forall c :: c in s ==> !IsBlank(c) && c != '/' && c != '\"'
  }

  lemma {:induction false} ShrinksPlain(s: string)
    requires Plain(s)
    ensures Shrinks(s, s)
  {
    if s == "" {
      ShrinksNothing();
    } else {
      ShrinksPlain(s[1..]);
      assert Shrinks(s[..1], s[..1]) by {
        forall rest: string ensures Minified(s[..1] + rest) == Prepend(s[..1], Minified(rest)) {
          assert s[0] in s;
          StepOther(s[..1] + rest, 0);
          assert (s[..1] + rest)[0..] == s[..1] + rest && (s[..1] + rest)[1..] == rest;
        }
      }
      ShrinksAppend(s[..1], s[..1], s[1..], s[1..]);
      assert s == s[..1] + s[1..];
    }
  }

  lemma {:induction false} ShrinksBlank(s: string)
    requires forall c :: c in s ==> IsBlank(c)
    ensures Shrinks(s, "")
  {
    if s == "" {
      ShrinksNothing();
    } else {
      ShrinksBlank(s[1..]);
      forall rest: string ensures Minified(s + rest) == Prepend("", Minified(rest)) {
        assert s[0] in s;
        assert (s + rest)[1..] == s[1..] + rest;
      }
    }
  }

  lemma OneInLiteral(c: char, tail: string)
    requires c != '\\' && c != '\"' && LiteralLength(tail).Some?
    ensures LiteralLength([c] + tail) == Some(LiteralLength(tail).value + 1)
  {
  }

  lemma TwoInLiteral(c: char, tail: string)
    requires LiteralLength(tail).Some?
    ensures LiteralLength(['\\', c] + tail) == Some(LiteralLength(tail).value + 2)
  {
  }

  lemma UnicodeInLiteral(h: string, tail: string)
    requires |h| == 4 && (forall i :: 0 <= i < 4 ==> h[i] != '\\' && h[i] != '\"')
    requires LiteralLength(tail).Some?
    ensures LiteralLength(['\\', 'u'] + h + tail) == Some(LiteralLength(tail).value + 6)
  {
    hide LiteralLength;
    PlainInLiteral(h, tail);
    TwoInLiteral('u', h + tail);
    assert ['\\', 'u'] + h + tail == ['\\', 'u'] + (h + tail);
  }

  lemma {:induction false} PlainInLiteral(h: string, tail: string)
    requires (forall i :: 0 <= i < |h| ==> h[i] != '\\' && h[i] != '\"') && LiteralLength(tail).Some?
    ensures LiteralLength(h + tail) == Some(LiteralLength(tail).value + |h|)
  {
    hide LiteralLength;
    if h == "" {
      assert h + tail == tail;
    } else {
      PlainInLiteral(h[1..], tail);
      OneInLiteral(h[0], h[1..] + tail);
      assert h + tail == [h[0]] + (h[1..] + tail);
    }
  }

  lemma ShortEscapes(c: char)
    ensures ShortEscape(c) == '\0' ==> c != '\\' && c != '\"'
  {
  }

  lemma Hex4Plain(n: nat)
    ensures n < 0x10000 ==> var h := Hex4(n); |h| == 4 && forall i :: 0 <= i < 4 ==> h[i] != '\\' && h[i] != '\"'
  {
  }

  lemma EscapeCharInLiteral(c: char, tail: string)
    requires LiteralLength(tail).Some?
    ensures LiteralLength(EscapeChar(c) + tail) == Some(LiteralLength(tail).value + |EscapeChar(c)|)
  {
    hide LiteralLength, ShortEscape, Hex4;
    ShortEscapes(c);
    if ShortEscape(c) != '\0' {
      TwoInLiteral(ShortEscape(c), tail);
    } else if c as int < 32 {
      Hex4Plain(c as int);
      UnicodeInLiteral(Hex4(c as int), tail);
    } else {
      OneInLiteral(c, tail);
    }
  }

  lemma {:induction false} EscapedLiteral(t: string, rest: string)
    ensures LiteralLength(Escape(t) + ("\"" + rest)) == Some(|Escape(t)| + 1)
  {
    hide LiteralLength, EscapeChar;
    var end := "\"" + rest;
    if t == "" {
      LiteralEnd(end, 0);
      assert Escape(t) + end == end[0..];
    } else {
      EscapedLiteral(t[1..], rest);
      var tail := Escape(t[1..]) + end;
      EscapeCharInLiteral(t[0], tail);
      assert Escape(t) + end == EscapeChar(t[0]) + tail;
    }
  }

  lemma ShrinksQuote(t: string)
    ensures Shrinks(Quote(t), Quote(t))
  {
    hide Minified, Escape, LiteralLength;
    var e := Escape(t);
    forall rest: string ensures Minified(Quote(t) + rest) == Prepend(Quote(t), Minified(rest)) {
      EscapedLiteral(t, rest);
      QuoteParts(e, rest);
      MinifiedLiteral(Quote(t) + rest, |e| + 2);
    }
  }

  lemma QuoteParts(e: string, rest: string)
    ensures var s := "\"" + e + "\"" + rest;
      s[1..] == e + ("\"" + rest) && s[..|e| + 2] == "\"" + e + "\"" && s[|e| + 2..] == rest
  {
  }

  lemma MinifiedLiteral(s: string, n: nat)
    requires s != "" && s[0] == '\"' && n > 0 && LiteralLength(s[1..]) == Some(n - 1)
    ensures Minified(s) == Prepend(s[..n], Minified(s[n..]))
  {
  }

  lemma {:induction false} DigitsPlain(n: nat)
    ensures Plain(Digits(n))
  {
    if n >= 10 {
      DigitsPlain(n / 10);
    }
  }

  lemma ShrinksDecimal(v: int)
    ensures Shrinks(Decimal(v), Decimal(v))
  {
    DigitsPlain(if v < 0 then -v else v);
    ShrinksPlain(Decimal(v));
  }

  /** The formatted text of a tree, at any depth, minifies to its unformatted text, whatever follows. */
  lemma {:induction false} ShrinksRender(v: Json, depth: nat, depth': nat)
    ensures Shrinks(Render(v, depth, true), Render(v, depth', false))
    decreases v
  {
    hide Shrinks, Minified, Quote, Decimal;
    ShrinksWords();
    match v
    case Null =>
    case False =>
    case True =>
    case Number(m, _) => ShrinksDecimal(m);
    case Str(t) => ShrinksQuote(t);
    case Arr(items) =>
      ShrinksItems(items, depth + 1, depth' + 1);
      Around("[", "[", RenderItems(items, depth + 1, true), RenderItems(items, depth' + 1, false), "]", "]");
    case Obj(members) =>
      ShrinksOpening();
      if members.NoMembers? {
        ShrinksClosing(if depth > 0 then depth - 1 else 0);
        ShrinksAppend("{\n", "{", Tabs(if depth > 0 then depth - 1 else 0) + "}", "}");
        assert Render(v, depth, true) == "{\n" + (Tabs(if depth > 0 then depth - 1 else 0) + "}");
        assert Render(v, depth', false) == "{" + "}";
      } else {
        ShrinksClosing(depth);
        ShrinksMembers(members, depth + 1, depth' + 1);
        Around("{\n", "{", RenderMembers(members, depth + 1, true), RenderMembers(members, depth' + 1, false),
               Tabs(depth) + "}", "}");
        assert Render(v, depth', false) == "{" + RenderMembers(members, depth' + 1, false) + "}";
      }
  }

  lemma ShrinksWords()
    ensures Shrinks("null", "null") && Shrinks("false", "false") && Shrinks("true", "true") && Shrinks("[", "[")
      && Shrinks("]", "]")
  {
    hide Shrinks;
    ShrinksPlain("null");
    ShrinksPlain("false");
    ShrinksPlain("true");
    ShrinksPlain("[");
    ShrinksPlain("]");
  }

  lemma Around(a: string, a': string, b: string, b': string, c: string, c': string)
    requires Shrinks(a, a') && Shrinks(b, b') && Shrinks(c, c')
    ensures Shrinks(a + b + c, a' + b' + c')
  {
    ShrinksAppend(a, a', b, b');
    ShrinksAppend(a + b, a' + b', c, c');
  }

  lemma ShrinksOpening()
    ensures Shrinks("{\n", "{")
  {
    ShrinksPlain("{");
    ShrinksBlank("\n");
    ShrinksAppend("{", "{", "\n", "");
    assert "{" + "\n" == "{\n" && "{" + "" == "{";
  }

  lemma ShrinksClosing(n: nat)
    ensures Shrinks(Tabs(n) + "}", "}")
  {
    ShrinksBlank(Tabs(n));
    ShrinksPlain("}");
    ShrinksAppend(Tabs(n), "", "}", "}");
    assert "" + "}" == "}";
  }

  lemma {:induction false} ShrinksItems(items: Items, depth: nat, depth': nat)
    ensures Shrinks(RenderItems(items, depth, true), RenderItems(items, depth', false))
    decreases items
  {
    hide Shrinks, Minified, Render;
    match items
    case NoItems => ShrinksNothing();
    case Item(v, next) =>
      ShrinksRender(v, depth, depth');
      ShrinksSeparator(next);
      ShrinksItems(next, depth, depth');
      ShrinksAppend(Separator(next, true), Separator(next, false),
                    RenderItems(next, depth, true), RenderItems(next, depth', false));
      ShrinksAppend(Render(v, depth, true), Render(v, depth', false),
                    Separator(next, true) + RenderItems(next, depth, true),
                    Separator(next, false) + RenderItems(next, depth', false));
  }

  lemma ShrinksSeparator(next: Items)
    ensures Shrinks(Separator(next, true), Separator(next, false))
  {
    if next.NoItems? {
      ShrinksNothing();
    } else {
      ShrinksPlain(",");
      ShrinksBlank(" ");
      ShrinksAppend(",", ",", " ", "");
      assert "," + " " == ", " && "," + "" == ",";
    }
  }

  lemma ShrinksColon()
    ensures Shrinks(":\t", ":")
  {
    ShrinksPlain(":");
    ShrinksBlank("\t");
    ShrinksAppend(":", ":", "\t", "");
    assert ":" + "\t" == ":\t" && ":" + "" == ":";
  }

  lemma ShrinksLineEnd(next: Members)
    ensures Shrinks(LineEnd(next, true), LineEnd(next, false))
  {
    ShrinksBlank("\n");
    if next.NoMembers? {
      assert "" + "\n" == "\n" && "" + "" == "";
    } else {
      ShrinksPlain(",");
      ShrinksAppend(",", ",", "\n", "");
    }
  }

  lemma {:induction false} ShrinksMembers(members: Members, depth: nat, depth': nat)
    ensures Shrinks(RenderMembers(members, depth, true), RenderMembers(members, depth', false))
    decreases members
  {
    hide Shrinks, Minified, Render, Quote, Tabs, LineEnd;
    match members
    case NoMembers => ShrinksNothing();
    case Member(name, v, next) =>
      ShrinksBlankTabs(depth);
      ShrinksQuote(name);
      ShrinksColon();
      ShrinksRender(v, depth, depth');
      ShrinksLineEnd(next);
      ShrinksMembers(next, depth, depth');
      var more, more' := RenderMembers(next, depth, true), RenderMembers(next, depth', false);
      Around(Quote(name), Quote(name), ":\t", ":", Render(v, depth, true), Render(v, depth', false));
      ShrinksAppend(LineEnd(next, true), LineEnd(next, false), more, more');
      ShrinksAppend(RenderPair(name, v, depth, true), RenderPair(name, v, depth', false),
                    LineEnd(next, true) + more, LineEnd(next, false) + more');
      ShrinksAppend(Tabs(depth), "", RenderPair(name, v, depth, true) + (LineEnd(next, true) + more),
                    RenderPair(name, v, depth', false) + (LineEnd(next, false) + more'));
  }

  lemma ShrinksBlankTabs(n: nat)
    ensures Shrinks(Tabs(n), "")
  {
    ShrinksBlank(Tabs(n));
  }

  /** cJSON_Minify of cJSON_Print is cJSON_PrintUnformatted, for every tree. */
  lemma MinifyPrint(v: Json)
    ensures Minified(Render(v, 0, true)) == Some(Render(v, 0, false))
  {
    ShrinksRender(v, 0, 0);
    var s, t := Render(v, 0, true), Render(v, 0, false);
    hide Render;
    assert s + "" == s && t + "" == t;
    assert Minified(s + "") == Prepend(t, Minified(""));
  }
}
