/**
 Base64 as in base64.c: the encoder and decoder loops over byte buffers, their length
 functions, and the round trip.
 */
module Base64 {
  import opened Tables

  type Bytes = seq<bv8>

  /** The padding character. */
  const PAD: bv8 := 0x3d

  /** basis_64: the ASCII codes of A-Z, a-z, 0-9, + and /. */
  function Basis64(i: bv8): bv8 {
    var k := i & 0x0f;
    match (i >> 4) & 0x03
    case 0x0 => Pick(k, 0x41, 0x42, 0x43, 0x44, 0x45, 0x46, 0x47, 0x48, 0x49, 0x4a, 0x4b, 0x4c, 0x4d, 0x4e, 0x4f, 0x50)
    case 0x1 => Pick(k, 0x51, 0x52, 0x53, 0x54, 0x55, 0x56, 0x57, 0x58, 0x59, 0x5a, 0x61, 0x62, 0x63, 0x64, 0x65, 0x66)
    case 0x2 => Pick(k, 0x67, 0x68, 0x69, 0x6a, 0x6b, 0x6c, 0x6d, 0x6e, 0x6f, 0x70, 0x71, 0x72, 0x73, 0x74, 0x75, 0x76)
    case _ => Pick(k, 0x77, 0x78, 0x79, 0x7a, 0x30, 0x31, 0x32, 0x33, 0x34, 0x35, 0x36, 0x37, 0x38, 0x39, 0x2b, 0x2f)
  }

  /** pr2six: the value of an alphabet character, 64 for every other byte. */
  function Pr2Six(c: bv8): bv8 {
    var k := c & 0x0f;
    match c >> 4
    case 0x0 => 64
    case 0x1 => 64
    case 0x2 => Pick(k, 64, 64, 64, 64, 64, 64, 64, 64, 64, 64, 64, 62, 64, 64, 64, 63)
    case 0x3 => Pick(k, 52, 53, 54, 55, 56, 57, 58, 59, 60, 61, 64, 64, 64, 64, 64, 64)
    case 0x4 => Pick(k, 64, 0, 1, 2, 3, 4, 5, 6, 7, 8, 9, 10, 11, 12, 13, 14)
    case 0x5 => Pick(k, 15, 16, 17, 18, 19, 20, 21, 22, 23, 24, 25, 64, 64, 64, 64, 64)
    case 0x6 => Pick(k, 64, 26, 27, 28, 29, 30, 31, 32, 33, 34, 35, 36, 37, 38, 39, 40)
    case 0x7 => Pick(k, 41, 42, 43, 44, 45, 46, 47, 48, 49, 50, 51, 64, 64, 64, 64, 64)
    case _ => 64
  }

  lemma Basis64Inverse(i: bv8)
    requires i < 64
    ensures Pr2Six(Basis64(i)) == i
  {
    LowBasis(i);
    HighBasis(i);
    hide Basis64, Pr2Six;
  }

  lemma LowBasis(i: bv8)
    requires i < 64
    ensures i < 32 ==> Pr2Six(Basis64(i)) == i
  {
  }

  lemma HighBasis(i: bv8)
    requires i < 64
    ensures i >= 32 ==> Pr2Six(Basis64(i)) == i
  {
  }

  predicate InAlphabet(c: bv8) {
    Pr2Six(c) <= 63
  }

  // ----- Groups of three bytes and four characters -----

  function Sextet0(x: bv8): bv8 {
    (x >> 2) & 0x3f
  }

  function Sextet1(x: bv8, y: bv8): bv8 {
    ((x & 0x03) << 4) | ((y & 0xf0) >> 4)
  }

  function Sextet2(y: bv8, z: bv8): bv8 {
    ((y & 0x0f) << 2) | ((z & 0xc0) >> 6)
  }

  function Sextet3(z: bv8): bv8 {
    z & 0x3f
  }

  function Byte0(a: bv8, b: bv8): bv8 {
    (a << 2) | (b >> 4)
  }

  function Byte1(b: bv8, c: bv8): bv8 {
    (b << 4) | (c >> 2)
  }

  function Byte2(c: bv8, d: bv8): bv8 {
    (c << 6) | d
  }

  lemma GroupInverse(x: bv8, y: bv8, z: bv8)
    ensures Byte0(Sextet0(x), Sextet1(x, y)) == x
    ensures Byte1(Sextet1(x, y), Sextet2(y, z)) == y
    ensures Byte2(Sextet2(y, z), Sextet3(z)) == z
  {
  }

  lemma SextetRange(x: bv8, y: bv8, z: bv8)
    ensures Sextet0(x) < 64 && Sextet1(x, y) < 64 && Sextet2(y, z) < 64 && Sextet3(z) < 64
  {
  }

  // The same on characters.

  function Char0(x: bv8): bv8 {
    Basis64(Sextet0(x))
  }

  function Char1(x: bv8, y: bv8): bv8 {
    Basis64(Sextet1(x, y))
  }

  function Char2(y: bv8, z: bv8): bv8 {
    Basis64(Sextet2(y, z))
  }

  function Char3(z: bv8): bv8 {
    Basis64(Sextet3(z))
  }

  function Plain0(a: bv8, b: bv8): bv8 {
    Byte0(Pr2Six(a), Pr2Six(b))
  }

  function Plain1(b: bv8, c: bv8): bv8 {
    Byte1(Pr2Six(b), Pr2Six(c))
  }

  function Plain2(c: bv8, d: bv8): bv8 {
    Byte2(Pr2Six(c), Pr2Six(d))
  }

  function Group(x: bv8, y: bv8, z: bv8): (r: Bytes)
    ensures |r| == 4
  {
    [Char0(x), Char1(x, y), Char2(y, z), Char3(z)]
  }

  function Ungroup(a: bv8, b: bv8, c: bv8, d: bv8): (r: Bytes)
    ensures |r| == 3
  {
    [Plain0(a, b), Plain1(b, c), Plain2(c, d)]
  }

  // ----- Texts -----

  /** The characters that carry the message x, without padding (section 4 of RFC 4648). */
  function Digits(x: Bytes): Bytes {
    if x == [] then []
    else if |x| == 1 then [Char0(x[0]), Char1(x[0], 0)]
    else if |x| == 2 then [Char0(x[0]), Char1(x[0], x[1]), Char2(x[1], 0)]
    else Group(x[0], x[1], x[2]) + Digits(x[3..])
  }

  /** Padding to a multiple of four characters. */
  function Padding(n: nat): Bytes {
    if n % 3 == 1 then [PAD, PAD] else if n % 3 == 2 then [PAD] else []
  }

  function Encoded(x: Bytes): Bytes {
    Digits(x) + Padding(|x|)
  }

  /** The bytes that a run of alphabet characters stands for; a single left-over character stands for none. */
  function Decoded(s: Bytes): Bytes {
    if |s| <= 1 then []
    else if |s| == 2 then [Plain0(s[0], s[1])]
    else if |s| == 3 then [Plain0(s[0], s[1]), Plain1(s[1], s[2])]
    else Ungroup(s[0], s[1], s[2], s[3]) + Decoded(s[4..])
  }

  /** The alphabet characters at the front of a text. */
  function Leading(s: Bytes): (r: Bytes)
    ensures r <= s && (forall c | c in r :: InAlphabet(c))
    ensures |r| < |s| ==> !InAlphabet(s[|r|])
  {
    if s == [] || !InAlphabet(s[0]) then [] else [s[0]] + Leading(s[1..])
  }

  /** Base64encode_len. */
  function EncodeLen(len: nat): nat {
    (len + 2) / 3 * 4 + 1
  }

  lemma PadNotInAlphabet()
    ensures !InAlphabet(PAD) && !InAlphabet(0)
  {
  }

  lemma BasisInAlphabet(i: bv8)
    requires i < 64
    ensures InAlphabet(Basis64(i)) && Pr2Six(Basis64(i)) == i
  {
    hide Basis64, Pr2Six;
    Basis64Inverse(i);
  }

  lemma CharsInAlphabet(x: bv8, y: bv8, z: bv8)
    ensures InAlphabet(Char0(x)) && InAlphabet(Char1(x, y)) && InAlphabet(Char2(y, z)) && InAlphabet(Char3(z))
    ensures Plain0(Char0(x), Char1(x, y)) == x
    ensures Plain1(Char1(x, y), Char2(y, z)) == y
    ensures Plain2(Char2(y, z), Char3(z)) == z
  {
    SextetRange(x, y, z);
    hide Sextet0, Sextet1, Sextet2, Sextet3, Byte0, Byte1, Byte2, Basis64, Pr2Six, InAlphabet;
    BasisInAlphabet(Sextet0(x));
    BasisInAlphabet(Sextet1(x, y));
    BasisInAlphabet(Sextet2(y, z));
    BasisInAlphabet(Sextet3(z));
    GroupInverse(x, y, z);
  }

  lemma UngroupGroup(x: bv8, y: bv8, z: bv8)
    ensures var g := Group(x, y, z); Ungroup(g[0], g[1], g[2], g[3]) == [x, y, z]
    ensures forall c | c in Group(x, y, z) :: InAlphabet(c)
  {
    hide Char0, Char1, Char2, Char3, Plain0, Plain1, Plain2, InAlphabet;
    CharsInAlphabet(x, y, z);
  }

  lemma {:induction false} DigitsLength(x: Bytes)
    ensures |Digits(x)| == |x| / 3 * 4 + (if |x| % 3 == 0 then 0 else |x| % 3 + 1)
    ensures |Encoded(x)| + 1 == EncodeLen(|x|)
  {
    hide Char0, Char1, Char2, Char3, Group;
    if |x| >= 3 {
      DigitsLength(x[3..]);
    }
  }

  lemma {:induction false} DigitsInAlphabet(x: Bytes)
    ensures forall c | c in Digits(x) :: InAlphabet(c)
  {
    hide Char0, Char1, Char2, Char3, Group, InAlphabet;
    if |x| == 1 {
      CharsInAlphabet(x[0], 0, 0);
    } else if |x| == 2 {
      CharsInAlphabet(x[0], x[1], 0);
    } else if |x| > 2 {
      UngroupGroup(x[0], x[1], x[2]);
      DigitsInAlphabet(x[3..]);
    }
  }

  lemma {:induction false} LeadingIsAll(s: Bytes, t: Bytes)
    requires (forall c | c in s :: InAlphabet(c)) && (t == [] || !InAlphabet(t[0]))
    ensures Leading(s + t) == s
  {
    hide InAlphabet;
    if s == [] {
      assert s + t == t;
    } else {
      assert (s + t)[1..] == s[1..] + t;
      LeadingIsAll(s[1..], t);
    }
  }

  /** Decoding the digits of a message gives the message. */
  lemma {:induction false} DigitsInverse(x: Bytes)
    ensures Decoded(Digits(x)) == x
  {
    hide Char0, Char1, Char2, Char3, Plain0, Plain1, Plain2, Group, Ungroup, InAlphabet;
    if |x| == 1 {
      CharsInAlphabet(x[0], 0, 0);
    } else if |x| == 2 {
      CharsInAlphabet(x[0], x[1], 0);
    } else if |x| > 2 {
      UngroupGroup(x[0], x[1], x[2]);
      DigitsInverse(x[3..]);
      DecodedGroup(Group(x[0], x[1], x[2]), Digits(x[3..]));
      assert x == [x[0], x[1], x[2]] + x[3..];
    }
  }

  lemma DecodedGroup(g: Bytes, s: Bytes)
    requires |g| == 4
    ensures Decoded(g + s) == Ungroup(g[0], g[1], g[2], g[3]) + Decoded(s)
  {
    hide Plain0, Plain1, Plain2, Ungroup;
    assert (g + s)[4..] == s;
  }

  /** Decoding an encoded text, up to its padding or terminator, gives the message back. */
  lemma RoundTrip(x: Bytes, rest: Bytes)
    ensures Decoded(Leading(Encoded(x) + [0] + rest)) == x
  {
    hide Digits, InAlphabet, Decoded, Leading;
    DigitsInAlphabet(x);
    DigitsInverse(x);
    PadNotInAlphabet();
    var t := Padding(|x|) + [0] + rest;
    assert t[0] == PAD || t[0] == 0;
    assert Encoded(x) + [0] + rest == Digits(x) + t;
    LeadingIsAll(Digits(x), t);
  }

  lemma {:induction false} DecodedLength(s: Bytes)
    ensures |Decoded(s)| == if |s| % 4 == 0 then |s| / 4 * 3 else |s| / 4 * 3 + |s| % 4 - 1
  {
    hide Plain0, Plain1, Plain2, Ungroup;
    if |s| >= 4 {
      DecodedLength(s[4..]);
    }
  }

  // ----- Texts that are given back -----

  /** The characters that Basis64 yields are the only ones of the alphabet. */
  lemma AlphabetInverse(c: bv8)
    requires InAlphabet(c)
    ensures Pr2Six(c) < 64 && Basis64(Pr2Six(c)) == c
  {
    var k := c & 0x0f;
    match c >> 4
    case 0x2 => assert c == 0x20 + k;
    case 0x3 => assert c == 0x30 + k;
    case 0x4 => assert c == 0x40 + k;
    case 0x5 => assert c == 0x50 + k;
    case 0x6 => assert c == 0x60 + k;
    case 0x7 => assert c == 0x70 + k;
    case _ =>
  }

  lemma Regroup(a: bv8, b: bv8, c: bv8, d: bv8)
    requires a < 64 && b < 64 && c < 64 && d < 64
    ensures Sextet0(Byte0(a, b)) == a && Sextet1(Byte0(a, b), Byte1(b, c)) == b
    ensures Sextet2(Byte1(b, c), Byte2(c, d)) == c && Sextet3(Byte2(c, d)) == d
  {
  }

  /** The bits of the last character that carry no byte. */
  lemma RegroupLast(a: bv8, b: bv8)
    requires a < 64 && b < 64
    ensures Sextet1(Byte0(a, b), 0) == b <==> b & 0x0f == 0
    ensures Sextet2(Byte1(a, b), 0) == b <==> b & 0x03 == 0
  {
  }

  /** Whether the bits of the last character beyond the last byte are zero, and no character is left over. */
  predicate UnusedBitsZero(d: Bytes) {
    && (|d| % 4 != 1)
    && (|d| % 4 == 2 ==> Pr2Six(d[|d| - 1]) & 0x0f == 0)
    && (|d| % 4 == 3 ==> Pr2Six(d[|d| - 1]) & 0x03 == 0)
  }

  lemma BasisInjective(i: bv8, c: bv8)
    requires i < 64 && InAlphabet(c)
    ensures Basis64(i) == c <==> i == Pr2Six(c)
  {
    hide Basis64, Pr2Six, InAlphabet;
    AlphabetInverse(c);
    Basis64Inverse(i);
  }

  /** The first two characters of a group, and the last two. */
  lemma PlainChars(a: bv8, b: bv8, c: bv8, d: bv8)
    requires InAlphabet(a) && InAlphabet(b) && InAlphabet(c) && InAlphabet(d)
    ensures Char0(Plain0(a, b)) == a && Char1(Plain0(a, b), Plain1(b, c)) == b
    ensures Char2(Plain1(b, c), Plain2(c, d)) == c && Char3(Plain2(c, d)) == d
  {
    hide Basis64, Pr2Six, InAlphabet, Sextet0, Sextet1, Sextet2, Sextet3, Byte0, Byte1, Byte2;
    AlphabetInverse(a);
    AlphabetInverse(b);
    AlphabetInverse(c);
    AlphabetInverse(d);
    Regroup(Pr2Six(a), Pr2Six(b), Pr2Six(c), Pr2Six(d));
  }

  /** A character before a last byte of zero: the bits it shares with that byte must be zero. */
  lemma PlainLast(a: bv8, b: bv8)
    requires InAlphabet(a) && InAlphabet(b)
    ensures Char0(Plain0(a, b)) == a
    ensures Char1(Plain0(a, b), 0) == b <==> Pr2Six(b) & 0x0f == 0
    ensures Char2(Plain1(a, b), 0) == b <==> Pr2Six(b) & 0x03 == 0
  {
    hide Basis64, Pr2Six, InAlphabet, Sextet0, Sextet1, Sextet2, Sextet3, Byte0, Byte1, Byte2;
    AlphabetInverse(a);
    AlphabetInverse(b);
    SextetRange(Plain0(a, b), 0, 0);
    SextetRange(0, Plain1(a, b), 0);
    Regroup(Pr2Six(a), Pr2Six(b), 0, 0);
    RegroupLast(Pr2Six(a), Pr2Six(b));
    BasisInjective(Sextet1(Plain0(a, b), 0), b);
    BasisInjective(Sextet2(Plain1(a, b), 0), b);
  }

  lemma GroupUngroup(a: bv8, b: bv8, c: bv8, d: bv8)
    requires InAlphabet(a) && InAlphabet(b) && InAlphabet(c) && InAlphabet(d)
    ensures var u := Ungroup(a, b, c, d); Group(u[0], u[1], u[2]) == [a, b, c, d]
  {
    hide Char0, Char1, Char2, Char3, Plain0, Plain1, Plain2, InAlphabet;
    PlainChars(a, b, c, d);
  }

  lemma DigitsGroup(u: Bytes, x: Bytes)
    requires |u| == 3
    ensures Digits(u + x) == Group(u[0], u[1], u[2]) + Digits(x)
  {
    hide Group, Char0, Char1, Char2;
    assert (u + x)[3..] == x;
  }

  lemma UnusedBitsTail(d: Bytes)
    requires |d| >= 4
    ensures UnusedBitsZero(d[4..]) == UnusedBitsZero(d)
  {
    hide Pr2Six;
    assert |d| > 4 ==> d[4..][|d| - 5] == d[|d| - 1];
  }

  /** A run of alphabet characters is the digits of its decoding exactly when it wastes nothing. */
  lemma {:induction false} DigitsDecoded(d: Bytes)
    requires forall c | c in d :: InAlphabet(c)
    ensures Digits(Decoded(d)) == d <==> UnusedBitsZero(d)
  {
    hide InAlphabet, Decoded, Digits, UnusedBitsZero;
    if |d| >= 4 {
      var g, s := d[..4], d[4..];
      assert d == g + s;
      DigitsDecodedGroup(g, s);
      SamePrefix(g, Digits(Decoded(s)), s);
      DigitsDecoded(s);
      UnusedBitsTail(d);
    } else {
      DigitsDecodedLast(d);
    }
  }

  lemma DigitsDecodedGroup(g: Bytes, s: Bytes)
    requires |g| == 4 && forall c | c in g :: InAlphabet(c)
    ensures Digits(Decoded(g + s)) == g + Digits(Decoded(s))
  {
    hide Group, Ungroup, InAlphabet, Decoded, Digits;
    DecodedGroup(g, s);
    DigitsGroup(Ungroup(g[0], g[1], g[2], g[3]), Decoded(s));
    GroupUngroup(g[0], g[1], g[2], g[3]);
    assert g == [g[0], g[1], g[2], g[3]];
  }

  lemma SamePrefix(g: Bytes, s: Bytes, t: Bytes)
    ensures g + s == g + t <==> s == t
  {
    assert (g + s)[|g|..] == s && (g + t)[|g|..] == t;
  }

  lemma DigitsDecodedLast(d: Bytes)
    requires |d| < 4 && forall c | c in d :: InAlphabet(c)
    ensures Digits(Decoded(d)) == d <==> UnusedBitsZero(d)
  {
    hide Digits, Decoded, UnusedBitsZero, InAlphabet;
    if |d| < 2 {
      DigitsDecodedShort(d);
    } else if |d| == 2 {
      assert d == [d[0], d[1]] && d[0] in d && d[1] in d;
      DigitsDecodedTwo(d[0], d[1]);
    } else {
      assert d == [d[0], d[1], d[2]] && d[0] in d && d[1] in d && d[2] in d;
      DigitsDecodedThree(d[0], d[1], d[2]);
    }
  }

  lemma DigitsDecodedShort(d: Bytes)
    requires |d| < 2
    ensures Digits(Decoded(d)) == d <==> UnusedBitsZero(d)
  {
    hide Pr2Six;
  }

  lemma DigitsDecodedTwo(a: bv8, b: bv8)
    requires InAlphabet(a) && InAlphabet(b)
    ensures Digits(Decoded([a, b])) == [a, b] <==> UnusedBitsZero([a, b])
  {
    hide Char0, Char1, Char2, Char3, Plain0, Plain1, Plain2, InAlphabet, Pr2Six;
    PlainLast(a, b);
    assert Decoded([a, b]) == [Plain0(a, b)];
  }

  lemma DigitsDecodedThree(a: bv8, b: bv8, c: bv8)
    requires InAlphabet(a) && InAlphabet(b) && InAlphabet(c)
    ensures Digits(Decoded([a, b, c])) == [a, b, c] <==> UnusedBitsZero([a, b, c])
  {
    hide Char0, Char1, Char2, Char3, Plain0, Plain1, Plain2, InAlphabet, Pr2Six;
    PlainChars(a, b, c, c);
    PlainLast(b, c);
    assert Decoded([a, b, c]) == [Plain0(a, b), Plain1(b, c)];
  }

  /** Base64 in its canonical form (section 3.5 of RFC 4648): whole groups of four characters, of the alphabet but for
      at most two characters of padding at the end, and no bit set that carries no byte. */
  predicate Canonical(s: Bytes) {
    var d := Leading(s);
    && |s| % 4 == 0
    && |s| - 2 <= |d|
    && (forall k :: |d| <= k < |s| ==> s[k] == PAD)
    && UnusedBitsZero(d)
  }

  /** Padding fills the last group, with at most two characters. */
  lemma PaddingFills(x: Bytes, k: nat)
    ensures |Padding(|x|)| <= 2 && (forall c | c in Padding(|x|) :: c == PAD)
    ensures k <= 2 ==> ((|Digits(x)| + k) % 4 == 0 <==> k == |Padding(|x|)|)
  {
    hide Digits;
    var q, r := |x| / 3, |x| % 3;
    DigitsLength(x);
    assert |Digits(x)| == 4 * q + if r == 0 then 0 else r + 1;
  }

  lemma CanonicalGivenBack(s: Bytes)
    requires Canonical(s)
    ensures Encoded(Decoded(Leading(s))) == s
  {
    var d := Leading(s);
    hide InAlphabet, Digits, Decoded, Leading, UnusedBitsZero, Padding;
    var x, q := Decoded(d), s[|d|..];
    DigitsDecoded(d);
    PaddingFills(x, |q|);
    AllPad(q, Padding(|x|));
    assert s == d + q;
  }

  lemma AllPad(p: Bytes, q: Bytes)
    requires |p| == |q| && (forall c | c in p :: c == PAD) && (forall c | c in q :: c == PAD)
    ensures p == q
  {
    forall k | 0 <= k < |p| ensures p[k] == q[k] {
      assert p[k] in p && q[k] in q;
    }
  }

  lemma GivenBackCanonical(s: Bytes)
    requires Encoded(Decoded(Leading(s))) == s
    ensures Canonical(s)
  {
    var d := Leading(s);
    hide InAlphabet, Digits, Decoded, Leading, UnusedBitsZero, Padding;
    var x := Decoded(d);
    var p := Padding(|x|);
    DigitsDecoded(d);
    DigitsInAlphabet(x);
    PaddingFills(x, |p|);
    PadNotInAlphabet();
    assert p != [] ==> p[0] in p;
    LeadingIsAll(Digits(x), p);
    assert s == d + p;
    forall k | |d| <= k < |s| ensures s[k] == PAD {
      assert p[k - |d|] in p;
    }
  }

  /** Encoding what was decoded gives the text back exactly for canonical texts. */
  lemma EncodedDecoded(s: Bytes)
    ensures Encoded(Decoded(Leading(s))) == s <==> Canonical(s)
  {
    hide Encoded, Decoded, Leading, Canonical;
    if Canonical(s) {
      CanonicalGivenBack(s);
    }
    if Encoded(Decoded(Leading(s))) == s {
      GivenBackCanonical(s);
    }
  }

  // ----- The loops -----

  /** Four characters at position p, before position end. */
  method Put4(out: array<bv8>, p: nat, a: bv8, b: bv8, c: bv8, d: bv8, ghost end: nat)
    requires p + 4 <= end <= out.Length
    modifies out
    ensures out[..p + 4] == old(out[..p]) + [a, b, c, d] && out[end..] == old(out[end..])
  {
    out[p] := a;
    out[p + 1] := b;
    out[p + 2] := c;
    out[p + 3] := d;
  }

  lemma LastSextets(x: bv8)
    ensures (x & 0x03) << 4 == Sextet1(x, 0)
    ensures (x & 0x0f) << 2 == Sextet2(x, 0)
  {
  }

  /** One round of the loop of Base64encode, on what is written and what is left. */
  lemma DigitsStep(x: Bytes, i: nat, done: Bytes, whole: Bytes)
    requires i + 3 <= |x| && done + Digits(x[i..]) == whole
    ensures done + Group(x[i], x[i + 1], x[i + 2]) + Digits(x[i + 3..]) == whole
  {
    hide Group, Digits;
    var u := x[i..i + 3];
    assert x[i..] == u + x[i + 3..];
    DigitsGroup(u, x[i + 3..]);
  }

  /** Base64encode: writes the text and a terminator, and returns how much it wrote. The source shifts signed
      characters; the masks make that the same as shifting bytes. */
  method Base64Encode(encoded: array<bv8>, str: Bytes) returns (n: nat)
    requires encoded.Length >= EncodeLen(|str|)
    modifies encoded
    ensures n == EncodeLen(|str|)
    ensures encoded[..n] == Encoded(str) + [0] && encoded[n..] == old(encoded[n..])
  {
    DigitsLength(str);
    var len := |str|;
    var p, i := 0, 0;
    hide Basis64, Sextet0, Sextet1, Sextet2, Sextet3, Digits, Encoded, Padding;
    assert str[0..] == str;
    ghost var whole, end, g := Digits(str), EncodeLen(len), 0;
    while i < len - 2
      invariant i == 3 * g <= len && p == 4 * g
      invariant encoded[..p] + Digits(str[i..]) == whole
      invariant encoded[end..] == old(encoded[end..])
    {
      DigitsStep(str, i, encoded[..p], whole);
      Put4(encoded, p, Basis64(Sextet0(str[i])), Basis64(Sextet1(str[i], str[i + 1])),
           Basis64(Sextet2(str[i + 1], str[i + 2])), Basis64(Sextet3(str[i + 2])), end);
      p := p + 4;
      i := i + 3;
      g := g + 1;
    }
    p := EncodeRest(encoded, p, str, i, g);
    encoded[p] := 0;
    n := p + 1;
  }

  /** The last, incomplete group of characters. */
  function LastGroup(x: Bytes): (r: Bytes)
    requires 0 < |x| < 3
    ensures |r| == 4
  {
    if |x| == 1 then [Char0(x[0]), Char1(x[0], 0), PAD, PAD]
    else [Char0(x[0]), Char1(x[0], x[1]), Char2(x[1], 0), PAD]
  }

  lemma LastStep(str: Bytes, i: nat, g: nat, done: Bytes)
    requires |str| - 2 <= i <= |str| && i == 3 * g && done + Digits(str[i..]) == Digits(str)
    ensures Encoded(str) == if i == |str| then done else done + LastGroup(str[i..])
  {
    hide Digits, LastGroup, Padding, Encoded;
    var x := str[i..];
    LastEncoded(x, |str|, g);
    EncodedIs(str, done, Digits(x));
  }

  lemma EncodedIs(str: Bytes, done: Bytes, left: Bytes)
    requires done + left == Digits(str)
    ensures Encoded(str) == done + (left + Padding(|str|))
  {
    hide Digits, Padding;
  }

  lemma LastEncoded(x: Bytes, n: nat, g: nat)
    requires |x| < 3 && n == 3 * g + |x|
    ensures Digits(x) + Padding(n) == if |x| == 0 then [] else LastGroup(x)
  {
    hide Char0, Char1, Char2;
    if |x| == 1 {
      assert Padding(n) == [PAD, PAD];
    } else if |x| == 2 {
      assert Padding(n) == [PAD];
    }
  }

  lemma EncodeLenAt(n: nat, g: nat, k: nat)
    requires n == 3 * g + k && k < 3
    ensures EncodeLen(n) == 4 * g + (if k == 0 then 0 else 4) + 1
  {
  }

  /** The last, incomplete group. */
  method EncodeRest(encoded: array<bv8>, p0: nat, str: Bytes, i: nat, ghost g: nat) returns (p: nat)
    requires |str| - 2 <= i <= |str| && i == 3 * g && p0 == 4 * g && encoded.Length >= EncodeLen(|str|)
    requires encoded[..p0] + Digits(str[i..]) == Digits(str)
    modifies encoded
    ensures p + 1 == EncodeLen(|str|)
    ensures encoded[..p] == Encoded(str) && encoded[p..] == old(encoded[p..])
  {
    hide Basis64, Sextet0, Sextet1, Sextet2, Sextet3, Digits, Encoded, Padding, EncodeLen;
    var len := |str|;
    p := p0;
    EncodeLenAt(len, g, len - i);
    LastStep(str, i, g, encoded[..p]);
    if i < len {
      LastSextets(str[i]);
      if i == len - 1 {
        Put4(encoded, p, Basis64(Sextet0(str[i])), Basis64((str[i] & 0x03) << 4), PAD, PAD, p + 4);
      } else {
        LastSextets(str[i + 1]);
        Put4(encoded, p, Basis64(Sextet0(str[i])), Basis64(Sextet1(str[i], str[i + 1])),
             Basis64((str[i + 1] & 0x0f) << 2), PAD, p + 4);
      }
      p := p + 4;
    }
  }

  lemma LeadingEnd(s: Bytes, n: nat)
    requires n < |s| && !InAlphabet(s[n]) && forall k :: 0 <= k < n ==> InAlphabet(s[k])
    ensures Leading(s) == s[..n]
  {
    hide InAlphabet;
    LeadingIsAll(s[..n], s[n..]);
    assert s[..n] + s[n..] == s;
  }

  /** The first loop of Base64decode_len and of Base64decode: the number of alphabet characters in front. */
  method CountDigits(bufcoded: array<bv8>) returns (nprbytes: nat)
    requires exists k :: 0 <= k < bufcoded.Length && !InAlphabet(bufcoded[k])
    ensures nprbytes < bufcoded.Length && Leading(bufcoded[..]) == bufcoded[..nprbytes]
  {
    hide Pr2Six;
    ghost var stop :| 0 <= stop < bufcoded.Length && !InAlphabet(bufcoded[stop]);
    var bufin := 0;
    while Pr2Six(bufcoded[bufin]) <= 63
      invariant 0 <= bufin <= stop && forall k :: 0 <= k < bufin ==> InAlphabet(bufcoded[k])
      decreases stop - bufin
    {
      bufin := bufin + 1;
    }
    nprbytes := bufin;
    LeadingEnd(bufcoded[..], nprbytes);
  }

  /** Base64decode_len: what a caller has to allocate. */
  method Base64DecodeLen(bufcoded: array<bv8>) returns (len: nat)
    requires exists k :: 0 <= k < bufcoded.Length && !InAlphabet(bufcoded[k])
    ensures len == (|Leading(bufcoded[..])| + 3) / 4 * 3 + 1 == DecodeLen(bufcoded[..])
  {
    var nprbytes := CountDigits(bufcoded);
    len := (nprbytes + 3) / 4 * 3 + 1;
  }

  function DecodeLen(coded: Bytes): nat {
    (|Leading(coded)| + 3) / 4 * 3 + 1
  }

  /** The decoded bytes and their terminator fit the announced length. */
  lemma DecodeLenSuffices(coded: Bytes)
    ensures |Decoded(Leading(coded))| + 1 <= DecodeLen(coded)
  {
    DecodedLength(Leading(coded));
  }

  /** One round of the loop of Base64decode, on what is written and what is left. */
  lemma DecodedStep(s: Bytes, i: nat, done: Bytes, whole: Bytes)
    requires i + 4 <= |s| && done + Decoded(s[i..]) == whole
    ensures done + [Byte0(Pr2Six(s[i]), Pr2Six(s[i + 1])), Byte1(Pr2Six(s[i + 1]), Pr2Six(s[i + 2])),
                    Byte2(Pr2Six(s[i + 2]), Pr2Six(s[i + 3]))] + Decoded(s[i + 4..]) == whole
  {
    hide Decoded, Byte0, Byte1, Byte2, Pr2Six;
    var g := s[i..i + 4];
    assert s[i..] == g + s[i + 4..];
    DecodedGroup(g, s[i + 4..]);
  }

  /** Base64decode: writes the bytes and a terminator, and returns the number of bytes. */
  method Base64Decode(bufplain: array<bv8>, bufcoded: array<bv8>) returns (n: nat)
    requires bufplain != bufcoded
    requires exists k :: 0 <= k < bufcoded.Length && !InAlphabet(bufcoded[k])
    requires bufplain.Length >= DecodeLen(bufcoded[..])
    modifies bufplain
    ensures n == |Decoded(Leading(bufcoded[..]))| < DecodeLen(bufcoded[..])
    ensures bufplain[..n] == Decoded(Leading(bufcoded[..])) && bufplain[n] == 0
    ensures bufplain[n + 1..] == old(bufplain[n + 1..])
  {
    hide Pr2Six, Byte0, Byte1, Byte2, Plain0, Plain1, Plain2, Ungroup, InAlphabet, Decoded, Leading, DecodeLen;
    var nprbytes := CountDigits(bufcoded);
    ghost var s, g, whole := bufcoded[..nprbytes], 0, Decoded(bufcoded[..nprbytes]);
    DecodeLenSuffices(bufcoded[..]);
    assert |whole| < bufplain.Length;
    var nbytesdecoded := (nprbytes + 3) / 4 * 3;
    var bufout, bufin := 0, 0;
    assert s[0..] == s;
    while nprbytes > 4
      invariant bufin + nprbytes == |s| && bufin == 4 * g && bufout == 3 * g <= |whole|
      invariant bufplain[..bufout] + Decoded(s[bufin..]) == whole
      invariant bufplain[|whole|..] == old(bufplain[|whole|..])
    {
      DecodedStep(s, bufin, bufplain[..bufout], whole);
      Put3(bufplain, bufout, Byte0(Pr2Six(bufcoded[bufin]), Pr2Six(bufcoded[bufin + 1])),
           Byte1(Pr2Six(bufcoded[bufin + 1]), Pr2Six(bufcoded[bufin + 2])),
           Byte2(Pr2Six(bufcoded[bufin + 2]), Pr2Six(bufcoded[bufin + 3])), |whole|);
      bufout := bufout + 3;
      bufin := bufin + 4;
      nprbytes := nprbytes - 4;
      g := g + 1;
    }
    DecodedCount(s, g, nprbytes);
    ghost var kept := bufplain[|whole|..];
    assert bufplain[|whole| + 1..] == kept[1..];
    DecodeRest(bufplain, bufout, bufcoded, bufin, nprbytes, s[bufin..]);
    n := nbytesdecoded - (4 - nprbytes) % 4;
  }

  /** The returned count: the full groups, and what the last group yields. */
  lemma DecodedCount(s: Bytes, g: nat, last: nat)
    requires |s| == 4 * g + last && last <= 4
    ensures (|s| + 3) / 4 * 3 - (4 - last) % 4 == 3 * g + |Decoded(s[4 * g..])| == |Decoded(s)|
  {
    hide Decoded;
    DecodedLength(s[4 * g..]);
    DecodedLength(s);
  }

  /** Three bytes at position p, before position end. */
  method Put3(out: array<bv8>, p: nat, a: bv8, b: bv8, c: bv8, ghost end: nat)
    requires p + 3 <= end <= out.Length
    modifies out
    ensures out[..p + 3] == old(out[..p]) + [a, b, c] && out[end..] == old(out[end..])
  {
    out[p] := a;
    out[p + 1] := b;
    out[p + 2] := c;
  }

  /** What a last group of at most four characters stands for. */
  lemma DecodedLast(s: Bytes)
    requires |s| <= 4
    ensures |Decoded(s)| == if |s| == 0 then 0 else |s| - 1
    ensures |s| > 1 ==> Decoded(s)[0] == Plain0(s[0], s[1])
    ensures |s| > 2 ==> Decoded(s)[1] == Plain1(s[1], s[2])
    ensures |s| > 3 ==> Decoded(s)[2] == Plain2(s[2], s[3])
  {
    hide Plain0, Plain1, Plain2;
    DecodedLength(s);
  }

  /** The last group of at most four characters, and the terminator. */
  method DecodeRest(bufplain: array<bv8>, bufout0: nat, bufcoded: array<bv8>, bufin: nat, nprbytes: nat, ghost s: Bytes)
    requires bufplain != bufcoded && nprbytes <= 4 && bufin + nprbytes <= bufcoded.Length
    requires s == bufcoded[bufin..bufin + nprbytes]
    requires bufout0 + |Decoded(s)| < bufplain.Length
    modifies bufplain
    ensures var n := bufout0 + |Decoded(s)|;
            && bufplain[..n] == old(bufplain[..bufout0]) + Decoded(s) && bufplain[n] == 0
            && bufplain[n + 1..] == old(bufplain[n + 1..])
  {
    hide Pr2Six, Byte0, Byte1, Byte2, Decoded;
    DecodedLast(s);
    var bufout := bufout0;
    if nprbytes > 1 {
      bufplain[bufout] := Byte0(Pr2Six(bufcoded[bufin]), Pr2Six(bufcoded[bufin + 1]));
      bufout := bufout + 1;
    }
    if nprbytes > 2 {
      bufplain[bufout] := Byte1(Pr2Six(bufcoded[bufin + 1]), Pr2Six(bufcoded[bufin + 2]));
      bufout := bufout + 1;
    }
    if nprbytes > 3 {
      bufplain[bufout] := Byte2(Pr2Six(bufcoded[bufin + 2]), Pr2Six(bufcoded[bufin + 3]));
      bufout := bufout + 1;
    }
    bufplain[bufout] := 0;
  }
}
