/**
 The encoding in numbers and letters: the digits of a group to the base 64, written in the alphabet of RFC 4648.
 */
module Base64Letters {
  import opened Base64

  /** The alphabet of section 4 of RFC 4648. */
  const UPPER := "ABCDEFGHIJKLMNOPQRSTUVWXYZ"
  const LOWER := "abcdefghijklmnopqrstuvwxyz"
  const ALPHABET := UPPER + LOWER + "0123456789+/"

  lemma BasisRanges(i: bv8)
    requires i < 64
    ensures i < 26 ==> Basis64(i) == 0x41 + i
    ensures 26 <= i < 52 ==> Basis64(i) == 0x61 + (i - 26)
    ensures 52 <= i < 62 ==> Basis64(i) == 0x30 + (i - 52)
    ensures (i == 62 ==> Basis64(i) == 0x2b) && (i == 63 ==> Basis64(i) == 0x2f)
  {
  }

  /** The code of the k-th letter. */
  function LetterCode(k: nat): nat
    requires k < 64
  {
    if k < 26 then 0x41 + k else if k < 52 then 0x61 + (k - 26) else if k < 62 then 0x30 + (k - 52)
    else if k == 62 then 0x2b else 0x2f
  }

  lemma BasisCode(i: bv8)
    requires i < 64
    ensures i as nat < 64 && Basis64(i) as nat == LetterCode(i as nat)
  {
    hide Basis64;
    BasisRanges(i);
  }

  lemma Letters(k: nat)
    requires k < 64
    ensures |ALPHABET| == 64 && ALPHABET[k] as nat == LetterCode(k)
  {
    if k < 26 {
      UpperLetter(k);
      assert ALPHABET[k] == UPPER[k];
    } else if k < 52 {
      LowerLetter(k - 26);
      assert ALPHABET[k] == LOWER[k - 26];
    } else {
      assert ALPHABET[k] == "0123456789+/"[k - 52];
    }
  }

  lemma UpperLetter(k: nat)
    requires k < 26
    ensures UPPER[k] as nat == 0x41 + k
  {
  }

  lemma LowerLetter(k: nat)
    requires k < 26
    ensures LOWER[k] as nat == 0x61 + k
  {
  }

  /** basis_64 is that alphabet. */
  lemma BasisLiteral(i: bv8)
    requires i < 64
    ensures i as nat < 64 == |ALPHABET| && Basis64(i) as nat == ALPHABET[i as nat] as nat
  {
    hide Basis64;
    BasisCode(i);
    Letters(i as nat);
  }

  lemma LowBits(x: bv8)
    ensures ((x & 0x03) << 4) as nat == x as nat % 4 * 16
    ensures ((x & 0x0f) << 2) as nat == x as nat % 16 * 4
  {
    LowBits2(x);
    LowBits4(x);
  }

  lemma LowBits2(x: bv8)
    ensures ((x & 0x03) << 4) as nat == x as nat % 4 * 16
  {
  }

  lemma LowBits4(x: bv8)
    ensures ((x & 0x0f) << 2) as nat == x as nat % 16 * 4
  {
  }

  lemma HighBits(x: bv8)
    ensures ((x >> 2) & 0x3f) as nat == x as nat / 4
    ensures ((x & 0xf0) >> 4) as nat == x as nat / 16
    ensures ((x & 0xc0) >> 6) as nat == x as nat / 64
  {
  }

  lemma LastBits(x: bv8)
    ensures (x & 0x3f) as nat == x as nat % 64
  {
  }

  lemma Apart(x: bv8, y: bv8)
    requires (x & 0x0f == 0 && y & 0xf0 == 0) || (x & 0x03 == 0 && y & 0xfc == 0)
    ensures (x | y) as nat == x as nat + y as nat
  {
  }

  /** The sextets of three bytes, in numbers. */
  lemma SextetNumbers(x: bv8, y: bv8, z: bv8)
    ensures Sextet0(x) as nat == x as nat / 4
    ensures Sextet1(x, y) as nat == x as nat % 4 * 16 + y as nat / 16
    ensures Sextet2(y, z) as nat == y as nat % 16 * 4 + z as nat / 64
    ensures Sextet3(z) as nat == z as nat % 64
  {
    SextetParts(x, y, z);
    LowBits(x);
    LowBits(y);
    HighBits(x);
    HighBits(y);
    HighBits(z);
    LastBits(z);
    hide Sextet1, Sextet2;
  }

  lemma SextetParts(x: bv8, y: bv8, z: bv8)
    ensures Sextet1(x, y) as nat == ((x & 0x03) << 4) as nat + ((y & 0xf0) >> 4) as nat
    ensures Sextet2(y, z) as nat == ((y & 0x0f) << 2) as nat + ((z & 0xc0) >> 6) as nat
  {
    Apart((x & 0x03) << 4, (y & 0xf0) >> 4);
    Apart((y & 0x0f) << 2, (z & 0xc0) >> 6);
  }

  /** d are the four digits to the base 64 of the number of 24 bits that three bytes make (section 4 of RFC 4648). */
  ghost predicate AreDigitsOf(d: seq<nat>, x: nat, y: nat, z: nat) {
    && |d| == 4 && (forall k :: 0 <= k < 4 ==> d[k] < 64)
    && x * 0x10000 + y * 0x100 + z == ((d[0] * 64 + d[1]) * 64 + d[2]) * 64 + d[3]
  }

  lemma Letter(s: bv8, k: nat)
    requires s < 64 && s as nat == k
    ensures k < 64 == |ALPHABET| && Basis64(s) as nat == ALPHABET[k] as nat
  {
    hide Basis64, ALPHABET;
    BasisLiteral(s);
  }

  lemma FirstLetters(x: bv8, y: bv8)
    ensures |ALPHABET| == 64 && x as nat / 4 < 64 && x as nat % 4 * 16 + y as nat / 16 < 64
    ensures Char0(x) as nat == ALPHABET[x as nat / 4] as nat
    ensures Char1(x, y) as nat == ALPHABET[x as nat % 4 * 16 + y as nat / 16] as nat
  {
    hide Sextet0, Sextet1, Sextet2, Sextet3, Basis64, ALPHABET;
    SextetRange(x, y, 0);
    SextetNumbers(x, y, 0);
    Letter(Sextet0(x), x as nat / 4);
    Letter(Sextet1(x, y), x as nat % 4 * 16 + y as nat / 16);
  }

  lemma LastLetters(y: bv8, z: bv8)
    ensures |ALPHABET| == 64 && y as nat % 16 * 4 + z as nat / 64 < 64 && z as nat % 64 < 64
    ensures Char2(y, z) as nat == ALPHABET[y as nat % 16 * 4 + z as nat / 64] as nat
    ensures Char3(z) as nat == ALPHABET[z as nat % 64] as nat
  {
    hide Sextet0, Sextet1, Sextet2, Sextet3, Basis64, ALPHABET;
    SextetRange(0, y, z);
    SextetNumbers(0, y, z);
    Letter(Sextet2(y, z), y as nat % 16 * 4 + z as nat / 64);
    Letter(Sextet3(z), z as nat % 64);
  }

  lemma ByteRange(x: bv8)
    ensures x as nat < 256
  {
  }

  /** Three bytes are written as those digits, each as its letter of the alphabet. */
  lemma GroupNumber(x: bv8, y: bv8, z: bv8) returns (d: seq<nat>)
    ensures AreDigitsOf(d, x as nat, y as nat, z as nat) && |ALPHABET| == 64
    ensures forall k :: 0 <= k < 4 ==> Group(x, y, z)[k] as nat == ALPHABET[d[k]] as nat
  {
    hide Char0, Char1, Char2, Char3, ALPHABET, AreDigitsOf;
    ByteRange(x);
    ByteRange(y);
    ByteRange(z);
    d := NumberDigits(x as nat, y as nat, z as nat);
    FirstLetters(x, y);
    LastLetters(y, z);
  }

  lemma NumberDigits(a: nat, b: nat, c: nat) returns (d: seq<nat>)
    requires a < 256 && b < 256 && c < 256
    ensures d == [a / 4, a % 4 * 16 + b / 16, b % 16 * 4 + c / 64, c % 64] && AreDigitsOf(d, a, b, c)
  {
    d := [a / 4, a % 4 * 16 + b / 16, b % 16 * 4 + c / 64, c % 64];
  }

  /** A last group of one or two bytes is written as the front of the group that zero bytes complete. */
  lemma LastGroupLetters(x: Bytes)
    requires 0 < |x| < 3
    ensures Digits(x) == Group(x[0], if |x| == 2 then x[1] else 0, 0)[..|x| + 1]
  {
    hide Char0, Char1, Char2, Char3;
  }
}
