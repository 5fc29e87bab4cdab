/**
 Bit operations on unsigned numbers, as far as the hash table uses them on powers of two.
 */
module Bits {

  function Pow2(k: nat): (r: nat)
    ensures r > 0
  {
    if k == 0 then 1 else 2 * Pow2(k - 1)
  }

  /** a & b. */
  function And(a: nat, b: nat): nat {
    if a == 0 || b == 0 then 0 else (a % 2) * (b % 2) + 2 * And(a / 2, b / 2)
  }

  /** a >> k. */
  function ShiftRight(a: nat, k: nat): nat {
    if k == 0 then a else ShiftRight(a / 2, k - 1)
  }

  lemma MultipleGrows(d: int, x: int)
    requires d > 0
    ensures x > 0 ==> d * x >= d
    ensures x < 0 ==> d * x <= -d
  {
  }

  lemma DivModUnique(n: nat, d: nat, q: nat, r: nat)
    requires d > 0 && r < d && n == d * q + r
    ensures n / d == q && n % d == r
  {
    var q', r' := n / d, n % d;
    assert n == d * q' + r';
    assert d * (q - q') == d * q - d * q' == r' - r;
    MultipleGrows(d, q - q');
  }

  /** Division by an even number goes through division by two. */
  lemma HalveMod(n: nat, m: nat)
    requires m > 0
    ensures n % (2 * m) == n % 2 + 2 * ((n / 2) % m)
    ensures n / (2 * m) == (n / 2) / m
  {
    var q, r := n / 2 / m, n / 2 % m;
    assert n / 2 == m * q + r;
    assert n == 2 * m * q + (2 * r + n % 2);
    DivModUnique(n, 2 * m, q, 2 * r + n % 2);
  }

  lemma AndStep(a: nat, b: nat)
    ensures And(a, b) == (a % 2) * (b % 2) + 2 * And(a / 2, b / 2)
  {
  }

  lemma OddMask(m: nat)
    requires m > 0
    ensures (2 * m - 1) % 2 == 1 && (2 * m - 1) / 2 == m - 1
  {
  }

  lemma AndOddMask(a: nat, m: nat, n: nat)
    requires m > 0 && n == 2 * m && And(a / 2, m - 1) == a / 2 % m
    ensures And(a, n - 1) == a % n
  {
    hide And;
    OddMask(m);
    AndStep(a, n - 1);
    HalveMod(a, m);
  }

  /** Masking with 2^k - 1 is the remainder by 2^k. */
  lemma {:induction false} AndMask(a: nat, k: nat)
    ensures And(a, Pow2(k) - 1) == a % Pow2(k)
    decreases k
  {
    if k > 0 {
      var m, n := Pow2(k - 1), Pow2(k);
      assert n == 2 * m;
      hide Pow2, And;
      AndMask(a / 2, k - 1);
      AndOddMask(a, m, n);
    }
  }

  /** Shifting by k is division by 2^k. */
  lemma {:induction false} ShiftIsDiv(a: nat, k: nat)
    ensures ShiftRight(a, k) == a / Pow2(k)
    decreases k
  {
    if k > 0 {
      ShiftIsDiv(a / 2, k - 1);
      HalveMod(a, Pow2(k - 1));
    }
  }

  /** With twice as many buckets an element stays in its bucket or moves up by the old bucket count. */
  lemma ModDouble(a: nat, m: nat)
    requires m > 0
    ensures a % (2 * m) == a % m || a % (2 * m) == a % m + m
  {
    var y, x := a / m, a % m;
    DivMod(a, m);
    if y % 2 == 0 {
      SplitFactor(m, y, y / 2, 0);
      DivModUnique(a, 2 * m, y / 2, x);
    } else {
      SplitFactor(m, y, y / 2, 1);
      DivModUnique(a, 2 * m, y / 2, m + x);
    }
  }

  lemma DivMod(a: nat, d: nat)
    requires d > 0
    ensures a == d * (a / d) + a % d && a % d < d
  {
  }

  lemma SplitFactor(m: nat, y: nat, h: nat, b: nat)
    requires y == 2 * h + b && b <= 1
    ensures m * y == 2 * m * h + if b == 0 then 0 else m
  {
    assert m * (2 * h) == 2 * m * h;
    assert m * (2 * h + 1) == m * (2 * h) + m;
  }

  /** r is the least whole number with r * d >= n. */
  ghost predicate IsCeiling(n: nat, d: nat, r: nat)
  {
    r * d >= n && (r == 0 || (r - 1) * d < n)
  }

  /** The shift-and-mask computation of an upper quotient by 2^k. */
  lemma CeilingByShift(n: nat, k: nat)
    ensures IsCeiling(n, Pow2(k), ShiftRight(n, k) + if And(n, Pow2(k) - 1) != 0 then 1 else 0)
  {
    AndMask(n, k);
    ShiftIsDiv(n, k);
    CeilingOfQuotient(n, Pow2(k));
  }

  lemma CeilingOfQuotient(n: nat, d: nat)
    requires d > 0
    ensures IsCeiling(n, d, n / d + if n % d != 0 then 1 else 0)
  {
  }

  // ----- Filling in the bits below the top one -----

  /** a | b. */
  function Or(a: nat, b: nat): nat {
    if a == 0 && b == 0 then 0 else (if a % 2 == 1 || b % 2 == 1 then 1 else 0) + 2 * Or(a / 2, b / 2)
  }

  predicate Bit(a: nat, i: nat) {
    if i == 0 then a % 2 == 1 else Bit(a / 2, i - 1)
  }

  lemma {:induction false} OrBit(a: nat, b: nat, i: nat)
    ensures Bit(Or(a, b), i) <==> Bit(a, i) || Bit(b, i)
    decreases i
  {
    if i > 0 {
      OrBit(a / 2, b / 2, i - 1);
      if a == 0 && b == 0 {
        assert Or(a / 2, b / 2) == 0;
      } else {
        assert Or(a, b) / 2 == Or(a / 2, b / 2);
      }
    }
  }

  lemma {:induction false} ShiftBit(a: nat, k: nat, i: nat)
    ensures Bit(ShiftRight(a, k), i) <==> Bit(a, i + k)
    decreases k
  {
    if k > 0 {
      ShiftBit(a / 2, k - 1, i);
    }
  }

  lemma {:induction false} OrAbove(a: nat, b: nat)
    ensures Or(a, b) >= a
    decreases a + b
  {
    if a > 0 || b > 0 {
      OrAbove(a / 2, b / 2);
    }
  }

  lemma {:induction false} NoBitAbove(a: nat, k: nat, i: nat)
    requires a < Pow2(k) && i >= k
    ensures !Bit(a, i)
    decreases i
  {
    if k > 0 {
      NoBitAbove(a / 2, k - 1, i - 1);
    } else if i > 0 {
      NoBitAbove(0, 0, i - 1);
    }
  }

  /** The bit below which a number fits is set when nothing smaller holds it. */
  lemma {:induction false} TopBit(a: nat, k: nat)
    requires Pow2(k) <= a < Pow2(k + 1)
    ensures Bit(a, k)
    decreases k
  {
    if k > 0 {
      TopBit(a / 2, k - 1);
    } else {
      assert Pow2(1) == 2;
    }
  }

  /** Numbers are the same when their bits are. */
  lemma {:induction false} SameBits(a: nat, b: nat)
    requires forall i: nat :: Bit(a, i) == Bit(b, i)
    ensures a == b
    decreases a + b
  {
    assert Bit(a, 0) == Bit(b, 0);
    if a > 0 || b > 0 {
      forall i: nat ensures Bit(a / 2, i) == Bit(b / 2, i) {
        assert Bit(a, i + 1) == Bit(b, i + 1);
      }
      SameBits(a / 2, b / 2);
    }
  }

  lemma {:induction false} OnesBit(k: nat, i: nat)
    ensures Bit(Pow2(k) - 1, i) <==> i < k
    decreases i
  {
    if k == 0 {
      NoBitAbove(0, 0, i);
    } else {
      OddMask(Pow2(k - 1));
      if i > 0 {
        OnesBit(k - 1, i - 1);
      }
    }
  }

  /** x has exactly the bits of a moved down by less than w places. */
  ghost predicate Smeared(x: nat, a: nat, w: nat) {
    forall i: nat :: Bit(x, i) <==> InWindow(a, i, w)
  }

  ghost predicate InWindow(a: nat, i: nat, w: nat) {
    exists j: nat :: i <= j < i + w && Bit(a, j)
  }

  lemma WindowDoubles(a: nat, i: nat, w: nat)
    ensures InWindow(a, i, 2 * w) <==> InWindow(a, i, w) || InWindow(a, i + w, w)
  {
  }

  /** x | x >> w doubles how far the bits have been moved. */
  lemma SmearStep(x: nat, a: nat, w: nat)
    requires Smeared(x, a, w)
    ensures Smeared(Or(x, ShiftRight(x, w)), a, 2 * w)
  {
    hide InWindow;
    forall i: nat ensures Bit(Or(x, ShiftRight(x, w)), i) <==> InWindow(a, i, 2 * w) {
      OrBit(x, ShiftRight(x, w), i);
      ShiftBit(x, w, i);
      WindowDoubles(a, i, w);
    }
  }

  lemma SmearStart(a: nat)
    ensures Smeared(a, a, 1)
  {
  }

  /** Bits moved down far enough fill everything below the top one. */
  lemma SmearedIsOnes(x: nat, a: nat, k: nat, w: nat)
    requires Smeared(x, a, w) && Pow2(k) <= a < Pow2(k + 1) && k < w
    ensures x == Pow2(k + 1) - 1
  {
    hide Pow2;
    forall i: nat ensures Bit(x, i) == Bit(Pow2(k + 1) - 1, i) {
      OnesBit(k + 1, i);
      assert Bit(x, i) <==> InWindow(a, i, w);
      if i <= k {
        TopBit(a, k);
        assert i <= k < i + w && Bit(a, k);
      } else if InWindow(a, i, w) {
        var j: nat :| i <= j < i + w && Bit(a, j);
        NoBitAbove(a, k + 1, j);
      }
    }
    SameBits(x, Pow2(k + 1) - 1);
  }

  /** Some power of two is at most a number and its double is above it. */
  lemma {:induction false} Magnitude(a: nat, n: nat) returns (k: nat)
    requires 0 < a < Pow2(n)
    ensures k < n && Pow2(k) <= a < Pow2(k + 1)
  {
    if a >= Pow2(n - 1) {
      k := n - 1;
    } else {
      k := Magnitude(a, n - 1);
    }
  }

  /** r is the least power of two that is at least n. */
  ghost predicate LeastPower(n: nat, r: nat) {
    exists k: nat :: r == Pow2(k) && n <= r && (k > 0 ==> Pow2(k - 1) < n)
  }
}
