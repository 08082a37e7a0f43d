/**
 Machine arithmetic shared by the rings: bitwise AND, powers of two, and the
 wrap-around of fixed-width counters.  The rings index with `i & (n - 1)` and
 test the lap of a counter with `i & n`; the lemmas give the meaning of both
 for every power of two `n` and every width.
 */
module Bits {

  const TWO32: nat := 0x1_0000_0000
  const TWO64: nat := 0x1_0000_0000_0000_0000

  function Pow2(k: nat): (p: nat)
    ensures p >= 1
  {
    if k == 0 then 1 else 2 * Pow2(k - 1)
  }

  /** The C operator `&` on unsigned operands of any width. */
  function And(x: nat, y: nat): nat
  {
    if x == 0 || y == 0 then 0
    else 2 * And(x / 2, y / 2) + (if x % 2 == 1 && y % 2 == 1 then 1 else 0)
  }

  lemma {:induction false} Pow2Sum(a: nat, b: nat)
    ensures Pow2(a + b) == Pow2(a) * Pow2(b)
  {
    if a > 0 {
      Pow2Sum(a - 1, b);
      assert Pow2(a + b) == 2 * Pow2(a - 1 + b);
    }
  }

  lemma {:induction false} Pow2Monotone(a: nat, b: nat)
    requires a <= b
    ensures Pow2(a) <= Pow2(b)
  {
    if a < b { Pow2Monotone(a, b - 1); }
  }

  lemma Pow2Byte(k: nat)
    ensures Pow2(k + 8) == 256 * Pow2(k)
  {
    assert Pow2(k + 4) == 2 * Pow2(k + 3) == 4 * Pow2(k + 2) == 8 * Pow2(k + 1) == 16 * Pow2(k);
    assert Pow2(k + 8) == 2 * Pow2(k + 7) == 4 * Pow2(k + 6) == 8 * Pow2(k + 5) == 16 * Pow2(k + 4);
  }

  lemma Pow2At32()
    ensures Pow2(31) == 0x8000_0000 && Pow2(32) == TWO32
  {
    Pow2Byte(0);
    Pow2Byte(8);
    Pow2Byte(16);
    Pow2Byte(24);
    assert Pow2(32) == 2 * Pow2(31);
  }

  lemma Pow2At64()
    ensures Pow2(64) == TWO64
  {
    Pow2At32();
    Pow2Byte(32);
    Pow2Byte(40);
    Pow2Byte(48);
    Pow2Byte(56);
  }

  /** Quotient and remainder are determined by the division equation. */
  lemma DivModUnique(x: int, d: int, q: int, r: int)
    requires d > 0 && 0 <= r < d && x == q * d + r
    ensures x / d == q && x % d == r
  {
    var e := x / d - q;
    assert e * d == r - x % d by {
      assert x == x / d * d + x % d;
      assert e * d == x / d * d - q * d;
    }
    Scale(e, d);
  }

  /** A product with a positive factor follows the sign of the other one. */
  lemma Scale(e: int, d: int)
    requires d > 0
    ensures e >= 1 ==> e * d >= d
    ensures e <= -1 ==> e * d <= -d
  {
    if e >= 1 {
      assert e * d == (e - 1) * d + d;
    } else if e <= -1 {
      assert e * d == (e + 1) * d - d;
    }
  }

  /** `x & (2^k - 1)` is `x mod 2^k`. */
  lemma {:induction false} AndMask(x: nat, k: nat)
    ensures And(x, Pow2(k) - 1) == x % Pow2(k)
  {
    if k == 0 {
      assert Pow2(k) - 1 == 0;
    } else {
      AndMask(x / 2, k - 1);
      var h := Pow2(k - 1);
      Halve(x, h);
      MaskHalves(h);
      AndStep(x, 2 * h - 1);
    }
  }

  lemma AndStep(x: nat, y: nat)
    ensures And(x, y) == 2 * And(x / 2, y / 2) + (if x % 2 == 1 && y % 2 == 1 then 1 else 0)
  {
  }

  lemma MaskHalves(h: nat)
    requires h >= 1
    ensures (2 * h - 1) / 2 == h - 1 && (2 * h - 1) % 2 == 1
  {
  }

  /** `x & 2^k` is non-zero exactly when the quotient by `2^k` is odd. */
  lemma {:induction false} AndBit(x: nat, k: nat)
    ensures And(x, Pow2(k)) != 0 <==> x / Pow2(k) % 2 == 1
  {
    if k == 0 {
      assert And(x / 2, 0) == 0;
    } else if x > 0 {
      var h := Pow2(k - 1);
      AndBit(x / 2, k - 1);
      Halve(x, h);
      assert Pow2(k) / 2 == h && Pow2(k) % 2 == 0;
    } else {
      DivModUnique(0, Pow2(k), 0, 0);
    }
  }

  /** Division by `2 * h` is halving followed by division by `h`. */
  lemma Halve(x: nat, h: nat)
    requires h >= 1
    ensures x / 2 / h == x / (2 * h)
    ensures x % (2 * h) == 2 * (x / 2 % h) + x % 2
  {
    var q, r := x / 2 / h, x / 2 % h;
    assert x / 2 == q * h + r;
    assert x == q * (2 * h) + (2 * r + x % 2) by {
      assert x == 2 * (q * h + r) + x % 2;
    }
    DivModUnique(x, 2 * h, q, 2 * r + x % 2);
  }

  /** Truncating a counter to `2^w` keeps its remainder by any smaller power of two... */
  lemma WrapKeepsIndex(x: nat, k: nat, w: nat)
    requires k <= w
    ensures x % Pow2(w) % Pow2(k) == x % Pow2(k)
  {
    Pow2Sum(k, w - k);
    WrapSplit(x, Pow2(k), Pow2(w - k));
  }

  /** ... and the parity of the lap, as long as the lap bit itself fits. */
  lemma WrapKeepsLap(x: nat, k: nat, w: nat)
    requires k < w
    ensures x % Pow2(w) / Pow2(k) % 2 == x / Pow2(k) % 2
  {
    Pow2Sum(k, w - k);
    LapParity(x, Pow2(k), Pow2(w - k - 1));
  }

  lemma LapParity(x: nat, n: nat, h: nat)
    requires n >= 1 && h >= 1
    ensures n * (2 * h) >= 1 && x % (n * (2 * h)) / n % 2 == x / n % 2
  {
    WrapSplit(x, n, 2 * h);
    WrapSplit(x / n, 2, h);
  }

  /** Division by a product, one factor at a time. */
  lemma WrapSplit(x: nat, n: nat, m: nat)
    requires n >= 1 && m >= 1
    ensures n * m >= 1
    ensures x % (n * m) % n == x % n
    ensures x % (n * m) / n == x / n % m
  {
    var q, r := x / n, x % n;
    var u, v := q / m, q % m;
    Regroup(x, n, m, u, v, r);
    DivModUnique(x, n * m, u, v * n + r);
    DivModUnique(v * n + r, n, v, r);
  }

  lemma Regroup(x: nat, n: nat, m: nat, u: nat, v: nat, r: nat)
    requires r < n && v < m && x == (u * m + v) * n + r
    ensures 0 <= v * n + r < n * m && x == u * (n * m) + (v * n + r)
  {
    assert (m - 1 - v) * n >= 0;
    assert (u * m + v) * n == u * (n * m) + v * n;
  }

  /** The position of counter `x` on a ring of `n` slots, and the number of laps behind it. */
  function Wrap(x: nat, n: nat): (r: nat)
    requires n >= 1
    ensures r < n
  {
    if x < n then x else Wrap(x - n, n)
  }

  function Lap(x: nat, n: nat): nat
    requires n >= 1
  {
    if x < n then 0 else 1 + Lap(x - n, n)
  }

  lemma {:induction false} WrapIsMod(x: nat, n: nat)
    requires n >= 1
    ensures Wrap(x, n) == x % n && Lap(x, n) == x / n
  {
    if x < n {
      DivModUnique(x, n, 0, x);
    } else {
      WrapIsMod(x - n, n);
      assert x == (Lap(x - n, n) + 1) * n + Wrap(x - n, n);
      DivModUnique(x, n, Lap(x - n, n) + 1, Wrap(x - n, n));
    }
  }

  /** Counters less than a lap apart are at different positions. */
  lemma {:induction false} WrapDistinct(a: nat, b: nat, n: nat)
    requires n >= 1 && a < b < a + n
    ensures Wrap(a, n) != Wrap(b, n)
  {
    if b >= n {
      if a >= n {
        WrapDistinct(a - n, b - n, n);
      }
    }
  }

  /** A counter a whole number of laps further is at the same position. */
  lemma {:induction false} WrapPeriodic(x: nat, q: nat, n: nat)
    requires n >= 1
    ensures q * n >= 0 && Wrap(x + q * n, n) == Wrap(x, n)
  {
    if q > 0 {
      assert x + q * n == x + (q - 1) * n + n;
      WrapPeriodic(x, q - 1, n);
    }
  }

  /** Going on to the end of the lap. */
  lemma {:induction false} WrapToEnd(x: nat, n: nat)
    requires n >= 1
    ensures Wrap(x + (n - Wrap(x, n)), n) == 0
  {
    if x >= n { WrapToEnd(x - n, n); }
  }

  /** Two counters are at the same position exactly when whole laps lie between them. */
  lemma {:induction false} WrapSame(a: nat, b: nat, n: nat)
    requires n >= 1 && a <= b
    ensures Wrap(a, n) == Wrap(b, n) <==> Wrap(b - a, n) == 0
  {
    if b - a < n {
      if a < b { WrapDistinct(a, b, n); }
    } else {
      WrapSame(a, b - n, n);
    }
  }

  /** `x - y` in 32-bit unsigned arithmetic. */
  function Sub32(x: nat, y: nat): nat
    requires x < TWO32 && y < TWO32
  {
    (x - y) % TWO32
  }

  /** A 32-bit pattern read as a signed `int`. */
  function Signed32(x: nat): int
    requires x < TWO32
  {
    if x < 0x8000_0000 then x else x - TWO32
  }

  /** Stepping a truncated counter by `k`. */
  lemma WrapAdd(x: nat, k: nat, n: nat)
    requires n >= 1
    ensures (Wrap(x, n) + k) % n == Wrap(x + k, n)
  {
    WrapShift(x, k, n);
    WrapIsMod(Wrap(x, n) + k, n);
  }

  lemma {:induction false} WrapShift(x: nat, k: nat, n: nat)
    requires n >= 1
    ensures Wrap(Wrap(x, n) + k, n) == Wrap(x + k, n)
  {
    if x >= n { WrapShift(x - n, k, n); }
  }

  /** The distance of two unbounded counters survives their truncation to 32 bits. */
  lemma Distance32(a: nat, b: nat)
    requires b <= a < b + 0x8000_0000
    ensures Signed32(Sub32(Wrap(a, TWO32), Wrap(b, TWO32))) == a - b
  {
    WrapIsMod(a, TWO32);
    WrapIsMod(b, TWO32);
    var x, y := a % TWO32, b % TWO32;
    assert (x - y) % TWO32 == (a - b) % TWO32;
  }
}
