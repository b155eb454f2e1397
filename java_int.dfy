/**
 * Java's integer division and remainder on a positive divisor.  Java's `/` truncates toward
 * zero and its `%` takes the sign of the dividend (`(x / d) * d + x % d == x`), where Dafny's
 * `/` and `%` are Euclidean; the two agree on non-negative dividends.
 */
module JavaInt {

  /** Java's `x / d` for `d > 0`: the quotient truncated toward zero. */
  function JDiv(x: int, d: int): (q: int)
    requires d > 0
    ensures x >= 0 ==> q >= 0
    ensures x <= 0 ==> q <= 0
  {
    if x >= 0 then x / d else -((-x) / d)
  }

  /**
   * Java's `x % d` for `d > 0`: what truncating division leaves over.  It has the dividend's
   * sign and a magnitude below the divisor, and agrees with Dafny's `%` on the magnitude.
   */
  function JRem(x: int, d: int): (r: int)
    requires d > 0
    ensures x == JDiv(x, d) * d + r
    ensures x >= 0 ==> 0 <= r < d && r == x % d
    ensures x < 0 ==> -d < r <= 0 && r == -((-x) % d)
  {
    if x >= 0 then
      assert JDiv(x, d) == x / d;
      x - JDiv(x, d) * d
    else
      assert JDiv(x, d) * d == -(((-x) / d) * d);
      x - JDiv(x, d) * d
  }

  /**
   * Java `int` arithmetic: the exact result wrapped into 32-bit two's complement, which leaves
   * values already in range alone and otherwise differs by a multiple of 2^32.
   */
  function Wrap32(x: int): (w: int)
    ensures -0x8000_0000 <= w < 0x8000_0000
    ensures -0x8000_0000 <= x < 0x8000_0000 ==> w == x
    ensures (x - w) % 0x1_0000_0000 == 0
  {
    (x + 0x8000_0000) % 0x1_0000_0000 - 0x8000_0000
  }

  /** `Math.abs` on an `int` that is not `Integer.MIN_VALUE`. */
  function Abs(x: int): (a: int)
    ensures a >= 0 && (a == x || a == -x)
  {
    if x < 0 then -x else x
  }

  /** `(index + 0 * 0) % len` in `int` arithmetic is `index` for a valid index into a Java array. */
  lemma AddZeroSquared(index: int, len: int)
    requires 0 <= index < len <= 0x7FFF_FFFF
    ensures JRem(Wrap32(index + Wrap32(0 * 0)), len) == index
  {
    assert Wrap32(0 * 0) == 0;
    assert Wrap32(index + 0) == index;
  }

  /** Euclidean division is unique. */
  lemma DivUnique(x: int, m: int, q: int, r: int)
    requires m > 0 && 0 <= r < m && x == m * q + r
    ensures x / m == q && x % m == r
  {
    var q' := x / m;
    var r' := x % m;
    assert x == m * q' + r';
    assert m * (q - q') == r' - r;
    if q - q' >= 1 {
      MulAtLeast(m, q - q');
    } else if q' - q >= 1 {
      MulAtLeast(m, q' - q);
    }
  }

  lemma MulAtLeast(m: int, k: int)
    requires m > 0 && k >= 1
    ensures m * k >= m
  {
  }

  /** Dividing by `d` and then by 10 is dividing by `10 * d`; likewise for what is left over. */
  lemma NatDivTen(x: int, d: int)
    requires x >= 0 && d > 0
    ensures x / (10 * d) == (x / d) / 10
    ensures x % (10 * d) == d * ((x / d) % 10) + x % d
  {
    var q, r := x / d, x % d;
    var hi, digit := q / 10, q % 10;
    Regroup(x, d, q, r, hi, digit);
    DivUnique(x, 10 * d, hi, d * digit + r);
  }

  lemma Regroup(x: int, d: int, q: int, r: int, hi: int, digit: int)
    requires d > 0 && x == d * q + r && 0 <= r < d && q == 10 * hi + digit && 0 <= digit < 10
    ensures x == (10 * d) * hi + (d * digit + r) && 0 <= d * digit + r < 10 * d
  {
    assert d * q == d * (10 * hi) + d * digit;
    assert d * (10 * hi) == (10 * d) * hi;
    assert d * digit <= d * 9 by {
      MulMono(d, digit, 9);
    }
  }

  lemma MulMono(m: int, a: int, b: int)
    requires m > 0 && 0 <= a <= b
    ensures 0 <= m * a <= m * b
  {
    assert m * b - m * a == m * (b - a);
  }

  /**
   * The Java remainder by `10 * d` splits into the Java digit `(x / d) % 10`, scaled by `d`, and
   * the Java remainder by `d`; all three have the sign of `x`.
   */
  lemma DigitSplit(x: int, d: int)
    requires d > 0
    ensures JDiv(x, 10 * d) == JDiv(JDiv(x, d), 10)
    ensures JRem(x, 10 * d) == d * JRem(JDiv(x, d), 10) + JRem(x, d)
    ensures x >= 0 ==> 0 <= JRem(JDiv(x, d), 10) <= 9 && 0 <= JRem(x, d) < d
    ensures x < 0 ==> -9 <= JRem(JDiv(x, d), 10) <= 0 && -d < JRem(x, d) <= 0
  {
    if x >= 0 {
      DigitSplitNonNegative(x, d);
    } else {
      DigitSplitNonNegative(-x, d);
      DigitSplitNegate(x, d);
    }
  }

  /** `DigitSplit` on a non-negative dividend, where Java's operators are Dafny's. */
  lemma DigitSplitNonNegative(x: int, d: int)
    requires x >= 0 && d > 0
    ensures JDiv(x, 10 * d) == JDiv(JDiv(x, d), 10)
    ensures JRem(x, 10 * d) == d * JRem(JDiv(x, d), 10) + JRem(x, d)
  {
    NatDivTen(x, d);
    assert JDiv(x, d) == x / d;
  }

  /** Java's `/` and `%` by a positive divisor are odd in the dividend. */
  lemma DigitSplitNegate(x: int, d: int)
    requires x < 0 && d > 0
    ensures JDiv(x, d) == -JDiv(-x, d) && JRem(x, d) == -JRem(-x, d)
    ensures JDiv(x, 10 * d) == -JDiv(-x, 10 * d) && JRem(x, 10 * d) == -JRem(-x, 10 * d)
    ensures JDiv(JDiv(x, d), 10) == -JDiv(JDiv(-x, d), 10)
    ensures JRem(JDiv(x, d), 10) == -JRem(JDiv(-x, d), 10)
  {
    var q := JDiv(-x, d);
    assert q >= 0 && JDiv(x, d) == -q;
    if q > 0 {
      assert JDiv(-q, 10) == -(q / 10);
    }
  }

  /** A quotient that is not zero means the dividend is at least the divisor in magnitude. */
  lemma NonzeroQuotient(x: int, d: int)
    requires d > 0 && JDiv(x, d) != 0
    ensures x >= d || x <= -d
  {
    if x >= 0 {
      MulAtLeast(d, JDiv(x, d));
    } else {
      MulAtLeast(d, -JDiv(x, d));
    }
  }
}
