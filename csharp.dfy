/** The C# arithmetic the model needs written out: integer `/` and `%`
    truncate toward zero, an unchecked `(int)` cast keeps the low 32 bits,
    and `Math.Round` rounds half to even. */
module CSharp {

  const Int32Min: int := -0x8000_0000
  const Int32Max: int := 0x7FFF_FFFF
  const TwoTo32: int := 0x1_0000_0000

  /** C# `a / b`: the quotient truncated toward zero. */
  function Div(a: int, b: int): (q: int)
    requires b != 0
    ensures var r := a - q * b; (a >= 0 ==> 0 <= r < Abs(b)) && (a < 0 ==> -Abs(b) < r <= 0)
  {
    if a >= 0 then (if b > 0 then a / b else -(a / -b))
    else (if b > 0 then -((-a) / b) else (-a) / (-b))
  }

  /** C# `a % b`: the remainder of the truncating division; it takes the
      sign of `a`. */
  function Rem(a: int, b: int): (r: int)
    requires b != 0
    ensures a == Div(a, b) * b + r
    ensures a >= 0 ==> 0 <= r < Abs(b)
    ensures a < 0 ==> -Abs(b) < r <= 0
  {
    a - Div(a, b) * b
  }

  function Abs(x: int): (r: int)
    ensures r >= 0 && (r == x || r == -x)
  {
    if x < 0 then -x else x
  }

  /** On non-negative operands C# division and remainder are Dafny's. */
  lemma DivRemNonNegative(a: int, b: int)
    requires a >= 0 && b > 0
    ensures Div(a, b) == a / b && Rem(a, b) == a % b
  {
  }

  predicate IsInt32(x: int) { Int32Min <= x <= Int32Max }

  /** An unchecked `(int)` cast of a `long`: the value congruent to `x`
      modulo 2^32 in the 32-bit signed range. */
  function ToInt32(x: int): (r: int)
    ensures IsInt32(r)
    ensures (x - r) % TwoTo32 == 0
    ensures IsInt32(x) ==> r == x
  {
    var low := x % TwoTo32;
    if low <= Int32Max then low else low - TwoTo32
  }

  /** `Math.Round(n / d)` on an exact quotient: the nearest integer, ties
      to the even one. */
  function RoundHalfEven(n: int, d: int): (r: int)
    requires d > 0
    ensures 2 * Abs(r * d - n) <= d
    ensures 2 * Abs(r * d - n) == d ==> r % 2 == 0
  {
    var q := n / d;
    var m := n % d;
    assert q * d - n == -m;
    assert (q + 1) * d - n == d - m by {
      assert (q + 1) * d == q * d + d;
    }
    if 2 * m < d then q
    else if 2 * m > d then q + 1
    else if q % 2 == 0 then q else q + 1
  }

  /** A non-zero multiple of `p` is at least `p` away from zero. */
  lemma MulAwayFromZero(d: int, p: int)
    requires p > 0
    ensures d != 0 ==> Abs(d * p) >= p
  {
    if d > 0 {
      assert d * p == (d - 1) * p + p;
      MulMonotone(0, d - 1, p);
    } else if d < 0 {
      assert d * p == (d + 1) * p - p;
      MulMonotone(d + 1, 0, p);
    }
  }

  /** Multiplying by a positive number keeps the order. */
  lemma MulMonotone(a: int, b: int, p: int)
    requires p > 0
    ensures a <= b ==> a * p <= b * p
  {
    if a <= b {
      assert b * p - a * p == (b - a) * p;
    }
  }

  /** Division is determined by any quotient and remainder that fit. */
  lemma DivUnique(t: int, d: int, q: int, r: int)
    requires d > 0 && 0 <= r < d && t == q * d + r
    ensures t / d == q && t % d == r
  {
    var q' := t / d;
    var r' := t % d;
    assert (q' - q) * d == r - r';
    MulAwayFromZero(q' - q, d);
  }

  /** An integer whose multiple lies within half of `p` of the multiples
      `lo * p` .. `hi * p` lies in `lo` .. `hi`. */
  lemma RoundedBetween(r: int, p: int, n: int, lo: int, hi: int)
    requires p > 0 && 2 * Abs(r * p - n) <= p
    requires lo * p <= n <= hi * p
    ensures lo <= r <= hi
  {
    MulMonotone(r, lo - 1, p);
    MulMonotone(hi + 1, r, p);
    assert (lo - 1) * p == lo * p - p;
    assert (hi + 1) * p == hi * p + p;
  }
}
