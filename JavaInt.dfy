/** Java's 32-bit `int` and the integer conversions PoolChunkList.java relies on:
    integer division (rounds toward zero), the `(int)` cast of a `long` (keeps the
    low 32 bits) and the `(int)` cast of a `double` (rounds toward zero, saturates). */
module JavaInt {

  const MinInt: int := -0x8000_0000
  const MaxInt: int := 0x7fff_ffff
  const TwoTo32: int := 0x1_0000_0000

  /** A value of Java's `int` type. */
  type Int32 = x: int | MinInt <= x <= MaxInt

  /** Java's `/` on integers (and on longs): the exact quotient rounded toward zero. */
  function Quot(a: int, d: int): int
    requires d > 0
  {
    if a >= 0 then a / d else -((-a) / d)
  }

  /** The quotient rounded toward zero: never above the exact value for a
      non-negative numerator, never below it for a negative one, and less than
      one divisor away. */
  lemma QuotBounds(a: int, d: int)
    requires d > 0
    ensures var q := Quot(a, d);
      (0 <= a ==> 0 <= q && q * d <= a < q * d + d) &&
      (a < 0 ==> q <= 0 && q * d - d < a <= q * d)
  {
    if a >= 0 {
      DivBounds(a, d);
      DivNonNegative(a, d);
    } else {
      var p := (-a) / d;
      DivBounds(-a, d);
      DivNonNegative(-a, d);
      assert Quot(a, d) == -p;
      NegMul(p, d);
    }
  }

  /** Rounding toward zero never moves a smaller numerator above a larger one. */
  lemma QuotMonotone(a: int, b: int, d: int)
    requires d > 0 && a <= b
    ensures Quot(a, d) <= Quot(b, d)
  {
    QuotBounds(a, d);
    QuotBounds(b, d);
    var qa, qb := Quot(a, d), Quot(b, d);
    if 0 <= a {
      MulSucc(qb, d);
      MulCancel(qa, qb + 1, d);
    } else if b < 0 {
      MulSucc(qa - 1, d);
      MulCancel(qa - 1, qb, d);
    }
  }

  /** `(int)` applied to a `long`: two's-complement wrap-around to 32 bits. */
  function LongToInt(x: int): (r: Int32)
    ensures (r - x) % TwoTo32 == 0
    ensures MinInt <= x <= MaxInt ==> r == x
  {
    var m := x % TwoTo32;
    if m > MaxInt then m - TwoTo32 else m
  }

  /** `(int)` applied to a `double` that is already a whole number: values
      outside the `int` range become the nearest bound. */
  function Saturate(x: int): (r: Int32)
    ensures MinInt <= x <= MaxInt ==> r == x
    ensures x > MaxInt ==> r == MaxInt
    ensures x < MinInt ==> r == MinInt
  {
    if x > MaxInt then MaxInt else if x < MinInt then MinInt else x
  }

  /** `(int)` applied to the real number num/den, den > 0: rounded toward zero,
      then saturated to the `int` range. */
  function DoubleToInt(num: int, den: int): Int32
    requires den > 0
  {
    Saturate(Quot(num, den))
  }

  /** The cast never moves a smaller real above a larger one. */
  lemma DoubleToIntMonotone(a: int, b: int, den: int)
    requires den > 0 && a <= b
    ensures DoubleToInt(a, den) <= DoubleToInt(b, den)
  {
    QuotMonotone(a, b, den);
  }

  // ---- small facts about multiplication and floor division, used by the proofs ----

  lemma DivBounds(a: int, d: int)
    requires d > 0
    ensures (a / d) * d <= a < (a / d) * d + d
  {
    var q, r := a / d, a % d;
    assert a == d * q + r && 0 <= r < d;
    assert d * q == q * d;
  }

  lemma DivNonNegative(a: int, d: int)
    requires a >= 0 && d > 0
    ensures a / d >= 0
  {
    var q := a / d;
    DivBounds(a, d);
    if q < 0 {
      MulLeq(q + 1, 0, d);
    }
  }

  lemma NegMul(p: int, d: int)
    ensures (-p) * d == -(p * d)
  {
  }

  lemma MulSucc(q: int, d: int)
    ensures (q + 1) * d == q * d + d
  {
  }

  lemma MulCancel(x: int, y: int, d: int)
    requires d > 0 && x * d < y * d
    ensures x < y
  {
    if x >= y {
      MulLeq(y, x, d);
    }
  }

  lemma MulLeq(a: int, b: int, d: int)
    requires a <= b && d >= 0
    ensures a * d <= b * d
  {
    assert b * d - a * d == (b - a) * d;
  }

  /** Floor division by a positive divisor is characterised by its remainder range. */
  lemma DivUnique(a: int, d: int, q: int)
    requires d > 0 && q * d <= a < q * d + d
    ensures a / d == q
  {
    var q' := a / d;
    assert q' * d <= a < q' * d + d;
    if q' < q {
      MulLeq(q' + 1, q, d);
      assert false;
    } else if q' > q {
      MulLeq(q + 1, q', d);
      assert false;
    }
  }

  /** x / d <= m exactly when x is below the start of the next multiple of d. */
  lemma DivAtMost(x: int, d: int, m: int)
    requires d > 0
    ensures x / d <= m <==> x < (m + 1) * d
  {
    var q := x / d;
    assert q * d <= x < q * d + d;
    if q <= m {
      MulLeq(q + 1, m + 1, d);
    } else {
      MulLeq(m + 1, q, d);
    }
  }
}
