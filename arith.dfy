/**
 * Signed 32-bit range and the calculator's division rules.
 *
 * The handlers compute in a 64-bit intermediate (`long long`) and only then
 * check that the result fits in 32 bits; Dafny's unbounded `int` plays the
 * wide intermediate, and `InInt32` is the explicit range check.
 */
module Int32Arith {

  const INT32_MIN: int := -0x8000_0000
  const INT32_MAX: int := 0x7fff_ffff

  /** Values a stack cell or an `int` operand can hold. */
  type int32 = x: int | -0x8000_0000 <= x <= 0x7fff_ffff

  /** The test `(int32_t)v != v` fails exactly for these values. */
  predicate InInt32(x: int) {
    INT32_MIN <= x <= INT32_MAX
  }

  function Abs(x: int): (r: nat)
    ensures r == x || r == -x
  {
    if x < 0 then -x else x
  }

  /**
   * The four sign cases of `quotient`. Every `/` and `%` below has
   * non-negative operands, where Dafny's Euclidean operators agree with C's
   * truncating ones. The result leaves a remainder that is never negative
   * and smaller than the divisor's magnitude.
   */
  function Quotient(a: int, b: int): (q: int)
    requires b != 0
    ensures 0 <= a - b * q < Abs(b)
  {
    if b > 0 && a >= 0 then
      a / b
    else if a >= 0 then
      DividendNonNegative(a, -b);
      -(a / (-b))
    else if b > 0 then
      DividendNegative(-a, b);
      var q := -((-a) / b);
      if (-a) % b != 0 then q - 1 else q
    else
      DividendNegative(-a, -b);
      var q := (-a) / (-b);
      if (-a) % (-b) != 0 then q + 1 else q
  }

  /** The `a >= 0, b < 0` case of `quotient`, with `y = -b`. */
  lemma DividendNonNegative(x: int, y: int)
    requires x >= 0 && y > 0
    ensures 0 <= x - (-y) * (-(x / y)) < y
  {
    assert (-y) * (-(x / y)) == y * (x / y);
  }

  /** The `a < 0` cases of `quotient`, with `x = -a` and `y = |b|`. */
  lemma DividendNegative(x: int, y: int)
    requires x > 0 && y > 0
    ensures x % y != 0 ==> 0 <= -x - y * (-(x / y) - 1) < y
    ensures x % y == 0 ==> -x - y * (-(x / y)) == 0
    ensures x % y != 0 ==> 0 <= -x - (-y) * (x / y + 1) < y
    ensures x % y == 0 ==> -x - (-y) * (x / y) == 0
  {
    var q := x / y;
    assert x == y * q + x % y;
    assert y * (-q - 1) == -(y * q) - y;
    assert y * (-q) == -(y * q);
    assert (-y) * (q + 1) == -(y * q) - y;
    assert (-y) * q == -(y * q);
  }

  /** Floor division for a positive divisor, ceiling division for a negative one. */
  lemma QuotientRounding(a: int, b: int)
    requires b != 0
    ensures b > 0 ==> b * Quotient(a, b) <= a < b * (Quotient(a, b) + 1)
    ensures b < 0 ==> b * Quotient(a, b) <= a < b * (Quotient(a, b) - 1)
  {
    Rounding(a, b, Quotient(a, b));
  }

  lemma Rounding(a: int, b: int, q: int)
    requires b != 0 && 0 <= a - b * q < Abs(b)
    ensures b > 0 ==> b * q <= a < b * (q + 1)
    ensures b < 0 ==> b * q <= a < b * (q - 1)
  {
    assert b * (q + 1) == b * q + b;
    assert b * (q - 1) == b * q - b;
  }

  /** The remainder bound pins the quotient down: no other value leaves one in `[0, |b|)`. */
  lemma QuotientUnique(a: int, b: int, q: int)
    requires b != 0
    requires 0 <= a - b * q < Abs(b)
    ensures q == Quotient(a, b)
  {
    RemainderUnique(a, b, q, Quotient(a, b));
  }

  lemma RemainderUnique(a: int, b: int, q: int, p: int)
    requires b != 0
    requires 0 <= a - b * q < Abs(b)
    requires 0 <= a - b * p < Abs(b)
    ensures q == p
  {
    var d := q - p;
    var m := b * d;
    assert m == b * q - b * p;
    if d != 0 {
      MulAbsAtLeast(b, d);
    }
  }

  lemma MulAbsAtLeast(b: int, d: int)
    requires d != 0
    ensures Abs(b * d) >= Abs(b)
  {
    var x, y := Abs(b), Abs(d);
    MulMonotone(x, y);
    MulAbs(b, d);
  }

  lemma MulAbs(b: int, d: int)
    ensures Abs(b * d) == Abs(b) * Abs(d)
  {
    if b < 0 && d < 0 {
      assert b * d == (-b) * (-d);
    } else if b < 0 {
      assert b * d == -((-b) * d);
    } else if d < 0 {
      assert b * d == -(b * (-d));
    }
  }

  /** Hence `quotient` is exactly Euclidean division, Dafny's own `/` on `int`. */
  lemma QuotientIsEuclidean(a: int, b: int)
    requires b != 0
    ensures Quotient(a, b) == a / b
  {
    assert 0 <= a - b * (a / b) < Abs(b);
    QuotientUnique(a, b, a / b);
  }

  /**
   * The remainder computed by the `%` handler: for a negative dividend it is
   * `a - b * quotient(a, b)`; otherwise the divisor's sign is dropped and the
   * remainder of two non-negatives is taken.
   */
  function Modulo(a: int, b: int): (r: int)
    requires b != 0
    ensures r == a - b * Quotient(a, b)
    ensures 0 <= r < Abs(b)
  {
    if a < 0 then
      a - b * Quotient(a, b)
    else
      var m := a % Abs(b);
      ModuloOfNonNegative(a, b);
      m
  }

  /** The two ways the `%` handler computes its result, by the dividend's sign. */
  lemma ModuloCases(a: int, b: int)
    requires b != 0
    ensures a < 0 ==> Modulo(a, b) == a - b * Quotient(a, b)
    ensures a >= 0 ==> Modulo(a, b) == a % Abs(b)
  {
  }

  lemma ModuloOfNonNegative(a: int, b: int)
    requires b != 0 && a >= 0
    ensures a % Abs(b) == a - b * Quotient(a, b)
  {
    var c := Abs(b);
    var q := if b > 0 then a / c else -(a / c);
    assert b * q == c * (a / c);
    QuotientUnique(a, b, q);
  }

  /** The `%` result is never outside the 32-bit range, so its overflow branch is dead. */
  lemma ModuloFitsInt32(a: int32, b: int32)
    requires b != 0
    ensures InInt32(Modulo(a, b))
  {
  }

  /** Division of two 32-bit values overflows for one pair of operands only. */
  lemma QuotientOverflowsIff(a: int32, b: int32)
    requires b != 0
    ensures !InInt32(Quotient(a, b)) <==> a == INT32_MIN && b == -1
  {
    var q := Quotient(a, b);
    Rounding(a, b, q);
    if a == INT32_MIN && b == -1 {
      RemainderUnique(a, b, q, 0x8000_0000);
    } else if b == -1 {
      RemainderUnique(a, b, q, -a);
    } else {
      QuotientBounds(a, b, q);
    }
  }

  /** Outside `INT32_MIN / -1`, a quotient of 32-bit values lies between `-|a|` and `|a|`. */
  lemma QuotientBounds(a: int, b: int, q: int)
    requires INT32_MIN <= a <= INT32_MAX && b != 0 && b != -1
    requires b > 0 ==> b * q <= a < b * (q + 1)
    requires b < 0 ==> b * q <= a < b * (q - 1)
    ensures InInt32(q)
  {
    if b > 0 {
      if q > 0 {
        MulMonotone(q, b);
      } else if q < INT32_MIN {
        MulMonotone(-(q + 1), b);
      }
    } else {
      if q < -0x4000_0000 {
        MulNegMonotone(-q, b);
      } else if q > 0x4000_0000 {
        MulNegMonotone(q - 1, b);
      }
    }
  }

  lemma MulMonotone(q: int, b: int)
    requires q >= 0 && b >= 1
    ensures b * q >= q
  {
    assert b * q == (b - 1) * q + q;
  }

  lemma MulNegMonotone(q: int, b: int)
    requires q >= 0 && b <= -2
    ensures b * q <= -2 * q
  {
    assert b * q == (b + 2) * q - 2 * q;
  }

  lemma QuotientExamples()
    ensures Quotient(7, 2) == 3 && Quotient(7, -2) == -3
    ensures Quotient(-7, 2) == -4 && Quotient(-7, -2) == 4
    ensures Modulo(-7, 3) == 2 && Modulo(7, -3) == 1
  {
  }
}
