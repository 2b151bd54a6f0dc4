/** Integer facts and Kotlin's fixed-width integer operations, written out over unbounded `int`. */
module IntMath {

  const Int32Min: int := -0x8000_0000
  const Int32Max: int := 0x7FFF_FFFF
  const Int64Max: int := 0x7FFF_FFFF_FFFF_FFFF
  const Int64Min: int := -0x8000_0000_0000_0000

  predicate IsInt32(x: int)
  {
    Int32Min <= x <= Int32Max
  }

  predicate IsInt64(x: int)
  {
    Int64Min <= x <= Int64Max
  }

  lemma MulAtLeast(a: int, b: int)
    requires a > 0 && b > 0
    ensures a * b >= b
  {
    if a > 1 {
      MulAtLeast(a - 1, b);
      assert a * b == (a - 1) * b + b;
    }
  }

  /** Multiplying by a non-negative number keeps the order of non-negative factors. */
  lemma MulMonotone(a: int, b: int, c: int)
    requires 0 <= a <= b && c >= 0
    ensures 0 <= a * c <= b * c
  {
    if a > 0 && c > 0 {
      MulAtLeast(a, c);
    }
    if a < b && c > 0 {
      MulAtLeast(b - a, c);
      assert b * c - a * c == (b - a) * c;
    }
  }

  /** Euclidean division has one quotient and one remainder. */
  lemma DivModUnique(x: int, b: int, q: int, r: int)
    requires 0 < b && 0 <= r < b && x == q * b + r
    ensures x / b == q && x % b == r
  {
    var q0, r0 := x / b, x % b;
    assert x == q0 * b + r0;
    if q0 < q {
      assert (q - q0) * b == q * b - q0 * b;
      MulAtLeast(q - q0, b);
    } else if q < q0 {
      assert (q0 - q) * b == q0 * b - q * b;
      MulAtLeast(q0 - q, b);
    }
  }

  /** Euclidean division of a non-negative number by a positive one. */
  lemma DivBounds(a: int, b: int)
    requires a >= 0 && b > 0
    ensures 0 <= b * (a / b) <= a < b * (a / b) + b
  {
  }
  /** Kotlin's `/` on integers: the quotient is rounded toward zero. */
  function TruncDiv(a: int, b: int): (q: int)
    requires b > 0
    ensures a >= 0 ==> 0 <= b * q <= a < b * q + b
    ensures a < 0 ==> b * q - b < a <= b * q <= 0
  {
    if a >= 0 then
      DivBounds(a, b);
      a / b
    else
      var p := (-a) / b;
      DivBounds(-a, b);
      assert b * -p == -(b * p);
      -p
  }

  /** Kotlin's `%` on integers: the remainder has the sign of the dividend. */
  function TruncRem(a: int, b: int): (r: int)
    requires b > 0
    ensures a == b * TruncDiv(a, b) + r
    ensures a >= 0 ==> 0 <= r < b
    ensures a < 0 ==> -b < r <= 0
  {
    a - b * TruncDiv(a, b)
  }

  lemma MulBelow(a: int, r: int, b: int)
    requires a > 0 && 0 <= r < b
    ensures 0 <= a * r <= a * b - a
  {
    if r > 0 {
      MulAtLeast(r, a);
      assert a * b - a * r == a * (b - r);
      MulAtLeast(b - r, a);
    }
  }

  /** Dividing a non-negative number by `a` and then by `b` is dividing it by `a * b`. */
  lemma DivDiv(y: int, a: int, b: int)
    requires y >= 0 && a > 0 && b > 0
    ensures (y / a) / b == y / (a * b)
  {
    var q1, r1 := y / a, y % a;
    var q2, r2 := q1 / b, q1 % b;
    assert y == a * q1 + r1;
    assert q1 == b * q2 + r2;
    assert a * q1 == (a * b) * q2 + a * r2 by {
      assert a * (b * q2 + r2) == a * (b * q2) + a * r2;
      assert a * (b * q2) == (a * b) * q2;
    }
    MulBelow(a, r2, b);
    MulAtLeast(a, b);
    DivModUnique(y, a * b, q2, a * r2 + r1);
  }

  /** Rounding toward zero twice is rounding toward zero once by the product. */
  lemma {:induction false} TruncDivTwice(x: int, a: int, b: int)
    requires a > 0 && b > 0
    ensures TruncDiv(TruncDiv(x, a), b) == TruncDiv(x, a * b)
  {
    MulAtLeast(a, b);
    var y := if x >= 0 then x else -x;
    assert (y / a) / b == y / (a * b) by { DivDiv(y, a, b); }
    if x >= 0 {
      assert TruncDiv(x, a) == x / a;
      assert TruncDiv(x / a, b) == (x / a) / b;
      assert TruncDiv(x, a * b) == x / (a * b);
    } else {
      assert TruncDiv(x, a) == -(y / a);
      assert TruncDiv(-(y / a), b) == -((y / a) / b);
      assert TruncDiv(x, a * b) == -(y / (a * b));
    }
  }

  /** Kotlin's Long.toInt(): the low 32 bits, read as a signed number. */
  function ToInt32(x: int): (r: int)
    ensures IsInt32(r)
    ensures IsInt32(x) ==> r == x
  {
    var low := x % 0x1_0000_0000;
    if low <= Int32Max then low else low - 0x1_0000_0000
  }

  /** The cut keeps the value modulo 2^32. */
  lemma ToInt32Congruent(x: int)
    ensures (ToInt32(x) - x) % 0x1_0000_0000 == 0
  {
  }
}
