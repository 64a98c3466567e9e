/**
  Facts about floor division of integers by a positive divisor.

  Dafny's `/` on `int` is Euclidean; for a positive divisor it coincides with
  the floor division used by the crop computation (`//` and `int(...)` of a
  non-negative quotient), so the crop geometry is stated with `/`, and these
  lemmas supply the nonlinear reasoning the verifier does not find alone.
 */
module Division {

  /** The quotient `q` is the floor of `a / b` exactly when `q*b <= a < (q+1)*b`. */
  lemma FloorDivUnique(a: int, b: int, q: int)
    requires b > 0
    ensures a / b == q <==> q * b <= a < q * b + b
  {
    var d, m := a / b, a % b;
    assert a == d * b + m && 0 <= m < b;
    if q * b <= a < q * b + b {
      assert (d - q) * b == (a - q * b) - m;
      SmallMultipleIsZero(d - q, b);
    }
  }

  /** A multiple of `b` strictly between `-b` and `b` is zero. */
  lemma SmallMultipleIsZero(k: int, b: int)
    requires b > 0 && -b < k * b < b
    ensures k == 0
  {
    if k >= 1 {
      MulMonotone(1, k, b);
    } else if k <= -1 {
      MulMonotone(k, -1, b);
    }
  }

  /** The floor quotient and its successor bracket the dividend. */
  lemma FloorDivBounds(a: int, b: int)
    requires b > 0
    ensures (a / b) * b <= a < (a / b) * b + b
  {
    FloorDivUnique(a, b, a / b);
  }

  /** Dividing a non-negative number by a positive one gives a non-negative quotient. */
  lemma FloorDivNonNegative(a: int, b: int)
    requires a >= 0 && b > 0
    ensures a / b >= 0
  {
    FloorDivBounds(a, b);
    if a / b < 0 {
      MulMonotone(a / b, -1, b);
    }
  }

  /** Equal fractions `a/b == c/d` have equal floors. */
  lemma FloorDivCrossEqual(a: int, b: int, c: int, d: int)
    requires b > 0 && d > 0
    requires a * d == c * b
    ensures a / b == c / d
  {
    var q := a / b;
    FloorDivBounds(a, b);
    assert q * b * d <= a * d by {
      assert q * b <= a;
      MulMonotone(q * b, a, d);
    }
    assert a * d < (q * b + b) * d by {
      assert a < q * b + b;
      MulStrictMonotone(a, q * b + b, d);
    }
    assert (q * d) * b <= c * b;
    assert c * b < (q * d + d) * b;
    if c < q * d {
      MulStrictMonotone(c, q * d, b);
      assert false;
    }
    if c >= q * d + d {
      MulMonotone(q * d + d, c, b);
      assert false;
    }
    FloorDivUnique(c, d, q);
  }

  /** Multiplying by a positive factor preserves `<=`. */
  lemma MulMonotone(x: int, y: int, k: int)
    requires x <= y && k > 0
    ensures x * k <= y * k
  {
    assert y * k - x * k == (y - x) * k;
  }

  /** Multiplying by a positive factor preserves `<`. */
  lemma MulStrictMonotone(x: int, y: int, k: int)
    requires x < y && k > 0
    ensures x * k < y * k
  {
    assert y * k - x * k == (y - x) * k;
  }

  /** Scaling by a positive factor preserves `>` in both directions. */
  lemma ScaledCompare(x: int, y: int, k: int)
    requires k > 0
    ensures x > y <==> x * k > y * k
  {
    if x > y {
      MulStrictMonotone(y, x, k);
    } else {
      MulMonotone(x, y, k);
    }
  }

  /** A floor quotient `c` of `n` by `d` is positive exactly when `n >= d`. */
  lemma KeptCountPositiveIff(c: int, d: int, n: int)
    requires c >= 0 && d > 0
    requires c * d <= n < (c + 1) * d
    ensures c > 0 <==> n >= d
  {
    if c > 0 {
      MulMonotone(1, c, d);
    }
  }

  /** Scaling both sides of a cross-multiplication `a*d == c*b` by `k` keeps it. */
  lemma ScaleCross(k: int, a: int, b: int, c: int, d: int)
    requires a * d == c * b
    ensures (k * a) * d == (k * c) * b
  {
    calc {
      (k * a) * d;
    ==
      k * (a * d);
    ==
      k * (c * b);
    ==
      (k * c) * b;
    }
  }
}
