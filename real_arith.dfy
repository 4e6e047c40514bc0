/** Facts about real products used by the geometry proofs. Each lemma
    names the product it speaks about (`p == a * b`) and states its facts
    about that name, so that a caller passes the product in and receives
    plain linear facts back. */
module RealArith {
  lemma MulPositive(a: real, b: real, p: real)
    requires p == a * b && 0.0 < a && 0.0 < b
    ensures 0.0 < p
  {
  }

  lemma MulNegative(a: real, b: real, p: real)
    requires p == a * b && a < 0.0 && b < 0.0
    ensures 0.0 < p
  {
  }

  lemma MulMixed(a: real, b: real, p: real)
    requires p == a * b && 0.0 < a && b < 0.0
    ensures p < 0.0
  {
  }

  /** A product vanishes exactly when a factor does. */
  lemma ProductZero(a: real, b: real, p: real)
    requires p == a * b
    ensures p == 0.0 <==> a == 0.0 || b == 0.0
  {
    if 0.0 < a && 0.0 < b {
      MulPositive(a, b, p);
    } else if a < 0.0 && b < 0.0 {
      MulNegative(a, b, p);
    } else if 0.0 < a && b < 0.0 {
      MulMixed(a, b, p);
    } else if a < 0.0 && 0.0 < b {
      MulMixed(b, a, p);
    }
  }

  /** A square is never negative, and zero only when its root is. */
  lemma Square(x: real, q: real)
    requires q == x * x
    ensures 0.0 <= q
    ensures q == 0.0 <==> x == 0.0
  {
    if 0.0 < x {
      MulPositive(x, x, q);
    } else if x < 0.0 {
      MulNegative(x, x, q);
    }
  }

  /** A non-negative number has only one non-negative square root. */
  lemma RootUnique(s: real, k: real)
    requires 0.0 <= s && 0.0 <= k && s * s == k * k
    ensures s == k
  {
    if s < k {
      MulPositive(k - s, k + s, k * k - s * s);
    } else if k < s {
      MulPositive(s - k, s + k, s * s - k * k);
    }
  }

  /** Two numbers have the same square exactly when they are equal or
      opposite. */
  lemma SquaresEqual(u: real, s: real)
    ensures u * u == s * s <==> u == s || u == -s
  {
    ProductZero(u - s, u + s, u * u - s * s);
  }

  /** The square of `d * t - o`, expanded. */
  lemma ExpandSquare(d: real, o: real, t: real)
    ensures (d * t - o) * (d * t - o) == d * d * (t * t) - 2.0 * (d * o) * t + o * o
  {
  }

  /** Completing the square of `a * t * t - 2 * h * t + c`. */
  lemma CompleteSquare(a: real, h: real, c: real, t: real)
    ensures a * (a * (t * t) - 2.0 * h * t + c) == (a * t - h) * (a * t - h) - (h * h - a * c)
  {
  }

  lemma Distribute(a1: real, a2: real, a3: real, k: real)
    ensures (a1 + a2 + a3) * k == a1 * k + a2 * k + a3 * k
  {
  }
}
