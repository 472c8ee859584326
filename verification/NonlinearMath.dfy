/** Multiplication and floor-division facts the integer pricing proofs are built on. */
module NonlinearMath {

  lemma MulMono(a: int, b: int, c: int)
    requires a <= b && 0 <= c
    ensures a * c <= b * c
  {
  }

  lemma MulPos(a: int, b: int)
    requires 0 < a && 0 < b
    ensures 0 < a * b
  {
  }

  lemma MulCancel(a: int, b: int, c: int)
    requires a * c <= b * c && 0 < c
    ensures a <= b
  {
    if a > b {
      MulMono(b + 1, a, c);
    }
  }

  lemma Distrib(a: int, b: int, c: int)
    ensures a * (b + c) == a * b + a * c && (b + c) * a == b * a + c * a
    ensures a * (b - c) == a * b - a * c && (b - c) * a == b * a - c * a
  {
  }

  lemma Assoc(a: int, b: int, c: int)
    ensures a * b * c == a * (b * c)
  {
  }

  /** The defining property of floor division by a positive number. */
  lemma FloorDiv(n: int, d: int)
    requires 0 < d
    ensures n / d * d <= n < (n / d + 1) * d
  {
  }

  /** `q <= n / d` exactly when `q * d <= n`. */
  lemma FloorDivAtLeast(n: int, d: int, q: int)
    requires 0 < d
    ensures n / d >= q <==> q * d <= n
  {
    FloorDiv(n, d);
    if n / d >= q {
      MulMono(q, n / d, d);
    } else {
      MulMono(n / d + 1, q, d);
    }
  }

  lemma FloorDivIs(n: int, d: int, q: int)
    requires 0 < d && q * d <= n < (q + 1) * d
    ensures n / d == q
  {
    FloorDivAtLeast(n, d, q);
    FloorDivAtLeast(n, d, q + 1);
  }

  /** A common factor of dividend and divisor cancels under the floor. */
  lemma CancelFactor(k: int, n: int, d: int)
    requires 0 < k && 0 < d
    ensures 0 < k * d && (k * n) / (k * d) == n / d
  {
    MulPos(k, d);
    var q := n / d;
    FloorDiv(n, d);
    assert q * (k * d) == (q * d) * k && (q + 1) * (k * d) == ((q + 1) * d) * k && k * n == n * k;
    MulMono(q * d, n, k);
    MulMono(n + 1, (q + 1) * d, k);
    FloorDivIs(k * n, k * d, q);
  }

  /** `q` reaches the rounded-up quotient exactly when `q * d` reaches `n`. */
  lemma CeilDivAtMost(n: int, d: int, q: int)
    requires 0 < d
    ensures (n + d - 1) / d <= q <==> n <= q * d
  {
    FloorDivAtLeast(n + d - 1, d, q + 1);
    assert (q + 1) * d == q * d + d;
  }

  /** Which `a` reach `n` in steps of `d`: all above the quotient, none below it,
      and the quotient itself only without remainder. */
  lemma ReachesDividend(n: int, d: int, a: int)
    requires 0 < d
    ensures a >= n / d + 1 ==> a * d >= n
    ensures a * d >= n ==> a >= n / d
    ensures a == n / d ==> (a * d >= n <==> n % d == 0)
  {
    FloorDiv(n, d);
    assert n == n / d * d + n % d;
    if a >= n / d + 1 {
      MulMono(n / d + 1, a, d);
    } else if a < n / d {
      MulMono(a + 1, n / d, d);
      assert (a + 1) * d == a * d + d;
    }
  }

  lemma DivMono(m: int, n: int, d: int)
    requires m <= n && 0 < d
    ensures m / d <= n / d
  {
    FloorDiv(m, d);
    FloorDivAtLeast(n, d, m / d);
  }

  lemma DivAntitone(n: int, d: int, e: int)
    requires 0 <= n && 0 < d <= e
    ensures 0 <= n / e <= n / d
  {
    FloorDivAtLeast(n, e, 0);
    FloorDiv(n, e);
    MulMono(d, e, n / e);
    FloorDivAtLeast(n, d, n / e);
  }

  // ---- the same over the reals ----

  lemma RMulMono(a: real, b: real, c: real)
    requires a <= b && 0.0 <= c
    ensures a * c <= b * c
  {
  }

  lemma RDistrib(a: real, b: real, c: real)
    ensures a * (b + c) == a * b + a * c
    ensures (b + c) * a == b * a + c * a
    ensures a * (b - c) == a * b - a * c
    ensures (b - c) * a == b * a - c * a
  {
  }

  lemma RNeg(a: real, b: real)
    ensures (-a) * b == -(a * b) == a * (-b)
  {
  }

  lemma RQuotient(a: real, b: real)
    requires b != 0.0
    ensures a / b * b == a
  {
  }

  lemma RCancel(a: real, b: real, c: real)
    requires c > 0.0 && a * c == b * c
    ensures a == b
  {
    if a < b {
      RStrict(a, b, c);
    } else if b < a {
      RStrict(b, a, c);
    }
  }

  lemma RPos(a: real, b: real)
    requires 0.0 < a && 0.0 < b
    ensures 0.0 < a * b
  {
  }

  lemma RCompare(a: real, b: real, c: real)
    requires 0.0 < c
    ensures a > b <==> a * c > b * c
  {
    if a > b {
      RStrict(b, a, c);
    } else {
      RMulMono(a, b, c);
    }
  }

  lemma RQuotientSign(a: real, b: real)
    requires 0.0 < b
    ensures 0.0 <= a / b <==> 0.0 <= a
  {
    RQuotient(a, b);
    if 0.0 <= a / b {
      RMulMono(0.0, a / b, b);
    } else {
      RStrict(a / b, 0.0, b);
    }
  }

  lemma RStrict(a: real, b: real, c: real)
    requires a < b && 0.0 < c
    ensures a * c < b * c
  {
  }
}
