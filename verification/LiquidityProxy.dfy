/** The integer square root behind HistoricalSnapshot.liquidity_proxy: pricing/historical.py. */
module LiquidityProxy {
  import opened NonlinearMath
  import opened Amm

  ghost predicate IsFloorSqrt(x: int, n: int) {
    0 <= x && x * x <= n < (x + 1) * (x + 1)
  }

  /** The floor square root is unique and grows with its argument. */
  lemma FloorSqrtMonotone(x: int, m: int, y: int, n: int)
    requires IsFloorSqrt(x, m) && IsFloorSqrt(y, n) && m <= n
    ensures x <= y
  {
    if y < x {
      MulMono(y + 1, x, x);
      MulMono(y + 1, x, y + 1);
    }
  }

  /** A Newton step from any positive `x` stays at or above the square root. */
  lemma NewtonStaysAbove(x: int, n: int, y: int)
    requires 0 < x && 0 < n && y == (x + n / x) / 2
    ensures n < (y + 1) * (y + 1)
    ensures 0 <= y
  {
    var q := n / x;
    FloorDivAtLeast(n, x, 0);
    FloorDiv(n, x);
    // n < (q + 1) * x and x + q + 1 <= 2 * (y + 1)
    assert x + q + 1 <= 2 * (y + 1);
    AmGm(x, q + 1, y + 1);
    assert (q + 1) * x == x * (q + 1);
  }

  /** A product of two numbers is at most the square of any bound on their half-sum. */
  lemma AmGm(a: int, b: int, h: int)
    requires 0 <= a + b <= 2 * h
    ensures a * b <= h * h
  {
    assert 4 * (a * b) == (a + b) * (a + b) - (a - b) * (a - b);
    assert 0 <= (a - b) * (a - b);
    MulMono(a + b, 2 * h, a + b);
    MulMono(a + b, 2 * h, 2 * h);
  }

  /** Where the step no longer descends, the square root has been reached. */
  lemma NewtonStops(x: int, n: int, y: int)
    requires 0 < x && 0 < n && y == (x + n / x) / 2 && x <= y
    ensures x * x <= n
  {
    assert x <= n / x;
    FloorDivAtLeast(n, x, x);
  }

  /** Newton's iteration as the property runs it: it ends, on the exact floor square root. */
  method LiquidityProxy(reserve0: int, reserve1: int) returns (x: int)
    ensures reserve0 * reserve1 <= 0 ==> x == 0
    ensures reserve0 * reserve1 > 0 ==> IsFloorSqrt(x, reserve0 * reserve1)
  {
    var product := reserve0 * reserve1;
    if product <= 0 {
      return 0;
    }
    x := product;
    var y := (x + 1) / 2;
    assert product / product == 1 by {
      FloorDivIs(product, product, 1);
    }
    assert product < (x + 1) * (x + 1) by {
      MulMono(1, x + 1, x + 1);
    }
    while y < x
      invariant 0 < x && y == (x + product / x) / 2
      invariant product < (x + 1) * (x + 1)
      decreases x
    {
      NewtonStaysAbove(x, product, y);
      x := y;
      y := (x + product / x) / 2;
    }
    NewtonStops(x, product, y);
  }

  /** The proxy of a pair never falls over any run of swaps. */
  lemma ProxyNeverFalls(p: UniswapV2Pair, swaps: seq<Swap>, before: int, after: int)
    requires RunSwaps(p, swaps).Ok?
    requires IsFloorSqrt(before, p.Product())
    requires IsFloorSqrt(after, RunSwaps(p, swaps).value.Product())
    ensures before <= after
  {
    RunKeepsProduct(p, swaps);
    FloorSqrtMonotone(before, p.Product(), after, RunSwaps(p, swaps).value.Product());
  }
}
