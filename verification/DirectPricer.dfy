/** The second implementation of the pair formula: pricing/uniswap_direct.py. */
module DirectPricer {
  import opened Common
  import opened NonlinearMath
  import opened Amm

  /** Integer part of `get_quote` and of the selling side of `get_prices_for_pair`. */
  function QuoteOut(reserveIn: int, reserveOut: int, amountIn: int): int
    requires 0 < reserveIn && 0 <= amountIn
  {
    (reserveOut * amountIn * 997) / (reserveIn * 1000 + amountIn * 997)
  }

  /** Integer part of the buying side; None is the branch that marks up the selling price. */
  function QuoteIn(reserveBase: int, reserveQuote: int, size: int): Option<int> {
    var num := reserveQuote * size * 1000;
    var den := (reserveBase - size) * 997;
    if den <= 0 then None else Some(num / den + 1)
  }

  /** At the standard fee of 30 basis points both pricers give the same integers on every
      positive amount, and both give up on the same purchases. */
  lemma DirectPricerAgrees(p: UniswapV2Pair, amount: int, t: Token)
    requires p.feeBps == 30 && p.Has(t) && 0 < amount
    ensures GetAmountOut(p, amount, t) == Ok(QuoteOut(p.ReserveOf(t), p.ReserveOf(p.Other(t)), amount))
    ensures var bought := QuoteIn(p.ReserveOf(t), p.ReserveOf(p.Other(t)), amount);
            if bought.Some? then GetAmountIn(p, amount, t) == Ok(bought.value)
            else GetAmountIn(p, amount, t) == Err(InsufficientLiquidity)
  {
    var x, y := p.ReserveOf(t), p.ReserveOf(p.Other(t));
    SameOut(amount, x, y);
    if amount < x {
      SameIn(amount, y, x);
    }
  }

  lemma SameOut(a: int, x: int, y: int)
    requires 0 < a && 0 < x
    ensures OutGivenIn(a, x, y, 9970) == QuoteOut(x, y, a)
  {
    var n, d := y * a * 997, x * 1000 + a * 997;
    assert a * 9970 * y == 10 * n;
    assert x * BPS + a * 9970 == 10 * d;
    CancelFactor(10, n, d);
  }

  lemma SameIn(o: int, x: int, y: int)
    requires 0 < o < y
    ensures QuoteIn(y, x, o) == Some(InGivenOut(o, x, y, 9970))
  {
    var n, d := x * o * 1000, (y - o) * 997;
    assert x * o * BPS == 10 * n;
    assert (y - o) * 9970 == 10 * d;
    CancelFactor(10, n, d);
  }

  /** On amount 0 both sides differ: the direct pricer sells it for 0 and buys it for 1, the pair
      refuses both. */
  lemma DirectPricerAcceptsZero(p: UniswapV2Pair, t: Token)
    requires p.Has(t)
    ensures QuoteOut(p.ReserveOf(t), p.ReserveOf(p.Other(t)), 0) == 0
    ensures GetAmountOut(p, 0, t) == Err(NonPositiveAmount)
    ensures QuoteIn(p.ReserveOf(t), p.ReserveOf(p.Other(t)), 0) == Some(1)
    ensures GetAmountIn(p, 0, t) == Err(NonPositiveAmount)
  {
    var d := p.ReserveOf(t) * 1000;
    FloorDivIs(0, d, 0);
    assert p.ReserveOf(p.Other(t)) * 0 * 997 == 0;
    FloorDivIs(0, (p.ReserveOf(t) - 0) * 997, 0);
    assert p.ReserveOf(p.Other(t)) * 0 * 1000 == 0;
  }
}
