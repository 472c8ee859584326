/** Uniswap V3 single-tick arithmetic: pricing/amm_v3.py. */
module AmmV3 {
  import opened Common
  import opened NonlinearMath

  const Q96: int := 0x1_0000_0000_0000_0000_0000_0000
  const FEE_DENOM: int := 1000000

  datatype PoolData = PoolData(
    address: nat, token0: Token, token1: Token, sqrtPriceX96: int, liquidity: int, feePpm: int)
  {
    /** What the constructor accepts. */
    predicate Valid() {
      && 0 < sqrtPriceX96
      && 0 < liquidity
      && feePpm in {100, 500, 3000, 10000}
      && token0 != token1
    }

    predicate Has(t: Token) {
      t == token0 || t == token1
    }
  }

  type UniswapV3Pool = p: PoolData | p.Valid()
    witness PoolData(0, Token(0), Token(1), 1, 1, 3000)

  /** The checks of the constructor, in their order. */
  function MakePool(address: nat, token0: Token, token1: Token, sqrtPriceX96: int, liquidity: int, feePpm: int)
    : (r: Result<UniswapV3Pool>)
    ensures r.Ok? <==> 0 < sqrtPriceX96 && 0 < liquidity && token0 != token1
                       && (feePpm == 100 || feePpm == 500 || feePpm == 3000 || feePpm == 10000)
    ensures r.Ok? ==> r.value == PoolData(address, token0, token1, sqrtPriceX96, liquidity, feePpm)
  {
    if sqrtPriceX96 <= 0 || liquidity <= 0 then Err(NonPositiveReserves)
    else if feePpm !in {100, 500, 3000, 10000} then Err(BadFee)
    else if token0 == token1 then Err(SameToken)
    else Ok(PoolData(address, token0, token1, sqrtPriceX96, liquidity, feePpm))
  }

  /** Input left after the fee. */
  function NetIn(amountIn: int, feePpm: int): int {
    amountIn * (FEE_DENOM - feePpm) / FEE_DENOM
  }

  /** Token0 in: the square-root price falls. `q` is the fixed-point unit. */
  function ZeroForOne(net: int, sqrt: int, l: int, q: int): int
    requires 0 <= net && 0 < sqrt && 0 < l && 0 < q
  {
    l * (sqrt - SqrtAfter0(net, sqrt, l, q)) / q
  }

  function Extra(net: int, sqrt: int, q: int): (extra: int)
    requires 0 <= net && 0 < sqrt && 0 < q
    ensures 0 <= extra
  {
    (net * sqrt + q - 1) / q
  }

  function SqrtAfter0(net: int, sqrt: int, l: int, q: int): int
    requires 0 <= net && 0 < sqrt && 0 < l && 0 < q
  {
    (l * sqrt) / (l + Extra(net, sqrt, q))
  }

  /** Token1 in: the square-root price rises. */
  function Delta1(net: int, l: int, q: int): (delta: int)
    requires 0 <= net && 0 < l && 0 < q
    ensures 0 <= delta
  {
    net * q / l
  }

  function OneForZero(net: int, sqrt: int, l: int, q: int): int
    requires 0 <= net && 0 < sqrt && 0 < l && 0 < q
  {
    var delta := Delta1(net, l, q);
    MulPos(sqrt, sqrt + delta);
    l * delta * q / (sqrt * (sqrt + delta))
  }

  /** The quote in fixed-point unit `q`. */
  function QuoteAt(p: UniswapV3Pool, amountIn: int, tokenIn: Token, q: int): (r: Result<int>)
    requires 0 < q
    ensures r.Ok? <==> 0 < amountIn && p.Has(tokenIn)
  {
    if amountIn <= 0 then Err(NonPositiveAmount)
    else
      NetInBounds(amountIn, p.feePpm);
      var net := NetIn(amountIn, p.feePpm);
      if tokenIn == p.token0 then Ok(ZeroForOne(net, p.sqrtPriceX96, p.liquidity, q))
      else if tokenIn == p.token1 then Ok(OneForZero(net, p.sqrtPriceX96, p.liquidity, q))
      else Err(TokenNotInPair)
  }

  function GetAmountOut(p: UniswapV3Pool, amountIn: int, tokenIn: Token): (r: Result<int>)
    ensures r.Ok? <==> 0 < amountIn && p.Has(tokenIn)
  {
    QuoteAt(p, amountIn, tokenIn, Q96)
  }

  lemma NetInBounds(a: int, fee: int)
    requires 0 <= a && 0 <= fee <= FEE_DENOM
    ensures 0 <= NetIn(a, fee) <= a
  {
    var n := a * (FEE_DENOM - fee);
    MulMono(0, a, FEE_DENOM - fee);
    MulMono(FEE_DENOM - fee, FEE_DENOM, a);
    FloorDivAtLeast(n, FEE_DENOM, 0);
    FloorDivAtLeast(n, FEE_DENOM, a + 1);
  }

  lemma NetInMono(a: int, b: int, fee: int)
    requires 0 <= a <= b && 0 <= fee <= FEE_DENOM
    ensures NetIn(a, fee) <= NetIn(b, fee)
  {
    MulMono(a, b, FEE_DENOM - fee);
    DivMono(a * (FEE_DENOM - fee), b * (FEE_DENOM - fee), FEE_DENOM);
  }

  // ---- token0 in ----

  /** A larger input leaves the price at least as low. */
  lemma SqrtAfter0Antitone(m: int, n: int, sqrt: int, l: int, q: int)
    requires 0 <= m <= n && 0 < sqrt && 0 < l && 0 < q
    ensures 0 <= SqrtAfter0(n, sqrt, l, q) <= SqrtAfter0(m, sqrt, l, q) <= sqrt
  {
    ExtraMono(m, n, sqrt, q);
    QuotientsOrdered(l, sqrt, Extra(m, sqrt, q), Extra(n, sqrt, q));
  }

  lemma QuotientsOrdered(l: int, sqrt: int, em: int, en: int)
    requires 0 < l && 0 < sqrt && 0 <= em <= en
    ensures 0 <= l * sqrt / (l + en) <= l * sqrt / (l + em) <= sqrt
  {
    var num := l * sqrt;
    MulPos(l, sqrt);
    DivAntitone(num, l + em, l + en);
    DivAntitone(num, l, l + em);
    FloorDivIs(num, l, sqrt) by {
      assert (sqrt + 1) * l == num + l;
    }
  }

  lemma ExtraMono(m: int, n: int, sqrt: int, q: int)
    requires 0 <= m <= n && 0 < sqrt && 0 < q
    ensures Extra(m, sqrt, q) <= Extra(n, sqrt, q)
  {
    MulMono(m, n, sqrt);
    DivMono(m * sqrt + q - 1, n * sqrt + q - 1, q);
  }

  lemma ZeroForOneMonotoneCapped(m: int, n: int, sqrt: int, l: int, q: int)
    requires 0 <= m <= n && 0 < sqrt && 0 < l && 0 < q
    ensures 0 <= ZeroForOne(m, sqrt, l, q) <= ZeroForOne(n, sqrt, l, q)
    ensures ZeroForOne(n, sqrt, l, q) * q <= l * sqrt
  {
    SqrtAfter0Antitone(m, n, sqrt, l, q);
    var sm, sn := SqrtAfter0(m, sqrt, l, q), SqrtAfter0(n, sqrt, l, q);
    DropMonotoneCapped(sm, sn, sqrt, l, q);
  }

  lemma DropMonotoneCapped(sm: int, sn: int, sqrt: int, l: int, q: int)
    requires 0 <= sn <= sm <= sqrt && 0 < l && 0 < q
    ensures 0 <= l * (sqrt - sm) / q <= l * (sqrt - sn) / q
    ensures l * (sqrt - sn) / q * q <= l * sqrt
  {
    MulMono(0, sqrt - sm, l);
    MulMono(sqrt - sm, sqrt - sn, l);
    MulMono(sqrt - sn, sqrt, l);
    DivMono(l * (sqrt - sm), l * (sqrt - sn), q);
    FloorDivAtLeast(l * (sqrt - sm), q, 0);
    FloorDiv(l * (sqrt - sn), q);
  }

  /** What the three floors of a token0-in trade say, undone: `e` is the scaled input rounded up and
      `drop` the fall of the square-root price. */
  lemma ZeroForOneRounding(n: int, sqrt: int, l: int, q: int)
    requires 0 <= n && 0 < sqrt && 0 < l && 0 < q
    ensures var e, drop, out := Extra(n, sqrt, q), sqrt - SqrtAfter0(n, sqrt, l, q), ZeroForOne(n, sqrt, l, q);
            && 0 <= drop <= sqrt && out * q <= l * drop
            && n * sqrt <= e * q < n * sqrt + q
            && drop * (l + e) < sqrt * e + l + e
  {
    var e, s := Extra(n, sqrt, q), SqrtAfter0(n, sqrt, l, q);
    SqrtAfter0Antitone(n, n, sqrt, l, q);
    FloorDiv(l * (sqrt - s), q);
    RoundedUp(n * sqrt, q);
    FallFromFloor(l, e, sqrt);
  }

  lemma RoundedUp(m: int, q: int)
    requires 0 < q
    ensures m <= (m + q - 1) / q * q < m + q
  {
    FloorDiv(m + q - 1, q);
    var e := (m + q - 1) / q;
    assert (e + 1) * q == e * q + q;
  }

  lemma FallFromFloor(l: int, e: int, sqrt: int)
    requires 0 < l && 0 <= e
    ensures (sqrt - l * sqrt / (l + e)) * (l + e) < sqrt * e + l + e
  {
    var s := l * sqrt / (l + e);
    FloorDiv(l * sqrt, l + e);
    assert (s + 1) * (l + e) == sqrt * l + sqrt * e - (sqrt - s) * (l + e) + l + e;
  }

  /** Token0 in can beat the spot price, but by no more than its own roundings. */
  lemma ZeroForOneNearSpot(n: int, sqrt: int, l: int, q: int)
    requires 0 <= n && 0 < sqrt && 0 < l && 0 < q
    ensures ZeroForOne(n, sqrt, l, q) * q * q <= n * sqrt * sqrt + (sqrt + l) * q
  {
    hide ZeroForOne, Extra, SqrtAfter0;
    var e, s := Extra(n, sqrt, q), SqrtAfter0(n, sqrt, l, q);
    ZeroForOneRounding(n, sqrt, l, q);
    PriceDrop(l, e, sqrt, s);
    AddRoundings(ZeroForOne(n, sqrt, l, q) * q, n, e, sqrt, l, q);
  }

  /** Adding up the rounding of the price step and the rounding of the input. */
  lemma AddRoundings(w: int, n: int, e: int, sqrt: int, l: int, q: int)
    requires 0 < sqrt && 0 < q
    requires w <= sqrt * e + l && e * q <= n * sqrt + q
    ensures w * q <= n * sqrt * sqrt + (sqrt + l) * q
  {
    MulMono(w, sqrt * e + l, q);
    MulMono(e * q, n * sqrt + q, sqrt);
    assert (sqrt * e + l) * q == e * q * sqrt + l * q;
    assert (n * sqrt + q) * sqrt == n * sqrt * sqrt + sqrt * q;
    assert (sqrt + l) * q == sqrt * q + l * q;
  }

  /** The floored new price is at most `e * sqrt / l + 1` below the old one. */
  lemma PriceDrop(l: int, e: int, sqrt: int, s: int)
    requires 0 < l && 0 <= e && 0 <= sqrt && s <= sqrt
    requires (sqrt - s) * (l + e) < sqrt * e + l + e
    ensures l * (sqrt - s) <= sqrt * e + l
  {
    if s < sqrt {
      MulMono(1, sqrt - s, e);
      assert (sqrt - s) * (l + e) == l * (sqrt - s) + (sqrt - s) * e;
    } else {
      MulMono(0, e, sqrt);
    }
  }

  // ---- token1 in ----

  lemma OneForZeroMonotone(m: int, n: int, sqrt: int, l: int, q: int)
    requires 0 <= m <= n && 0 < sqrt && 0 < l && 0 < q
    ensures 0 <= OneForZero(m, sqrt, l, q) <= OneForZero(n, sqrt, l, q)
  {
    Delta1Mono(m, n, l, q);
    hide Delta1;
    var dm, dn := Delta1(m, l, q), Delta1(n, l, q);
    MulPos(l, q);
    Rotate(l, dm, q);
    Rotate(l, dn, q);
    RiseMonotone(l * q, dm, dn, sqrt);
  }

  lemma Delta1Mono(m: int, n: int, l: int, q: int)
    requires 0 <= m <= n && 0 < l && 0 < q
    ensures Delta1(m, l, q) <= Delta1(n, l, q)
  {
    MulMono(m, n, q);
    DivMono(m * q, n * q, l);
  }

  /** `d / (s + d)` grows with `d`, also under the floor. */
  lemma RiseMonotone(k: int, dm: int, dn: int, s: int)
    requires 0 < k && 0 <= dm <= dn && 0 < s
    ensures 0 < s * (s + dm) && 0 < s * (s + dn)
    ensures 0 <= k * dm / (s * (s + dm)) <= k * dn / (s * (s + dn))
  {
    MulPos(s, s + dm);
    MulPos(s, s + dn);
    MulMono(0, dm, k);
    FloorDivAtLeast(k * dm, s * (s + dm), 0);
    FloorDiv(k * dm, s * (s + dm));
    var out := k * dm / (s * (s + dm));
    RiseStep(k, dm, dn, s, out);
    FloorDivAtLeast(k * dn, s * (s + dn), out);
  }

  lemma RiseStep(k: int, dm: int, dn: int, s: int, out: int)
    requires 0 < k && 0 <= dm <= dn && 0 < s
    requires out * (s * (s + dm)) <= k * dm
    ensures out * (s * (s + dn)) <= k * dn
  {
    CapFromQuotient(k, dm, s, out);
    MulMono(out * s, k, dn - dm);
    assert out * (s * (s + dn)) == out * (s * (s + dm)) + out * s * (dn - dm);
    assert k * dn == k * dm + k * (dn - dm);
  }

  /** `out <= k*d / (s*(s+d))` implies `out <= k / s`. */
  lemma CapFromQuotient(k: int, d: int, s: int, out: int)
    requires 0 < k && 0 <= d && 0 < s
    requires out * (s * (s + d)) <= k * d
    ensures out * s <= k
  {
    Assoc(out, s, s + d);
    CapFromRatio(k, d, s, out * s);
  }

  lemma CapFromRatio(k: int, d: int, s: int, w: int)
    requires 0 < k && 0 <= d && 0 < s
    requires w * (s + d) <= k * d
    ensures w <= k
  {
    if w > k {
      AboveCap(k, d, s, w);
    }
  }

  lemma AboveCap(k: int, d: int, s: int, w: int)
    requires 0 < k < w && 0 <= d && 0 < s
    ensures w * (s + d) > k * d
  {
    MulMono(k, w, s + d);
    MulPos(k, s);
    assert k * (s + d) == k * s + k * d;
  }

  /** Token1 in never beats the spot price and is capped by the virtual token0 reserve. */
  lemma OneForZeroNeverBeatsSpot(n: int, sqrt: int, l: int, q: int)
    requires 0 <= n && 0 < sqrt && 0 < l && 0 < q
    ensures OneForZero(n, sqrt, l, q) * sqrt <= l * q
    ensures OneForZero(n, sqrt, l, q) * sqrt * sqrt <= n * q * q
  {
    var d := Delta1(n, l, q);
    var out := OneForZero(n, sqrt, l, q);
    OneForZeroMonotone(n, n, sqrt, l, q);
    MulPos(sqrt, sqrt + d);
    MulPos(l, q);
    FloorDiv(l * d * q, sqrt * (sqrt + d));
    assert l * d * q == (l * q) * d;
    CapFromQuotient(l * q, d, sqrt, out);
    FloorDiv(n * q, l);
    MulMono(d * l, n * q, q);
    assert d * l * q == l * d * q;
    MulMono(sqrt, sqrt + d, out * sqrt);
    assert out * (sqrt * (sqrt + d)) == (sqrt + d) * (out * sqrt);
  }

  // ---- distance from the exact curve ----

  /** Token1 in: at most what the curve pays without rounding, `l*n*q*q / (s*(s*l + n*q))`, and
      short of it by less than 1 plus `l*q/(s*s)`. */
  lemma OneForZeroNearExact(n: int, sqrt: int, l: int, q: int)
    requires 0 <= n && 0 < sqrt && 0 < l && 0 < q
    ensures var out := OneForZero(n, sqrt, l, q);
            && out * sqrt * (sqrt * l + n * q) <= l * q * (n * q)
            && l * q * (n * q) * sqrt < ((out + 1) * sqrt * sqrt + l * q) * (sqrt * l + n * q)
  {
    hide OneForZero, Delta1;
    var d := Delta1(n, l, q);
    var out := OneForZero(n, sqrt, l, q);
    OneForZeroNeverBeatsSpot(n, sqrt, l, q);
    OneForZeroRounding(n, sqrt, l, q);
    CurveAbove(out * sqrt, sqrt, d, l, q, n * q);
    CurveBelow(out + 1, sqrt, d, l, q, n * q);
  }

  /** The two floors, undone. */
  lemma OneForZeroRounding(n: int, sqrt: int, l: int, q: int)
    requires 0 <= n && 0 < sqrt && 0 < l && 0 < q
    ensures var d, out := Delta1(n, l, q), OneForZero(n, sqrt, l, q);
            && d * l <= n * q < (d + 1) * l
            && out * sqrt * (sqrt + d) <= l * q * d < (out + 1) * sqrt * (sqrt + d)
            && 0 <= out
  {
    FloorDiv(n * q, l);
    RiseRounding(Delta1(n, l, q), sqrt, l, q);
  }

  lemma RiseRounding(d: int, sqrt: int, l: int, q: int)
    requires 0 <= d && 0 < sqrt && 0 < l && 0 < q
    ensures 0 < sqrt * (sqrt + d)
    ensures var out := l * d * q / (sqrt * (sqrt + d));
            0 <= out && out * sqrt * (sqrt + d) <= l * q * d < (out + 1) * sqrt * (sqrt + d)
  {
    MulPos(sqrt, sqrt + d);
    var p, k := sqrt * (sqrt + d), l * d * q;
    var out := k / p;
    FloorDiv(k, p);
    MulMono(0, d, l);
    MulMono(0, l * d, q);
    FloorDivAtLeast(k, p, 0);
    Assoc(out, sqrt, sqrt + d);
    Assoc(out + 1, sqrt, sqrt + d);
    Rotate(l, d, q);
  }

  lemma Rotate(a: int, b: int, c: int)
    ensures a * b * c == a * c * b
  {
  }

  lemma CurveAbove(w: int, sqrt: int, d: int, l: int, q: int, nq: int)
    requires 0 < sqrt && 0 < l && 0 < q && 0 <= d
    requires w * (sqrt + d) <= l * q * d && w <= l * q && d * l <= nq
    ensures w * (sqrt * l + nq) <= l * q * nq
  {
    MulMono(w * (sqrt + d), l * q * d, l);
    MulMono(w, l * q, nq - d * l);
    assert w * (sqrt + d) * l == w * (sqrt * l) + w * (d * l);
    assert w * (sqrt * l + nq) == w * (sqrt * l) + w * (d * l) + w * (nq - d * l);
    assert l * q * (nq - d * l) == l * q * nq - l * q * (d * l);
    assert l * q * d * l == l * q * (d * l);
  }

  /** `up` is the output rounded up; `r` below is what the price step leaves of the input. */
  lemma CurveBelow(up: int, sqrt: int, d: int, l: int, q: int, nq: int)
    requires 0 < sqrt && 0 < l && 0 < q && 0 <= d && 0 < up
    requires up * sqrt * (sqrt + d) > l * q * d && d * l <= nq < (d + 1) * l
    ensures l * q * nq * sqrt < (up * sqrt * sqrt + l * q) * (sqrt * l + nq)
  {
    var r, p, k, u := nq - d * l, sqrt + d, l * q, up * sqrt;
    assert r < l by {
      assert (d + 1) * l == d * l + l;
    }
    MulPos(l, q);
    MulPos(up, sqrt);
    assert sqrt * l + nq == p * l + r;
    Strict(k * d, u * p, l * sqrt) by {
      MulPos(l, sqrt);
    }
    RemainderFits(r, sqrt, p, l, k);
    SplitInput(k, d, l, r, sqrt);
    SplitProduct(u, sqrt, k, p, l, r);
    MulPos(u, sqrt);
    MulMono(0, r, u * sqrt);
    MulMono(0, r, k);
  }

  lemma Strict(a: int, b: int, c: int)
    requires a < b && 0 < c
    ensures a * c < b * c
  {
    MulMono(a + 1, b, c);
  }

  lemma RemainderFits(r: int, sqrt: int, p: int, l: int, k: int)
    requires r < l && 0 < sqrt <= p && 0 < l && 0 < k
    ensures k * (r * sqrt) <= k * (p * l)
  {
    MulMono(r, l, sqrt);
    MulMono(sqrt, p, l);
    MulMono(r * sqrt, p * l, k);
  }

  lemma SplitInput(k: int, d: int, l: int, r: int, sqrt: int)
    ensures k * (d * l + r) * sqrt == k * d * (l * sqrt) + k * (r * sqrt)
  {
    assert (d * l + r) * sqrt == d * (l * sqrt) + r * sqrt;
    Assoc(k, d * l + r, sqrt);
    Assoc(k, d, l * sqrt);
  }

  lemma SplitProduct(u: int, sqrt: int, k: int, p: int, l: int, r: int)
    ensures (u * sqrt + k) * (p * l + r) == u * p * (l * sqrt) + u * sqrt * r + k * (p * l) + k * r
  {
    assert u * sqrt * (p * l) == u * p * (l * sqrt);
  }

  /** Token0 in: never less than the exact curve pays, `l*n*s*s / (q*(l*q + n*s))`, floored. */
  lemma ZeroForOneAboveExact(n: int, sqrt: int, l: int, q: int)
    requires 0 <= n && 0 < sqrt && 0 < l && 0 < q
    ensures (ZeroForOne(n, sqrt, l, q) + 1) * q * (l * q + n * sqrt) > l * sqrt * (n * sqrt)
  {
    var e := Extra(n, sqrt, q);
    var s := SqrtAfter0(n, sqrt, l, q);
    var out := ZeroForOne(n, sqrt, l, q);
    SqrtAfter0Antitone(n, n, sqrt, l, q);
    MulMono(0, n, sqrt);
    FloorDiv(n * sqrt + q - 1, q);
    FloorDiv(l * sqrt, l + e);
    FloorDiv(l * (sqrt - s), q);
    assert (e + 1) * q == e * q + q;
    DropAtLeastExact(l, e, sqrt, s, q, n * sqrt);
    MulPos(l, q);
    MulMono(l * (sqrt - s) + 1, (out + 1) * q, l * q + n * sqrt);
    assert (l * (sqrt - s) + 1) * (l * q + n * sqrt) == l * (sqrt - s) * (l * q + n * sqrt) + (l * q + n * sqrt);
  }

  lemma DropAtLeastExact(l: int, e: int, sqrt: int, s: int, q: int, ns: int)
    requires 0 < l && 0 <= e && 0 < sqrt && 0 < q && 0 <= ns && 0 <= s
    requires s * (l + e) <= l * sqrt && ns <= e * q
    ensures l * (sqrt - s) * (l * q + ns) >= l * sqrt * ns
  {
    var input := l * q + ns;
    assert s * input <= l * sqrt * q by {
      assert (l + e) * q == l * q + e * q;
      MulMono(input, (l + e) * q, s);
      MulMono(s * (l + e), l * sqrt, q);
      Assoc(s, l + e, q);
    }
    DropFromRest(l, sqrt, s * input, q, ns);
    assert l * (sqrt - s) * input == l * sqrt * input - l * (s * input) by {
      Assoc(l, s, input);
      assert l * (sqrt - s) == l * sqrt - l * s;
    }
  }

  lemma DropFromRest(l: int, sqrt: int, rest: int, q: int, ns: int)
    requires 0 < l && rest <= l * sqrt * q
    ensures l * sqrt * (l * q + ns) - l * rest >= l * sqrt * ns
  {
    MulMono(rest, l * sqrt * q, l);
    assert l * sqrt * q * l == l * sqrt * (l * q);
    assert l * sqrt * (l * q + ns) == l * sqrt * (l * q) + l * sqrt * ns;
  }

  /** Token0 in: above the exact curve by no more than one unit of input and one price step. */
  lemma ZeroForOneNearExact(n: int, sqrt: int, l: int, q: int)
    requires 0 <= n && 0 < sqrt && 0 < l && 0 < q
    ensures ZeroForOne(n, sqrt, l, q) * q * (l * q + n * sqrt + q)
            <= l * sqrt * (n * sqrt + q) + l * (l * q + n * sqrt + q)
  {
    hide ZeroForOne, Extra, SqrtAfter0;
    var e, drop := Extra(n, sqrt, q), sqrt - SqrtAfter0(n, sqrt, l, q);
    ZeroForOneRounding(n, sqrt, l, q);
    MulMono(0, n, sqrt);
    StepWithinCurve(drop, e, sqrt, l, q, n * sqrt + q);
    OutputWithinCurve(ZeroForOne(n, sqrt, l, q) * q, drop, sqrt, l, n * sqrt + q, l * q + n * sqrt + q) by {
      MulPos(l, q);
    }
  }

  lemma StepWithinCurve(drop: int, e: int, sqrt: int, l: int, q: int, input: int)
    requires 0 < l && 0 < q && 0 <= drop <= sqrt
    requires e * q <= input && drop * (l + e) < sqrt * e + l + e
    ensures (drop - 1) * (l * q + input) <= sqrt * input
  {
    var k := drop - 1;
    Distrib(l + e, drop, 1);
    MulMono(k * (l + e), sqrt * e, q);
    MulMono(k, sqrt, input - e * q);
    Assoc(k, l + e, q);
    Distrib(q, l, e);
    Assoc(sqrt, e, q);
    Distrib(k, l * q + e * q, input - e * q);
    Distrib(sqrt, e * q, input - e * q);
  }

  lemma OutputWithinCurve(w: int, drop: int, sqrt: int, l: int, input: int, reserve: int)
    requires 0 < l && 0 <= reserve && w <= l * drop
    requires (drop - 1) * reserve <= sqrt * input
    ensures w * reserve <= l * sqrt * input + l * reserve
  {
    MulMono(w, l * drop, reserve);
    MulMono((drop - 1) * reserve, sqrt * input, l);
    assert l * drop * reserve == (drop - 1) * reserve * l + l * reserve;
    assert sqrt * input * l == l * sqrt * input;
  }

  // ---- when token0 in stays within spot ----

  /** The trade's own impact outweighs its roundings; `e` is the scaled input rounded up. */
  predicate ImpactOutweighsRounding(e: int, sqrt: int, l: int) {
    sqrt * e * (e - 1) >= l * (l + e - 1 + sqrt)
  }

  /** Once the impact outweighs the roundings the spot price is not beaten. */
  lemma ZeroForOneWithinSpot(n: int, sqrt: int, l: int, q: int)
    requires 0 <= n && 0 < sqrt && 0 < l && 0 < q
    requires ImpactOutweighsRounding(Extra(n, sqrt, q), sqrt, l)
    ensures ZeroForOne(n, sqrt, l, q) * q * q <= n * sqrt * sqrt
  {
    hide ZeroForOne, Extra, SqrtAfter0;
    var e, drop := Extra(n, sqrt, q), sqrt - SqrtAfter0(n, sqrt, l, q);
    ZeroForOneRounding(n, sqrt, l, q);
    DropWithinInput(drop, e, sqrt, l);
    WithinSpot(ZeroForOne(n, sqrt, l, q) * q, e, n, sqrt, q);
  }

  lemma DropWithinInput(drop: int, e: int, sqrt: int, l: int)
    requires 0 < l && 0 <= e && ImpactOutweighsRounding(e, sqrt, l)
    requires drop * (l + e) < sqrt * e + l + e
    ensures l * drop <= sqrt * (e - 1)
  {
    MulMono(drop * (l + e), sqrt * e + l + e - 1, l);
    ImpactExpanded(e, sqrt, l);
    Swap3(drop, l + e, l);
    MulCancel(l * drop, sqrt * (e - 1), l + e);
  }

  lemma Swap3(a: int, b: int, c: int)
    ensures a * b * c == c * a * b
  {
  }

  lemma ImpactExpanded(e: int, sqrt: int, l: int)
    requires ImpactOutweighsRounding(e, sqrt, l)
    ensures (sqrt * e + l + e - 1) * l <= sqrt * (e - 1) * (l + e)
  {
    assert (sqrt * e + l + e - 1) * l == sqrt * e * l + l * (l + e - 1);
    assert sqrt * (e - 1) * (l + e) == sqrt * e * l - sqrt * l + sqrt * e * (e - 1);
    assert l * (l + e - 1 + sqrt) == l * (l + e - 1) + sqrt * l;
  }

  lemma WithinSpot(w: int, e: int, n: int, sqrt: int, q: int)
    requires 0 < sqrt && 0 < q
    requires w <= sqrt * (e - 1) && e * q < n * sqrt + q
    ensures w * q <= n * sqrt * sqrt
  {
    MulMono(w, sqrt * (e - 1), q);
    MulMono((e - 1) * q, n * sqrt, sqrt) by {
      assert (e - 1) * q == e * q - q;
    }
    assert sqrt * (e - 1) * q == (e - 1) * q * sqrt;
  }

  /** A trade so small that the price falls by a single step pays `l / q` whatever its size, and so
      beats the spot price exactly when `l / q` is worth more than its input. */
  lemma SingleStepPays(n: int, sqrt: int, l: int, q: int)
    requires 0 < n && 0 < sqrt && 0 < l && 0 < q
    requires sqrt * Extra(n, sqrt, q) <= l + Extra(n, sqrt, q)
    ensures ZeroForOne(n, sqrt, l, q) == l / q
    ensures ZeroForOne(n, sqrt, l, q) * q * q > n * sqrt * sqrt <==> l / q * (q * q) > n * (sqrt * sqrt)
  {
    var e := Extra(n, sqrt, q);
    MulPos(n, sqrt);
    FloorDivAtLeast(n * sqrt + q - 1, q, 1);
    OneStep(e, sqrt, l);
    assert l * (sqrt - (sqrt - 1)) == l;
    Assoc(l / q, q, q);
    Assoc(n, sqrt, sqrt);
  }

  lemma OneStep(e: int, sqrt: int, l: int)
    requires 0 < e && 0 < sqrt && 0 < l && sqrt * e <= l + e
    ensures l * sqrt / (l + e) == sqrt - 1
  {
    MulPos(sqrt, e);
    assert (sqrt - 1) * (l + e) == l * sqrt + sqrt * e - l - e;
    assert (sqrt - 1 + 1) * (l + e) == l * sqrt + sqrt * e;
    FloorDivIs(l * sqrt, l + e, sqrt - 1);
  }

  // ---- the pool's own contract ----

  /** A larger input never buys less, in either direction. */
  lemma OutputMonotone(p: UniswapV3Pool, a: int, b: int, tokenIn: Token)
    requires 0 < a <= b && p.Has(tokenIn)
    ensures 0 <= GetAmountOut(p, a, tokenIn).value <= GetAmountOut(p, b, tokenIn).value
  {
    NetInBounds(a, p.feePpm);
    NetInMono(a, b, p.feePpm);
    if tokenIn == p.token0 {
      ZeroForOneMonotoneCapped(NetIn(a, p.feePpm), NetIn(b, p.feePpm), p.sqrtPriceX96, p.liquidity, Q96);
    } else {
      OneForZeroMonotone(NetIn(a, p.feePpm), NetIn(b, p.feePpm), p.sqrtPriceX96, p.liquidity, Q96);
    }
  }

  /** What the fee's floor takes: less than one unit of input. */
  lemma FeeFloor(a: int, fee: int)
    requires 0 < a && 0 <= fee <= FEE_DENOM
    ensures var net, paid := NetIn(a, fee), a * (FEE_DENOM - fee);
            0 <= net && 0 <= paid && net * FEE_DENOM <= paid < net * FEE_DENOM + FEE_DENOM
  {
    NetInBounds(a, fee);
    MulMono(0, a, FEE_DENOM - fee);
    FloorDiv(a * (FEE_DENOM - fee), FEE_DENOM);
  }

  /** Token0 in with a fee: `f * n + r` is what is paid after the fee, scaled by `f`. */
  lemma ZeroForOneWithFee(n: int, r: int, f: int, sqrt: int, l: int, q: int)
    requires 0 <= n && 0 <= r < f && 0 < sqrt && 0 < l && 0 < q
    ensures var out, paid := ZeroForOne(n, sqrt, l, q), (n * f + r) * sqrt;
            && ((out + 1) * q * q + sqrt * sqrt) * (l * q * f + paid) > l * sqrt * paid * q
            && out * q * (l * q * f + paid + q * f) <= l * sqrt * (paid + q * f) + l * (l * q * f + paid + q * f)
  {
    ZeroForOneAboveExact(n, sqrt, l, q);
    ZeroForOneNearExact(n, sqrt, l, q);
    ZeroForOneMonotoneCapped(n, n, sqrt, l, q);
    hide ZeroForOne;
    var out := ZeroForOne(n, sqrt, l, q);
    var x, paid := n * sqrt, (n * f + r) * sqrt;
    MulMono(0, n, sqrt);
    MulMono(0, out, q);
    MulPos(l, q);
    PaidSplits(n, r, f, sqrt);
    ShiftUp((out + 1) * q, l * q, x, l * sqrt, q, f, r, sqrt);
    ShiftDown(out * q, l * q, x + q, l * sqrt, l, f, r, sqrt);
    Distrib(f, x, q);
    Distrib(f, l * q, x);
    Distrib(f, l * q, x + q);
  }

  lemma PaidSplits(n: int, r: int, f: int, s: int)
    ensures (n * f + r) * s == f * (n * s) + r * s
  {
    Distrib(s, n * f, r);
    assert n * f * s == f * (n * s);
  }

  /** A lower bound on the curve at `x` is one at `f * x + r * s`, scaled, with a slack of `s * s`. */
  lemma ShiftUp(a: int, b: int, x: int, k: int, q: int, f: int, r: int, s: int)
    requires 0 < b && 0 <= x && 0 < q && 0 <= r < f && 0 < s && 0 <= a
    requires a * (b + x) > k * x && k * q == b * s
    ensures (a * q + s * s) * (f * (b + x) + r * s) > k * (f * x + r * s) * q
  {
    var t := r * s;
    FourTerms(a * q, s * s, f * (b + x), t);
    MulMono(0, r, s);
    MulMono(0, a, q);
    MulMono(0, a * q, t);
    MulPos(s, s);
    MulMono(0, t, s * s);
    SlackCovers(b, x, f, r, s);
    SlackIs(b, s, r);
    ScaledFirst(a, q, f, b + x);
    MulPos(f, q);
    Strict(k * x, a * (b + x), f * q);
    ScaledRest(k, f, x, t, q);
  }

  lemma FourTerms(u: int, w: int, v: int, t: int)
    ensures (u + w) * (v + t) == u * v + u * t + w * v + w * t
  {
    Distrib(v + t, u, w);
    Distrib(u, v, t);
    Distrib(w, v, t);
  }

  lemma SlackIs(b: int, s: int, r: int)
    ensures s * s * (r * b) == b * s * (r * s)
  {
  }

  lemma ScaledFirst(a: int, q: int, f: int, c: int)
    ensures a * q * (f * c) == a * c * (f * q)
  {
  }

  lemma ScaledRest(k: int, f: int, x: int, t: int, q: int)
    ensures k * (f * x + t) * q == k * x * (f * q) + k * q * t
  {
    Distrib(k, f * x, t);
    Distrib(q, k * (f * x), k * t);
    assert k * (f * x) * q == k * x * (f * q);
    assert k * t * q == k * q * t;
  }

  lemma SlackCovers(b: int, x: int, f: int, r: int, s: int)
    requires 0 < b && 0 <= x && 0 <= r < f && 0 < s
    ensures s * s * (f * (b + x)) >= s * s * (r * b)
  {
    MulMono(r, f, b);
    MulMono(b, b + x, f);
    MulMono(r * b, f * (b + x), s * s);
  }

  /** And an upper bound stays one, as long as the output is within its cap `k`. */
  lemma ShiftDown(w: int, b: int, y: int, k: int, l: int, f: int, r: int, s: int)
    requires 0 < f && 0 <= r && 0 < s && 0 <= l && w <= k
    requires w * (b + y) <= k * y + l * (b + y)
    ensures w * (f * (b + y) + r * s) <= k * (f * y + r * s) + l * (f * (b + y) + r * s)
  {
    var c, t := b + y, r * s;
    MulMono(0, r, s);
    MulMono(w, k, t);
    MulMono(0, l, t);
    MulMono(w * c, k * y + l * c, f);
    Distrib(w, f * c, t);
    Distrib(k, f * y, t);
    Distrib(l, f * c, t);
    Distrib(f, k * y, l * c);
    ScaleLast(w, c, f);
    ScaleLast(k, y, f);
    ScaleLast(l, c, f);
  }

  lemma ScaleLast(a: int, b: int, c: int)
    ensures a * b * c == a * (c * b)
  {
  }

  /** Token1 in with a fee. */
  lemma OneForZeroWithFee(n: int, r: int, f: int, sqrt: int, l: int, q: int)
    requires 0 <= n && 0 <= r < f && 0 < sqrt && 0 < l && 0 < q
    ensures var out, paid := OneForZero(n, sqrt, l, q), (n * f + r) * q;
            && out * sqrt * (sqrt * l * f + paid) <= l * q * paid
            && l * q * paid * sqrt < ((out + 1) * sqrt * sqrt + l * q + q * q) * (sqrt * l * f + paid)
  {
    OneForZeroNearExact(n, sqrt, l, q);
    OneForZeroNeverBeatsSpot(n, sqrt, l, q);
    OneForZeroMonotone(n, n, sqrt, l, q);
    hide OneForZero;
    var out := OneForZero(n, sqrt, l, q);
    MulMono(0, n, q);
    PaidSplits(n, r, f, q);
    TokenOneAbove(out * sqrt, sqrt * l, n * q, l * q, f, r, q);
    MulMono(0, out + 1, sqrt);
    MulMono(0, (out + 1) * sqrt, sqrt);
    TokenOneBelow((out + 1) * sqrt * sqrt, sqrt, l, n * q, f, r, q);
  }

  lemma TokenOneAbove(w: int, b: int, x: int, k: int, f: int, r: int, q: int)
    requires 0 <= r < f && 0 < q && w <= k && w * (b + x) <= k * x
    ensures w * (b * f + (f * x + r * q)) <= k * (f * x + r * q)
  {
    ShiftDown(w, b, x, k, 0, f, r, q);
    Distrib(f, b, x);
  }

  lemma TokenOneBelow(up: int, sqrt: int, l: int, x: int, f: int, r: int, q: int)
    requires 0 <= up && 0 <= x && 0 <= r < f && 0 < sqrt && 0 < l && 0 < q
    requires l * q * x * sqrt < (up + l * q) * (sqrt * l + x)
    ensures l * q * (f * x + r * q) * sqrt < (up + l * q + q * q) * (sqrt * l * f + (f * x + r * q))
  {
    var k := l * q * sqrt;
    MulPos(sqrt, l);
    MulPos(l, q);
    Rotate(l * q, x, sqrt);
    Rotate(l * q, f * x + r * q, sqrt);
    assert k == sqrt * l * q;
    ShiftUp(up + l * q, sqrt * l, x, k, 1, f, r, q);
    Distrib(f, sqrt * l, x);
  }

  /** A quote lies at the unrounded curve for the input less its fee: token0-in falls short of it by
      less than 1 and `s * s` in scaled units, token1-in by less than 1 and `l * q + q * q`; neither
      exceeds it by more than its roundings. */
  ghost predicate NearCurve(p: UniswapV3Pool, a: int, tokenIn: Token, q: int, out: int) {
    var s, l, paid := p.sqrtPriceX96, p.liquidity, a * (1000000 - p.feePpm);
    if tokenIn == p.token0 then
      && l * s * (paid * s) * q < ((out + 1) * q * q + s * s) * (l * q * 1000000 + paid * s)
      && out * q * (l * q * 1000000 + paid * s + q * 1000000)
         <= l * s * (paid * s + q * 1000000) + l * (l * q * 1000000 + paid * s + q * 1000000)
    else
      && l * q * (paid * q) * s < ((out + 1) * s * s + l * q + q * q) * (s * l * 1000000 + paid * q)
      && out * s * (s * l * 1000000 + paid * q) <= l * q * (paid * q)
  }

  /** So does every quote, in every fee tier, whatever the fixed-point unit; the pool's own unit is
      2^96. */
  lemma OutputNearCurve(p: UniswapV3Pool, a: int, tokenIn: Token, q: int)
    requires 0 < a && p.Has(tokenIn) && 0 < q
    ensures NearCurve(p, a, tokenIn, q, QuoteAt(p, a, tokenIn, q).value)
    ensures GetAmountOut(p, a, tokenIn) == QuoteAt(p, a, tokenIn, Q96)
  {
    hide ZeroForOne, OneForZero, NetIn;
    var net, paid := NetIn(a, p.feePpm), a * (FEE_DENOM - p.feePpm);
    FeeFloor(a, p.feePpm);
    var r := paid - net * FEE_DENOM;
    if tokenIn == p.token0 {
      ZeroForOneWithFee(net, r, FEE_DENOM, p.sqrtPriceX96, p.liquidity, q);
    } else {
      OneForZeroWithFee(net, r, FEE_DENOM, p.sqrtPriceX96, p.liquidity, q);
    }
  }

  /** A lower fee tier never pays less. */
  lemma LowerTierPaysNoLess(p: UniswapV3Pool, cheaper: UniswapV3Pool, a: int, tokenIn: Token)
    requires 0 < a && p.Has(tokenIn)
    requires cheaper.feePpm <= p.feePpm && cheaper == p.(feePpm := cheaper.feePpm)
    ensures GetAmountOut(p, a, tokenIn).value <= GetAmountOut(cheaper, a, tokenIn).value
  {
    hide ZeroForOne, OneForZero;
    var m, n := NetIn(a, p.feePpm), NetIn(a, cheaper.feePpm);
    NetInBounds(a, p.feePpm);
    MulMono(FEE_DENOM - p.feePpm, FEE_DENOM - cheaper.feePpm, a);
    DivMono(a * (FEE_DENOM - p.feePpm), a * (FEE_DENOM - cheaper.feePpm), FEE_DENOM);
    ZeroForOneMonotoneCapped(m, n, p.sqrtPriceX96, p.liquidity, Q96);
    OneForZeroMonotone(m, n, p.sqrtPriceX96, p.liquidity, Q96);
  }

  /** Against the virtual reserve of the output token, and against the spot price on the input
      that is left after the fee. */
  lemma OutputAgainstSpot(p: UniswapV3Pool, a: int, tokenIn: Token, q: int)
    requires 0 < a && p.Has(tokenIn) && 0 < q
    ensures var out, s, l := QuoteAt(p, a, tokenIn, q).value, p.sqrtPriceX96, p.liquidity;
            var paid := a * (1000000 - p.feePpm);
            if tokenIn == p.token0
            then out * q <= l * s && out * q * q * 1000000 <= paid * s * s + (s + l) * q * 1000000
            else out * s <= l * q && out * s * s * 1000000 <= paid * q * q
  {
    var net, s, l := NetIn(a, p.feePpm), p.sqrtPriceX96, p.liquidity;
    var paid := a * (FEE_DENOM - p.feePpm);
    NetInBounds(a, p.feePpm);
    FloorDiv(paid, FEE_DENOM);
    if tokenIn == p.token0 {
      ZeroForOneMonotoneCapped(net, net, s, l, q);
      ZeroForOneNearSpot(net, s, l, q);
      SquareScale(net, paid, s);
    } else {
      OneForZeroNeverBeatsSpot(net, s, l, q);
      SquareScale(net, paid, q);
    }
  }

  lemma SquareScale(m: int, n: int, s: int)
    requires m * FEE_DENOM <= n && 0 <= s
    ensures m * s * s * FEE_DENOM <= n * s * s
  {
    MulMono(m * FEE_DENOM, n, s);
    MulMono(m * FEE_DENOM * s, n * s, s);
    assert m * s * s * FEE_DENOM == m * FEE_DENOM * s * s;
  }

  /** On the pool itself, with its fee: no token0-in trade whose impact outweighs the roundings
      beats the spot price on the input left after the fee. */
  lemma TokenZeroInWithinSpot(p: UniswapV3Pool, a: int, q: int)
    requires 0 < a && 0 < q
    requires 0 <= NetIn(a, p.feePpm)
             && ImpactOutweighsRounding(Extra(NetIn(a, p.feePpm), p.sqrtPriceX96, q), p.sqrtPriceX96, p.liquidity)
    ensures var out, s := QuoteAt(p, a, p.token0, q).value, p.sqrtPriceX96;
            out * q * q * 1000000 <= a * (1000000 - p.feePpm) * s * s
  {
    var net, s := NetIn(a, p.feePpm), p.sqrtPriceX96;
    var paid := a * (FEE_DENOM - p.feePpm);
    NetInBounds(a, p.feePpm);
    ZeroForOneWithinSpot(net, s, p.liquidity, q);
    FloorDiv(paid, FEE_DENOM);
    SquareScale(net, paid, s);
  }

  lemma TinyPriceRoundsUp(q: int)
    requires 1 < q
    ensures ZeroForOne(1, 1, q, q) == 1
  {
    FloorDivIs(1 * 1 + q - 1, q, 1);
    FloorDivIs(q * 1, q + 1, 0);
    FloorDivIs(q * (1 - 0), q, 1);
  }

  lemma OutputForToken0(p: UniswapV3Pool, a: int, net: int, out: int)
    requires 0 < a && 0 <= net == NetIn(a, p.feePpm)
    requires out == ZeroForOne(net, p.sqrtPriceX96, p.liquidity, Q96)
    ensures GetAmountOut(p, a, p.token0) == Ok(out)
  {
  }

  lemma NetInOfTwo(fee: int)
    requires fee == 3000
    ensures NetIn(2, fee) == 1
  {
  }

  /** The rounding allowance is needed: in a pool of tiny price and large liquidity, 2 units in,
      of which 1 survives the fee, buy 1 unit where spot allows a vanishing fraction. */
  lemma TokenZeroInCanBeatSpot(p: UniswapV3Pool)
    requires p.sqrtPriceX96 == 1 && p.liquidity == Q96 && p.feePpm == 3000
    ensures GetAmountOut(p, 2, p.token0) == Ok(1)
    ensures 1 * Q96 * Q96 > 2 * p.sqrtPriceX96 * p.sqrtPriceX96
  {
    assert 2 * p.sqrtPriceX96 * p.sqrtPriceX96 == 2;
    TinyPriceRoundsUp(Q96);
    NetInOfTwo(p.feePpm);
    OutputForToken0(p, 2, 1, 1);
  }
}
