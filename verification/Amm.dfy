/** Uniswap V2 pair arithmetic: pricing/amm.py. */
module Amm {
  import opened Common
  import opened NonlinearMath

  const BPS: int := 10000

  datatype PairData = PairData(
    address: nat, token0: Token, token1: Token, reserve0: int, reserve1: int, feeBps: int)
  {
    /** What the constructor accepts. */
    predicate Valid() {
      0 < reserve0 && 0 < reserve1 && 0 <= feeBps < BPS && token0 != token1
    }

    predicate Has(t: Token) {
      t == token0 || t == token1
    }

    function ReserveOf(t: Token): int {
      if t == token0 then reserve0 else reserve1
    }

    function Other(t: Token): Token {
      if t == token0 then token1 else token0
    }

    /** What is left of one unit of input after the fee, in basis points. */
    function Gamma(): int {
      BPS - feeBps
    }

    function Product(): int {
      reserve0 * reserve1
    }
  }

  /** Only pairs the constructor accepts exist. */
  type UniswapV2Pair = p: PairData | p.Valid()
    witness PairData(0, Token(0), Token(1), 1, 1, 30)

  /** The checks of the constructor, in their order. */
  function MakePair(address: nat, token0: Token, token1: Token, reserve0: int, reserve1: int, feeBps: int)
    : (r: Result<UniswapV2Pair>)
    ensures r.Ok? <==> 0 < reserve0 && 0 < reserve1 && 0 <= feeBps < 10000 && token0 != token1
    ensures r.Ok? ==> r.value == PairData(address, token0, token1, reserve0, reserve1, feeBps)
  {
    if reserve0 <= 0 || reserve1 <= 0 then Err(NonPositiveReserves)
    else if !(0 <= feeBps < BPS) then Err(BadFee)
    else if token0 == token1 then Err(SameToken)
    else Ok(PairData(address, token0, token1, reserve0, reserve1, feeBps))
  }

  /** The constant-product formula with fee; `g` is the fee-adjusted part of 10000. */
  function OutGivenIn(a: int, x: int, y: int, g: int): int
    requires 0 < a && 0 < x && 0 < g
  {
    OutDenominatorPos(a, x, g);
    (a * g * y) / (x * BPS + a * g)
  }

  lemma OutDenominatorPos(a: int, x: int, g: int)
    requires 0 < a && 0 < x && 0 < g
    ensures 0 < x * BPS + a * g
  {
    MulPos(a, g);
  }

  function GetAmountOut(p: UniswapV2Pair, amountIn: int, tokenIn: Token): (r: Result<int>)
    ensures r.Ok? <==> 0 < amountIn && p.Has(tokenIn)
  {
    if amountIn <= 0 then Err(NonPositiveAmount)
    else if tokenIn == p.token0 then Ok(OutGivenIn(amountIn, p.reserve0, p.reserve1, p.Gamma()))
    else if tokenIn == p.token1 then Ok(OutGivenIn(amountIn, p.reserve1, p.reserve0, p.Gamma()))
    else Err(TokenNotInPair)
  }

  function InGivenOut(o: int, x: int, y: int, g: int): int
    requires o < y && 0 < g
  {
    MulPos(y - o, g);
    (x * o * BPS) / ((y - o) * g) + 1
  }

  function GetAmountIn(p: UniswapV2Pair, amountOut: int, tokenOut: Token): (r: Result<int>)
    ensures r.Ok? <==> p.Has(tokenOut) && 0 < amountOut < p.ReserveOf(tokenOut)
  {
    if amountOut <= 0 then Err(NonPositiveAmount)
    else if !p.Has(tokenOut) then Err(TokenNotInPair)
    else if amountOut >= p.ReserveOf(tokenOut) then Err(InsufficientLiquidity)
    else Ok(InGivenOut(amountOut, p.ReserveOf(p.Other(tokenOut)), p.ReserveOf(tokenOut), p.Gamma()))
  }

  /** The central equivalence: what an input buys, with the floor removed. */
  lemma OutAtLeast(a: int, x: int, y: int, g: int, o: int)
    requires 0 < a && 0 < x && 0 < g
    ensures OutGivenIn(a, x, y, g) >= o <==> a * (y - o) * g >= x * o * BPS
  {
    OutDenominatorPos(a, x, g);
    FloorDivAtLeast(a * g * y, x * BPS + a * g, o);
    calc {
      o * (x * BPS + a * g);
      o * (x * BPS) + o * (a * g);
      { assert o * (x * BPS) == x * o * BPS; }
      x * o * BPS + (a * g) * o;
    }
    calc {
      a * (y - o) * g;
      { assert a * (y - o) * g == (a * g) * (y - o); }
      (a * g) * (y - o);
      (a * g) * y - (a * g) * o;
    }
  }

  /** Output is non-negative and never reaches the reserve. */
  lemma OutBounds(a: int, x: int, y: int, g: int)
    requires 0 < a && 0 < x && 0 < y && 0 < g
    ensures 0 <= OutGivenIn(a, x, y, g) < y
  {
    OutAtLeast(a, x, y, g, 0);
    OutAtLeast(a, x, y, g, y);
    MulPos(a, y);
    MulPos(a * y, g);
    MulPos(x, y);
  }

  /** The pair after the swap; the constructor of the new pair never refuses. */
  function SimulateSwap(p: UniswapV2Pair, amountIn: int, tokenIn: Token): (r: Result<UniswapV2Pair>)
    ensures r.Ok? <==> GetAmountOut(p, amountIn, tokenIn).Ok?
    ensures r.Ok? ==>
              && r.value.token0 == p.token0 && r.value.token1 == p.token1
              && r.value.feeBps == p.feeBps && r.value.address == p.address
              && r.value.ReserveOf(tokenIn) == p.ReserveOf(tokenIn) + amountIn
              && r.value.ReserveOf(p.Other(tokenIn))
                 == p.ReserveOf(p.Other(tokenIn)) - GetAmountOut(p, amountIn, tokenIn).value
  {
    var out :- GetAmountOut(p, amountIn, tokenIn);
    OutBounds(amountIn, p.ReserveOf(tokenIn), p.ReserveOf(p.Other(tokenIn)), p.Gamma());
    if tokenIn == p.token0
    then MakePair(p.address, p.token0, p.token1, p.reserve0 + amountIn, p.reserve1 - out, p.feeBps)
    else MakePair(p.address, p.token0, p.token1, p.reserve0 - out, p.reserve1 + amountIn, p.feeBps)
  }

  // ---- get_amount_in is the near-exact inverse of get_amount_out ----

  /** The division inside `get_amount_in` leaves no remainder. */
  predicate DividesExactly(x: int, y: int, o: int, g: int)
    requires o < y && 0 < g
  {
    MulPos(y - o, g);
    (x * o * BPS) % ((y - o) * g) == 0
  }

  /** On integers: the result suffices, and `a` suffices only from the result minus one on. */
  lemma InGivenOutNearlyLeast(o: int, x: int, y: int, g: int, a: int)
    requires 0 < x && 0 < o < y && 0 < g && 0 < a
    ensures 1 <= InGivenOut(o, x, y, g)
    ensures a >= InGivenOut(o, x, y, g) ==> OutGivenIn(a, x, y, g) >= o
    ensures OutGivenIn(a, x, y, g) >= o ==> a >= InGivenOut(o, x, y, g) - 1
    ensures a == InGivenOut(o, x, y, g) - 1
            ==> (OutGivenIn(a, x, y, g) >= o <==> DividesExactly(x, y, o, g))
  {
    var n, d := x * o * BPS, (y - o) * g;
    MulPos(y - o, g);
    MulPos(x, o);
    FloorDivAtLeast(n, d, 0);
    OutAtLeast(a, x, y, g, o);
    assert a * (y - o) * g == a * d by {
      Assoc(a, y - o, g);
    }
    ReachesDividend(n, d, a);
  }

  /** The quoted input always buys the wanted output, and the least sufficient input is
      the quoted one or one unit less; one unit less suffices exactly when the division is exact. */
  lemma QuotedInputIsNearlyLeast(p: UniswapV2Pair, want: int, tokenOut: Token)
    requires GetAmountIn(p, want, tokenOut).Ok?
    ensures var quoted := GetAmountIn(p, want, tokenOut).value;
            var tokenIn := p.Other(tokenOut);
            && GetAmountOut(p, quoted, tokenIn).Ok?
            && GetAmountOut(p, quoted, tokenIn).value >= want
            && (forall a :: 0 < a && GetAmountOut(p, a, tokenIn).value >= want ==> a >= quoted - 1)
            && (1 < quoted ==>
                  (GetAmountOut(p, quoted - 1, tokenIn).value >= want
                   <==> DividesExactly(p.ReserveOf(tokenIn), p.ReserveOf(tokenOut), want, p.Gamma())))
  {
    var quoted := GetAmountIn(p, want, tokenOut).value;
    var tokenIn := p.Other(tokenOut);
    var x, y, g := p.ReserveOf(tokenIn), p.ReserveOf(tokenOut), p.Gamma();
    assert quoted == InGivenOut(want, x, y, g);
    InGivenOutNearlyLeast(want, x, y, g, 1);
    InGivenOutNearlyLeast(want, x, y, g, quoted);
    if 1 < quoted {
      InGivenOutNearlyLeast(want, x, y, g, quoted - 1);
    }
    forall a | 0 < a && GetAmountOut(p, a, tokenIn).value >= want
      ensures a >= quoted - 1
    {
      InGivenOutNearlyLeast(want, x, y, g, a);
    }
  }

  /** Quoting back the output of `a` costs at most `a + 1`, and at least `a` exactly when the
      unrounded output of `a - 1` does not exceed it. */
  lemma RoundTripOfAmount(p: UniswapV2Pair, a: int, tokenIn: Token)
    requires GetAmountOut(p, a, tokenIn).Ok? && GetAmountOut(p, a, tokenIn).value > 0
    ensures var out := GetAmountOut(p, a, tokenIn).value;
            var back := GetAmountIn(p, out, p.Other(tokenIn));
            var x, y, g := p.ReserveOf(tokenIn), p.ReserveOf(p.Other(tokenIn)), p.Gamma();
            && back.Ok?
            && back.value <= a + 1
            && (back.value >= a <==> (a - 1) * g * y <= out * (x * 10000 + (a - 1) * g))
  {
    var x, y, g := p.ReserveOf(tokenIn), p.ReserveOf(p.Other(tokenIn)), p.Gamma();
    var out := OutGivenIn(a, x, y, g);
    OutBounds(a, x, y, g);
    hide OutGivenIn, InGivenOut;
    InGivenOutNearlyLeast(out, x, y, g, a);
    InGivenOutAtLeast(out, x, y, g, a);
  }

  lemma InGivenOutAtLeast(o: int, x: int, y: int, g: int, a: int)
    requires o < y && 0 < g
    ensures InGivenOut(o, x, y, g) >= a <==> (a - 1) * g * y <= o * (x * 10000 + (a - 1) * g)
  {
    var n, d, b := x * o * BPS, (y - o) * g, (a - 1) * g;
    MulPos(y - o, g);
    FloorDivAtLeast(n, d, a - 1);
    assert (a - 1) * d == b * y - o * b by {
      assert (a - 1) * d == b * (y - o);
    }
    assert o * (x * 10000 + b) == n + o * b;
  }

  /** The exact condition in the inputs alone: the trade pays something, and it pays the unrounded
      output of `a - 1`, rounded up. */
  lemma RoundTripKeepsInputExactly(p: UniswapV2Pair, a: int, tokenIn: Token)
    requires 0 < a && p.Has(tokenIn)
    ensures var back := GetAmountIn(p, GetAmountOut(p, a, tokenIn).value, p.Other(tokenIn));
            var x, y, g := p.ReserveOf(tokenIn), p.ReserveOf(p.Other(tokenIn)), p.Gamma();
            var d := x * 10000 + (a - 1) * g;
            && 0 < d
            && var w := ((a - 1) * g * y + d - 1) / d;
               (back.Ok? && back.value >= a)
               <==> (x * 10000 + a * g <= a * g * y && w * (x * 10000 + a * g) <= a * g * y)
  {
    var x, y, g := p.ReserveOf(tokenIn), p.ReserveOf(p.Other(tokenIn)), p.Gamma();
    var out := OutGivenIn(a, x, y, g);
    OutBounds(a, x, y, g);
    OutReaches(a, x, y, g, 1);
    MulMono(0, a - 1, g);
    var d := x * 10000 + (a - 1) * g;
    var w := ((a - 1) * g * y + d - 1) / d;
    OutReaches(a, x, y, g, w);
    CeilDivAtMost((a - 1) * g * y, d, out);
    hide OutGivenIn, InGivenOut;
    if 0 < out {
      InGivenOutAtLeast(out, x, y, g, a);
    }
  }

  lemma OutReaches(a: int, x: int, y: int, g: int, o: int)
    requires 0 < a && 0 < x && 0 < g
    ensures OutGivenIn(a, x, y, g) >= o <==> o * (x * 10000 + a * g) <= a * g * y
  {
    OutDenominatorPos(a, x, g);
    FloorDivAtLeast(a * g * y, x * BPS + a * g, o);
  }

  /** In particular, while one more unit of input still buys at least one unit of
      output, quoting back never undercuts the amount. */
  lemma SteepRoundTripKeepsInput(p: UniswapV2Pair, a: int, tokenIn: Token)
    requires 0 < a && p.Has(tokenIn)
    requires var x, y, g := p.ReserveOf(tokenIn), p.ReserveOf(p.Other(tokenIn)), p.Gamma();
             g * y * (x * 10000) >= (x * 10000 + a * g) * (x * 10000 + (a - 1) * g)
    ensures var out := GetAmountOut(p, a, tokenIn).value;
            var back := GetAmountIn(p, out, p.Other(tokenIn));
            0 < out && back.Ok? && a <= back.value <= a + 1
  {
    var x, y, g := p.ReserveOf(tokenIn), p.ReserveOf(p.Other(tokenIn)), p.Gamma();
    SteepOut(a, x, y, g);
    RoundTripOfAmount(p, a, tokenIn);
  }

  lemma SteepOut(a: int, x: int, y: int, g: int)
    requires 0 < a && 0 < x && 0 < y && 0 < g
    requires g * y * (x * BPS) >= (x * BPS + a * g) * (x * BPS + (a - 1) * g)
    ensures var out := OutGivenIn(a, x, y, g);
            0 < out && (a - 1) * g * y < out * (x * BPS + (a - 1) * g)
  {
    var m, after, before := x * BPS, x * BPS + a * g, x * BPS + (a - 1) * g;
    OutDenominatorPos(a, x, g);
    MulMono(0, a - 1, g);
    FloorDiv(a * g * y, after);
    CrossSteps(a, m, g, y);
    var out := OutGivenIn(a, x, y, g);
    OutStep(a * g * y, (a - 1) * g * y, after, before, g * y * m, out);
    MulMono(0, (a - 1) * g, y);
    if out <= 0 {
      MulMono(out, 0, before);
    }
  }

  /** `p` and `q` are the numerators for `a` and `a - 1` units of input. */
  lemma OutStep(p: int, q: int, after: int, before: int, step: int, out: int)
    requires 0 < after && 0 < before
    requires p < (out + 1) * after && p * before == q * after + step && step >= after * before
    ensures q < out * before
  {
    MulMono(p + 1, (out + 1) * after, before);
    assert (out + 1) * after * before == out * before * after + after * before;
    if q >= out * before {
      MulMono(out * before, q, after);
    }
  }

  lemma CrossSteps(a: int, m: int, g: int, y: int)
    ensures a * g * y * (m + (a - 1) * g) == (a - 1) * g * y * (m + a * g) + g * y * m
  {
    var k := g * y;
    assert a * (m + (a - 1) * g) == (a - 1) * (m + a * g) + m;
    assert a * g * y * (m + (a - 1) * g) == k * (a * (m + (a - 1) * g)) by {
      Assoc(a, g, y);
    }
    assert (a - 1) * g * y * (m + a * g) == k * ((a - 1) * (m + a * g)) by {
      Assoc(a - 1, g, y);
    }
  }

  /** The lower bound `in(out(a)) >= a` fails when the floor swallows the last units. */
  lemma RoundTripCanLoseInput()
    ensures var p := PairData(7, Token(0), Token(1), 1000000, 1000, 30);
            && p.Valid()
            && GetAmountOut(p, 1999, Token(0)) == Ok(1)
            && GetAmountIn(p, 1, Token(1)) == Ok(1005)
  {
  }

  // ---- splitting a trade never wins ----

  /** Total output of swapping the pieces one after another. */
  function SwapAll(p: UniswapV2Pair, pieces: seq<int>, tokenIn: Token): Result<int>
    decreases |pieces|
  {
    if pieces == [] then Ok(0)
    else
      var out :- GetAmountOut(p, pieces[0], tokenIn);
      var p' :- SimulateSwap(p, pieces[0], tokenIn);
      var rest :- SwapAll(p', pieces[1..], tokenIn);
      Ok(out + rest)
  }

  function Sum(s: seq<int>): int {
    if s == [] then 0 else s[0] + Sum(s[1..])
  }

  /** Two swaps in sequence, floors included, yield at most the swap of their sum. */
  lemma TwoPiecesNeverBeatOne(a: int, b: int, x: int, y: int, g: int)
    requires 0 < a && 0 < b && 0 < x && 0 < y && 0 < g <= BPS
    ensures var o := OutGivenIn(a, x, y, g);
            o + OutGivenIn(b, x + a, y - o, g) <= OutGivenIn(a + b, x, y, g)
  {
    var o1 := OutGivenIn(a, x, y, g);
    var o2 := OutGivenIn(b, x + a, y - o1, g);
    OutBounds(a, x, y, g);
    OutBounds(b, x + a, y - o1, g);
    OutAtLeast(a, x, y, g, o1);
    OutAtLeast(b, x + a, y - o1, g, o2);
    OutAtLeast(a + b, x, y, g, o1 + o2);
    CombineTwoSwaps(a, b, x, o1, o2, y - o1 - o2, g);
  }

  /** Adding the two floor-free inequalities of successive swaps; `z` is the reserve left. */
  lemma CombineTwoSwaps(a: int, b: int, x: int, o1: int, o2: int, z: int, g: int)
    requires 0 < a && 0 <= o2 && g <= BPS
    requires a * (z + o2) * g >= x * o1 * BPS
    requires b * z * g >= (x + a) * o2 * BPS
    ensures (a + b) * z * g >= x * (o1 + o2) * BPS
  {
    assert a * (z + o2) * g == a * z * g + a * o2 * g;
    assert (x + a) * o2 * BPS == x * o2 * BPS + a * o2 * BPS;
    assert (a + b) * z * g == a * z * g + b * z * g;
    assert x * (o1 + o2) * BPS == x * o1 * BPS + x * o2 * BPS;
    assert 0 <= a * o2;
    assert a * o2 * g <= a * o2 * BPS by {
      MulMono(g, BPS, a * o2);
    }
  }

  /** However a trade is cut into pieces, it yields at most what the uncut trade yields. */
  lemma {:induction false} SplittingNeverWins(p: UniswapV2Pair, pieces: seq<int>, tokenIn: Token)
    requires pieces != [] && p.Has(tokenIn)
    ensures SwapAll(p, pieces, tokenIn).Ok? <==> forall i :: 0 <= i < |pieces| ==> 0 < pieces[i]
    ensures SwapAll(p, pieces, tokenIn).Ok? ==>
              && GetAmountOut(p, Sum(pieces), tokenIn).Ok?
              && 0 < Sum(pieces)
              && SwapAll(p, pieces, tokenIn).value <= GetAmountOut(p, Sum(pieces), tokenIn).value
    decreases |pieces|
  {
    var a := pieces[0];
    if 0 < a {
      var p' := SimulateSwap(p, a, tokenIn).value;
      if |pieces| == 1 {
        assert pieces[1..] == [];
      } else {
        SplittingNeverWins(p', pieces[1..], tokenIn);
        assert forall i :: 0 < i < |pieces| ==> pieces[i] == pieces[1..][i - 1];
        if SwapAll(p', pieces[1..], tokenIn).Ok? {
          TwoPiecesNeverBeatOne(a, Sum(pieces[1..]), p.ReserveOf(tokenIn), p.ReserveOf(p.Other(tokenIn)), p.Gamma());
        }
      }
    }
  }

  // ---- whole runs of swaps ----

  datatype Swap = Swap(amountIn: int, tokenIn: Token)

  /** The pair after a run of swaps in either direction; a refused swap ends the run. */
  function RunSwaps(p: UniswapV2Pair, swaps: seq<Swap>): Result<UniswapV2Pair>
    decreases |swaps|
  {
    if swaps == [] then Ok(p)
    else
      var p' :- SimulateSwap(p, swaps[0].amountIn, swaps[0].tokenIn);
      RunSwaps(p', swaps[1..])
  }

  /** One swap never lowers the product of the reserves. */
  lemma SwapKeepsProduct(p: UniswapV2Pair, a: int, tokenIn: Token)
    requires SimulateSwap(p, a, tokenIn).Ok?
    ensures SimulateSwap(p, a, tokenIn).value.Product() >= p.Product()
  {
    var x, y, g := p.ReserveOf(tokenIn), p.ReserveOf(p.Other(tokenIn)), p.Gamma();
    var o := OutGivenIn(a, x, y, g);
    OutBounds(a, x, y, g);
    OutAtLeast(a, x, y, g, o);
    SwapArithmetic(a, x, y, o, g);
    assert p.Product() == x * y;
    assert SimulateSwap(p, a, tokenIn).value.Product() == (x + a) * (y - o);
  }

  lemma SwapArithmetic(a: int, x: int, y: int, o: int, g: int)
    requires 0 < a && o < y && g <= BPS
    requires a * (y - o) * g >= x * o * BPS
    ensures (x + a) * (y - o) >= x * y
  {
    MulPos(a, y - o);
    MulMono(g, BPS, a * (y - o));
    assert (x + a) * (y - o) == x * y + a * (y - o) - x * o;
  }

  /** Two pairs of reserves: if the product did not fall, not both can have got smaller. */
  lemma ProductForbidsDrain(x: int, y: int, x': int, y': int)
    requires 0 < x && 0 < y && 0 < x' && 0 < y'
    requires x' * y' >= x * y && x' <= x
    ensures y' >= y
  {
    if y' < y {
      MulMono(x', x, y');
      MulMono(y' + 1, y, x);
    }
  }

  /** Over any run the product never falls, so a run that gives back one reserve
      cannot have drained the other. */
  lemma {:induction false} RunKeepsProduct(p: UniswapV2Pair, swaps: seq<Swap>)
    requires RunSwaps(p, swaps).Ok?
    ensures RunSwaps(p, swaps).value.Product() >= p.Product()
    decreases |swaps|
  {
    if swaps != [] {
      var p' := SimulateSwap(p, swaps[0].amountIn, swaps[0].tokenIn).value;
      SwapKeepsProduct(p, swaps[0].amountIn, swaps[0].tokenIn);
      RunKeepsProduct(p', swaps[1..]);
    }
  }

  lemma RunCannotDrain(p: UniswapV2Pair, swaps: seq<Swap>)
    requires RunSwaps(p, swaps).Ok?
    ensures var q := RunSwaps(p, swaps).value;
            && (q.reserve0 <= p.reserve0 ==> q.reserve1 >= p.reserve1)
            && (q.reserve1 <= p.reserve1 ==> q.reserve0 >= p.reserve0)
  {
    hide RunSwaps, SimulateSwap, GetAmountOut;
    RunKeepsProduct(p, swaps);
    var q := RunSwaps(p, swaps).value;
    if q.reserve0 <= p.reserve0 {
      ProductForbidsDrain(p.reserve0, p.reserve1, q.reserve0, q.reserve1);
    }
    if q.reserve1 <= p.reserve1 {
      ProductForbidsDrain(p.reserve1, p.reserve0, q.reserve1, q.reserve0);
    }
  }
}
