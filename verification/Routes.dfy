/** Multi-hop routes and their evaluation: pricing/router.py (Route) and
    pricing/fork_simulator.py (simulate_route). */
module Routes {
  import opened Common
  import opened NonlinearMath
  import opened Amm
  import AmmV3

  /** A pool object. `id` is the object's identity; two objects may share an on-chain address. */
  datatype Pool =
    | V2(id: nat, pair: UniswapV2Pair)
    | V3(id: nat, pool: AmmV3.UniswapV3Pool)
  {
    function Token0(): Token {
      match this case V2(_, p) => p.token0 case V3(_, p) => p.token0
    }

    function Token1(): Token {
      match this case V2(_, p) => p.token1 case V3(_, p) => p.token1
    }

    /** Where the pool lives on the chain. */
    function Address(): nat {
      match this case V2(_, p) => p.address case V3(_, p) => p.address
    }

    predicate Has(t: Token) {
      t == Token0() || t == Token1()
    }

    /** The token on the other side of `t`. */
    function Other(t: Token): Token {
      if t == Token0() then Token1() else Token0()
    }

    function GetAmountOut(amountIn: int, tokenIn: Token): (r: Result<int>)
      ensures r.Ok? <==> 0 < amountIn && Has(tokenIn)
    {
      match this
      case V2(_, p) => Amm.GetAmountOut(p, amountIn, tokenIn)
      case V3(_, p) => AmmV3.GetAmountOut(p, amountIn, tokenIn)
    }
  }

  datatype RouteData = Route(pools: seq<Pool>, path: seq<Token>) {
    /** What the constructor accepts. */
    predicate Valid() {
      0 < |pools| && |path| == |pools| + 1
    }
  }

  type ValidRoute = r: RouteData | r.Valid()
    witness Route([V2(0, PairData(0, Token(0), Token(1), 1, 1, 30))], [Token(0), Token(1)])

  /** Every pool trades the token before it for the token after it. */
  ghost predicate Connected(pools: seq<Pool>, path: seq<Token>)
    requires |path| == |pools| + 1
  {
    forall i {:trigger pools[i]} :: 0 <= i < |pools| ==>
      pools[i].Has(path[i]) && path[i + 1] == pools[i].Other(path[i])
  }

  ghost predicate AllV2(pools: seq<Pool>) {
    forall i :: 0 <= i < |pools| ==> pools[i].V2?
  }

  // ---- evaluation on frozen reserves ----

  /** The amount that comes out of the last pool, or the first exception on the way. */
  function Output(pools: seq<Pool>, path: seq<Token>, amountIn: int): Result<int>
    requires |path| == |pools| + 1
    decreases |pools|
  {
    if pools == [] then Ok(amountIn)
    else
      var out :- pools[0].GetAmountOut(amountIn, path[0]);
      Output(pools[1..], path[1..], out)
  }

  method GetOutput(route: ValidRoute, amountIn: int) returns (r: Result<int>)
    ensures r == Output(route.pools, route.path, amountIn)
  {
    var amount := amountIn;
    for i := 0 to |route.pools|
      invariant Output(route.pools[i..], route.path[i..], amount) == Output(route.pools, route.path, amountIn)
    {
      var out := route.pools[i].GetAmountOut(amount, route.path[i]);
      assert route.pools[i..][1..] == route.pools[i + 1..] && route.path[i..][1..] == route.path[i + 1..];
      if out.Err? {
        return out;
      }
      amount := out.value;
    }
    return Ok(amount);
  }

  /** `amounts` holds the input and what every pool in turn hands to the next. */
  ghost predicate IsTrace(route: ValidRoute, amountIn: int, amounts: seq<int>) {
    && |amounts| == |route.pools| + 1
    && amounts[0] == amountIn
    && forall i {:trigger amounts[i]} :: 0 <= i < |route.pools| ==>
         route.pools[i].GetAmountOut(amounts[i], route.path[i]) == Ok(amounts[i + 1])
  }

  method GetIntermediateAmounts(route: ValidRoute, amountIn: int) returns (r: Result<seq<int>>)
    ensures r.Ok? <==> Output(route.pools, route.path, amountIn).Ok?
    ensures r.Ok? ==> IsTrace(route, amountIn, r.value)
    ensures r.Ok? ==> Output(route.pools, route.path, amountIn) == Ok(r.value[|r.value| - 1])
    ensures r.Err? ==> Output(route.pools, route.path, amountIn) == Err(r.error)
  {
    var amounts, amount := [amountIn], amountIn;
    for i := 0 to |route.pools|
      invariant |amounts| == i + 1 && amounts[0] == amountIn && amounts[i] == amount
      invariant forall j {:trigger amounts[j]} :: 0 <= j < i ==>
                  route.pools[j].GetAmountOut(amounts[j], route.path[j]) == Ok(amounts[j + 1])
      invariant Output(route.pools[i..], route.path[i..], amount) == Output(route.pools, route.path, amountIn)
    {
      var out := route.pools[i].GetAmountOut(amount, route.path[i]);
      assert route.pools[i..][1..] == route.pools[i + 1..] && route.path[i..][1..] == route.path[i + 1..];
      if out.Err? {
        return Err(out.error);
      }
      amount := out.value;
      amounts := amounts + [amount];
    }
    return Ok(amounts);
  }

  // ---- when a route evaluates ----

  lemma {:induction false} OutputSnoc(ps: seq<Pool>, path: seq<Token>, p: Pool, t: Token, amountIn: int)
    requires |path| == |ps| + 1
    ensures Output(ps + [p], path + [t], amountIn)
         == match Output(ps, path, amountIn)
            case Ok(mid) => p.GetAmountOut(mid, path[|ps|])
            case Err(e) => Err(e)
    decreases |ps|
  {
    if ps == [] {
      assert ([] + [p])[1..] == [] && (path + [t])[1..] == [t];
      var out := p.GetAmountOut(amountIn, path[0]);
      assert Output([p], path + [t], amountIn) == out by {
        if out.Ok? {
          assert Output([], [t], out.value) == out;
        }
      }
      assert ps + [p] == [p];
    } else {
      assert (ps + [p])[1..] == ps[1..] + [p] && (path + [t])[1..] == path[1..] + [t];
      var out := ps[0].GetAmountOut(amountIn, path[0]);
      if out.Ok? {
        OutputSnoc(ps[1..], path[1..], p, t, out.value);
      }
    }
  }

  lemma HopNeverNegative(p: Pool, a: int, t: Token)
    requires p.GetAmountOut(a, t).Ok?
    ensures 0 <= p.GetAmountOut(a, t).value
  {
    match p
    case V2(_, pair) =>
      OutBounds(a, pair.ReserveOf(t), pair.ReserveOf(pair.Other(t)), pair.Gamma());
    case V3(_, pool) =>
      AmmV3.OutputMonotone(pool, a, a, t);
  }

  /** A hop through a V3 pool pays that pool's quote in the direction the token goes, which lies at
      the pool's curve. */
  lemma V3HopNearCurve(p: Pool, a: int, t: Token, q: int)
    requires p.V3? && 0 < a && p.Has(t) && 0 < q
    ensures p.GetAmountOut(a, t) == AmmV3.QuoteAt(p.pool, a, t, AmmV3.Q96)
    ensures AmmV3.NearCurve(p.pool, a, t, q, AmmV3.QuoteAt(p.pool, a, t, q).value)
  {
    hide AmmV3.NearCurve, AmmV3.QuoteAt;
    AmmV3.OutputNearCurve(p.pool, a, t, q);
  }

  /** Something goes into every pool: the input is positive, and no pool hands 0 to the next. */
  ghost predicate NeverRunsDry(pools: seq<Pool>, path: seq<Token>, amountIn: int)
    requires |path| == |pools| + 1
  {
    && 0 < amountIn
    && forall i {:trigger pools[..i]} :: 0 < i < |pools| ==> Output(pools[..i], path[..i + 1], amountIn) != Ok(0)
  }

  /** A connected route evaluates exactly when it never runs dry. */
  lemma {:induction false} EvaluatesUnlessDry(pools: seq<Pool>, path: seq<Token>, amountIn: int)
    requires |path| == |pools| + 1 && pools != [] && Connected(pools, path)
    ensures Output(pools, path, amountIn).Ok? <==> NeverRunsDry(pools, path, amountIn)
    ensures Output(pools, path, amountIn).Ok? ==> 0 <= Output(pools, path, amountIn).value
    decreases |pools|
  {
    var n := |pools| - 1;
    var init, tokens := pools[..n], path[..n + 1];
    var last, t := pools[n], path[n + 1];
    assert pools == init + [last] && path == tokens + [t] && tokens[n] == path[n];
    OutputSnoc(init, tokens, last, t, amountIn);
    if n == 0 {
      assert Output(init, tokens, amountIn) == Ok(amountIn);
      if 0 < amountIn {
        HopNeverNegative(last, amountIn, path[0]);
      }
    } else {
      assert Connected(init, tokens) by {
        forall i {:trigger init[i]} | 0 <= i < n
          ensures init[i].Has(tokens[i]) && tokens[i + 1] == init[i].Other(tokens[i])
        {
          assert init[i] == pools[i] && tokens[i] == path[i] && tokens[i + 1] == path[i + 1];
        }
      }
      EvaluatesUnlessDry(init, tokens, amountIn);
      forall i | 0 < i < n
        ensures pools[..i] == init[..i] && path[..i + 1] == tokens[..i + 1]
      {
      }
      var mid := Output(init, tokens, amountIn);
      if mid.Ok? && 0 < mid.value {
        HopNeverNegative(last, mid.value, path[n]);
      }
    }
  }

  // ---- executing the hops for real ----

  /** The chain holds one current pair per address. Each hop trades against the current pair and
      leaves behind the pair as the swap changed it. */
  function ExecuteLive(chain: map<nat, UniswapV2Pair>, pools: seq<Pool>, path: seq<Token>, amountIn: int)
    : Result<(int, map<nat, UniswapV2Pair>)>
    requires |path| == |pools| + 1
    requires forall i :: 0 <= i < |pools| ==> pools[i].Address() in chain
    decreases |pools|
  {
    if pools == [] then Ok((amountIn, chain))
    else
      var pair := chain[pools[0].Address()];
      var out :- Amm.GetAmountOut(pair, amountIn, path[0]);
      var pair' :- SimulateSwap(pair, amountIn, path[0]);
      ExecuteLive(chain[pools[0].Address() := pair'], pools[1..], path[1..], out)
  }

  /** No two hops go through the same pool object. */
  ghost predicate UsesEachPoolOnce(pools: seq<Pool>) {
    forall i, j :: 0 <= i < j < |pools| ==> pools[i].id != pools[j].id
  }

  /** No two hops go through the same pool on the chain. */
  ghost predicate UsesEachAddressOnce(pools: seq<Pool>) {
    forall i, j :: 0 <= i < j < |pools| ==> pools[i].Address() != pools[j].Address()
  }

  /** The pool objects are up to date: each is what the chain holds at its address. */
  ghost predicate MatchesChain(chain: map<nat, UniswapV2Pair>, pools: seq<Pool>) {
    forall i :: 0 <= i < |pools| ==>
      pools[i].V2? && pools[i].Address() in chain && chain[pools[i].Address()] == pools[i].pair
  }

  /** A route that uses no pool of the chain twice yields in execution what was computed on frozen
      reserves. */
  lemma {:induction false} FrozenEqualsLive(
    chain: map<nat, UniswapV2Pair>, pools: seq<Pool>, path: seq<Token>, amountIn: int)
    requires |path| == |pools| + 1 && UsesEachAddressOnce(pools) && MatchesChain(chain, pools)
    ensures var live := ExecuteLive(chain, pools, path, amountIn);
            match Output(pools, path, amountIn)
            case Ok(out) => live.Ok? && live.value.0 == out
            case Err(e) => live == Err(e)
    decreases |pools|
  {
    if pools != [] {
      var pair := chain[pools[0].Address()];
      assert pools[0].V2?;
      var out := Amm.GetAmountOut(pair, amountIn, path[0]);
      if out.Ok? {
        var chain' := chain[pools[0].Address() := SimulateSwap(pair, amountIn, path[0]).value];
        assert forall i :: 0 <= i < |pools[1..]| ==> pools[1..][i] == pools[i + 1];
        FrozenEqualsLive(chain', pools[1..], path[1..], out.value);
      }
    }
  }

  /** Without that condition the two differ: buying and selling back through two objects of one
      pool. */
  lemma RepeatedPoolBreaksFrozenEvaluation()
    ensures var pair := PairData(7, Token(0), Token(1), 1000, 1000, 0);
            var pools := [V2(1, pair), V2(2, pair)];
            var path := [Token(0), Token(1), Token(0)];
            && Output(pools, path, 100) == Ok(82)
            && ExecuteLive(map[7 := pair], pools, path, 100).Ok?
            && ExecuteLive(map[7 := pair], pools, path, 100).value.0 == 99
  {
    var pair := PairData(7, Token(0), Token(1), 1000, 1000, 0);
    var pools := [V2(1, pair), V2(2, pair)];
    var path := [Token(0), Token(1), Token(0)];
    assert Amm.GetAmountOut(pair, 100, Token(0)) == Ok(90);
    assert Amm.GetAmountOut(pair, 90, Token(1)) == Ok(82);
    assert Output([], path[2..], 82) == Ok(82);
    assert Output(pools[1..], path[1..], 90) == Output(pools[1..][1..], path[1..][1..], 82);
    var pair1 := SimulateSwap(pair, 100, Token(0)).value;
    assert pair1 == PairData(7, Token(0), Token(1), 1100, 910, 0);
    assert Amm.GetAmountOut(pair1, 90, Token(1)) == Ok(99);
    var pair2 := SimulateSwap(pair1, 90, Token(1)).value;
    var chain1 := map[7 := pair][7 := pair1];
    assert ExecuteLive(chain1, pools[1..], path[1..], 90)
        == ExecuteLive(chain1[7 := pair2], pools[1..][1..], path[1..][1..], 99);
  }

  // ---- the fork simulator's evaluation ----

  /** One pool as the simulator rebuilds it, from live reserves looked up by address. */
  function Rebuild(live: nat -> (int, int), pool: Pool): Result<UniswapV2Pair> {
    match pool
    case V2(_, p) =>
      var reserves := live(p.address);
      MakePair(p.address, p.token0, p.token1, reserves.0, reserves.1, p.feeBps)
    case V3(_, _) => Err(NotAV2Pair)
  }

  function SimulatedOutput(live: nat -> (int, int), pools: seq<Pool>, path: seq<Token>, amountIn: int): Result<int>
    requires |path| == |pools| + 1
    decreases |pools|
  {
    if pools == [] then Ok(amountIn)
    else
      var pair :- Rebuild(live, pools[0]);
      var out :- Amm.GetAmountOut(pair, amountIn, path[0]);
      SimulatedOutput(live, pools[1..], path[1..], out)
  }

  method SimulateRoute(live: nat -> (int, int), route: ValidRoute, amountIn: int)
    returns (success: bool, amountOut: int, gasUsed: int)
    ensures var spec := SimulatedOutput(live, route.pools, route.path, amountIn);
            if spec.Ok? then success && amountOut == spec.value && gasUsed == EstimateGas(route)
            else !success && amountOut == 0 && gasUsed == 0
  {
    var current := amountIn;
    for i := 0 to |route.pools|
      invariant SimulatedOutput(live, route.pools[i..], route.path[i..], current)
             == SimulatedOutput(live, route.pools, route.path, amountIn)
    {
      assert route.pools[i..][1..] == route.pools[i + 1..] && route.path[i..][1..] == route.path[i + 1..];
      var pair := Rebuild(live, route.pools[i]);
      if pair.Err? {
        return false, 0, 0;
      }
      var out := Amm.GetAmountOut(pair.value, current, route.path[i]);
      if out.Err? {
        return false, 0, 0;
      }
      current := out.value;
    }
    return true, current, EstimateGas(route);
  }

  const GAS_BASE := 150000
  const GAS_PER_HOP := 100000

  function EstimateGas(route: ValidRoute): int {
    GAS_BASE + GAS_PER_HOP * |route.pools|
  }

  /** With live reserves equal to the stored ones, simulation succeeds exactly when every pool
      is a V2 pair and the route itself evaluates, and then on the same amount. */
  lemma {:induction false} SimulationMatchesStored(
    live: nat -> (int, int), pools: seq<Pool>, path: seq<Token>, amountIn: int)
    requires |path| == |pools| + 1
    requires forall i :: 0 <= i < |pools| && pools[i].V2? ==>
               live(pools[i].pair.address) == (pools[i].pair.reserve0, pools[i].pair.reserve1)
    ensures var sim := SimulatedOutput(live, pools, path, amountIn);
            && (sim.Ok? <==> AllV2(pools) && Output(pools, path, amountIn).Ok?)
            && (sim.Ok? ==> sim == Output(pools, path, amountIn))
    decreases |pools|
  {
    if pools != [] {
      if pools[0].V2? {
        assert Rebuild(live, pools[0]) == Ok(pools[0].pair);
        var out := Amm.GetAmountOut(pools[0].pair, amountIn, path[0]);
        if out.Ok? {
          assert forall i :: 0 <= i < |pools[1..]| ==> pools[1..][i] == pools[i + 1];
          SimulationMatchesStored(live, pools[1..], path[1..], out.value);
          assert AllV2(pools) <==> AllV2(pools[1..]) by {
            assert forall i :: 0 < i < |pools| ==> pools[i] == pools[1..][i - 1];
          }
        }
      }
    }
  }

  /** The pools as they stand on the chain: V2 pairs with the live reserves. */
  function AtLiveReserves(live: nat -> (int, int), pools: seq<Pool>): (r: seq<Pool>)
    requires AllV2(pools)
    requires forall i :: 0 <= i < |pools| ==> live(pools[i].Address()).0 > 0 && live(pools[i].Address()).1 > 0
    ensures |r| == |pools|
  {
    if pools == [] then []
    else
      var (reserve0, reserve1) := live(pools[0].Address());
      [V2(pools[0].id, pools[0].pair.(reserve0 := reserve0, reserve1 := reserve1))]
      + AtLiveReserves(live, pools[1..])
  }

  /** Simulation does not look at stored reserves: it pays what the route pays on the live ones. */
  lemma {:induction false} SimulationUsesLiveReserves(
    live: nat -> (int, int), pools: seq<Pool>, path: seq<Token>, amountIn: int)
    requires |path| == |pools| + 1 && AllV2(pools)
    requires forall i :: 0 <= i < |pools| ==> live(pools[i].Address()).0 > 0 && live(pools[i].Address()).1 > 0
    ensures SimulatedOutput(live, pools, path, amountIn) == Output(AtLiveReserves(live, pools), path, amountIn)
    decreases |pools|
  {
    if pools != [] {
      var current := AtLiveReserves(live, pools);
      assert current[1..] == AtLiveReserves(live, pools[1..]);
      assert Rebuild(live, pools[0]) == Ok(current[0].pair);
      var out := Amm.GetAmountOut(current[0].pair, amountIn, path[0]);
      if out.Ok? {
        SimulationUsesLiveReserves(live, pools[1..], path[1..], out.value);
      }
    }
  }

  /** And it fails on a pool the chain holds no reserves for, if it gets that far. */
  lemma SimulationNeedsReserves(live: nat -> (int, int), pools: seq<Pool>, path: seq<Token>, amountIn: int)
    requires |path| == |pools| + 1 && pools != [] && pools[0].V2?
    requires live(pools[0].Address()).0 <= 0 || live(pools[0].Address()).1 <= 0
    ensures SimulatedOutput(live, pools, path, amountIn) == Err(NonPositiveReserves)
  {
  }

  // ---- profit reflects a mispricing ----

  /** Product of 10000 times the input reserves along a route. */
  function ScaledReservesIn(pools: seq<Pool>, path: seq<Token>): int
    requires |path| == |pools| + 1 && AllV2(pools)
    decreases |pools|
  {
    if pools == [] then 1
    else BPS * pools[0].pair.ReserveOf(path[0]) * ScaledReservesIn(pools[1..], path[1..])
  }

  /** Product of the fee-reduced output reserves along a route. */
  function ScaledReservesOut(pools: seq<Pool>, path: seq<Token>): int
    requires |path| == |pools| + 1 && AllV2(pools)
    decreases |pools|
  {
    if pools == [] then 1
    else
      pools[0].pair.Gamma() * pools[0].pair.ReserveOf(pools[0].pair.Other(path[0]))
        * ScaledReservesOut(pools[1..], path[1..])
  }

  lemma {:induction false} ScaledReservesPositive(pools: seq<Pool>, path: seq<Token>)
    requires |path| == |pools| + 1 && AllV2(pools)
    ensures 0 < ScaledReservesIn(pools, path) && 0 < ScaledReservesOut(pools, path)
    decreases |pools|
  {
    if pools != [] {
      ScaledReservesPositive(pools[1..], path[1..]);
      var pair := pools[0].pair;
      MulPos(BPS * pair.ReserveOf(path[0]), ScaledReservesIn(pools[1..], path[1..]));
      MulPos(pair.Gamma(), pair.ReserveOf(pair.Other(path[0])));
      MulPos(pair.Gamma() * pair.ReserveOf(pair.Other(path[0])), ScaledReservesOut(pools[1..], path[1..]));
    }
  }

  /** No route returns more than its fee-adjusted price product, floors included. */
  lemma {:induction false} OutputBoundedByPrices(pools: seq<Pool>, path: seq<Token>, amountIn: int)
    requires |path| == |pools| + 1 && AllV2(pools) && 0 <= amountIn
    requires Output(pools, path, amountIn).Ok?
    ensures 0 <= Output(pools, path, amountIn).value
    ensures Output(pools, path, amountIn).value * ScaledReservesIn(pools, path)
         <= amountIn * ScaledReservesOut(pools, path)
    decreases |pools|
  {
    if pools != [] {
      var pair := pools[0].pair;
      var x, y, g := pair.ReserveOf(path[0]), pair.ReserveOf(pair.Other(path[0])), pair.Gamma();
      var mid := Amm.GetAmountOut(pair, amountIn, path[0]).value;
      HopBoundedByPrice(amountIn, x, y, g);
      OutputBoundedByPrices(pools[1..], path[1..], mid);
      ScaledReservesPositive(pools[1..], path[1..]);
      ChainBounds(Output(pools, path, amountIn).value, mid, amountIn, BPS * x, g * y,
                  ScaledReservesIn(pools[1..], path[1..]), ScaledReservesOut(pools[1..], path[1..]));
    }
  }

  lemma HopBoundedByPrice(a: int, x: int, y: int, g: int)
    requires 0 < a && 0 < x && 0 < y && 0 < g
    ensures 0 <= OutGivenIn(a, x, y, g)
    ensures OutGivenIn(a, x, y, g) * (BPS * x) <= a * (g * y)
  {
    var o := OutGivenIn(a, x, y, g);
    OutBounds(a, x, y, g);
    OutAtLeast(a, x, y, g, o);
    HopArithmetic(a, x, y, g, o);
  }

  lemma HopArithmetic(a: int, x: int, y: int, g: int, o: int)
    requires 0 < a && 0 < g && 0 <= o
    requires a * (y - o) * g >= x * o * BPS
    ensures o * (BPS * x) <= a * (g * y)
  {
    assert a * (y - o) * g == a * (g * y) - a * o * g;
    MulPos(a, g);
    assert 0 <= a * g * o;
    assert a * g * o == a * o * g;
    assert o * (BPS * x) == x * o * BPS;
  }

  /** out*P <= mid*Q and mid*p <= in*q give out*(p*P) <= in*(q*Q). */
  lemma ChainBounds(out: int, mid: int, amountIn: int, p: int, q: int, restIn: int, restOut: int)
    requires 0 < p && 0 < restOut
    requires out * restIn <= mid * restOut && mid * p <= amountIn * q
    ensures out * (p * restIn) <= amountIn * (q * restOut)
  {
    MulMono(out * restIn, mid * restOut, p);
    MulMono(mid * p, amountIn * q, restOut);
    assert out * (p * restIn) == out * restIn * p;
    assert mid * restOut * p == mid * p * restOut;
    assert amountIn * (q * restOut) == amountIn * q * restOut;
  }

  /** A positive gain forces the fee-adjusted product of prices above one. */
  lemma GainNeedsMispricing(pools: seq<Pool>, path: seq<Token>, amountIn: int)
    requires |path| == |pools| + 1 && AllV2(pools) && 0 < amountIn
    requires Output(pools, path, amountIn).Ok? && Output(pools, path, amountIn).value > amountIn
    ensures ScaledReservesOut(pools, path) > ScaledReservesIn(pools, path)
  {
    OutputBoundedByPrices(pools, path, amountIn);
    ScaledReservesPositive(pools, path);
    var p, q := ScaledReservesIn(pools, path), ScaledReservesOut(pools, path);
    GainStep(Output(pools, path, amountIn).value, amountIn, p, q);
  }

  lemma GainStep(out: int, amountIn: int, p: int, q: int)
    requires 0 < amountIn < out && 0 < p && out * p <= amountIn * q
    ensures q > p
  {
    MulMono(amountIn + 1, out, p);
    if q <= p {
      MulMono(q, p, amountIn);
    }
  }
}
