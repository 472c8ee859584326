/** Filling an order against the book, level by level: exchange/orderbook.py (walk_the_book)
    and exchange/order_book.py (vwap_to_fill). */
module BookWalk {
  import opened Common
  import opened NonlinearMath

  datatype Fill = Fill(price: real, qty: real, cost: real)

  datatype Walk = Walk(
    avgPrice: real, totalCost: real, slippageBps: real, levelsConsumed: nat, fullyFilled: bool, fills: seq<Fill>)

  // ---- the walk as a function of the quantity ----

  /** What a quantity is worth at a price. */
  function Value(price: real, qty: real): real {
    price * qty
  }

  function Take(l: Level, qty: real): Fill {
    var take := Min(qty, l.qty);
    Fill(l.price, take, Value(l.price, take))
  }

  function Fills(levels: seq<Level>, qty: real): seq<Fill> {
    if levels == [] || qty <= 0.0 then []
    else
      var f := Take(levels[0], qty);
      [f] + Fills(levels[1..], qty - f.qty)
  }

  function TotalQty(fills: seq<Fill>): real {
    if fills == [] then 0.0 else fills[0].qty + TotalQty(fills[1..])
  }

  function TotalCost(fills: seq<Fill>): real {
    if fills == [] then 0.0 else fills[0].cost + TotalCost(fills[1..])
  }

  /** Quantity, cost and remaining book of a walk. */
  function Filled(levels: seq<Level>, qty: real): real {
    if levels == [] || qty <= 0.0 then 0.0
    else
      var f := Take(levels[0], qty);
      f.qty + Filled(levels[1..], qty - f.qty)
  }

  function Cost(levels: seq<Level>, qty: real): real {
    if levels == [] || qty <= 0.0 then 0.0
    else
      var f := Take(levels[0], qty);
      f.cost + Cost(levels[1..], qty - f.qty)
  }

  function Residual(levels: seq<Level>, qty: real): seq<Level> {
    if levels == [] || qty <= 0.0 then levels
    else if qty < levels[0].qty then [Level(levels[0].price, levels[0].qty - qty)] + levels[1..]
    else Residual(levels[1..], qty - levels[0].qty)
  }

  function Depth(levels: seq<Level>): real {
    if levels == [] then 0.0 else levels[0].qty + Depth(levels[1..])
  }

  /** The fills listed are what the quantity and the cost are made of. */
  lemma {:induction false} FillsAddUp(levels: seq<Level>, qty: real)
    ensures TotalQty(Fills(levels, qty)) == Filled(levels, qty)
    ensures TotalCost(Fills(levels, qty)) == Cost(levels, qty)
  {
    if levels != [] && qty > 0.0 {
      var f := Take(levels[0], qty);
      var rest := Fills(levels[1..], qty - f.qty);
      assert ([f] + rest)[1..] == rest;
      FillsAddUp(levels[1..], qty - f.qty);
    }
  }

  function Average(levels: seq<Level>, qty: real): real {
    if Filled(levels, qty) > 0.0 then Cost(levels, qty) / Filled(levels, qty) else 0.0
  }

  function Slippage(side: TradeSide, best: real, avg: real): real
    requires best != 0.0
  {
    (if side == Buy then avg - best else best - avg) / best * 10000.0
  }

  // ---- the two implementations ----

  lemma WalkNext(levels: seq<Level>, i: nat, remaining: real, fills: seq<Fill>)
    requires i < |levels| && remaining > 0.0
    ensures var f := Take(levels[i], remaining);
            && fills + Fills(levels[i..], remaining) == fills + [f] + Fills(levels[i + 1..], remaining - f.qty)
            && Filled(levels[i..], remaining) == f.qty + Filled(levels[i + 1..], remaining - f.qty)
            && Cost(levels[i..], remaining) == f.cost + Cost(levels[i + 1..], remaining - f.qty)
  {
    assert levels[i..][1..] == levels[i + 1..];
    var f := Take(levels[i], remaining);
    var rest := Fills(levels[i + 1..], remaining - f.qty);
    assert fills + ([f] + rest) == fills + [f] + rest;
  }

  method WalkTheBook(bids: seq<Level>, asks: seq<Level>, side: TradeSide, qty: real) returns (r: Result<Walk>)
    ensures side == OtherSide ==> r == Err(BadSide)
    ensures side != OtherSide && qty <= 0.0 ==> r == Err(NonPositiveAmount)
    ensures side != OtherSide && qty > 0.0 ==>
              var levels := if side == Buy then asks else bids;
              && r.Ok?
              && r.value.fills == Fills(levels, qty) && r.value.levelsConsumed == |r.value.fills|
              && r.value.totalCost == Cost(levels, qty)
              && r.value.avgPrice == Average(levels, qty)
              && (r.value.fullyFilled <==> Filled(levels, qty) >= qty)
              && r.value.slippageBps
                 == (if levels != [] && levels[0].price > 0.0 && Filled(levels, qty) > 0.0
                     then Max(Slippage(side, levels[0].price, r.value.avgPrice), 0.0) else 0.0)
  {
    if side == OtherSide {
      return Err(BadSide);
    }
    if qty <= 0.0 {
      return Err(NonPositiveAmount);
    }
    var levels := if side == Buy then asks else bids;
    var bestPrice := if levels != [] then levels[0].price else 0.0;
    var remaining, fills: seq<Fill>, totalCost := qty, [], 0.0;
    var i := 0;
    while i < |levels|
      invariant 0 <= i <= |levels|
      invariant fills + Fills(levels[i..], remaining) == Fills(levels, qty)
      invariant totalCost + Cost(levels[i..], remaining) == Cost(levels, qty)
      invariant qty - remaining + Filled(levels[i..], remaining) == Filled(levels, qty)
    {
      if remaining <= 0.0 {
        break;
      }
      WalkNext(levels, i, remaining, fills);
      var f := Take(levels[i], remaining);
      fills := fills + [f];
      totalCost := totalCost + f.cost;
      remaining := remaining - f.qty;
      i := i + 1;
    }
    var filledQty := qty - remaining;
    var avgPrice := if filledQty > 0.0 then totalCost / filledQty else 0.0;
    var slippageBps := 0.0;
    if bestPrice > 0.0 && filledQty > 0.0 {
      slippageBps := Max(Slippage(side, bestPrice, avgPrice), 0.0);
    }
    return Ok(Walk(avgPrice, totalCost, slippageBps, |fills|, remaining <= 0.0, fills));
  }

  /** The second walk tests the remainder after each take instead of before it; the outcome is
      that of the first: the average price if the order fills, None if it does not. */
  method VwapToFill(bids: seq<Level>, asks: seq<Level>, side: TradeSide, size: real) returns (r: Result<Option<real>>)
    ensures size <= 0.0 ==> r == Err(NonPositiveAmount)
    ensures size > 0.0 && side == OtherSide ==> r == Err(BadSide)
    ensures size > 0.0 && side != OtherSide ==>
              var levels := if side == Buy then asks else bids;
              r == Ok(if Filled(levels, size) >= size then Some(Average(levels, size)) else None)
  {
    if size <= 0.0 {
      return Err(NonPositiveAmount);
    }
    if side == OtherSide {
      return Err(BadSide);
    }
    var levels := if side == Buy then asks else bids;
    var remaining, totalValue := size, 0.0;
    var i := 0;
    while i < |levels|
      invariant 0 <= i <= |levels|
      invariant remaining > 0.0
      invariant totalValue + Cost(levels[i..], remaining) == Cost(levels, size)
      invariant size - remaining + Filled(levels[i..], remaining) == Filled(levels, size)
    {
      WalkNext(levels, i, remaining, []);
      var f := Take(levels[i], remaining);
      totalValue := totalValue + f.cost;
      remaining := remaining - f.qty;
      i := i + 1;
      if remaining <= 0.0 {
        break;
      }
    }
    if remaining > 0.0 {
      return Ok(None);
    }
    return Ok(Some(totalValue / size));
  }

  ghost predicate ValidBook(levels: seq<Level>) {
    forall i :: 0 <= i < |levels| ==> levels[i].qty >= 0.0
  }

  /** Asks: prices rise along the book. */
  ghost predicate Ascending(levels: seq<Level>) {
    forall i, j :: 0 <= i < j < |levels| ==> levels[i].price <= levels[j].price
  }

  /** Bids: prices fall along the book. */
  ghost predicate Descending(levels: seq<Level>) {
    forall i, j :: 0 <= i < j < |levels| ==> levels[i].price >= levels[j].price
  }

  ghost predicate PricedAtLeast(levels: seq<Level>, p: real) {
    forall i :: 0 <= i < |levels| ==> levels[i].price >= p
  }

  /** What is filled is what was asked for, up to the depth of the book. */
  lemma {:induction false} FilledIsMinOfDepth(levels: seq<Level>, qty: real)
    requires ValidBook(levels) && qty >= 0.0
    ensures Filled(levels, qty) == Min(qty, Depth(levels))
    ensures Depth(levels) >= 0.0
  {
    if levels != [] {
      FilledIsMinOfDepth(levels[1..], qty - Min(qty, levels[0].qty));
    }
  }

  // ---- greedy is optimal ----

  /** How much is taken from each level by some other strategy. */
  ghost predicate Allocates(levels: seq<Level>, alloc: seq<real>) {
    |alloc| == |levels| && forall i :: 0 <= i < |alloc| ==> 0.0 <= alloc[i] <= levels[i].qty
  }

  function AllocQty(alloc: seq<real>): real {
    if alloc == [] then 0.0 else alloc[0] + AllocQty(alloc[1..])
  }

  function AllocCost(levels: seq<Level>, alloc: seq<real>): real
    requires |alloc| == |levels|
  {
    if alloc == [] then 0.0 else Value(levels[0].price, alloc[0]) + AllocCost(levels[1..], alloc[1..])
  }

  lemma ValueMono(p: real, q: real, x: real)
    requires p <= q && 0.0 <= x
    ensures Value(p, x) <= Value(q, x)
  {
    RMulMono(p, q, x);
  }

  lemma ValueSum(p: real, x: real, y: real)
    ensures Value(p, x + y) == Value(p, x) + Value(p, y)
    ensures Value(p, x - y) == Value(p, x) - Value(p, y)
  {
    RDistrib(p, x, y);
  }

  /** Unfolding a walk at its first level, also when nothing is taken from it. */
  lemma WalkFirst(levels: seq<Level>, qty: real)
    requires ValidBook(levels) && levels != [] && 0.0 <= qty
    ensures var take := Min(qty, levels[0].qty);
            && Filled(levels, qty) == take + Filled(levels[1..], qty - take)
            && Cost(levels, qty) == Value(levels[0].price, take) + Cost(levels[1..], qty - take)
  {
  }

  lemma WalkNothing(levels: seq<Level>)
    ensures Cost(levels, 0.0) == 0.0 && Filled(levels, 0.0) == 0.0
  {
  }

  lemma WalkNoBook(qty: real)
    ensures Cost([], qty) == 0.0 && Filled([], qty) == 0.0
  {
  }

  /** The further units of a larger walk cost at least any lower bound on the prices. */
  lemma {:induction false} MarginalCost(levels: seq<Level>, a: real, b: real, p: real)
    requires ValidBook(levels) && PricedAtLeast(levels, p) && 0.0 <= a <= b
    ensures Cost(levels, b) - Cost(levels, a) >= Value(p, Filled(levels, b) - Filled(levels, a))
  {
    hide Value, Cost, Filled;
    if levels == [] {
      WalkNoBook(a);
      WalkNoBook(b);
      ValueSum(p, 0.0, 0.0);
    } else {
      var rest, price, ta, tb := levels[1..], levels[0].price, Min(a, levels[0].qty), Min(b, levels[0].qty);
      var fa, fb := Filled(rest, a - ta), Filled(rest, b - tb);
      MarginalCost(rest, a - ta, b - tb, p);
      WalkFirst(levels, a);
      WalkFirst(levels, b);
      ValueMono(p, price, tb - ta);
      ValueSum(price, tb, ta);
      ValueSum(p, tb - ta, fb - fa);
      assert Filled(levels, b) - Filled(levels, a) == tb - ta + (fb - fa);
    }
  }

  lemma CostAtLeast(levels: seq<Level>, qty: real, p: real)
    requires ValidBook(levels) && PricedAtLeast(levels, p) && qty >= 0.0
    ensures Cost(levels, qty) >= Value(p, Filled(levels, qty))
  {
    hide Value;
    MarginalCost(levels, 0.0, qty, p);
    WalkNothing(levels);
    assert Filled(levels, qty) - 0.0 == Filled(levels, qty);
  }

  lemma {:induction false} AllocWithinDepth(levels: seq<Level>, alloc: seq<real>)
    requires Allocates(levels, alloc)
    ensures 0.0 <= AllocQty(alloc) <= Depth(levels)
  {
    if alloc != [] {
      AllocWithinDepth(levels[1..], alloc[1..]);
    }
  }

  /** Buying: no other way to take the same quantity from the book costs less. */
  lemma {:induction false} GreedyBuyIsCheapest(levels: seq<Level>, alloc: seq<real>)
    requires ValidBook(levels) && Ascending(levels) && Allocates(levels, alloc)
    ensures Cost(levels, AllocQty(alloc)) <= AllocCost(levels, alloc)
  {
    hide Value, Cost, Filled, Depth, AllocQty, AllocCost;
    if alloc == [] {
      WalkNothing(levels);
      AllocNothing();
    } else {
      var rest, p := levels[1..], levels[0].price;
      var n := AllocQty(alloc);
      var take := Min(n, levels[0].qty);
      AllocFirst(levels, alloc);
      GreedyBuyIsCheapest(rest, alloc[1..]);
      AllocWithinDepth(rest, alloc[1..]);
      FilledIsMinOfDepth(rest, n - take);
      FilledIsMinOfDepth(rest, n - alloc[0]);
      MarginalCost(rest, n - take, n - alloc[0], p);
      WalkFirst(levels, n);
      ValueSum(p, take, alloc[0]);
      assert n - alloc[0] - (n - take) == take - alloc[0];
    }
  }

  lemma AllocNothing()
    ensures AllocQty([]) == 0.0 && AllocCost([], []) == 0.0
  {
  }

  lemma AllocFirst(levels: seq<Level>, alloc: seq<real>)
    requires |alloc| == |levels| && alloc != []
    ensures AllocQty(alloc) == alloc[0] + AllocQty(alloc[1..])
    ensures AllocCost(levels, alloc) == Value(levels[0].price, alloc[0]) + AllocCost(levels[1..], alloc[1..])
  {
  }

  /** The book seen with negated prices, in which selling is buying. */
  function Mirrored(levels: seq<Level>): (m: seq<Level>)
    ensures |m| == |levels|
    ensures forall i :: 0 <= i < |levels| ==> m[i] == Level(-levels[i].price, levels[i].qty)
  {
    if levels == [] then []
    else [Level(-levels[0].price, levels[0].qty)] + Mirrored(levels[1..])
  }

  lemma {:induction false} MirroredCost(levels: seq<Level>, qty: real)
    ensures Cost(Mirrored(levels), qty) == -Cost(levels, qty)
    ensures Filled(Mirrored(levels), qty) == Filled(levels, qty)
  {
    if levels != [] && qty > 0.0 {
      assert Mirrored(levels)[1..] == Mirrored(levels[1..]);
      var take := Min(qty, levels[0].qty);
      MirroredCost(levels[1..], qty - take);
      RNeg(levels[0].price, take);
    }
  }

  lemma {:induction false} MirroredAllocCost(levels: seq<Level>, alloc: seq<real>)
    requires |alloc| == |levels|
    ensures AllocCost(Mirrored(levels), alloc) == -AllocCost(levels, alloc)
  {
    if alloc != [] {
      assert Mirrored(levels)[1..] == Mirrored(levels[1..]);
      MirroredAllocCost(levels[1..], alloc[1..]);
      RNeg(levels[0].price, alloc[0]);
    }
  }

  /** Selling: no other way to sell the same quantity into the book earns more. */
  lemma GreedySellEarnsMost(levels: seq<Level>, alloc: seq<real>)
    requires ValidBook(levels) && Descending(levels) && Allocates(levels, alloc)
    ensures Cost(levels, AllocQty(alloc)) >= AllocCost(levels, alloc)
  {
    GreedyBuyIsCheapest(Mirrored(levels), alloc);
    MirroredCost(levels, AllocQty(alloc));
    MirroredAllocCost(levels, alloc);
  }

  // ---- walking in steps ----

  /** Walking a and then b on what is left is walking a + b. */
  lemma {:induction false} WalkInSteps(levels: seq<Level>, a: real, b: real)
    requires ValidBook(levels) && 0.0 <= a && 0.0 <= b
    ensures Filled(levels, a) + Filled(Residual(levels, a), b) == Filled(levels, a + b)
    ensures Cost(levels, a) + Cost(Residual(levels, a), b) == Cost(levels, a + b)
    ensures Residual(Residual(levels, a), b) == Residual(levels, a + b)
  {
    hide Value, Cost, Filled, Residual;
    if levels == [] || a == 0.0 {
      NoStep(levels, a, b);
    } else {
      var q := levels[0].qty;
      if a < q {
        StepsInFirstLevel(levels, a, b);
      } else {
        WalkInSteps(levels[1..], a - q, b);
        StepsPastFirstLevel(levels, a, b);
      }
    }
  }

  lemma NoStep(levels: seq<Level>, a: real, b: real)
    requires 0.0 <= b && (levels == [] || a == 0.0)
    ensures Filled(levels, a) + Filled(Residual(levels, a), b) == Filled(levels, a + b)
    ensures Cost(levels, a) + Cost(Residual(levels, a), b) == Cost(levels, a + b)
    ensures Residual(Residual(levels, a), b) == Residual(levels, a + b)
  {
  }

  lemma StepsPastFirstLevel(levels: seq<Level>, a: real, b: real)
    requires ValidBook(levels) && levels != [] && 0.0 < a && levels[0].qty <= a && 0.0 <= b
    ensures var q, rest := levels[0].qty, levels[1..];
            && Residual(levels, a) == Residual(rest, a - q)
            && Residual(levels, a + b) == Residual(rest, a - q + b)
            && Filled(levels, a) == q + Filled(rest, a - q)
            && Filled(levels, a + b) == q + Filled(rest, a - q + b)
            && Cost(levels, a) == Value(levels[0].price, q) + Cost(rest, a - q)
            && Cost(levels, a + b) == Value(levels[0].price, q) + Cost(rest, a - q + b)
  {
    hide Value;
    assert a + b - levels[0].qty == a - levels[0].qty + b;
    WalkFirst(levels, a);
    WalkFirst(levels, a + b);
  }

  lemma StepsInFirstLevel(levels: seq<Level>, a: real, b: real)
    requires ValidBook(levels) && levels != [] && 0.0 < a < levels[0].qty && 0.0 <= b
    ensures Filled(levels, a) + Filled(Residual(levels, a), b) == Filled(levels, a + b)
    ensures Cost(levels, a) + Cost(Residual(levels, a), b) == Cost(levels, a + b)
    ensures Residual(Residual(levels, a), b) == Residual(levels, a + b)
  {
    hide Value, Cost, Filled;
    var p, q, rest := levels[0].price, levels[0].qty, levels[1..];
    var left := [Level(p, q - a)] + rest;
    assert Residual(levels, a) == left && left[1..] == rest;
    var t := Min(b, q - a);
    assert Min(a + b, q) == a + t && a + b - (a + t) == b - t;
    WalkFirst(levels, a);
    WalkFirst(levels, a + b);
    WalkFirst(left, b);
    ValueSum(p, a, t);
    WalkNothing(rest);
    if 0.0 < b < q - a {
      assert Residual(left, b) == [Level(p, q - (a + b))] + rest;
    }
  }

  // ---- prices along the walk ----

  lemma {:induction false} AverageCrossProduct(levels: seq<Level>, a: real, b: real)
    requires ValidBook(levels) && Ascending(levels) && 0.0 <= a <= b
    ensures Value(Cost(levels, a), Filled(levels, b)) <= Value(Cost(levels, b), Filled(levels, a))
  {
    if levels == [] {
      assert Value(0.0, 0.0) == 0.0;
    } else {
      hide Value, Cost, Filled;
      var q, rest := levels[0].qty, levels[1..];
      var ta, tb := Min(a, q), Min(b, q);
      var ca, cb := Cost(rest, a - ta), Cost(rest, b - tb);
      var fa, fb := Filled(rest, a - ta), Filled(rest, b - tb);
      AverageCrossProduct(rest, a - ta, b - tb);
      WalksCompared(levels, a, b, ca, cb, fa, fb);
      AverageStep(levels[0].price, ta, tb, ca, cb, fa, fb,
                  Cost(levels, a), Cost(levels, b), Filled(levels, a), Filled(levels, b));
    }
  }

  /** Two walks of the same book, each split into its first level and the rest. */
  lemma WalksCompared(levels: seq<Level>, a: real, b: real, ca: real, cb: real, fa: real, fb: real)
    requires levels != [] && ValidBook(levels) && Ascending(levels) && 0.0 <= a <= b
    requires ca == Cost(levels[1..], a - Min(a, levels[0].qty)) && fa == Filled(levels[1..], a - Min(a, levels[0].qty))
    requires cb == Cost(levels[1..], b - Min(b, levels[0].qty)) && fb == Filled(levels[1..], b - Min(b, levels[0].qty))
    ensures 0.0 <= fa <= fb
    ensures var p := levels[0].price; cb - ca >= Value(p, fb - fa) && cb >= Value(p, fb)
    ensures (ca == 0.0 && fa == 0.0) || Min(a, levels[0].qty) == Min(b, levels[0].qty)
    ensures Cost(levels, a) == Value(levels[0].price, Min(a, levels[0].qty)) + ca
    ensures Cost(levels, b) == Value(levels[0].price, Min(b, levels[0].qty)) + cb
    ensures Filled(levels, a) == Min(a, levels[0].qty) + fa
    ensures Filled(levels, b) == Min(b, levels[0].qty) + fb
  {
    hide Value, Cost, Filled, Depth;
    var p, rest := levels[0].price, levels[1..];
    var ra, rb := a - Min(a, levels[0].qty), b - Min(b, levels[0].qty);
    MarginalCost(rest, ra, rb, p);
    CostAtLeast(rest, rb, p);
    FilledIsMinOfDepth(rest, ra);
    FilledIsMinOfDepth(rest, rb);
    WalkNothing(rest);
    WalkFirst(levels, a);
    WalkFirst(levels, b);
  }

  /** Either the smaller walk ends in the first level or both take the whole of it. */
  lemma AverageStep(p: real, ta: real, tb: real, ca: real, cb: real, fa: real, fb: real,
                    costA: real, costB: real, filledA: real, filledB: real)
    requires 0.0 <= ta <= tb && 0.0 <= fa <= fb
    requires Value(ca, fb) <= Value(cb, fa)
    requires cb - ca >= Value(p, fb - fa) && cb >= Value(p, fb)
    requires (ca == 0.0 && fa == 0.0) || ta == tb
    requires costA == Value(p, ta) + ca && costB == Value(p, tb) + cb
    requires filledA == ta + fa && filledB == tb + fb
    ensures Value(costA, filledB) <= Value(costB, filledA)
  {
    RDistrib(p * ta + ca, tb, fb);
    RDistrib(p * tb + cb, ta, fa);
    RDistrib(tb, p * ta, ca);
    RDistrib(fb, p * ta, ca);
    RDistrib(ta, p * tb, cb);
    RDistrib(fa, p * tb, cb);
    assert p * ta * tb == p * tb * ta;
    if ca == 0.0 && fa == 0.0 {
      RMulMono(p * fb, cb, ta);
      assert p * ta * fb == p * fb * ta;
    } else {
      RMulMono(p * (fb - fa), cb - ca, ta);
      RDistrib(p, fb, fa);
      RDistrib(ta, p * fb, p * fa);
      RDistrib(ta, cb, ca);
      assert p * fb * ta == p * ta * fb && p * fa * ta == p * ta * fa;
    }
  }

  /** Buying more never lowers the average price. */
  lemma AveragePriceWorsens(levels: seq<Level>, a: real, b: real)
    requires ValidBook(levels) && Ascending(levels) && 0.0 <= a <= b && Filled(levels, a) > 0.0
    ensures Average(levels, a) <= Average(levels, b)
  {
    AverageCrossProduct(levels, a, b);
    FilledIsMinOfDepth(levels, a);
    FilledIsMinOfDepth(levels, b);
    CompareQuotients(Cost(levels, a), Filled(levels, a), Cost(levels, b), Filled(levels, b));
  }

  lemma CompareQuotients(c: real, f: real, d: real, g: real)
    requires 0.0 < f && 0.0 < g && Value(c, g) <= Value(d, f)
    ensures c / f <= d / g
  {
    var x, y := c / f, d / g;
    assert x * f == c && y * g == d;
    assert x * f * g <= y * g * f;
    assert x * f * g == x * (f * g) && y * g * f == y * (f * g);
    assert 0.0 < f * g;
  }

  /** Selling more never raises the average price. */
  lemma AverageProceedsWorsen(levels: seq<Level>, a: real, b: real)
    requires ValidBook(levels) && Descending(levels) && 0.0 <= a <= b && Filled(levels, a) > 0.0
    ensures Average(levels, a) >= Average(levels, b)
  {
    AveragePriceWorsens(Mirrored(levels), a, b) by {
      MirroredCost(levels, a);
    }
    MirroredAverage(levels, a);
    MirroredAverage(levels, b);
  }

  lemma NegQuotient(a: real, b: real)
    requires 0.0 < b
    ensures (-a) / b == -(a / b)
  {
    var x, y := (-a) / b, a / b;
    RQuotient(a, b);
    RQuotient(-a, b);
    assert (x + y) * b == 0.0;
  }

  lemma MirroredAverage(levels: seq<Level>, qty: real)
    ensures Average(Mirrored(levels), qty) == -Average(levels, qty)
  {
    MirroredCost(levels, qty);
    if Filled(levels, qty) > 0.0 {
      NegQuotient(Cost(levels, qty), Filled(levels, qty));
    }
  }

  /** On a sorted book the average is never better than the best price, so the clamp of a
      negative slippage never acts. */
  lemma SlippageClampNeverActs(levels: seq<Level>, qty: real, side: TradeSide)
    requires side == Buy || side == Sell
    requires ValidBook(levels) && (if side == Buy then Ascending(levels) else Descending(levels))
    requires levels != [] && levels[0].price > 0.0 && qty > 0.0 && Filled(levels, qty) > 0.0
    ensures Slippage(side, levels[0].price, Average(levels, qty)) >= 0.0
  {
    if side == Buy {
      AverageAtLeastBest(levels, qty);
      RatioNonNegative(Average(levels, qty) - levels[0].price, levels[0].price);
    } else {
      MirroredCost(levels, qty);
      AverageAtLeastBest(Mirrored(levels), qty);
      MirroredAverage(levels, qty);
      RatioNonNegative(levels[0].price - Average(levels, qty), levels[0].price);
    }
  }

  /** The slippage in terms of money: what the walk costs above the best price (or earns below it),
      in ten-thousandths of what the quantity is worth at the best price. */
  lemma SlippageIsExcessCost(levels: seq<Level>, qty: real, side: TradeSide)
    requires side == Buy || side == Sell
    requires levels != [] && levels[0].price > 0.0 && Filled(levels, qty) > 0.0
    ensures var best, filled := levels[0].price, Filled(levels, qty);
            Slippage(side, best, Average(levels, qty)) * (best * filled)
            == (if side == Buy then Cost(levels, qty) - best * filled else best * filled - Cost(levels, qty)) * 10000.0
  {
    hide Cost, Filled;
    ExcessCost(Cost(levels, qty), Filled(levels, qty), levels[0].price);
    RNeg(Average(levels, qty) - levels[0].price, 1.0 / levels[0].price);
    NegExcess(Average(levels, qty), levels[0].price);
  }

  lemma NegExcess(avg: real, best: real)
    requires best > 0.0
    ensures (best - avg) / best == -((avg - best) / best)
  {
    RQuotient(best - avg, best);
    RQuotient(avg - best, best);
    RDistrib(best, (best - avg) / best, (avg - best) / best);
    RCancel((best - avg) / best, -((avg - best) / best), best);
  }

  lemma ExcessCost(cost: real, filled: real, best: real)
    requires filled > 0.0 && best > 0.0
    ensures (cost / filled - best) / best * 10000.0 * (best * filled) == (cost - best * filled) * 10000.0
  {
    var avg := cost / filled;
    var rate := (avg - best) / best;
    RQuotient(cost, filled);
    RQuotient(avg - best, best);
    RDistrib(filled, avg, best);
    assert rate * 10000.0 * (best * filled) == rate * best * filled * 10000.0;
  }

  /** Buying or selling more on a sorted book never slips less. */
  lemma SlippageWorsens(levels: seq<Level>, a: real, b: real, side: TradeSide)
    requires side == Buy || side == Sell
    requires ValidBook(levels) && (if side == Buy then Ascending(levels) else Descending(levels))
    requires levels != [] && levels[0].price > 0.0 && 0.0 <= a <= b && Filled(levels, a) > 0.0
    ensures Slippage(side, levels[0].price, Average(levels, a)) <= Slippage(side, levels[0].price, Average(levels, b))
  {
    hide Average, Filled;
    var best, x, y := levels[0].price, Average(levels, a), Average(levels, b);
    if side == Buy {
      AveragePriceWorsens(levels, a, b);
      RatioMono(x - best, y - best, best);
    } else {
      AverageProceedsWorsen(levels, a, b);
      RatioMono(best - x, best - y, best);
    }
  }

  lemma RatioMono(a: real, b: real, c: real)
    requires a <= b && 0.0 < c
    ensures a / c * 10000.0 <= b / c * 10000.0
  {
    RQuotient(a, c);
    RQuotient(b, c);
    RCompare(a / c, b / c, c);
  }

  /** Fill by fill: each is at the price of its own level and takes at most that level; all but the
      last take the whole of it. */
  lemma {:induction false} FillsFollowTheBook(levels: seq<Level>, qty: real, i: nat)
    requires ValidBook(levels) && i < |Fills(levels, qty)|
    ensures i < |levels|
    ensures var f := Fills(levels, qty)[i];
            && f.price == levels[i].price && f.cost == levels[i].price * f.qty && 0.0 <= f.qty <= levels[i].qty
            && (i < |Fills(levels, qty)| - 1 ==> f.qty == levels[i].qty)
  {
    hide Fills, Value;
    FillsFirst(levels, qty);
    var f := Take(levels[0], qty);
    if i > 0 {
      FillsFollowTheBook(levels[1..], qty - f.qty, i - 1);
    } else {
      ValueIs(f.price, f.qty);
      FillsFirst(levels[1..], qty - f.qty);
    }
  }

  lemma ValueIs(price: real, qty: real)
    ensures Value(price, qty) == price * qty
  {
  }

  lemma FillsFirst(levels: seq<Level>, qty: real)
    ensures levels == [] || qty <= 0.0 ==> Fills(levels, qty) == []
    ensures levels != [] && qty > 0.0 ==>
              Fills(levels, qty) == [Take(levels[0], qty)] + Fills(levels[1..], qty - Take(levels[0], qty).qty)
  {
  }

  lemma AverageAtLeastBest(levels: seq<Level>, qty: real)
    requires ValidBook(levels) && Ascending(levels) && levels != [] && qty > 0.0 && Filled(levels, qty) > 0.0
    ensures Average(levels, qty) >= levels[0].price
  {
    CostAtLeast(levels, qty, levels[0].price);
    QuotientAtLeast(Cost(levels, qty), Filled(levels, qty), levels[0].price);
  }

  lemma QuotientAtLeast(c: real, f: real, p: real)
    requires 0.0 < f && c >= Value(p, f)
    ensures c / f >= p
  {
    RQuotient(c, f);
    RDistrib(f, c / f, p);
  }

  lemma RatioNonNegative(a: real, b: real)
    requires 0.0 <= a && 0.0 < b
    ensures a / b * 10000.0 >= 0.0
  {
  }
}
