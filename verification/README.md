# Formal model of a CEX/DEX arbitrage bot

The project models the exact arithmetic and the stateful logic of the bot and proves what they
promise. One module models one component:

- `Amm`, `AmmV3`, `LiquidityProxy`, `DirectPricer`: pool arithmetic on integers, floors included.
- `Routes`, `RouteFinder`, `Arbitrage`: evaluating routes, and the two backtracking searches.
- `OrderBookMirror`, `BookWalk`: the local mirror of the exchange's book, and filling an order
  against a book.
- `Recovery`, `Executor`, `RiskWindow`: circuit breaker, replay guard, two-leg executor, hourly
  rate limit.
- `Rebalancer`, `CostBasis`: cross-venue transfers and weighted-average cost accounting.
- `Common` and `NonlinearMath` hold shared types and multiplication facts.

Code that changes state is a class or a method proved against a function; the promises are lemmas
about that function, over all inputs or over all runs. Exceptions are `Result` values. Decimal and
floating-point amounts are exact reals. Clock readings, the next midnight, live reserves, order ids
and what the venues answer are inputs; clock readings never decrease. Tokens are their 20-byte
addresses as numbers. A pool object's identity is its `id`;
the chain knows pools by their address, and two objects may share one.

## Where the code and its documentation differ

The model follows the code in each case.

- `exchange/ws_orderbook.py:11` lists a gap check that the code does not make. The mirror is proved
  right for gap-free delivery, and `GapCanAlwaysBreakAgreement` shows that nothing less will do.
- `executor/recovery.py:47` speaks of one probe request. The breaker passes every check while
  half-open; one probe at a time is a fact about sequential calls of `execute`.
- `executor/engine.py:329` replaces a size of 0 by the signal's size, so a second leg after a DEX
  fill of 0 is not for the fill.
- `inventory/rebalancer.py:303` caps each transfer by the source's headroom but not their sum, and
  loops forever on a source without headroom; both are stated exactly.
- `safety/risk.py:46` calls the field the peak of the capital, but the setter of
  `safety/risk.py:130-132` does not raise it. `PeakIsHighestCapital` says exactly when it is the peak.
- `tests/test_amm.py:353` promises `in(out(x)) >= x`. In general that holds exactly under the
  condition of `Amm.RoundTripKeepsInputExactly`.
- `executor/engine.py:263-264` counts on the order id to make retries safe. It does prevent a second
  fill, but a fill whose success never comes back is given up; `GivenUpTradeLeavesFill` says when.

## Model

| member | source | states |
|---|---|---|
| `Amm.MakePair` | pricing/amm.py:91-100 | the constructor accepts exactly positive reserves, a fee in [0, 9999] and two different tokens |
| `Amm.OutAtLeast` | pricing/amm.py:114-126 | the quoted output reaches `o` iff `a*(y-o)*g >= x*o*10000`: the price formula with its floor removed |
| `Amm.OutBounds` | pricing/amm.py:114-126 | the output is never negative and never reaches the output reserve, so `simulate_swap` can always build the new pair |
| `Amm.QuotedInputIsNearlyLeast` | pricing/amm.py:128-151 | the quoted input always buys the wanted output; every sufficient input is at least the quote minus 1, and that one suffices exactly when the division leaves no remainder |
| `Amm.RoundTripOfAmount` | pricing/amm.py:114-151 | `in(out(a)) <= a + 1` whenever `out(a) > 0`, and `in(out(a)) >= a` iff the unrounded output of `a - 1` does not exceed `out(a)` |
| `Amm.RoundTripKeepsInputExactly` | pricing/amm.py:114-151 | the exact condition for `in(out(a)) >= a` in the inputs alone, over all positive amounts, those that buy nothing included |
| `Amm.SteepRoundTripKeepsInput` | pricing/amm.py:114-151 | in the inputs alone: while one more unit of input still buys a whole unit of output, `a <= in(out(a)) <= a + 1` |
| `Amm.RoundTripCanLoseInput` | tests/test_amm.py:352-360 | the bound `in(out(a)) >= a` stated there is not general: a pool where 1999 units buy 1 and 1 costs 1005 |
| `Amm.SimulateSwap` | pricing/amm.py:179-197 | a swap succeeds iff the quote does, moves exactly the input and the quoted output, and keeps tokens, fee and address |
| `Amm.TwoPiecesNeverBeatOne` | pricing/amm.py:114-126 | two swaps in sequence, each floored, pay at most one swap of their sum |
| `Amm.SplittingNeverWins` | pricing/amm.py:179-197 | any list of positive pieces swapped one after another pays at most the single swap of the total; a run fails iff some piece is not positive |
| `Amm.SwapKeepsProduct` | pricing/amm.py:179-197 | one swap never lowers the product of the reserves |
| `Amm.RunKeepsProduct` | pricing/amm.py:179-197 | no run of swaps in either direction lowers the product of the reserves |
| `Amm.RunCannotDrain` | pricing/amm.py:179-197 | a run that gives one reserve back (or lowers it) cannot have lowered the other |
| `AmmV3.MakePool` | pricing/amm_v3.py:107-115 | the constructor accepts exactly a positive price and liquidity, one of the four fee tiers and two different tokens |
| `AmmV3.OutputMonotone` | pricing/amm_v3.py:146-170 | in either direction a larger input never buys less |
| `AmmV3.OutputAgainstSpot` | pricing/amm_v3.py:151-170 | at every fixed-point unit, the pool's 2^96 among them: output is capped by the virtual reserve; on the input left after the fee, token1-in never beats spot and token0-in beats it by at most its roundings |
| `AmmV3.OutputNearCurve` | pricing/amm_v3.py:151-170 | the pool's quote is the formula at the fixed-point unit 2^96, and at any unit, in both directions and every fee tier, the formula falls short of the unrounded curve at `amount * (1000000 - fee)` by no more than the stated roundings, the fee's own floor included, and exceeds it by no more than the others |
| `AmmV3.LowerTierPaysNoLess` | pricing/amm_v3.py:153 | a lower fee tier never pays less |
| `AmmV3.OneForZeroNearExact` | pricing/amm_v3.py:162-170 | token1-in pays at most the unrounded curve and less than `1 + l*q/(s*s)` below it |
| `AmmV3.ZeroForOneAboveExact` | pricing/amm_v3.py:155-160 | token0-in never pays less than the unrounded curve, floored: its roundings favour the trader |
| `AmmV3.ZeroForOneNearExact` | pricing/amm_v3.py:155-160 | and exceeds that curve by at most one rounded-up unit of scaled input and one step of the square-root price |
| `AmmV3.ZeroForOneNearSpot` | pricing/amm_v3.py:155-160 | token0-in exceeds the spot value by at most `(sqrt + l) * q` in scaled units |
| `AmmV3.TokenZeroInWithinSpot` | pricing/amm_v3.py:146-160 | with the fee, at every fixed-point unit: token0-in does not beat spot once the trade's own impact outweighs the roundings, `s*e*(e-1) >= l*(l+e-1+s)` for the scaled input `e`, which is known before the call |
| `AmmV3.SingleStepPays` | pricing/amm_v3.py:155-160 | a trade so small that the price falls by one step pays `l / q` whatever its size, and beats spot iff that is worth more than its input |
| `AmmV3.TokenZeroInCanBeatSpot` | pricing/amm_v3.py:155-160 | spot can be beaten: a pool in which 2 units in pay far more than spot |
| `LiquidityProxy.LiquidityProxy` | pricing/historical.py:76-87 | Newton's loop ends and returns the exact floor square root of the product, 0 for a non-positive product |
| `LiquidityProxy.NewtonStaysAbove` | pricing/historical.py:82-86 | a Newton step from any positive value stays at or above the root |
| `LiquidityProxy.ProxyNeverFalls` | pricing/historical.py:76-87 | the proxy of a pair never falls over any run of swaps |
| `DirectPricer.DirectPricerAgrees` | pricing/uniswap_direct.py:153-185 | at 30 basis points the 997/1000 integers equal `get_amount_out` and `get_amount_in` on every positive amount, and the buying side gives up on exactly the same amounts |
| `DirectPricer.DirectPricerAcceptsZero` | pricing/uniswap_direct.py:153-185 | on amount 0 both sides differ: the direct pricer sells for 0 and buys for 1, the pair refuses both |
| `Routes.GetOutput` | pricing/router.py:44-51 | the loop evaluates the hops in order, stopping at the first exception |
| `Routes.GetIntermediateAmounts` | pricing/router.py:53-62 | the amounts start with the input, each is what its pool returns for the one before, and the last equals `get_output` |
| `Routes.EvaluatesUnlessDry` | pricing/router.py:44-51 | a connected route evaluates iff the input is positive and no pool hands 0 to the next |
| `Routes.V3HopNearCurve` | pricing/router.py:44-51 | a hop through a V3 pool pays that pool's quote in the direction the token goes, and the quote lies at the pool's curve |
| `Routes.FrozenEqualsLive` | pricing/router.py:44-51 | on a route that uses no pool of the chain twice, the output on frozen reserves equals executing the hops with the reserves updated address by address, errors included |
| `Routes.RepeatedPoolBreaksFrozenEvaluation` | pricing/router.py:44-51 | two objects of one pool are enough to make them differ: 82 quoted, 99 paid |
| `Routes.SimulateRoute` | pricing/fork_simulator.py:374-394 | the fork loop returns the live evaluation and its gas, or failure with zeros on any exception |
| `Routes.SimulationMatchesStored` | pricing/fork_simulator.py:374-394 | with live reserves equal to stored ones it succeeds iff every pool is a V2 pair and the route evaluates, and then on the same amount |
| `Routes.SimulationUsesLiveReserves` | pricing/fork_simulator.py:374-394 | whatever is stored, a V2 route simulates to what it pays on the live reserves |
| `Routes.SimulationNeedsReserves` | pricing/fork_simulator.py:374-394 | and fails at a pair without live reserves |
| `Routes.OutputBoundedByPrices` | pricing/amm.py:122-126 | output times the product of 10000 x input reserves is at most input times the product of fee-reduced output reserves, along any route |
| `Routes.GainNeedsMispricing` | pricing/arbitrage.py:260-281 | a gain forces the fee-adjusted price product above 1 |
| `RouteFinder.BuildGraph` | pricing/router.py:84-90 | every token's list holds the edges of its pools, in the order the pools are listed |
| `RouteFinder.VisitedPoolMeansVisitedToken` | pricing/router.py:132-135 | whatever the visited-pool test skips, the visited-token test would skip as well |
| `RouteFinder.RouteFinder.Dfs` | pricing/router.py:114-153 | the backtracking search appends exactly the extensions of the path it stands on and restores the shared sets and lists; it raises only for a route of no pools |
| `RouteFinder.RouteFinder.VisitNeighbours` | pricing/router.py:130-153 | the loop over the edges, with both visited tests, yields what a search without the pool test yields |
| `RouteFinder.RouteFinder.Descend` | pricing/router.py:136-153 | push, search, pop leaves everything but the route list unchanged |
| `RouteFinder.RouteFinder.FindAllRoutes` | pricing/router.py:92-112 | all routes, or the exception for a route from a token to itself |
| `RouteFinder.FindsExactlySimpleRoutes` | pricing/router.py:92-153 | a route is found iff it is a simple token path over the listed pools of at most `max_hops` pools |
| `RouteFinder.RoutesDistinct` | pricing/router.py:92-153 | no route is found twice if no pool object is listed twice |
| `RouteFinder.SimpleRouteUsesEachPoolOnce` | pricing/router.py:130-153 | a route that repeats no token repeats no pool |
| `RouteFinder.FoundRoutesPayWhatTheyQuote` | pricing/router.py:92-112 | every found route whose own pools are up-to-date V2 pairs pays its quote when executed hop by hop on the chain, whatever else is listed |
| `RouteFinder.BestOf` | pricing/router.py:171-183 | the comparison loop returns the first route of highest net output; it fails iff there is no route or one cannot be evaluated |
| `RouteFinder.RouteFinder.FindBestRoute` | pricing/router.py:155-183 | the first best of all found routes, with the exact error cases; its net is 0 or what that route pays less its gas, and no simple route pays more after gas |
| `RouteFinder.AllEvaluateUnlessDry` | pricing/router.py:155-183 | the success condition in amounts: the input is positive and no simple route, however poor, hands 0 to a later pool |
| `RouteFinder.BestFoundIsBestSimple` | pricing/router.py:155-183 | that route is the optimum over all simple routes there are |
| `RouteFinder.BestNetExact` | pricing/router.py:171-183 | the optimum in outputs and hops alone: output less gwei x 10^9 x (150000 + 100000 a pool), never below 0 |
| `RouteFinder.GasPriceNeverHelps` | pricing/router.py:171-183 | a higher gas price never raises the best net |
| `RouteFinder.LongerNeverBeatsShorter` | pricing/router.py:171-183 | a route that pays off is never longer than one that pays as much |
| `Arbitrage.ArbitrageDetector.DfsCircular` | pricing/arbitrage.py:238-310 | the circular search appends exactly the specified opportunities and restores its lists, or raises exactly the specified exception |
| `Arbitrage.ArbitrageDetector.VisitEdge` | pricing/arbitrage.py:255-310 | the loop body with its tests in order: output first, then closing, then discarding, then descending |
| `Arbitrage.ReportsExactlyProfitableCycles` | pricing/arbitrage.py:238-310 | on a normal return an opportunity is reported iff it is a cycle through the start with distinct pools and inner tokens, 2 to `max_hops` hops and positive gain; its gross profit is its own route's output minus the input |
| `Arbitrage.RaisesExactlyWhenStuck` | pricing/arbitrage.py:255-260 | the search raises iff some reachable path has run dry (amount <= 0) while an unused pool is still at hand |
| `Arbitrage.ReportsDistinct` | pricing/arbitrage.py:238-310 | no cycle is reported twice if no pool object is listed twice |
| `Arbitrage.ReportIsRealAndExecutable` | pricing/arbitrage.py:262-282 | a reported cycle over up-to-date V2 pairs has a fee-adjusted price product above 1, and executing it on the chain pays the reported gain |
| `Arbitrage.GainfulCycleUsesEachAddressOnce` | pricing/arbitrage.py:238-310 | distinct pool objects are enough: a gainful cycle never passes one on-chain pool twice, even if two objects share its address |
| `Arbitrage.SortIsPermutation` | pricing/arbitrage.py:131-132 | sorting loses and invents nothing |
| `Arbitrage.SortIsDescending` | pricing/arbitrage.py:131-132 | the result is in falling order of gross profit |
| `Arbitrage.SortIsStable` | pricing/arbitrage.py:131-132 | equal profits keep the order in which they were found |
| `Arbitrage.ArbitrageDetector.FindCircularArbitrage` | pricing/arbitrage.py:117-132 | the sorted opportunities, or the search's exception |
| `Arbitrage.ArbitrageDetector.FindBestCircularArbitrage` | pricing/arbitrage.py:209-227 | the most profitable of all reported cycles; none iff nothing is reported |
| `Arbitrage.CrossPoolAgreesWithCircular` | pricing/arbitrage.py:312-346 | buying on one pool and selling on another finds a gain iff the circular search reports that two-hop route, with the same profit |
| `Arbitrage.CrossPoolIsItsRoute` | pricing/arbitrage.py:312-346 | a pair is found iff its two-hop route gains, and the report is that route with its gain |
| `OrderBookMirror.OrderBookStream.ApplySnapshotInPlace` | exchange/ws_orderbook.py:167-171 | the snapshot replaces the book by its positive levels |
| `OrderBookMirror.OrderBookStream.ApplyEventInPlace` | exchange/ws_orderbook.py:173-207 | an event is applied iff its final id is newer; entries of quantity 0 remove, others upsert, the last entry for a price wins |
| `OrderBookMirror.LastEntryWins` | exchange/ws_orderbook.py:189-205 | the last entry for a price decides: 0 removes it, anything else is its quantity |
| `OrderBookMirror.SnapshotKeepsPositive` | exchange/ws_orderbook.py:167-171 | exactly the prices with a positive entry are kept |
| `OrderBookMirror.EventKeepsAgreement` | exchange/ws_orderbook.py:185-207 | an honest event without gap carries agreement with the exchange to its final id |
| `OrderBookMirror.MirrorAgrees` | exchange/ws_orderbook.py:167-207 | over every gap-free run each known price holds exactly the exchange's quantity at `last_update_id`, no zero level is held, and the id never falls |
| `OrderBookMirror.SnapshotAgrees` | exchange/ws_orderbook.py:160-171 | a depth-limited snapshot agrees on the prices it reaches |
| `OrderBookMirror.ContiguousStreamHasNoGaps` | exchange/ws_orderbook.py:145-156 | a contiguous stream opened before the snapshot never shows the mirror a gap |
| `OrderBookMirror.SynchronisedMirrorAgrees` | exchange/ws_orderbook.py:7-14 | the documented protocol as a whole: snapshot, then contiguous events, agrees throughout |
| `OrderBookMirror.RepeatChangesNothing` | exchange/ws_orderbook.py:185-188 | an event delivered again, at once or later, changes nothing |
| `OrderBookMirror.GapCanAlwaysBreakAgreement` | exchange/ws_orderbook.py:11 | the documented gap check is absent from the code, and needed: behind any gap a known price the event does not list may have changed, and then honest events leave the mirror wrong |
| `OrderBookMirror.AnyGapCanBreakMirror` | exchange/ws_orderbook.py:145-207 | for every mirror reached from a snapshot such a price exists: all it was ever told, the event behind the gap included, is true of a history in which it is wrong afterwards |
| `OrderBookMirror.BestPriceIsExchangeBest` | exchange/ws_orderbook.py:216-225 | while the mirror's best price lies where the snapshot reached, it is the exchange's best with the exchange's quantity |
| `OrderBookMirror.UncoveredBestCanBeBeaten` | exchange/ws_orderbook.py:216-225 | beyond that reach all the mirror was told is also true of a history in which the exchange has a strictly better price |
| `OrderBookMirror.BestIsKnownExactlyWhenCovered` | exchange/ws_orderbook.py:216-225 | so the mirror's best is the exchange's best in every history it could be looking at iff the snapshot reached that price |
| `OrderBookMirror.LateStreamBestIsKnownExactlyWhenCovered` | exchange/ws_orderbook.py:145-225 | the same for every positive depth and every stream opened after the market's first update |
| `OrderBookMirror.ExportIsExchangeTop` | exchange/ws_orderbook.py:211-225 | the exported levels, down to any the snapshot reached, are exactly the exchange's best levels, in order and with its quantities |
| `OrderBookMirror.ExportIsKnownExactlyWhenCovered` | exchange/ws_orderbook.py:211-225 | and an exported level can be relied on iff the snapshot reached its price |
| `OrderBookMirror.BestPriceCanBeMissed` | exchange/ws_orderbook.py:216-225 | the smallest case of this: depth 1, one deletion, no gap |
| `BookWalk.WalkTheBook` | exchange/orderbook.py:42-88 | fills, cost, average, slippage and the filled flag are those of the greedy walk, with the two errors |
| `BookWalk.VwapToFill` | exchange/order_book.py:38-61 | the second implementation returns the first one's average iff the first fills the order, else None |
| `BookWalk.FillsAddUp` | exchange/orderbook.py:59-68 | the listed fills sum to the walked quantity and cost |
| `BookWalk.FillsFollowTheBook` | exchange/orderbook.py:59-66 | each fill is at its own level's price and all but the last take the whole level |
| `BookWalk.FilledIsMinOfDepth` | exchange/orderbook.py:59-70 | what is filled is the smaller of the order and the depth of the book |
| `BookWalk.GreedyBuyIsCheapest` | exchange/orderbook.py:59-66 | on rising asks no other allocation of the same quantity costs less |
| `BookWalk.GreedySellEarnsMost` | exchange/orderbook.py:59-66 | on falling bids no other allocation of the same quantity earns more |
| `BookWalk.WalkInSteps` | exchange/orderbook.py:59-66 | walking a and then b on the residual book equals walking a + b: quantity, cost and what is left |
| `BookWalk.AveragePriceWorsens` | exchange/orderbook.py:68-69 | buying more never lowers the average price |
| `BookWalk.AverageProceedsWorsen` | exchange/orderbook.py:68-69 | selling more never raises the average price |
| `BookWalk.SlippageClampNeverActs` | exchange/orderbook.py:72-77 | on a sorted book the slippage is never negative before the clamp |
| `BookWalk.SlippageIsExcessCost` | exchange/orderbook.py:72-77 | slippage is the money paid above (or earned below) the best price, in ten-thousandths of the quantity's worth at it |
| `BookWalk.SlippageWorsens` | exchange/orderbook.py:72-77 | on a sorted book a larger order never slips less |
| `Recovery.CircuitBreaker.RecordFailure` | executor/recovery.py:62-76 | a probe failure re-trips at once, any other is appended, pruned to the window and may trip |
| `Recovery.CircuitBreaker.RecordSuccess` | executor/recovery.py:78-84 | resets a half-open breaker and nothing else |
| `Recovery.CircuitBreaker.CheckOpen` | executor/recovery.py:104-117 | open during the cooldown; after it, clears the trip and goes half-open |
| `Recovery.AfterKeepsExactly` | executor/recovery.py:70-73 | pruning keeps exactly the failures later than the cutoff, each as often as it occurred |
| `Recovery.FailuresAreWindowOfHistory` | executor/recovery.py:70-73 | over every run the pruned list equals the full failure history since the last reset, filtered to the window of its last failure |
| `Recovery.TripsExactlyAtThreshold` | executor/recovery.py:70-76 | a failure trips iff the failures of the full history within the window reach the threshold |
| `Recovery.ProbeIsCleared` | executor/recovery.py:104-117 | half-open implies not tripped, with no failures remembered |
| `Recovery.ClosedIsBelowThreshold` | executor/recovery.py:62-117 | not tripped implies fewer remembered failures than the threshold |
| `Recovery.NoCheckPassesDuringCooldown` | executor/recovery.py:104-117 | after any trip no check passes until more than the cooldown later, whatever is recorded in between |
| `Recovery.OpenExactlyDuringCooldown` | executor/recovery.py:104-117 | after the latest trip the breaker is open iff the cooldown is not over |
| `Recovery.TrippedExactly` | executor/recovery.py:62-117 | the breaker is tripped exactly by a trip after which nothing tripped again and no check came late |
| `Recovery.HalfOpenExactly` | executor/recovery.py:104-117 | it is half-open exactly while the first check after a trip's cooldown has been followed by checks only |
| `Recovery.AwaitedOutcomeDecides` | executor/recovery.py:62-84 | then the next failure trips at its own time whatever the threshold, and the next success starts afresh |
| `Recovery.HalfOpenPassesEveryCheck` | executor/recovery.py:47-50 | the breaker alone does not limit probes to one: until an outcome is recorded every check passes |
| `Recovery.ReplayProtection.IsDuplicate` | executor/recovery.py:168-177 | a signal is a duplicate iff it was marked less than `ttl` ago; older entries are dropped |
| `Recovery.ReplayProtection.MarkExecuted` | executor/recovery.py:172-173 | remembers the completion time under the signal id |
| `Executor.RetrySettles` | executor/engine.py:269-302 | retrying stops at the first attempt that succeeds or fails for good, else after the last allowed one, with the error of the last attempt |
| `Executor.Executor.CexWithRetry` | executor/engine.py:248-302 | the loop returns that outcome and submits one order an attempt, all under one id and size |
| `Executor.Executor.ExecuteCexFirst` | executor/engine.py:150-200 | the context shows the specified CEX-first trade |
| `Executor.Executor.SecondLegOnDex` | executor/engine.py:173-200 | the DEX leg is asked for leg 1's fill; timeout or failure unwinds once |
| `Executor.Executor.ExecuteDexFirst` | executor/engine.py:202-246 | the context shows the specified DEX-first trade |
| `Executor.Executor.SecondLegOnCex` | executor/engine.py:229-246 | the CEX leg is retried for leg 1's fill; giving up unwinds once |
| `Executor.Executor.Execute` | executor/engine.py:111-148 | one call applies breaker, replay guard and validation in order, runs the legs, then marks the signal and records the outcome; a size of 0 is excluded only where a leg 1 fill is divided by it |
| `Executor.PermanentExactly` | executor/engine.py:26-37 | an error is permanent iff one of the eight words stands in it, in any letter case |
| `Executor.CaseDoesNotMatter` | executor/engine.py:281 | letter case never changes that |
| `Executor.GatesInOrder` | executor/engine.py:111-131 | a call runs its legs iff the breaker is not cooling down, the id was not completed within `ttl` and the signal is valid; otherwise the first gate that refuses names the error |
| `Executor.CexFirstAccepts` | executor/engine.py:150-200 | CEX first, on the answers: the DEX is asked iff the CEX fills at least `min_fill_ratio` of the size, less is the partial-fill error, and the trade is done iff the DEX then succeeds |
| `Executor.DexFirstAccepts` | executor/engine.py:202-246 | DEX first, on the answers: its success is leg 1, and the trade is done iff the CEX fills as well |
| `Executor.OutcomeIsRecorded` | executor/engine.py:138-145 | a finished trade adds no failure and leaves no trip, any other counts at its own time or trips; the signal is marked either way |
| `Executor.TradeOutcome` | executor/engine.py:150-246 | DONE iff both legs filled, iff PnL is set, with no unwind; failing after a filled first leg unwinds exactly once, as the last action; failing before it never does |
| `Executor.PnlIsSpreadOnFill` | executor/engine.py:897-917 | the PnL of a finished trade is selling minus buying price on leg 1's fill, less the fee structure's answer or 40 basis points of the dearer value, whichever venue went first; it is a profit only if the sale was dearer |
| `Executor.ExecutionFollowsGraph` | executor/engine.py:40-48 | every call follows the declared states from IDLE to DONE or FAILED and touches a venue only if it passed all gates |
| `Executor.Leg2AsksForLeg1Fill` | executor/engine.py:329 | leg 2 runs only after leg 1 filled and asks for exactly that fill, except that a DEX fill of 0 makes the CEX order use the signal's size |
| `Executor.CexOrdersOfTrade` | executor/engine.py:263-269 | one trade sends at most `leg1_max_retries + 1` CEX orders, all under one order id |
| `Executor.TradeFillsAtMostOnce` | executor/engine.py:263-264 | an exchange that deduplicates order ids fills one trade at most once, and once iff it accepts some attempt |
| `Executor.GivenUpButFilled` | executor/engine.py:269-302 | a CEX leg is given up although the exchange filled it iff the filled attempt's success never comes back; otherwise it counts as filled iff the exchange filled it |
| `Executor.DuplicateGivesUp` | executor/engine.py:26-37 | a retry refused as a duplicate after a lost answer ends the leg for good, with the fill left behind |
| `Executor.GivenUpTradeLeavesFill` | executor/engine.py:150-246 | when a failed trade leaves such a fill on the exchange: CEX first nothing is unwound, DEX first the DEX leg is unwound although both filled |
| `Executor.NoTradeDuringCooldown` | executor/engine.py:114-117 | over every run of calls, after a trip no legs start until more than the cooldown later |
| `Executor.ProbeDecides` | executor/engine.py:142-145 | a trade that ran half-open leaves the breaker fully reset or tripped |
| `Executor.FirstTradeAfterTripProbes` | executor/engine.py:111-145 | the first call to run its legs after a trip is a probe: it trips at once or starts the breaker afresh |
| `Executor.OneTradePerHalfOpen` | executor/engine.py:111-148 | between two half-open trades lies a trip and a whole cooldown |
| `Executor.NoReplayWithinTtl` | executor/engine.py:119-141 | no signal id starts legs again within `ttl` of its last completion |
| `RiskWindow.RiskManager.RecordTrade` | safety/risk.py:106-119 | capital, peak, loss counters and trade times after one trade |
| `RiskWindow.RiskManager.PruneTradeTimes` | safety/risk.py:146-149 | the loop drops the front of the deque while it is older than an hour |
| `RiskWindow.RiskManager.CheckPreTrade` | safety/risk.py:54-104 | resets and prunes, then approves iff all configured limits hold; a peak of 0 is excluded only where the gate reaches the division |
| `RiskWindow.ApprovesExactly` | safety/risk.py:64-104 | the seven limits without quotients |
| `RiskWindow.SmallerTradePasses` | safety/risk.py:86-104 | what passes also passes in a smaller size |
| `RiskWindow.RiskManager.DailyLoss` | safety/risk.py:121-124 | reading the daily loss resets the day first |
| `RiskWindow.RiskManager.SetCurrentCapital` | safety/risk.py:130-132 | assigns the capital and leaves the peak alone |
| `RiskWindow.DequeIsPrunedHistory` | safety/risk.py:119-149 | over every run the deque equals the full trade history since an hour before the last count or check |
| `RiskWindow.DequeSorted` | safety/risk.py:146-149 | the deque stays sorted, which makes pruning from the front a filter |
| `RiskWindow.NoHourExceedsLimit` | safety/risk.py:80-84 | if each trade has a passing count or check of its own, every closed 3600 s window holds at most the limit |
| `RiskWindow.SafetyCheckBoundsEveryHour` | safety/constants.py:46-66 | gated by `safety_check` on the manager's own counters that limit is 30 |
| `RiskWindow.CountersMatchResults` | safety/risk.py:54-144 | over every run of trades, checks, reads and assignments `_consecutive_losses` is the trailing run of losses and `_daily_loss` the sum of losses since the last daily reset, whichever operation made it |
| `RiskWindow.NoResetBeforeMidnight` | safety/risk.py:139-144 | after a reset nothing before the next midnight resets again: the counters cover every trade from there on |
| `RiskWindow.ApprovedRunKeepsLossLimits` | safety/risk.py:54-119 | if each trade has an approval of its own, losses in a row never pass their limit and no day loses more than its limit and one trade on top |
| `RiskWindow.LastGateKeepsDailyLoss` | safety/constants.py:46-66 | `safety_check` alone keeps each day's loss within 20 and one trade on top |
| `RiskWindow.CapitalIsConserved` | safety/risk.py:106-132 | the capital is what was last assigned plus every result since, gains and losses |
| `RiskWindow.PeakIsHighestRecorded` | safety/risk.py:110-111 | over every run the peak is the maximum of the starting peak and the capitals right after each recorded trade |
| `RiskWindow.PeakIsHighestCapital` | safety/risk.py:106-132 | the peak is at least every capital the run has seen iff no assigned capital, nor the starting one, exceeds it |
| `RiskWindow.CapitalNeverAbovePeak` | safety/risk.py:106-132 | the capital stands at or below the peak throughout iff it does at the start and no assignment exceeds the peak of its own moment |
| `RiskWindow.DrawdownNeverNegative` | safety/risk.py:70-71 | and iff so the drawdown compared with its limit never reads negative |
| `RiskWindow.PeakCanMissAssignedCapital` | safety/risk.py:130-132 | capital 100, set to 500, then a loss of 100: the peak reads 400, and so does the capital |
| `Rebalancer.Plan` | inventory/rebalancer.py:240-325 | plans exactly if two venues hold something and one is off an equal share by more than the threshold; then target split and two-pointer loop, required to end by the exact condition below |
| `Rebalancer.GateIsNeedsPlan` | inventory/tracker.py:283-312 | the largest deviation exceeds the threshold iff some venue has `|n * amount - total| * 100 > threshold * n * total` |
| `Rebalancer.LoopEndsExactly` | inventory/rebalancer.py:297-323 | the transfer loop ends iff, going through the sources in order until the deficits are covered, none has zero headroom |
| `Rebalancer.LoopRunsForever` | inventory/rebalancer.py:303-323 | otherwise no number of rounds makes its guard false |
| `Rebalancer.NeverOvershoots` | inventory/rebalancer.py:297-325 | no venue sends more than its surplus or receives more than its deficit |
| `Rebalancer.PlanStaysOnOwnSide` | inventory/rebalancer.py:277-325 | no source drops below its target, no destination passes its target, no venue both sends and receives |
| `Rebalancer.PlansAreWorthwhile` | inventory/rebalancer.py:306-316 | every plan has positive net, meets the minimum withdrawal and fits the source's headroom |
| `Rebalancer.SkippedExactly` | inventory/rebalancer.py:306 | something is skipped iff some round would move less than the minimum withdrawal or no more than the fee |
| `Rebalancer.PlansOfListedAssets` | inventory/rebalancer.py:167-199 | the plans of ETH, USDT, USDC and BTC in their own units |
| `Rebalancer.LandsOnTarget` | inventory/rebalancer.py:297-325 | with balanced lists and nothing skipped every surplus and deficit is worked off exactly |
| `Rebalancer.PlansFollowTheOrder` | inventory/rebalancer.py:297-325 | balanced or not: without skips each list is worked off in order against the total of the other |
| `Rebalancer.PlanSplitsInOrder` | inventory/rebalancer.py:277-325 | whatever the fractions sum to: without skips a venue sends its surplus cut to what the venues listed before it leave of the total deficit, and receives likewise |
| `Rebalancer.PlanReachesTargets` | inventory/rebalancer.py:240-325 | if the fractions sum to 1 and nothing is skipped, every venue ends with exactly its configured fraction of the total, or an equal share, before fees |
| `Rebalancer.EqualSharesSum` | inventory/rebalancer.py:270-272 | equal shares sum to 1, so default targets meet that condition |
| `Rebalancer.TargetsAboveMinimumSuffice` | inventory/rebalancer.py:291-325 | if every overweight venue's target is at least the minimum operating balance, the loop takes at most one round a venue and no source ends below that minimum |
| `Rebalancer.MinimumBalanceKept` | inventory/rebalancer.py:291-304 | a source keeps the minimum if its target does; without skips, iff target and the surplus it keeps do |
| `Rebalancer.MinimumKeptExactly` | inventory/rebalancer.py:277-325 | without skips, for any fractions: a venue ends with the minimum iff it has it and its target has it too or the deficits left for it are no more than it can spare |
| `Rebalancer.TwoTransfersBreakTheMinimum` | inventory/rebalancer.py:301-304 | the headroom is not reduced by earlier transfers: 0.9 ETH is drawn down to 0.45 in two plans |
| `CostBasis.CostBasisTracker.RecordFill` | inventory/tracker.py:63-100 | accepts exactly positive quantities and prices, non-negative fees and a known side; refused fills change nothing; accepted ones are appended and carried into their own position only |
| `CostBasis.UpdatePosition` | inventory/tracker.py:86-100 | the field updates of a buy and of a clipped sell |
| `CostBasis.CostBasisIdentity` | inventory/tracker.py:86-115 | over any fill sequence realized + unrealized PnL at any mark is sell proceeds - buy cost - fees of effective sells + quantity x mark |
| `CostBasis.BooksMatchCash` | inventory/tracker.py:86-100 | quantity is never negative, a flat position has no cost, and realized PnL less book value is the cash moved |
| `CostBasis.AverageWithinPricesPaid` | inventory/tracker.py:89-92 | while open, the average cost lies between the lowest and highest price paid since the position was last flat |
| `CostBasis.TotalFeesAreFeesPaid` | inventory/tracker.py:87 | the fee total counts every accepted fill of the asset |
| `CostBasis.CostBasisTracker.Snapshot` | inventory/pnl.py:71-111 | one row for each position, with its return, and the totals over all positions |
| `CostBasis.RowMeaning` | inventory/pnl.py:78-103 | a row is marked at the given mark, or at cost without one; its total is the cash moved plus the holding at that mark, its fees are all fees paid, its return is how far the mark lies above the average cost |
| `CostBasis.PortfolioIdentity` | inventory/pnl.py:105-111 | the portfolio's net PnL is all cash moved plus all holdings at their marks |

## Left out

- Transport and user interface: web3, ccxt, websocket and HTTP calls, ABI encoding, signing, the
  database, metrics, charts, command lines and `scripts/`.
- Decimal rounding and float error; `UniswapV3Pricer`, which computes in floats only.
- Raised exceptions other than the modelled ones, asyncio scheduling, back-off delays and jitter.
- `_execute_dex_leg_sync`, `_unwind_dex_leg_sync` and the live branch of `_execute_cex_leg`: their
  results are inputs. Rounding of order sizes to trading rules is part of that branch.
- Executor.TradeOutcome: does not claim a flat position after a partial CEX fill below the ratio or
  after a DEX-first timeout, because the code unwinds neither; an unwind is the call, not its effect.
- Executor.OneTradePerHalfOpen: speaks of calls made one after another; interleaved calls can all
  pass a half-open breaker, as `Recovery.HalfOpenPassesEveryCheck` shows.
- Executor.TradeFillsAtMostOnce: assumes the exchange deduplicates order ids.
- Executor.GivenUpTradeLeavesFill: assumes that only the attempt the exchange filled is answered with
  success, and speaks of CEX legs that are given up; how much was filled is not part of it.
- OrderBookMirror.MirrorAgrees: assumes honest events without gaps; the mid price and the spread of
  the exported snapshot are not modelled.
- BookWalk.SlippageClampNeverActs: needs a sorted book with non-negative quantities, which the
  exchange client provides.
- Rebalancer.Plan: requires the condition under which the source returns at all; a run that never
  ends has no result to specify. The minimum balance uses the tracker's balances as they are.
- CostBasis.CostBasisTracker.Snapshot: a position is a value in the map, so callers holding the same
  object do not see updates.
- RiskWindow.SafetyCheckBoundsEveryHour: assumes each recorded trade has a passing check of its own;
  in simulation mode the bot does not make the check.
- AmmV3.TokenZeroInWithinSpot: gives a sufficient condition for not beating spot; that spot is beaten
  whenever it fails is not claimed beyond the single-step trades of `SingleStepPays`.
- OrderBookMirror.BestIsKnownExactlyWhenCovered: assumes some update before the snapshot is in none
  of the stream's events; a stream that reaches back to the market's first update tells more.
- `find_cross_pool_arbitrage`'s pairing loop, `compare_routes`, `depth_at_bps`, `imbalance`,
  `effective_spread`, `WeightRebalancePlanner`, `estimate_cost`, `asset_pnl` and `get_price_impact`:
  expressions and loops that would only add easy members.
- `SignalQueue`, `PriceImpactAnalyzer`, `ChainClient`, fee tables, scoring, logging and nonce
  handling.
- The loop bodies of the searches, of the second legs and of the position update are methods of
  their own here; the source writes them in line.
