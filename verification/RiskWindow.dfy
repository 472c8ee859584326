/** Rate limit, loss counters and hard limits: safety/risk.py and safety/constants.py.
    Monotonic readings (`now`), wall-clock readings (`wall`) and the next midnight are inputs. */
module RiskWindow {
  import opened Common
  import opened NonlinearMath

  const HOUR := 3600.0

  const ABSOLUTE_MAX_TRADE_USD := 25.0
  const ABSOLUTE_MAX_DAILY_LOSS := 20.0
  const ABSOLUTE_MIN_CAPITAL := 50.0
  const ABSOLUTE_MAX_TRADES_PER_HOUR := 30

  datatype Limits = Limits(
    maxTradeUsd: real, maxTradePct: real, maxPositionPerToken: real, maxDailyLoss: real,
    maxDrawdownPct: real, maxTradesPerHour: int, consecutiveLossLimit: int)

  /** The last gate: all four hard limits. */
  predicate SafetyCheck(tradeUsd: real, dailyLoss: real, totalCapital: real, tradesThisHour: int) {
    && tradeUsd <= ABSOLUTE_MAX_TRADE_USD
    && dailyLoss > -ABSOLUTE_MAX_DAILY_LOSS
    && totalCapital >= ABSOLUTE_MIN_CAPITAL
    && tradesThisHour < ABSOLUTE_MAX_TRADES_PER_HOUR
  }

  // ---- the state as a value ----

  datatype Risk = Risk(
    capital: real, peakCapital: real, dailyLoss: real, dailyReset: real, consecutiveLosses: int, tradeTimes: seq<real>)

  /** Dropping from the front while older than the cutoff. */
  function Prune(times: seq<real>, cutoff: real): seq<real> {
    if times == [] || times[0] >= cutoff then times else Prune(times[1..], cutoff)
  }

  function ResetDaily(s: Risk, wall: real, midnight: real): Risk {
    if wall >= s.dailyReset then s.(dailyLoss := 0.0, consecutiveLosses := 0, dailyReset := midnight) else s
  }

  function Recorded(s: Risk, pnl: real, wall: real, midnight: real, now: real): Risk {
    var r := ResetDaily(s, wall, midnight);
    Risk(r.capital + pnl, Max(r.peakCapital, r.capital + pnl),
         if pnl < 0.0 then r.dailyLoss + pnl else r.dailyLoss, r.dailyReset,
         if pnl < 0.0 then r.consecutiveLosses + 1 else 0, r.tradeTimes + [now])
  }

  function Pruned(s: Risk, now: real): Risk {
    s.(tradeTimes := Prune(s.tradeTimes, now - HOUR))
  }

  /** The share of the peak that has been lost. */
  function Drawdown(s: Risk): real
    requires s.peakCapital != 0.0
  {
    (s.peakCapital - s.capital) / s.peakCapital
  }

  /** The checks of the configurable gate, in their order. The daily loss is looked at before the
      drawdown divides by the peak. */
  predicate Approves(l: Limits, s: Risk, size: real, price: real)
    requires s.dailyLoss > -l.maxDailyLoss ==> s.peakCapital != 0.0
  {
    && s.dailyLoss > -l.maxDailyLoss
    && Drawdown(s) < l.maxDrawdownPct
    && s.consecutiveLosses < l.consecutiveLossLimit
    && |s.tradeTimes| < l.maxTradesPerHour
    && size * price <= l.maxTradeUsd
    && (if s.capital > 0.0 then size * price / s.capital else 1.0) <= l.maxTradePct
    && size <= l.maxPositionPerToken
  }

  class RiskManager {
    const limits: Limits
    var capital: real
    var peakCapital: real
    var dailyLoss: real
    var dailyReset: real
    var consecutiveLosses: int
    var tradeTimes: seq<real>

    constructor (limits: Limits, initialCapital: real, midnight: real)
      ensures this.limits == limits && State() == Risk(initialCapital, initialCapital, 0.0, midnight, 0, [])
    {
      this.limits := limits;
      capital, peakCapital := initialCapital, initialCapital;
      dailyLoss, dailyReset, consecutiveLosses, tradeTimes := 0.0, midnight, 0, [];
    }

    function State(): Risk
      reads this
    {
      Risk(capital, peakCapital, dailyLoss, dailyReset, consecutiveLosses, tradeTimes)
    }

    method MaybeResetDaily(wall: real, midnight: real)
      modifies this
      ensures State() == ResetDaily(old(State()), wall, midnight)
    {
      if wall >= dailyReset {
        dailyLoss := 0.0;
        consecutiveLosses := 0;
        dailyReset := midnight;
      }
    }

    method PruneTradeTimes(now: real)
      modifies this`tradeTimes
      ensures State() == Pruned(old(State()), now)
    {
      var cutoff := now - HOUR;
      while tradeTimes != [] && tradeTimes[0] < cutoff
        invariant Prune(tradeTimes, cutoff) == Prune(old(tradeTimes), cutoff)
        decreases |tradeTimes|
      {
        tradeTimes := tradeTimes[1..];
      }
    }

    method RecordTrade(pnl: real, wall: real, midnight: real, now: real)
      modifies this
      ensures State() == Recorded(old(State()), pnl, wall, midnight, now)
    {
      MaybeResetDaily(wall, midnight);
      capital := capital + pnl;
      peakCapital := Max(peakCapital, capital);
      if pnl < 0.0 {
        dailyLoss := dailyLoss + pnl;
        consecutiveLosses := consecutiveLosses + 1;
      } else {
        consecutiveLosses := 0;
      }
      tradeTimes := tradeTimes + [now];
    }

    method TradesThisHour(now: real) returns (n: nat)
      modifies this`tradeTimes
      ensures State() == Pruned(old(State()), now) && n == |tradeTimes|
    {
      PruneTradeTimes(now);
      return |tradeTimes|;
    }

    /** Reading the daily loss resets it first. */
    method DailyLoss(wall: real, midnight: real) returns (loss: real)
      modifies this
      ensures State() == ResetDaily(old(State()), wall, midnight) && loss == dailyLoss
    {
      MaybeResetDaily(wall, midnight);
      return dailyLoss;
    }

    /** The setter leaves the peak alone. */
    method SetCurrentCapital(value: real)
      modifies this`capital
      ensures State() == old(State()).(capital := value)
    {
      capital := value;
    }

    /** A peak of 0 makes the drawdown quotient raise, if the gate gets that far. */
    method CheckPreTrade(size: real, price: real, wall: real, midnight: real, now: real) returns (approved: bool)
      requires ResetDaily(State(), wall, midnight).dailyLoss > -limits.maxDailyLoss ==> peakCapital != 0.0
      modifies this
      ensures State() == Pruned(ResetDaily(old(State()), wall, midnight), now)
      ensures approved == Approves(limits, State(), size, price)
    {
      MaybeResetDaily(wall, midnight);
      PruneTradeTimes(now);
      if dailyLoss <= -limits.maxDailyLoss {
        return false;
      }
      var drawdown := (peakCapital - capital) / peakCapital;
      if drawdown >= limits.maxDrawdownPct {
        return false;
      }
      if consecutiveLosses >= limits.consecutiveLossLimit {
        return false;
      }
      if |tradeTimes| >= limits.maxTradesPerHour {
        return false;
      }
      var tradeUsd := size * price;
      if tradeUsd > limits.maxTradeUsd {
        return false;
      }
      var capitalPct := if capital > 0.0 then tradeUsd / capital else 1.0;
      if capitalPct > limits.maxTradePct {
        return false;
      }
      return size <= limits.maxPositionPerToken;
    }
  }

  // ---- runs ----

  /** What the bot does to the manager. `Count` reads the number of trades this hour, `Check` asks
      for approval, `Record` records a trade, `ReadLoss` reads the daily loss and `SetCapital`
      assigns the capital. Every operation carries the monotonic time at which it happens. */
  datatype Op =
    | Count(now: real)
    | Check(now: real, wall: real, midnight: real)
    | Record(now: real, pnl: real, wall: real, midnight: real)
    | ReadLoss(now: real, wall: real, midnight: real)
    | SetCapital(now: real, value: real)

  function Apply(s: Risk, op: Op): Risk {
    match op
    case Count(now) => Pruned(s, now)
    case Check(now, wall, midnight) => Pruned(ResetDaily(s, wall, midnight), now)
    case Record(now, pnl, wall, midnight) => Recorded(s, pnl, wall, midnight, now)
    case ReadLoss(_, wall, midnight) => ResetDaily(s, wall, midnight)
    case SetCapital(_, value) => s.(capital := value)
  }

  /** The operations that prune the deque and then look at its length. */
  predicate Prunes(op: Op) {
    op.Count? || op.Check?
  }

  function Run(start: Risk, ops: seq<Op>): Risk {
    if ops == [] then start else Apply(Run(start, ops[..|ops| - 1]), ops[|ops| - 1])
  }

  ghost predicate Timed(ops: seq<Op>) {
    forall i, j :: 0 <= i <= j < |ops| ==> ops[i].now <= ops[j].now
  }

  /** The times of all trades ever recorded. */
  function TradeHistory(ops: seq<Op>): seq<real> {
    if ops == [] then []
    else
      var init, op := TradeHistory(ops[..|ops| - 1]), ops[|ops| - 1];
      if op.Record? then init + [op.now] else init
  }

  /** The entries not before a time. */
  function Since(times: seq<real>, from: real): seq<real> {
    if times == [] then []
    else
      var init, last := Since(times[..|times| - 1], from), times[|times| - 1];
      if last >= from then init + [last] else init
  }

  ghost predicate Sorted(times: seq<real>) {
    forall i, j :: 0 <= i <= j < |times| ==> times[i] <= times[j]
  }

  lemma SinceSnoc(times: seq<real>, t: real, from: real)
    ensures Since(times + [t], from) == Since(times, from) + (if t >= from then [t] else [])
  {
    assert (times + [t])[..|times|] == times;
  }

  lemma {:induction false} SinceCons(t: real, times: seq<real>, from: real)
    ensures Since([t] + times, from) == (if t >= from then [t] else []) + Since(times, from)
  {
    if times == [] {
      assert [t] + times == [] + [t];
      SinceSnoc([], t, from);
    } else {
      var n := |times| - 1;
      assert [t] + times == ([t] + times[..n]) + [times[n]];
      SinceSnoc([t] + times[..n], times[n], from);
      SinceCons(t, times[..n], from);
    }
  }

  lemma {:induction false} SinceAllOf(times: seq<real>, from: real)
    requires forall i :: 0 <= i < |times| ==> times[i] >= from
    ensures Since(times, from) == times
  {
    if times != [] {
      var n := |times| - 1;
      SinceAllOf(times[..n], from);
      assert times == times[..n] + [times[n]];
    }
  }

  /** On a sorted deque dropping from the front is filtering. */
  lemma {:induction false} PruneIsSince(times: seq<real>, cutoff: real)
    requires Sorted(times)
    ensures Prune(times, cutoff) == Since(times, cutoff)
  {
    if times != [] {
      if times[0] >= cutoff {
        SinceAllOf(times, cutoff);
      } else {
        PruneIsSince(times[1..], cutoff);
        assert times == [times[0]] + times[1..];
        SinceCons(times[0], times[1..], cutoff);
      }
    }
  }

  lemma {:induction false} SinceSince(times: seq<real>, c: real, d: real)
    requires c <= d
    ensures Since(Since(times, c), d) == Since(times, d)
  {
    if times != [] {
      var n := |times| - 1;
      SinceSince(times[..n], c, d);
      if times[n] >= c {
        SinceSnoc(Since(times[..n], c), times[n], d);
      }
    }
  }

  lemma {:induction false} SinceSorted(times: seq<real>, from: real)
    requires Sorted(times)
    ensures Sorted(Since(times, from))
    ensures forall i :: 0 <= i < |Since(times, from)| ==> times != [] && Since(times, from)[i] <= times[|times| - 1]
  {
    if times != [] {
      SinceSorted(times[..|times| - 1], from);
    }
  }

  /** The time up to which the deque has been pruned by a run. */
  function LastCutoff(ops: seq<Op>): Option<real> {
    if ops == [] then None
    else if Prunes(ops[|ops| - 1]) then Some(ops[|ops| - 1].now - HOUR)
    else LastCutoff(ops[..|ops| - 1])
  }

  function SinceCutoff(times: seq<real>, cutoff: Option<real>): seq<real> {
    if cutoff.Some? then Since(times, cutoff.value) else times
  }

  lemma PruneStep(history: seq<real>, cutoff: Option<real>, to: real)
    requires Sorted(history) && (cutoff.Some? ==> cutoff.value <= to)
    ensures Prune(SinceCutoff(history, cutoff), to) == Since(history, to)
  {
    if cutoff.Some? {
      SinceSorted(history, cutoff.value);
      PruneIsSince(Since(history, cutoff.value), to);
      SinceSince(history, cutoff.value, to);
    } else {
      PruneIsSince(history, to);
    }
  }

  lemma RecordStep(history: seq<real>, cutoff: Option<real>, now: real)
    requires cutoff.Some? ==> cutoff.value <= now
    ensures SinceCutoff(history + [now], cutoff) == SinceCutoff(history, cutoff) + [now]
  {
    if cutoff.Some? {
      SinceSnoc(history, now, cutoff.value);
    }
  }

  ghost predicate NotAfter(times: seq<real>, t: real) {
    forall i :: 0 <= i < |times| ==> times[i] <= t
  }

  lemma {:induction false} HistorySorted(ops: seq<Op>)
    requires Timed(ops)
    ensures Sorted(TradeHistory(ops))
    ensures ops == [] ==> TradeHistory(ops) == []
    ensures ops != [] ==> NotAfter(TradeHistory(ops), ops[|ops| - 1].now)
    ensures ops != [] && LastCutoff(ops).Some? ==> LastCutoff(ops).value <= ops[|ops| - 1].now - HOUR
  {
    if ops != [] {
      var n := |ops| - 1;
      HistorySorted(ops[..n]);
      if n > 0 {
        assert ops[..n][n - 1] == ops[n - 1];
      }
    }
  }

  /** Over every run the deque equals the full trade history, filtered to the hour before the
      last count or check. */
  lemma {:induction false} DequeIsPrunedHistory(start: Risk, ops: seq<Op>)
    requires Timed(ops) && start.tradeTimes == []
    ensures Run(start, ops).tradeTimes == SinceCutoff(TradeHistory(ops), LastCutoff(ops))
  {
    if ops != [] {
      var n := |ops| - 1;
      var init, op := ops[..n], ops[n];
      hide Since, Prune;
      DequeIsPrunedHistory(start, init);
      HistorySorted(init);
      if n > 0 {
        assert init[n - 1] == ops[n - 1];
      }
      if Prunes(op) {
        PruneStep(TradeHistory(init), LastCutoff(init), op.now - HOUR);
      } else if op.Record? {
        RecordStep(TradeHistory(init), LastCutoff(init), op.now);
      }
    }
  }

  /** The deque stays sorted, which is what lets it be pruned from the front. */
  lemma DequeSorted(start: Risk, ops: seq<Op>)
    requires Timed(ops) && start.tradeTimes == []
    ensures Sorted(Run(start, ops).tradeTimes)
  {
    DequeIsPrunedHistory(start, ops);
    HistorySorted(ops);
    if LastCutoff(ops).Some? {
      SinceSorted(TradeHistory(ops), LastCutoff(ops).value);
    }
  }

  // ---- the hourly limit over whole runs ----

  /** Operation `k` is a count or check of its own for the trade recorded at `i`: no other trade
      is recorded in between. */
  ghost predicate OwnCheck(ops: seq<Op>, k: int, i: int) {
    0 <= k < i < |ops| && Prunes(ops[k]) && forall j :: k < j < i ==> !ops[j].Record?
  }

  /** Every recorded trade had its own count, which was below the limit. */
  ghost predicate Gated(start: Risk, ops: seq<Op>, limit: int) {
    forall i :: 0 <= i < |ops| && ops[i].Record? ==>
      exists k :: OwnCheck(ops, k, i) && |Run(start, ops[..k + 1]).tradeTimes| < limit
  }

  /** Trades recorded in the closed window from..to. */
  function InWindow(times: seq<real>, from: real, to: real): nat {
    if times == [] then 0
    else InWindow(times[..|times| - 1], from, to) + (if from <= times[|times| - 1] <= to then 1 else 0)
  }

  lemma {:induction false} InWindowAtMostSince(times: seq<real>, from: real, to: real)
    ensures InWindow(times, from, to) <= |Since(times, from)|
  {
    if times != [] {
      InWindowAtMostSince(times[..|times| - 1], from, to);
    }
  }

  lemma {:induction false} SinceShrinks(times: seq<real>, c: real, d: real)
    requires c <= d
    ensures |Since(times, d)| <= |Since(times, c)|
  {
    if times != [] {
      SinceShrinks(times[..|times| - 1], c, d);
    }
  }

  lemma OwnCheckPrefix(ops: seq<Op>, k: int, i: int)
    requires OwnCheck(ops, k, i) && i < |ops| - 1
    ensures OwnCheck(ops[..|ops| - 1], k, i) && ops[..|ops| - 1][..k + 1] == ops[..k + 1]
  {
  }

  lemma GatedPrefix(start: Risk, ops: seq<Op>, limit: int)
    requires ops != [] && Gated(start, ops, limit)
    ensures Gated(start, ops[..|ops| - 1], limit)
  {
    var init := ops[..|ops| - 1];
    forall i | 0 <= i < |init| && init[i].Record?
      ensures exists k :: OwnCheck(init, k, i) && |Run(start, init[..k + 1]).tradeTimes| < limit
    {
      assert ops[i].Record?;
      var k :| OwnCheck(ops, k, i) && |Run(start, ops[..k + 1]).tradeTimes| < limit;
      OwnCheckPrefix(ops, k, i);
    }
  }

  lemma {:induction false} NoTradeBetween(ops: seq<Op>, m: nat, n: nat)
    requires m <= n <= |ops| && forall j :: m <= j < n ==> !ops[j].Record?
    ensures TradeHistory(ops[..n]) == TradeHistory(ops[..m])
  {
    if m < n {
      NoTradeBetween(ops, m, n - 1);
      assert ops[..n][..n - 1] == ops[..n - 1];
    }
  }

  /** What a count at `k` still sees of the trades made in a window that ends later. */
  lemma CountSeesWindow(start: Risk, ops: seq<Op>, k: nat, from: real)
    requires Timed(ops) && start.tradeTimes == []
    requires k < |ops| && Prunes(ops[k]) && ops[k].now - HOUR <= from
    ensures InWindow(TradeHistory(ops[..k + 1]), from, from + HOUR) <= |Run(start, ops[..k + 1]).tradeTimes|
  {
    var seen := ops[..k + 1];
    assert seen[k] == ops[k];
    DequeIsPrunedHistory(start, seen);
    InWindowAtMostSince(TradeHistory(seen), from, from + HOUR);
    SinceShrinks(TradeHistory(seen), ops[k].now - HOUR, from);
  }

  /** In a gated run no closed hour, wherever it starts, holds more trades than the limit. */
  lemma {:induction false} NoHourExceedsLimit(start: Risk, ops: seq<Op>, limit: nat, from: real)
    requires Timed(ops) && start.tradeTimes == [] && Gated(start, ops, limit)
    ensures InWindow(TradeHistory(ops), from, from + HOUR) <= limit
  {
    if ops == [] {
      NoneInWindow(from);
    } else {
      hide InWindow, TradeHistory, Run;
      var n := |ops| - 1;
      var op := ops[n];
      GatedPrefix(start, ops, limit);
      NoHourExceedsLimit(start, ops[..n], limit, from);
      WindowStep(ops, from);
      if op.Record? && from <= op.now <= from + HOUR {
        var k :| OwnCheck(ops, k, n) && |Run(start, ops[..k + 1]).tradeTimes| < limit;
        assert ops[k].now <= op.now;
        CountSeesWindow(start, ops, k, from);
        NoTradeBetween(ops, k + 1, n);
      }
    }
  }

  lemma NoneInWindow(from: real)
    ensures InWindow(TradeHistory([]), from, from + HOUR) == 0
  {
  }

  lemma WindowStep(ops: seq<Op>, from: real)
    requires ops != []
    ensures var op := ops[|ops| - 1];
            InWindow(TradeHistory(ops), from, from + HOUR)
            == InWindow(TradeHistory(ops[..|ops| - 1]), from, from + HOUR)
               + (if op.Record? && from <= op.now <= from + HOUR then 1 else 0)
  {
    var init, op := TradeHistory(ops[..|ops| - 1]), ops[|ops| - 1];
    if op.Record? {
      assert TradeHistory(ops) == init + [op.now] && (init + [op.now])[..|init|] == init;
    }
  }

  /** Some trade passes the last gate, fed with this state's own counters. */
  ghost predicate LastGatePasses(s: Risk) {
    exists usd: real :: SafetyCheck(usd, s.dailyLoss, s.capital, |s.tradeTimes|)
  }

  /** The last gate, fed with the manager's own counters, bounds every closed hour by its hard
      limit, whatever the other limits are. */
  lemma SafetyCheckBoundsEveryHour(start: Risk, ops: seq<Op>, from: real)
    requires Timed(ops) && start.tradeTimes == []
    requires forall i :: 0 <= i < |ops| && ops[i].Record? ==>
               exists k :: OwnCheck(ops, k, i) && LastGatePasses(Run(start, ops[..k + 1]))
    ensures InWindow(TradeHistory(ops), from, from + HOUR) <= 30
  {
    assert Gated(start, ops, ABSOLUTE_MAX_TRADES_PER_HOUR);
    NoHourExceedsLimit(start, ops, ABSOLUTE_MAX_TRADES_PER_HOUR, from);
  }

  // ---- the loss counter ----

  /** Recording, checking and reading the loss all reset the day first, once midnight has come. */
  predicate Resets(s: Risk, op: Op) {
    (op.Record? || op.Check? || op.ReadLoss?) && op.wall >= s.dailyReset
  }

  /** Results since the last daily reset, oldest first. */
  function ResultsSinceReset(start: Risk, ops: seq<Op>): seq<real> {
    if ops == [] then []
    else
      NextResults(Run(start, ops[..|ops| - 1]), ops[|ops| - 1], ResultsSinceReset(start, ops[..|ops| - 1]))
  }

  function NextResults(s: Risk, op: Op, results: seq<real>): seq<real> {
    var kept := if Resets(s, op) then [] else results;
    if op.Record? then kept + [op.pnl] else kept
  }

  /** Length of the run of losses at the end. */
  function TrailingLosses(results: seq<real>): nat {
    if results == [] || results[|results| - 1] >= 0.0 then 0
    else 1 + TrailingLosses(results[..|results| - 1])
  }

  function LossSum(results: seq<real>): real {
    if results == [] then 0.0
    else LossSum(results[..|results| - 1]) + (if results[|results| - 1] < 0.0 then results[|results| - 1] else 0.0)
  }

  lemma NextResult(results: seq<real>, pnl: real)
    ensures TrailingLosses(results + [pnl]) == if pnl < 0.0 then TrailingLosses(results) + 1 else 0
    ensures LossSum(results + [pnl]) == LossSum(results) + if pnl < 0.0 then pnl else 0.0
  {
    assert (results + [pnl])[..|results|] == results;
  }

  lemma NoResults()
    ensures TrailingLosses([]) == 0 && LossSum([]) == 0.0
  {
  }

  /** The counters are functions of the results since the last reset: the trailing run of losses,
      and the sum of all losses. */
  lemma {:induction false} CountersMatchResults(start: Risk, ops: seq<Op>)
    requires start.consecutiveLosses == 0 && start.dailyLoss == 0.0
    ensures Run(start, ops).consecutiveLosses == TrailingLosses(ResultsSinceReset(start, ops))
    ensures Run(start, ops).dailyLoss == LossSum(ResultsSinceReset(start, ops))
  {
    hide TrailingLosses, LossSum;
    if ops == [] {
      NoResults();
    } else {
      var init := ops[..|ops| - 1];
      CountersMatchResults(start, init);
      CounterStep(Run(start, init), ops[|ops| - 1], ResultsSinceReset(start, init));
    }
  }

  lemma CounterStep(s: Risk, op: Op, results: seq<real>)
    requires s.consecutiveLosses == TrailingLosses(results) && s.dailyLoss == LossSum(results)
    ensures Apply(s, op).consecutiveLosses == TrailingLosses(NextResults(s, op, results))
    ensures Apply(s, op).dailyLoss == LossSum(NextResults(s, op, results))
  {
    hide TrailingLosses, LossSum, Prune;
    NoResults();
    if op.Record? {
      NextResult(if Resets(s, op) then [] else results, op.pnl);
    }
  }

  // ---- the day ----

  /** The results of all trades, oldest first. */
  function Results(ops: seq<Op>): seq<real> {
    if ops == [] then []
    else
      var init, op := Results(ops[..|ops| - 1]), ops[|ops| - 1];
      if op.Record? then init + [op.pnl] else init
  }

  /** The operations that look at the wall clock. */
  predicate LooksAtWall(op: Op) {
    op.Record? || op.Check? || op.ReadLoss?
  }

  /** Once the day has been reset, nothing made before the next midnight resets it again: the counters
      cover every trade from that reset on. */
  lemma {:induction false} NoResetBeforeMidnight(start: Risk, ops: seq<Op>, k: nat)
    requires k < |ops| && LooksAtWall(ops[k]) && ops[k].wall >= Run(start, ops[..k]).dailyReset
    requires forall j :: k < j < |ops| && LooksAtWall(ops[j]) ==> ops[j].wall < ops[k].midnight
    ensures Run(start, ops).dailyReset == ops[k].midnight
    ensures ResultsSinceReset(start, ops) == Results(ops[k..])
    decreases |ops|
  {
    var n := |ops| - 1;
    var init, op := ops[..n], ops[n];
    hide Prune;
    if k == n {
      assert ops[k..] == [op] && ops[k..][..0] == [];
    } else {
      assert init[..k] == ops[..k] && init[k] == ops[k];
      NoResetBeforeMidnight(start, init, k);
      assert ops[k..][..|ops[k..]| - 1] == init[k..] && ops[k..][|ops[k..]| - 1] == op;
    }
  }

  // ---- the capital ----

  /** The capital last assigned, or the starting one. */
  function LastAssigned(start: Risk, ops: seq<Op>): real {
    if ops == [] then start.capital
    else if ops[|ops| - 1].SetCapital? then ops[|ops| - 1].value
    else LastAssigned(start, ops[..|ops| - 1])
  }

  /** All results since the capital was last assigned, gains and losses, added up. */
  function EarnedSince(ops: seq<Op>): real {
    if ops == [] || ops[|ops| - 1].SetCapital? then 0.0
    else EarnedSince(ops[..|ops| - 1]) + (if ops[|ops| - 1].Record? then ops[|ops| - 1].pnl else 0.0)
  }

  /** Nothing else moves the capital: it is what was last assigned and all that was earned since. */
  lemma {:induction false} CapitalIsConserved(start: Risk, ops: seq<Op>)
    ensures Run(start, ops).capital == LastAssigned(start, ops) + EarnedSince(ops)
  {
    if ops != [] {
      CapitalIsConserved(start, ops[..|ops| - 1]);
    }
  }

  // ---- one approval ----

  /** The limits without quotients; `usd` is what the trade is worth. */
  ghost predicate WithinLimits(l: Limits, s: Risk, size: real, usd: real) {
    && s.dailyLoss > -l.maxDailyLoss
    && s.peakCapital - s.capital < l.maxDrawdownPct * s.peakCapital
    && s.consecutiveLosses < l.consecutiveLossLimit
    && |s.tradeTimes| < l.maxTradesPerHour
    && usd <= l.maxTradeUsd
    && (if s.capital > 0.0 then usd <= l.maxTradePct * s.capital else 1.0 <= l.maxTradePct)
    && size <= l.maxPositionPerToken
  }

  /** With a positive peak they are exactly what is approved. */
  lemma ApprovesExactly(l: Limits, s: Risk, size: real, price: real)
    requires s.peakCapital > 0.0
    ensures Approves(l, s, size, price)
       <==> WithinLimits(l, s, size, size * price)
  {
    QuotientBelow(s.peakCapital - s.capital, s.peakCapital, l.maxDrawdownPct);
    if s.capital > 0.0 {
      QuotientBelow(l.maxTradePct * s.capital, s.capital, size * price / s.capital);
      RQuotient(size * price, s.capital);
      RQuotient(l.maxTradePct * s.capital, s.capital);
      RCancel(l.maxTradePct * s.capital / s.capital, l.maxTradePct, s.capital);
    }
  }

  lemma QuotientBelow(a: real, b: real, c: real)
    requires 0.0 < b
    ensures a / b < c <==> a < c * b
  {
    RQuotient(a, b);
    RCompare(c, a / b, b);
  }

  /** What passes also passes in a smaller size. */
  lemma SmallerTradePasses(l: Limits, s: Risk, size: real, smaller: real, price: real)
    requires s.peakCapital > 0.0 && smaller <= size && 0.0 <= price
    requires Approves(l, s, size, price)
    ensures Approves(l, s, smaller, price)
  {
    hide Approves, WithinLimits;
    RMulMono(smaller, size, price);
    ApprovesExactly(l, s, size, price);
    ApprovesExactly(l, s, smaller, price);
    LessIsWithin(l, s, size, smaller, size * price, smaller * price);
  }

  lemma LessIsWithin(l: Limits, s: Risk, size: real, smaller: real, usd: real, less: real)
    requires smaller <= size && less <= usd && WithinLimits(l, s, size, usd)
    ensures WithinLimits(l, s, smaller, less)
  {
  }

  // ---- approval over whole runs ----

  /** Some trade passes the configurable gate in this state. */
  ghost predicate SomeTradePasses(l: Limits, s: Risk) {
    s.peakCapital != 0.0 && exists size, price :: Approves(l, s, size, price)
  }

  /** Every recorded trade had an approval of its own. */
  ghost predicate Approved(start: Risk, ops: seq<Op>, l: Limits) {
    forall i :: 0 <= i < |ops| && ops[i].Record? ==>
      exists k :: OwnCheck(ops, k, i) && SomeTradePasses(l, Run(start, ops[..k + 1]))
  }

  lemma ApprovedPrefix(start: Risk, ops: seq<Op>, l: Limits)
    requires ops != [] && Approved(start, ops, l)
    ensures Approved(start, ops[..|ops| - 1], l)
  {
    var init := ops[..|ops| - 1];
    forall i | 0 <= i < |init| && init[i].Record?
      ensures exists k :: OwnCheck(init, k, i) && SomeTradePasses(l, Run(start, init[..k + 1]))
    {
      assert ops[i].Record?;
      var k :| OwnCheck(ops, k, i) && SomeTradePasses(l, Run(start, ops[..k + 1]));
      OwnCheckPrefix(ops, k, i);
    }
  }

  lemma {:induction false} NoTradeKeepsCounters(start: Risk, ops: seq<Op>, m: nat, n: nat)
    requires m <= n <= |ops| && forall j :: m <= j < n ==> !ops[j].Record?
    ensures var a, b := Run(start, ops[..m]), Run(start, ops[..n]);
            || (b.dailyLoss == a.dailyLoss && b.consecutiveLosses == a.consecutiveLosses)
            || (b.dailyLoss == 0.0 && b.consecutiveLosses == 0)
  {
    if m < n {
      NoTradeKeepsCounters(start, ops, m, n - 1);
      assert ops[..n][..n - 1] == ops[..n - 1];
    }
  }

  lemma {:induction false} CounterSigns(start: Risk, ops: seq<Op>)
    requires start.dailyLoss <= 0.0 && 0 <= start.consecutiveLosses
    ensures Run(start, ops).dailyLoss <= 0.0 && 0 <= Run(start, ops).consecutiveLosses
  {
    if ops != [] {
      CounterSigns(start, ops[..|ops| - 1]);
    }
  }

  /** If every trade had its own approval, no day loses more than the limit and one trade on top,
      and the losses in a row never pass their limit. */
  lemma {:induction false} ApprovedRunKeepsLossLimits(start: Risk, ops: seq<Op>, l: Limits, worst: real)
    requires start.consecutiveLosses == 0 && start.dailyLoss == 0.0 && Approved(start, ops, l)
    requires 0.0 <= worst && forall i :: 0 <= i < |ops| && ops[i].Record? ==> ops[i].pnl >= -worst
    ensures var s := Run(start, ops);
            && (s.dailyLoss == 0.0 || s.dailyLoss > -l.maxDailyLoss - worst)
            && (s.consecutiveLosses == 0 || s.consecutiveLosses <= l.consecutiveLossLimit)
  {
    if ops != [] {
      var n := |ops| - 1;
      ApprovedPrefix(start, ops, l);
      ApprovedRunKeepsLossLimits(start, ops[..n], l, worst);
      if ops[n].Record? {
        var k :| OwnCheck(ops, k, n) && SomeTradePasses(l, Run(start, ops[..k + 1]));
        NoTradeKeepsCounters(start, ops, k + 1, n);
        CounterSigns(start, ops[..k + 1]);
        RecordKeepsLossLimits(l, Run(start, ops[..k + 1]), Run(start, ops[..n]), ops[n], worst);
      } else {
        hide Run;
        NoTradeKeepsCounters(start, ops, n, |ops|);
        assert ops[..|ops|] == ops;
      }
    }
  }

  /** `a` is the state that was approved, `b` the one in which the trade is recorded. */
  lemma RecordKeepsLossLimits(l: Limits, a: Risk, b: Risk, op: Op, worst: real)
    requires SomeTradePasses(l, a) && a.dailyLoss <= 0.0 && 0 <= a.consecutiveLosses
    requires (b.dailyLoss == a.dailyLoss && b.consecutiveLosses == a.consecutiveLosses)
             || (b.dailyLoss == 0.0 && b.consecutiveLosses == 0)
    requires op.Record? && 0.0 <= worst && op.pnl >= -worst
    ensures var s := Apply(b, op);
            && (s.dailyLoss == 0.0 || s.dailyLoss > -l.maxDailyLoss - worst)
            && (s.consecutiveLosses == 0 || s.consecutiveLosses <= l.consecutiveLossLimit)
  {
    var size, price :| Approves(l, a, size, price);
    hide Drawdown;
  }

  /** The last gate alone, asked for every trade, keeps every day's loss within 20 and one trade on
      top. */
  lemma {:induction false} LastGateKeepsDailyLoss(start: Risk, ops: seq<Op>, worst: real)
    requires start.dailyLoss == 0.0 && 0 <= start.consecutiveLosses && 0.0 <= worst
    requires forall i :: 0 <= i < |ops| && ops[i].Record? ==>
               exists k :: OwnCheck(ops, k, i) && LastGatePasses(Run(start, ops[..k + 1]))
    requires forall i :: 0 <= i < |ops| && ops[i].Record? ==> ops[i].pnl >= -worst
    ensures Run(start, ops).dailyLoss == 0.0 || Run(start, ops).dailyLoss > -20.0 - worst
  {
    if ops != [] {
      var n := |ops| - 1;
      var init := ops[..n];
      forall i | 0 <= i < n && init[i].Record?
        ensures exists k :: OwnCheck(init, k, i) && LastGatePasses(Run(start, init[..k + 1]))
      {
        assert ops[i].Record?;
        var k :| OwnCheck(ops, k, i) && LastGatePasses(Run(start, ops[..k + 1]));
        OwnCheckPrefix(ops, k, i);
      }
      LastGateKeepsDailyLoss(start, init, worst);
      if ops[n].Record? {
        var k :| OwnCheck(ops, k, n) && LastGatePasses(Run(start, ops[..k + 1]));
        NoTradeKeepsCounters(start, ops, k + 1, n);
        CounterSigns(start, ops[..k + 1]);
        RecordAfterLastGate(Run(start, ops[..k + 1]), Run(start, init), ops[n], worst);
      } else {
        hide Run;
        NoTradeKeepsCounters(start, ops, n, |ops|);
        assert ops[..|ops|] == ops;
      }
    }
  }

  lemma RecordAfterLastGate(a: Risk, b: Risk, op: Op, worst: real)
    requires LastGatePasses(a) && a.dailyLoss <= 0.0
    requires b.dailyLoss == a.dailyLoss || b.dailyLoss == 0.0
    requires op.Record? && 0.0 <= worst && op.pnl >= -worst
    ensures Apply(b, op).dailyLoss == 0.0 || Apply(b, op).dailyLoss > -20.0 - worst
  {
  }

  /** The hard limits themselves. */
  lemma HardLimits(tradeUsd: real, s: Risk)
    ensures SafetyCheck(tradeUsd, s.dailyLoss, s.capital, |s.tradeTimes|)
       <==> tradeUsd <= 25.0 && s.dailyLoss > -20.0 && s.capital >= 50.0 && |s.tradeTimes| < 30
  {
  }

  // ---- the peak ----

  /** The capital right after each recorded trade. */
  function RecordedCapitals(start: Risk, ops: seq<Op>): seq<real> {
    if ops == [] then []
    else
      var init := RecordedCapitals(start, ops[..|ops| - 1]);
      if ops[|ops| - 1].Record? then init + [Run(start, ops).capital] else init
  }

  /** Over every run the peak is the maximum of the starting peak and the capitals right after each
      recorded trade. */
  lemma {:induction false} PeakIsHighestRecorded(start: Risk, ops: seq<Op>)
    ensures var peak, seen := Run(start, ops).peakCapital, [start.peakCapital] + RecordedCapitals(start, ops);
            peak in seen && forall c :: c in seen ==> c <= peak
  {
    if ops != [] {
      var n := |ops| - 1;
      PeakIsHighestRecorded(start, ops[..n]);
      var before, after := RecordedCapitals(start, ops[..n]), RecordedCapitals(start, ops);
      assert forall c :: c in [start.peakCapital] + after ==>
        c in [start.peakCapital] + before || (ops[n].Record? && c == Run(start, ops).capital);
      assert forall c :: c in [start.peakCapital] + before ==> c in [start.peakCapital] + after;
      if ops[n].Record? {
        assert Run(start, ops).capital in after;
      }
    }
  }

  /** Every assigned capital, and the one the run started with, stays within the peak. */
  ghost predicate AssignedWithin(start: Risk, ops: seq<Op>, peak: real) {
    start.capital <= peak && forall i :: 0 <= i < |ops| && ops[i].SetCapital? ==> ops[i].value <= peak
  }

  lemma {:induction false} CapitalWithin(start: Risk, ops: seq<Op>, j: nat, peak: real)
    requires j <= |ops| && AssignedWithin(start, ops, peak) && Run(start, ops[..j]).peakCapital <= peak
    ensures Run(start, ops[..j]).capital <= peak
  {
    if j > 0 {
      assert ops[..j][..j - 1] == ops[..j - 1] && ops[..j][j - 1] == ops[j - 1];
      CapitalWithin(start, ops, j - 1, peak);
    }
  }

  lemma {:induction false} PeakNeverFalls(start: Risk, ops: seq<Op>, j: nat)
    requires j <= |ops|
    ensures Run(start, ops[..j]).peakCapital <= Run(start, ops).peakCapital
  {
    if j == |ops| {
      assert ops[..j] == ops;
    } else {
      PeakNeverFalls(start, ops[..|ops| - 1], j);
      assert ops[..|ops| - 1][..j] == ops[..j];
    }
  }

  /** The peak is at least every capital the run has seen exactly when no assigned capital, nor the
      one it started with, exceeds it. */
  lemma PeakIsHighestCapital(start: Risk, ops: seq<Op>)
    ensures var peak := Run(start, ops).peakCapital;
            (forall j :: 0 <= j <= |ops| ==> Run(start, ops[..j]).capital <= peak) <==> AssignedWithin(start, ops, peak)
  {
    var peak := Run(start, ops).peakCapital;
    if forall j :: 0 <= j <= |ops| ==> Run(start, ops[..j]).capital <= peak {
      assert Run(start, ops[..0]).capital <= peak;
      forall i | 0 <= i < |ops| && ops[i].SetCapital?
        ensures ops[i].value <= peak
      {
        assert ops[..i + 1][..i] == ops[..i] && ops[..i + 1][i] == ops[i];
        assert Run(start, ops[..i + 1]).capital == ops[i].value;
      }
    }
    if AssignedWithin(start, ops, peak) {
      forall j | 0 <= j <= |ops|
        ensures Run(start, ops[..j]).capital <= peak
      {
        PeakNeverFalls(start, ops, j);
        CapitalWithin(start, ops, j, peak);
      }
    }
  }

  /** No assignment lifts the capital above the peak of its own moment. */
  ghost predicate AssignsWithinPeak(start: Risk, ops: seq<Op>) {
    forall i :: 0 <= i < |ops| && ops[i].SetCapital? ==> ops[i].value <= Run(start, ops[..i]).peakCapital
  }

  lemma {:induction false} CapitalWithinOwnPeak(start: Risk, ops: seq<Op>, j: nat)
    requires j <= |ops| && start.capital <= start.peakCapital && AssignsWithinPeak(start, ops)
    ensures Run(start, ops[..j]).capital <= Run(start, ops[..j]).peakCapital
  {
    if j > 0 {
      assert ops[..j][..j - 1] == ops[..j - 1] && ops[..j][j - 1] == ops[j - 1];
      CapitalWithinOwnPeak(start, ops, j - 1);
    }
  }

  /** What a caller can check at each assignment: the capital never stands above the peak exactly
      when it did not at the start and no assignment lifts it there. */
  lemma CapitalNeverAbovePeak(start: Risk, ops: seq<Op>)
    ensures (forall j :: 0 <= j <= |ops| ==> Run(start, ops[..j]).capital <= Run(start, ops[..j]).peakCapital)
       <==> start.capital <= start.peakCapital && AssignsWithinPeak(start, ops)
  {
    if forall j :: 0 <= j <= |ops| ==> Run(start, ops[..j]).capital <= Run(start, ops[..j]).peakCapital {
      assert Run(start, ops[..0]).capital <= Run(start, ops[..0]).peakCapital;
      forall i | 0 <= i < |ops| && ops[i].SetCapital?
        ensures ops[i].value <= Run(start, ops[..i]).peakCapital
      {
        assert ops[..i + 1][..i] == ops[..i] && ops[..i + 1][i] == ops[i];
        assert Run(start, ops[..i + 1]).capital <= Run(start, ops[..i + 1]).peakCapital;
      }
    }
    if start.capital <= start.peakCapital && AssignsWithinPeak(start, ops) {
      forall j | 0 <= j <= |ops|
        ensures Run(start, ops[..j]).capital <= Run(start, ops[..j]).peakCapital
      {
        CapitalWithinOwnPeak(start, ops, j);
      }
    }
  }

  lemma DrawdownSign(s: Risk)
    requires 0.0 < s.peakCapital
    ensures 0.0 <= Drawdown(s) <==> s.capital <= s.peakCapital
  {
    RQuotientSign(s.peakCapital - s.capital, s.peakCapital);
  }

  /** And that is exactly when the drawdown the gate compares never reads negative. */
  lemma DrawdownNeverNegative(start: Risk, ops: seq<Op>)
    requires 0.0 < start.peakCapital
    ensures forall j :: 0 <= j <= |ops| ==> 0.0 < Run(start, ops[..j]).peakCapital
    ensures (forall j :: 0 <= j <= |ops| ==> 0.0 <= Drawdown(Run(start, ops[..j])))
       <==> start.capital <= start.peakCapital && AssignsWithinPeak(start, ops)
  {
    CapitalNeverAbovePeak(start, ops);
    forall j | 0 <= j <= |ops|
      ensures 0.0 < Run(start, ops[..j]).peakCapital
      ensures 0.0 <= Drawdown(Run(start, ops[..j]))
         <==> Run(start, ops[..j]).capital <= Run(start, ops[..j]).peakCapital
    {
      assert ops[..j][..0] == [];
      PeakNeverFalls(start, ops[..j], 0);
      DrawdownSign(Run(start, ops[..j]));
    }
  }

  /** The setter can leave the peak below a capital that was seen: 100, set to 500, then a loss of
      100. The peak reads 400, and so does the capital, a fifth below its highest. */
  lemma PeakCanMissAssignedCapital(start: Risk, midnight: real)
    requires start == Risk(100.0, 100.0, 0.0, midnight, 0, [])
    ensures var ops := [SetCapital(0.0, 500.0), Record(1.0, -100.0, midnight - 1.0, midnight)];
            && Run(start, ops[..1]).capital == 500.0
            && Run(start, ops).capital == 400.0 == Run(start, ops).peakCapital
  {
    var first := [SetCapital(0.0, 500.0)];
    var ops := first + [Record(1.0, -100.0, midnight - 1.0, midnight)];
    assert first[..0] == [] && ops[..1] == first;
  }
}
