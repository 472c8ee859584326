/** The two-leg executor: executor/engine.py. What the venues answer, and every clock reading,
    are inputs; raised exceptions other than timeouts are not modelled. */
module Executor {
  import opened Common
  import opened NonlinearMath
  import opened Recovery

  datatype State = Idle | Validating | Leg1Pending | Leg1Filled | Leg2Pending | Done | Failed | Unwinding

  datatype Direction = BuyCexSellDex | BuyDexSellCex

  datatype Venue = Cex | Dex

  datatype Signal = Signal(
    id: string, direction: Direction, size: real, expiry: real, inventoryOk: bool, withinLimits: bool)

  datatype Config = Config(
    minFillRatio: real, useFlashbots: bool, maxRetries: int, feeUsd: Option<real -> real>)

  datatype Fill = Fill(price: real, filled: real)

  /** The answer to one order: the awaited call may also time out. */
  datatype Answer = Timeout | Answer(success: bool, fill: Fill, error: string)

  /** What the venues would answer during one trade, attempt by attempt on the CEX. */
  datatype Venues = Venues(cex: nat -> Answer, dex: Answer, orderId: string)

  datatype Action = SubmitCex(orderId: string, size: real) | SubmitDex(size: real) | Unwind

  datatype TradeError =
    | BreakerOpen
    | DuplicateSignal
    | SignalInvalid
    | CexError(cause: string)
    | PartialFill
    | DexTimeout
    | DexError(cause: string)
    | DexTimeoutUnwound
    | DexFailedUnwound
    | CexFailedUnwound(cause: string)

  /** Everything observable about one execution. */
  datatype Trade = Trade(
    trail: seq<State>, actions: seq<Action>, leg1: Option<Fill>, leg2: Option<Fill>,
    pnl: Option<real>, error: Option<TradeError>)

  // ---- permanent errors ----

  const PERMANENT: seq<string> :=
    ["insufficient", "balance", "rejected", "invalid", "forbidden", "not found", "duplicate", "permission"]

  function Lower(s: string): string {
    seq(|s|, i requires 0 <= i < |s| => if 'A' <= s[i] <= 'Z' then s[i] - 'A' + 'a' else s[i])
  }

  predicate Contains(s: string, part: string) {
    exists i :: 0 <= i <= |s| && part <= s[i..]
  }

  predicate IsPermanent(error: string) {
    exists k :: 0 <= k < |PERMANENT| && Contains(Lower(error), PERMANENT[k])
  }

  /** One of the eight words, in any letter case. */
  predicate IsPermanentWord(w: string) {
    Lower(w) in {"insufficient", "balance", "rejected", "invalid", "forbidden", "not found", "duplicate", "permission"}
  }

  lemma LowerOfPart(s: string, i: nat, j: nat)
    requires i <= j <= |s|
    ensures Lower(s)[i..j] == Lower(s[i..j])
  {
  }

  /** An error is permanent exactly if such a word stands somewhere in it. */
  lemma PermanentExactly(error: string)
    ensures IsPermanent(error) <==> exists i, j :: 0 <= i <= j <= |error| && IsPermanentWord(error[i..j])
  {
    hide Lower;
    var low := Lower(error);
    LowerLength(error);
    if IsPermanent(error) {
      var k :| 0 <= k < |PERMANENT| && Contains(low, PERMANENT[k]);
      var i :| 0 <= i <= |low| && PERMANENT[k] <= low[i..];
      var j := i + |PERMANENT[k]|;
      LowerOfPart(error, i, j);
      assert low[i..j] == PERMANENT[k];
      assert IsPermanentWord(error[i..j]);
    }
    if exists i, j :: 0 <= i <= j <= |error| && IsPermanentWord(error[i..j]) {
      var i, j :| 0 <= i <= j <= |error| && IsPermanentWord(error[i..j]);
      LowerOfPart(error, i, j);
      var k := WordListed(error[i..j]);
      assert PERMANENT[k] == low[i..j] <= low[i..];
      assert Contains(low, PERMANENT[k]);
    }
  }

  lemma WordListed(w: string) returns (k: nat)
    requires IsPermanentWord(w)
    ensures k < |PERMANENT| && PERMANENT[k] == Lower(w)
  {
    assert PERMANENT[0] == "insufficient" && PERMANENT[1] == "balance" && PERMANENT[2] == "rejected";
    assert PERMANENT[3] == "invalid" && PERMANENT[4] == "forbidden" && PERMANENT[5] == "not found";
    assert PERMANENT[6] == "duplicate" && PERMANENT[7] == "permission";
    k :| 0 <= k < |PERMANENT| && PERMANENT[k] == Lower(w);
  }

  lemma LowerLength(s: string)
    ensures |Lower(s)| == |s|
  {
  }

  /** Letter case does not matter. */
  lemma CaseDoesNotMatter(a: string, b: string)
    requires |a| == |b|
    requires forall i :: 0 <= i < |a| ==>
               a[i] == b[i] || ('A' <= a[i] <= 'Z' && b[i] == a[i] - 'A' + 'a')
               || ('A' <= b[i] <= 'Z' && a[i] == b[i] - 'A' + 'a')
    ensures IsPermanent(a) <==> IsPermanent(b)
  {
    assert Lower(a) == Lower(b);
  }

  // ---- the retry loop ----

  datatype Retried = Filled(fill: Fill, attempts: nat) | GaveUp(cause: string, attempts: nat)

  predicate Succeeds(a: Answer) {
    a.Answer? && a.success
  }

  predicate FailsForGood(a: Answer) {
    a.Answer? && !a.success && IsPermanent(a.error)
  }

  function Cause(a: Answer): string {
    if a.Timeout? then "CEX timeout" else a.error
  }

  /** The loop from attempt `k` on, with the error remembered so far. */
  function Retry(cex: nat -> Answer, maxRetries: int, k: nat, lastError: string): Retried
    decreases if k <= maxRetries then maxRetries + 1 - k else 0
  {
    if k > maxRetries then GaveUp(lastError, k)
    else if Succeeds(cex(k)) then Filled(cex(k).fill, k + 1)
    else if FailsForGood(cex(k)) then GaveUp(cex(k).error, k + 1)
    else Retry(cex, maxRetries, k + 1, Cause(cex(k)))
  }

  /** A missing or zero size falls back to the signal's. */
  function OrderSize(size: Option<real>, signal: Signal): real {
    if size.Some? && size.value != 0.0 then size.value else signal.size
  }

  function Orders(n: nat, orderId: string, size: real): seq<Action> {
    seq(n, _ => SubmitCex(orderId, size))
  }

  // ---- one trade as a function of what the venues answer ----

  function Pnl(cfg: Config, signal: Signal, leg1Venue: Venue, leg1: Fill, leg2: Fill): real {
    var cexPrice := if leg1Venue == Cex then leg1.price else leg2.price;
    var dexPrice := if leg1Venue == Cex then leg2.price else leg1.price;
    var gross := (if signal.direction == BuyDexSellCex then cexPrice - dexPrice else dexPrice - cexPrice) * leg1.filled;
    gross - Fees(cfg, TradeValue(leg1, cexPrice))
  }

  function TradeValue(leg1: Fill, cexPrice: real): real {
    leg1.filled * Max(cexPrice, leg1.price)
  }

  function Fees(cfg: Config, tradeValue: real): real {
    if cfg.feeUsd.Some? then cfg.feeUsd.value(tradeValue) else tradeValue * 0.004
  }

  /** The CEX-first order divides by the signal's size once leg 1 has filled. */
  predicate CexDivisible(cfg: Config, signal: Signal, v: Venues) {
    signal.size != 0.0 || Retry(v.cex, cfg.maxRetries, 0, "CEX timeout").GaveUp?
  }

  function CexFirst(cfg: Config, signal: Signal, v: Venues): Trade
    requires CexDivisible(cfg, signal, v)
  {
    var leg1 := Retry(v.cex, cfg.maxRetries, 0, "CEX timeout");
    var orders := Orders(leg1.attempts, v.orderId, OrderSize(None, signal));
    if leg1.GaveUp? then
      Trade([Leg1Pending, Failed], orders, None, None, None, Some(CexError(leg1.cause)))
    else if leg1.fill.filled / signal.size < cfg.minFillRatio then
      Trade([Leg1Pending, Failed], orders, None, None, None, Some(PartialFill))
    else
      var sent := orders + [SubmitDex(leg1.fill.filled)];
      if v.dex.Timeout? then
        Trade([Leg1Pending, Leg1Filled, Leg2Pending, Unwinding, Failed], sent + [Unwind],
              Some(leg1.fill), None, None, Some(DexTimeoutUnwound))
      else if !v.dex.success then
        Trade([Leg1Pending, Leg1Filled, Leg2Pending, Unwinding, Failed], sent + [Unwind],
              Some(leg1.fill), None, None, Some(DexFailedUnwound))
      else
        Trade([Leg1Pending, Leg1Filled, Leg2Pending, Done], sent,
              Some(leg1.fill), Some(v.dex.fill), Some(Pnl(cfg, signal, Cex, leg1.fill, v.dex.fill)), None)
  }

  function DexFirst(cfg: Config, signal: Signal, v: Venues): Trade {
    var sent := [SubmitDex(signal.size)];
    if v.dex.Timeout? then Trade([Leg1Pending, Failed], sent, None, None, None, Some(DexTimeout))
    else if !v.dex.success then Trade([Leg1Pending, Failed], sent, None, None, None, Some(DexError(v.dex.error)))
    else
      var leg2 := Retry(v.cex, cfg.maxRetries, 0, "CEX timeout");
      var sent2 := sent + Orders(leg2.attempts, v.orderId, OrderSize(Some(v.dex.fill.filled), signal));
      if leg2.GaveUp? then
        Trade([Leg1Pending, Leg1Filled, Leg2Pending, Unwinding, Failed], sent2 + [Unwind],
              Some(v.dex.fill), None, None, Some(CexFailedUnwound(leg2.cause)))
      else
        Trade([Leg1Pending, Leg1Filled, Leg2Pending, Done], sent2,
              Some(v.dex.fill), Some(leg2.fill), Some(Pnl(cfg, signal, Dex, v.dex.fill, leg2.fill)), None)
  }

  /** The legs can be carried out without dividing by 0. */
  predicate Divisible(cfg: Config, signal: Signal, v: Venues) {
    cfg.useFlashbots || CexDivisible(cfg, signal, v)
  }

  function Legs(cfg: Config, signal: Signal, v: Venues): Trade
    requires Divisible(cfg, signal, v)
  {
    if cfg.useFlashbots then DexFirst(cfg, signal, v) else CexFirst(cfg, signal, v)
  }

  const NO_LEGS := Trade([], [], None, None, None, None)

  /** What the legs do if they are started at all. */
  function LegsIfRun(cfg: Config, signal: Signal, v: Venues): Trade {
    if Divisible(cfg, signal, v) then Legs(cfg, signal, v) else NO_LEGS
  }

  // ---- the context the trade is recorded in ----

  class ExecutionContext {
    var state: State
    var leg1Venue: Option<Venue>
    var leg2Venue: Option<Venue>
    var leg1Fill: Option<Fill>
    var leg2Fill: Option<Fill>
    var actualNetPnl: Option<real>
    var error: Option<TradeError>
    ghost var trail: seq<State>
    ghost var actions: seq<Action>

    constructor ()
      ensures state == Idle && Summary() == Trade([Idle], [], None, None, None, None)
    {
      state, leg1Venue, leg2Venue := Idle, None, None;
      leg1Fill, leg2Fill, actualNetPnl, error := None, None, None, None;
      trail, actions := [Idle], [];
    }

    ghost function Summary(): Trade
      reads this
    {
      Trade(trail, actions, leg1Fill, leg2Fill, actualNetPnl, error)
    }

    method Enter(s: State)
      modifies this`state, this`trail
      ensures state == s && trail == old(trail) + [s]
    {
      state := s;
      trail := trail + [s];
    }

    method Fail(e: TradeError)
      modifies this`state, this`trail, this`error
      ensures state == Failed && trail == old(trail) + [Failed] && error == Some(e)
    {
      Enter(Failed);
      error := Some(e);
    }

    ghost method Log(a: seq<Action>)
      modifies this`actions
      ensures actions == old(actions) + a
    {
      actions := actions + a;
    }
  }

  /** The trade a context shows once `t` has been carried out on it. */
  ghost function Append(before: Trade, t: Trade): Trade {
    Trade(before.trail + t.trail, before.actions + t.actions, t.leg1, t.leg2, t.pnl, t.error)
  }

  /** What is expected of a context in which no leg has been started. */
  ghost predicate NoLegs(t: Trade) {
    t.leg1 == None && t.leg2 == None && t.pnl == None && t.error == None
  }

  class Executor {
    const config: Config
    const breaker: CircuitBreaker
    const replay: ReplayProtection

    constructor (config: Config, breakerConfig: BreakerConfig, ttl: real)
      ensures this.config == config && breaker.config == breakerConfig && replay.ttl == ttl
      ensures fresh(breaker) && fresh(replay)
      ensures breaker.State() == FRESH && replay.executed == map[]
    {
      this.config := config;
      breaker := new CircuitBreaker(breakerConfig);
      replay := new ReplayProtection(ttl);
    }

    /** Attempts until an answer settles the order or the attempts are used up. */
    method CexWithRetry(v: Venues, size: real, ctx: ExecutionContext) returns (r: Retried)
      modifies ctx`actions
      ensures r == Retry(v.cex, config.maxRetries, 0, "CEX timeout")
      ensures ctx.actions == old(ctx.actions) + Orders(r.attempts, v.orderId, size)
    {
      var lastError, attempt := "CEX timeout", 0;
      while attempt <= config.maxRetries
        invariant 0 <= attempt
        invariant Retry(v.cex, config.maxRetries, attempt, lastError)
               == Retry(v.cex, config.maxRetries, 0, "CEX timeout")
        invariant ctx.actions == old(ctx.actions) + Orders(attempt, v.orderId, size)
        decreases config.maxRetries - attempt
      {
        assert Orders(attempt + 1, v.orderId, size) == Orders(attempt, v.orderId, size) + [SubmitCex(v.orderId, size)];
        ctx.Log([SubmitCex(v.orderId, size)]);
        var answer := v.cex(attempt);
        if answer.Timeout? {
          lastError := "CEX timeout";
        } else if answer.success {
          return Filled(answer.fill, attempt + 1);
        } else if IsPermanent(answer.error) {
          return GaveUp(answer.error, attempt + 1);
        } else {
          lastError := answer.error;
        }
        attempt := attempt + 1;
      }
      return GaveUp(lastError, attempt);
    }

    method ExecuteCexFirst(ctx: ExecutionContext, signal: Signal, v: Venues)
      requires CexDivisible(config, signal, v) && NoLegs(ctx.Summary())
      modifies ctx
      ensures ctx.Summary() == Append(old(ctx.Summary()), CexFirst(config, signal, v))
      ensures ctx.state == Done || ctx.state == Failed
      ensures ctx.state == ctx.trail[|ctx.trail| - 1]
    {
      hide Retry, Orders, Pnl;
      ctx.Enter(Leg1Pending);
      ctx.leg1Venue := Some(Cex);
      var leg1 := CexWithRetry(v, OrderSize(None, signal), ctx);
      if leg1.GaveUp? {
        ctx.Fail(CexError(leg1.cause));
        return;
      }
      if leg1.fill.filled / signal.size < config.minFillRatio {
        ctx.Fail(PartialFill);
        return;
      }
      ctx.leg1Fill := Some(leg1.fill);
      ctx.Enter(Leg1Filled);
      SecondLegOnDex(ctx, signal, v, leg1.fill);
    }

    /** The second leg of the CEX-first order. */
    method SecondLegOnDex(ctx: ExecutionContext, signal: Signal, v: Venues, leg1: Fill)
      requires ctx.leg1Fill == Some(leg1) && ctx.leg2Fill == None && ctx.actualNetPnl == None && ctx.error == None
      modifies ctx
      ensures ctx.state == (if Succeeds(v.dex) then Done else Failed)
      ensures ctx.leg1Fill == Some(leg1)
      ensures if Succeeds(v.dex) then
                && ctx.trail == old(ctx.trail) + [Leg2Pending, Done]
                && ctx.actions == old(ctx.actions) + [SubmitDex(leg1.filled)]
                && ctx.leg2Fill == Some(v.dex.fill) && ctx.error == None
                && ctx.actualNetPnl == Some(Pnl(config, signal, Cex, leg1, v.dex.fill))
              else
                && ctx.trail == old(ctx.trail) + [Leg2Pending, Unwinding, Failed]
                && ctx.actions == old(ctx.actions) + [SubmitDex(leg1.filled), Unwind]
                && ctx.leg2Fill == None && ctx.actualNetPnl == None
                && ctx.error == Some(if v.dex.Timeout? then DexTimeoutUnwound else DexFailedUnwound)
    {
      ctx.Enter(Leg2Pending);
      ctx.leg2Venue := Some(Dex);
      ctx.Log([SubmitDex(leg1.filled)]);
      if v.dex.Timeout? {
        UnwindLeg1(ctx);
        ctx.Fail(DexTimeoutUnwound);
        return;
      }
      if !v.dex.success {
        UnwindLeg1(ctx);
        ctx.Fail(DexFailedUnwound);
        return;
      }
      ctx.leg2Fill := Some(v.dex.fill);
      ctx.actualNetPnl := Some(Pnl(config, signal, Cex, leg1, v.dex.fill));
      ctx.Enter(Done);
    }

    method UnwindLeg1(ctx: ExecutionContext)
      modifies ctx`state, ctx`trail, ctx`actions
      ensures ctx.state == Unwinding && ctx.trail == old(ctx.trail) + [Unwinding]
      ensures ctx.actions == old(ctx.actions) + [Unwind]
    {
      ctx.Enter(Unwinding);
      ctx.Log([Unwind]);
    }

    method ExecuteDexFirst(ctx: ExecutionContext, signal: Signal, v: Venues)
      requires NoLegs(ctx.Summary())
      modifies ctx
      ensures ctx.Summary() == Append(old(ctx.Summary()), DexFirst(config, signal, v))
      ensures ctx.state == Done || ctx.state == Failed
      ensures ctx.state == ctx.trail[|ctx.trail| - 1]
    {
      hide Retry, Orders, Pnl;
      ctx.Enter(Leg1Pending);
      ctx.leg1Venue := Some(Dex);
      ctx.Log([SubmitDex(signal.size)]);
      if v.dex.Timeout? {
        ctx.Fail(DexTimeout);
        return;
      }
      if !v.dex.success {
        ctx.Fail(DexError(v.dex.error));
        return;
      }
      ctx.leg1Fill := Some(v.dex.fill);
      ctx.Enter(Leg1Filled);
      SecondLegOnCex(ctx, signal, v, v.dex.fill);
    }

    /** The second leg of the DEX-first order. */
    method SecondLegOnCex(ctx: ExecutionContext, signal: Signal, v: Venues, leg1: Fill)
      requires ctx.leg1Fill == Some(leg1) && ctx.leg2Fill == None && ctx.actualNetPnl == None && ctx.error == None
      modifies ctx
      ensures var leg2 := Retry(v.cex, config.maxRetries, 0, "CEX timeout");
              var orders := Orders(leg2.attempts, v.orderId, OrderSize(Some(leg1.filled), signal));
              && ctx.state == (if leg2.Filled? then Done else Failed)
              && ctx.leg1Fill == Some(leg1)
              && if leg2.Filled? then
                   && ctx.trail == old(ctx.trail) + [Leg2Pending, Done]
                   && ctx.actions == old(ctx.actions) + orders
                   && ctx.leg2Fill == Some(leg2.fill) && ctx.error == None
                   && ctx.actualNetPnl == Some(Pnl(config, signal, Dex, leg1, leg2.fill))
                 else
                   && ctx.trail == old(ctx.trail) + [Leg2Pending, Unwinding, Failed]
                   && ctx.actions == old(ctx.actions) + (orders + [Unwind])
                   && ctx.leg2Fill == None && ctx.actualNetPnl == None
                   && ctx.error == Some(CexFailedUnwound(leg2.cause))
    {
      hide Retry, Orders, Pnl;
      ctx.Enter(Leg2Pending);
      ctx.leg2Venue := Some(Cex);
      var leg2 := CexWithRetry(v, OrderSize(Some(leg1.filled), signal), ctx);
      if leg2.GaveUp? {
        UnwindLeg1(ctx);
        ctx.Fail(CexFailedUnwound(leg2.cause));
        return;
      }
      ctx.leg2Fill := Some(leg2.fill);
      ctx.actualNetPnl := Some(Pnl(config, signal, Dex, leg1, leg2.fill));
      ctx.Enter(Done);
    }

    method ExecuteLegs(ctx: ExecutionContext, signal: Signal, v: Venues)
      requires Divisible(config, signal, v) && NoLegs(ctx.Summary())
      modifies ctx
      ensures ctx.Summary() == Append(old(ctx.Summary()), Legs(config, signal, v))
      ensures ctx.state == Done || ctx.state == Failed
      ensures ctx.state == ctx.trail[|ctx.trail| - 1]
    {
      hide CexFirst, DexFirst;
      if config.useFlashbots {
        ExecuteDexFirst(ctx, signal, v);
      } else {
        ExecuteCexFirst(ctx, signal, v);
      }
    }

    /** One execution: the gates in their order, the legs, then the bookkeeping. Only a call that
        passes all gates gets as far as dividing by the signal's size. */
    method Execute(signal: Signal, v: Venues, clock: Clock) returns (ctx: ExecutionContext)
      requires Passes(Limits(breaker.config, replay.ttl), ExecState(breaker.State(), replay.executed), signal, clock)
               ==> Divisible(config, signal, v)
      modifies breaker, replay
      ensures fresh(ctx)
      ensures var s := ExecState(old(breaker.State()), old(replay.executed));
              var call := Call(signal, clock, LegsIfRun(config, signal, v));
              && ExecState(breaker.State(), replay.executed) == Step(Limits(breaker.config, replay.ttl), s, call)
              && ctx.Summary() == Shown(Limits(breaker.config, replay.ttl), s, call)
      ensures ctx.state == ctx.trail[|ctx.trail| - 1]
    {
      hide Legs, AfterFailure, AfterSuccess, CexDivisible;
      ctx := new ExecutionContext();
      var open := breaker.CheckOpen(clock.tOpen);
      if open {
        ctx.Fail(BreakerOpen);
        return;
      }
      var duplicate := replay.IsDuplicate(signal.id, clock.tDup);
      if duplicate {
        ctx.Fail(DuplicateSignal);
        return;
      }
      ctx.Enter(Validating);
      if !IsValid(signal, clock.tValid) {
        ctx.Fail(SignalInvalid);
        return;
      }
      ExecuteLegs(ctx, signal, v);
      LegsEndDoneOrFailed(config, signal, v);
      replay.MarkExecuted(signal.id, clock.tMark);
      if ctx.state == Done {
        breaker.RecordSuccess();
      } else {
        breaker.RecordFailure(clock.tRecord, clock.tTrip);
      }
    }
  }

  // ---- one trade: the state graph ----

  /** The transitions the states are declared for. */
  predicate Follows(a: State, b: State) {
    match a
    case Idle => b == Validating || b == Failed
    case Validating => b == Leg1Pending || b == Failed
    case Leg1Pending => b == Leg1Filled || b == Failed
    case Leg1Filled => b == Leg2Pending
    case Leg2Pending => b == Done || b == Unwinding
    case Unwinding => b == Failed
    case Done => false
    case Failed => false
  }

  ghost predicate FollowsGraph(trail: seq<State>) {
    forall i :: 0 < i < |trail| ==> Follows(trail[i - 1], trail[i])
  }

  function CountUnwinds(actions: seq<Action>): nat {
    if actions == [] then 0
    else CountUnwinds(actions[..|actions| - 1]) + (if actions[|actions| - 1] == Unwind then 1 else 0)
  }

  lemma {:induction false} OrdersContainNoUnwind(n: nat, orderId: string, size: real)
    ensures CountUnwinds(Orders(n, orderId, size)) == 0
  {
    if n > 0 {
      assert Orders(n, orderId, size)[..n - 1] == Orders(n - 1, orderId, size);
      OrdersContainNoUnwind(n - 1, orderId, size);
    }
  }

  lemma CountSnoc(actions: seq<Action>, a: Action)
    ensures CountUnwinds(actions + [a]) == CountUnwinds(actions) + (if a == Unwind then 1 else 0)
  {
    assert (actions + [a])[..|actions|] == actions;
  }

  lemma {:induction false} CountConcat(a: seq<Action>, b: seq<Action>)
    ensures CountUnwinds(a + b) == CountUnwinds(a) + CountUnwinds(b)
  {
    if b == [] {
      assert a + b == a;
    } else {
      var n := |b| - 1;
      assert (a + b)[..|a| + n] == a + b[..n];
      CountConcat(a, b[..n]);
    }
  }

  lemma LegsEndDoneOrFailed(cfg: Config, signal: Signal, v: Venues)
    requires Divisible(cfg, signal, v)
    ensures var t := Legs(cfg, signal, v);
            && |t.trail| >= 2 && t.trail[0] == Leg1Pending
            && t.trail[|t.trail| - 1] in {Done, Failed}
            && FollowsGraph(t.trail)
  {
    hide Pnl, Retry;
  }

  /** Whatever the venues answer: the trade is DONE exactly when both legs filled, and then its
      PnL is set and nothing was unwound; it fails after a filled first leg exactly with one
      unwind, its last action; it fails before that without any. */
  lemma TradeOutcome(cfg: Config, signal: Signal, v: Venues)
    requires Divisible(cfg, signal, v)
    ensures var t := Legs(cfg, signal, v);
            var last := t.trail[|t.trail| - 1];
            && (last == Done <==> t.leg1.Some? && t.leg2.Some?)
            && (last == Done <==> t.pnl.Some?)
            && (last == Done <==> t.error == None)
            && (Leg1Filled in t.trail <==> t.leg1.Some?)
            && CountUnwinds(t.actions) == (if last == Failed && t.leg1.Some? then 1 else 0)
            && (last == Failed && t.leg1.Some? ==> t.actions[|t.actions| - 1] == Unwind)
  {
    if cfg.useFlashbots {
      DexFirstOutcome(cfg, signal, v);
    } else {
      CexFirstOutcome(cfg, signal, v);
    }
  }

  /** The fields of a trade fit together. */
  ghost predicate Coherent(t: Trade) {
    && t.trail != []
    && var last := t.trail[|t.trail| - 1];
       && (last == Done <==> t.leg1.Some? && t.leg2.Some?)
       && (last == Done <==> t.pnl.Some?)
       && (last == Done <==> t.error == None)
       && (Leg1Filled in t.trail <==> t.leg1.Some?)
       && CountUnwinds(t.actions) == (if last == Failed && t.leg1.Some? then 1 else 0)
       && (last == Failed && t.leg1.Some? ==> t.actions != [] && t.actions[|t.actions| - 1] == Unwind)
  }

  lemma DexFirstOutcome(cfg: Config, signal: Signal, v: Venues)
    ensures Coherent(DexFirst(cfg, signal, v))
  {
    hide Pnl, Retry, Orders, OrderSize, CountUnwinds;
    var cex := Retry(v.cex, cfg.maxRetries, 0, "CEX timeout");
    var sent := [SubmitDex(signal.size)];
    NoUnwindIn(sent[0]);
    if v.dex.Answer? {
      var size := OrderSize(Some(v.dex.fill.filled), signal);
      OrdersContainNoUnwind(cex.attempts, v.orderId, size);
      CountConcat(sent, Orders(cex.attempts, v.orderId, size));
      CountSnoc(sent + Orders(cex.attempts, v.orderId, size), Unwind);
    }
  }

  lemma CexFirstOutcome(cfg: Config, signal: Signal, v: Venues)
    requires CexDivisible(cfg, signal, v)
    ensures Coherent(CexFirst(cfg, signal, v))
  {
    hide Pnl, Retry, Orders, OrderSize, CountUnwinds;
    var cex := Retry(v.cex, cfg.maxRetries, 0, "CEX timeout");
    var orders := Orders(cex.attempts, v.orderId, OrderSize(None, signal));
    OrdersContainNoUnwind(cex.attempts, v.orderId, OrderSize(None, signal));
    if cex.Filled? {
      CountSnoc(orders, SubmitDex(cex.fill.filled));
      CountSnoc(orders + [SubmitDex(cex.fill.filled)], Unwind);
    }
  }

  lemma NoUnwindIn(a: Action)
    requires a != Unwind
    ensures CountUnwinds([a]) == 0
  {
    assert [a][..0] == [];
  }

  // ---- one trade: when each leg is accepted ----

  /** Some allowed attempt is answered with this fill, and none before it with success or with a
      permanent error. */
  ghost predicate CexFills(cex: nat -> Answer, maxRetries: int, f: Fill) {
    exists k: nat :: k <= maxRetries && cex(k).Answer? && cex(k).success && cex(k).fill == f
                     && forall i: nat :: i < k ==>
                          cex(i).Timeout? || (!cex(i).success && !IsPermanent(cex(i).error))
  }

  lemma RetryFillsExactly(cex: nat -> Answer, maxRetries: int)
    ensures var r := Retry(cex, maxRetries, 0, "CEX timeout");
            forall f :: CexFills(cex, maxRetries, f) <==> r == Filled(f, r.attempts)
  {
    var r := Retry(cex, maxRetries, 0, "CEX timeout");
    hide Retry, IsPermanent;
    RetrySettles(cex, maxRetries, 0, "CEX timeout");
    forall f
      ensures CexFills(cex, maxRetries, f) <==> r == Filled(f, r.attempts)
    {
      if CexFills(cex, maxRetries, f) {
        var k: nat :| k <= maxRetries && cex(k).Answer? && cex(k).success && cex(k).fill == f
                      && forall i: nat :: i < k ==>
                           cex(i).Timeout? || (!cex(i).success && !IsPermanent(cex(i).error));
        assert Succeeds(cex(k)) && forall i: nat :: i < k ==> !Succeeds(cex(i)) && !FailsForGood(cex(i));
        assert r.attempts == k + 1;
      }
      if r == Filled(f, r.attempts) {
        var k: nat := r.attempts - 1;
        assert cex(k).fill == f;
        assert forall i: nat :: i < k ==> !Succeeds(cex(i)) && !FailsForGood(cex(i));
      }
    }
  }

  /** The CEX fills at least the demanded part of the signal. */
  ghost predicate CexFillsEnough(cfg: Config, signal: Signal, v: Venues, f: Fill) {
    CexFills(v.cex, cfg.maxRetries, f) && f.filled >= cfg.minFillRatio * signal.size
  }

  /** With the CEX first: a fill is accepted exactly if it is at least the demanded part, and then
      the DEX is asked; less is an error; the trade is done exactly if the DEX succeeds as well. */
  lemma CexFirstAccepts(cfg: Config, signal: Signal, v: Venues)
    requires !cfg.useFlashbots && signal.size > 0.0
    ensures var t := Legs(cfg, signal, v);
            && (forall f :: t.leg1 == Some(f) <==> CexFillsEnough(cfg, signal, v, f))
            && (forall a :: a in t.actions && a.SubmitCex? ==> a.size == signal.size)
            && ((exists a :: a in t.actions && a.SubmitDex?) <==> exists f :: CexFillsEnough(cfg, signal, v, f))
            && (t.error == Some(PartialFill)
                <==> exists f :: CexFills(v.cex, cfg.maxRetries, f) && f.filled < cfg.minFillRatio * signal.size)
            && (t.trail[|t.trail| - 1] == Done
                <==> v.dex.Answer? && v.dex.success && exists f :: CexFillsEnough(cfg, signal, v, f))
            && (t.error == Some(DexTimeoutUnwound) <==> t.leg1.Some? && v.dex.Timeout?)
            && (t.error == Some(DexFailedUnwound) <==> t.leg1.Some? && v.dex.Answer? && !v.dex.success)
  {
    var r := Retry(v.cex, cfg.maxRetries, 0, "CEX timeout");
    RetryFillsExactly(v.cex, cfg.maxRetries);
    hide Retry, Pnl, CexFills, IsPermanent;
    var orders := Orders(r.attempts, v.orderId, OrderSize(None, signal));
    var t := CexFirst(cfg, signal, v);
    if r.GaveUp? {
      assert t.actions == orders;
    } else {
      RatioTest(r.fill.filled, signal.size, cfg.minFillRatio);
      assert CexFills(v.cex, cfg.maxRetries, r.fill);
      if r.fill.filled < cfg.minFillRatio * signal.size {
        assert t.actions == orders;
      } else {
        assert CexFillsEnough(cfg, signal, v, r.fill);
        assert t.actions[|orders|] == SubmitDex(r.fill.filled);
        assert SubmitDex(r.fill.filled) in t.actions;
      }
    }
  }

  lemma RatioTest(filled: real, size: real, ratio: real)
    requires size > 0.0
    ensures filled / size < ratio <==> filled < ratio * size
  {
    RQuotient(filled, size);
    if filled / size < ratio {
      RStrict(filled / size, ratio, size);
    } else {
      RMulMono(ratio, filled / size, size);
    }
  }

  /** With the DEX first its success alone decides the first leg, and the trade is done exactly if
      the CEX fills as well, whatever part. */
  lemma DexFirstAccepts(cfg: Config, signal: Signal, v: Venues)
    requires cfg.useFlashbots
    ensures var t := Legs(cfg, signal, v);
            && (t.leg1.Some? <==> v.dex.Answer? && v.dex.success)
            && (t.leg1.Some? ==> t.leg1.value == v.dex.fill)
            && (forall f :: t.leg2 == Some(f) <==> t.leg1.Some? && CexFills(v.cex, cfg.maxRetries, f))
            && (t.trail[|t.trail| - 1] == Done <==> t.leg2.Some?)
            && t.actions != [] && t.actions[0] == SubmitDex(signal.size)
            && (t.error == Some(DexTimeout) <==> v.dex.Timeout?)
            && (v.dex.Answer? && !v.dex.success ==> t.error == Some(DexError(v.dex.error)))
  {
    RetryFillsExactly(v.cex, cfg.maxRetries);
    hide Retry, Pnl, CexFills, Orders;
  }

  /** The PnL of a finished trade is selling minus buying price on leg 1's fill, less fees,
      whichever venue went first; with fees it is a profit only if the sale was the dearer side. */
  lemma PnlIsSpreadOnFill(cfg: Config, signal: Signal, v: Venues)
    requires Divisible(cfg, signal, v) && Legs(cfg, signal, v).pnl.Some?
    ensures var t := Legs(cfg, signal, v);
            && t.leg1.Some? && t.leg2.Some?
            && var cex := if cfg.useFlashbots then t.leg2.value else t.leg1.value;
               var dex := if cfg.useFlashbots then t.leg1.value else t.leg2.value;
               IsSpreadOnFill(cfg, signal.direction, cex.price, dex.price, t.leg1.value, t.pnl.value)
  {
    var t := Legs(cfg, signal, v);
    if cfg.useFlashbots {
      SpreadOnFill(cfg, signal, Dex, t.leg1.value, t.leg2.value);
    } else {
      SpreadOnFill(cfg, signal, Cex, t.leg1.value, t.leg2.value);
    }
  }

  /** The fee structure's answer, or 40 basis points without one. */
  function FeeOn(cfg: Config, traded: real): real {
    match cfg.feeUsd
    case Some(fee) => fee(traded)
    case None => traded * 40.0 / 10000.0
  }

  /** Leg 1's fill at the dearer of its own price and the CEX price. */
  function DearerValue(leg1: Fill, cexPrice: real): real {
    if cexPrice >= leg1.price then leg1.filled * cexPrice else leg1.filled * leg1.price
  }

  lemma FeesAreFeeOn(cfg: Config, leg1: Fill, cexPrice: real)
    ensures Fees(cfg, TradeValue(leg1, cexPrice))
         == FeeOn(cfg, DearerValue(leg1, cexPrice))
  {
  }

  ghost predicate IsSpreadOnFill(cfg: Config, d: Direction, cexPrice: real, dexPrice: real, leg1: Fill, pnl: real) {
    var sold := if d == BuyDexSellCex then cexPrice else dexPrice;
    var bought := if d == BuyDexSellCex then dexPrice else cexPrice;
    var fees := FeeOn(cfg, DearerValue(leg1, cexPrice));
    && pnl == (sold - bought) * leg1.filled - fees
    && (leg1.filled > 0.0 && fees >= 0.0 && pnl > 0.0 ==> sold > bought)
  }

  lemma SpreadOnFill(cfg: Config, signal: Signal, leg1Venue: Venue, leg1: Fill, leg2: Fill)
    ensures var cexPrice := if leg1Venue == Cex then leg1.price else leg2.price;
            var dexPrice := if leg1Venue == Cex then leg2.price else leg1.price;
            IsSpreadOnFill(cfg, signal.direction, cexPrice, dexPrice, leg1, Pnl(cfg, signal, leg1Venue, leg1, leg2))
  {
    hide Fees, TradeValue, FeeOn, DearerValue;
    var cexPrice := if leg1Venue == Cex then leg1.price else leg2.price;
    FeesAreFeeOn(cfg, leg1, cexPrice);
    ProfitNeedsSpread(leg1.price, leg2.price, leg1.filled);
    ProfitNeedsSpread(leg2.price, leg1.price, leg1.filled);
  }

  lemma ProfitNeedsSpread(sold: real, bought: real, size: real)
    ensures size > 0.0 && (sold - bought) * size > 0.0 ==> sold > bought
  {
    if size > 0.0 && sold <= bought {
      RMulMono(sold - bought, 0.0, size);
    }
  }

  // ---- one trade: what is asked of the venues ----

  ghost predicate IsLeg2Of(cfg: Config, a: Action) {
    if cfg.useFlashbots then a.SubmitCex? else a.SubmitDex?
  }

  /** The second leg is only ever asked for after the first filled. Each request is for exactly
      what the first leg filled, except that a DEX fill of 0 makes the CEX order fall back to
      the signal's size. */
  lemma Leg2AsksForLeg1Fill(cfg: Config, signal: Signal, v: Venues, a: Action)
    requires Divisible(cfg, signal, v)
    requires a in Legs(cfg, signal, v).actions && IsLeg2Of(cfg, a)
    ensures var t := Legs(cfg, signal, v);
            && t.leg1.Some?
            && (a.size == t.leg1.value.filled
                <==> !(cfg.useFlashbots && t.leg1.value.filled == 0.0 && signal.size != 0.0))
            && (cfg.useFlashbots && t.leg1.value.filled == 0.0 ==> a.size == signal.size)
  {
  }

  /** At most `maxRetries + 1` orders reach the CEX in one trade, all under one order id. */
  lemma CexOrdersOfTrade(cfg: Config, signal: Signal, v: Venues)
    requires Divisible(cfg, signal, v)
    ensures var t := Legs(cfg, signal, v);
            && (forall a :: a in t.actions && a.SubmitCex? ==> a.orderId == v.orderId)
            && CountCex(t.actions) <= MaxInt(0, cfg.maxRetries + 1)
  {
    var cex := Retry(v.cex, cfg.maxRetries, 0, "CEX timeout");
    RetrySettles(v.cex, cfg.maxRetries, 0, "CEX timeout");
    hide Retry, Pnl, CountCex;
    if cfg.useFlashbots {
      DexFirstOrders(cfg, signal, v, cex);
    } else {
      CexFirstOrders(cfg, signal, v, cex);
    }
  }

  lemma DexFirstOrders(cfg: Config, signal: Signal, v: Venues, cex: Retried)
    requires cex == Retry(v.cex, cfg.maxRetries, 0, "CEX timeout")
    ensures var t := DexFirst(cfg, signal, v);
            && (forall a :: a in t.actions && a.SubmitCex? ==> a.orderId == v.orderId)
            && CountCex(t.actions) == (if Succeeds(v.dex) then cex.attempts else 0)
  {
    hide Retry, Pnl, Orders, OrderSize, CountCex;
    var sent := [SubmitDex(signal.size)];
    CountCexSnoc([], sent[0]);
    assert [] + [sent[0]] == sent;
    NoCex();
    if v.dex.Answer? {
      var size := OrderSize(Some(v.dex.fill.filled), signal);
      CountOrders(cex.attempts, v.orderId, size);
      CountCexConcat(sent, Orders(cex.attempts, v.orderId, size));
      CountCexSnoc(sent + Orders(cex.attempts, v.orderId, size), Unwind);
    }
  }

  lemma NoCex()
    ensures CountCex([]) == 0
  {
  }

  lemma CexFirstOrders(cfg: Config, signal: Signal, v: Venues, cex: Retried)
    requires CexDivisible(cfg, signal, v) && cex == Retry(v.cex, cfg.maxRetries, 0, "CEX timeout")
    ensures var t := CexFirst(cfg, signal, v);
            && (forall a :: a in t.actions && a.SubmitCex? ==> a.orderId == v.orderId)
            && CountCex(t.actions) == cex.attempts
  {
    hide Retry, Pnl, Orders, OrderSize, CountCex;
    var orders := Orders(cex.attempts, v.orderId, OrderSize(None, signal));
    CountOrders(cex.attempts, v.orderId, OrderSize(None, signal));
    if cex.Filled? {
      CountCexSnoc(orders, SubmitDex(cex.fill.filled));
      CountCexSnoc(orders + [SubmitDex(cex.fill.filled)], Unwind);
    }
  }

  function CountCex(actions: seq<Action>): nat {
    if actions == [] then 0
    else CountCex(actions[..|actions| - 1]) + (if actions[|actions| - 1].SubmitCex? then 1 else 0)
  }

  lemma CountCexSnoc(actions: seq<Action>, a: Action)
    ensures CountCex(actions + [a]) == CountCex(actions) + (if a.SubmitCex? then 1 else 0)
  {
    assert (actions + [a])[..|actions|] == actions;
  }

  lemma {:induction false} CountCexConcat(a: seq<Action>, b: seq<Action>)
    ensures CountCex(a + b) == CountCex(a) + CountCex(b)
  {
    if b == [] {
      assert a + b == a;
    } else {
      var n := |b| - 1;
      assert (a + b)[..|a| + n] == a + b[..n];
      CountCexConcat(a, b[..n]);
    }
  }

  lemma {:induction false} CountOrders(n: nat, orderId: string, size: real)
    ensures CountCex(Orders(n, orderId, size)) == n
    ensures forall a :: a in Orders(n, orderId, size) ==> a == SubmitCex(orderId, size)
  {
    if n > 0 {
      assert Orders(n, orderId, size)[..n - 1] == Orders(n - 1, orderId, size);
      CountOrders(n - 1, orderId, size);
    }
  }

  /** Retrying stops at the first attempt that succeeds or fails for good, and otherwise after the
      last one allowed: the order counts as filled exactly when a success comes first. */
  lemma {:induction false} RetrySettles(cex: nat -> Answer, maxRetries: int, k: nat, lastError: string)
    ensures var r := Retry(cex, maxRetries, k, lastError);
            && k <= r.attempts && (k <= maxRetries ==> k < r.attempts) && r.attempts <= MaxInt(k, maxRetries + 1)
            && (forall i: nat :: k <= i < r.attempts - 1 ==> !Succeeds(cex(i)) && !FailsForGood(cex(i)))
            && (r.Filled? <==> r.attempts > k && Succeeds(cex(r.attempts - 1)))
            && (r.Filled? ==> r.fill == cex(r.attempts - 1).fill)
            && (r.GaveUp? && k < r.attempts < maxRetries + 1 ==> FailsForGood(cex(r.attempts - 1)))
            && (r.GaveUp? ==>
                  r.cause == if r.attempts == k then lastError
                             else if cex(r.attempts - 1).Timeout? then "CEX timeout"
                             else cex(r.attempts - 1).error)
    decreases if k <= maxRetries then maxRetries + 1 - k else 0
  {
    if k <= maxRetries && !Succeeds(cex(k)) && !FailsForGood(cex(k)) {
      RetrySettles(cex, maxRetries, k + 1, Cause(cex(k)));
    }
  }

  // ---- what a deduplicating exchange makes of it ----

  /** An exchange that remembers order ids: it fills a submission it accepts, but never one whose id
      it has filled before. `accepts(k)` is about the `k`-th CEX order of the trade. */
  function ExchangeFills(actions: seq<Action>, accepts: nat -> bool): (set<string>, nat) {
    if actions == [] then ({}, 0)
    else
      var n := |actions| - 1;
      var (seen, fills) := ExchangeFills(actions[..n], accepts);
      if actions[n].SubmitCex? && actions[n].orderId !in seen && accepts(CountCex(actions[..n]))
      then (seen + {actions[n].orderId}, fills + 1)
      else (seen, fills)
  }

  lemma FillsSnoc(actions: seq<Action>, a: Action, accepts: nat -> bool)
    ensures ExchangeFills(actions + [a], accepts)
         == var (seen, fills) := ExchangeFills(actions, accepts);
            if a.SubmitCex? && a.orderId !in seen && accepts(CountCex(actions)) then (seen + {a.orderId}, fills + 1)
            else (seen, fills)
  {
    hide CountCex;
    assert (actions + [a])[..|actions|] == actions;
  }

  /** Some of the first `n` orders is accepted. */
  ghost predicate AcceptsWithin(accepts: nat -> bool, n: nat) {
    exists k :: 0 <= k < n && accepts(k)
  }

  lemma {:induction false} OneIdFillsOnce(actions: seq<Action>, accepts: nat -> bool, id: string)
    requires forall a :: a in actions && a.SubmitCex? ==> a.orderId == id
    ensures ExchangeFills(actions, accepts)
         == if AcceptsWithin(accepts, CountCex(actions)) then ({id}, 1) else ({}, 0)
  {
    hide CountCex, AcceptsWithin;
    NoCex();
    if actions != [] {
      var n := |actions| - 1;
      OneIdFillsOnce(actions[..n], accepts, id);
      assert actions == actions[..n] + [actions[n]] && actions[n] in actions;
      CountCexSnoc(actions[..n], actions[n]);
      FillsSnoc(actions[..n], actions[n], accepts);
      AcceptsOneMore(accepts, CountCex(actions[..n]));
      var none: set<string> := {};
      assert none + {id} == {id};
    } else {
      AcceptsNothing(accepts);
    }
  }

  lemma AcceptsNothing(accepts: nat -> bool)
    ensures !AcceptsWithin(accepts, 0)
  {
  }

  lemma AcceptsOneMore(accepts: nat -> bool, n: nat)
    ensures AcceptsWithin(accepts, n + 1) <==> AcceptsWithin(accepts, n) || accepts(n)
  {
    if accepts(n) {
      assert AcceptsWithin(accepts, n + 1);
    }
  }

  /** However often an attempt timed out after being filled, one trade is filled at most once by
      an exchange that deduplicates order ids: once if it accepts one of the attempts. */
  lemma TradeFillsAtMostOnce(cfg: Config, signal: Signal, v: Venues, accepts: nat -> bool)
    requires Divisible(cfg, signal, v)
    ensures var t := Legs(cfg, signal, v);
            ExchangeFills(t.actions, accepts).1 == (if AcceptsWithin(accepts, CountCex(t.actions)) then 1 else 0)
  {
    CexOrdersOfTrade(cfg, signal, v);
    OneIdFillsOnce(Legs(cfg, signal, v).actions, accepts, v.orderId);
  }

  /** The exchange fills attempt `k`: the first one it accepts. */
  ghost predicate FilledAt(accepts: nat -> bool, k: nat) {
    accepts(k) && forall i: nat :: i < k ==> !accepts(i)
  }

  /** Only the attempt that is filled can be answered with success; its answer may still be lost, or
      report another status. */
  ghost predicate AnswersOf(cex: nat -> Answer, accepts: nat -> bool) {
    forall k: nat :: Succeeds(cex(k)) ==> FilledAt(accepts, k)
  }

  /** The filled attempt is made, and its success is not what comes back. */
  ghost predicate LosesFill(cex: nat -> Answer, accepts: nat -> bool, maxRetries: int) {
    exists k: nat :: k <= maxRetries && FilledAt(accepts, k) && !Succeeds(cex(k))
                     && forall i: nat :: i < k ==> !FailsForGood(cex(i))
  }

  /** A leg is given up although the exchange filled it exactly if the filled attempt's success never
      came back; otherwise the leg counts as filled exactly if the exchange filled it. */
  lemma GivenUpButFilled(cex: nat -> Answer, accepts: nat -> bool, maxRetries: int)
    requires AnswersOf(cex, accepts)
    ensures var r := Retry(cex, maxRetries, 0, "CEX timeout");
            && (r.GaveUp? && AcceptsWithin(accepts, r.attempts) <==> LosesFill(cex, accepts, maxRetries))
            && (r.Filled? <==> AcceptsWithin(accepts, r.attempts) && !LosesFill(cex, accepts, maxRetries))
  {
    var r := Retry(cex, maxRetries, 0, "CEX timeout");
    hide Retry, FailsForGood, Succeeds;
    RetrySettles(cex, maxRetries, 0, "CEX timeout");
    if AcceptsWithin(accepts, r.attempts) {
      var k: nat := FirstAccepted(accepts, r.attempts);
      if r.GaveUp? {
        assert k <= maxRetries && !Succeeds(cex(k));
      }
    }
    if LosesFill(cex, accepts, maxRetries) {
      var k: nat :| k <= maxRetries && FilledAt(accepts, k) && !Succeeds(cex(k))
                    && forall i: nat :: i < k ==> !FailsForGood(cex(i));
      assert forall i: nat :: i < r.attempts && Succeeds(cex(i)) ==> i == k;
      assert k < r.attempts;
    }
  }

  /** How it ends when the exchange refuses the retry as a duplicate: that is an error for good, and
      the leg is given up with it. */
  lemma DuplicateGivesUp(cex: nat -> Answer, accepts: nat -> bool, maxRetries: int, k: nat)
    requires AnswersOf(cex, accepts) && FilledAt(accepts, k) && k < maxRetries && cex(k).Timeout?
    requires forall i: nat :: i < k ==> !FailsForGood(cex(i))
    requires cex(k + 1).Answer? && Contains(Lower(cex(k + 1).error), "duplicate")
    ensures Retry(cex, maxRetries, 0, "CEX timeout") == GaveUp(cex(k + 1).error, k + 2)
    ensures LosesFill(cex, accepts, maxRetries)
  {
    var r := Retry(cex, maxRetries, 0, "CEX timeout");
    assert FailsForGood(cex(k + 1)) by {
      assert PERMANENT[6] == "duplicate";
    }
    assert !FailsForGood(cex(k));
    hide Retry, FailsForGood, Succeeds, Contains;
    RetrySettles(cex, maxRetries, 0, "CEX timeout");
    assert forall i: nat :: i <= k + 1 && i < r.attempts ==> !Succeeds(cex(i));
  }

  lemma {:induction false} FirstAccepted(accepts: nat -> bool, n: nat) returns (k: nat)
    requires AcceptsWithin(accepts, n)
    ensures k < n && FilledAt(accepts, k)
  {
    if AcceptsWithin(accepts, n - 1) {
      k := FirstAccepted(accepts, n - 1);
    } else {
      k := n - 1;
    }
  }

  /** The trade failed because the CEX leg was given up. */
  predicate CexGivenUp(t: Trade) {
    t.error.Some? && (t.error.value.CexError? || t.error.value.CexFailedUnwound?)
  }

  /** A trade that gives up its CEX leg leaves a fill on the exchange exactly if it gets to that leg
      and the filled attempt's success never comes back. Nothing is unwound for it: with the CEX
      first no unwind is called, with the DEX first the one unwind is called although both filled. */
  lemma GivenUpTradeLeavesFill(cfg: Config, signal: Signal, v: Venues, accepts: nat -> bool)
    requires Divisible(cfg, signal, v) && AnswersOf(v.cex, accepts)
    ensures var t := Legs(cfg, signal, v);
            var left := CexGivenUp(t) && ExchangeFills(t.actions, accepts).1 == 1;
            && (left <==> (cfg.useFlashbots ==> Succeeds(v.dex)) && LosesFill(v.cex, accepts, cfg.maxRetries))
            && (left ==> t.pnl == None && t.leg1.Some? == cfg.useFlashbots && t.leg2 == None)
            && (left ==> CountUnwinds(t.actions) == if cfg.useFlashbots then 1 else 0)
  {
    var r := Retry(v.cex, cfg.maxRetries, 0, "CEX timeout");
    GivenUpButFilled(v.cex, accepts, cfg.maxRetries);
    TradeFillsAtMostOnce(cfg, signal, v, accepts);
    TradeOutcome(cfg, signal, v);
    LegsGivenUp(cfg, signal, v, r);
    hide LosesFill, AcceptsWithin, ExchangeFills, Legs, Retry;
  }

  lemma LegsGivenUp(cfg: Config, signal: Signal, v: Venues, cex: Retried)
    requires Divisible(cfg, signal, v) && cex == Retry(v.cex, cfg.maxRetries, 0, "CEX timeout")
    ensures var t := Legs(cfg, signal, v);
            var reached := cfg.useFlashbots ==> Succeeds(v.dex);
            && (CexGivenUp(t) <==> reached && cex.GaveUp?)
            && CountCex(t.actions) == (if reached then cex.attempts else 0)
            && (CexGivenUp(t) ==> t.leg1.Some? == cfg.useFlashbots && t.leg2 == None
                                  && t.trail[|t.trail| - 1] == Failed)
  {
    if cfg.useFlashbots {
      DexFirstOrders(cfg, signal, v, cex);
    } else {
      CexFirstOrders(cfg, signal, v, cex);
    }
    hide Retry, Pnl, CountCex, Orders, OrderSize;
  }

  // ---- whole runs of executions ----

  /** The clock readings of one execution, in the order they are taken. */
  datatype Clock = Clock(tOpen: real, tDup: real, tValid: real, tMark: real, tRecord: real, tTrip: real)

  predicate Ticks(c: Clock) {
    c.tOpen <= c.tDup <= c.tValid <= c.tMark <= c.tRecord <= c.tTrip
  }

  predicate IsValid(signal: Signal, now: real) {
    now < signal.expiry && signal.inventoryOk && signal.withinLimits
  }

  /** One call of `execute`, with what its legs would do if they were started. */
  datatype Call = Call(signal: Signal, clock: Clock, legs: Trade)

  datatype ExecState = ExecState(breaker: Breaker, executed: Executed)

  datatype Limits = Limits(breaker: BreakerConfig, ttl: real)

  predicate Settled(t: Trade) {
    t.trail != [] && t.trail[|t.trail| - 1] == Done
  }

  /** The signal gets past breaker, replay guard and validation. */
  predicate Passes(l: Limits, s: ExecState, signal: Signal, clock: Clock) {
    && !IsOpen(l.breaker, s.breaker, clock.tOpen)
    && signal.id !in Cleanup(s.executed, l.ttl, clock.tDup)
    && IsValid(signal, clock.tValid)
  }

  /** The call passes all gates, so that its legs run. */
  predicate Starts(l: Limits, s: ExecState, c: Call) {
    Passes(l, s, c.signal, c.clock)
  }

  function Step(l: Limits, s: ExecState, c: Call): ExecState {
    var b := AfterCheck(l.breaker, s.breaker, c.clock.tOpen);
    if IsOpen(l.breaker, s.breaker, c.clock.tOpen) then s
    else
      var executed := Cleanup(s.executed, l.ttl, c.clock.tDup);
      if !Starts(l, s, c) then ExecState(b, executed)
      else ExecState(if Settled(c.legs) then AfterSuccess(b)
                     else AfterFailure(l.breaker, b, c.clock.tRecord, c.clock.tTrip),
                     executed[c.signal.id := c.clock.tMark])
  }

  /** What the returned context shows. */
  function Shown(l: Limits, s: ExecState, c: Call): Trade {
    if IsOpen(l.breaker, s.breaker, c.clock.tOpen) then
      Trade([Idle, Failed], [], None, None, None, Some(BreakerOpen))
    else if c.signal.id in Cleanup(s.executed, l.ttl, c.clock.tDup) then
      Trade([Idle, Failed], [], None, None, None, Some(DuplicateSignal))
    else if !IsValid(c.signal, c.clock.tValid) then
      Trade([Idle, Validating, Failed], [], None, None, None, Some(SignalInvalid))
    else c.legs.(trail := [Idle, Validating] + c.legs.trail)
  }

  /** Every execution follows the declared states from IDLE to DONE or FAILED, and touches a venue
      only if it started. */
  lemma ExecutionFollowsGraph(l: Limits, s: ExecState, cfg: Config, signal: Signal, v: Venues, clock: Clock)
    requires Passes(l, s, signal, clock) ==> Divisible(cfg, signal, v)
    ensures var c := Call(signal, clock, LegsIfRun(cfg, signal, v));
            var t := Shown(l, s, c);
            && FollowsGraph(t.trail)
            && t.trail[0] == Idle && t.trail[|t.trail| - 1] in {Done, Failed}
            && (t.actions != [] ==> Starts(l, s, c))
            && (t.trail[|t.trail| - 1] == Done ==> Starts(l, s, c) && t.leg1.Some? && t.leg2.Some?)
  {
    hide Legs, IsOpen, CexDivisible;
    if Passes(l, s, signal, clock) {
      LegsEndDoneOrFailed(cfg, signal, v);
      TradeOutcome(cfg, signal, v);
    }
  }

  /** The gates in their order, each by what it looks at: the breaker's cooldown, the time of the last
      completion under the same id, and the signal itself. */
  lemma GatesInOrder(l: Limits, s: ExecState, c: Call)
    ensures var open := s.breaker.trippedAt.Some?
                        && c.clock.tOpen - s.breaker.trippedAt.value <= l.breaker.cooldownSeconds;
            var duplicate := c.signal.id in s.executed && s.executed[c.signal.id] > c.clock.tDup - l.ttl;
            var valid := c.clock.tValid < c.signal.expiry && c.signal.inventoryOk && c.signal.withinLimits;
            var t := Shown(l, s, c);
            && (Starts(l, s, c) <==> !open && !duplicate && valid)
            && (open ==> t.error == Some(BreakerOpen))
            && (!open && duplicate ==> t.error == Some(DuplicateSignal))
            && (!open && !duplicate && !valid ==> t.error == Some(SignalInvalid))
            && (!Starts(l, s, c) ==> t.actions == [] && t.trail[|t.trail| - 1] == Failed)
            && (Starts(l, s, c) ==> t.actions == c.legs.actions && t.error == c.legs.error)
  {
  }

  /** What a call that ran its legs leaves behind: the signal is marked with its completion time; a
      finished trade adds no failure and leaves no trip, any other counts as a failure at its own
      time or trips. */
  lemma OutcomeIsRecorded(l: Limits, s: ExecState, c: Call)
    requires Starts(l, s, c) && c.legs.trail != [] && 0.0 < l.breaker.windowSeconds
    ensures var s' := Step(l, s, c);
            var done := c.legs.trail[|c.legs.trail| - 1] == Done;
            && c.signal.id in s'.executed && s'.executed[c.signal.id] == c.clock.tMark
            && (forall id :: id in s'.executed && id != c.signal.id ==>
                  id in s.executed && s'.executed[id] == s.executed[id] > c.clock.tDup - l.ttl)
            && (done ==> s'.breaker.trippedAt == None && !s'.breaker.probeAllowed)
            && (done ==> forall t :: t in s'.breaker.failures ==> t in s.breaker.failures)
            && (!done ==> s'.breaker.trippedAt.Some? || c.clock.tRecord in s'.breaker.failures)
  {
    var b := AfterCheck(l.breaker, s.breaker, c.clock.tOpen);
    var cutoff := c.clock.tRecord - l.breaker.windowSeconds;
    AfterSnoc(b.failures, c.clock.tRecord, cutoff);
    hide After;
  }

  function RunCalls(l: Limits, calls: seq<Call>): ExecState {
    if calls == [] then ExecState(FRESH, map[])
    else Step(l, RunCalls(l, calls[..|calls| - 1]), calls[|calls| - 1])
  }

  /** Calls are made one after another. */
  ghost predicate Sequential(calls: seq<Call>) {
    && (forall i :: 0 <= i < |calls| ==> Ticks(calls[i].clock))
    && (forall i, j :: 0 <= i < j < |calls| ==> calls[i].clock.tTrip <= calls[j].clock.tOpen)
  }

  predicate StartsAt(l: Limits, calls: seq<Call>, i: nat)
    requires i < |calls|
  {
    Starts(l, RunCalls(l, calls[..i]), calls[i])
  }

  /** The legs of call `i` run while the breaker is half-open. */
  predicate IsProbe(l: Limits, calls: seq<Call>, i: nat)
    requires i < |calls|
  {
    StartsAt(l, calls, i)
    && AfterCheck(l.breaker, RunCalls(l, calls[..i]).breaker, calls[i].clock.tOpen).probeAllowed
  }

  /** When call `i` trips the breaker, and at what time. */
  function TripAt(l: Limits, calls: seq<Call>, i: nat): Option<real>
    requires i < |calls|
  {
    if !StartsAt(l, calls, i) || Settled(calls[i].legs) then None
    else
      var b := AfterCheck(l.breaker, RunCalls(l, calls[..i]).breaker, calls[i].clock.tOpen);
      TripTime(l.breaker, b, Failure(calls[i].clock.tRecord, calls[i].clock.tTrip))
  }

  lemma SequentialPrefix(calls: seq<Call>, n: nat)
    requires Sequential(calls) && n <= |calls|
    ensures Sequential(calls[..n])
  {
    assert forall i :: 0 <= i < n ==> calls[..n][i] == calls[i];
  }

  /** Half-open implies not tripped, throughout. */
  lemma {:induction false} ProbeNotTripped(l: Limits, calls: seq<Call>)
    ensures RunCalls(l, calls).breaker.probeAllowed ==> RunCalls(l, calls).breaker.trippedAt == None
  {
    if calls != [] {
      ProbeNotTripped(l, calls[..|calls| - 1]);
    }
  }

  lemma {:induction false} TripStaysInForce(l: Limits, calls: seq<Call>, i: nat)
    requires Sequential(calls) && i < |calls| && TripAt(l, calls, i).Some?
    ensures CoolingDown(l.breaker, RunCalls(l, calls).breaker,
                        TripAt(l, calls, i).value, calls[|calls| - 1].clock.tTrip)
    decreases |calls|
  {
    hide RunCalls, TripAt, Step, CoolingDown, StartsAt, Settled;
    var n := |calls| - 1;
    var init := calls[..n];
    if i == n {
      TripTakesForce(l, calls);
    } else {
      RunCallsStep(l, calls);
      SequentialPrefix(calls, n);
      assert init[n - 1] == calls[n - 1] && init[i] == calls[i];
      TripAtInPrefix(l, calls, i);
      TripStaysInForce(l, init, i);
      ProbeNotTripped(l, init);
      TripDuringCall(l, calls, i);
      CallKeepsTrip(l, RunCalls(l, init), calls[n], TripAt(l, calls, i).value, calls[n - 1].clock.tTrip);
    }
  }

  /** When a call trips the breaker depends on the calls before it alone. */
  lemma TripAtInPrefix(l: Limits, calls: seq<Call>, i: nat)
    requires i < |calls| - 1
    ensures TripAt(l, calls[..|calls| - 1], i) == TripAt(l, calls, i)
  {
    hide RunCalls, Step, AfterCheck, TripTime, Starts;
    assert calls[..|calls| - 1][..i] == calls[..i];
  }

  lemma TripTakesForce(l: Limits, calls: seq<Call>)
    requires calls != [] && TripAt(l, calls, |calls| - 1).Some?
    ensures CoolingDown(l.breaker, RunCalls(l, calls).breaker,
                        TripAt(l, calls, |calls| - 1).value, calls[|calls| - 1].clock.tTrip)
  {
    hide RunCalls, Cleanup, After, IsValid;
    RunCallsStep(l, calls);
  }

  lemma TripDuringCall(l: Limits, calls: seq<Call>, i: nat)
    requires i < |calls| && TripAt(l, calls, i).Some? && Ticks(calls[i].clock)
    ensures TripAt(l, calls, i).value <= calls[i].clock.tTrip
  {
    hide RunCalls, StartsAt, AfterCheck;
  }

  /** A later call leaves an earlier trip in force, trips anew, or finds its cooldown over. */
  lemma CallKeepsTrip(l: Limits, s: ExecState, c: Call, trip: real, before: real)
    requires CoolingDown(l.breaker, s.breaker, trip, before) && trip <= before <= c.clock.tOpen && Ticks(c.clock)
    requires s.breaker.probeAllowed ==> s.breaker.trippedAt == None
    ensures CoolingDown(l.breaker, Step(l, s, c).breaker, trip, c.clock.tTrip)
  {
    hide Cleanup, After, IsValid;
  }

  /** After a trip no legs are started until more than the cooldown has passed. */
  lemma NoTradeDuringCooldown(l: Limits, calls: seq<Call>, i: nat, j: nat)
    requires Sequential(calls) && i < j < |calls| && TripAt(l, calls, i).Some? && StartsAt(l, calls, j)
    ensures calls[j].clock.tOpen - TripAt(l, calls, i).value > l.breaker.cooldownSeconds
  {
    SequentialPrefix(calls, j);
    assert calls[..j][..i] == calls[..i];
    TripStaysInForce(l, calls[..j], i);
    assert calls[..j][j - 1] == calls[j - 1];
  }

  /** A trade that ran half-open leaves the breaker fully reset or tripped. */
  lemma ProbeDecides(l: Limits, calls: seq<Call>, i: nat)
    requires i < |calls| && IsProbe(l, calls, i)
    ensures if Settled(calls[i].legs) then RunCalls(l, calls[..i + 1]).breaker == FRESH
            else TripAt(l, calls, i) == Some(calls[i].clock.tRecord)
                 && RunCalls(l, calls[..i + 1]).breaker.trippedAt == Some(calls[i].clock.tRecord)
  {
    assert calls[..i + 1][..i] == calls[..i];
  }

  /** A call that does not run its legs leaves a trip in force, or makes the breaker half-open. */
  lemma {:induction false} TripOrHalfOpen(l: Limits, calls: seq<Call>, i: nat, j: nat)
    requires i < j <= |calls| && TripAt(l, calls, i).Some?
    requires forall m :: i < m < j ==> !StartsAt(l, calls, m)
    ensures var b := RunCalls(l, calls[..j]).breaker;
            (b.trippedAt.Some? && !b.probeAllowed) || (b.trippedAt == None && b.probeAllowed)
    decreases j
  {
    hide RunCalls, TripAt, StartsAt, Step;
    if j == i + 1 {
      TripHasEffect(l, calls, i);
    } else {
      TripOrHalfOpen(l, calls, i, j - 1);
      UnstartedStep(l, calls, j - 1);
    }
  }

  lemma TripHasEffect(l: Limits, calls: seq<Call>, i: nat)
    requires i < |calls| && TripAt(l, calls, i).Some?
    ensures RunCalls(l, calls[..i + 1]).breaker.trippedAt == TripAt(l, calls, i)
    ensures !RunCalls(l, calls[..i + 1]).breaker.probeAllowed
  {
    hide Cleanup, After, IsValid;
    assert calls[..i + 1][..i] == calls[..i];
  }

  lemma UnstartedStep(l: Limits, calls: seq<Call>, i: nat)
    requires i < |calls| && !StartsAt(l, calls, i)
    ensures var b, b' := RunCalls(l, calls[..i]).breaker, RunCalls(l, calls[..i + 1]).breaker;
            b' == b || (b.trippedAt.Some? && b' == Breaker([], None, true))
  {
    hide Cleanup, After, IsValid;
    assert calls[..i + 1][..i] == calls[..i];
  }

  /** The first trade after a trip's cooldown is a probe: if it is not finished it trips at once,
      whatever the threshold, and if it is the breaker starts afresh. */
  lemma FirstTradeAfterTripProbes(l: Limits, calls: seq<Call>, i: nat, j: nat)
    requires i < j < |calls| && TripAt(l, calls, i).Some?
    requires (forall m :: i < m < j ==> !StartsAt(l, calls, m)) && StartsAt(l, calls, j)
    requires calls[j].legs.trail != []
    ensures IsProbe(l, calls, j)
    ensures var b := RunCalls(l, calls[..j + 1]).breaker;
            if calls[j].legs.trail[|calls[j].legs.trail| - 1] == Done then b == Breaker([], None, false)
            else b.trippedAt == Some(calls[j].clock.tRecord)
  {
    TripOrHalfOpen(l, calls, i, j);
    hide RunCalls, TripAt, Cleanup;
    ProbeDecides(l, calls, j);
  }

  lemma {:induction false} ClosedUntilTrip(l: Limits, calls: seq<Call>, i: nat, j: nat)
    requires i <= j < |calls|
    requires RunCalls(l, calls[..i]).breaker.trippedAt == None && !RunCalls(l, calls[..i]).breaker.probeAllowed
    requires forall k :: i <= k < j ==> TripAt(l, calls, k) == None
    ensures RunCalls(l, calls[..j]).breaker.trippedAt == None && !RunCalls(l, calls[..j]).breaker.probeAllowed
    decreases j
  {
    if i < j {
      hide RunCalls, TripAt;
      ClosedUntilTrip(l, calls, i, j - 1);
      StaysClosed(l, calls, j - 1);
    }
  }

  lemma StaysClosed(l: Limits, calls: seq<Call>, i: nat)
    requires i < |calls| && TripAt(l, calls, i) == None
    requires RunCalls(l, calls[..i]).breaker.trippedAt == None && !RunCalls(l, calls[..i]).breaker.probeAllowed
    ensures RunCalls(l, calls[..i + 1]).breaker.trippedAt == None && !RunCalls(l, calls[..i + 1]).breaker.probeAllowed
  {
    assert calls[..i + 1][..i] == calls[..i];
  }

  /** Exactly one trade runs while the breaker is half-open: between two probes lies a trip, and
      with it a whole cooldown. */
  lemma OneTradePerHalfOpen(l: Limits, calls: seq<Call>, i: nat, j: nat)
    requires Sequential(calls) && i < j < |calls| && IsProbe(l, calls, i) && IsProbe(l, calls, j)
    ensures exists k :: i <= k < j && TripAt(l, calls, k).Some?
                        && calls[j].clock.tOpen - TripAt(l, calls, k).value > l.breaker.cooldownSeconds
  {
    ProbeDecides(l, calls, i);
    var k := i;
    if Settled(calls[i].legs) {
      if forall k :: i < k < j ==> TripAt(l, calls, k) == None {
        ClosedUntilTrip(l, calls, i + 1, j);
        assert false;
      }
      k :| i < k < j && TripAt(l, calls, k) != None;
    }
    NoTradeDuringCooldown(l, calls, k, j);
  }

  /** A completed signal is remembered until its time to live has passed. */
  lemma {:induction false} CompletionIsRemembered(l: Limits, calls: seq<Call>, i: nat, now: real)
    requires Sequential(calls) && i < |calls| && StartsAt(l, calls, i)
    requires calls[|calls| - 1].clock.tTrip <= now
    ensures var executed := RunCalls(l, calls).executed;
            var id := calls[i].signal.id;
            (id in executed && executed[id] >= calls[i].clock.tMark) || calls[i].clock.tMark <= now - l.ttl
    decreases |calls|
  {
    hide RunCalls;
    var n := |calls| - 1;
    var init := calls[..n];
    RunCallsStep(l, calls);
    if i < n {
      SequentialPrefix(calls, n);
      assert init[..i] == calls[..i] && init[n - 1] == calls[n - 1];
      CompletionIsRemembered(l, init, i, calls[n].clock.tDup);
      assert calls[i].clock.tMark <= calls[i].clock.tTrip <= calls[n].clock.tOpen;
      StepRemembers(l, RunCalls(l, init), calls[n], calls[i].signal.id, calls[i].clock.tMark, now);
    }
  }

  lemma RunCallsStep(l: Limits, calls: seq<Call>)
    requires calls != []
    ensures RunCalls(l, calls) == Step(l, RunCalls(l, calls[..|calls| - 1]), calls[|calls| - 1])
  {
  }

  /** A call forgets a completion only when its time to live has passed. */
  lemma StepRemembers(l: Limits, s: ExecState, c: Call, id: string, mark: real, now: real)
    requires Ticks(c.clock) && mark <= c.clock.tOpen && c.clock.tTrip <= now
    requires (id in s.executed && s.executed[id] >= mark) || mark <= c.clock.tDup - l.ttl
    ensures var executed := Step(l, s, c).executed;
            (id in executed && executed[id] >= mark) || mark <= now - l.ttl
  {
    hide IsOpen, AfterCheck, AfterSuccess, AfterFailure, IsValid;
  }

  /** No signal id starts legs again before its time to live since its completion has passed. */
  lemma NoReplayWithinTtl(l: Limits, calls: seq<Call>, i: nat, j: nat)
    requires Sequential(calls) && i < j < |calls| && StartsAt(l, calls, i) && StartsAt(l, calls, j)
    requires calls[i].signal.id == calls[j].signal.id
    ensures calls[j].clock.tDup >= calls[i].clock.tMark + l.ttl
  {
    SequentialPrefix(calls, j);
    assert calls[..j][..i] == calls[..i] && calls[..j][j - 1] == calls[j - 1];
    CompletionIsRemembered(l, calls[..j], i, calls[j].clock.tDup);
  }
}
