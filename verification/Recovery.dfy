/** Circuit breaker and replay protection: executor/recovery.py. Every clock reading of the
    source is a parameter here; readings never decrease. */
module Recovery {
  import opened Common

  datatype BreakerConfig = BreakerConfig(failureThreshold: int, windowSeconds: real, cooldownSeconds: real)

  /** The breaker's fields. `probeAllowed` marks the half-open state. */
  datatype Breaker = Breaker(failures: seq<real>, trippedAt: Option<real>, probeAllowed: bool)

  const FRESH := Breaker([], None, false)

  /** The times later than a cutoff, in their order. */
  function After(times: seq<real>, cutoff: real): seq<real> {
    if times == [] then []
    else
      var init, last := After(times[..|times| - 1], cutoff), times[|times| - 1];
      if last > cutoff then init + [last] else init
  }

  /** Exactly the later ones are kept, each as often as it occurred. */
  lemma {:induction false} AfterKeepsExactly(times: seq<real>, cutoff: real, t: real)
    ensures multiset(After(times, cutoff))[t] == if t > cutoff then multiset(times)[t] else 0
  {
    if times != [] {
      var n := |times| - 1;
      AfterKeepsExactly(times[..n], cutoff, t);
      assert times == times[..n] + [times[n]];
      assert multiset(times)[t] == multiset(times[..n])[t] + (if times[n] == t then 1 else 0);
    }
  }

  /** `now` is the failure's time, `later` the reading taken by `trip`. */
  function AfterFailure(cfg: BreakerConfig, b: Breaker, now: real, later: real): Breaker {
    if b.probeAllowed then b.(probeAllowed := false, trippedAt := Some(now))
    else
      var recent := After(b.failures + [now], now - cfg.windowSeconds);
      if |recent| >= cfg.failureThreshold then Breaker(recent, Some(later), false)
      else b.(failures := recent)
  }

  function AfterSuccess(b: Breaker): Breaker {
    if b.probeAllowed then FRESH else b
  }

  predicate IsOpen(cfg: BreakerConfig, b: Breaker, now: real) {
    b.trippedAt.Some? && now - b.trippedAt.value <= cfg.cooldownSeconds
  }

  function AfterCheck(cfg: BreakerConfig, b: Breaker, now: real): Breaker {
    if b.trippedAt.Some? && !IsOpen(cfg, b, now) then Breaker([], None, true) else b
  }

  class CircuitBreaker {
    const config: BreakerConfig
    var failures: seq<real>
    var trippedAt: Option<real>
    var probeAllowed: bool

    constructor (config: BreakerConfig)
      ensures this.config == config && State() == FRESH
    {
      this.config := config;
      failures, trippedAt, probeAllowed := [], None, false;
    }

    function State(): Breaker
      reads this
    {
      Breaker(failures, trippedAt, probeAllowed)
    }

    method RecordFailure(now: real, later: real)
      modifies this
      ensures State() == AfterFailure(config, old(State()), now, later)
    {
      if probeAllowed {
        probeAllowed := false;
        trippedAt := Some(now);
        return;
      }
      failures := failures + [now];
      failures := After(failures, now - config.windowSeconds);
      if |failures| >= config.failureThreshold {
        Trip(later);
      }
    }

    method RecordSuccess()
      modifies this
      ensures State() == AfterSuccess(old(State()))
    {
      if probeAllowed {
        probeAllowed := false;
        trippedAt := None;
        failures := [];
      }
    }

    method Trip(now: real)
      modifies this
      ensures State() == old(State()).(trippedAt := Some(now), probeAllowed := false)
    {
      trippedAt := Some(now);
      probeAllowed := false;
    }

    method CheckOpen(now: real) returns (open: bool)
      modifies this
      ensures open == IsOpen(config, old(State()), now)
      ensures State() == AfterCheck(config, old(State()), now)
    {
      if trippedAt == None {
        return false;
      }
      if now - trippedAt.value > config.cooldownSeconds {
        trippedAt := None;
        failures := [];
        if !probeAllowed {
          probeAllowed := true;
        }
        return false;
      }
      return true;
    }
  }

  // ---- whole runs of the breaker ----

  datatype Op =
    | Failure(now: real, later: real)
    | Success(now: real)
    | Check(now: real)
    | ForcedTrip(now: real)

  /** The last clock reading of an operation. */
  function End(op: Op): real {
    if op.Failure? then op.later else op.now
  }

  /** Readings never decrease along a run. */
  ghost predicate Timed(ops: seq<Op>) {
    && (forall i :: 0 <= i < |ops| && ops[i].Failure? ==> ops[i].now <= ops[i].later)
    && (forall i, j :: 0 <= i < j < |ops| ==> End(ops[i]) <= ops[j].now)
  }

  function Apply(cfg: BreakerConfig, b: Breaker, op: Op): Breaker {
    match op
    case Failure(now, later) => AfterFailure(cfg, b, now, later)
    case Success(_) => AfterSuccess(b)
    case Check(now) => AfterCheck(cfg, b, now)
    case ForcedTrip(now) => b.(trippedAt := Some(now), probeAllowed := false)
  }

  function Run(cfg: BreakerConfig, ops: seq<Op>): Breaker {
    if ops == [] then FRESH else Apply(cfg, Run(cfg, ops[..|ops| - 1]), ops[|ops| - 1])
  }

  /** All failures since the last reset, never pruned. A reset is a probe that succeeded or a
      check that let the first probe through; a failed probe re-trips without being counted. */
  function History(cfg: BreakerConfig, ops: seq<Op>): seq<real> {
    if ops == [] then []
    else NextHistory(cfg, Run(cfg, ops[..|ops| - 1]), History(cfg, ops[..|ops| - 1]), ops[|ops| - 1])
  }

  function NextHistory(cfg: BreakerConfig, b: Breaker, history: seq<real>, op: Op): seq<real> {
    match op
    case Failure(now, _) => if b.probeAllowed then history else history + [now]
    case Success(_) => if b.probeAllowed then [] else history
    case Check(now) => if b.trippedAt.Some? && !IsOpen(cfg, b, now) then [] else history
    case ForcedTrip(_) => history
  }

  /** Pruning twice is pruning once, with the later cutoff. */
  lemma {:induction false} AfterAfter(times: seq<real>, c: real, d: real)
    requires c <= d
    ensures After(After(times, c), d) == After(times, d)
  {
    if times != [] {
      var n := |times| - 1;
      AfterAfter(times[..n], c, d);
      if times[n] > c {
        AfterSnoc(After(times[..n], c), times[n], d);
      }
    }
  }

  lemma AfterSnoc(times: seq<real>, t: real, cutoff: real)
    ensures After(times + [t], cutoff) == After(times, cutoff) + (if t > cutoff then [t] else [])
  {
    assert (times + [t])[..|times|] == times;
  }

  /** A full history, and the part of it in the window of its last entry. */
  ghost predicate IsWindowOf(failures: seq<real>, history: seq<real>, window: real) {
    failures == if history == [] then [] else After(history, history[|history| - 1] - window)
  }

  lemma PruneAppended(failures: seq<real>, history: seq<real>, window: real, now: real)
    requires IsWindowOf(failures, history, window)
    requires forall t :: t in history ==> t <= now
    ensures After(failures + [now], now - window) == After(history + [now], now - window)
  {
    hide After;
    var cutoff := now - window;
    AfterSnoc(history, now, cutoff);
    AfterSnoc(failures, now, cutoff);
    if history != [] {
      assert history[|history| - 1] in history;
      AfterAfter(history, history[|history| - 1] - window, cutoff);
    }
  }

  lemma TimedPrefix(ops: seq<Op>)
    requires Timed(ops) && ops != []
    ensures Timed(ops[..|ops| - 1])
    ensures |ops| > 1 ==> LastEnd(ops[..|ops| - 1]) <= ops[|ops| - 1].now
  {
    var init := ops[..|ops| - 1];
    assert forall i :: 0 <= i < |init| ==> init[i] == ops[i];
  }

  function LastEnd(ops: seq<Op>): real {
    if ops == [] then 0.0 else End(ops[|ops| - 1])
  }

  lemma {:induction false} HistoryNotLaterThanRun(cfg: BreakerConfig, ops: seq<Op>)
    requires Timed(ops)
    ensures ops == [] ==> History(cfg, ops) == []
    ensures forall t :: t in History(cfg, ops) ==> t <= LastEnd(ops)
  {
    if ops != [] {
      TimedPrefix(ops);
      HistoryNotLaterThanRun(cfg, ops[..|ops| - 1]);
    }
  }

  /** One operation keeps the pruned list equal to the window of the full history. */
  lemma StepKeepsWindow(cfg: BreakerConfig, b: Breaker, history: seq<real>, op: Op)
    requires IsWindowOf(b.failures, history, cfg.windowSeconds)
    requires b.probeAllowed ==> b.failures == history == []
    requires forall t :: t in history ==> t <= op.now
    ensures IsWindowOf(Apply(cfg, b, op).failures, NextHistory(cfg, b, history, op), cfg.windowSeconds)
  {
    hide After;
    if op.Failure? && !b.probeAllowed {
      PruneAppended(b.failures, history, cfg.windowSeconds, op.now);
    }
  }

  /** The pruned list is the full history seen through the window of its last failure. */
  lemma {:induction false} FailuresAreWindowOfHistory(cfg: BreakerConfig, ops: seq<Op>)
    requires Timed(ops)
    ensures IsWindowOf(Run(cfg, ops).failures, History(cfg, ops), cfg.windowSeconds)
  {
    if ops != [] {
      var init := ops[..|ops| - 1];
      TimedPrefix(ops);
      FailuresAreWindowOfHistory(cfg, init);
      ProbeIsCleared(cfg, init);
      HistoryNotLaterThanRun(cfg, init);
      StepKeepsWindow(cfg, Run(cfg, init), History(cfg, init), ops[|ops| - 1]);
    }
  }

  /** A trip happens exactly when the failures of the full history that lie in the window ending
      now reach the threshold. */
  lemma TripsExactlyAtThreshold(cfg: BreakerConfig, ops: seq<Op>)
    requires Timed(ops) && ops != [] && ops[|ops| - 1].Failure?
    requires !Run(cfg, ops[..|ops| - 1]).probeAllowed
    ensures var init, op := ops[..|ops| - 1], ops[|ops| - 1];
            var recent := After(History(cfg, init) + [op.now], op.now - cfg.windowSeconds);
            Run(cfg, ops)
            == if |recent| >= cfg.failureThreshold then Breaker(recent, Some(op.later), false)
               else Breaker(recent, Run(cfg, init).trippedAt, false)
  {
    hide History, After;
    var init, op := ops[..|ops| - 1], ops[|ops| - 1];
    TimedPrefix(ops);
    FailuresAreWindowOfHistory(cfg, init);
    HistoryNotLaterThanRun(cfg, init);
    PruneAppended(Run(cfg, init).failures, History(cfg, init), cfg.windowSeconds, op.now);
  }

  /** A half-open breaker is not tripped and remembers no failures. */
  lemma {:induction false} ProbeIsCleared(cfg: BreakerConfig, ops: seq<Op>)
    ensures Run(cfg, ops).probeAllowed ==>
              Run(cfg, ops).trippedAt == None && Run(cfg, ops).failures == [] && History(cfg, ops) == []
  {
    if ops != [] {
      ProbeIsCleared(cfg, ops[..|ops| - 1]);
    }
  }

  /** Short of the threshold the breaker is closed, and closed means short of the threshold. */
  lemma {:induction false} ClosedIsBelowThreshold(cfg: BreakerConfig, ops: seq<Op>)
    requires cfg.failureThreshold >= 1
    ensures Run(cfg, ops).trippedAt == None ==> |Run(cfg, ops).failures| < cfg.failureThreshold
  {
    if ops != [] {
      ClosedIsBelowThreshold(cfg, ops[..|ops| - 1]);
    }
  }

  /** Times at which an operation set `tripped_at`. */
  function TripTime(cfg: BreakerConfig, b: Breaker, op: Op): Option<real> {
    match op
    case Failure(now, later) =>
      if b.probeAllowed then Some(now)
      else if |After(b.failures + [now], now - cfg.windowSeconds)| >= cfg.failureThreshold then Some(later)
      else None
    case ForcedTrip(now) => Some(now)
    case Success(_) => None
    case Check(_) => None
  }

  /** Every past trip is still in force or its cooldown is over. */
  ghost predicate CoolingDown(cfg: BreakerConfig, b: Breaker, trip: real, now: real) {
    (b.trippedAt.Some? && b.trippedAt.value >= trip) || now - trip > cfg.cooldownSeconds
  }

  lemma {:induction false} TripHoldsThroughCooldown(cfg: BreakerConfig, ops: seq<Op>, k: nat)
    requires Timed(ops) && k < |ops| && TripTime(cfg, Run(cfg, ops[..k]), ops[k]).Some?
    ensures CoolingDown(cfg, Run(cfg, ops), TripTime(cfg, Run(cfg, ops[..k]), ops[k]).value, End(ops[|ops| - 1]))
    decreases |ops|
  {
    hide Run, TripTime;
    var n := |ops| - 1;
    var init := ops[..n];
    RunStep(cfg, ops);
    if k < n {
      assert init[..k] == ops[..k];
      TimedPrefix(ops);
      TripHoldsThroughCooldown(cfg, init, k);
      assert init[n - 1] == ops[n - 1];
      ProbeIsCleared(cfg, init);
      TripNotLater(cfg, Run(cfg, ops[..k]), ops[k]);
      CoolingStep(cfg, Run(cfg, init), ops[n], TripTime(cfg, Run(cfg, ops[..k]), ops[k]).value, End(ops[n - 1]));
    } else {
      TripTakesEffect(cfg, Run(cfg, init), ops[n]);
    }
  }

  lemma TripTakesEffect(cfg: BreakerConfig, b: Breaker, op: Op)
    requires TripTime(cfg, b, op).Some?
    ensures Apply(cfg, b, op).trippedAt == TripTime(cfg, b, op)
  {
    hide After;
  }

  lemma TripNotLater(cfg: BreakerConfig, b: Breaker, op: Op)
    requires TripTime(cfg, b, op).Some? && op.now <= End(op)
    ensures TripTime(cfg, b, op).value <= End(op)
  {
    hide After;
  }

  /** A later operation leaves an earlier trip in force, trips anew, or finds its cooldown over. */
  lemma CoolingStep(cfg: BreakerConfig, b: Breaker, op: Op, trip: real, before: real)
    requires CoolingDown(cfg, b, trip, before) && trip <= before <= op.now <= End(op)
    requires b.probeAllowed ==> b.trippedAt == None
    ensures CoolingDown(cfg, Apply(cfg, b, op), trip, End(op))
  {
    hide After;
  }

  /** After a trip no check passes until more than the cooldown has elapsed, whatever else
      was recorded in between. */
  lemma NoCheckPassesDuringCooldown(cfg: BreakerConfig, ops: seq<Op>, k: nat, now: real)
    requires Timed(ops) && k < |ops| && End(ops[|ops| - 1]) <= now
    requires TripTime(cfg, Run(cfg, ops[..k]), ops[k]).Some?
    requires !IsOpen(cfg, Run(cfg, ops), now)
    ensures now - TripTime(cfg, Run(cfg, ops[..k]), ops[k]).value > cfg.cooldownSeconds
  {
    TripHoldsThroughCooldown(cfg, ops, k);
  }

  /** A trip in force, or behind a check that passed after its cooldown. */
  ghost predicate InForceOrOver(cfg: BreakerConfig, b: Breaker, trip: real, now: real) {
    b.trippedAt == Some(trip) || (b.trippedAt == None && now - trip > cfg.cooldownSeconds)
  }

  lemma UntrippedStep(cfg: BreakerConfig, b: Breaker, op: Op, trip: real, before: real)
    requires InForceOrOver(cfg, b, trip, before) && TripTime(cfg, b, op) == None
    requires before <= op.now <= End(op) && (b.probeAllowed ==> b.trippedAt == None)
    ensures InForceOrOver(cfg, Apply(cfg, b, op), trip, End(op))
  {
    hide After;
  }

  lemma RunStep(cfg: BreakerConfig, ops: seq<Op>)
    requires ops != []
    ensures Run(cfg, ops) == Apply(cfg, Run(cfg, ops[..|ops| - 1]), ops[|ops| - 1])
  {
  }

  /** Seen from the latest trip: it is in force, or a check has passed after its cooldown. */
  lemma {:induction false} LatestTripDecides(cfg: BreakerConfig, ops: seq<Op>, k: nat)
    requires Timed(ops) && k < |ops| && TripTime(cfg, Run(cfg, ops[..k]), ops[k]).Some?
    requires forall i :: k < i < |ops| ==> TripTime(cfg, Run(cfg, ops[..i]), ops[i]) == None
    ensures InForceOrOver(cfg, Run(cfg, ops), TripTime(cfg, Run(cfg, ops[..k]), ops[k]).value, LastEnd(ops))
    decreases |ops|
  {
    hide After, History, Run;
    var n := |ops| - 1;
    var init := ops[..n];
    RunStep(cfg, ops);
    if k < n {
      assert init[..k] == ops[..k];
      TimedPrefix(ops);
      forall i | k < i < n
        ensures TripTime(cfg, Run(cfg, init[..i]), init[i]) == None
      {
        assert init[..i] == ops[..i];
      }
      LatestTripDecides(cfg, init, k);
      ProbeIsCleared(cfg, init);
      UntrippedStep(cfg, Run(cfg, init), ops[n], TripTime(cfg, Run(cfg, ops[..k]), ops[k]).value, LastEnd(init));
    }
  }

  /** After the latest trip the breaker is open exactly for the cooldown. */
  lemma OpenExactlyDuringCooldown(cfg: BreakerConfig, ops: seq<Op>, k: nat, now: real)
    requires Timed(ops) && k < |ops| && LastEnd(ops) <= now
    requires TripTime(cfg, Run(cfg, ops[..k]), ops[k]).Some?
    requires forall i :: k < i < |ops| ==> TripTime(cfg, Run(cfg, ops[..i]), ops[i]) == None
    ensures IsOpen(cfg, Run(cfg, ops), now)
       <==> now - TripTime(cfg, Run(cfg, ops[..k]), ops[k]).value <= cfg.cooldownSeconds
  {
    LatestTripDecides(cfg, ops, k);
  }

  // ---- when the breaker is half-open ----

  /** The trip set by operation `i`, if it set one. */
  function TripOf(cfg: BreakerConfig, ops: seq<Op>, i: nat): Option<real>
    requires i < |ops|
  {
    TripTime(cfg, Run(cfg, ops[..i]), ops[i])
  }

  /** Operation `j` is a check after the cooldown of the trip set by operation `i`. */
  predicate LateCheck(cfg: BreakerConfig, ops: seq<Op>, i: nat, j: nat)
    requires i < |ops| && j < |ops| && TripOf(cfg, ops, i).Some?
  {
    ops[j].Check? && ops[j].now - TripOf(cfg, ops, i).value > cfg.cooldownSeconds
  }

  /** Operation `i` tripped the breaker, and since then nothing tripped it again and no check came
      after the cooldown. */
  ghost predicate InForceSince(cfg: BreakerConfig, ops: seq<Op>, i: nat) {
    && i < |ops| && TripOf(cfg, ops, i).Some?
    && forall j :: i < j < |ops| ==> TripOf(cfg, ops, j) == None && !LateCheck(cfg, ops, i, j)
  }

  /** The first check after the cooldown of a trip has been made, and nothing but checks since. */
  ghost predicate AwaitsProbe(cfg: BreakerConfig, ops: seq<Op>) {
    exists i: nat, k: nat :: ProbeSince(cfg, ops, i, k)
  }

  /** That check is operation `k`, and the trip was set by operation `i`. */
  ghost predicate ProbeSince(cfg: BreakerConfig, ops: seq<Op>, i: nat, k: nat) {
    k < |ops| && InForceSince(cfg, ops[..k], i) && FirstLateCheck(cfg, ops, i, k)
  }

  ghost predicate FirstLateCheck(cfg: BreakerConfig, ops: seq<Op>, i: nat, k: nat) {
    && i < k < |ops| && TripOf(cfg, ops, i).Some? && LateCheck(cfg, ops, i, k)
    && forall j :: k < j < |ops| ==> ops[j].Check?
  }

  /** One operation: a trip, the check that ends one, or neither. */
  lemma ApplyCases(cfg: BreakerConfig, b: Breaker, op: Op)
    requires b.probeAllowed ==> b.trippedAt == None
    ensures var b', trip := Apply(cfg, b, op), TripTime(cfg, b, op);
            var late := op.Check? && b.trippedAt.Some? && op.now - b.trippedAt.value > cfg.cooldownSeconds;
            && (trip.Some? ==> b'.trippedAt == trip && !b'.probeAllowed)
            && (trip == None && late ==> b'.trippedAt == None && b'.probeAllowed)
            && (trip == None && !late ==> b'.trippedAt == b.trippedAt)
            && (trip == None && !late ==> (b'.probeAllowed <==> b.probeAllowed && op.Check?))
  {
    hide After;
  }

  lemma TripOfPrefix(cfg: BreakerConfig, ops: seq<Op>, n: nat, i: nat)
    requires i < n <= |ops|
    ensures TripOf(cfg, ops[..n], i) == TripOf(cfg, ops, i)
  {
    hide Run, TripTime;
    assert ops[..n][..i] == ops[..i];
  }

  lemma InForcePrefix(cfg: BreakerConfig, ops: seq<Op>, i: nat)
    requires i < |ops| - 1
    ensures var n := |ops| - 1;
            InForceSince(cfg, ops, i)
            <==> InForceSince(cfg, ops[..n], i) && TripOf(cfg, ops, i).Some?
                 && TripOf(cfg, ops, n) == None && !LateCheck(cfg, ops, i, n)
  {
    hide TripOf;
    var n := |ops| - 1;
    forall j: nat | j < n
      ensures TripOf(cfg, ops[..n], j) == TripOf(cfg, ops, j)
    {
      TripOfPrefix(cfg, ops, n, j);
    }
  }

  /** The breaker is tripped exactly by a trip in force, at that trip's time. */
  lemma {:induction false} TrippedExactly(cfg: BreakerConfig, ops: seq<Op>, trip: real)
    ensures Run(cfg, ops).trippedAt == Some(trip)
       <==> exists i :: InForceSince(cfg, ops, i) && TripOf(cfg, ops, i) == Some(trip)
  {
    if ops != [] {
      var n := |ops| - 1;
      var init := ops[..n];
      TrippedExactly(cfg, init, trip);
      ProbeIsCleared(cfg, init);
      RunStep(cfg, ops);
      ApplyCases(cfg, Run(cfg, init), ops[n]);
      hide Run, InForceSince, TripTime;
      assert TripOf(cfg, ops, n) == TripTime(cfg, Run(cfg, init), ops[n]);
      LastInForce(cfg, ops);
      if Run(cfg, ops).trippedAt == Some(trip) && TripOf(cfg, ops, n) == None {
        var i :| InForceSince(cfg, init, i) && TripOf(cfg, init, i) == Some(trip);
        InForceIndex(cfg, init, i);
        TripOfPrefix(cfg, ops, n, i);
        InForcePrefix(cfg, ops, i);
        assert InForceSince(cfg, ops, i);
      }
      forall i: nat | InForceSince(cfg, ops, i) && TripOf(cfg, ops, i) == Some(trip)
        ensures Run(cfg, ops).trippedAt == Some(trip)
      {
        InForceIndex(cfg, ops, i);
        if i < n {
          TripOfPrefix(cfg, ops, n, i);
          InForcePrefix(cfg, ops, i);
        }
      }
    }
  }

  lemma InForceIndex(cfg: BreakerConfig, ops: seq<Op>, i: nat)
    requires InForceSince(cfg, ops, i)
    ensures i < |ops| && TripOf(cfg, ops, i).Some?
  {
  }

  lemma LastInForce(cfg: BreakerConfig, ops: seq<Op>)
    requires ops != []
    ensures InForceSince(cfg, ops, |ops| - 1) <==> TripOf(cfg, ops, |ops| - 1).Some?
  {
  }

  /** The last operation is the first check after the cooldown of a trip in force. */
  ghost predicate EndsWithLateCheck(cfg: BreakerConfig, ops: seq<Op>)
    requires ops != []
  {
    exists i: nat, k: nat :: k == |ops| - 1 && ProbeSince(cfg, ops, i, k)
  }

  lemma ProbeSincePrefix(cfg: BreakerConfig, ops: seq<Op>, i: nat, k: nat)
    requires k < |ops| - 1
    ensures ProbeSince(cfg, ops, i, k) <==> ProbeSince(cfg, ops[..|ops| - 1], i, k) && ops[|ops| - 1].Check?
  {
    hide TripOf, InForceSince;
    var init := ops[..|ops| - 1];
    assert init[..k] == ops[..k];
    if InForceSince(cfg, ops[..k], i) {
      InForceIndex(cfg, ops[..k], i);
      TripOfPrefix(cfg, ops, |init|, i);
    }
  }

  lemma AwaitsProbeStep(cfg: BreakerConfig, ops: seq<Op>)
    requires ops != []
    ensures var n := |ops| - 1;
            AwaitsProbe(cfg, ops) <==> (AwaitsProbe(cfg, ops[..n]) && ops[n].Check?) || EndsWithLateCheck(cfg, ops)
  {
    var n := |ops| - 1;
    forall i: nat, k: nat | k < n
      ensures ProbeSince(cfg, ops, i, k) <==> ProbeSince(cfg, ops[..n], i, k) && ops[n].Check?
    {
      ProbeSincePrefix(cfg, ops, i, k);
    }
    assert forall i: nat, k: nat :: ProbeSince(cfg, ops, i, k) ==> k <= n;
    assert forall i: nat, k: nat :: ProbeSince(cfg, ops[..n], i, k) ==> k < n;
    hide ProbeSince;
  }

  lemma EndsWithLateCheckExactly(cfg: BreakerConfig, ops: seq<Op>)
    requires ops != []
    ensures var op, b := ops[|ops| - 1], Run(cfg, ops[..|ops| - 1]);
            EndsWithLateCheck(cfg, ops)
            <==> op.Check? && b.trippedAt.Some? && op.now - b.trippedAt.value > cfg.cooldownSeconds
  {
    var n := |ops| - 1;
    var init, op := ops[..n], ops[n];
    hide Run, InForceSince, TripOf;
    forall i: nat | InForceSince(cfg, init, i)
      ensures i < n && TripOf(cfg, ops, i).Some? && Run(cfg, init).trippedAt == TripOf(cfg, ops, i)
    {
      InForceIndex(cfg, init, i);
      TripOfPrefix(cfg, ops, n, i);
      TrippedExactly(cfg, init, TripOf(cfg, ops, i).value);
    }
    if op.Check? && Run(cfg, init).trippedAt.Some?
       && op.now - Run(cfg, init).trippedAt.value > cfg.cooldownSeconds {
      TrippedExactly(cfg, init, Run(cfg, init).trippedAt.value);
      var i: nat :| InForceSince(cfg, init, i) && TripOf(cfg, init, i) == Run(cfg, init).trippedAt;
      assert ProbeSince(cfg, ops, i, n);
    }
  }

  /** Half-open in terms of what was done: exactly while the first check after a trip's cooldown has
      been followed by checks only. */
  lemma {:induction false} HalfOpenExactly(cfg: BreakerConfig, ops: seq<Op>)
    ensures Run(cfg, ops).probeAllowed <==> AwaitsProbe(cfg, ops)
  {
    hide Run, AwaitsProbe, EndsWithLateCheck, TripTime;
    if ops == [] {
      NothingAwaited(cfg);
    } else {
      var n := |ops| - 1;
      HalfOpenExactly(cfg, ops[..n]);
      ProbeIsCleared(cfg, ops[..n]);
      RunStep(cfg, ops);
      ApplyCases(cfg, Run(cfg, ops[..n]), ops[n]);
      AwaitsProbeStep(cfg, ops);
      EndsWithLateCheckExactly(cfg, ops);
      OnlyOthersTrip(cfg, Run(cfg, ops[..n]), ops[n]);
    }
  }

  lemma NothingAwaited(cfg: BreakerConfig)
    ensures !Run(cfg, []).probeAllowed && !AwaitsProbe(cfg, [])
  {
  }

  lemma OnlyOthersTrip(cfg: BreakerConfig, b: Breaker, op: Op)
    ensures op.Check? ==> TripTime(cfg, b, op) == None
  {
  }

  /** What the next outcome does then: a failure trips at its own time, whatever the threshold; a
      success starts afresh, so that with a threshold above 1 a failure after it does not trip. */
  lemma AwaitedOutcomeDecides(cfg: BreakerConfig, ops: seq<Op>, t: real, now: real, later: real)
    requires AwaitsProbe(cfg, ops)
    ensures Run(cfg, ops + [Failure(now, later)]).trippedAt == Some(now)
    ensures Run(cfg, ops + [Success(t)]) == Breaker([], None, false)
    ensures 1 < cfg.failureThreshold ==> Run(cfg, ops + [Success(t)] + [Failure(now, later)]).trippedAt == None
  {
    HalfOpenExactly(cfg, ops);
    ProbeIsCleared(cfg, ops);
    assert (ops + [Failure(now, later)])[..|ops|] == ops && (ops + [Success(t)])[..|ops|] == ops;
    var closed := ops + [Success(t)];
    assert (closed + [Failure(now, later)])[..|closed|] == closed;
    AfterOne(now, now - cfg.windowSeconds);
  }

  lemma AfterOne(t: real, cutoff: real)
    ensures |After([] + [t], cutoff)| <= 1
  {
    AfterSnoc([], t, cutoff);
  }

  /** Half-open alone does not mean one probe: until an outcome is recorded every check passes. */
  lemma {:induction false} HalfOpenPassesEveryCheck(cfg: BreakerConfig, b: Breaker, times: seq<real>, k: nat)
    requires b.probeAllowed && b.trippedAt == None && k < |times|
    ensures var reached := ChecksFrom(cfg, b, times[..k]);
            reached == b && !IsOpen(cfg, reached, times[k])
  {
    if k > 0 {
      HalfOpenPassesEveryCheck(cfg, b, times, k - 1);
      assert times[..k][..k - 1] == times[..k - 1];
    }
  }

  function ChecksFrom(cfg: BreakerConfig, b: Breaker, times: seq<real>): Breaker {
    if times == [] then b
    else AfterCheck(cfg, ChecksFrom(cfg, b, times[..|times| - 1]), times[|times| - 1])
  }

  // ---- replay protection ----

  type Executed = map<string, real>

  /** Entries not older than the time to live. */
  function Cleanup(executed: Executed, ttl: real, now: real): Executed {
    map id | id in executed && executed[id] > now - ttl :: executed[id]
  }

  class ReplayProtection {
    const ttl: real
    var executed: Executed

    constructor (ttl: real)
      ensures this.ttl == ttl && executed == map[]
    {
      this.ttl, executed := ttl, map[];
    }

    method IsDuplicate(id: string, now: real) returns (duplicate: bool)
      modifies this
      ensures executed == Cleanup(old(executed), ttl, now)
      ensures duplicate <==> id in old(executed) && old(executed)[id] > now - ttl
    {
      executed := Cleanup(executed, ttl, now);
      return id in executed;
    }

    method MarkExecuted(id: string, now: real)
      modifies this
      ensures executed == old(executed)[id := now]
    {
      executed := executed[id := now];
    }
  }
}
