/** Cross-venue transfer planning: inventory/rebalancer.py (RebalancePlanner). */
module Rebalancer {
  import opened Common
  import opened NonlinearMath

  type Venue = string

  /** A surplus or a deficit still to be worked off. */
  datatype Entry = Entry(venue: Venue, amount: real)

  datatype FeeInfo = FeeInfo(withdrawalFee: real, minWithdrawal: real, timeMin: int)

  datatype TransferPlan = TransferPlan(
    fromVenue: Venue, toVenue: Venue, asset: string, amount: real, estimatedFee: real, estimatedTimeMin: int)
  {
    function NetAmount(): real {
      amount - estimatedFee
    }
  }

  function FeesOf(asset: string): FeeInfo {
    match asset
    case "ETH" => FeeInfo(0.005, 0.01, 15)
    case "USDT" => FeeInfo(1.0, 10.0, 15)
    case "USDC" => FeeInfo(1.0, 10.0, 15)
    case "BTC" => FeeInfo(0.0005, 0.001, 30)
    case _ => FeeInfo(0.0, 0.0, 0)
  }

  function MinOperatingBalance(asset: string): real {
    match asset
    case "ETH" => 0.5
    case "USDT" => 500.0
    case "USDC" => 500.0
    case "BTC" => 0.01
    case _ => 0.0
  }

  /** What stays fixed while one asset is planned. */
  datatype Setting = Setting(asset: string, balances: map<Venue, real>) {
    function Balance(v: Venue): real {
      if v in balances then balances[v] else 0.0
    }

    /** The most one transfer may take; it is not reduced by earlier transfers. */
    function Headroom(v: Venue): real {
      Max(0.0, Balance(v) - MinOperatingBalance(asset))
    }

    predicate Worthwhile(amount: real) {
      amount >= FeesOf(asset).minWithdrawal && amount > FeesOf(asset).withdrawalFee
    }
  }

  // ---- the two-pointer loop as steps ----

  /** What is left of both lists, the plans made, the number of rounds, and whether some amount
      was worked off without a plan for it. */
  datatype Loop = Loop(surplus: seq<Entry>, deficit: seq<Entry>, plans: seq<TransferPlan>, rounds: nat, skipped: bool)

  function Transferred(e: Setting, st: Loop): real
    requires Guard(st)
  {
    Min(Min(st.surplus[0].amount, st.deficit[0].amount), e.Headroom(st.surplus[0].venue))
  }

  predicate Guard(st: Loop) {
    st.surplus != [] && st.deficit != []
  }

  /** The head entry reduced, and dropped once it is worked off. */
  function Reduce(entries: seq<Entry>, amount: real): seq<Entry>
    requires entries != []
  {
    var left := entries[0].amount - amount;
    if left <= 0.0 then entries[1..] else [Entry(entries[0].venue, left)] + entries[1..]
  }

  function PlanFor(e: Setting, st: Loop, amount: real): seq<TransferPlan>
    requires Guard(st)
  {
    if e.Worthwhile(amount)
    then [TransferPlan(st.surplus[0].venue, st.deficit[0].venue, e.asset, amount,
                       FeesOf(e.asset).withdrawalFee, FeesOf(e.asset).timeMin)]
    else []
  }

  function Step(e: Setting, st: Loop): Loop
    requires Guard(st)
  {
    var t := Transferred(e, st);
    Loop(Reduce(st.surplus, t), Reduce(st.deficit, t), st.plans + PlanFor(e, st, t), st.rounds + 1,
         st.skipped || !e.Worthwhile(t))
  }

  function Iterate(e: Setting, st: Loop, n: nat): Loop
    decreases n
  {
    if n == 0 || !Guard(st) then st else Iterate(e, Step(e, st), n - 1)
  }

  // ---- exactly when the loop ends ----

  function Sum(entries: seq<Entry>): real {
    if entries == [] then 0.0 else entries[0].amount + Sum(entries[1..])
  }

  predicate Positive(entries: seq<Entry>) {
    forall i :: 0 <= i < |entries| ==> entries[i].amount > 0.0
  }

  /** Going through the sources in order until the need is covered, none has zero headroom. */
  predicate SourcesHaveHeadroom(e: Setting, surplus: seq<Entry>, need: real) {
    surplus == [] || need <= 0.0
    || (e.Headroom(surplus[0].venue) > 0.0 && SourcesHaveHeadroom(e, surplus[1..], need - surplus[0].amount))
  }

  predicate Ends(e: Setting, st: Loop) {
    SourcesHaveHeadroom(e, st.surplus, Sum(st.deficit))
  }

  predicate WellFormed(st: Loop) {
    Positive(st.surplus) && Positive(st.deficit)
  }

  lemma {:induction false} SumPositive(entries: seq<Entry>)
    requires Positive(entries)
    ensures Sum(entries) >= 0.0 && (entries != [] ==> Sum(entries) > 0.0)
  {
    if entries != [] {
      SumPositive(entries[1..]);
    }
  }

  lemma ReduceFacts(entries: seq<Entry>, t: real)
    requires entries != [] && Positive(entries) && 0.0 <= t <= entries[0].amount
    ensures Positive(Reduce(entries, t))
    ensures Sum(Reduce(entries, t)) == Sum(entries) - t
    ensures |Reduce(entries, t)| == if t == entries[0].amount then |entries| - 1 else |entries|
  {
    if t != entries[0].amount {
      assert Reduce(entries, t)[1..] == entries[1..];
    }
  }

  /** A round neither makes nor breaks the condition for ending. */
  lemma StepKeepsEnds(e: Setting, st: Loop)
    requires WellFormed(st) && Guard(st)
    ensures WellFormed(Step(e, st))
    ensures Ends(e, Step(e, st)) <==> Ends(e, st)
    ensures Sum(Step(e, st).surplus) == Sum(st.surplus) - Transferred(e, st)
    ensures Sum(Step(e, st).deficit) == Sum(st.deficit) - Transferred(e, st)
    ensures Ends(e, st) ==> Transferred(e, st) > 0.0
  {
    var t := Transferred(e, st);
    ReduceFacts(st.surplus, t);
    ReduceFacts(st.deficit, t);
    SumPositive(st.deficit);
    SumPositive(Reduce(st.deficit, t));
    var s, d, need := st.surplus, Reduce(st.surplus, t), Sum(st.deficit);
    if t == s[0].amount {
      assert d == s[1..];
    } else {
      assert d[1..] == s[1..] && d[0].venue == s[0].venue;
      assert need - t - d[0].amount == need - s[0].amount;
      assert SourcesHaveHeadroom(e, d[1..], need - t - d[0].amount)
          == SourcesHaveHeadroom(e, s[1..], need - s[0].amount);
    }
  }

  /** Where the condition fails, every number of rounds leaves the loop with its guard true: it
      never ends, stuck on a source without headroom. */
  lemma {:induction false} LoopRunsForever(e: Setting, st: Loop, n: nat)
    requires WellFormed(st) && !Ends(e, st)
    ensures Guard(Iterate(e, st, n)) && !Ends(e, Iterate(e, st, n))
    decreases n
  {
    SumPositive(st.deficit);
    if n > 0 {
      StepKeepsEnds(e, st);
      LoopRunsForever(e, Step(e, st), n - 1);
    }
  }

  /** Rounds a source can be drawn on in full steps of its headroom. */
  function FullSteps(e: Setting, st: Loop): int {
    if !Guard(st) || e.Headroom(st.surplus[0].venue) == 0.0 then 0
    else (st.surplus[0].amount / e.Headroom(st.surplus[0].venue)).Floor
  }

  lemma FloorDrops(a: real, h: real)
    requires 0.0 < h < a
    ensures 0 <= ((a - h) / h).Floor < (a / h).Floor
  {
    RQuotient(a, h);
    RQuotient(a - h, h);
    RDistrib(h, a / h, 1.0);
    RCancel((a - h) / h, a / h - 1.0, h);
  }

  /** Each round works off an entry, or takes a full step from a source. */
  lemma StepDecreases(e: Setting, st: Loop)
    requires WellFormed(st) && Guard(st) && Ends(e, st)
    ensures var st' := Step(e, st);
            var before, after := |st.surplus| + |st.deficit|, |st'.surplus| + |st'.deficit|;
            after < before || (after == before && 0 <= FullSteps(e, st') < FullSteps(e, st))
  {
    var t := Transferred(e, st);
    StepKeepsEnds(e, st);
    ReduceFacts(st.surplus, t);
    ReduceFacts(st.deficit, t);
    if t < st.surplus[0].amount && t < st.deficit[0].amount {
      FloorDrops(st.surplus[0].amount, e.Headroom(st.surplus[0].venue));
    }
  }

  /** The state in which the loop ends. */
  function Final(e: Setting, st: Loop): (r: Loop)
    requires WellFormed(st) && Ends(e, st)
    ensures !Guard(r) && WellFormed(r)
    decreases |st.surplus| + |st.deficit|, if FullSteps(e, st) >= 0 then FullSteps(e, st) else 0
  {
    if !Guard(st) then st
    else
      StepKeepsEnds(e, st);
      StepDecreases(e, st);
      Final(e, Step(e, st))
  }

  lemma {:induction false} FinalIsReached(e: Setting, st: Loop) returns (n: nat)
    requires WellFormed(st) && Ends(e, st)
    ensures Iterate(e, st, n) == Final(e, st) && !Guard(Iterate(e, st, n))
    decreases |st.surplus| + |st.deficit|, if FullSteps(e, st) >= 0 then FullSteps(e, st) else 0
  {
    if !Guard(st) {
      n := 0;
    } else {
      StepKeepsEnds(e, st);
      StepDecreases(e, st);
      var m := FinalIsReached(e, Step(e, st));
      n := m + 1;
    }
  }

  /** The loop ends if and only if no source it needs has zero headroom. */
  lemma LoopEndsExactly(e: Setting, st: Loop)
    requires WellFormed(st)
    ensures (exists n :: !Guard(Iterate(e, st, n))) <==> Ends(e, st)
  {
    if Ends(e, st) {
      var n := FinalIsReached(e, st);
    } else {
      forall n: nat
        ensures Guard(Iterate(e, st, n))
      {
        LoopRunsForever(e, st, n);
      }
    }
  }

  // ---- what the plans add up to ----

  function Of(entries: seq<Entry>, v: Venue): real {
    if entries == [] then 0.0 else (if entries[0].venue == v then entries[0].amount else 0.0) + Of(entries[1..], v)
  }

  function Sent(plans: seq<TransferPlan>, v: Venue): real {
    if plans == [] then 0.0
    else
      var n := |plans| - 1;
      Sent(plans[..n], v) + (if plans[n].fromVenue == v then plans[n].amount else 0.0)
  }

  function Received(plans: seq<TransferPlan>, v: Venue): real {
    if plans == [] then 0.0
    else
      var n := |plans| - 1;
      Received(plans[..n], v) + (if plans[n].toVenue == v then plans[n].amount else 0.0)
  }

  lemma PlanSnoc(plans: seq<TransferPlan>, p: TransferPlan, v: Venue)
    ensures Sent(plans + [p], v) == Sent(plans, v) + (if p.fromVenue == v then p.amount else 0.0)
    ensures Received(plans + [p], v) == Received(plans, v) + (if p.toVenue == v then p.amount else 0.0)
  {
    assert (plans + [p])[..|plans|] == plans;
  }

  lemma {:induction false} OfNonNegative(entries: seq<Entry>, v: Venue)
    requires Positive(entries)
    ensures Of(entries, v) >= 0.0
  {
    if entries != [] {
      OfNonNegative(entries[1..], v);
    }
  }

  lemma ReduceOf(entries: seq<Entry>, t: real, v: Venue)
    requires entries != [] && 0.0 <= t <= entries[0].amount
    ensures Of(Reduce(entries, t), v) == Of(entries, v) - (if entries[0].venue == v then t else 0.0)
  {
    if entries[0].amount - t > 0.0 {
      assert Reduce(entries, t)[1..] == entries[1..];
    }
  }

  /** One round: what is planned plus what is left never grows, and is kept if nothing is skipped. */
  lemma StepConserves(e: Setting, st: Loop, v: Venue)
    requires WellFormed(st) && Guard(st)
    ensures var st' := Step(e, st);
            && Sent(st'.plans, v) + Of(st'.surplus, v) <= Sent(st.plans, v) + Of(st.surplus, v)
            && Received(st'.plans, v) + Of(st'.deficit, v) <= Received(st.plans, v) + Of(st.deficit, v)
            && (!st'.skipped ==> Sent(st'.plans, v) + Of(st'.surplus, v) == Sent(st.plans, v) + Of(st.surplus, v))
            && (!st'.skipped ==>
                  Received(st'.plans, v) + Of(st'.deficit, v) == Received(st.plans, v) + Of(st.deficit, v))
  {
    var t := Transferred(e, st);
    ReduceOf(st.surplus, t, v);
    ReduceOf(st.deficit, t, v);
    if e.Worthwhile(t) {
      PlanSnoc(st.plans, PlanFor(e, st, t)[0], v);
    } else {
      assert st.plans + [] == st.plans;
    }
  }

  lemma {:induction false} FinalConserves(e: Setting, st: Loop, v: Venue)
    requires WellFormed(st) && Ends(e, st)
    ensures var r := Final(e, st);
            && Sent(r.plans, v) + Of(r.surplus, v) <= Sent(st.plans, v) + Of(st.surplus, v)
            && Received(r.plans, v) + Of(r.deficit, v) <= Received(st.plans, v) + Of(st.deficit, v)
            && (!r.skipped ==> Sent(r.plans, v) + Of(r.surplus, v) == Sent(st.plans, v) + Of(st.surplus, v))
            && (!r.skipped ==> Received(r.plans, v) + Of(r.deficit, v) == Received(st.plans, v) + Of(st.deficit, v))
            && (st.skipped ==> r.skipped)
    decreases |st.surplus| + |st.deficit|, if FullSteps(e, st) >= 0 then FullSteps(e, st) else 0
  {
    if Guard(st) {
      StepKeepsEnds(e, st);
      StepDecreases(e, st);
      StepConserves(e, st, v);
      FinalConserves(e, Step(e, st), v);
    }
  }

  function Start(surplus: seq<Entry>, deficit: seq<Entry>): Loop {
    Loop(surplus, deficit, [], 0, false)
  }

  /** No venue sends more than its surplus or receives more than its deficit: a source never falls
      below its target and a destination never passes it. */
  lemma NeverOvershoots(e: Setting, surplus: seq<Entry>, deficit: seq<Entry>, v: Venue)
    requires Positive(surplus) && Positive(deficit) && Ends(e, Start(surplus, deficit))
    ensures Sent(Final(e, Start(surplus, deficit)).plans, v) <= Of(surplus, v)
    ensures Received(Final(e, Start(surplus, deficit)).plans, v) <= Of(deficit, v)
  {
    var r := Final(e, Start(surplus, deficit));
    FinalConserves(e, Start(surplus, deficit), v);
    OfNonNegative(r.surplus, v);
    OfNonNegative(r.deficit, v);
  }

  /** What a list gives to a need, worked off in order: the entries of a venue, each cut to what the
      entries before it leave open. */
  function Drawn(entries: seq<Entry>, need: real, v: Venue): real {
    if entries == [] || need <= 0.0 then 0.0
    else
      (if entries[0].venue == v then Min(entries[0].amount, need) else 0.0)
      + Drawn(entries[1..], need - entries[0].amount, v)
  }

  lemma DrawnAfterReduce(entries: seq<Entry>, need: real, t: real, v: Venue)
    requires entries != [] && Positive(entries) && 0.0 <= t <= entries[0].amount && t <= need && 0.0 < need
    ensures Drawn(entries, need, v)
         == Drawn(Reduce(entries, t), need - t, v) + (if entries[0].venue == v then t else 0.0)
  {
    var rest := Reduce(entries, t);
    if t < entries[0].amount {
      assert rest[1..] == entries[1..];
      assert need - t - rest[0].amount == need - entries[0].amount;
    }
  }

  lemma StepDraws(e: Setting, st: Loop, v: Venue)
    requires WellFormed(st) && Guard(st) && !Step(e, st).skipped
    ensures var st' := Step(e, st);
            && Sent(st'.plans, v) + Drawn(st'.surplus, Sum(st'.deficit), v)
               == Sent(st.plans, v) + Drawn(st.surplus, Sum(st.deficit), v)
            && Received(st'.plans, v) + Drawn(st'.deficit, Sum(st'.surplus), v)
               == Received(st.plans, v) + Drawn(st.deficit, Sum(st.surplus), v)
  {
    hide Drawn, Sent, Received;
    var t := Transferred(e, st);
    StepKeepsEnds(e, st);
    SumPositive(st.surplus);
    SumPositive(st.deficit);
    SumPositive(st.surplus[1..]);
    SumPositive(st.deficit[1..]);
    DrawnAfterReduce(st.surplus, Sum(st.deficit), t, v);
    DrawnAfterReduce(st.deficit, Sum(st.surplus), t, v);
    PlanSnoc(st.plans, PlanFor(e, st, t)[0], v);
  }

  lemma NothingDrawn(entries: seq<Entry>, v: Venue)
    ensures Drawn(entries, 0.0, v) == 0.0
    ensures forall need :: Drawn([], need, v) == 0.0
  {
  }

  lemma {:induction false} FinalDraws(e: Setting, st: Loop, v: Venue)
    requires WellFormed(st) && Ends(e, st) && !Final(e, st).skipped
    ensures Sent(Final(e, st).plans, v) == Sent(st.plans, v) + Drawn(st.surplus, Sum(st.deficit), v)
    ensures Received(Final(e, st).plans, v) == Received(st.plans, v) + Drawn(st.deficit, Sum(st.surplus), v)
    decreases |st.surplus| + |st.deficit|, if FullSteps(e, st) >= 0 then FullSteps(e, st) else 0
  {
    hide Drawn, Sent, Received;
    if Guard(st) {
      StepKeepsEnds(e, st);
      StepDecreases(e, st);
      FinalConserves(e, Step(e, st), v);
      StepDraws(e, st, v);
      FinalDraws(e, Step(e, st), v);
    } else {
      NothingDrawn(st.surplus, v);
      NothingDrawn(st.deficit, v);
    }
  }

  /** Whether or not surpluses and deficits balance: if nothing is skipped, each side is worked off
      in order against the total of the other. */
  lemma PlansFollowTheOrder(e: Setting, surplus: seq<Entry>, deficit: seq<Entry>, v: Venue)
    requires Positive(surplus) && Positive(deficit) && Ends(e, Start(surplus, deficit))
    requires !Final(e, Start(surplus, deficit)).skipped
    ensures Sent(Final(e, Start(surplus, deficit)).plans, v) == Drawn(surplus, Sum(deficit), v)
    ensures Received(Final(e, Start(surplus, deficit)).plans, v) == Drawn(deficit, Sum(surplus), v)
  {
    FinalDraws(e, Start(surplus, deficit), v);
  }

  lemma {:induction false} AllDrawn(entries: seq<Entry>, need: real, v: Venue)
    requires Positive(entries) && Sum(entries) <= need
    ensures Drawn(entries, need, v) == Of(entries, v)
  {
    if entries != [] {
      SumPositive(entries);
      SumPositive(entries[1..]);
      AllDrawn(entries[1..], need - entries[0].amount, v);
    }
  }

  /** When surpluses and deficits balance and nothing is skipped, every venue lands on its target. */
  lemma LandsOnTarget(e: Setting, surplus: seq<Entry>, deficit: seq<Entry>, v: Venue)
    requires Positive(surplus) && Positive(deficit) && Ends(e, Start(surplus, deficit))
    requires Sum(surplus) == Sum(deficit) && !Final(e, Start(surplus, deficit)).skipped
    ensures Sent(Final(e, Start(surplus, deficit)).plans, v) == Of(surplus, v)
    ensures Received(Final(e, Start(surplus, deficit)).plans, v) == Of(deficit, v)
  {
    PlansFollowTheOrder(e, surplus, deficit, v);
    AllDrawn(surplus, Sum(deficit), v);
    AllDrawn(deficit, Sum(surplus), v);
  }

  /** Every plan is worth its fee and meets the minimum withdrawal. */
  lemma {:induction false} PlansAreWorthwhile(e: Setting, st: Loop, p: TransferPlan)
    requires WellFormed(st) && Ends(e, st)
    requires p in Final(e, st).plans && p !in st.plans
    ensures p.NetAmount() > 0.0 && p.amount >= FeesOf(e.asset).minWithdrawal
    ensures p.asset == e.asset && p.estimatedFee == FeesOf(e.asset).withdrawalFee
    ensures p.estimatedTimeMin == FeesOf(e.asset).timeMin
    ensures p.amount <= e.Headroom(p.fromVenue)
    decreases |st.surplus| + |st.deficit|, if FullSteps(e, st) >= 0 then FullSteps(e, st) else 0
  {
    if Guard(st) {
      StepKeepsEnds(e, st);
      StepDecreases(e, st);
      if p !in Step(e, st).plans {
        PlansAreWorthwhile(e, Step(e, st), p);
      }
    }
  }

  /** Something was skipped exactly if some round of the loop would have moved less than the minimum
      withdrawal, or no more than the fee. */
  lemma {:induction false} SkippedExactly(e: Setting, st: Loop)
    requires WellFormed(st) && Ends(e, st) && !st.skipped
    ensures Final(e, st).skipped <==> exists n: nat :: SkipsAt(e, st, n)
    decreases |st.surplus| + |st.deficit|, if FullSteps(e, st) >= 0 then FullSteps(e, st) else 0
  {
    if Guard(st) {
      StepKeepsEnds(e, st);
      StepDecreases(e, st);
      if Step(e, st).skipped {
        FinalConserves(e, Step(e, st), "");
        assert SkipsAt(e, st, 0);
      } else {
        SkippedExactly(e, Step(e, st));
        assert !SkipsAt(e, st, 0);
        forall n: nat
          ensures SkipsAt(e, st, n + 1) <==> SkipsAt(e, Step(e, st), n)
        {
        }
        assert forall n: nat :: SkipsAt(e, st, n) ==> n != 0 && SkipsAt(e, Step(e, st), n - 1);
      }
    }
  }

  ghost predicate SkipsAt(e: Setting, st: Loop, n: nat) {
    var reached := Iterate(e, st, n);
    Guard(reached) && (Transferred(e, reached) < FeesOf(e.asset).minWithdrawal
                       || Transferred(e, reached) <= FeesOf(e.asset).withdrawalFee)
  }

  /** What the plans of the listed assets look like, in their own units: at least the minimum
      withdrawal, less the fee, leaving the minimum operating balance as each plan sees it. */
  lemma PlansOfListedAssets(e: Setting, st: Loop, p: TransferPlan)
    requires WellFormed(st) && Ends(e, st) && p in Final(e, st).plans && p !in st.plans
    ensures e.asset == "ETH" ==>
              && p.amount >= 0.01 && p.NetAmount() == p.amount - 0.005 && p.estimatedTimeMin == 15
              && e.Balance(p.fromVenue) - p.amount >= 0.5
    ensures e.asset == "USDT" || e.asset == "USDC" ==>
              && p.amount >= 10.0 && p.NetAmount() == p.amount - 1.0 && p.estimatedTimeMin == 15
              && e.Balance(p.fromVenue) - p.amount >= 500.0
    ensures e.asset == "BTC" ==>
              && p.amount >= 0.001 && p.NetAmount() == p.amount - 0.0005 && p.estimatedTimeMin == 30
              && e.Balance(p.fromVenue) - p.amount >= 0.01
  {
    PlansAreWorthwhile(e, st, p);
    hide Final, Ends;
  }

  /** For the listed assets the minimum withdrawal covers the fee, so it alone decides what is worth
      a transfer; for any other asset every positive amount is. */
  lemma MinimumCoversFee(e: Setting, amount: real)
    ensures e.Worthwhile(amount)
       <==> if e.asset in {"ETH", "USDT", "USDC", "BTC"} then amount >= FeesOf(e.asset).minWithdrawal else amount > 0.0
    ensures e.asset in {"ETH", "USDT", "USDC", "BTC"} ==>
              0.0 < FeesOf(e.asset).withdrawalFee < FeesOf(e.asset).minWithdrawal <= MinOperatingBalance(e.asset)
  {
  }

  // ---- when every source's target is at least the minimum operating balance ----

  /** The surplus of each source fits into its headroom. */
  predicate FitsHeadroom(e: Setting, surplus: seq<Entry>) {
    forall i :: 0 <= i < |surplus| ==> surplus[i].amount <= e.Headroom(surplus[i].venue)
  }

  lemma {:induction false} FitsMeansEnds(e: Setting, surplus: seq<Entry>, need: real)
    requires Positive(surplus) && FitsHeadroom(e, surplus)
    ensures SourcesHaveHeadroom(e, surplus, need)
  {
    if surplus != [] {
      FitsMeansEnds(e, surplus[1..], need - surplus[0].amount);
    }
  }

  /** Then every round works off an entry, so the loop takes at most one round an entry. */
  lemma {:induction false} RoundsBounded(e: Setting, st: Loop)
    requires WellFormed(st) && Ends(e, st) && FitsHeadroom(e, st.surplus)
    ensures Final(e, st).rounds <= st.rounds + |st.surplus| + |st.deficit|
    decreases |st.surplus| + |st.deficit|
  {
    if Guard(st) {
      var t := Transferred(e, st);
      StepKeepsEnds(e, st);
      ReduceFacts(st.surplus, t);
      ReduceFacts(st.deficit, t);
      assert FitsHeadroom(e, Reduce(st.surplus, t)) by {
        assert forall i :: 0 < i < |Reduce(st.surplus, t)| && t != st.surplus[0].amount ==>
                 Reduce(st.surplus, t)[i] == st.surplus[i];
      }
      RoundsBounded(e, Step(e, st));
    }
  }

  /** A source of balance `target + surplus` keeps its minimum operating balance whenever its
      target does. If nothing is skipped it keeps it exactly when what is left above the target
      makes up the difference; in a balanced plan, exactly when its target does. */
  lemma MinimumBalanceKept(e: Setting, surplus: seq<Entry>, deficit: seq<Entry>, v: Venue, target: real)
    requires Positive(surplus) && Positive(deficit) && Ends(e, Start(surplus, deficit))
    requires e.Balance(v) == target + Of(surplus, v)
    ensures var left := e.Balance(v) - Sent(Final(e, Start(surplus, deficit)).plans, v);
            var min := MinOperatingBalance(e.asset);
            && (target >= min ==> left >= min)
            && (!Final(e, Start(surplus, deficit)).skipped ==>
                  (left >= min <==> target + (Of(surplus, v) - Drawn(surplus, Sum(deficit), v)) >= min))
            && (Sum(surplus) == Sum(deficit) && !Final(e, Start(surplus, deficit)).skipped ==>
                  (left >= min <==> target >= min))
  {
    NeverOvershoots(e, surplus, deficit, v);
    if !Final(e, Start(surplus, deficit)).skipped {
      PlansFollowTheOrder(e, surplus, deficit, v);
      if Sum(surplus) == Sum(deficit) {
        AllDrawn(surplus, Sum(deficit), v);
      }
    }
  }

  /** The headroom alone does not protect the balance: 0.9 ETH against an empty venue is planned
      as 0.4 and then 0.05, which leaves 0.45, less than the minimum of 0.5. */
  lemma TwoTransfersBreakTheMinimum()
    ensures var e := Setting("ETH", map["binance" := 0.9, "wallet" := 0.0]);
            var st := Start([Entry("binance", 0.45)], [Entry("wallet", 0.45)]);
            && WellFormed(st) && Ends(e, st)
            && Sent(Final(e, st).plans, "binance") == 0.45
            && e.Balance("binance") - Sent(Final(e, st).plans, "binance") < MinOperatingBalance("ETH")
  {
    var e := Setting("ETH", map["binance" := 0.9, "wallet" := 0.0]);
    var st := Start([Entry("binance", 0.45)], [Entry("wallet", 0.45)]);
    assert SourcesHaveHeadroom(e, [], 0.0);
    assert Ends(e, st);
    var st1 := Step(e, st);
    assert Transferred(e, st) == 0.4;
    assert st1.surplus == [Entry("binance", 0.05)] && st1.deficit == [Entry("wallet", 0.05)];
    StepKeepsEnds(e, st);
    var st2 := Step(e, st1);
    assert Transferred(e, st1) == 0.05;
    assert st2.surplus == [];
    StepKeepsEnds(e, st1);
    assert Final(e, st) == Final(e, st1) == Final(e, st2) == st2;
    assert !st2.skipped;
    LandsOnTarget(e, st.surplus, st.deficit, "binance");
  }

  // ---- the planner ----

  /** The venues of one asset in their listed order, with their balances. */
  datatype Holding = Holding(venue: Venue, amount: real)

  function Total(holdings: seq<Holding>): real {
    if holdings == [] then 0.0 else holdings[0].amount + Total(holdings[1..])
  }

  /** Fraction of the total a venue should hold: as configured, or an equal share. */
  function Fraction(targets: Option<map<Venue, real>>, n: nat, v: Venue): real
    requires n > 0
  {
    if targets.Some? && v in targets.value then targets.value[v] else 1.0 / n as real
  }

  function Target(v: Venue, targets: Option<map<Venue, real>>, n: nat, total: real): real
    requires n > 0
  {
    total * Fraction(targets, n, v)
  }

  function Delta(h: Holding, targets: Option<map<Venue, real>>, n: nat, total: real): real
    requires n > 0
  {
    h.amount - Target(h.venue, targets, n, total)
  }

  function Surpluses(holdings: seq<Holding>, targets: Option<map<Venue, real>>, n: nat, total: real): (r: seq<Entry>)
    requires n > 0
    ensures Positive(r)
  {
    if holdings == [] then []
    else
      var init := Surpluses(holdings[..|holdings| - 1], targets, n, total);
      var h := holdings[|holdings| - 1];
      var delta := Delta(h, targets, n, total);
      if delta > 0.0 then init + [Entry(h.venue, delta)] else init
  }

  function Deficits(holdings: seq<Holding>, targets: Option<map<Venue, real>>, n: nat, total: real): (r: seq<Entry>)
    requires n > 0
    ensures Positive(r)
  {
    if holdings == [] then []
    else
      var init := Deficits(holdings[..|holdings| - 1], targets, n, total);
      var h := holdings[|holdings| - 1];
      var delta := Delta(h, targets, n, total);
      if delta < 0.0 then init + [Entry(h.venue, -delta)] else init
  }

  function AbsReal(x: real): real {
    if x < 0.0 then -x else x
  }

  /** Largest distance of a venue's share from an equal share, in percent. */
  function MaxDeviation(holdings: seq<Holding>, n: nat, total: real): real
    requires n > 0
  {
    if holdings == [] then 0.0
    else
      var h := holdings[|holdings| - 1];
      Max(MaxDeviation(holdings[..|holdings| - 1], n, total),
          if total > 0.0 then AbsReal(h.amount / total * 100.0 - 100.0 / n as real) else 0.0)
  }

  /** Some venue holds more, or less, than an equal share by over `threshold` percent of the total:
      the distances from the share, scaled by the number of venues. */
  ghost predicate Skewed(holdings: seq<Holding>, threshold: real) {
    var n, total := |holdings| as real, Total(holdings);
    exists i :: 0 <= i < |holdings|
                && ((n * holdings[i].amount - total) * 100.0 > threshold * (n * total)
                    || (total - n * holdings[i].amount) * 100.0 > threshold * (n * total))
  }

  /** The asset is planned at all: there are two venues, something is held, and some venue is off by
      more than the threshold. (Without a positive total the deviations count as 0.) */
  ghost predicate NeedsPlan(holdings: seq<Holding>, threshold: real) {
    && |holdings| >= 2
    && Total(holdings) != 0.0
    && (threshold < 0.0 || (Total(holdings) > 0.0 && Skewed(holdings, threshold)))
  }

  /** One venue's deviation exceeds the threshold exactly if its scaled distance does. */
  lemma DeviationExceeds(amount: real, total: real, n: real, threshold: real)
    requires 0.0 < total && 0.0 < n
    ensures AbsReal(amount / total * 100.0 - 100.0 / n) > threshold
       <==> (n * amount - total) * 100.0 > threshold * (n * total)
            || (total - n * amount) * 100.0 > threshold * (n * total)
  {
    var d := amount / total * 100.0 - 100.0 / n;
    DeviationScaled(amount, total, n);
    RPos(n, total);
    RCompare(d, threshold, n * total);
    RCompare(-d, threshold, n * total);
    RNeg(d, n * total);
  }

  lemma DeviationScaled(amount: real, total: real, n: real)
    requires 0.0 < total && 0.0 < n
    ensures (amount / total * 100.0 - 100.0 / n) * (n * total) == (n * amount - total) * 100.0
  {
    var x, z := amount / total, 100.0 / n;
    RQuotient(amount, total);
    RQuotient(100.0, n);
    RDistrib(n * total, x * 100.0, z);
    assert x * 100.0 * (n * total) == x * total * n * 100.0;
    assert z * (n * total) == z * n * total;
  }

  lemma {:induction false} MaxDeviationExceeds(holdings: seq<Holding>, n: nat, total: real, threshold: real)
    requires n > 0 && 0.0 < total
    ensures MaxDeviation(holdings, n, total) > threshold
       <==> threshold < 0.0
            || exists i :: 0 <= i < |holdings|
                 && AbsReal(holdings[i].amount / total * 100.0 - 100.0 / n as real) > threshold
  {
    if holdings != [] {
      hide AbsReal;
      MaxDeviationExceeds(holdings[..|holdings| - 1], n, total, threshold);
    }
  }

  lemma {:induction false} NoDeviation(holdings: seq<Holding>, n: nat, total: real)
    requires n > 0 && total <= 0.0
    ensures MaxDeviation(holdings, n, total) == 0.0
  {
    if holdings != [] {
      NoDeviation(holdings[..|holdings| - 1], n, total);
    }
  }

  lemma GateIsNeedsPlan(holdings: seq<Holding>, threshold: real)
    requires |holdings| >= 2 && Total(holdings) != 0.0
    ensures MaxDeviation(holdings, |holdings|, Total(holdings)) > threshold <==> NeedsPlan(holdings, threshold)
  {
    var n, total := |holdings|, Total(holdings);
    hide MaxDeviation, Total, AbsReal;
    if total > 0.0 {
      MaxDeviationExceeds(holdings, n, total, threshold);
      forall i | 0 <= i < n
        ensures AbsReal(holdings[i].amount / total * 100.0 - 100.0 / n as real) > threshold
           <==> (n as real * holdings[i].amount - total) * 100.0 > threshold * (n as real * total)
                || (total - n as real * holdings[i].amount) * 100.0 > threshold * (n as real * total)
      {
        DeviationExceeds(holdings[i].amount, total, n as real, threshold);
      }
    } else {
      NoDeviation(holdings, n, total);
    }
  }

  lemma NotPlanned(holdings: seq<Holding>, threshold: real)
    ensures |holdings| < 2 || Total(holdings) == 0.0 ==> !NeedsPlan(holdings, threshold)
  {
  }

  function StartFor(holdings: seq<Holding>, targets: Option<map<Venue, real>>): Loop
    requires holdings != []
  {
    Start(Surpluses(holdings, targets, |holdings|, Total(holdings)),
          Deficits(holdings, targets, |holdings|, Total(holdings)))
  }

  /** Reads the venues, then runs the two-pointer loop. The source returns only if the loop ends,
      which `LoopEndsExactly` shows to be the condition required here. */
  method Plan(e: Setting, holdings: seq<Holding>, targets: Option<map<Venue, real>>, threshold: real)
    returns (plans: seq<TransferPlan>)
    requires NeedsPlan(holdings, threshold) ==> Ends(e, StartFor(holdings, targets))
    ensures plans == if NeedsPlan(holdings, threshold) then Final(e, StartFor(holdings, targets)).plans else []
  {
    hide MaxDeviation, Total, NeedsPlan;
    plans := [];
    var total, n := Total(holdings), |holdings|;
    NotPlanned(holdings, threshold);
    if n >= 2 && total != 0.0 {
      GateIsNeedsPlan(holdings, threshold);
    }
    if n < 2 || total == 0.0 || MaxDeviation(holdings, n, total) <= threshold {
      return;
    }
    var surplus, deficit := SplitByTarget(holdings, targets, n, total);
    var si, di := 0, 0;
    ghost var st := Start(surplus, deficit);
    assert surplus[0..] == surplus && deficit[0..] == deficit;
    while si < |surplus| && di < |deficit|
      invariant 0 <= si <= |surplus| && 0 <= di <= |deficit|
      invariant st.surplus == surplus[si..] && st.deficit == deficit[di..] && st.plans == plans
      invariant WellFormed(st) && Ends(e, st)
      invariant Final(e, st) == Final(e, StartFor(holdings, targets))
      decreases |st.surplus| + |st.deficit|, if FullSteps(e, st) >= 0 then FullSteps(e, st) else 0
    {
      StepKeepsEnds(e, st);
      StepDecreases(e, st);
      var src, dst := surplus[si], deficit[di];
      assert st.surplus[0] == src && st.deficit[0] == dst;
      var amount := Min(Min(src.amount, dst.amount), e.Headroom(src.venue));
      if e.Worthwhile(amount) {
        plans := plans + [TransferPlan(src.venue, dst.venue, e.asset, amount,
                                       FeesOf(e.asset).withdrawalFee, FeesOf(e.asset).timeMin)];
      }
      surplus, si := ReduceAt(surplus, si, amount);
      deficit, di := ReduceAt(deficit, di, amount);
      st := Step(e, st);
    }
  }

  /** Subtracts in place and moves on once the entry is worked off. */
  method ReduceAt(entries: seq<Entry>, k: nat, amount: real) returns (entries': seq<Entry>, k': nat)
    requires k < |entries|
    ensures |entries'| == |entries| && k' <= |entries|
    ensures entries'[k'..] == Reduce(entries[k..], amount)
    ensures entries'[k] == Entry(entries[k].venue, entries[k].amount - amount)
    ensures k' == if entries[k].amount - amount <= 0.0 then k + 1 else k
  {
    entries' := entries[k := Entry(entries[k].venue, entries[k].amount - amount)];
    k' := k;
    if entries'[k].amount <= 0.0 {
      k' := k + 1;
    }
    assert entries'[k + 1..] == entries[k + 1..] == entries[k..][1..];
    assert entries'[k..] == [entries'[k]] + entries'[k + 1..];
  }

  method SplitByTarget(holdings: seq<Holding>, targets: Option<map<Venue, real>>, n: nat, total: real)
    returns (surplus: seq<Entry>, deficit: seq<Entry>)
    requires n > 0
    ensures surplus == Surpluses(holdings, targets, n, total) && deficit == Deficits(holdings, targets, n, total)
  {
    hide Target;
    surplus, deficit := [], [];
    for i := 0 to |holdings|
      invariant surplus == Surpluses(holdings[..i], targets, n, total)
      invariant deficit == Deficits(holdings[..i], targets, n, total)
    {
      assert holdings[..i + 1][..i] == holdings[..i];
      var delta := holdings[i].amount - Target(holdings[i].venue, targets, n, total);
      if delta > 0.0 {
        surplus := surplus + [Entry(holdings[i].venue, delta)];
      } else if delta < 0.0 {
        deficit := deficit + [Entry(holdings[i].venue, -delta)];
      }
    }
    assert holdings[..|holdings|] == holdings;
  }

  // ---- the plan as a whole ----

  function FractionSum(holdings: seq<Holding>, targets: Option<map<Venue, real>>, n: nat): real
    requires n > 0
  {
    if holdings == [] then 0.0
    else FractionSum(holdings[..|holdings| - 1], targets, n) + Fraction(targets, n, holdings[|holdings| - 1].venue)
  }

  lemma SumSnoc(entries: seq<Entry>, x: Entry)
    ensures Sum(entries + [x]) == Sum(entries) + x.amount
    ensures forall v :: Of(entries + [x], v) == Of(entries, v) + (if x.venue == v then x.amount else 0.0)
  {
    if entries != [] {
      assert (entries + [x])[1..] == entries[1..] + [x];
      SumSnoc(entries[1..], x);
    }
  }

  lemma {:induction false} TotalSnoc(holdings: seq<Holding>)
    requires holdings != []
    ensures Total(holdings) == Total(holdings[..|holdings| - 1]) + holdings[|holdings| - 1].amount
  {
    var n := |holdings| - 1;
    if n > 0 {
      assert holdings[1..][..n - 1] == holdings[..n][1..];
      TotalSnoc(holdings[1..]);
    }
  }

  function TargetSum(holdings: seq<Holding>, targets: Option<map<Venue, real>>, n: nat, total: real): real
    requires n > 0
  {
    if holdings == [] then 0.0
    else
      TargetSum(holdings[..|holdings| - 1], targets, n, total)
      + Target(holdings[|holdings| - 1].venue, targets, n, total)
  }

  lemma {:induction false} TargetSumIsShareOfTotal(
    holdings: seq<Holding>, targets: Option<map<Venue, real>>, n: nat, total: real)
    requires n > 0
    ensures TargetSum(holdings, targets, n, total) == total * FractionSum(holdings, targets, n)
  {
    if holdings != [] {
      var init, h := holdings[..|holdings| - 1], holdings[|holdings| - 1];
      TargetSumIsShareOfTotal(init, targets, n, total);
      RDistrib(total, FractionSum(init, targets, n), Fraction(targets, n, h.venue));
    }
  }

  /** Surpluses minus deficits is what the targets leave unassigned. */
  lemma {:induction false} GapOfSplit(holdings: seq<Holding>, targets: Option<map<Venue, real>>, n: nat, total: real)
    requires n > 0
    ensures Sum(Surpluses(holdings, targets, n, total)) - Sum(Deficits(holdings, targets, n, total))
         == Total(holdings) - TargetSum(holdings, targets, n, total)
  {
    if holdings != [] {
      hide Target, Sum, Total;
      var k := |holdings| - 1;
      var init, h := holdings[..k], holdings[k];
      GapOfSplit(init, targets, n, total);
      TotalSnoc(holdings);
      SumSnoc(Surpluses(init, targets, n, total), Entry(h.venue, Delta(h, targets, n, total)));
      SumSnoc(Deficits(init, targets, n, total), Entry(h.venue, -Delta(h, targets, n, total)));
    }
  }

  lemma NothingOf(v: Venue)
    ensures Of([], v) == 0.0
  {
  }

  ghost predicate DistinctVenues(holdings: seq<Holding>) {
    forall i, j :: 0 <= i < j < |holdings| ==> holdings[i].venue != holdings[j].venue
  }

  /** What the last holding adds to the surplus and deficit of a venue. */
  lemma LastEntry(holdings: seq<Holding>, targets: Option<map<Venue, real>>, n: nat, total: real, v: Venue)
    requires n > 0 && holdings != []
    ensures var init, h := holdings[..|holdings| - 1], holdings[|holdings| - 1];
            var delta := if h.venue == v then Delta(h, targets, n, total) else 0.0;
            && Of(Surpluses(holdings, targets, n, total), v)
               == Of(Surpluses(init, targets, n, total), v) + Max(delta, 0.0)
            && Of(Deficits(holdings, targets, n, total), v)
               == Of(Deficits(init, targets, n, total), v) + Max(-delta, 0.0)
  {
    hide Delta, Of;
    var init, h := holdings[..|holdings| - 1], holdings[|holdings| - 1];
    SumSnoc(Surpluses(init, targets, n, total), Entry(h.venue, Delta(h, targets, n, total)));
    SumSnoc(Deficits(init, targets, n, total), Entry(h.venue, -Delta(h, targets, n, total)));
  }

  lemma {:induction false} NoEntries(
    holdings: seq<Holding>, targets: Option<map<Venue, real>>, n: nat, total: real, v: Venue)
    requires n > 0 && forall i :: 0 <= i < |holdings| ==> holdings[i].venue != v
    ensures Of(Surpluses(holdings, targets, n, total), v) == 0.0 == Of(Deficits(holdings, targets, n, total), v)
  {
    if holdings == [] {
      NothingOf(v);
    } else {
      hide Delta, Of, Surpluses, Deficits;
      NoEntries(holdings[..|holdings| - 1], targets, n, total, v);
      LastEntry(holdings, targets, n, total, v);
    }
  }

  /** Each venue's entry is the distance of its balance from its target. */
  lemma {:induction false} EntriesOf(
    holdings: seq<Holding>, targets: Option<map<Venue, real>>, n: nat, total: real, i: nat)
    requires n > 0 && DistinctVenues(holdings) && i < |holdings|
    ensures var v, delta := holdings[i].venue, Delta(holdings[i], targets, n, total);
            && Of(Surpluses(holdings, targets, n, total), v) == Max(delta, 0.0)
            && Of(Deficits(holdings, targets, n, total), v) == Max(-delta, 0.0)
    decreases |holdings|
  {
    hide Delta, Of, Surpluses, Deficits;
    var k := |holdings| - 1;
    if i < k {
      EntriesOf(holdings[..k], targets, n, total, i);
      assert holdings[k].venue != holdings[i].venue;
    } else {
      NoEntries(holdings[..k], targets, n, total, holdings[k].venue);
    }
    LastEntry(holdings, targets, n, total, holdings[i].venue);
  }

  lemma {:induction false} DrawnSnoc(entries: seq<Entry>, x: Entry, need: real, v: Venue)
    requires Positive(entries) && x.amount > 0.0
    ensures Drawn(entries + [x], need, v)
         == Drawn(entries, need, v) + (if x.venue == v then Max(0.0, Min(x.amount, need - Sum(entries))) else 0.0)
  {
    if entries != [] {
      SumPositive(entries);
      SumPositive(entries[1..]);
      assert (entries + [x])[1..] == entries[1..] + [x];
      DrawnSnoc(entries[1..], x, need - entries[0].amount, v);
    } else {
      assert [] + [x] == [x];
    }
  }

  /** What the last holding adds to what a venue gives or gets. */
  lemma LastDrawn(
    holdings: seq<Holding>, targets: Option<map<Venue, real>>, n: nat, total: real, need: real, v: Venue)
    requires n > 0 && holdings != []
    ensures var init, h := holdings[..|holdings| - 1], holdings[|holdings| - 1];
            var delta := if h.venue == v then Delta(h, targets, n, total) else 0.0;
            var surplus, deficit := Surpluses(init, targets, n, total), Deficits(init, targets, n, total);
            && Drawn(Surpluses(holdings, targets, n, total), need, v)
               == Drawn(surplus, need, v) + Max(0.0, Min(delta, need - Sum(surplus)))
            && Drawn(Deficits(holdings, targets, n, total), need, v)
               == Drawn(deficit, need, v) + Max(0.0, Min(-delta, need - Sum(deficit)))
  {
    hide Delta, Drawn, Sum, Surpluses, Deficits;
    LastSurplusDrawn(holdings, targets, n, total, need, v);
    LastDeficitDrawn(holdings, targets, n, total, need, v);
  }

  lemma LastSurplusDrawn(
    holdings: seq<Holding>, targets: Option<map<Venue, real>>, n: nat, total: real, need: real, v: Venue)
    requires n > 0 && holdings != []
    ensures var init, h := holdings[..|holdings| - 1], holdings[|holdings| - 1];
            var delta := if h.venue == v then Delta(h, targets, n, total) else 0.0;
            Drawn(Surpluses(holdings, targets, n, total), need, v)
            == Drawn(Surpluses(init, targets, n, total), need, v)
               + Max(0.0, Min(delta, need - Sum(Surpluses(init, targets, n, total))))
  {
    hide Delta, Drawn, Sum;
    var init, h := holdings[..|holdings| - 1], holdings[|holdings| - 1];
    if Delta(h, targets, n, total) > 0.0 {
      DrawnSnoc(Surpluses(init, targets, n, total), Entry(h.venue, Delta(h, targets, n, total)), need, v);
    }
  }

  lemma LastDeficitDrawn(
    holdings: seq<Holding>, targets: Option<map<Venue, real>>, n: nat, total: real, need: real, v: Venue)
    requires n > 0 && holdings != []
    ensures var init, h := holdings[..|holdings| - 1], holdings[|holdings| - 1];
            var delta := if h.venue == v then Delta(h, targets, n, total) else 0.0;
            Drawn(Deficits(holdings, targets, n, total), need, v)
            == Drawn(Deficits(init, targets, n, total), need, v)
               + Max(0.0, Min(-delta, need - Sum(Deficits(init, targets, n, total))))
  {
    hide Delta, Drawn, Sum;
    var init, h := holdings[..|holdings| - 1], holdings[|holdings| - 1];
    if Delta(h, targets, n, total) < 0.0 {
      DrawnSnoc(Deficits(init, targets, n, total), Entry(h.venue, -Delta(h, targets, n, total)), need, v);
    }
  }

  lemma {:induction false} NothingDrawnOf(
    holdings: seq<Holding>, targets: Option<map<Venue, real>>, n: nat, total: real, need: real, v: Venue)
    requires n > 0 && forall i :: 0 <= i < |holdings| ==> holdings[i].venue != v
    ensures Drawn(Surpluses(holdings, targets, n, total), need, v) == 0.0
    ensures Drawn(Deficits(holdings, targets, n, total), need, v) == 0.0
  {
    if holdings != [] {
      hide Delta, Drawn, Sum, Surpluses, Deficits;
      NothingDrawnOf(holdings[..|holdings| - 1], targets, n, total, need, v);
      LastDrawn(holdings, targets, n, total, need, v);
    }
  }

  /** A venue gives, or gets, its own distance from its target, cut to what the venues listed
      before it leave open. */
  lemma {:induction false} DrawnOf(
    holdings: seq<Holding>, targets: Option<map<Venue, real>>, n: nat, total: real, need: real, i: nat)
    requires n > 0 && DistinctVenues(holdings) && i < |holdings|
    ensures var v, delta := holdings[i].venue, Delta(holdings[i], targets, n, total);
            && Drawn(Surpluses(holdings, targets, n, total), need, v)
               == Max(0.0, Min(delta, need - Sum(Surpluses(holdings[..i], targets, n, total))))
            && Drawn(Deficits(holdings, targets, n, total), need, v)
               == Max(0.0, Min(-delta, need - Sum(Deficits(holdings[..i], targets, n, total))))
    decreases |holdings|
  {
    hide Delta, Drawn, Sum, Surpluses, Deficits;
    var k := |holdings| - 1;
    LastDrawn(holdings, targets, n, total, need, holdings[i].venue);
    if i < k {
      DrawnOf(holdings[..k], targets, n, total, need, i);
      assert holdings[k].venue != holdings[i].venue;
      assert holdings[..k][..i] == holdings[..i];
    } else {
      NothingDrawnOf(holdings[..k], targets, n, total, need, holdings[k].venue);
    }
  }

  /** Whatever the fractions sum to: if no transfer is skipped, every venue sends its surplus cut to
      what the venues before it leave of the total deficit, and receives its deficit cut to what
      the venues before it leave of the total surplus. */
  lemma PlanSplitsInOrder(e: Setting, holdings: seq<Holding>, targets: Option<map<Venue, real>>, i: nat)
    requires i < |holdings| && DistinctVenues(holdings) && Ends(e, StartFor(holdings, targets))
    requires !Final(e, StartFor(holdings, targets)).skipped
    ensures var plans := Final(e, StartFor(holdings, targets)).plans;
            var n, total, v := |holdings|, Total(holdings), holdings[i].venue;
            var delta := Delta(holdings[i], targets, n, total);
            var surplus, deficit := Surpluses(holdings, targets, n, total), Deficits(holdings, targets, n, total);
            && Sent(plans, v)
               == Max(0.0, Min(delta, Sum(deficit) - Sum(Surpluses(holdings[..i], targets, n, total))))
            && Received(plans, v)
               == Max(0.0, Min(-delta, Sum(surplus) - Sum(Deficits(holdings[..i], targets, n, total))))
  {
    hide Delta, Drawn, Sum, Sent, Received, Total;
    var n, total, v := |holdings|, Total(holdings), holdings[i].venue;
    var surplus, deficit := Surpluses(holdings, targets, n, total), Deficits(holdings, targets, n, total);
    PlansFollowTheOrder(e, surplus, deficit, v);
    DrawnOf(holdings, targets, n, total, Sum(deficit), i);
    DrawnOf(holdings, targets, n, total, Sum(surplus), i);
  }

  /** The exact condition, known before the call: a venue that has the minimum operating balance
      keeps it iff its target does, or the deficits left for it are no more than it can spare. */
  lemma MinimumKeptExactly(e: Setting, holdings: seq<Holding>, targets: Option<map<Venue, real>>, i: nat)
    requires i < |holdings| && DistinctVenues(holdings) && Ends(e, StartFor(holdings, targets))
    requires !Final(e, StartFor(holdings, targets)).skipped
    ensures var h, min := holdings[i], MinOperatingBalance(e.asset);
            var n, total := |holdings|, Total(holdings);
            var open := Sum(Deficits(holdings, targets, n, total)) - Sum(Surpluses(holdings[..i], targets, n, total));
            h.amount - Sent(Final(e, StartFor(holdings, targets)).plans, h.venue) >= min
            <==> h.amount >= min && (Target(h.venue, targets, n, total) >= min || open <= h.amount - min)
  {
    hide Drawn, Sum, Sent, Received, Total, Target, MinOperatingBalance;
    PlanSplitsInOrder(e, holdings, targets, i);
  }

  lemma TargetExactly(v: Venue, targets: Option<map<Venue, real>>, n: nat, total: real)
    requires n > 0
    ensures Target(v, targets, n, total)
         == if targets.Some? && v in targets.value then targets.value[v] * total else total / n as real
  {
    RQuotient(total, n as real);
    RQuotient(1.0, n as real);
    RCancel(total * (1.0 / n as real), total / n as real, n as real);
  }

  lemma PlanLandsOnTarget(e: Setting, holdings: seq<Holding>, targets: Option<map<Venue, real>>, i: nat)
    requires i < |holdings| && DistinctVenues(holdings) && Ends(e, StartFor(holdings, targets))
    requires FractionSum(holdings, targets, |holdings|) == 1.0
    requires !Final(e, StartFor(holdings, targets)).skipped
    ensures var plans := Final(e, StartFor(holdings, targets)).plans;
            var v := holdings[i].venue;
            holdings[i].amount - Sent(plans, v) + Received(plans, v)
            == Target(v, targets, |holdings|, Total(holdings))
  {
    hide Target, Fraction, Total, Sum, Of, Sent, Received;
    var n, total, v := |holdings|, Total(holdings), holdings[i].venue;
    var surplus, deficit := Surpluses(holdings, targets, n, total), Deficits(holdings, targets, n, total);
    GapOfSplit(holdings, targets, n, total);
    TargetSumIsShareOfTotal(holdings, targets, n, total);
    assert total * 1.0 == total;
    LandsOnTarget(e, surplus, deficit, v);
    EntriesOf(holdings, targets, n, total, i);
  }

  /** When the fractions of the listed venues sum to 1 and no transfer is skipped, carrying out
      the plans leaves every venue with exactly its configured fraction of the total, or an equal
      share if none is configured, fees aside. */
  lemma PlanReachesTargets(e: Setting, holdings: seq<Holding>, targets: Option<map<Venue, real>>, i: nat)
    requires i < |holdings| && DistinctVenues(holdings) && Ends(e, StartFor(holdings, targets))
    requires FractionSum(holdings, targets, |holdings|) == 1.0
    requires !Final(e, StartFor(holdings, targets)).skipped
    ensures var plans := Final(e, StartFor(holdings, targets)).plans;
            var v := holdings[i].venue;
            holdings[i].amount - Sent(plans, v) + Received(plans, v)
            == if targets.Some? && v in targets.value then targets.value[v] * Total(holdings)
               else Total(holdings) / |holdings| as real
  {
    hide Target, Fraction, Total, Sum, Of, Sent, Received, Final, Ends, FractionSum;
    PlanLandsOnTarget(e, holdings, targets, i);
    TargetExactly(holdings[i].venue, targets, |holdings|, Total(holdings));
  }

  /** Whatever is skipped, no plan takes a venue across its target: sources stay at or above it,
      destinations at or below it, and no venue both sends and receives. */
  lemma PlanStaysOnOwnSide(e: Setting, holdings: seq<Holding>, targets: Option<map<Venue, real>>, i: nat)
    requires i < |holdings| && DistinctVenues(holdings) && Ends(e, StartFor(holdings, targets))
    ensures var plans := Final(e, StartFor(holdings, targets)).plans;
            var h := holdings[i];
            var target := Target(h.venue, targets, |holdings|, Total(holdings));
            if h.amount > target then Received(plans, h.venue) <= 0.0 && h.amount - Sent(plans, h.venue) >= target
            else Sent(plans, h.venue) <= 0.0 && h.amount + Received(plans, h.venue) <= target
  {
    hide Target, Fraction, Total, Sum, Of, Sent, Received;
    var n, total, v := |holdings|, Total(holdings), holdings[i].venue;
    NeverOvershoots(e, Surpluses(holdings, targets, n, total), Deficits(holdings, targets, n, total), v);
    EntriesOf(holdings, targets, n, total, i);
  }

  /** Equal shares always sum to 1. */
  lemma {:induction false} EqualSharesSum(holdings: seq<Holding>, n: nat)
    requires n > 0
    ensures FractionSum(holdings, None, n) == |holdings| as real / n as real
  {
    if holdings != [] {
      EqualSharesSum(holdings[..|holdings| - 1], n);
      var k := (|holdings| - 1) as real;
      RQuotient(k, n as real);
      RQuotient(1.0, n as real);
      RQuotient(k + 1.0, n as real);
      RDistrib(n as real, k / n as real, 1.0 / n as real);
      RCancel(k / n as real + 1.0 / n as real, (k + 1.0) / n as real, n as real);
    }
  }

  predicate Overweight(h: Holding, targets: Option<map<Venue, real>>, n: nat, total: real)
    requires n > 0
  {
    h.amount > Target(h.venue, targets, n, total)
  }

  lemma {:induction false} SurplusesFit(
    e: Setting, holdings: seq<Holding>, targets: Option<map<Venue, real>>, n: nat, total: real)
    requires n > 0
    requires forall i :: 0 <= i < |holdings| ==> e.Balance(holdings[i].venue) == holdings[i].amount
    requires forall i :: 0 <= i < |holdings| && Overweight(holdings[i], targets, n, total) ==>
               Target(holdings[i].venue, targets, n, total) >= MinOperatingBalance(e.asset)
    ensures FitsHeadroom(e, Surpluses(holdings, targets, n, total))
    ensures |Surpluses(holdings, targets, n, total)| + |Deficits(holdings, targets, n, total)| <= |holdings|
  {
    if holdings != [] {
      hide Target;
      SurplusesFit(e, holdings[..|holdings| - 1], targets, n, total);
    }
  }

  /** When every overweight venue's target is at least the minimum operating balance, the plan is
      made in at most one round a venue, and no source ends below that minimum. */
  lemma TargetsAboveMinimumSuffice(e: Setting, holdings: seq<Holding>, targets: Option<map<Venue, real>>)
    requires holdings != [] && DistinctVenues(holdings)
    requires forall i :: 0 <= i < |holdings| ==> e.Balance(holdings[i].venue) == holdings[i].amount
    requires forall i :: 0 <= i < |holdings| && Overweight(holdings[i], targets, |holdings|, Total(holdings)) ==>
               Target(holdings[i].venue, targets, |holdings|, Total(holdings)) >= MinOperatingBalance(e.asset)
    ensures Ends(e, StartFor(holdings, targets))
    ensures Final(e, StartFor(holdings, targets)).rounds <= |holdings|
    ensures var plans := Final(e, StartFor(holdings, targets)).plans;
            forall i :: 0 <= i < |holdings| && Sent(plans, holdings[i].venue) > 0.0 ==>
              holdings[i].amount - Sent(plans, holdings[i].venue) >= MinOperatingBalance(e.asset)
  {
    hide Target, Fraction, Total, Sent, Received;
    var n, total := |holdings|, Total(holdings);
    var st := StartFor(holdings, targets);
    SurplusesFit(e, holdings, targets, n, total);
    FitsMeansEnds(e, st.surplus, Sum(st.deficit));
    RoundsBounded(e, st);
    forall i | 0 <= i < |holdings| && Sent(Final(e, st).plans, holdings[i].venue) > 0.0
      ensures holdings[i].amount - Sent(Final(e, st).plans, holdings[i].venue) >= MinOperatingBalance(e.asset)
    {
      PlanStaysOnOwnSide(e, holdings, targets, i);
    }
  }
}
