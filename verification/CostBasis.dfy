/** Weighted-average cost accounting: inventory/tracker.py (CostBasisTracker) and
    inventory/pnl.py (PositionPnLEngine). */
module CostBasis {
  import opened Common
  import opened NonlinearMath

  datatype Trade = Trade(asset: string, side: TradeSide, qty: real, price: real, fee: real, timestamp: int)

  datatype Position = Position(qty: real, avgCost: real, realizedPnl: real, totalFees: real)

  const FLAT := Position(0.0, 0.0, 0.0, 0.0)

  /** What the tracker accepts. */
  predicate Accepted(t: Trade) {
    t.qty > 0.0 && t.price > 0.0 && t.fee >= 0.0 && t.side != OtherSide
  }

  // ---- one fill ----

  /** A sell is clipped to what is held. */
  function EffectiveQty(p: Position, t: Trade): real {
    Min(t.qty, p.qty)
  }

  /** Average cost of what is held and what is bought, weighted by quantity. */
  function MeanCost(p: Position, t: Trade): real
    requires p.qty + t.qty != 0.0
  {
    (p.avgCost * p.qty + t.price * t.qty) / (p.qty + t.qty)
  }

  /** Gain realized by selling a quantity. */
  function Gain(p: Position, t: Trade, sold: real): real {
    (t.price - p.avgCost) * sold - t.fee
  }

  function ApplyBuy(p: Position, t: Trade): Position
    requires p.qty + t.qty != 0.0
  {
    p.(qty := p.qty + t.qty, avgCost := MeanCost(p, t), totalFees := p.totalFees + t.fee)
  }

  function ApplySell(p: Position, t: Trade): Position {
    var sold := EffectiveQty(p, t);
    if sold > 0.0 then
      var left := p.qty - sold;
      Position(left, if left == 0.0 then 0.0 else p.avgCost,
               p.realizedPnl + Gain(p, t, sold), p.totalFees + t.fee)
    else p.(totalFees := p.totalFees + t.fee)
  }

  function ApplyFill(p: Position, t: Trade): (r: Position)
    requires p.qty >= 0.0 && Accepted(t)
    ensures r.qty >= 0.0
  {
    if t.side == Buy then ApplyBuy(p, t) else ApplySell(p, t)
  }

  // ---- the position as a function of the trades ----

  ghost predicate AllAccepted(trades: seq<Trade>) {
    forall i :: 0 <= i < |trades| ==> Accepted(trades[i])
  }

  function PositionOf(trades: seq<Trade>, asset: string): (p: Position)
    requires AllAccepted(trades)
    ensures p.qty >= 0.0
  {
    if trades == [] then FLAT
    else
      var before, t := PositionOf(trades[..|trades| - 1], asset), trades[|trades| - 1];
      if t.asset == asset then ApplyFill(before, t) else before
  }

  /** The last trade's effect on a position. */
  lemma PositionStep(trades: seq<Trade>, asset: string)
    requires AllAccepted(trades) && trades != []
    ensures var before, t := PositionOf(trades[..|trades| - 1], asset), trades[|trades| - 1];
            PositionOf(trades, asset) == if t.asset == asset then ApplyFill(before, t) else before
  {
  }

  lemma PositionsStep(trades: seq<Trade>, t: Trade)
    requires AllAccepted(trades) && Accepted(t)
    ensures AllAccepted(trades + [t])
    ensures forall a :: PositionOf(trades + [t], a)
              == if t.asset == a then ApplyFill(PositionOf(trades, a), t) else PositionOf(trades, a)
  {
    hide PositionOf, ApplyFill;
    assert (trades + [t])[..|trades|] == trades;
    forall a
      ensures PositionOf(trades + [t], a)
           == if t.asset == a then ApplyFill(PositionOf(trades, a), t) else PositionOf(trades, a)
    {
      PositionStep(trades + [t], a);
    }
  }

  // ---- the tracker ----

  class CostBasisTracker {
    var positions: map<string, Position>
    var order: seq<string>
    var trades: seq<Trade>

    /** Every position is what the recorded trades make of it. */
    ghost predicate Valid()
      reads this
    {
      && AllAccepted(trades)
      && (forall a :: Get(positions, a) == PositionOf(trades, a))
      && Distinct(order)
      && (forall a :: a in order <==> a in positions)
    }

    constructor ()
      ensures Valid() && trades == []
    {
      positions, order, trades := map[], [], [];
    }

    /** Refused fills change nothing; accepted ones are recorded and carried into their position. */
    method RecordFill(t: Trade) returns (r: Result<()>)
      requires Valid()
      modifies this
      ensures Valid()
      ensures r.Ok? <==> t.qty > 0.0 && t.price > 0.0 && t.fee >= 0.0 && (t.side == Buy || t.side == Sell)
      ensures trades == old(trades) + if r.Ok? then [t] else []
      ensures r.Err? ==> unchanged(this)
      ensures forall a :: Get(positions, a)
                == if r.Ok? && a == t.asset then ApplyFill(Get(old(positions), a), t) else Get(old(positions), a)
      ensures r.Err? ==>
                r.error == if t.qty <= 0.0 then NonPositiveAmount
                           else if t.price <= 0.0 then NonPositivePrice
                           else if t.fee < 0.0 then NegativeFee else BadSide
    {
      if t.qty <= 0.0 {
        return Err(NonPositiveAmount);
      }
      if t.price <= 0.0 {
        return Err(NonPositivePrice);
      }
      if t.fee < 0.0 {
        return Err(NegativeFee);
      }
      if t.side == OtherSide {
        return Err(BadSide);
      }
      hide PositionOf, ApplyFill;
      assert Get(positions, t.asset) == PositionOf(trades, t.asset);
      trades := trades + [t];
      PositionsStep(old(trades), t);
      if t.asset !in positions {
        order := order + [t.asset];
        positions := positions[t.asset := FLAT];
      }
      var pos := UpdatePosition(positions[t.asset], t);
      positions := positions[t.asset := pos];
      return Ok(());
    }

    /** One row and the running totals for every position, in the order they were opened. */
    method Snapshot(marks: map<string, real>)
      returns (rows: seq<PnlRow>, unrealized: real, realized: real, fees: real, netPnl: real)
      requires Valid()
      ensures |rows| == |order|
      ensures forall i :: 0 <= i < |order| ==> rows[i] == RowOf(order[i], PositionOf(trades, order[i]), marks)
      ensures unrealized == TotalUnrealized(trades, order, marks)
      ensures realized == TotalRealized(trades, order)
      ensures fees == TotalFees(trades, order)
      ensures netPnl == realized + unrealized
    {
      hide PositionOf, Unrealized, MarkOf, RowOf, TotalUnrealized, TotalRealized, TotalFees;
      TotalsOfNone(trades, marks);
      rows, unrealized, realized, fees := [], 0.0, 0.0, 0.0;
      for i := 0 to |order|
        invariant |rows| == i
        invariant forall j :: 0 <= j < i ==> rows[j] == RowOf(order[j], PositionOf(trades, order[j]), marks)
        invariant unrealized == TotalUnrealized(trades, order[..i], marks)
        invariant realized == TotalRealized(trades, order[..i])
        invariant fees == TotalFees(trades, order[..i])
      {
        TotalsStep(trades, order, i, marks);
        assert order[i] in positions;
        var pos := positions[order[i]];
        assert pos == PositionOf(trades, order[i]);
        var row := SnapshotRow(order[i], pos, marks);
        rows := rows + [row];
        unrealized := unrealized + row.unrealized;
        realized := realized + pos.realizedPnl;
        fees := fees + pos.totalFees;
      }
      assert order[..|order|] == order;
      netPnl := realized + unrealized;
    }
  }

  /** The row of one position. */
  method SnapshotRow(asset: string, pos: Position, marks: map<string, real>) returns (row: PnlRow)
    ensures row == RowOf(asset, pos, marks) && row.unrealized == Unrealized(pos, MarkOf(pos, asset, marks))
  {
    hide Unrealized, BookValue;
    var mark := MarkOf(pos, asset, marks);
    var gain := Unrealized(pos, mark);
    var costBasis := BookValue(pos);
    var returnPct := if costBasis > 0.0 then gain / costBasis else 0.0;
    row := PnlRow(asset, pos.qty, pos.avgCost, mark, gain, pos.realizedPnl, pos.totalFees,
                  pos.realizedPnl + gain, returnPct);
  }

  /** The field updates of one accepted fill, in their order. */
  method UpdatePosition(before: Position, t: Trade) returns (pos: Position)
    requires before.qty >= 0.0 && Accepted(t)
    ensures pos == ApplyFill(before, t)
  {
    hide MeanCost, Gain;
    pos := before.(totalFees := before.totalFees + t.fee);
    if t.side == Buy {
      var avgCost := MeanCost(before, t);
      pos := pos.(qty := pos.qty + t.qty);
      pos := pos.(avgCost := avgCost);
    } else {
      var sellQty := Min(t.qty, pos.qty);
      if sellQty > 0.0 {
        var realized := Gain(before, t, sellQty);
        pos := pos.(realizedPnl := pos.realizedPnl + realized, qty := pos.qty - sellQty);
        if pos.qty == 0.0 {
          pos := pos.(avgCost := 0.0);
        }
      }
    }
  }

  function Get(positions: map<string, Position>, asset: string): Position {
    if asset in positions then positions[asset] else FLAT
  }

  function Unrealized(p: Position, mark: real): real {
    if p.qty == 0.0 then 0.0 else (mark - p.avgCost) * p.qty
  }

  function MarkOf(p: Position, asset: string, marks: map<string, real>): real {
    if asset in marks then marks[asset] else p.avgCost
  }

  /** Book value: what the open quantity cost on average. */
  function BookValue(p: Position): real {
    p.avgCost * p.qty
  }

  datatype PnlRow = PnlRow(
    asset: string, qty: real, avgCost: real, mark: real, unrealized: real, realized: real, fees: real,
    totalPnl: real, returnPct: real)

  function RowOf(asset: string, p: Position, marks: map<string, real>): PnlRow {
    var mark := MarkOf(p, asset, marks);
    var gain := Unrealized(p, mark);
    PnlRow(asset, p.qty, p.avgCost, mark, gain, p.realizedPnl, p.totalFees, p.realizedPnl + gain,
           if BookValue(p) > 0.0 then gain / BookValue(p) else 0.0)
  }

  function TotalUnrealized(trades: seq<Trade>, assets: seq<string>, marks: map<string, real>): real
    requires AllAccepted(trades)
  {
    if assets == [] then 0.0
    else
      var a := assets[|assets| - 1];
      var p := PositionOf(trades, a);
      TotalUnrealized(trades, assets[..|assets| - 1], marks) + Unrealized(p, MarkOf(p, a, marks))
  }

  function TotalRealized(trades: seq<Trade>, assets: seq<string>): real
    requires AllAccepted(trades)
  {
    if assets == [] then 0.0
    else TotalRealized(trades, assets[..|assets| - 1]) + PositionOf(trades, assets[|assets| - 1]).realizedPnl
  }

  function TotalFees(trades: seq<Trade>, assets: seq<string>): real
    requires AllAccepted(trades)
  {
    if assets == [] then 0.0
    else TotalFees(trades, assets[..|assets| - 1]) + PositionOf(trades, assets[|assets| - 1]).totalFees
  }

  lemma TotalsOfNone(trades: seq<Trade>, marks: map<string, real>)
    requires AllAccepted(trades)
    ensures TotalUnrealized(trades, [], marks) == TotalRealized(trades, []) == TotalFees(trades, []) == 0.0
  {
  }

  lemma TotalsStep(trades: seq<Trade>, assets: seq<string>, i: nat, marks: map<string, real>)
    requires AllAccepted(trades) && i < |assets|
    ensures var p := PositionOf(trades, assets[i]);
            && TotalUnrealized(trades, assets[..i + 1], marks)
               == TotalUnrealized(trades, assets[..i], marks) + Unrealized(p, MarkOf(p, assets[i], marks))
            && TotalRealized(trades, assets[..i + 1]) == TotalRealized(trades, assets[..i]) + p.realizedPnl
            && TotalFees(trades, assets[..i + 1]) == TotalFees(trades, assets[..i]) + p.totalFees
  {
    assert assets[..i + 1][..i] == assets[..i];
  }

  // ---- the cash-flow identity ----

  /** Cash that one fill moves: a buy pays price times quantity, a sell earns price times the
      quantity actually held, less its fee; fees of buys and of empty sells are not counted. */
  function CashOf(p: Position, t: Trade): real {
    if t.side == Buy then -(t.price * t.qty)
    else if EffectiveQty(p, t) > 0.0 then t.price * EffectiveQty(p, t) - t.fee
    else 0.0
  }

  function CashFlow(trades: seq<Trade>, asset: string): real
    requires AllAccepted(trades)
  {
    if trades == [] then 0.0
    else
      var init, t := trades[..|trades| - 1], trades[|trades| - 1];
      CashFlow(init, asset) + (if t.asset == asset then CashOf(PositionOf(init, asset), t) else 0.0)
  }

  predicate Sound(p: Position) {
    p.qty >= 0.0 && (p.qty == 0.0 ==> p.avgCost == 0.0)
  }

  lemma BuyKeepsBooks(p: Position, t: Trade)
    requires Sound(p) && Accepted(t) && t.side == Buy
    ensures Sound(ApplyBuy(p, t))
    ensures BookValue(ApplyBuy(p, t)) == BookValue(p) + t.price * t.qty
  {
    RQuotient(p.avgCost * p.qty + t.price * t.qty, p.qty + t.qty);
  }

  lemma SellKeepsBooks(p: Position, t: Trade)
    requires Sound(p) && Accepted(t) && t.side == Sell
    ensures Sound(ApplySell(p, t))
    ensures ApplySell(p, t).realizedPnl - BookValue(ApplySell(p, t)) == p.realizedPnl - BookValue(p) + CashOf(p, t)
  {
    var sold := EffectiveQty(p, t);
    if sold > 0.0 {
      RDistrib(sold, t.price, p.avgCost);
      RDistrib(p.avgCost, p.qty, sold);
      if p.qty == sold {
        assert p.avgCost * (p.qty - sold) == 0.0;
      }
    }
  }

  /** A fill moves realized PnL and book value together by exactly its cash. */
  lemma FillKeepsBooks(p: Position, t: Trade)
    requires Sound(p) && Accepted(t)
    ensures Sound(ApplyFill(p, t))
    ensures ApplyFill(p, t).realizedPnl - BookValue(ApplyFill(p, t)) == p.realizedPnl - BookValue(p) + CashOf(p, t)
  {
    hide BookValue, EffectiveQty;
    if t.side == Buy {
      BuyKeepsBooks(p, t);
    } else {
      SellKeepsBooks(p, t);
    }
  }

  lemma CashStep(trades: seq<Trade>, asset: string)
    requires AllAccepted(trades) && trades != []
    ensures var init, t := trades[..|trades| - 1], trades[|trades| - 1];
            CashFlow(trades, asset)
            == CashFlow(init, asset) + if t.asset == asset then CashOf(PositionOf(init, asset), t) else 0.0
  {
  }

  /** Realized PnL less book value is the cash that has moved. */
  lemma {:induction false} BooksMatchCash(trades: seq<Trade>, asset: string)
    requires AllAccepted(trades)
    ensures Sound(PositionOf(trades, asset))
    ensures PositionOf(trades, asset).realizedPnl - BookValue(PositionOf(trades, asset)) == CashFlow(trades, asset)
  {
    hide BookValue, ApplyFill, CashOf, PositionOf, CashFlow;
    if trades == [] {
      BooksOfNothing(asset);
    } else {
      var init, t := trades[..|trades| - 1], trades[|trades| - 1];
      PositionStep(trades, asset);
      CashStep(trades, asset);
      BooksMatchCash(init, asset);
      if t.asset == asset {
        FillKeepsBooks(PositionOf(init, asset), t);
      }
    }
  }

  lemma BooksOfNothing(asset: string)
    ensures Sound(PositionOf([], asset))
    ensures PositionOf([], asset).realizedPnl - BookValue(PositionOf([], asset)) == CashFlow([], asset)
  {
  }

  /** What the open quantity is worth at a mark. */
  function Worth(p: Position, mark: real): real {
    p.qty * mark
  }

  lemma MarkedToMarket(p: Position, mark: real)
    requires Sound(p)
    ensures Unrealized(p, mark) == Worth(p, mark) - BookValue(p)
  {
    RDistrib(p.qty, mark, p.avgCost);
  }

  /** Over any sequence of fills, oversells clipped: realized plus unrealized PnL at any mark is
      the cash that has moved plus the open quantity at that mark. */
  lemma CostBasisIdentity(trades: seq<Trade>, asset: string, mark: real)
    requires AllAccepted(trades)
    ensures var p := PositionOf(trades, asset);
            p.realizedPnl + Unrealized(p, mark) == CashFlow(trades, asset) + Worth(p, mark)
  {
    hide PositionOf, CashFlow, Unrealized, Worth, BookValue;
    BooksMatchCash(trades, asset);
    MarkedToMarket(PositionOf(trades, asset), mark);
  }

  /** Each row in terms of what happened: its total is the cash moved plus the holding at its mark,
      and its return is how far the mark lies above the average cost, 0 for a closed position or
      one without a mark. */
  lemma RowMeaning(trades: seq<Trade>, asset: string, marks: map<string, real>)
    requires AllAccepted(trades)
    ensures var p := PositionOf(trades, asset);
            var row := RowOf(asset, p, marks);
            && row.mark == (if asset in marks then marks[asset] else p.avgCost)
            && row.totalPnl == row.realized + row.unrealized == CashFlow(trades, asset) + Worth(p, row.mark)
            && row.fees == FeesPaid(trades, asset)
            && (BookValue(p) > 0.0 ==> (1.0 + row.returnPct) * p.avgCost == row.mark)
            && (p.qty == 0.0 || asset !in marks ==> row.unrealized == 0.0 == row.returnPct)
  {
    hide PositionOf, CashFlow, Worth, BookValue, Unrealized;
    var p := PositionOf(trades, asset);
    CostBasisIdentity(trades, asset, MarkOf(p, asset, marks));
    BooksMatchCash(trades, asset);
    TotalFeesAreFeesPaid(trades, asset);
    RowReturn(asset, p, marks);
  }

  lemma RowReturn(asset: string, p: Position, marks: map<string, real>)
    requires p.qty >= 0.0
    ensures var row := RowOf(asset, p, marks);
            && (BookValue(p) > 0.0 ==> (1.0 + row.returnPct) * p.avgCost == row.mark)
            && (p.qty == 0.0 || asset !in marks ==> row.unrealized == 0.0 == row.returnPct)
  {
    var row := RowOf(asset, p, marks);
    if BookValue(p) > 0.0 {
      assert p.qty > 0.0;
      RQuotient(row.unrealized, BookValue(p));
      ReturnOnCost(row.returnPct, p.qty, p.avgCost, row.mark);
    }
  }

  lemma ReturnOnCost(pct: real, qty: real, avg: real, mark: real)
    requires qty > 0.0 && pct * (avg * qty) == (mark - avg) * qty
    ensures (1.0 + pct) * avg == mark
  {
    assert pct * (avg * qty) == pct * avg * qty;
    RCancel(pct * avg, mark - avg, qty);
  }

  function CashAndHoldings(trades: seq<Trade>, assets: seq<string>, marks: map<string, real>): real
    requires AllAccepted(trades)
  {
    if assets == [] then 0.0
    else
      var a := assets[|assets| - 1];
      var p := PositionOf(trades, a);
      CashAndHoldings(trades, assets[..|assets| - 1], marks) + (CashFlow(trades, a) + Worth(p, MarkOf(p, a, marks)))
  }

  /** The portfolio's net PnL is all cash moved plus all holdings at their marks. */
  lemma {:induction false} PortfolioIdentity(trades: seq<Trade>, assets: seq<string>, marks: map<string, real>)
    requires AllAccepted(trades)
    ensures TotalRealized(trades, assets) + TotalUnrealized(trades, assets, marks)
         == CashAndHoldings(trades, assets, marks)
  {
    if assets != [] {
      hide Unrealized, CashFlow, Worth, PositionOf;
      var a := assets[|assets| - 1];
      var p := PositionOf(trades, a);
      PortfolioIdentity(trades, assets[..|assets| - 1], marks);
      CostBasisIdentity(trades, a, MarkOf(p, a, marks));
    }
  }

  function FeesPaid(trades: seq<Trade>, asset: string): real {
    if trades == [] then 0.0
    else
      var t := trades[|trades| - 1];
      FeesPaid(trades[..|trades| - 1], asset) + (if t.asset == asset then t.fee else 0.0)
  }

  /** Every accepted fill's fee is counted in the total, whether or not it touches realized PnL. */
  lemma {:induction false} TotalFeesAreFeesPaid(trades: seq<Trade>, asset: string)
    requires AllAccepted(trades)
    ensures PositionOf(trades, asset).totalFees == FeesPaid(trades, asset)
  {
    if trades != [] {
      TotalFeesAreFeesPaid(trades[..|trades| - 1], asset);
    }
  }

  // ---- the average lies among the prices paid ----

  /** Prices bought at since the position was last flat. */
  function BuysSinceFlat(trades: seq<Trade>, asset: string): seq<real>
    requires AllAccepted(trades)
  {
    if trades == [] then []
    else
      var init, t := trades[..|trades| - 1], trades[|trades| - 1];
      var before := if PositionOf(init, asset).qty == 0.0 then [] else BuysSinceFlat(init, asset);
      if t.asset == asset && t.side == Buy then before + [t.price] else before
  }

  ghost predicate Within(prices: seq<real>, lo: real, hi: real) {
    forall i :: 0 <= i < |prices| ==> lo <= prices[i] <= hi
  }

  lemma BuyKeepsAverageWithin(p: Position, t: Trade, lo: real, hi: real)
    requires Sound(p) && Accepted(t) && t.side == Buy && lo <= t.price <= hi
    requires p.qty > 0.0 ==> lo <= p.avgCost <= hi
    ensures lo <= ApplyBuy(p, t).avgCost <= hi
  {
    MixWithin(p.avgCost, p.qty, t.price, t.qty, lo, hi);
    MeanWithin(p.avgCost * p.qty + t.price * t.qty, p.qty + t.qty, lo, hi);
  }

  lemma MixWithin(a: real, m: real, b: real, n: real, lo: real, hi: real)
    requires 0.0 <= m && 0.0 < n && lo <= b <= hi && (m > 0.0 ==> lo <= a <= hi)
    ensures lo * (m + n) <= a * m + b * n <= hi * (m + n)
  {
    assert lo * (m + n) == lo * m + lo * n && hi * (m + n) == hi * m + hi * n by {
      RDistrib(lo, m, n);
      RDistrib(hi, m, n);
    }
    assert lo * n <= b * n <= hi * n by {
      RMulMono(lo, b, n);
      RMulMono(b, hi, n);
    }
    assert lo * m <= a * m <= hi * m by {
      if m > 0.0 {
        RMulMono(lo, a, m);
        RMulMono(a, hi, m);
      }
    }
  }

  lemma MeanWithin(total: real, n: real, lo: real, hi: real)
    requires n > 0.0 && lo * n <= total <= hi * n
    ensures lo <= total / n <= hi
  {
    RQuotient(total, n);
    if total / n < lo {
      RStrict(total / n, lo, n);
    }
    if hi < total / n {
      RStrict(hi, total / n, n);
    }
  }

  /** While a position is open its average cost lies between the lowest and the highest price
      paid since it was last flat. */
  lemma {:induction false} AverageWithinPricesPaid(trades: seq<Trade>, asset: string, lo: real, hi: real)
    requires AllAccepted(trades) && PositionOf(trades, asset).qty > 0.0
    requires Within(BuysSinceFlat(trades, asset), lo, hi)
    ensures BuysSinceFlat(trades, asset) != []
    ensures lo <= PositionOf(trades, asset).avgCost <= hi
  {
    var init, t := trades[..|trades| - 1], trades[|trades| - 1];
    var before := PositionOf(init, asset);
    var prices := BuysSinceFlat(trades, asset);
    BooksMatchCash(init, asset);
    hide ApplyBuy;
    if t.asset == asset && t.side == Buy {
      assert prices[|prices| - 1] == t.price;
      if before.qty > 0.0 {
        assert prices[..|prices| - 1] == BuysSinceFlat(init, asset);
        AverageWithinPricesPaid(init, asset, lo, hi);
      }
      BuyKeepsAverageWithin(before, t, lo, hi);
    } else {
      assert before.qty > 0.0;
      AverageWithinPricesPaid(init, asset, lo, hi);
    }
  }
}
