/** The local order book mirror fed by a snapshot and a diff stream: exchange/ws_orderbook.py. */
module OrderBookMirror {
  import opened Common

  type Price = real
  type Qty = real

  /** One diff event as parsed: the update ids it covers and the levels it carries. */
  datatype DiffEvent = DiffEvent(firstId: int, finalId: int, bids: seq<Level>, asks: seq<Level>)

  datatype Snapshot = Snapshot(lastUpdateId: int, bids: seq<Level>, asks: seq<Level>)

  type Side = map<Price, Qty>

  // ---- one side of the book as a value ----

  function ApplyLevel(side: Side, l: Level): Side {
    if l.qty == 0.0 then side - {l.price} else side[l.price := l.qty]
  }

  /** The last entry for a price wins. */
  function ApplyLevels(side: Side, levels: seq<Level>): Side {
    if levels == [] then side
    else ApplyLevel(ApplyLevels(side, levels[..|levels| - 1]), levels[|levels| - 1])
  }

  /** A snapshot side keeps its positive levels only. */
  function FromSnapshot(levels: seq<Level>): Side {
    if levels == [] then map[]
    else
      var init, l := FromSnapshot(levels[..|levels| - 1]), levels[|levels| - 1];
      if l.qty > 0.0 then init[l.price := l.qty] else init
  }

  datatype Book = Book(bids: Side, asks: Side, lastUpdateId: int)

  function ApplyEvent(b: Book, e: DiffEvent): Book {
    if e.finalId <= b.lastUpdateId then b
    else Book(ApplyLevels(b.bids, e.bids), ApplyLevels(b.asks, e.asks), e.finalId)
  }

  function ApplySnapshot(s: Snapshot): Book {
    Book(FromSnapshot(s.bids), FromSnapshot(s.asks), s.lastUpdateId)
  }

  function ApplyEvents(b: Book, events: seq<DiffEvent>): Book {
    if events == [] then b
    else ApplyEvent(ApplyEvents(b, events[..|events| - 1]), events[|events| - 1])
  }

  // ---- the mirror ----

  class OrderBookStream {
    var bids: Side
    var asks: Side
    var lastUpdateId: int
    var synced: bool

    constructor ()
      ensures Contents() == Book(map[], map[], 0) && !synced
    {
      bids, asks, lastUpdateId, synced := map[], map[], 0, false;
    }

    function Contents(): Book
      reads this
    {
      Book(bids, asks, lastUpdateId)
    }

    method ApplySnapshotInPlace(s: Snapshot)
      modifies this
      ensures Contents() == ApplySnapshot(s) && synced
    {
      lastUpdateId := s.lastUpdateId;
      bids := KeepPositive(s.bids);
      asks := KeepPositive(s.asks);
      synced := true;
    }

    /** False exactly for a stale event, which changes nothing. */
    method ApplyEventInPlace(e: DiffEvent) returns (applied: bool)
      modifies this
      ensures applied <==> e.finalId > old(lastUpdateId)
      ensures Contents() == ApplyEvent(old(Contents()), e) && synced == old(synced)
    {
      if e.finalId <= lastUpdateId {
        return false;
      }
      for i := 0 to |e.bids|
        invariant bids == ApplyLevels(old(bids), e.bids[..i])
        invariant asks == old(asks) && lastUpdateId == old(lastUpdateId) && synced == old(synced)
      {
        assert e.bids[..i + 1][..i] == e.bids[..i];
        if e.bids[i].qty == 0.0 {
          bids := bids - {e.bids[i].price};
        } else {
          bids := bids[e.bids[i].price := e.bids[i].qty];
        }
      }
      for i := 0 to |e.asks|
        invariant asks == ApplyLevels(old(asks), e.asks[..i])
        invariant bids == ApplyLevels(old(bids), e.bids[..|e.bids|])
        invariant lastUpdateId == old(lastUpdateId) && synced == old(synced)
      {
        assert e.asks[..i + 1][..i] == e.asks[..i];
        if e.asks[i].qty == 0.0 {
          asks := asks - {e.asks[i].price};
        } else {
          asks := asks[e.asks[i].price := e.asks[i].qty];
        }
      }
      assert e.bids[..|e.bids|] == e.bids && e.asks[..|e.asks|] == e.asks;
      lastUpdateId := e.finalId;
      return true;
    }
  }

  method KeepPositive(levels: seq<Level>) returns (side: Side)
    ensures side == FromSnapshot(levels)
  {
    side := map[];
    for i := 0 to |levels|
      invariant side == FromSnapshot(levels[..i])
    {
      assert levels[..i + 1][..i] == levels[..i];
      if levels[i].qty > 0.0 {
        side := side[levels[i].price := levels[i].qty];
      }
    }
    assert levels[..|levels|] == levels;
  }

  // ---- the exchange ----

  datatype WhichSide = Bid | Ask

  /** The exchange's history: update `n` (from 1 on) sets the quantities of some prices;
      quantity 0 means the level is gone. */
  type History = seq<map<(WhichSide, Price), Qty>>

  ghost predicate ValidHistory(h: History) {
    forall i, k :: 0 <= i < |h| && k in h[i] ==> h[i][k] >= 0.0
  }

  /** Quantity resting at a price after the first `n` updates. */
  function QtyAt(h: History, n: nat, side: WhichSide, p: Price): Qty
    requires n <= |h|
  {
    if n == 0 then 0.0
    else if (side, p) in h[n - 1] then h[n - 1][(side, p)]
    else QtyAt(h, n - 1, side, p)
  }

  /** Some update with an id in from..to touched the price. */
  ghost predicate Touched(h: History, from: int, to: int, side: WhichSide, p: Price)
    requires 1 <= from && to <= |h|
  {
    exists i :: from - 1 <= i < to && (side, p) in h[i]
  }

  lemma {:induction false} UntouchedKeepsQty(h: History, m: nat, n: nat, side: WhichSide, p: Price)
    requires m <= n <= |h| && !Touched(h, m + 1, n, side, p)
    ensures QtyAt(h, n, side, p) == QtyAt(h, m, side, p)
  {
    if m < n {
      UntouchedKeepsQty(h, m, n - 1, side, p);
    }
  }

  lemma {:induction false} QtyNonNegative(h: History, n: nat, side: WhichSide, p: Price)
    requires ValidHistory(h) && n <= |h|
    ensures QtyAt(h, n, side, p) >= 0.0
  {
    if n != 0 {
      QtyNonNegative(h, n - 1, side, p);
    }
  }

  function SideOf(e: DiffEvent, side: WhichSide): seq<Level> {
    if side == Bid then e.bids else e.asks
  }

  function BookSide(b: Book, side: WhichSide): Side {
    if side == Bid then b.bids else b.asks
  }

  function Held(b: Book, side: WhichSide, p: Price): Qty {
    if p in BookSide(b, side) then BookSide(b, side)[p] else 0.0
  }

  ghost predicate Lists(levels: seq<Level>, p: Price) {
    exists i :: 0 <= i < |levels| && levels[i].price == p
  }

  /** The event covers the updates firstId..finalId and carries the last quantity of every
      level one of them touched. */
  ghost predicate Honest(h: History, e: DiffEvent) {
    && 1 <= e.firstId <= e.finalId <= |h|
    && forall side: WhichSide ::
         && (forall i :: 0 <= i < |SideOf(e, side)| ==>
               SideOf(e, side)[i].qty == QtyAt(h, e.finalId, side, SideOf(e, side)[i].price))
         && (forall p :: Touched(h, e.firstId, e.finalId, side, p) ==> Lists(SideOf(e, side), p))
  }

  /** No update is missing between what has been applied and this event. Holds of every event
      of a gap-free stream opened before the snapshot, and of every repeated delivery. */
  ghost predicate NoGap(b: Book, e: DiffEvent) {
    e.firstId <= b.lastUpdateId + 1
  }

  ghost predicate NoGaps(b: Book, events: seq<DiffEvent>) {
    forall i :: 0 <= i < |events| ==> NoGap(ApplyEvents(b, events[..i]), events[i])
  }

  /** A gap-free stream: each event starts right after its predecessor, the first one no later
      than right after the snapshot. */
  lemma {:induction false} ContiguousStreamHasNoGaps(b: Book, events: seq<DiffEvent>)
    requires forall i :: 0 <= i < |events| ==> events[i].firstId <= events[i].finalId
    requires events != [] ==> events[0].firstId <= b.lastUpdateId + 1
    requires forall i :: 0 < i < |events| ==> events[i].firstId == events[i - 1].finalId + 1
    ensures NoGaps(b, events)
    ensures events != [] ==> ApplyEvents(b, events).lastUpdateId >= events[|events| - 1].finalId
  {
    if events != [] {
      var init := events[..|events| - 1];
      ContiguousStreamHasNoGaps(b, init);
      forall i | 0 <= i < |events|
        ensures NoGap(ApplyEvents(b, events[..i]), events[i])
      {
        if i < |init| {
          assert init[..i] == events[..i];
          assert NoGap(ApplyEvents(b, init[..i]), init[i]);
        } else {
          assert events[..i] == init;
        }
      }
    }
  }

  // ---- agreement ----

  /** A price the mirror answers for: covered by the snapshot, or touched by an applied event. */
  type Known = iset<(WhichSide, Price)>

  ghost function ListedBy(e: DiffEvent): Known {
    iset k: (WhichSide, Price) | Lists(SideOf(e, k.0), k.1)
  }

  /** Every known price holds the exchange's quantity at the mirror's update id; every level held
      is known; no level of quantity 0 is held. */
  ghost predicate Agrees(h: History, b: Book, known: Known) {
    && 0 <= b.lastUpdateId <= |h|
    && forall side: WhichSide, p: Price ::
         && ((side, p) in known ==> Held(b, side, p) == QtyAt(h, b.lastUpdateId, side, p))
         && (p in BookSide(b, side) ==> (side, p) in known && BookSide(b, side)[p] > 0.0)
  }

  /** Known prices after a run: those known before, and those listed by applied events. */
  ghost function KnownAfter(b: Book, known: Known, events: seq<DiffEvent>): Known {
    if events == [] then known
    else
      var init, e := events[..|events| - 1], events[|events| - 1];
      if e.finalId <= ApplyEvents(b, init).lastUpdateId then KnownAfter(b, known, init)
      else KnownAfter(b, known, init) + ListedBy(e)
  }

  lemma {:induction false} AppliedLevels(side: Side, levels: seq<Level>, p: Price, q: Qty)
    requires forall i :: 0 <= i < |levels| && levels[i].price == p ==> levels[i].qty == q
    ensures !Lists(levels, p) ==>
              (p in ApplyLevels(side, levels) <==> p in side)
              && (p in side ==> ApplyLevels(side, levels)[p] == side[p])
    ensures Lists(levels, p) ==>
              (p in ApplyLevels(side, levels) <==> q != 0.0)
              && (q != 0.0 ==> ApplyLevels(side, levels)[p] == q)
  {
    if levels != [] {
      var n := |levels| - 1;
      var init := levels[..n];
      AppliedLevels(side, init, p, q);
      assert Lists(levels, p) <==> Lists(init, p) || levels[n].price == p by {
        assert forall i :: 0 <= i < n ==> init[i] == levels[i];
      }
    }
  }

  /** Entry `i` is the last one for its price. */
  ghost predicate LastFor(levels: seq<Level>, i: nat) {
    i < |levels| && forall j :: i < j < |levels| ==> levels[j].price != levels[i].price
  }

  /** If an event lists a price more than once, the last entry wins: 0 removes the level, anything
      else is its new quantity. */
  lemma {:induction false} LastEntryWins(side: Side, levels: seq<Level>, i: nat)
    requires LastFor(levels, i)
    ensures var p, after := levels[i].price, ApplyLevels(side, levels);
            && (p in after <==> levels[i].qty != 0.0)
            && (p in after ==> after[p] == levels[i].qty)
  {
    if i < |levels| - 1 {
      LastEntryWins(side, levels[..|levels| - 1], i);
    }
  }

  /** A snapshot side holds exactly the prices with a positive entry, at the last such quantity. */
  lemma {:induction false} SnapshotKeepsPositive(levels: seq<Level>, p: Price)
    ensures p in FromSnapshot(levels) <==> exists i :: 0 <= i < |levels| && levels[i].price == p && levels[i].qty > 0.0
    ensures forall i :: 0 <= i < |levels| && levels[i].price == p && levels[i].qty > 0.0
                        && (forall j :: i < j < |levels| ==> levels[j].price != p || levels[j].qty <= 0.0)
              ==> FromSnapshot(levels)[p] == levels[i].qty
  {
    if levels != [] {
      SnapshotKeepsPositive(levels[..|levels| - 1], p);
    }
  }

  /** The step: an honest event without gap carries agreement from one update id to the next. */
  lemma EventKeepsAgreement(h: History, b: Book, known: Known, e: DiffEvent)
    requires ValidHistory(h) && Agrees(h, b, known) && Honest(h, e) && NoGap(b, e)
    ensures Agrees(h, ApplyEvent(b, e), if e.finalId <= b.lastUpdateId then known else known + ListedBy(e))
    ensures b.lastUpdateId <= ApplyEvent(b, e).lastUpdateId
  {
    if e.finalId > b.lastUpdateId {
      var b' := ApplyEvent(b, e);
      var known' := known + ListedBy(e);
      forall side: WhichSide, p: Price
        ensures (side, p) in known' ==> Held(b', side, p) == QtyAt(h, b'.lastUpdateId, side, p)
        ensures p in BookSide(b', side) ==> (side, p) in known' && BookSide(b', side)[p] > 0.0
      {
        var q := QtyAt(h, e.finalId, side, p);
        QtyNonNegative(h, e.finalId, side, p);
        AppliedLevels(BookSide(b, side), SideOf(e, side), p, q);
        if !Lists(SideOf(e, side), p) {
          assert !Touched(h, e.firstId, e.finalId, side, p);
          UntouchedKeepsQty(h, b.lastUpdateId, e.finalId, side, p);
        }
      }
    }
  }

  /** Over every run: after each step every known price holds exactly the exchange's quantity,
      no zero level is held, and the update id has not fallen. */
  lemma {:induction false} MirrorAgrees(h: History, b: Book, known: Known, events: seq<DiffEvent>)
    requires ValidHistory(h) && Agrees(h, b, known)
    requires NoGaps(b, events) && forall i :: 0 <= i < |events| ==> Honest(h, events[i])
    ensures Agrees(h, ApplyEvents(b, events), KnownAfter(b, known, events))
    ensures b.lastUpdateId <= ApplyEvents(b, events).lastUpdateId
    ensures known <= KnownAfter(b, known, events)
  {
    if events != [] {
      var n := |events| - 1;
      var init := events[..n];
      forall i | 0 <= i < n
        ensures NoGap(ApplyEvents(b, init[..i]), init[i])
      {
        assert init[..i] == events[..i];
      }
      MirrorAgrees(h, b, known, init);
      assert events[..n] == init;
      EventKeepsAgreement(h, ApplyEvents(b, init), KnownAfter(b, known, init), events[n]);
    }
  }

  /** Delivering an event again, at once or later in the run, changes nothing. */
  lemma {:induction false} RepeatChangesNothing(b: Book, e: DiffEvent, later: seq<DiffEvent>)
    ensures var reached := ApplyEvents(ApplyEvent(b, e), later);
            ApplyEvent(reached, e) == reached && reached.lastUpdateId >= e.finalId
  {
    if later != [] {
      RepeatChangesNothing(b, e, later[..|later| - 1]);
    }
  }

  // ---- the snapshot ----

  /** Better means higher for bids and lower for asks. */
  predicate AtLeastAsGood(side: WhichSide, p: Price, q: Price) {
    if side == Bid then p >= q else p <= q
  }

  function SnapSide(s: Snapshot, side: WhichSide): seq<Level> {
    if side == Bid then s.bids else s.asks
  }

  /** The best `limit` levels of each side at the snapshot's id. */
  ghost predicate HonestSnapshot(h: History, s: Snapshot, limit: nat) {
    && 0 <= s.lastUpdateId <= |h|
    && forall side: WhichSide ::
         var levels := SnapSide(s, side);
         && |levels| <= limit
         && (forall i :: 0 <= i < |levels| ==>
               levels[i].qty == QtyAt(h, s.lastUpdateId, side, levels[i].price) && levels[i].qty > 0.0)
         && (forall p :: QtyAt(h, s.lastUpdateId, side, p) > 0.0 && !Lists(levels, p) ==>
               |levels| == limit && forall i :: 0 <= i < |levels| ==> !AtLeastAsGood(side, p, levels[i].price))
  }

  /** A truncated side covers the prices at least as good as some listed one; a side that was not
      truncated covers everything. */
  ghost predicate Covered(s: Snapshot, limit: nat, side: WhichSide, p: Price) {
    || |SnapSide(s, side)| < limit
    || exists i :: 0 <= i < |SnapSide(s, side)| && AtLeastAsGood(side, p, SnapSide(s, side)[i].price)
  }

  ghost function CoveredPrices(s: Snapshot, limit: nat): Known {
    iset k: (WhichSide, Price) | Covered(s, limit, k.0, k.1)
  }

  lemma {:induction false} FromSnapshotExact(levels: seq<Level>, p: Price, q: Qty)
    requires q > 0.0 && forall i :: 0 <= i < |levels| && levels[i].price == p ==> levels[i].qty == q
    ensures p in FromSnapshot(levels) <==> Lists(levels, p)
    ensures Lists(levels, p) ==> FromSnapshot(levels)[p] == q
  {
    if levels != [] {
      var n := |levels| - 1;
      var init := levels[..n];
      FromSnapshotExact(init, p, q);
      assert Lists(levels, p) <==> Lists(init, p) || levels[n].price == p by {
        assert forall i :: 0 <= i < n ==> init[i] == levels[i];
      }
    }
  }

  lemma {:induction false} FromSnapshotListed(levels: seq<Level>, p: Price)
    requires p in FromSnapshot(levels)
    ensures Lists(levels, p)
  {
    if levels != [] {
      var n := |levels| - 1;
      if p in FromSnapshot(levels[..n]) {
        FromSnapshotListed(levels[..n], p);
        var i :| 0 <= i < n && levels[..n][i].price == p;
        assert levels[i].price == p;
      } else {
        assert levels[n].price == p;
      }
    }
  }

  lemma SnapshotAgrees(h: History, s: Snapshot, limit: nat)
    requires ValidHistory(h) && HonestSnapshot(h, s, limit)
    ensures Agrees(h, ApplySnapshot(s), CoveredPrices(s, limit))
  {
    var b := ApplySnapshot(s);
    forall side: WhichSide, p: Price
      ensures Covered(s, limit, side, p) ==> Held(b, side, p) == QtyAt(h, s.lastUpdateId, side, p)
      ensures p in BookSide(b, side) ==> Covered(s, limit, side, p) && BookSide(b, side)[p] > 0.0
    {
      var levels := SnapSide(s, side);
      QtyNonNegative(h, s.lastUpdateId, side, p);
      if p in BookSide(b, side) {
        FromSnapshotListed(levels, p);
      }
      if Lists(levels, p) {
        FromSnapshotExact(levels, p, QtyAt(h, s.lastUpdateId, side, p));
      }
    }
  }

  /** The mirror's whole life: a snapshot, then a contiguous stream that was opened before it. */
  lemma SynchronisedMirrorAgrees(h: History, s: Snapshot, limit: nat, events: seq<DiffEvent>)
    requires ValidHistory(h) && HonestSnapshot(h, s, limit)
    requires forall i :: 0 <= i < |events| ==> Honest(h, events[i])
    requires events != [] ==> events[0].firstId <= s.lastUpdateId + 1
    requires forall i :: 0 < i < |events| ==> events[i].firstId == events[i - 1].finalId + 1
    ensures var b := ApplySnapshot(s);
            Agrees(h, ApplyEvents(b, events), KnownAfter(b, CoveredPrices(s, limit), events))
  {
    SnapshotAgrees(h, s, limit);
    ContiguousStreamHasNoGaps(ApplySnapshot(s), events);
    MirrorAgrees(h, ApplySnapshot(s), CoveredPrices(s, limit), events);
  }

  // ---- the best price ----

  /** The best price of one side of a book. */
  predicate IsTop(m: Side, side: WhichSide, p: Price) {
    p in m && forall q :: q in m ==> AtLeastAsGood(side, p, q)
  }

  predicate IsBest(b: Book, side: WhichSide, p: Price) {
    IsTop(BookSide(b, side), side, p)
  }

  /** The history in which update `n + 1` also sets one price. */
  function WithHiddenUpdate(h: History, n: nat, side: WhichSide, p: Price, q: Qty): (h': History)
    requires n < |h|
    ensures |h'| == |h|
  {
    h[n := h[n][(side, p) := q]]
  }

  lemma {:induction false} HiddenUpdateEffect(
    h: History, n: nat, side: WhichSide, p: Price, q: Qty, m: nat, side': WhichSide, p': Price)
    requires n < |h| && m <= |h|
    requires (side, p) == (side', p') && n < m ==> !Touched(h, n + 2, m, side, p)
    ensures QtyAt(WithHiddenUpdate(h, n, side, p, q), m, side', p')
         == if (side, p) == (side', p') && n < m then q else QtyAt(h, m, side', p')
  {
    if m != 0 {
      HiddenUpdateEffect(h, n, side, p, q, m - 1, side', p');
    }
  }

  /** A price inside an interval that avoids finitely many. */
  lemma FreshBetween(lo: Price, hi: Price, avoid: set<Price>) returns (p: Price)
    requires lo < hi
    ensures lo < p < hi && p !in avoid
    decreases avoid
  {
    if x :| x in avoid {
      p := FreshBetween(lo, if lo < x < hi then x else hi, avoid - {x});
    } else {
      p := (lo + hi) / 2.0;
    }
  }

  /** The exchange's own best after `n` updates. */
  ghost predicate ExchangeBest(h: History, n: int, side: WhichSide, best: Price) {
    && 0 <= n <= |h| && QtyAt(h, n, side, best) > 0.0
    && forall p :: QtyAt(h, n, side, p) > 0.0 ==> AtLeastAsGood(side, best, p)
  }

  /** What the mirror is told is true of this history: the snapshot and every event. */
  ghost predicate Consistent(h: History, s: Snapshot, limit: nat, events: seq<DiffEvent>) {
    && ValidHistory(h) && HonestSnapshot(h, s, limit)
    && forall i :: 0 <= i < |events| ==> Honest(h, events[i])
  }

  /** While the mirror's best price lies where the snapshot reached, it is the exchange's best. */
  lemma BestPriceIsExchangeBest(
    h: History, s: Snapshot, limit: nat, events: seq<DiffEvent>, side: WhichSide, best: Price)
    requires Consistent(h, s, limit, events) && NoGaps(ApplySnapshot(s), events)
    requires IsBest(ApplyEvents(ApplySnapshot(s), events), side, best) && Covered(s, limit, side, best)
    ensures var b := ApplyEvents(ApplySnapshot(s), events);
            && ExchangeBest(h, b.lastUpdateId, side, best)
            && QtyAt(h, b.lastUpdateId, side, best) == BookSide(b, side)[best]
  {
    var b0 := ApplySnapshot(s);
    var b := ApplyEvents(b0, events);
    SnapshotAgrees(h, s, limit);
    MirrorAgrees(h, b0, CoveredPrices(s, limit), events);
    forall p | QtyAt(h, b.lastUpdateId, side, p) > 0.0
      ensures AtLeastAsGood(side, best, p)
    {
      if AtLeastAsGood(side, p, best) {
        assert Covered(s, limit, side, p);
        assert (side, p) in CoveredPrices(s, limit);
        assert Held(b, side, p) > 0.0;
      }
    }
  }

  function ListedPrices(levels: seq<Level>): set<Price> {
    set l | l in levels :: l.price
  }

  function EventPrices(events: seq<DiffEvent>, side: WhichSide): set<Price> {
    if events == [] then {}
    else EventPrices(events[..|events| - 1], side) + ListedPrices(SideOf(events[|events| - 1], side))
  }

  function TouchedPrices(h: History): set<Price> {
    if h == [] then {}
    else TouchedPrices(h[..|h| - 1]) + set k | k in h[|h| - 1] :: k.1
  }

  lemma {:induction false} ListedInEventPrices(events: seq<DiffEvent>, side: WhichSide, p: Price, i: nat)
    requires i < |events| && Lists(SideOf(events[i], side), p)
    ensures p in EventPrices(events, side)
  {
    if i < |events| - 1 {
      ListedInEventPrices(events[..|events| - 1], side, p, i);
    }
  }

  lemma {:induction false} UntouchedPrice(h: History, side: WhichSide, p: Price, i: nat)
    requires i < |h| && p !in TouchedPrices(h)
    ensures (side, p) !in h[i]
  {
    if i < |h| - 1 {
      UntouchedPrice(h[..|h| - 1], side, p, i);
    }
  }

  /** Strictly between the mirror's best and everything the snapshot lists, avoiding some prices. */
  lemma PriceBeyondSnapshot(levels: seq<Level>, side: WhichSide, best: Price, avoid: set<Price>) returns (p: Price)
    requires forall i :: 0 <= i < |levels| ==> !AtLeastAsGood(side, best, levels[i].price)
    ensures !AtLeastAsGood(side, best, p) && p !in avoid
    ensures forall i :: 0 <= i < |levels| ==> !AtLeastAsGood(side, p, levels[i].price)
    decreases levels
  {
    if levels == [] {
      p := FreshBetween(if side == Bid then best else best - 1.0, if side == Bid then best + 1.0 else best, avoid);
    } else {
      var q := PriceBeyondSnapshot(levels[1..], side, best, {});
      var worst := if AtLeastAsGood(side, q, levels[0].price) then levels[0].price else q;
      p := FreshBetween(if side == Bid then best else worst, if side == Bid then worst else best, avoid);
    }
  }

  /** Update `n` is in no event of the stream. */
  ghost predicate OutsideStream(events: seq<DiffEvent>, n: int) {
    forall i :: 0 <= i < |events| ==> !(events[i].firstId <= n <= events[i].finalId)
  }

  /** A hidden change of a price that neither the snapshot nor any event speaks of is consistent
      with everything the mirror is told. */
  lemma HiddenUpdateConsistent(
    h: History, s: Snapshot, limit: nat, events: seq<DiffEvent>, n: nat, side: WhichSide, p: Price)
    requires Consistent(h, s, limit, events) && OutsideStream(events, n) && 1 <= n <= |h|
    requires p !in TouchedPrices(h) && p !in EventPrices(events, side)
    requires |SnapSide(s, side)| == limit
    requires forall i :: 0 <= i < limit ==> !AtLeastAsGood(side, p, SnapSide(s, side)[i].price)
    ensures Consistent(WithHiddenUpdate(h, n - 1, side, p, 1.0), s, limit, events)
  {
    var h' := WithHiddenUpdate(h, n - 1, side, p, 1.0);
    forall i: nat | i < |h|
      ensures (side, p) !in h[i]
    {
      UntouchedPrice(h, side, p, i);
    }
    forall m: nat, side', p' | m <= |h| && (side', p') != (side, p)
      ensures QtyAt(h', m, side', p') == QtyAt(h, m, side', p')
    {
      HiddenUpdateEffect(h, n - 1, side, p, 1.0, m, side', p');
    }
    HiddenSnapshot(h, s, limit, n, side, p);
    forall i | 0 <= i < |events|
      ensures Honest(h', events[i])
    {
      if Lists(SideOf(events[i], side), p) {
        ListedInEventPrices(events, side, p, i);
      }
      HiddenEvent(h, events[i], n, side, p);
    }
  }

  lemma HiddenSnapshot(h: History, s: Snapshot, limit: nat, n: nat, side: WhichSide, p: Price)
    requires HonestSnapshot(h, s, limit) && 1 <= n <= |h|
    requires |SnapSide(s, side)| == limit
    requires forall i :: 0 <= i < limit ==> !AtLeastAsGood(side, p, SnapSide(s, side)[i].price)
    ensures HonestSnapshot(WithHiddenUpdate(h, n - 1, side, p, 1.0), s, limit)
  {
    var h' := WithHiddenUpdate(h, n - 1, side, p, 1.0);
    forall side', p' | (side', p') != (side, p)
      ensures QtyAt(h', s.lastUpdateId, side', p') == QtyAt(h, s.lastUpdateId, side', p')
    {
      HiddenUpdateEffect(h, n - 1, side, p, 1.0, s.lastUpdateId, side', p');
    }
  }

  lemma HiddenEvent(h: History, e: DiffEvent, n: nat, side: WhichSide, p: Price)
    requires Honest(h, e) && 1 <= n <= |h| && !(e.firstId <= n <= e.finalId) && !Lists(SideOf(e, side), p)
    ensures Honest(WithHiddenUpdate(h, n - 1, side, p, 1.0), e)
  {
    var h' := WithHiddenUpdate(h, n - 1, side, p, 1.0);
    forall side', p' | (side', p') != (side, p)
      ensures QtyAt(h', e.finalId, side', p') == QtyAt(h, e.finalId, side', p')
    {
      HiddenUpdateEffect(h, n - 1, side, p, 1.0, e.finalId, side', p');
    }
    forall side', p' | Touched(h', e.firstId, e.finalId, side', p')
      ensures Touched(h, e.firstId, e.finalId, side', p')
    {
      var i :| e.firstId - 1 <= i < e.finalId && (side', p') in h'[i];
      assert h'[i] == h[i];
    }
  }

  lemma IdsInRange(h: History, s: Snapshot, limit: nat, events: seq<DiffEvent>)
    requires Consistent(h, s, limit, events) && NoGaps(ApplySnapshot(s), events)
    ensures s.lastUpdateId <= ApplyEvents(ApplySnapshot(s), events).lastUpdateId <= |h|
  {
    SnapshotAgrees(h, s, limit);
    MirrorAgrees(h, ApplySnapshot(s), CoveredPrices(s, limit), events);
  }

  lemma HiddenQty(h: History, n: nat, side: WhichSide, p: Price, m: nat)
    requires 1 <= n <= m <= |h| && p !in TouchedPrices(h)
    ensures QtyAt(WithHiddenUpdate(h, n - 1, side, p, 1.0), m, side, p) == 1.0
  {
    forall i: nat | i < |h|
      ensures (side, p) !in h[i]
    {
      UntouchedPrice(h, side, p, i);
    }
    HiddenUpdateEffect(h, n - 1, side, p, 1.0, m, side, p);
  }

  lemma {:induction false} UntouchedQty(h: History, m: nat, side: WhichSide, p: Price)
    requires m <= |h| && p !in TouchedPrices(h)
    ensures QtyAt(h, m, side, p) == 0.0
  {
    if m != 0 {
      UntouchedPrice(h, side, p, m - 1);
      UntouchedQty(h, m - 1, side, p);
    }
  }

  lemma UntouchedNotHeld(h: History, s: Snapshot, limit: nat, events: seq<DiffEvent>, side: WhichSide, p: Price)
    requires Consistent(h, s, limit, events) && NoGaps(ApplySnapshot(s), events) && p !in TouchedPrices(h)
    ensures p !in BookSide(ApplyEvents(ApplySnapshot(s), events), side)
  {
    var b := ApplyEvents(ApplySnapshot(s), events);
    SnapshotAgrees(h, s, limit);
    MirrorAgrees(h, ApplySnapshot(s), CoveredPrices(s, limit), events);
    UntouchedQty(h, b.lastUpdateId, side, p);
    assert p in BookSide(b, side) ==> Held(b, side, p) > 0.0;
  }

  /** Beyond the snapshot's reach the mirror cannot know: if some earlier update is in none of its
      events, all it was told is also true of a history with a strictly better price. */
  lemma UncoveredBestCanBeBeaten(
    h: History, s: Snapshot, limit: nat, events: seq<DiffEvent>, n: nat, side: WhichSide, best: Price)
    returns (h': History, p: Price)
    requires Consistent(h, s, limit, events) && NoGaps(ApplySnapshot(s), events)
    requires 1 <= n <= s.lastUpdateId && OutsideStream(events, n)
    requires !Covered(s, limit, side, best)
    ensures Consistent(h', s, limit, events) && |h'| == |h|
    ensures p !in BookSide(ApplyEvents(ApplySnapshot(s), events), side)
    ensures var id := ApplyEvents(ApplySnapshot(s), events).lastUpdateId;
            0 <= id <= |h| && QtyAt(h', id, side, p) > 0.0 && !AtLeastAsGood(side, best, p)
  {
    hide QtyAt, ApplyEvents, TouchedPrices, EventPrices, NoGaps, WithHiddenUpdate, BookSide;
    IdsInRange(h, s, limit, events);
    var levels := SnapSide(s, side);
    assert |levels| == limit;
    p := PriceBeyondSnapshot(levels, side, best, TouchedPrices(h) + EventPrices(events, side));
    h' := WithHiddenUpdate(h, n - 1, side, p, 1.0);
    HiddenUpdateConsistent(h, s, limit, events, n, side, p);
    HiddenQty(h, n, side, p, ApplyEvents(ApplySnapshot(s), events).lastUpdateId);
    UntouchedNotHeld(h, s, limit, events, side, p);
  }

  /** The exact condition: the mirror's best is the exchange's best in every history that fits what
      the mirror was told iff the snapshot reached that price. */
  lemma BestIsKnownExactlyWhenCovered(
    h: History, s: Snapshot, limit: nat, events: seq<DiffEvent>, n: nat, side: WhichSide, best: Price)
    requires Consistent(h, s, limit, events) && NoGaps(ApplySnapshot(s), events)
    requires 1 <= n <= s.lastUpdateId && OutsideStream(events, n)
    requires IsBest(ApplyEvents(ApplySnapshot(s), events), side, best)
    ensures var id := ApplyEvents(ApplySnapshot(s), events).lastUpdateId;
            (forall h' :: Consistent(h', s, limit, events) ==> ExchangeBest(h', id, side, best))
            <==> Covered(s, limit, side, best)
  {
    if Covered(s, limit, side, best) {
      forall h' | Consistent(h', s, limit, events)
        ensures ExchangeBest(h', ApplyEvents(ApplySnapshot(s), events).lastUpdateId, side, best)
      {
        BestPriceIsExchangeBest(h', s, limit, events, side, best);
      }
    } else {
      var h', p := UncoveredBestCanBeBeaten(h, s, limit, events, n, side, best);
    }
  }

  lemma ListedAfterSomeUpdate(h: History, s: Snapshot, limit: nat, side: WhichSide, i: nat)
    requires HonestSnapshot(h, s, limit) && i < |SnapSide(s, side)|
    ensures 1 <= s.lastUpdateId
  {
    assert QtyAt(h, s.lastUpdateId, side, SnapSide(s, side)[i].price) > 0.0;
  }

  /** The usual stream, opened after the market's first update and with a positive depth. */
  lemma LateStreamBestIsKnownExactlyWhenCovered(
    h: History, s: Snapshot, limit: nat, events: seq<DiffEvent>, side: WhichSide, best: Price)
    requires Consistent(h, s, limit, events) && NoGaps(ApplySnapshot(s), events)
    requires 0 < limit && forall i :: 0 <= i < |events| ==> 2 <= events[i].firstId
    requires IsBest(ApplyEvents(ApplySnapshot(s), events), side, best)
    ensures var id := ApplyEvents(ApplySnapshot(s), events).lastUpdateId;
            (forall h' :: Consistent(h', s, limit, events) ==> ExchangeBest(h', id, side, best))
            <==> Covered(s, limit, side, best)
  {
    if |SnapSide(s, side)| != 0 {
      ListedAfterSomeUpdate(h, s, limit, side, 0);
    }
    if 1 <= s.lastUpdateId {
      BestIsKnownExactlyWhenCovered(h, s, limit, events, 1, side, best);
    } else {
      forall h' | Consistent(h', s, limit, events)
        ensures ExchangeBest(h', ApplyEvents(ApplySnapshot(s), events).lastUpdateId, side, best)
      {
        BestPriceIsExchangeBest(h', s, limit, events, side, best);
      }
    }
  }

  // ---- the exported levels ----

  lemma {:induction false} TopExists(m: Side, side: WhichSide)
    requires m != map[]
    ensures exists p :: IsTop(m, side, p)
    decreases |m|
  {
    var entry :| entry in m.Items;
    var x := entry.0;
    var rest := m - {x};
    assert forall q :: q in m && q != x ==> q in rest;
    if rest == map[] {
      assert IsTop(m, side, x);
    } else {
      TopExists(rest, side);
      var y :| IsTop(rest, side, y);
      assert IsTop(m, side, if AtLeastAsGood(side, x, y) then x else y);
    }
  }

  /** The best `depth` levels of a side, best first. */
  function Exported(m: Side, side: WhichSide, depth: nat): seq<Level> {
    if depth == 0 || m == map[] then []
    else
      TopExists(m, side);
      var p :| IsTop(m, side, p);
      [Level(p, m[p])] + Exported(m - {p}, side, depth - 1)
  }

  ghost predicate BestFirst(levels: seq<Level>, side: WhichSide) {
    forall j, k :: 0 <= j < k < |levels| ==> !AtLeastAsGood(side, levels[k].price, levels[j].price)
  }

  /** No price that is not listed is as good as a listed one. */
  ghost predicate NothingBetter(m: Side, levels: seq<Level>, side: WhichSide) {
    forall k, p :: 0 <= k < |levels| && p in m && AtLeastAsGood(side, p, levels[k].price) ==> Lists(levels[..k + 1], p)
  }

  ghost predicate TakenFrom(m: Side, levels: seq<Level>) {
    forall k :: 0 <= k < |levels| ==> levels[k].price in m && levels[k].qty == m[levels[k].price]
  }

  lemma {:induction false} ExportedExact(m: Side, side: WhichSide, depth: nat)
    ensures var levels := Exported(m, side, depth);
            && TakenFrom(m, levels) && BestFirst(levels, side) && NothingBetter(m, levels, side)
            && |levels| <= depth && (|levels| < depth ==> forall p :: p in m ==> Lists(levels, p))
    decreases depth
  {
    if depth == 0 || m == map[] {
      ExportedNothing(m, side, depth);
    } else {
      hide Exported, Lists, TakenFrom, BestFirst, NothingBetter, IsTop;
      var levels := Exported(m, side, depth);
      ExportedFirst(m, side, depth);
      ExportedExact(m - {levels[0].price}, side, depth - 1);
      ConsExported(m, side, levels, depth);
    }
  }

  lemma ExportedNothing(m: Side, side: WhichSide, depth: nat)
    requires depth == 0 || m == map[]
    ensures Exported(m, side, depth) == []
    ensures TakenFrom(m, []) && BestFirst([], side) && NothingBetter(m, [], side)
    ensures 0 < depth ==> forall p :: p in m ==> Lists([], p)
  {
  }

  lemma ExportedFirst(m: Side, side: WhichSide, depth: nat)
    requires 0 < depth && m != map[]
    ensures var levels := Exported(m, side, depth);
            && levels != [] && IsTop(m, side, levels[0].price) && levels[0].qty == m[levels[0].price]
            && levels[1..] == Exported(m - {levels[0].price}, side, depth - 1)
  {
    TopExists(m, side);
  }

  lemma ListedFurther(levels: seq<Level>, p: Price, k: nat)
    requires k < |levels| && Lists(levels[1..][..k], p)
    ensures Lists(levels[..k + 1], p)
  {
    var i :| 0 <= i < k && levels[1..][..k][i].price == p;
    assert levels[..k + 1][i + 1].price == p;
  }

  lemma NothingBetterThanTop(m: Side, side: WhichSide, levels: seq<Level>)
    requires levels != [] && IsTop(m, side, levels[0].price)
    requires NothingBetter(m - {levels[0].price}, levels[1..], side)
    ensures NothingBetter(m, levels, side)
  {
    hide Lists;
    forall k, p | 0 <= k < |levels| && p in m && AtLeastAsGood(side, p, levels[k].price)
      ensures Lists(levels[..k + 1], p)
    {
      TopIsListed(levels, k);
      if p != levels[0].price {
        assert k > 0;
        var j := k - 1;
        assert levels[k] == levels[1..][j] && p in m - {levels[0].price};
        assert Lists(levels[1..][..j + 1], p);
        ListedFurther(levels, p, k);
      }
    }
  }

  lemma TopIsListed(levels: seq<Level>, k: nat)
    requires k < |levels|
    ensures Lists(levels[..k + 1], levels[0].price)
  {
    assert levels[..k + 1][0].price == levels[0].price;
  }

  lemma ConsExported(m: Side, side: WhichSide, levels: seq<Level>, depth: nat)
    requires levels != [] && IsTop(m, side, levels[0].price) && levels[0].qty == m[levels[0].price]
    requires var m', rest := m - {levels[0].price}, levels[1..];
             && TakenFrom(m', rest) && BestFirst(rest, side) && NothingBetter(m', rest, side)
             && (|rest| < depth - 1 ==> forall p :: p in m' ==> Lists(rest, p))
    ensures TakenFrom(m, levels) && BestFirst(levels, side) && NothingBetter(m, levels, side)
    ensures |levels| < depth ==> forall p :: p in m ==> Lists(levels, p)
  {
    hide Lists;
    NothingBetterThanTop(m, side, levels);
    assert forall k :: 0 < k < |levels| ==> levels[k] == levels[1..][k - 1];
    var last := |levels| - 1;
    assert levels[..last + 1] == levels && levels[1..][..last] == levels[1..];
    forall p | p in m && |levels| < depth
      ensures Lists(levels, p)
    {
      if p == levels[0].price {
        TopIsListed(levels, last);
      } else {
        ListedFurther(levels, p, last);
      }
    }
  }

  /** These are the exchange's own best levels after `n` updates, with its quantities, best first. */
  ghost predicate ExchangeTop(h: History, n: int, side: WhichSide, levels: seq<Level>) {
    && 0 <= n <= |h| && BestFirst(levels, side)
    && (forall k :: 0 <= k < |levels| ==> levels[k].qty == QtyAt(h, n, side, levels[k].price) > 0.0)
    && (forall p, k :: 0 <= k < |levels| && QtyAt(h, n, side, p) > 0.0 && AtLeastAsGood(side, p, levels[k].price)
          ==> Lists(levels, p))
  }

  function MirrorExport(s: Snapshot, events: seq<DiffEvent>, side: WhichSide, depth: nat): seq<Level> {
    Exported(BookSide(ApplyEvents(ApplySnapshot(s), events), side), side, depth)
  }

  /** Down to any level the snapshot reached, what the mirror exports are exactly the exchange's
      best levels. */
  lemma ExportIsExchangeTop(
    h: History, s: Snapshot, limit: nat, events: seq<DiffEvent>, side: WhichSide, depth: nat, k: nat)
    requires Consistent(h, s, limit, events) && NoGaps(ApplySnapshot(s), events)
    requires k < |MirrorExport(s, events, side, depth)|
    requires Covered(s, limit, side, MirrorExport(s, events, side, depth)[k].price)
    ensures ExchangeTop(h, ApplyEvents(ApplySnapshot(s), events).lastUpdateId, side,
                        MirrorExport(s, events, side, depth)[..k + 1])
  {
    var b := ApplyEvents(ApplySnapshot(s), events);
    var levels := MirrorExport(s, events, side, depth);
    hide ApplyEvents, KnownAfter, NoGaps, QtyAt, Exported;
    SnapshotAgrees(h, s, limit);
    MirrorAgrees(h, ApplySnapshot(s), CoveredPrices(s, limit), events);
    ExportedExact(BookSide(b, side), side, depth);
    CoveredTop(h, b, KnownAfter(ApplySnapshot(s), CoveredPrices(s, limit), events), s, limit, side, levels, k);
  }

  lemma CoveredTop(
    h: History, b: Book, known: Known, s: Snapshot, limit: nat, side: WhichSide, levels: seq<Level>, k: nat)
    requires Agrees(h, b, known) && CoveredPrices(s, limit) <= known
    requires TakenFrom(BookSide(b, side), levels) && BestFirst(levels, side)
    requires NothingBetter(BookSide(b, side), levels, side)
    requires k < |levels| && Covered(s, limit, side, levels[k].price)
    ensures ExchangeTop(h, b.lastUpdateId, side, levels[..k + 1])
  {
    hide QtyAt;
    forall p | AtLeastAsGood(side, p, levels[k].price)
      ensures Held(b, side, p) == QtyAt(h, b.lastUpdateId, side, p)
    {
      assert Covered(s, limit, side, p);
      assert (side, p) in CoveredPrices(s, limit);
    }
    hide Covered, CoveredPrices, Agrees;
    TopOfHeld(h, b, side, levels, k);
  }

  /** Where the mirror holds the exchange's quantities, its top is the exchange's. */
  lemma TopOfHeld(h: History, b: Book, side: WhichSide, levels: seq<Level>, k: nat)
    requires 0 <= b.lastUpdateId <= |h| && k < |levels|
    requires TakenFrom(BookSide(b, side), levels) && BestFirst(levels, side)
    requires NothingBetter(BookSide(b, side), levels, side)
    requires forall p :: AtLeastAsGood(side, p, levels[k].price) ==>
               Held(b, side, p) == QtyAt(h, b.lastUpdateId, side, p)
    requires forall p :: p in BookSide(b, side) ==> BookSide(b, side)[p] > 0.0
    ensures ExchangeTop(h, b.lastUpdateId, side, levels[..k + 1])
  {
    hide QtyAt, Lists;
    forall j | 0 <= j <= k
      ensures AtLeastAsGood(side, levels[j].price, levels[k].price)
      ensures levels[j].qty == QtyAt(h, b.lastUpdateId, side, levels[j].price) > 0.0
    {
      assert Held(b, side, levels[j].price) == levels[j].qty;
    }
    forall p, j | 0 <= j <= k && QtyAt(h, b.lastUpdateId, side, p) > 0.0 && AtLeastAsGood(side, p, levels[j].price)
      ensures Lists(levels[..k + 1], p)
    {
      assert AtLeastAsGood(side, levels[j].price, levels[k].price);
      assert p in BookSide(b, side);
    }
  }

  lemma BeatenIsNotTop(h: History, n: nat, side: WhichSide, levels: seq<Level>, p: Price)
    requires n <= |h| && levels != [] && !Lists(levels, p)
    requires QtyAt(h, n, side, p) > 0.0 && !AtLeastAsGood(side, levels[|levels| - 1].price, p)
    ensures !ExchangeTop(h, n, side, levels)
  {
    assert AtLeastAsGood(side, p, levels[|levels| - 1].price);
  }

  lemma OnlyHeldIsListed(m: Side, levels: seq<Level>, k: nat, p: Price)
    requires TakenFrom(m, levels) && k < |levels| && p !in m
    ensures !Lists(levels[..k + 1], p)
  {
  }

  lemma UncoveredLevelCanBeBeaten(
    h: History, s: Snapshot, limit: nat, events: seq<DiffEvent>, n: nat, side: WhichSide, depth: nat, k: nat)
    returns (h': History)
    requires Consistent(h, s, limit, events) && NoGaps(ApplySnapshot(s), events)
    requires 1 <= n <= s.lastUpdateId && OutsideStream(events, n)
    requires k < |MirrorExport(s, events, side, depth)|
    requires !Covered(s, limit, side, MirrorExport(s, events, side, depth)[k].price)
    ensures Consistent(h', s, limit, events)
    ensures !ExchangeTop(h', ApplyEvents(ApplySnapshot(s), events).lastUpdateId, side,
                         MirrorExport(s, events, side, depth)[..k + 1])
  {
    hide ApplyEvents, NoGaps, ExchangeTop, Exported, Consistent, Covered, QtyAt, BookSide,
      Lists, TakenFrom, BestFirst, NothingBetter;
    var b, levels := ApplyEvents(ApplySnapshot(s), events), MirrorExport(s, events, side, depth);
    var p;
    h', p := UncoveredBestCanBeBeaten(h, s, limit, events, n, side, levels[k].price);
    ExportedExact(BookSide(b, side), side, depth);
    assert levels[..k + 1][k] == levels[k];
    OnlyHeldIsListed(BookSide(b, side), levels, k, p);
    BeatenIsNotTop(h', b.lastUpdateId, side, levels[..k + 1], p);
  }

  /** And only down to there can they be relied on: a level is right in every history that fits what
      the mirror was told iff the snapshot reached its price. */
  lemma ExportIsKnownExactlyWhenCovered(
    h: History, s: Snapshot, limit: nat, events: seq<DiffEvent>, n: nat, side: WhichSide, depth: nat, k: nat)
    requires Consistent(h, s, limit, events) && NoGaps(ApplySnapshot(s), events)
    requires 1 <= n <= s.lastUpdateId && OutsideStream(events, n)
    requires k < |MirrorExport(s, events, side, depth)|
    ensures var id, levels := ApplyEvents(ApplySnapshot(s), events).lastUpdateId, MirrorExport(s, events, side, depth);
            (forall h' :: Consistent(h', s, limit, events) ==> ExchangeTop(h', id, side, levels[..k + 1]))
            <==> Covered(s, limit, side, levels[k].price)
  {
    hide ApplyEvents, NoGaps, ExchangeTop, Exported, Consistent, MirrorExport, Covered;
    var id, levels := ApplyEvents(ApplySnapshot(s), events).lastUpdateId, MirrorExport(s, events, side, depth);
    if Covered(s, limit, side, levels[k].price) {
      forall h' | Consistent(h', s, limit, events)
        ensures ExchangeTop(h', id, side, levels[..k + 1])
      {
        ExportIsExchangeTop(h', s, limit, events, side, depth, k);
      }
    } else {
      var h' := UncoveredLevelCanBeBeaten(h, s, limit, events, n, side, depth, k);
    }
  }

  const TWO_UPDATES: History :=
    [map[(Bid, 10.0) := 1.0, (Bid, 9.0) := 1.0], map[(Bid, 10.0) := 0.0, (Bid, 8.0) := 1.0]]

  lemma TopLevelIsHonestSnapshot(s: Snapshot)
    requires s == Snapshot(1, [Level(10.0, 1.0)], [])
    ensures ValidHistory(TWO_UPDATES) && HonestSnapshot(TWO_UPDATES, s, 1)
  {
    assert s.bids[0].price == 10.0;
    forall side: WhichSide, p: Price | QtyAt(TWO_UPDATES, 1, side, p) > 0.0
      ensures (side, p) == (Bid, 10.0) || (side, p) == (Bid, 9.0)
    {
      assert QtyAt(TWO_UPDATES, 0, side, p) == 0.0;
    }
  }

  lemma SecondUpdateIsHonestEvent(e: DiffEvent)
    requires e == DiffEvent(2, 2, [Level(10.0, 0.0), Level(8.0, 1.0)], [])
    ensures Honest(TWO_UPDATES, e)
  {
    forall side: WhichSide, p: Price | Touched(TWO_UPDATES, 2, 2, side, p)
      ensures Lists(SideOf(e, side), p)
    {
      assert SideOf(e, Bid)[0].price == 10.0 && SideOf(e, Bid)[1].price == 8.0;
    }
  }

  /** It happens on the smallest book: with a depth of 1, deleting the best bid and adding a
      worse one leaves the mirror's best below an untouched bid it never heard of. */
  lemma BestPriceCanBeMissed(s: Snapshot, e: DiffEvent)
    requires s == Snapshot(1, [Level(10.0, 1.0)], [])
    requires e == DiffEvent(2, 2, [Level(10.0, 0.0), Level(8.0, 1.0)], [])
    ensures ValidHistory(TWO_UPDATES) && HonestSnapshot(TWO_UPDATES, s, 1)
    ensures Honest(TWO_UPDATES, e) && NoGap(ApplySnapshot(s), e)
    ensures IsBest(ApplyEvent(ApplySnapshot(s), e), Bid, 8.0) && QtyAt(TWO_UPDATES, 2, Bid, 9.0) == 1.0
  {
    TopLevelIsHonestSnapshot(s);
    SecondUpdateIsHonestEvent(e);
    assert FromSnapshot(s.bids) == map[10.0 := 1.0] by {
      assert s.bids[..0] == [];
    }
    assert ApplyLevels(FromSnapshot(s.bids), e.bids) == map[8.0 := 1.0] by {
      var first := [Level(10.0, 0.0)];
      assert e.bids[..1] == first && first[..0] == [];
      assert ApplyLevels(FromSnapshot(s.bids), first) == map[];
    }
    assert QtyAt(TWO_UPDATES, 1, Bid, 9.0) == 1.0;
  }

  // ---- gaps ----

  /** The code never checks for a gap, and nothing less than its absence will do: behind any gap
      the exchange may have changed a known price the event does not list, and then the mirror,
      although fed honest events only, disagrees. */
  lemma GapCanAlwaysBreakAgreement(h: History, b: Book, known: Known, e: DiffEvent, side: WhichSide, p: Price)
    returns (h': History)
    requires ValidHistory(h) && Agrees(h, b, known) && Honest(h, e) && !NoGap(b, e)
    requires (side, p) in known && !Lists(SideOf(e, side), p)
    ensures ValidHistory(h') && |h'| == |h| && h'[..b.lastUpdateId] == h[..b.lastUpdateId]
    ensures Agrees(h', b, known) && Honest(h', e) && !Agrees(h', ApplyEvent(b, e), known + ListedBy(e))
  {
    var n := e.firstId - 2;
    var q := Held(b, side, p) + 1.0;
    h' := WithHiddenUpdate(h, n, side, p, q);
    assert !Touched(h, e.firstId, e.finalId, side, p);
    QtyNonNegative(h, b.lastUpdateId, side, p);
    forall side': WhichSide, p': Price
      ensures QtyAt(h', b.lastUpdateId, side', p') == QtyAt(h, b.lastUpdateId, side', p')
      ensures (side', p') != (side, p) ==> QtyAt(h', e.finalId, side', p') == QtyAt(h, e.finalId, side', p')
      ensures Touched(h', e.firstId, e.finalId, side', p') ==> Touched(h, e.firstId, e.finalId, side', p')
    {
      HiddenUpdateEffect(h, n, side, p, q, b.lastUpdateId, side', p');
      if (side', p') != (side, p) {
        HiddenUpdateEffect(h, n, side, p, q, e.finalId, side', p');
      }
    }
    assert Honest(h', e);
    HiddenUpdateEffect(h, n, side, p, q, e.finalId, side, p);
    AppliedLevels(BookSide(b, side), SideOf(e, side), p, 0.0);
    assert Held(ApplyEvent(b, e), side, p) == Held(b, side, p);
  }

  function PriceAbove(levels: seq<Level>): (r: Price)
    ensures forall i :: 0 <= i < |levels| ==> levels[i].price < r
  {
    if levels == [] then 1.0
    else Max(PriceAbove(levels[..|levels| - 1]), levels[|levels| - 1].price + 1.0)
  }

  lemma {:induction false} SamePastSameQty(h: History, h': History, m: nat, n: nat, side: WhichSide, p: Price)
    requires m <= n <= |h| && n <= |h'| && h[..n] == h'[..n]
    ensures QtyAt(h', m, side, p) == QtyAt(h, m, side, p)
  {
    if m != 0 {
      assert h[..n][m - 1] == h'[..n][m - 1];
      SamePastSameQty(h, h', m - 1, n, side, p);
    }
  }

  lemma {:induction false} FinalIdsReached(b: Book, events: seq<DiffEvent>, i: nat)
    requires i < |events|
    ensures events[i].finalId <= ApplyEvents(b, events).lastUpdateId
  {
    if i < |events| - 1 {
      FinalIdsReached(b, events[..|events| - 1], i);
    }
  }

  /** What the mirror was told up to update `n` does not depend on later updates. */
  lemma SamePastConsistent(h: History, h': History, s: Snapshot, limit: nat, events: seq<DiffEvent>, n: nat)
    requires Consistent(h, s, limit, events) && ValidHistory(h')
    requires n <= |h| == |h'| && h[..n] == h'[..n]
    requires s.lastUpdateId <= n && forall i :: 0 <= i < |events| ==> events[i].finalId <= n
    ensures Consistent(h', s, limit, events)
  {
    forall m: nat, side, p | m <= n
      ensures QtyAt(h', m, side, p) == QtyAt(h, m, side, p)
    {
      SamePastSameQty(h, h', m, n, side, p);
    }
    forall i | 0 <= i < |events|
      ensures Honest(h', events[i])
    {
      var e := events[i];
      forall side, p | Touched(h', e.firstId, e.finalId, side, p)
        ensures Touched(h, e.firstId, e.finalId, side, p)
      {
        var k :| e.firstId - 1 <= k < e.finalId && (side, p) in h'[k];
        assert h[..n][k] == h'[..n][k];
      }
    }
  }

  /** A mirror that was synchronised from a snapshot and fed without gaps so far can be broken by
      any later gap: all it was told, the event behind the gap included, is true of a history in
      which it is wrong afterwards. */
  lemma AnyGapCanBreakMirror(h: History, s: Snapshot, limit: nat, events: seq<DiffEvent>, e: DiffEvent)
    returns (h': History)
    requires Consistent(h, s, limit, events) && NoGaps(ApplySnapshot(s), events) && 0 < limit
    requires Honest(h, e) && !NoGap(ApplyEvents(ApplySnapshot(s), events), e)
    ensures Consistent(h', s, limit, events + [e]) && |h'| == |h|
    ensures var b := ApplyEvents(ApplySnapshot(s), events);
            var known := KnownAfter(ApplySnapshot(s), CoveredPrices(s, limit), events);
            Agrees(h', b, known) && !Agrees(h', ApplyEvent(b, e), known + ListedBy(e))
  {
    var b0 := ApplySnapshot(s);
    var b, known := ApplyEvents(b0, events), KnownAfter(b0, CoveredPrices(s, limit), events);
    SnapshotAgrees(h, s, limit);
    MirrorAgrees(h, b0, CoveredPrices(s, limit), events);
    var p := Max(PriceAbove(s.bids), PriceAbove(e.bids));
    assert Covered(s, limit, Bid, p) by {
      if |s.bids| == limit {
        assert AtLeastAsGood(Bid, p, SnapSide(s, Bid)[0].price);
      }
    }
    assert (Bid, p) in CoveredPrices(s, limit);
    h' := GapCanAlwaysBreakAgreement(h, b, known, e, Bid, p);
    forall i | 0 <= i < |events|
      ensures events[i].finalId <= b.lastUpdateId
    {
      FinalIdsReached(b0, events, i);
    }
    SamePastConsistent(h, h', s, limit, events, b.lastUpdateId);
  }
}
