/** Circular and cross-pool arbitrage search: pricing/arbitrage.py. */
module Arbitrage {
  import opened Common
  import opened NonlinearMath
  import Amm
  import opened Routes
  import opened RouteFinder

  datatype Strategy = Circular | CrossPool

  datatype Opportunity = Opportunity(
    route: RouteData, amountIn: int, grossProfit: int, gasCost: int, token: Token, strategy: Strategy)

  /** The arguments that stay fixed during one search. */
  datatype Query = Query(start: Token, amountIn: int, gasPriceWei: int, maxHops: int)

  function GasCost(gasPriceWei: int, hops: nat): int {
    gasPriceWei * (GAS_BASE + GAS_PER_HOP * hops)
  }

  // ---- the search as a function of the path so far ----

  predicate Visited(ps: seq<Pool>, p: Pool) {
    exists i :: 0 <= i < |ps| && ps[i].id == p.id
  }

  /** Everything reported from a path on, or the exception that ends the search. */
  function CyclesFrom(pools: seq<Pool>, q: Query, ps: seq<Pool>, path: seq<Token>, amount: int)
    : Result<seq<Opportunity>>
    requires |path| == |ps| + 1
    decreases if |ps| < q.maxHops then q.maxHops - |ps| else 0, 2, 0
  {
    CyclesOver(pools, q, Edges(pools, path[|ps|]), ps, path, amount)
  }

  function CyclesOver(pools: seq<Pool>, q: Query, edges: seq<Edge>, ps: seq<Pool>, path: seq<Token>, amount: int)
    : Result<seq<Opportunity>>
    requires |path| == |ps| + 1
    decreases if |ps| < q.maxHops then q.maxHops - |ps| else 0, 1, |edges|
  {
    if edges == [] then Ok([])
    else
      var here :- CyclesVia(pools, q, edges[0], ps, path, amount);
      var later :- CyclesOver(pools, q, edges[1..], ps, path, amount);
      Ok(here + later)
  }

  /** The output is computed before any of the tests that may discard the edge. */
  function CyclesVia(pools: seq<Pool>, q: Query, e: Edge, ps: seq<Pool>, path: seq<Token>, amount: int)
    : Result<seq<Opportunity>>
    requires |path| == |ps| + 1
    decreases if |ps| < q.maxHops then q.maxHops - |ps| else 0, 0, 0
  {
    if Visited(ps, e.0) then Ok([])
    else
      var out :- e.0.GetAmountOut(amount, path[|ps|]);
      if e.1 == q.start && ps != [] then
        Ok(if out - q.amountIn > 0 then [Report(q, ps + [e.0], path + [e.1], out)] else [])
      else if e.1 in path || |ps| + 1 >= q.maxHops then Ok([])
      else CyclesFrom(pools, q, ps + [e.0], path + [e.1], out)
  }

  function Report(q: Query, ps: seq<Pool>, path: seq<Token>, out: int): Opportunity {
    Opportunity(Route(ps, path), q.amountIn, out - q.amountIn, GasCost(q.gasPriceWei, |ps|), q.start, Circular)
  }

  // ---- the search itself ----

  class CycleSearch {
    var visitedPools: set<nat>
    var poolsSoFar: seq<Pool>
    var pathSoFar: seq<Token>
    var opportunities: seq<Opportunity>

    constructor (start: Token)
      ensures visitedPools == {} && poolsSoFar == [] && pathSoFar == [start] && opportunities == []
    {
      visitedPools, poolsSoFar, pathSoFar, opportunities := {}, [], [start], [];
    }

    ghost predicate Consistent()
      reads this
    {
      && |pathSoFar| == |poolsSoFar| + 1
      && Records(visitedPools, poolsSoFar)
    }
  }

  ghost predicate Records(ids: set<nat>, ps: seq<Pool>) {
    forall id :: id in ids <==> exists i :: 0 <= i < |ps| && ps[i].id == id
  }

  lemma RecordsPush(ids: set<nat>, ps: seq<Pool>, p: Pool)
    requires Records(ids, ps)
    ensures Records(ids + {p.id}, ps + [p])
  {
    assert forall i :: 0 <= i < |ps| ==> (ps + [p])[i] == ps[i];
    assert (ps + [p])[|ps|] == p;
  }

  class ArbitrageDetector {
    const pools: seq<Pool>
    var graph: map<Token, seq<Edge>>

    ghost predicate Valid()
      reads this
    {
      forall t :: Get(graph, t) == Edges(pools, t)
    }

    constructor (pools: seq<Pool>)
      ensures Valid() && this.pools == pools
    {
      var adjacency := BuildGraph(pools);
      this.pools, graph := pools, adjacency;
    }

    /** On a normal return the shared lists are as before and the opportunities appended are
        exactly those of the specification; on an exception the lists are abandoned. */
    method DfsCircular(s: CycleSearch, q: Query, currentAmount: int) returns (raised: Option<Error>)
      requires Valid() && s.Consistent()
      modifies s
      ensures var spec := CyclesFrom(pools, q, old(s.poolsSoFar), old(s.pathSoFar), currentAmount);
              match spec
              case Err(e) => raised == Some(e)
              case Ok(found) => raised == None && s.opportunities == old(s.opportunities) + found
      ensures raised == None ==> unchanged(s`visitedPools, s`poolsSoFar, s`pathSoFar)
      decreases if |s.poolsSoFar| < q.maxHops then q.maxHops - |s.poolsSoFar| else 0, 1
    {
      ghost var ps, path := s.poolsSoFar, s.pathSoFar;
      var edges := Get(graph, s.pathSoFar[|s.poolsSoFar|]);
      ghost var found: seq<Opportunity> := [];
      assert edges[0..] == edges;
      PrependNothing(CyclesOver(pools, q, edges, ps, path, currentAmount));
      for i := 0 to |edges|
        invariant unchanged(s`visitedPools, s`poolsSoFar, s`pathSoFar)
        invariant s.opportunities == old(s.opportunities) + found
        invariant CyclesFrom(pools, q, ps, path, currentAmount)
               == Prepend(found, CyclesOver(pools, q, edges[i..], ps, path, currentAmount))
      {
        CyclesOverNext(pools, q, edges, i, ps, path, currentAmount, found);
        raised := VisitEdge(s, q, edges[i], currentAmount);
        if raised.Some? {
          return;
        }
        ghost var here := CyclesVia(pools, q, edges[i], ps, path, currentAmount).value;
        ConcatAssoc(old(s.opportunities), found, here);
        found := found + here;
      }
      assert edges[|edges|..] == [];
      return None;
    }

    /** The loop body: the tests in their order, then push, search, pop. */
    method VisitEdge(s: CycleSearch, q: Query, e: Edge, currentAmount: int) returns (raised: Option<Error>)
      requires Valid() && s.Consistent()
      modifies s
      ensures var spec := CyclesVia(pools, q, e, old(s.poolsSoFar), old(s.pathSoFar), currentAmount);
              match spec
              case Err(err) => raised == Some(err)
              case Ok(found) => raised == None && s.opportunities == old(s.opportunities) + found
      ensures raised == None ==> unchanged(s`visitedPools, s`poolsSoFar, s`pathSoFar)
      decreases if |s.poolsSoFar| < q.maxHops then q.maxHops - |s.poolsSoFar| else 0, 0
    {
      hide CyclesFrom;
      var pool, neighbour := e.0, e.1;
      if pool.id in s.visitedPools {
        return None;
      }
      var out := pool.GetAmountOut(currentAmount, s.pathSoFar[|s.poolsSoFar|]);
      if out.Err? {
        return Some(out.error);
      }
      if neighbour == q.start && s.poolsSoFar != [] {
        var grossProfit := out.value - q.amountIn;
        if grossProfit > 0 {
          var route := Route(s.poolsSoFar + [pool], s.pathSoFar + [neighbour]);
          s.opportunities := s.opportunities
            + [Opportunity(route, q.amountIn, grossProfit, GasCost(q.gasPriceWei, |route.pools|), q.start, Circular)];
        }
        return None;
      }
      if neighbour in s.pathSoFar || |s.poolsSoFar| + 1 >= q.maxHops {
        return None;
      }
      RecordsPush(s.visitedPools, s.poolsSoFar, pool);
      s.visitedPools := s.visitedPools + {pool.id};
      s.poolsSoFar := s.poolsSoFar + [pool];
      s.pathSoFar := s.pathSoFar + [neighbour];
      raised := DfsCircular(s, q, out.value);
      if raised.Some? {
        return;
      }
      s.poolsSoFar := s.poolsSoFar[..|s.poolsSoFar| - 1];
      s.pathSoFar := s.pathSoFar[..|s.pathSoFar| - 1];
      s.visitedPools := s.visitedPools - {pool.id};
    }

    /** All opportunities, the most profitable first, equal ones in the order found. */
    method FindCircularArbitrage(token: Token, amountIn: int, gasPriceGwei: int, maxHops: int)
      returns (r: Result<seq<Opportunity>>)
      requires Valid()
      ensures var q := Query(token, amountIn, gasPriceGwei * WEI_PER_GWEI, maxHops);
              match CyclesFrom(pools, q, [], [token], amountIn)
              case Err(e) => r == Err(e)
              case Ok(found) => r == Ok(SortByProfit(found))
    {
      var q := Query(token, amountIn, gasPriceGwei * WEI_PER_GWEI, maxHops);
      var s := new CycleSearch(token);
      var raised := DfsCircular(s, q, amountIn);
      if raised.Some? {
        return Err(raised.value);
      }
      assert s.opportunities == CyclesFrom(pools, q, [], [token], amountIn).value;
      return Ok(SortByProfit(s.opportunities));
    }

    method FindBestCircularArbitrage(token: Token, amountIn: int, gasPriceGwei: int, maxHops: int)
      returns (r: Result<Option<Opportunity>>)
      requires Valid()
      ensures var q := Query(token, amountIn, gasPriceGwei * WEI_PER_GWEI, maxHops);
              match CyclesFrom(pools, q, [], [token], amountIn)
              case Err(e) => r == Err(e)
              case Ok(found) =>
                && r.Ok?
                && (r.value == None <==> found == [])
                && (r.value.Some? ==> IsMostProfitable(r.value.value, found))
    {
      var opps := FindCircularArbitrage(token, amountIn, gasPriceGwei, maxHops);
      if opps.Err? {
        return Err(opps.error);
      }
      ghost var q := Query(token, amountIn, gasPriceGwei * WEI_PER_GWEI, maxHops);
      ghost var found := CyclesFrom(pools, q, [], [token], amountIn).value;
      SortIsPermutation(found);
      SortIsDescending(found);
      if opps.value == [] {
        return Ok(None);
      }
      FirstIsMostProfitable(found);
      return Ok(Some(opps.value[0]));
    }
  }

  function Prepend(found: seq<Opportunity>, r: Result<seq<Opportunity>>): Result<seq<Opportunity>> {
    match r case Ok(more) => Ok(found + more) case Err(e) => Err(e)
  }

  lemma PrependNothing(r: Result<seq<Opportunity>>)
    ensures Prepend([], r) == r
  {
    if r.Ok? {
      assert [] + r.value == r.value;
    }
  }

  lemma CyclesOverNext(
    pools: seq<Pool>, q: Query, edges: seq<Edge>, i: nat, ps: seq<Pool>, path: seq<Token>, amount: int,
    found: seq<Opportunity>)
    requires |path| == |ps| + 1 && i < |edges|
    ensures Prepend(found, CyclesOver(pools, q, edges[i..], ps, path, amount))
         == match CyclesVia(pools, q, edges[i], ps, path, amount)
            case Err(e) => Err(e)
            case Ok(here) => Prepend(found + here, CyclesOver(pools, q, edges[i + 1..], ps, path, amount))
  {
    assert edges[i..][1..] == edges[i + 1..];
    var here := CyclesVia(pools, q, edges[i], ps, path, amount);
    var later := CyclesOver(pools, q, edges[i + 1..], ps, path, amount);
    if here.Ok? && later.Ok? {
      ConcatAssoc(found, here.value, later.value);
    }
  }

  // ---- the stable descending sort ----

  function Insert(o: Opportunity, s: seq<Opportunity>): seq<Opportunity> {
    if s == [] then [o]
    else if s[0].grossProfit <= o.grossProfit then [o] + s
    else [s[0]] + Insert(o, s[1..])
  }

  /** `sort(key=gross_profit, reverse=True)`: descending, equal keys keep their order. */
  function SortByProfit(s: seq<Opportunity>): seq<Opportunity> {
    if s == [] then [] else Insert(s[0], SortByProfit(s[1..]))
  }

  ghost predicate Descending(s: seq<Opportunity>) {
    forall i, j :: 0 <= i < j < |s| ==> s[i].grossProfit >= s[j].grossProfit
  }

  /** The opportunities of one gross profit, in their order. */
  function WithProfit(s: seq<Opportunity>, profit: int): seq<Opportunity> {
    if s == [] then [] else (if s[0].grossProfit == profit then [s[0]] else []) + WithProfit(s[1..], profit)
  }

  lemma {:induction false} InsertBeforeEquals(o: Opportunity, s: seq<Opportunity>, profit: int)
    ensures WithProfit(Insert(o, s), profit)
         == (if o.grossProfit == profit then [o] else []) + WithProfit(s, profit)
  {
    if s != [] && s[0].grossProfit > o.grossProfit {
      InsertBeforeEquals(o, s[1..], profit);
      assert ([s[0]] + Insert(o, s[1..]))[1..] == Insert(o, s[1..]);
    }
  }

  /** Equal profits keep the order in which they were found. */
  lemma {:induction false} SortIsStable(s: seq<Opportunity>, profit: int)
    ensures WithProfit(SortByProfit(s), profit) == WithProfit(s, profit)
  {
    if s != [] {
      SortIsStable(s[1..], profit);
      InsertBeforeEquals(s[0], SortByProfit(s[1..]), profit);
    }
  }

  lemma {:induction false} InsertIsPermutation(o: Opportunity, s: seq<Opportunity>)
    ensures multiset(Insert(o, s)) == multiset(s) + multiset{o}
  {
    if s != [] {
      assert s == [s[0]] + s[1..];
      if s[0].grossProfit > o.grossProfit {
        InsertIsPermutation(o, s[1..]);
      }
    }
  }

  lemma {:induction false} SortIsPermutation(s: seq<Opportunity>)
    ensures multiset(SortByProfit(s)) == multiset(s)
  {
    if s != [] {
      assert s == [s[0]] + s[1..];
      SortIsPermutation(s[1..]);
      InsertIsPermutation(s[0], SortByProfit(s[1..]));
    }
  }

  lemma {:induction false} InsertKeepsDescending(o: Opportunity, s: seq<Opportunity>)
    requires Descending(s)
    ensures Descending(Insert(o, s))
  {
    if s != [] && s[0].grossProfit > o.grossProfit {
      InsertKeepsDescending(o, s[1..]);
      InsertIsPermutation(o, s[1..]);
      forall x | x in Insert(o, s[1..])
        ensures x.grossProfit <= s[0].grossProfit
      {
        assert x in multiset(Insert(o, s[1..]));
        if x != o {
          assert x in s[1..];
        }
      }
    }
  }

  lemma {:induction false} SortIsDescending(s: seq<Opportunity>)
    ensures Descending(SortByProfit(s))
  {
    if s != [] {
      SortIsDescending(s[1..]);
      InsertKeepsDescending(s[0], SortByProfit(s[1..]));
    }
  }

  ghost predicate IsMostProfitable(o: Opportunity, found: seq<Opportunity>) {
    o in found && forall x :: x in found ==> x.grossProfit <= o.grossProfit
  }

  lemma FirstIsMostProfitable(found: seq<Opportunity>)
    requires found != []
    ensures SortByProfit(found) != [] && IsMostProfitable(SortByProfit(found)[0], found)
  {
    var sorted := SortByProfit(found);
    SortIsPermutation(found);
    SortIsDescending(found);
    assert found[0] in multiset(found);
    assert sorted[0] in multiset(sorted);
    forall x | x in found
      ensures x.grossProfit <= sorted[0].grossProfit
    {
      assert x in multiset(sorted);
    }
  }

  // ---- what is reported ----

  /** A cycle through the start token: distinct pools, distinct inner tokens, 2 to `maxHops` hops. */
  ghost predicate IsCycle(pools: seq<Pool>, start: Token, maxHops: int, r: RouteData) {
    && r.Valid()
    && 2 <= |r.pools| <= maxHops
    && r.path[0] == start && r.path[|r.pools|] == start
    && Distinct(r.path[..|r.pools|])
    && (forall p :: p in r.pools ==> p in pools)
    && Connected(r.pools, r.path)
    && UsesEachPoolOnce(r.pools)
  }

  /** A reported opportunity carries exactly the gain its route's own evaluation shows. */
  ghost predicate IsProfitableCycle(pools: seq<Pool>, q: Query, o: Opportunity) {
    && IsCycle(pools, q.start, q.maxHops, o.route)
    && Output(o.route.pools, o.route.path, q.amountIn) == Ok(q.amountIn + o.grossProfit)
    && 0 < o.grossProfit
    && o.amountIn == q.amountIn && o.token == q.start && o.strategy == Circular
    && o.gasCost == q.gasPriceWei * (150000 + 100000 * |o.route.pools|)
  }

  /** A path the search can stand on, with the amount that reaches its end. */
  ghost predicate OpenPath(pools: seq<Pool>, q: Query, ps: seq<Pool>, path: seq<Token>, amount: int) {
    && |path| == |ps| + 1
    && path[0] == q.start
    && (ps == [] || |ps| < q.maxHops)
    && Distinct(path)
    && (forall p :: p in ps ==> p in pools)
    && Connected(ps, path)
    && UsesEachPoolOnce(ps)
    && Output(ps, path, q.amountIn) == Ok(amount)
  }

  lemma OpenPathStep(
    pools: seq<Pool>, q: Query, ps: seq<Pool>, path: seq<Token>, amount: int, e: Edge, out: int)
    requires OpenPath(pools, q, ps, path, amount) && e in Edges(pools, path[|ps|]) && !Visited(ps, e.0)
    requires e.0.GetAmountOut(amount, path[|ps|]) == Ok(out)
    requires e.1 !in path && |ps| + 1 < q.maxHops
    ensures OpenPath(pools, q, ps + [e.0], path + [e.1], out)
  {
    hide Edges, Output, Connected, UsesEachPoolOnce, Visited;
    EdgesExact(pools, path[|ps|], e);
    OutputSnoc(ps, path, e.0, e.1, q.amountIn);
    ConnectedSnoc(ps, path, e.0, e.1);
    PoolsOnceSnoc(ps, e.0);
    assert forall p :: p in ps + [e.0] <==> p in ps || p == e.0;
  }

  lemma {:induction false} CyclesOverReturns(
    pools: seq<Pool>, q: Query, edges: seq<Edge>, ps: seq<Pool>, path: seq<Token>, amount: int)
    requires |path| == |ps| + 1
    ensures CyclesOver(pools, q, edges, ps, path, amount).Ok?
       <==> forall e :: e in edges ==> CyclesVia(pools, q, e, ps, path, amount).Ok?
    decreases |edges|
  {
    if edges != [] {
      CyclesOverReturns(pools, q, edges[1..], ps, path, amount);
      assert edges[0] in edges && edges == [edges[0]] + edges[1..];
    }
  }

  lemma {:induction false} CyclesOverUnion(
    pools: seq<Pool>, q: Query, edges: seq<Edge>, ps: seq<Pool>, path: seq<Token>, amount: int, o: Opportunity)
    requires |path| == |ps| + 1
    requires CyclesOver(pools, q, edges, ps, path, amount).Ok?
    ensures forall e :: e in edges ==> CyclesVia(pools, q, e, ps, path, amount).Ok?
    ensures o in CyclesOver(pools, q, edges, ps, path, amount).value
       <==> exists e :: e in edges && o in CyclesVia(pools, q, e, ps, path, amount).value
    decreases |edges|
  {
    CyclesOverReturns(pools, q, edges, ps, path, amount);
    if edges != [] {
      CyclesOverUnion(pools, q, edges[1..], ps, path, amount, o);
      assert edges[0] in edges && edges == [edges[0]] + edges[1..];
    }
  }

  /** One edge: it is skipped, closes a cycle, is discarded, or leads on. */
  lemma {:induction false} ViaExact(
    pools: seq<Pool>, q: Query, ps: seq<Pool>, path: seq<Token>, amount: int, e: Edge, o: Opportunity)
    requires OpenPath(pools, q, ps, path, amount) && e in Edges(pools, path[|ps|])
    requires CyclesVia(pools, q, e, ps, path, amount).Ok?
    ensures o in CyclesVia(pools, q, e, ps, path, amount).value
       <==> IsProfitableCycle(pools, q, o) && Extends(o.route, ps + [e.0], path + [e.1])
    decreases if |ps| < q.maxHops then q.maxHops - |ps| else 0, 0
  {
    EdgesExact(pools, path[|ps|], e);
    if IsProfitableCycle(pools, q, o) && Extends(o.route, ps + [e.0], path + [e.1]) {
      ExtensionShape(pools, q, ps, path, e, o.route);
    }
    if !Visited(ps, e.0) {
      var out := e.0.GetAmountOut(amount, path[|ps|]).value;
      OutputSnoc(ps, path, e.0, e.1, q.amountIn);
      if e.1 == q.start && ps != [] {
        ClosingEdgeExact(pools, q, ps, path, amount, e, out, o);
      } else if e.1 !in path && |ps| + 1 < q.maxHops {
        OpenPathStep(pools, q, ps, path, amount, e, out);
        FromExact(pools, q, ps + [e.0], path + [e.1], out, o);
      }
    }
  }

  /** What a cycle that extends a path by an edge says about that edge. */
  lemma ExtensionShape(pools: seq<Pool>, q: Query, ps: seq<Pool>, path: seq<Token>, e: Edge, r: RouteData)
    requires |path| == |ps| + 1 && path[0] == q.start
    requires IsCycle(pools, q.start, q.maxHops, r) && Extends(r, ps + [e.0], path + [e.1])
    ensures !Visited(ps, e.0)
    ensures if |r.pools| == |ps| + 1 then e.1 == q.start && ps != []
            else e.1 !in path && |ps| + 1 < q.maxHops
  {
    var n := |ps|;
    assert r.pools[n] == (ps + [e.0])[n] == e.0;
    assert forall i :: 0 <= i < n ==> r.pools[i] == (ps + [e.0])[i] == ps[i];
    assert forall i :: 0 <= i <= n ==> r.path[i] == (path + [e.1])[i] == path[i];
    assert r.path[n + 1] == (path + [e.1])[n + 1] == e.1;
    if |r.pools| > n + 1 {
      assert forall i :: 0 <= i <= n ==> r.path[..|r.pools|][i] != r.path[..|r.pools|][n + 1];
    }
  }

  lemma ClosingEdgeIsCycle(pools: seq<Pool>, q: Query, ps: seq<Pool>, path: seq<Token>, amount: int, e: Edge)
    requires OpenPath(pools, q, ps, path, amount) && e in Edges(pools, path[|ps|]) && !Visited(ps, e.0)
    requires e.1 == q.start && ps != []
    ensures IsCycle(pools, q.start, q.maxHops, Route(ps + [e.0], path + [e.1]))
  {
    hide Edges, Output, Connected, UsesEachPoolOnce, Visited, Distinct;
    EdgesExact(pools, path[|ps|], e);
    ConnectedSnoc(ps, path, e.0, e.1);
    PoolsOnceSnoc(ps, e.0);
    var r := Route(ps + [e.0], path + [e.1]);
    assert r.path[..|r.pools|] == path;
    assert forall p :: p in r.pools <==> p in ps || p == e.0;
  }

  lemma ConnectedSnoc(ps: seq<Pool>, path: seq<Token>, p: Pool, t: Token)
    requires |path| == |ps| + 1 && Connected(ps, path)
    requires p.Has(path[|ps|]) && t == p.Other(path[|ps|])
    ensures Connected(ps + [p], path + [t])
  {
  }

  lemma PoolsOnceSnoc(ps: seq<Pool>, p: Pool)
    requires UsesEachPoolOnce(ps) && !Visited(ps, p)
    ensures UsesEachPoolOnce(ps + [p])
  {
  }

  lemma ClosingEdgeExact(
    pools: seq<Pool>, q: Query, ps: seq<Pool>, path: seq<Token>, amount: int, e: Edge, out: int, o: Opportunity)
    requires OpenPath(pools, q, ps, path, amount) && e in Edges(pools, path[|ps|]) && !Visited(ps, e.0)
    requires e.0.GetAmountOut(amount, path[|ps|]) == Ok(out)
    requires e.1 == q.start && ps != []
    ensures o in CyclesVia(pools, q, e, ps, path, amount).value
       <==> IsProfitableCycle(pools, q, o) && Extends(o.route, ps + [e.0], path + [e.1])
  {
    var r := Route(ps + [e.0], path + [e.1]);
    ClosingEdgeIsCycle(pools, q, ps, path, amount, e);
    OutputSnoc(ps, path, e.0, e.1, q.amountIn);
    if o.route == r {
      ProfitableIsReport(pools, q, r, out, o);
    }
    if IsProfitableCycle(pools, q, o) && Extends(o.route, ps + [e.0], path + [e.1]) {
      ExtensionShape(pools, q, ps, path, e, o.route);
      assert path[0] in path;
      assert o.route == r;
    }
  }

  /** On a given cycle there is one profitable opportunity, the report, or none. */
  lemma ProfitableIsReport(pools: seq<Pool>, q: Query, r: RouteData, out: int, o: Opportunity)
    requires IsCycle(pools, q.start, q.maxHops, r) && Output(r.pools, r.path, q.amountIn) == Ok(out)
    requires o.route == r
    ensures IsProfitableCycle(pools, q, o) <==> out - q.amountIn > 0 && o == Report(q, r.pools, r.path, out)
  {
  }

  /** From any open path exactly the profitable cycles that extend it are reported. */
  lemma {:induction false} FromExact(
    pools: seq<Pool>, q: Query, ps: seq<Pool>, path: seq<Token>, amount: int, o: Opportunity)
    requires OpenPath(pools, q, ps, path, amount)
    requires CyclesFrom(pools, q, ps, path, amount).Ok?
    ensures o in CyclesFrom(pools, q, ps, path, amount).value
       <==> IsProfitableCycle(pools, q, o) && Extends(o.route, ps, path)
    decreases if |ps| < q.maxHops then q.maxHops - |ps| else 0, 1
  {
    var edges := Edges(pools, path[|ps|]);
    CyclesOverUnion(pools, q, edges, ps, path, amount, o);
    forall e | e in edges
      ensures o in CyclesVia(pools, q, e, ps, path, amount).value
         <==> IsProfitableCycle(pools, q, o) && Extends(o.route, ps + [e.0], path + [e.1])
    {
      ViaExact(pools, q, ps, path, amount, e, o);
    }
    if IsProfitableCycle(pools, q, o) {
      CycleExtendsOverSomeEdge(pools, q, ps, path, o.route);
    }
  }

  lemma CycleExtendsOverSomeEdge(pools: seq<Pool>, q: Query, ps: seq<Pool>, path: seq<Token>, r: RouteData)
    requires |path| == |ps| + 1 && path[0] == q.start && Distinct(path)
    requires IsCycle(pools, q.start, q.maxHops, r)
    ensures Extends(r, ps, path)
       <==> exists e :: e in Edges(pools, path[|ps|]) && Extends(r, ps + [e.0], path + [e.1])
  {
    if Extends(r, ps, path) {
      CycleNextEdge(pools, q, ps, path, r);
    }
    forall e: Edge | Extends(r, ps + [e.0], path + [e.1])
      ensures Extends(r, ps, path)
    {
      assert ps == (ps + [e.0])[..|ps|] && path == (path + [e.1])[..|path|];
    }
  }

  lemma CycleNextEdge(pools: seq<Pool>, q: Query, ps: seq<Pool>, path: seq<Token>, r: RouteData)
    requires |path| == |ps| + 1 && path[0] == q.start && Distinct(path)
    requires IsCycle(pools, q.start, q.maxHops, r) && Extends(r, ps, path)
    ensures |ps| < |r.pools|
    ensures var e := (r.pools[|ps|], r.path[|ps| + 1]);
            e in Edges(pools, path[|ps|]) && Extends(r, ps + [e.0], path + [e.1])
  {
    hide Edges, UsesEachPoolOnce;
    var n := |ps|;
    if n == |r.pools| {
      assert false;
    }
    ExtendsOneFurther(r, ps, path);
    assert r.pools[n] in r.pools;
    assert r.pools[n].Has(r.path[n]) && r.path[n + 1] == r.pools[n].Other(r.path[n]);
    EdgesExact(pools, path[n], (r.pools[n], r.path[n + 1]));
  }

  /** On a normal return the search has reported every profitable cycle and nothing else. */
  lemma ReportsExactlyProfitableCycles(pools: seq<Pool>, q: Query)
    requires CyclesFrom(pools, q, [], [q.start], q.amountIn).Ok?
    ensures forall o :: o in CyclesFrom(pools, q, [], [q.start], q.amountIn).value <==> IsProfitableCycle(pools, q, o)
  {
    forall o
      ensures o in CyclesFrom(pools, q, [], [q.start], q.amountIn).value <==> IsProfitableCycle(pools, q, o)
    {
      FromExact(pools, q, [], [q.start], q.amountIn, o);
    }
  }

  // ---- when the search raises instead ----

  /** A reachable path whose amount has vanished while an unused pool is still at hand. */
  ghost predicate Stuck(pools: seq<Pool>, q: Query, r: RouteData) {
    && |r.path| == |r.pools| + 1
    && (exists amount :: amount <= 0 && OpenPath(pools, q, r.pools, r.path, amount))
    && (exists e :: e in Edges(pools, r.path[|r.pools|]) && !Visited(r.pools, e.0))
  }

  lemma {:induction false} FromRaisesExactly(pools: seq<Pool>, q: Query, ps: seq<Pool>, path: seq<Token>, amount: int)
    requires OpenPath(pools, q, ps, path, amount)
    ensures CyclesFrom(pools, q, ps, path, amount).Err?
       <==> exists r :: Stuck(pools, q, r) && Extends(r, ps, path)
    decreases if |ps| < q.maxHops then q.maxHops - |ps| else 0, 1
  {
    var edges := Edges(pools, path[|ps|]);
    CyclesOverReturns(pools, q, edges, ps, path, amount);
    forall e | e in edges
      ensures CyclesVia(pools, q, e, ps, path, amount).Err?
         <==> StuckVia(pools, q, ps, path, amount, e)
    {
      ViaRaisesExactly(pools, q, ps, path, amount, e);
    }
    StuckHereOrBeyond(pools, q, ps, path, amount);
  }

  ghost predicate StuckVia(pools: seq<Pool>, q: Query, ps: seq<Pool>, path: seq<Token>, amount: int, e: Edge) {
    !Visited(ps, e.0) && (amount <= 0 || exists r :: Stuck(pools, q, r) && Extends(r, ps + [e.0], path + [e.1]))
  }

  lemma StuckHereOrBeyond(pools: seq<Pool>, q: Query, ps: seq<Pool>, path: seq<Token>, amount: int)
    requires OpenPath(pools, q, ps, path, amount)
    ensures (exists r :: Stuck(pools, q, r) && Extends(r, ps, path))
       <==> exists e :: e in Edges(pools, path[|ps|]) && StuckVia(pools, q, ps, path, amount, e)
  {
    var edges := Edges(pools, path[|ps|]);
    forall e | e in edges && StuckVia(pools, q, ps, path, amount, e)
      ensures exists r :: Stuck(pools, q, r) && Extends(r, ps, path)
    {
      if amount <= 0 {
        assert Stuck(pools, q, Route(ps, path)) && Extends(Route(ps, path), ps, path);
      } else {
        var r :| Stuck(pools, q, r) && Extends(r, ps + [e.0], path + [e.1]);
        assert ps == (ps + [e.0])[..|ps|] && path == (path + [e.1])[..|path|];
        assert Extends(r, ps, path);
      }
    }
    forall r | Stuck(pools, q, r) && Extends(r, ps, path)
      ensures exists e :: e in edges && StuckVia(pools, q, ps, path, amount, e)
    {
      if |r.pools| == |ps| {
        assert r.pools == ps && r.path == path;
        var e :| e in edges && !Visited(ps, e.0);
        assert StuckVia(pools, q, ps, path, amount, e);
      } else {
        StuckLeavesOverEdge(pools, q, ps, path, r);
        assert StuckVia(pools, q, ps, path, amount, (r.pools[|ps|], r.path[|ps| + 1]));
      }
    }
  }

  lemma StuckLeavesOverEdge(pools: seq<Pool>, q: Query, ps: seq<Pool>, path: seq<Token>, r: RouteData)
    requires |path| == |ps| + 1
    requires Stuck(pools, q, r) && Extends(r, ps, path) && |r.pools| > |ps|
    ensures var e := (r.pools[|ps|], r.path[|ps| + 1]);
            e in Edges(pools, path[|ps|]) && !Visited(ps, e.0) && Extends(r, ps + [e.0], path + [e.1])
  {
    hide Edges, Output;
    var n := |ps|;
    ExtendsOneFurther(r, ps, path);
    var amount :| amount <= 0 && OpenPath(pools, q, r.pools, r.path, amount);
    OpenPathEdge(pools, q, r.pools, r.path, amount, n);
  }

  /** Every edge of an open path is one of the graph, over a pool not used before. */
  lemma OpenPathEdge(pools: seq<Pool>, q: Query, ps: seq<Pool>, path: seq<Token>, amount: int, n: nat)
    requires OpenPath(pools, q, ps, path, amount) && n < |ps|
    ensures (ps[n], path[n + 1]) in Edges(pools, path[n]) && !Visited(ps[..n], ps[n])
  {
    hide Edges, Output;
    assert ps[n] in ps;
    assert ps[n].Has(path[n]) && path[n + 1] == ps[n].Other(path[n]);
    EdgesExact(pools, path[n], (ps[n], path[n + 1]));
  }

  lemma StuckExtensionShape(pools: seq<Pool>, q: Query, ps: seq<Pool>, path: seq<Token>, e: Edge, r: RouteData)
    requires |path| == |ps| + 1
    requires Stuck(pools, q, r) && Extends(r, ps + [e.0], path + [e.1])
    ensures e.1 !in path && |ps| + 1 < q.maxHops
  {
    assert r.path[|ps| + 1] == (path + [e.1])[|ps| + 1] == e.1;
    assert forall i :: 0 <= i <= |ps| ==> r.path[i] == (path + [e.1])[i] == path[i];
  }

  lemma {:induction false} ViaRaisesExactly(
    pools: seq<Pool>, q: Query, ps: seq<Pool>, path: seq<Token>, amount: int, e: Edge)
    requires OpenPath(pools, q, ps, path, amount) && e in Edges(pools, path[|ps|])
    ensures CyclesVia(pools, q, e, ps, path, amount).Err?
       <==> StuckVia(pools, q, ps, path, amount, e)
    decreases if |ps| < q.maxHops then q.maxHops - |ps| else 0, 0
  {
    EdgesExact(pools, path[|ps|], e);
    if !Visited(ps, e.0) && 0 < amount {
      var out := e.0.GetAmountOut(amount, path[|ps|]).value;
      if e.1 !in path && |ps| + 1 < q.maxHops {
        assert e.1 != path[0];
        OpenPathStep(pools, q, ps, path, amount, e, out);
        FromRaisesExactly(pools, q, ps + [e.0], path + [e.1], out);
      } else {
        forall r | Stuck(pools, q, r)
          ensures !Extends(r, ps + [e.0], path + [e.1])
        {
          if Extends(r, ps + [e.0], path + [e.1]) {
            StuckExtensionShape(pools, q, ps, path, e, r);
          }
        }
      }
    }
  }

  /** The search raises exactly when some reachable path has run dry with a pool left to try. */
  lemma RaisesExactlyWhenStuck(pools: seq<Pool>, q: Query)
    ensures CyclesFrom(pools, q, [], [q.start], q.amountIn).Err? <==> exists r :: Stuck(pools, q, r)
  {
    FromRaisesExactly(pools, q, [], [q.start], q.amountIn);
    forall r | Stuck(pools, q, r)
      ensures Extends(r, [], [q.start])
    {
    }
  }

  // ---- what a report is worth ----

  /** Only there and back at once can a cycle pass one address twice. */
  lemma SameAddressOnlyThereAndBack(
    chain: map<nat, Amm.UniswapV2Pair>, pools: seq<Pool>, start: Token, maxHops: int, r: RouteData, i: nat, j: nat)
    requires IsCycle(pools, start, maxHops, r) && MatchesChain(chain, r.pools)
    requires i < j < |r.pools| && r.pools[i].Address() == r.pools[j].Address()
    ensures |r.pools| == 2
  {
    var n := |r.pools|;
    SameAddressSameTokens(chain, r.pools, r.path, i, j);
    assert forall k, l :: 0 <= k < l < n ==> r.path[..n][k] != r.path[..n][l];
    assert r.path[j] == r.path[..n][j] && r.path[i] == r.path[..n][i] && r.path[i + 1] == r.path[..n][i + 1];
    assert r.path[0] == r.path[..n][0];
  }

  /** Buying and selling back at one address cannot gain. */
  lemma ThereAndBackHasNoGain(ps: seq<Pool>, path: seq<Token>)
    requires |ps| == 2 && |path| == 3 && AllV2(ps) && Connected(ps, path) && path[0] == path[2]
    requires ps[0].pair == ps[1].pair
    ensures ScaledReservesOut(ps, path) <= ScaledReservesIn(ps, path)
  {
    var pair := ps[0].pair;
    var x, y, g := pair.ReserveOf(path[0]), pair.ReserveOf(path[1]), pair.Gamma();
    assert ps[0].Has(path[0]) && path[1] == ps[0].Other(path[0]);
    assert ps[1..][0] == ps[1] && path[1..][0] == path[1] && ps[1..][1..] == [];
    assert ScaledReservesIn(ps[1..], path[1..]) == Amm.BPS * y * 1;
    assert ScaledReservesOut(ps[1..], path[1..]) == g * x * 1;
    ThereAndBackProduct(x, y, g);
  }

  lemma ThereAndBackProduct(x: int, y: int, g: int)
    requires 0 < x && 0 < y && 0 < g <= Amm.BPS
    ensures g * y * (g * x) <= Amm.BPS * x * (Amm.BPS * y)
  {
    MulPos(x, y);
    MulMono(g, Amm.BPS, g);
    MulMono(g, Amm.BPS, Amm.BPS);
    MulMono(g * g, Amm.BPS * Amm.BPS, x * y);
    assert g * y * (g * x) == g * g * (x * y);
    assert Amm.BPS * x * (Amm.BPS * y) == Amm.BPS * Amm.BPS * (x * y);
  }

  /** A gainful cycle passes every address once. */
  lemma GainfulCycleUsesEachAddressOnce(
    chain: map<nat, Amm.UniswapV2Pair>, pools: seq<Pool>, start: Token, maxHops: int, r: RouteData)
    requires IsCycle(pools, start, maxHops, r) && MatchesChain(chain, r.pools)
    requires ScaledReservesOut(r.pools, r.path) > ScaledReservesIn(r.pools, r.path)
    ensures UsesEachAddressOnce(r.pools)
  {
    forall i, j | 0 <= i < j < |r.pools|
      ensures r.pools[i].Address() != r.pools[j].Address()
    {
      if r.pools[i].Address() == r.pools[j].Address() {
        SameAddressOnlyThereAndBack(chain, pools, start, maxHops, r, i, j);
        ThereAndBackHasNoGain(r.pools, r.path);
        assert false;
      }
    }
  }

  /** A reported cycle over up-to-date V2 pairs is a real mispricing, and executing it pays the
      reported gain, whatever else is listed. */
  lemma ReportIsRealAndExecutable(
    pools: seq<Pool>, chain: map<nat, Amm.UniswapV2Pair>, q: Query, o: Opportunity)
    requires CyclesFrom(pools, q, [], [q.start], q.amountIn).Ok?
    requires o in CyclesFrom(pools, q, [], [q.start], q.amountIn).value
    requires o.route.Valid() && MatchesChain(chain, o.route.pools)
    ensures var ps, path := o.route.pools, o.route.path;
            && ScaledReservesOut(ps, path) > ScaledReservesIn(ps, path)
            && var live := ExecuteLive(chain, ps, path, q.amountIn);
               live.Ok? && live.value.0 - q.amountIn == o.grossProfit
  {
    ReportsExactlyProfitableCycles(pools, q);
    var ps, path := o.route.pools, o.route.path;
    assert 0 < q.amountIn by {
      assert ps[0].GetAmountOut(q.amountIn, path[0]).Ok?;
    }
    GainNeedsMispricing(ps, path, q.amountIn);
    GainfulCycleUsesEachAddressOnce(chain, pools, q.start, q.maxHops, o.route);
    FrozenEqualsLive(chain, ps, path, q.amountIn);
  }

  // ---- no cycle is reported twice ----

  lemma {:induction false} ReportsDistinctFrom(pools: seq<Pool>, q: Query, ps: seq<Pool>, path: seq<Token>, amount: int)
    requires Distinct(pools) && OpenPath(pools, q, ps, path, amount)
    requires CyclesFrom(pools, q, ps, path, amount).Ok?
    ensures Distinct(CyclesFrom(pools, q, ps, path, amount).value)
    decreases if |ps| < q.maxHops then q.maxHops - |ps| else 0, 1, 0
  {
    var edges := Edges(pools, path[|ps|]);
    EdgesDistinct(pools, path[|ps|]);
    ReportsDistinctOver(pools, q, edges, ps, path, amount);
  }

  lemma ExtendsOverOneEdge(r: RouteData, ps: seq<Pool>, path: seq<Token>, e: Edge, f: Edge)
    requires e.0 != f.0 && Extends(r, ps + [e.0], path + [e.1])
    ensures !Extends(r, ps + [f.0], path + [f.1])
  {
    assert r.pools[|ps|] == (ps + [e.0])[|ps|] == e.0;
    assert (ps + [f.0])[|ps|] == f.0;
  }

  lemma {:induction false} ReportsDistinctOver(
    pools: seq<Pool>, q: Query, edges: seq<Edge>, ps: seq<Pool>, path: seq<Token>, amount: int)
    requires Distinct(pools) && OpenPath(pools, q, ps, path, amount)
    requires DistinctPools(edges) && forall e :: e in edges ==> e in Edges(pools, path[|ps|])
    requires CyclesOver(pools, q, edges, ps, path, amount).Ok?
    ensures Distinct(CyclesOver(pools, q, edges, ps, path, amount).value)
    decreases if |ps| < q.maxHops then q.maxHops - |ps| else 0, 0, |edges|
  {
    if edges != [] {
      var e := edges[0];
      var here := CyclesVia(pools, q, e, ps, path, amount).value;
      var later := CyclesOver(pools, q, edges[1..], ps, path, amount).value;
      ReportsDistinctOver(pools, q, edges[1..], ps, path, amount);
      if !Visited(ps, e.0) && !(e.1 == q.start && ps != []) && e.1 !in path && |ps| + 1 < q.maxHops {
        var out := e.0.GetAmountOut(amount, path[|ps|]).value;
        OpenPathStep(pools, q, ps, path, amount, e, out);
        ReportsDistinctFrom(pools, q, ps + [e.0], path + [e.1], out);
      }
      forall o | o in here
        ensures o !in later
      {
        CyclesOverUnion(pools, q, edges[1..], ps, path, amount, o);
        ViaExact(pools, q, ps, path, amount, e, o);
        forall f | f in edges[1..]
          ensures o !in CyclesVia(pools, q, f, ps, path, amount).value
        {
          ViaExact(pools, q, ps, path, amount, f, o);
          ExtendsOverOneEdge(o.route, ps, path, e, f);
        }
      }
      ConcatDistinct(here, later);
    }
  }

  /** Each profitable cycle is reported once when no pool object is listed twice. */
  lemma ReportsDistinct(pools: seq<Pool>, q: Query)
    requires Distinct(pools) && CyclesFrom(pools, q, [], [q.start], q.amountIn).Ok?
    ensures Distinct(CyclesFrom(pools, q, [], [q.start], q.amountIn).value)
  {
    ReportsDistinctFrom(pools, q, [], [q.start], q.amountIn);
  }

  // ---- cross-pool pairs ----

  function CrossPoolPair(poolBuy: Pool, poolSell: Pool, tokenIn: Token, tokenOut: Token, amountIn: int, gasCost: int)
    : Option<Opportunity>
  {
    var mid := poolBuy.GetAmountOut(amountIn, tokenIn);
    if mid.Err? then None
    else
      var final := poolSell.GetAmountOut(mid.value, tokenOut);
      if final.Err? || final.value - amountIn <= 0 then None
      else Some(Opportunity(Route([poolBuy, poolSell], [tokenIn, tokenOut, tokenIn]),
                            amountIn, final.value - amountIn, gasCost, tokenIn, CrossPool))
  }

  /** A pair is found exactly if its two-hop route gains, and it says what it found. */
  lemma CrossPoolIsItsRoute(buy: Pool, sell: Pool, start: Token, tokenOut: Token, amountIn: int, gasCost: int)
    ensures var cross := CrossPoolPair(buy, sell, start, tokenOut, amountIn, gasCost);
            var route := Route([buy, sell], [start, tokenOut, start]);
            var out := Output(route.pools, route.path, amountIn);
            && (cross.Some? <==> out.Ok? && out.value > amountIn)
            && (cross.Some? ==>
                  cross.value == Opportunity(route, amountIn, out.value - amountIn, gasCost, start, CrossPool))
  {
    OutputSnoc([buy], [start, tokenOut], sell, start, amountIn);
    OutputSnoc([], [start], buy, tokenOut, amountIn);
    assert [buy] + [sell] == [buy, sell] && [] + [buy] == [buy];
    assert [start] + [tokenOut] == [start, tokenOut] && [start, tokenOut] + [start] == [start, tokenOut, start];
  }

  lemma TwoHopsAreACycle(pools: seq<Pool>, start: Token, maxHops: int, buy: Pool, sell: Pool, tokenOut: Token)
    requires 2 <= maxHops && buy in pools && sell in pools && buy.id != sell.id && tokenOut != start
    requires buy.Has(start) && buy.Has(tokenOut) && sell.Has(start) && sell.Has(tokenOut)
    ensures IsCycle(pools, start, maxHops, Route([buy, sell], [start, tokenOut, start]))
  {
    var route := Route([buy, sell], [start, tokenOut, start]);
    assert route.path[..2] == [start, tokenOut];
  }

  /** Buying on one pool and selling on another finds the gain exactly when the circular search
      reports the same two-hop route, and with the same profit. */
  lemma CrossPoolAgreesWithCircular(pools: seq<Pool>, q: Query, buy: Pool, sell: Pool, tokenOut: Token, gasCost: int)
    requires 2 <= q.maxHops && buy in pools && sell in pools && buy.id != sell.id && tokenOut != q.start
    requires buy.Has(q.start) && buy.Has(tokenOut) && sell.Has(q.start) && sell.Has(tokenOut)
    requires CyclesFrom(pools, q, [], [q.start], q.amountIn).Ok?
    ensures var cross := CrossPoolPair(buy, sell, q.start, tokenOut, q.amountIn, gasCost);
            var route := Route([buy, sell], [q.start, tokenOut, q.start]);
            var reported := CyclesFrom(pools, q, [], [q.start], q.amountIn).value;
            && (cross.Some? <==> exists o :: o in reported && o.route == route)
            && (cross.Some? ==>
                  forall o :: o in reported && o.route == route ==> o.grossProfit == cross.value.grossProfit)
  {
    hide CyclesFrom, CrossPoolPair, IsCycle, Output;
    ReportsExactlyProfitableCycles(pools, q);
    var route := Route([buy, sell], [q.start, tokenOut, q.start]);
    CrossPoolIsItsRoute(buy, sell, q.start, tokenOut, q.amountIn, gasCost);
    TwoHopsAreACycle(pools, q.start, q.maxHops, buy, sell, tokenOut);
    var cross := CrossPoolPair(buy, sell, q.start, tokenOut, q.amountIn, gasCost);
    if cross.Some? {
      var o := Report(q, route.pools, route.path, q.amountIn + cross.value.grossProfit);
      assert IsProfitableCycle(pools, q, o);
    }
  }
}
