/** Route discovery by backtracking search: pricing/router.py (RouteFinder). */
module RouteFinder {
  import opened Common
  import Amm
  import opened Routes

  type Edge = (Pool, Token)

  /** Equal identities mean the same object. */
  ghost predicate IdentifiesPools(pools: seq<Pool>) {
    forall p, q :: p in pools && q in pools && p.id == q.id ==> p == q
  }

  // ---- the adjacency graph ----

  function EdgesOf(p: Pool, t: Token): seq<Edge> {
    (if t == p.Token0() then [(p, p.Token1())] else []) + (if t == p.Token1() then [(p, p.Token0())] else [])
  }

  /** What is appended to the list of `t`, pool by pool. */
  function Edges(pools: seq<Pool>, t: Token): seq<Edge> {
    if pools == [] then [] else Edges(pools[..|pools| - 1], t) + EdgesOf(pools[|pools| - 1], t)
  }

  function Get(graph: map<Token, seq<Edge>>, t: Token): seq<Edge> {
    if t in graph then graph[t] else []
  }

  function Append(graph: map<Token, seq<Edge>>, t: Token, e: Edge): map<Token, seq<Edge>> {
    graph[t := Get(graph, t) + [e]]
  }

  lemma AppendBoth(graph: map<Token, seq<Edge>>, p: Pool, t: Token)
    ensures Get(Append(Append(graph, p.Token0(), (p, p.Token1())), p.Token1(), (p, p.Token0())), t)
         == Get(graph, t) + EdgesOf(p, t)
  {
  }

  method BuildGraph(pools: seq<Pool>) returns (graph: map<Token, seq<Edge>>)
    ensures forall t :: Get(graph, t) == Edges(pools, t)
  {
    graph := map[];
    for i := 0 to |pools|
      invariant forall t :: Get(graph, t) == Edges(pools[..i], t)
    {
      var pool := pools[i];
      var graph' := Append(Append(graph, pool.Token0(), (pool, pool.Token1())), pool.Token1(), (pool, pool.Token0()));
      forall t
        ensures Get(graph', t) == Edges(pools[..i + 1], t)
      {
        AppendBoth(graph, pool, t);
        assert pools[..i + 1][..i] == pools[..i];
      }
      graph := graph';
    }
    assert pools[..|pools|] == pools;
  }

  /** The edges at a token are exactly the pools that trade it. */
  lemma {:induction false} EdgesExact(pools: seq<Pool>, t: Token, e: Edge)
    ensures e in Edges(pools, t) <==> e.0 in pools && e.0.Has(t) && e.1 == e.0.Other(t)
  {
    if pools != [] {
      var init, last := pools[..|pools| - 1], pools[|pools| - 1];
      EdgesExact(init, t, e);
      assert pools == init + [last];
    }
  }

  ghost predicate DistinctPools(edges: seq<Edge>) {
    forall i, j :: 0 <= i < j < |edges| ==> edges[i].0 != edges[j].0
  }

  lemma {:induction false} EdgesDistinct(pools: seq<Pool>, t: Token)
    requires Distinct(pools)
    ensures DistinctPools(Edges(pools, t))
  {
    if pools != [] {
      var init, last := pools[..|pools| - 1], pools[|pools| - 1];
      EdgesDistinct(init, t);
      forall i | 0 <= i < |Edges(init, t)|
        ensures Edges(init, t)[i].0 != last
      {
        EdgesExact(init, t, Edges(init, t)[i]);
      }
    }
  }

  // ---- what the search finds, as a function of the path so far ----

  /** All routes that extend a path. Only tokens are checked for repetition, never pools. */
  function RoutesFrom(pools: seq<Pool>, tokenOut: Token, maxHops: int, ps: seq<Pool>, path: seq<Token>): seq<RouteData>
    requires |path| == |ps| + 1
    decreases if |ps| < maxHops then maxHops - |ps| else 0, 1, 0
  {
    var current := path[|ps|];
    if current == tokenOut then [Route(ps, path)]
    else if |ps| >= maxHops then []
    else RoutesOver(pools, Edges(pools, current), tokenOut, maxHops, ps, path)
  }

  function RoutesOver(
    pools: seq<Pool>, edges: seq<Edge>, tokenOut: Token, maxHops: int, ps: seq<Pool>, path: seq<Token>)
    : seq<RouteData>
    requires |path| == |ps| + 1 && |ps| < maxHops
    decreases maxHops - |ps|, 0, |edges|
  {
    if edges == [] then []
    else
      (if edges[0].1 in path then []
       else RoutesFrom(pools, tokenOut, maxHops, ps + [edges[0].0], path + [edges[0].1]))
      + RoutesOver(pools, edges[1..], tokenOut, maxHops, ps, path)
  }

  lemma RoutesOverNext(
    pools: seq<Pool>, edges: seq<Edge>, i: nat, tokenOut: Token, maxHops: int, ps: seq<Pool>, path: seq<Token>,
    found: seq<RouteData>)
    requires |path| == |ps| + 1 && |ps| < maxHops && i < |edges|
    ensures var rest := RoutesOver(pools, edges[i + 1..], tokenOut, maxHops, ps, path);
            found + RoutesOver(pools, edges[i..], tokenOut, maxHops, ps, path)
            == if edges[i].1 in path then found + rest
               else found + RoutesFrom(pools, tokenOut, maxHops, ps + [edges[i].0], path + [edges[i].1]) + rest
  {
    assert edges[i..][1..] == edges[i + 1..];
    if edges[i].1 !in path {
      ConcatAssoc(found, RoutesFrom(pools, tokenOut, maxHops, ps + [edges[i].0], path + [edges[i].1]),
                  RoutesOver(pools, edges[i + 1..], tokenOut, maxHops, ps, path));
    }
  }

  /** Inside the hop limit and short of the goal, the routes are those over the edges. */
  lemma RoutesFromEdges(pools: seq<Pool>, tokenOut: Token, maxHops: int, ps: seq<Pool>, path: seq<Token>)
    requires |path| == |ps| + 1 && |ps| < maxHops && path[|ps|] != tokenOut
    ensures RoutesFrom(pools, tokenOut, maxHops, ps, path)
         == RoutesOver(pools, Edges(pools, path[|ps|]), tokenOut, maxHops, ps, path)
  {
  }

  lemma RoutesOverNone(pools: seq<Pool>, tokenOut: Token, maxHops: int, ps: seq<Pool>, path: seq<Token>)
    requires |path| == |ps| + 1 && |ps| < maxHops
    ensures RoutesOver(pools, [], tokenOut, maxHops, ps, path) == []
  {
  }

  // ---- the search itself ----

  /** The lists and sets shared by all activations of the search. */
  class Search {
    var visitedTokens: set<Token>
    var visitedPools: set<nat>
    var poolsSoFar: seq<Pool>
    var pathSoFar: seq<Token>
    var routes: seq<RouteData>

    constructor (tokenIn: Token)
      ensures visitedTokens == {tokenIn} && visitedPools == {}
      ensures poolsSoFar == [] && pathSoFar == [tokenIn] && routes == []
    {
      visitedTokens, visitedPools := {tokenIn}, {};
      poolsSoFar, pathSoFar, routes := [], [tokenIn], [];
    }

    ghost predicate Consistent(pools: seq<Pool>, tokenOut: Token)
      reads this
    {
      OnPath(pools, tokenOut, visitedTokens, visitedPools, poolsSoFar, pathSoFar)
    }
  }

  /** The sets record what is on the path, and the path is a connected walk
      that has not passed through `tokenOut`. */
  ghost predicate OnPath(
    pools: seq<Pool>, tokenOut: Token, tokens: set<Token>, ids: set<nat>, ps: seq<Pool>, path: seq<Token>)
  {
    && |path| == |ps| + 1
    && tokens == (set t | t in path)
    && ids == (set p | p in ps :: p.id)
    && (forall p :: p in ps ==> p in pools)
    && Connected(ps, path)
    && tokenOut !in path[..|ps|]
  }

  lemma OnPathPush(
    pools: seq<Pool>, tokenOut: Token, tokens: set<Token>, ids: set<nat>, ps: seq<Pool>, path: seq<Token>, e: Edge)
    requires OnPath(pools, tokenOut, tokens, ids, ps, path)
    requires path[|ps|] != tokenOut && e in Edges(pools, path[|ps|])
    ensures OnPath(pools, tokenOut, tokens + {e.1}, ids + {e.0.id}, ps + [e.0], path + [e.1])
  {
    EdgesExact(pools, path[|ps|], e);
    assert path == path[..|ps|] + [path[|ps|]];
    assert (path + [e.1])[..|ps| + 1] == path;
    assert forall p :: p in ps + [e.0] <==> p in ps || p == e.0;
    assert forall t :: t in path + [e.1] <==> t in path || t == e.1;
  }

  lemma ConcatAssoc<T>(a: seq<T>, b: seq<T>, c: seq<T>)
    ensures a + b + c == a + (b + c)
  {
  }

  /** The visited-pool test skips only edges whose far token is on the path already. */
  lemma VisitedPoolMeansVisitedToken(pools: seq<Pool>, ps: seq<Pool>, path: seq<Token>, e: Edge)
    requires IdentifiesPools(pools) && |path| == |ps| + 1 && Connected(ps, path)
    requires forall p :: p in ps ==> p in pools
    requires e in Edges(pools, path[|ps|])
    requires exists p :: p in ps && p.id == e.0.id
    ensures e.1 in path
  {
    EdgesExact(pools, path[|ps|], e);
    var i :| 0 <= i < |ps| && ps[i].id == e.0.id;
    assert ps[i] in ps && ps[i] == e.0;
    assert e.1 == path[i] || e.1 == path[i + 1];
  }

  class RouteFinder {
    const pools: seq<Pool>
    var graph: map<Token, seq<Edge>>

    ghost predicate Valid()
      reads this
    {
      IdentifiesPools(pools) && forall t :: Get(graph, t) == Edges(pools, t)
    }

    constructor (pools: seq<Pool>)
      requires IdentifiesPools(pools)
      ensures Valid() && this.pools == pools
    {
      var adjacency := BuildGraph(pools);
      this.pools, graph := pools, adjacency;
    }

    /** Appends every extension of the current path and leaves the shared lists and sets as it
        found them. Raises only when asked for a route of no pools. */
    method Dfs(s: Search, current: Token, tokenOut: Token, maxHops: int) returns (raised: bool)
      requires Valid() && s.Consistent(pools, tokenOut) && current == s.pathSoFar[|s.poolsSoFar|]
      modifies s
      ensures raised <==> current == tokenOut && s.poolsSoFar == []
      ensures unchanged(s`visitedTokens, s`visitedPools, s`poolsSoFar, s`pathSoFar)
      ensures raised ==> s.routes == old(s.routes)
      ensures !raised ==>
                s.routes == old(s.routes) + RoutesFrom(pools, tokenOut, maxHops, s.poolsSoFar, s.pathSoFar)
      decreases if |s.poolsSoFar| < maxHops then maxHops - |s.poolsSoFar| else 0, 2
    {
      if current == tokenOut {
        if s.poolsSoFar == [] {
          return true;
        }
        s.routes := s.routes + [Route(s.poolsSoFar, s.pathSoFar)];
        return false;
      }
      if |s.poolsSoFar| >= maxHops {
        return false;
      }
      VisitNeighbours(s, tokenOut, maxHops);
      return false;
    }

    /** The loop of the search over the edges of the current token. */
    method VisitNeighbours(s: Search, tokenOut: Token, maxHops: int)
      requires Valid() && s.Consistent(pools, tokenOut) && |s.poolsSoFar| < maxHops
      requires s.pathSoFar[|s.poolsSoFar|] != tokenOut
      modifies s
      ensures unchanged(s`visitedTokens, s`visitedPools, s`poolsSoFar, s`pathSoFar)
      ensures s.routes == old(s.routes) + RoutesFrom(pools, tokenOut, maxHops, s.poolsSoFar, s.pathSoFar)
      decreases maxHops - |s.poolsSoFar|, 1
    {
      hide RoutesFrom, RoutesOver, Edges, Connected, IdentifiesPools;
      ghost var ps, path := s.poolsSoFar, s.pathSoFar;
      assert path == path[..|ps|] + [path[|ps|]];
      RoutesFromEdges(pools, tokenOut, maxHops, ps, path);
      var edges := Get(graph, s.pathSoFar[|s.poolsSoFar|]);
      assert edges[0..] == edges;
      ghost var found: seq<RouteData> := [];
      for i := 0 to |edges|
        invariant unchanged(s`visitedTokens, s`visitedPools, s`poolsSoFar, s`pathSoFar)
        invariant s.routes == old(s.routes) + found
        invariant found + RoutesOver(pools, edges[i..], tokenOut, maxHops, ps, path)
               == RoutesFrom(pools, tokenOut, maxHops, ps, path)
      {
        var pool, neighbour := edges[i].0, edges[i].1;
        RoutesOverNext(pools, edges, i, tokenOut, maxHops, ps, path, found);
        if pool.id in s.visitedPools {
          VisitedPoolMeansVisitedToken(pools, ps, path, edges[i]);
          continue;
        }
        if neighbour in s.visitedTokens && neighbour != tokenOut {
          continue;
        }
        Descend(s, edges[i], tokenOut, maxHops);
        ghost var here := RoutesFrom(pools, tokenOut, maxHops, ps + [pool], path + [neighbour]);
        ConcatAssoc(old(s.routes), found, here);
        found := found + here;
      }
      assert edges[|edges|..] == [];
      RoutesOverNone(pools, tokenOut, maxHops, ps, path);
    }

    /** Pushes one edge, searches on from there, and pops it again. */
    method Descend(s: Search, e: Edge, tokenOut: Token, maxHops: int)
      requires Valid() && s.Consistent(pools, tokenOut) && |s.poolsSoFar| < maxHops
      requires s.pathSoFar[|s.poolsSoFar|] != tokenOut
      requires e in Edges(pools, s.pathSoFar[|s.poolsSoFar|])
      requires e.1 !in s.visitedTokens && e.0.id !in s.visitedPools
      modifies s
      ensures unchanged(s`visitedTokens, s`visitedPools, s`poolsSoFar, s`pathSoFar)
      ensures s.routes == old(s.routes)
                          + RoutesFrom(pools, tokenOut, maxHops, s.poolsSoFar + [e.0], s.pathSoFar + [e.1])
      decreases maxHops - |s.poolsSoFar|, 0
    {
      OnPathPush(pools, tokenOut, s.visitedTokens, s.visitedPools, s.poolsSoFar, s.pathSoFar, e);
      s.poolsSoFar := s.poolsSoFar + [e.0];
      s.pathSoFar := s.pathSoFar + [e.1];
      s.visitedTokens := s.visitedTokens + {e.1};
      s.visitedPools := s.visitedPools + {e.0.id};
      var r := Dfs(s, e.1, tokenOut, maxHops);
      s.poolsSoFar := s.poolsSoFar[..|s.poolsSoFar| - 1];
      s.pathSoFar := s.pathSoFar[..|s.pathSoFar| - 1];
      s.visitedTokens := s.visitedTokens - {e.1};
      s.visitedPools := s.visitedPools - {e.0.id};
    }

    /** Asking for routes from a token to itself raises; otherwise all routes are returned. */
    method FindAllRoutes(tokenIn: Token, tokenOut: Token, maxHops: int) returns (r: Result<seq<RouteData>>)
      requires Valid()
      ensures r == if tokenIn == tokenOut then Err(EmptyRoute)
                   else Ok(RoutesFrom(pools, tokenOut, maxHops, [], [tokenIn]))
    {
      var s := new Search(tokenIn);
      assert [tokenIn][..0] == [];
      var raised := Dfs(s, tokenIn, tokenOut, maxHops);
      ghost var found := RoutesFrom(pools, tokenOut, maxHops, [], [tokenIn]);
      assert [] + found == found;
      return if raised then Err(EmptyRoute) else Ok(s.routes);
    }

    /** The first of the found routes with the highest net output; it raises when there is none
        or one of them cannot be evaluated. */
    method FindBestRoute(tokenIn: Token, tokenOut: Token, amountIn: int, gasPriceGwei: int, maxHops: int)
      returns (r: Result<(RouteData, int)>)
      requires Valid()
      ensures tokenIn == tokenOut ==> r == Err(EmptyRoute)
      ensures tokenIn != tokenOut ==>
                var routes := RoutesFrom(pools, tokenOut, maxHops, [], [tokenIn]);
                && (r == Err(NoRoute) <==> routes == [])
                && (r.Ok? <==> routes != [] && AllEvaluate(routes, amountIn))
                && (r.Ok? ==> exists k :: IsFirstBest(routes, k, amountIn, gasPriceGwei)
                                          && r.value == (routes[k], NetValue(routes[k], amountIn, gasPriceGwei)))
                && (r.Ok? ==> IsBestNet(pools, tokenIn, tokenOut, maxHops, amountIn, gasPriceGwei, r.value))
    {
      var found := FindAllRoutes(tokenIn, tokenOut, maxHops);
      if found.Err? {
        return Err(found.error);
      }
      RoutesAreValid(pools, tokenIn, tokenOut, maxHops);
      r := BestOf(found.value, amountIn, gasPriceGwei);
      if r.Ok? {
        ghost var k :| IsFirstBest(found.value, k, amountIn, gasPriceGwei)
                       && r.value == (found.value[k], NetValue(found.value[k], amountIn, gasPriceGwei));
        BestNetExact(pools, tokenIn, tokenOut, maxHops, k, amountIn, gasPriceGwei);
      }
    }
  }

  /** The comparison loop of `find_best_route`. */
  method BestOf(routes: seq<RouteData>, amountIn: int, gasPriceGwei: int) returns (r: Result<(RouteData, int)>)
    requires forall k :: 0 <= k < |routes| ==> routes[k].Valid()
    ensures r == Err(NoRoute) <==> routes == []
    ensures r.Ok? <==> routes != [] && AllEvaluate(routes, amountIn)
    ensures r.Ok? ==> exists k :: IsFirstBest(routes, k, amountIn, gasPriceGwei)
                                  && r.value == (routes[k], NetValue(routes[k], amountIn, gasPriceGwei))
  {
    if routes == [] {
      return Err(NoRoute);
    }
    var best: Option<RouteData>, bestNet := None, -1;
    ghost var k := 0;
    for i := 0 to |routes|
      invariant best.Some? <==> i > 0
      invariant best.Some? ==>
                  k < i && best.value == routes[k] && bestNet == NetValue(routes[k], amountIn, gasPriceGwei)
      invariant forall j :: 0 <= j < i ==>
                  Evaluates(routes[j], amountIn) && NetValue(routes[j], amountIn, gasPriceGwei) <= bestNet
      invariant forall j :: 0 <= j < k < i ==> NetValue(routes[j], amountIn, gasPriceGwei) < bestNet
    {
      var gross := GetOutput(routes[i], amountIn);
      if gross.Err? {
        OutputErrorIsNotNoRoute(routes[i].pools, routes[i].path, amountIn);
        assert !Evaluates(routes[i], amountIn);
        return Err(gross.error);
      }
      var net := MaxInt(0, gross.value - gasPriceGwei * WEI_PER_GWEI * EstimateGas(routes[i]));
      assert net == NetValue(routes[i], amountIn, gasPriceGwei);
      if best == None || net > bestNet {
        best, bestNet := Some(routes[i]), net;
        k := i;
      }
    }
    assert IsFirstBest(routes, k, amountIn, gasPriceGwei);
    return Ok((best.value, bestNet));
  }

  lemma {:induction false} OutputErrorIsNotNoRoute(ps: seq<Pool>, path: seq<Token>, amountIn: int)
    requires |path| == |ps| + 1
    ensures Output(ps, path, amountIn) != Err(NoRoute)
    decreases |ps|
  {
    if ps != [] && ps[0].GetAmountOut(amountIn, path[0]).Ok? {
      OutputErrorIsNotNoRoute(ps[1..], path[1..], ps[0].GetAmountOut(amountIn, path[0]).value);
    }
  }

  const WEI_PER_GWEI := 1000000000

  predicate Evaluates(r: RouteData, amountIn: int) {
    r.Valid() && Output(r.pools, r.path, amountIn).Ok?
  }

  ghost predicate AllEvaluate(routes: seq<RouteData>, amountIn: int) {
    forall j :: 0 <= j < |routes| ==> Evaluates(routes[j], amountIn)
  }

  /** Output after gas, never below 0. */
  function NetValue(r: RouteData, amountIn: int, gasPriceGwei: int): int {
    if !Evaluates(r, amountIn) then 0
    else MaxInt(0, Output(r.pools, r.path, amountIn).value - gasPriceGwei * WEI_PER_GWEI * EstimateGas(r))
  }

  ghost predicate IsFirstBest(routes: seq<RouteData>, k: int, amountIn: int, gasPriceGwei: int) {
    && 0 <= k < |routes|
    && (forall j :: 0 <= j < |routes| ==>
          NetValue(routes[j], amountIn, gasPriceGwei) <= NetValue(routes[k], amountIn, gasPriceGwei))
    && (forall j :: 0 <= j < k ==>
          NetValue(routes[j], amountIn, gasPriceGwei) < NetValue(routes[k], amountIn, gasPriceGwei))
  }

  // ---- the search is sound, complete and free of repetition ----

  /** A path through known pools that visits no token twice. */
  ghost predicate SimpleRoute(pools: seq<Pool>, tokenIn: Token, tokenOut: Token, maxHops: int, r: RouteData) {
    && r.Valid()
    && |r.pools| <= maxHops
    && r.path[0] == tokenIn && r.path[|r.pools|] == tokenOut
    && Distinct(r.path)
    && (forall p :: p in r.pools ==> p in pools)
    && Connected(r.pools, r.path)
  }

  ghost predicate Extends(r: RouteData, ps: seq<Pool>, path: seq<Token>) {
    ps <= r.pools && path <= r.path
  }

  /** A route that goes on past a prefix extends the prefix by its next edge. */
  lemma ExtendsOneFurther(r: RouteData, ps: seq<Pool>, path: seq<Token>)
    requires |path| == |ps| + 1 && |r.path| == |r.pools| + 1
    requires Extends(r, ps, path) && |ps| < |r.pools|
    ensures ps == r.pools[..|ps|] && path == r.path[..|ps| + 1] && r.path[|ps|] == path[|ps|]
    ensures Extends(r, ps + [r.pools[|ps|]], path + [r.path[|ps| + 1]])
  {
    assert ps + [r.pools[|ps|]] == r.pools[..|ps| + 1];
    assert path + [r.path[|ps| + 1]] == r.path[..|ps| + 2];
  }

  /** A path the search can stand on. */
  ghost predicate SimplePrefix(
    pools: seq<Pool>, tokenIn: Token, tokenOut: Token, maxHops: int, ps: seq<Pool>, path: seq<Token>)
  {
    && |path| == |ps| + 1
    && path[0] == tokenIn
    && Distinct(path)
    && tokenIn != tokenOut
    && (|ps| == 0 || |ps| <= maxHops)
    && (forall p :: p in ps ==> p in pools)
    && Connected(ps, path)
    && tokenOut !in path[..|ps|]
  }

  lemma {:induction false} RoutesOverUnion(
    pools: seq<Pool>, edges: seq<Edge>, tokenOut: Token, maxHops: int, ps: seq<Pool>, path: seq<Token>, r: RouteData)
    requires |path| == |ps| + 1 && |ps| < maxHops
    ensures r in RoutesOver(pools, edges, tokenOut, maxHops, ps, path)
       <==> exists e :: e in edges && e.1 !in path
                        && r in RoutesFrom(pools, tokenOut, maxHops, ps + [e.0], path + [e.1])
    decreases |edges|
  {
    if edges != [] {
      RoutesOverUnion(pools, edges[1..], tokenOut, maxHops, ps, path, r);
      assert forall e :: e in edges <==> e == edges[0] || e in edges[1..];
    }
  }

  lemma SimplePrefixStep(
    pools: seq<Pool>, tokenIn: Token, tokenOut: Token, maxHops: int, ps: seq<Pool>, path: seq<Token>, e: Edge)
    requires SimplePrefix(pools, tokenIn, tokenOut, maxHops, ps, path) && |ps| < maxHops
    requires path[|ps|] != tokenOut && e in Edges(pools, path[|ps|]) && e.1 !in path
    ensures SimplePrefix(pools, tokenIn, tokenOut, maxHops, ps + [e.0], path + [e.1])
  {
    EdgesExact(pools, path[|ps|], e);
    assert path == path[..|ps|] + [path[|ps|]];
    assert (path + [e.1])[..|ps| + 1] == path;
  }

  /** From any prefix the search yields exactly the simple routes that extend it. */
  lemma {:induction false} ExtensionsExact(
    pools: seq<Pool>, tokenIn: Token, tokenOut: Token, maxHops: int, ps: seq<Pool>, path: seq<Token>, r: RouteData)
    requires SimplePrefix(pools, tokenIn, tokenOut, maxHops, ps, path)
    ensures r in RoutesFrom(pools, tokenOut, maxHops, ps, path)
       <==> SimpleRoute(pools, tokenIn, tokenOut, maxHops, r) && Extends(r, ps, path)
    decreases if |ps| < maxHops then maxHops - |ps| else 0
  {
    var current := path[|ps|];
    if current == tokenOut {
      if SimpleRoute(pools, tokenIn, tokenOut, maxHops, r) && Extends(r, ps, path) {
        assert r.path[|ps|] == tokenOut == r.path[|r.pools|];
        assert r == Route(ps, path);
      }
    } else if |ps| < maxHops {
      var edges := Edges(pools, current);
      RoutesOverUnion(pools, edges, tokenOut, maxHops, ps, path, r);
      forall e | e in edges && e.1 !in path
        ensures r in RoutesFrom(pools, tokenOut, maxHops, ps + [e.0], path + [e.1])
           <==> SimpleRoute(pools, tokenIn, tokenOut, maxHops, r) && Extends(r, ps + [e.0], path + [e.1])
      {
        SimplePrefixStep(pools, tokenIn, tokenOut, maxHops, ps, path, e);
        ExtensionsExact(pools, tokenIn, tokenOut, maxHops, ps + [e.0], path + [e.1], r);
      }
      if SimpleRoute(pools, tokenIn, tokenOut, maxHops, r) {
        ExtendsOverSomeEdge(pools, tokenIn, tokenOut, maxHops, ps, path, r);
      }
    }
  }

  lemma ExtendsOverSomeEdge(
    pools: seq<Pool>, tokenIn: Token, tokenOut: Token, maxHops: int, ps: seq<Pool>, path: seq<Token>, r: RouteData)
    requires |path| == |ps| + 1 && path[|ps|] != tokenOut && SimpleRoute(pools, tokenIn, tokenOut, maxHops, r)
    ensures Extends(r, ps, path)
       <==> exists e :: e in Edges(pools, path[|ps|]) && e.1 !in path && Extends(r, ps + [e.0], path + [e.1])
  {
    if Extends(r, ps, path) {
      NextEdge(pools, tokenIn, tokenOut, maxHops, ps, path, r);
    }
    forall e: Edge | Extends(r, ps + [e.0], path + [e.1])
      ensures Extends(r, ps, path)
    {
      assert ps == (ps + [e.0])[..|ps|] && path == (path + [e.1])[..|path|];
    }
  }

  /** A simple route strictly longer than a prefix leaves it over an edge of the graph. */
  lemma NextEdge(
    pools: seq<Pool>, tokenIn: Token, tokenOut: Token, maxHops: int, ps: seq<Pool>, path: seq<Token>, r: RouteData)
    requires |path| == |ps| + 1 && path[|ps|] != tokenOut
    requires SimpleRoute(pools, tokenIn, tokenOut, maxHops, r) && Extends(r, ps, path)
    ensures |ps| < |r.pools|
    ensures var e := (r.pools[|ps|], r.path[|ps| + 1]);
            e in Edges(pools, path[|ps|]) && e.1 !in path && Extends(r, ps + [e.0], path + [e.1])
  {
    hide Edges;
    var n := |ps|;
    assert r.path[n] == path[n];
    assert n < |r.pools|;
    ExtendsOneFurther(r, ps, path);
    assert r.pools[n] in r.pools;
    assert r.pools[n].Has(r.path[n]) && r.path[n + 1] == r.pools[n].Other(r.path[n]);
    EdgesExact(pools, path[n], (r.pools[n], r.path[n + 1]));
  }

  /** Every simple route of at most `maxHops` pools is found, and nothing else. */
  lemma FindsExactlySimpleRoutes(pools: seq<Pool>, tokenIn: Token, tokenOut: Token, maxHops: int)
    requires tokenIn != tokenOut
    ensures forall r :: r in RoutesFrom(pools, tokenOut, maxHops, [], [tokenIn])
                   <==> SimpleRoute(pools, tokenIn, tokenOut, maxHops, r)
  {
    forall r
      ensures r in RoutesFrom(pools, tokenOut, maxHops, [], [tokenIn])
         <==> SimpleRoute(pools, tokenIn, tokenOut, maxHops, r)
    {
      ExtensionsExact(pools, tokenIn, tokenOut, maxHops, [], [tokenIn], r);
    }
  }

  lemma RoutesAreValid(pools: seq<Pool>, tokenIn: Token, tokenOut: Token, maxHops: int)
    requires tokenIn != tokenOut
    ensures forall k :: 0 <= k < |RoutesFrom(pools, tokenOut, maxHops, [], [tokenIn])| ==>
              RoutesFrom(pools, tokenOut, maxHops, [], [tokenIn])[k].Valid()
  {
    FindsExactlySimpleRoutes(pools, tokenIn, tokenOut, maxHops);
    var routes := RoutesFrom(pools, tokenOut, maxHops, [], [tokenIn]);
    forall k | 0 <= k < |routes|
      ensures routes[k].Valid()
    {
      assert routes[k] in routes;
    }
  }

  /** The best found route is the optimum over all simple routes there are. */
  lemma BestFoundIsBestSimple(
    pools: seq<Pool>, tokenIn: Token, tokenOut: Token, maxHops: int, k: int, amountIn: int, gasPriceGwei: int)
    requires tokenIn != tokenOut
    requires IsFirstBest(RoutesFrom(pools, tokenOut, maxHops, [], [tokenIn]), k, amountIn, gasPriceGwei)
    ensures var best := RoutesFrom(pools, tokenOut, maxHops, [], [tokenIn])[k];
            && SimpleRoute(pools, tokenIn, tokenOut, maxHops, best)
            && forall q :: SimpleRoute(pools, tokenIn, tokenOut, maxHops, q) ==>
                 NetValue(q, amountIn, gasPriceGwei) <= NetValue(best, amountIn, gasPriceGwei)
  {
    var routes := RoutesFrom(pools, tokenOut, maxHops, [], [tokenIn]);
    FindsExactlySimpleRoutes(pools, tokenIn, tokenOut, maxHops);
    assert routes[k] in routes;
    forall q | SimpleRoute(pools, tokenIn, tokenOut, maxHops, q)
      ensures NetValue(q, amountIn, gasPriceGwei) <= NetValue(routes[k], amountIn, gasPriceGwei)
    {
      assert q in routes;
    }
  }

  /** When the search for the best route succeeds, in terms of amounts: no simple route, however
      poor, may run dry. */
  lemma AllEvaluateUnlessDry(pools: seq<Pool>, tokenIn: Token, tokenOut: Token, maxHops: int, amountIn: int)
    requires tokenIn != tokenOut
    ensures AllEvaluate(RoutesFrom(pools, tokenOut, maxHops, [], [tokenIn]), amountIn)
       <==> forall r :: SimpleRoute(pools, tokenIn, tokenOut, maxHops, r) ==> NeverRunsDry(r.pools, r.path, amountIn)
  {
    var routes := RoutesFrom(pools, tokenOut, maxHops, [], [tokenIn]);
    FindsExactlySimpleRoutes(pools, tokenIn, tokenOut, maxHops);
    forall r | SimpleRoute(pools, tokenIn, tokenOut, maxHops, r)
      ensures Evaluates(r, amountIn) <==> NeverRunsDry(r.pools, r.path, amountIn)
    {
      EvaluatesUnlessDry(r.pools, r.path, amountIn);
    }
    assert AllEvaluate(routes, amountIn) <==> forall r :: r in routes ==> Evaluates(r, amountIn);
  }

  /** What a route pays less what its gas costs: 150000 gas and 100000 a pool, at so many gwei. */
  ghost predicate PaysAfterGas(r: RouteData, amountIn: int, gasPriceGwei: int, net: int) {
    r.Valid() && Output(r.pools, r.path, amountIn)
                 == Ok(net + gasPriceGwei * 1000000000 * (150000 + 100000 * |r.pools|))
  }

  /** The best result there is, in outputs and hops alone: a simple route with what it pays after
      gas, 0 if that is negative, and no simple route pays more after gas. */
  ghost predicate IsBestNet(
    pools: seq<Pool>, tokenIn: Token, tokenOut: Token, maxHops: int, amountIn: int, gasPriceGwei: int,
    best: (RouteData, int))
  {
    && SimpleRoute(pools, tokenIn, tokenOut, maxHops, best.0)
    && 0 <= best.1
    && (best.1 != 0 ==> PaysAfterGas(best.0, amountIn, gasPriceGwei, best.1))
    && forall q, net ::
         SimpleRoute(pools, tokenIn, tokenOut, maxHops, q) && PaysAfterGas(q, amountIn, gasPriceGwei, net)
         ==> net <= best.1
  }

  /** The net of a route is what it pays after gas, but never below 0. */
  lemma NetIsAfterGas(r: RouteData, amountIn: int, gasPriceGwei: int, net: int)
    requires PaysAfterGas(r, amountIn, gasPriceGwei, net)
    ensures NetValue(r, amountIn, gasPriceGwei) == if net < 0 then 0 else net
  {
    var gas := 150000 + 100000 * |r.pools|;
    assert EstimateGas(r) == gas;
    assert gasPriceGwei * WEI_PER_GWEI * EstimateGas(r) == gasPriceGwei * 1000000000 * gas;
  }

  lemma BestNetExact(
    pools: seq<Pool>, tokenIn: Token, tokenOut: Token, maxHops: int, k: int, amountIn: int, gasPriceGwei: int)
    requires tokenIn != tokenOut
    requires IsFirstBest(RoutesFrom(pools, tokenOut, maxHops, [], [tokenIn]), k, amountIn, gasPriceGwei)
    requires AllEvaluate(RoutesFrom(pools, tokenOut, maxHops, [], [tokenIn]), amountIn)
    ensures var best := RoutesFrom(pools, tokenOut, maxHops, [], [tokenIn])[k];
            IsBestNet(pools, tokenIn, tokenOut, maxHops, amountIn, gasPriceGwei,
                      (best, NetValue(best, amountIn, gasPriceGwei)))
  {
    var best := RoutesFrom(pools, tokenOut, maxHops, [], [tokenIn])[k];
    hide RoutesFrom, NetValue, SimpleRoute;
    BestFoundIsBestSimple(pools, tokenIn, tokenOut, maxHops, k, amountIn, gasPriceGwei);
    assert Evaluates(best, amountIn);
    var net := Output(best.pools, best.path, amountIn).value
               - gasPriceGwei * 1000000000 * (150000 + 100000 * |best.pools|);
    NetIsAfterGas(best, amountIn, gasPriceGwei, net);
    forall q, n | SimpleRoute(pools, tokenIn, tokenOut, maxHops, q) && PaysAfterGas(q, amountIn, gasPriceGwei, n)
      ensures n <= NetValue(best, amountIn, gasPriceGwei)
    {
      NetIsAfterGas(q, amountIn, gasPriceGwei, n);
    }
  }

  /** A higher gas price never raises the best net. */
  lemma GasPriceNeverHelps(
    pools: seq<Pool>, tokenIn: Token, tokenOut: Token, maxHops: int, amountIn: int, cheap: int, dear: int,
    best: (RouteData, int), best': (RouteData, int))
    requires cheap <= dear
    requires IsBestNet(pools, tokenIn, tokenOut, maxHops, amountIn, cheap, best)
    requires IsBestNet(pools, tokenIn, tokenOut, maxHops, amountIn, dear, best')
    ensures best'.1 <= best.1
  {
    hide SimpleRoute;
    if best'.1 != 0 {
      var gas := 150000 + 100000 * |best'.0.pools|;
      GasGrows(cheap, dear, gas);
      var net := best'.1 + dear * 1000000000 * gas - cheap * 1000000000 * gas;
      assert PaysAfterGas(best'.0, amountIn, cheap, net);
    }
  }

  lemma GasGrows(cheap: int, dear: int, gas: int)
    requires cheap <= dear && 0 <= gas
    ensures cheap * 1000000000 * gas <= dear * 1000000000 * gas
  {
  }

  /** At a positive gas price a route that pays off is never longer than another that pays as much. */
  lemma LongerNeverBeatsShorter(
    pools: seq<Pool>, tokenIn: Token, tokenOut: Token, maxHops: int, amountIn: int, gasPriceGwei: int,
    best: (RouteData, int), q: RouteData)
    requires 0 < gasPriceGwei && IsBestNet(pools, tokenIn, tokenOut, maxHops, amountIn, gasPriceGwei, best)
    requires best.1 != 0 && SimpleRoute(pools, tokenIn, tokenOut, maxHops, q)
    requires Output(q.pools, q.path, amountIn).Ok?
    requires Output(q.pools, q.path, amountIn).value >= Output(best.0.pools, best.0.path, amountIn).value
    ensures |best.0.pools| <= |q.pools|
  {
    hide Output;
    var out, gas, gas' := Output(q.pools, q.path, amountIn).value, 150000 + 100000 * |best.0.pools|,
                          150000 + 100000 * |q.pools|;
    assert PaysAfterGas(q, amountIn, gasPriceGwei, out - gasPriceGwei * 1000000000 * gas');
    if |q.pools| < |best.0.pools| {
      GasStrict(gasPriceGwei, gas', gas);
      assert false;
    }
  }

  lemma GasStrict(price: int, less: int, more: int)
    requires 0 < price && less < more
    ensures price * 1000000000 * less < price * 1000000000 * more
  {
  }

  lemma {:induction false} RoutesExtendPrefix(
    pools: seq<Pool>, tokenOut: Token, maxHops: int, ps: seq<Pool>, path: seq<Token>, r: RouteData)
    requires |path| == |ps| + 1 && r in RoutesFrom(pools, tokenOut, maxHops, ps, path)
    ensures Extends(r, ps, path)
    decreases if |ps| < maxHops then maxHops - |ps| else 0
  {
    var current := path[|ps|];
    if current != tokenOut && |ps| < maxHops {
      var edges := Edges(pools, current);
      RoutesOverUnion(pools, edges, tokenOut, maxHops, ps, path, r);
      var e :| e in edges && e.1 !in path && r in RoutesFrom(pools, tokenOut, maxHops, ps + [e.0], path + [e.1]);
      RoutesExtendPrefix(pools, tokenOut, maxHops, ps + [e.0], path + [e.1], r);
      assert ps <= ps + [e.0] && path <= path + [e.1];
    }
  }

  /** No route is reported twice when no pool object is listed twice. */
  lemma {:induction false} RoutesDistinct(
    pools: seq<Pool>, tokenOut: Token, maxHops: int, ps: seq<Pool>, path: seq<Token>)
    requires Distinct(pools) && |path| == |ps| + 1
    ensures Distinct(RoutesFrom(pools, tokenOut, maxHops, ps, path))
    decreases if |ps| < maxHops then maxHops - |ps| else 0, 1, 0
  {
    var current := path[|ps|];
    if current != tokenOut && |ps| < maxHops {
      EdgesDistinct(pools, current);
      RoutesOverDistinct(pools, Edges(pools, current), tokenOut, maxHops, ps, path);
    }
  }

  lemma {:induction false} RoutesOverDistinct(
    pools: seq<Pool>, edges: seq<Edge>, tokenOut: Token, maxHops: int, ps: seq<Pool>, path: seq<Token>)
    requires Distinct(pools) && |path| == |ps| + 1 && |ps| < maxHops && DistinctPools(edges)
    ensures Distinct(RoutesOver(pools, edges, tokenOut, maxHops, ps, path))
    decreases maxHops - |ps|, 0, |edges|
  {
    if edges != [] {
      var e := edges[0];
      var here := if e.1 in path then [] else RoutesFrom(pools, tokenOut, maxHops, ps + [e.0], path + [e.1]);
      var later := RoutesOver(pools, edges[1..], tokenOut, maxHops, ps, path);
      RoutesOverDistinct(pools, edges[1..], tokenOut, maxHops, ps, path);
      if e.1 !in path {
        RoutesDistinct(pools, tokenOut, maxHops, ps + [e.0], path + [e.1]);
      }
      forall r | r in here
        ensures r !in later
      {
        RoutesExtendPrefix(pools, tokenOut, maxHops, ps + [e.0], path + [e.1], r);
        RoutesOverUnion(pools, edges[1..], tokenOut, maxHops, ps, path, r);
        forall f | f in edges[1..] && f.1 !in path
          ensures r !in RoutesFrom(pools, tokenOut, maxHops, ps + [f.0], path + [f.1])
        {
          BranchesDisjoint(pools, tokenOut, maxHops, ps, path, e, f, r);
        }
      }
      ConcatDistinct(here, later);
    }
  }

  lemma ConcatDistinct<T>(a: seq<T>, b: seq<T>)
    requires Distinct(a) && Distinct(b) && forall x :: x in a ==> x !in b
    ensures Distinct(a + b)
  {
    forall i, j | 0 <= i < j < |a + b|
      ensures (a + b)[i] != (a + b)[j]
    {
      if i < |a| <= j {
        assert (a + b)[i] in a && (a + b)[j] in b;
      }
    }
  }

  /** Routes that leave a prefix over different pools are different. */
  lemma BranchesDisjoint(
    pools: seq<Pool>, tokenOut: Token, maxHops: int, ps: seq<Pool>, path: seq<Token>, e: Edge, f: Edge, r: RouteData)
    requires |path| == |ps| + 1 && e.0 != f.0 && ps + [e.0] <= r.pools
    ensures r !in RoutesFrom(pools, tokenOut, maxHops, ps + [f.0], path + [f.1])
  {
    assert r.pools[|ps|] == (ps + [e.0])[|ps|] == e.0;
    if r in RoutesFrom(pools, tokenOut, maxHops, ps + [f.0], path + [f.1]) {
      RoutesExtendPrefix(pools, tokenOut, maxHops, ps + [f.0], path + [f.1], r);
      assert false;
    }
  }

  /** Repeating no token, a route repeats no pool: the search could do without its pool set. */
  lemma SimpleRouteUsesEachPoolOnce(pools: seq<Pool>, tokenIn: Token, tokenOut: Token, maxHops: int, r: RouteData)
    requires IdentifiesPools(pools) && SimpleRoute(pools, tokenIn, tokenOut, maxHops, r)
    ensures UsesEachPoolOnce(r.pools)
  {
    forall i, j | 0 <= i < j < |r.pools|
      ensures r.pools[i].id != r.pools[j].id
    {
      assert r.pools[i] in r.pools && r.pools[j] in r.pools;
      assert r.path[j + 1] != r.path[i] && r.path[j + 1] != r.path[i + 1];
    }
  }

  /** Two hops through the same address trade the same two tokens. */
  lemma SameAddressSameTokens(
    chain: map<nat, Amm.UniswapV2Pair>, pools: seq<Pool>, path: seq<Token>, i: nat, j: nat)
    requires |path| == |pools| + 1 && Connected(pools, path) && MatchesChain(chain, pools)
    requires i < j < |pools| && pools[i].Address() == pools[j].Address()
    ensures path[j] in {path[i], path[i + 1]} && path[j + 1] in {path[i], path[i + 1]}
  {
    assert pools[i].pair == pools[j].pair;
    assert pools[i].Has(path[i]) && pools[j].Has(path[j]);
  }

  /** What a found route quotes is what executing it hop by hop pays, if its own pools are V2 pairs
      and up to date; the other listed pools do not matter, and several of the listed objects may
      stand for one pool of the chain. */
  lemma FoundRoutesPayWhatTheyQuote(
    pools: seq<Pool>, chain: map<nat, Amm.UniswapV2Pair>,
    tokenIn: Token, tokenOut: Token, maxHops: int, r: RouteData, amountIn: int)
    requires tokenIn != tokenOut && r in RoutesFrom(pools, tokenOut, maxHops, [], [tokenIn])
    requires r.Valid() && MatchesChain(chain, r.pools)
    ensures match Output(r.pools, r.path, amountIn)
            case Ok(out) =>
              var live := ExecuteLive(chain, r.pools, r.path, amountIn);
              live.Ok? && live.value.0 == out
            case Err(e) => ExecuteLive(chain, r.pools, r.path, amountIn) == Err(e)
  {
    FindsExactlySimpleRoutes(pools, tokenIn, tokenOut, maxHops);
    forall i, j | 0 <= i < j < |r.pools|
      ensures r.pools[i].Address() != r.pools[j].Address()
    {
      if r.pools[i].Address() == r.pools[j].Address() {
        SameAddressSameTokens(chain, r.pools, r.path, i, j);
        assert false;
      }
    }
    FrozenEqualsLive(chain, r.pools, r.path, amountIn);
  }
}
