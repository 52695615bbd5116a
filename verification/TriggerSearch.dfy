/** The search started by a swap event: on a graph built from the registry, after a first hop. */
module TriggerSearch {
  import opened Bytes
  import opened Models
  import opened PathCodec
  import opened PathSearch
  import opened PathTheorems
  import opened StaticGraphs
  import opened Word256

  // ----- Registry graphs are searchable ---------------------------------------------------------------

  ghost predicate TwoTokens(included: seq<PoolEntry>) {
    forall k :: 0 <= k < |included| ==> included[k].token0 != included[k].token1
  }

  /** The graph of at most 4096 pools keeps every index of the search inside its arrays. */
  lemma RepresentedIsWellFormed(g: StaticGraph, included: seq<PoolEntry>)
    requires Represents(g, included) && |included| <= MAX_POOLS
    ensures WellFormed(g)
  {
    hide Inverts, Slice, Indexed, TokensOf, NoDuplicates;
    forall t | 0 <= t < |g.tokens| ensures SliceInside(g, t) { assert SliceAt(g, included, t); }
    forall i | 0 <= i < |g.edges| ensures g.edges[i].poolIdx < |g.pools| && g.edges[i].targetIdx < |g.tokens| {
      var t := SliceHolding(g, included, |g.tokens|, i);
      SliceEdgesInside(g, included, t, i);
    }
  }

  /** The token whose slice holds an edge position. */
  lemma {:induction false} SliceHolding(g: StaticGraph, included: seq<PoolEntry>, upTo: nat, i: nat) returns (t: nat)
    requires Represents(g, included) && upTo <= |g.tokens| && i < g.nodes[upTo]
    ensures t < |g.tokens| && g.nodes[t] <= i < g.nodes[t + 1]
    decreases upTo
  {
    hide Inverts, Slice, Indexed, TokensOf, NoDuplicates;
    if g.nodes[upTo - 1] <= i {
      t := upTo - 1;
    } else {
      t := SliceHolding(g, included, upTo - 1, i);
    }
  }

  lemma {:induction false} SliceEdgesInside(g: StaticGraph, included: seq<PoolEntry>, t: nat, i: nat)
    requires Represents(g, included) && t < |g.tokens|
    requires g.nodes[t] <= i < g.nodes[t + 1] && i < |g.edges|
    ensures g.edges[i].poolIdx < |g.pools| && g.edges[i].targetIdx < |g.tokens|
    ensures var leaving := EdgesOf(included, g.tokens[t]);
      && g.nodes[t + 1] - g.nodes[t] == |leaving|
      && leaving[i - g.nodes[t]].pool == g.pools[g.edges[i].poolIdx]
  {
    hide TokensOf, NoDuplicates, EdgesOf;
    assert SliceAt(g, included, t);
    var leaving := EdgesOf(included, g.tokens[t]);
    SliceElements(included, g.tokens[t], g.tokenToIdx, g.poolToIdx);
    var slice := Slice(included, g.tokens[t], g.tokenToIdx, g.poolToIdx);
    hide Slice, Indexed;
    var j := i - g.nodes[t];
    assert slice[j] == g.edges[i];
    assert leaving[j].pool in g.poolToIdx && leaving[j].pool in g.pools;
    assert leaving[j].tokenB in g.tokenToIdx && leaving[j].tokenB in g.tokens;
  }

  ghost predicate PoolsApart(edges: seq<PoolEdge>) {
    forall i, j :: 0 <= i < j < |edges| ==> edges[i].pool != edges[j].pool
  }

  lemma {:induction false} EdgePools(included: seq<PoolEntry>, token: Address, edge: PoolEdge)
    requires edge in EdgesOf(included, token)
    ensures exists k :: 0 <= k < |included| && included[k].pool == edge.pool
    decreases |included|
  {
    var init := included[..|included| - 1];
    if edge in EdgesOf(init, token) {
      EdgePools(init, token, edge);
      var k :| 0 <= k < |init| && init[k].pool == edge.pool;
      assert included[k].pool == edge.pool;
    } else {
      assert included[|included| - 1].pool == edge.pool;
    }
  }

  /** A token meets each pool once. */
  lemma {:induction false} LeavingPoolsApart(included: seq<PoolEntry>, token: Address)
    requires DistinctPools(included) && TwoTokens(included)
    ensures PoolsApart(EdgesOf(included, token))
    decreases |included|
  {
    if included != [] {
      var last := |included| - 1;
      var init := included[..last];
      LeavingPoolsApart(init, token);
      forall edge | edge in EdgesOf(init, token) ensures edge.pool != included[last].pool {
        EdgePools(init, token, edge);
        var k :| 0 <= k < |init| && init[k].pool == edge.pool;
        assert included[k].pool == edge.pool;
      }
    }
  }

  /** With two distinct tokens per pool, no pool has two edges in one slice. */
  lemma RepresentedIsDistinct(g: StaticGraph, included: seq<PoolEntry>)
    requires Represents(g, included) && TwoTokens(included)
    ensures DistinctEdges(g)
  {
    hide Slice, EdgesOf, TokensOf, Inverts, Indexed;
    PoolsDistinct(g, included);
    forall token: nat, i: nat, j: nat | InSlice(g, token, i) && InSlice(g, token, j) && i < j
      ensures g.edges[i].poolIdx != g.edges[j].poolIdx
    {
      LeavingPoolsApart(included, g.tokens[token]);
      SliceEdgesInside(g, included, token, i);
      SliceEdgesInside(g, included, token, j);
    }
  }

  // ----- Paths can be traded --------------------------------------------------------------------------

  /** A hop that trades in an included pool, from one of its two tokens to the other, on the curve the
      pool is mirrored with. */
  ghost predicate TradesIn(entry: PoolEntry, hop: Hop, stable: map<Address, bool>) {
    && hop.pool == entry.pool && hop.dexName == entry.dex
    && (if hop.tokenIn == entry.token0 then hop.tokenOut == entry.token1
        else hop.tokenIn == entry.token1 && hop.tokenOut == entry.token0)
    && (hop.zeroForOne <==> hop.tokenIn < hop.tokenOut)
    && (hop.isStable <==> entry.pool in stable && stable[entry.pool])
  }

  ghost predicate Tradable(included: seq<PoolEntry>, hop: Hop, stable: map<Address, bool>) {
    exists k :: 0 <= k < |included| && TradesIn(included[k], hop, stable)
  }

  lemma HopIsTradable(g: StaticGraph, included: seq<PoolEntry>, current: nat, i: nat, stable: map<Address, bool>)
    requires Represents(g, included) && TwoTokens(included) && WellFormed(g)
    requires current < |g.tokens| && InSlice(g, current, i)
    ensures Tradable(included, HopOf(g, current, i, stable), stable)
  {
    hide Slice, TokensOf, Inverts, Indexed, NoDuplicates, SliceAt;
    var edge := g.edges[i];
    SliceIsExact(g, included, current, edge);
    assert g.nodes[current + 1] <= |g.edges| by { assert SliceInside(g, current); }
    assert g.edges[g.nodes[current]..g.nodes[current + 1]][i - g.nodes[current]] == edge;
    assert TradesIn(included[edge.poolIdx], HopOf(g, current, i, stable), stable);
  }

  /** The hops of a walk over a registry graph form a trade: they start from the current token, each hop
      sells what the last one bought, each trades in an included pool, and the last buys the final token. */
  lemma {:induction false} WalksAreTrades(g: StaticGraph, included: seq<PoolEntry>, current: nat, walk: seq<nat>,
      stable: map<Address, bool>)
    requires Represents(g, included) && TwoTokens(included) && WellFormed(g) && current < |g.tokens|
    requires Connected(g, current, walk) && InRange(g, walk) && |walk| > 0
    ensures var hops := HopsOf(g, current, walk, stable);
      && hops[0].tokenIn == g.tokens[current]
      && hops[|hops| - 1].tokenOut == g.tokens[g.edges[walk[|walk| - 1]].targetIdx]
      && (forall k :: 0 <= k < |hops| ==> Tradable(included, hops[k], stable))
      && (forall k :: 0 < k < |hops| ==> hops[k].tokenIn == hops[k - 1].tokenOut)
    decreases walk
  {
    hide Represents, Tradable, TwoTokens;
    ConnectedTail(g, current, walk);
    HopIsTradable(g, included, current, walk[0], stable);
    var tail, next := walk[1..], g.edges[walk[0]].targetIdx;
    var hops := HopsOf(g, current, walk, stable);
    if tail == [] {
      assert hops == [HopOf(g, current, walk[0], stable)];
    } else {
      WalksAreTrades(g, included, next, tail, stable);
      assert hops == [HopOf(g, current, walk[0], stable)] + HopsOf(g, next, tail, stable);
    }
  }

  // ----- Paths are executed ---------------------------------------------------------------------------

  lemma {:induction false} SearchedTypes(g: StaticGraph, current: nat, walk: seq<nat>, stable: map<Address, bool>)
    requires WellFormed(g) && current < |g.tokens| && InRange(g, walk)
    ensures forall hop :: hop in HopsOf(g, current, walk, stable) ==> hop.dexType != MaverickV2
    decreases walk
  {
    if walk != [] { SearchedTypes(g, g.edges[walk[0]].targetIdx, walk[1..], stable); }
  }

  /** The contract skips nothing the search finds: when a found path is encoded, with at most 255 hops and
      loans, the contract reads as many hops as the path has, the same pools in the same order, and makes
      some call for each of them. */
  lemma FoundPathsAreExecuted(g: StaticGraph, prefix: seq<Hop>, current: nat, target: nat, visited: set<nat>,
      fuel: nat, stable: map<Address, bool>, p: Payload, tail: seq<byte>)
    requires WellFormed(g) && current < |g.tokens|
    requires p.hops in Found(g, prefix, current, target, visited, fuel, stable)
    requires forall hop :: hop in prefix ==> hop.dexType != MaverickV2
    requires |prefix| + fuel <= 255 && |p.loans| <= 255
    ensures var data := Encoded(p) + tail;
      && |DecodedHops(data)| == |p.hops|
      && (forall i :: 0 <= i < |p.hops| ==> DecodedHops(data)[i] == HopFields(p.hops[i]))
      && EveryHopSwaps(data)
  {
    hide WellFormed, Walks, HopOf, Encoded, DecodedHops;
    var walks := Walks(g, current, target, visited, fuel);
    var found := Found(g, prefix, current, target, visited, fuel, stable);
    var k :| 0 <= k < |found| && found[k] == p.hops;
    assert walks[k] in walks && InRange(g, walks[k]);
    WalksExact(g, current, target, visited, fuel, walks[k]);
    SearchedTypes(g, current, walks[k], stable);
    assert p.hops == prefix + HopsOf(g, current, walks[k], stable);
    EveryHopSwapsIff(p, tail);
    DecodesIff(p, tail);
  }

  /** The contract's call for the pools of an exchange. It has none for Maverick, and the last three names
      are venues for orders, under which no pool is registered. */
  function OwnCall(dex: DexName): Execution {
    match dex
    case UniswapV3 => SwapV3
    case Aerodrome => SwapAerodrome
    case UniswapV2 => SwapV2
    case SushiSwap => SwapV2
    case BaseSwap => SwapV2
    case PancakeSwap => SwapV2
    case _ => Skipped
  }

  /** Hops typed by the name of their exchange, as the search types them. */
  ghost predicate TypedByName(hops: seq<Hop>) {
    forall i :: 0 <= i < |hops| ==> hops[i].dexType == DexTypeOf(hops[i].dexName)
  }

  ghost predicate OnRegisteredExchanges(hops: seq<Hop>) {
    forall i :: 0 <= i < |hops| ==> hops[i].dexName !in {Permit2, CowSwap, UniswapX}
  }

  ghost predicate UsesOwnCalls(data: seq<byte>, hops: seq<Hop>)
    requires |DecodedHops(data)| == |hops|
  {
    forall i :: 0 <= i < |hops| ==> Executed(data, i) == OwnCall(hops[i].dexName)
  }

  lemma {:induction false} SearchedByName(g: StaticGraph, current: nat, walk: seq<nat>, stable: map<Address, bool>)
    requires WellFormed(g) && current < |g.tokens| && InRange(g, walk)
    ensures TypedByName(HopsOf(g, current, walk, stable))
    decreases walk
  {
    if walk != [] { SearchedByName(g, g.edges[walk[0]].targetIdx, walk[1..], stable); }
  }

  lemma CallsByName(p: Payload, tail: seq<byte>)
    requires TypedByName(p.hops) && |p.hops| <= 255 && |p.loans| <= 255
    ensures var data := Encoded(p) + tail;
      && |DecodedHops(data)| == |p.hops|
      && forall i :: 0 <= i < |p.hops| ==>
        var name := p.hops[i].dexName;
        && (name == Maverick ==> Executed(data, i) == SwapV2)
        && (name !in {Maverick, Permit2, CowSwap, UniswapX} ==> Executed(data, i) == OwnCall(name))
  {
    hide Encoded, DecodedHops, Executed;
    EveryHopSwapsIff(p, tail);
  }

  /** A pool registered as Maverick is searched like any other, but its hop is typed as a constant-product
      hop and executed by that call. So every hop of a found path is executed by the call of its own
      exchange exactly when none of them is in a Maverick pool. */
  lemma FoundPathsUseOwnCallsIff(g: StaticGraph, prefix: seq<Hop>, current: nat, target: nat, visited: set<nat>,
      fuel: nat, stable: map<Address, bool>, p: Payload, tail: seq<byte>)
    requires WellFormed(g) && current < |g.tokens|
    requires p.hops in Found(g, prefix, current, target, visited, fuel, stable)
    requires TypedByName(prefix) && OnRegisteredExchanges(p.hops)
    requires |prefix| + fuel <= 255 && |p.loans| <= 255
    ensures var data := Encoded(p) + tail;
      && |DecodedHops(data)| == |p.hops|
      && (UsesOwnCalls(data, p.hops) <==> forall hop :: hop in p.hops ==> hop.dexName != Maverick)
      && (forall i :: 0 <= i < |p.hops| && p.hops[i].dexName == Maverick ==> Executed(data, i) == SwapV2)
  {
    hide WellFormed, Walks, HopOf, Encoded, DecodedHops, Executed;
    var walks := Walks(g, current, target, visited, fuel);
    var found := Found(g, prefix, current, target, visited, fuel, stable);
    var k :| 0 <= k < |found| && found[k] == p.hops;
    assert walks[k] in walks && InRange(g, walks[k]);
    WalksExact(g, current, target, visited, fuel, walks[k]);
    SearchedByName(g, current, walks[k], stable);
    assert p.hops == prefix + HopsOf(g, current, walks[k], stable);
    CallsByName(p, tail);
    var data := Encoded(p) + tail;
    if UsesOwnCalls(data, p.hops) {
      forall hop | hop in p.hops ensures hop.dexName != Maverick {
        var i :| 0 <= i < |p.hops| && p.hops[i] == hop;
        assert Executed(data, i) == OwnCall(hop.dexName);
      }
    }
  }

  /** The pool of one Maverick edge, traded as a constant-product pool. */
  lemma MaverickHopIsMistyped(g: StaticGraph, current: nat, i: nat, stable: map<Address, bool>, tail: seq<byte>)
    requires WellFormed(g) && current < |g.tokens| && i < |g.edges| && g.edges[i].dex == Maverick
    ensures var data := Encoded(Payload(0, Balancer, [], [HopOf(g, current, i, stable)])) + tail;
      |DecodedHops(data)| == 1 && Executed(data, 0) == SwapV2 != OwnCall(Maverick)
  {
    hide Encoded, DecodedHops, Executed;
    CallsByName(Payload(0, Balancer, [], [HopOf(g, current, i, stable)]), tail);
  }

  // ----- The first hop --------------------------------------------------------------------------------

  /** The pools excluded after the first hop. */
  function Excluded(trigger: Option<nat>, first: nat): set<nat> {
    (if trigger.Some? then {trigger.value} else {}) + {first}
  }

  /** One search branch of an event: mark the pool that triggered it, make the first hop, and search on
      unless that hop already arrives. */
  method PathsAfterFirstHop(g: StaticGraph, start: nat, current: nat, i: nat, trigger: Option<nat>,
      stable: map<Address, bool>, maxPathLength: nat)
    returns (paths: seq<seq<Hop>>)
    requires WellFormed(g) && current < |g.tokens| && i < |g.edges|
    requires trigger.Some? ==> trigger.value < |g.pools|
    ensures var edge, hop := g.edges[i], HopOf(g, current, i, stable);
      paths == if edge.targetIdx == start then [[hop]]
        else Found(g, [hop], edge.targetIdx, start, Excluded(trigger, edge.poolIdx), Fuel(2, maxPathLength), stable)
  {
    hide HopOf, Paths, Walks;
    var search := new Search();
    if trigger.Some? { search.Mark(trigger.value); }
    var edge := g.edges[i];
    search.currentHops := search.currentHops + [HopOf(g, current, i, stable)];
    assert search.currentHops == [HopOf(g, current, i, stable)];
    search.Mark(edge.poolIdx);
    assert search.Visited() == Excluded(trigger, edge.poolIdx);
    if edge.targetIdx == start {
      search.results := search.results + [search.currentHops];
    } else {
      search.FindCyclesDfs(g, edge.targetIdx, start, stable, 2, maxPathLength);
    }
    paths := search.results;
  }

  /** No edge of a walk but perhaps the first uses the trigger pool. */
  ghost predicate LaterAvoid(g: StaticGraph, walk: seq<nat>, trigger: Option<nat>) {
    trigger.Some? ==> forall k :: 0 < k < |walk| && walk[k] < |g.edges| ==> g.edges[walk[k]].poolIdx != trigger.value
  }

  /** The paths of a branch: exactly the walks that begin with the first edge, reach the start token with
      their last edge only, use no pool twice, do not use the trigger pool after that first edge, and have
      at most maxPathLength hops. */
  lemma {:induction false} FirstHopWalks(g: StaticGraph, start: nat, current: nat, i: nat, trigger: Option<nat>,
      walk: seq<nat>, maxPathLength: nat)
    requires WellFormed(g) && current < |g.tokens| && InSlice(g, current, i) && g.edges[i].targetIdx != start
    ensures var edge := g.edges[i];
      walk in Walks(g, edge.targetIdx, start, Excluded(trigger, edge.poolIdx), Fuel(2, maxPathLength))
      <==> |[i] + walk| <= maxPathLength && IsWalk(g, current, start, {}, [i] + walk)
           && LaterAvoid(g, [i] + walk, trigger)
  {
    hide IsWalk, Walks;
    var edge, whole := g.edges[i], [i] + walk;
    var excluded := Excluded(trigger, edge.poolIdx);
    assert whole[1..] == walk && {} + {edge.poolIdx} == {edge.poolIdx};
    WalksExact(g, edge.targetIdx, start, excluded, Fuel(2, maxPathLength), walk);
    WalkAvoids(g, edge.targetIdx, start, {edge.poolIdx}, trigger, walk);
    if IsWalk(g, current, start, {}, whole) { WalkUnrolls(g, current, start, {}, whole); }
    if Unrolled(g, current, start, {}, whole) { UnrolledIsWalk(g, current, start, {}, whole); }
    if walk == [] { EmptyIsNoWalk(g, edge.targetIdx, start, excluded); }
    forall k | 0 < k < |whole| ensures whole[k] == walk[k - 1] {}
    forall k | 0 <= k < |walk| ensures walk[k] == whole[k + 1] {}
  }

  lemma EmptyIsNoWalk(g: StaticGraph, current: nat, target: nat, visited: set<nat>)
    ensures !IsWalk(g, current, target, visited, [])
  {
  }

  /** Excluding one more pool removes the walks that use it. */
  lemma WalkAvoids(g: StaticGraph, current: nat, target: nat, visited: set<nat>, trigger: Option<nat>, walk: seq<nat>)
    ensures IsWalk(g, current, target, (if trigger.Some? then {trigger.value} else {}) + visited, walk)
      <==> && IsWalk(g, current, target, visited, walk)
           && (trigger.Some? ==>
                 forall k :: 0 <= k < |walk| && walk[k] < |g.edges| ==> g.edges[walk[k]].poolIdx != trigger.value)
  {
  }

  /** The depth of a search counts its hops: with the first hop at depth one, a walk found from some depth
      ends at the greatest depth or before. */
  lemma {:induction false} SearchIsDepthBounded(g: StaticGraph, current: nat, target: nat, visited: set<nat>,
      depth: nat, maxDepth: nat, walk: seq<nat>)
    requires WellFormed(g) && current < |g.tokens|
    ensures walk in Walks(g, current, target, visited, Fuel(depth, maxDepth))
      <==> depth + |walk| - 1 <= maxDepth && IsWalk(g, current, target, visited, walk)
  {
    hide IsWalk, Walks;
    WalksExact(g, current, target, visited, Fuel(depth, maxDepth), walk);
    if walk == [] { EmptyIsNoWalk(g, current, target, visited); }
  }
}
