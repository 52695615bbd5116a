/** Depth-bounded search for paths between two tokens, over pools that are not yet visited. */
module PathSearch {
  import opened Bits
  import opened Models
  import opened StaticGraphs

  const MAX_POOLS: nat := 4096

  /** A graph whose indices stay inside its arrays, and whose pools fit the visited bitset. */
  ghost predicate WellFormed(g: StaticGraph) {
    && |g.pools| <= MAX_POOLS && |g.nodes| == |g.tokens| + 1
    && (forall t :: 0 <= t < |g.tokens| ==> SliceInside(g, t))
    && forall i :: 0 <= i < |g.edges| ==> g.edges[i].poolIdx < |g.pools| && g.edges[i].targetIdx < |g.tokens|
  }

  ghost predicate SliceInside(g: StaticGraph, t: nat)
    requires t + 1 < |g.nodes|
  {
    g.nodes[t] <= g.nodes[t + 1] <= |g.edges|
  }

  // ----- Walks --------------------------------------------------------------------------------------

  ghost predicate InSlice(g: StaticGraph, token: nat, i: nat) {
    token + 1 < |g.nodes| && g.nodes[token] <= i < g.nodes[token + 1] && i < |g.edges|
  }

  /** The token a walk stands on before its k-th edge. */
  function Standing(g: StaticGraph, current: nat, walk: seq<nat>, k: nat): nat
    requires k <= |walk| && forall j :: 0 <= j < k ==> walk[j] < |g.edges|
  {
    if k == 0 then current else g.edges[walk[k - 1]].targetIdx
  }

  /** A walk from current to target, as edge positions: consecutive, over pairwise distinct and initially
      unvisited pools, reaching the target with its last edge and not before. */
  ghost predicate IsWalk(g: StaticGraph, current: nat, target: nat, visited: set<nat>, walk: seq<nat>) {
    && |walk| > 0
    && (forall k :: 0 <= k < |walk| ==> walk[k] < |g.edges|)
    && (forall k :: 0 <= k < |walk| ==> InSlice(g, Standing(g, current, walk, k), walk[k]))
    && (forall k :: 0 <= k < |walk| ==> g.edges[walk[k]].poolIdx !in visited)
    && (forall j, k :: 0 <= j < k < |walk| ==> g.edges[walk[j]].poolIdx != g.edges[walk[k]].poolIdx)
    && (forall k :: 0 <= k < |walk| ==> (g.edges[walk[k]].targetIdx == target <==> k == |walk| - 1))
  }

  /** The walks of at most fuel edges, in the order the search meets them. */
  function Walks(g: StaticGraph, current: nat, target: nat, visited: set<nat>, fuel: nat): (walks: seq<seq<nat>>)
    requires WellFormed(g) && current < |g.tokens|
    ensures AllInRange(g, walks)
    decreases fuel, 0, 0
  {
    if fuel == 0 then []
    else
      assert SliceInside(g, current);
      WalksFrom(g, g.nodes[current], g.nodes[current + 1], target, visited, fuel)
  }

  /** Those whose first edge lies between two positions. */
  function WalksFrom(g: StaticGraph, i: nat, end: nat, target: nat, visited: set<nat>,
      fuel: nat): (walks: seq<seq<nat>>)
    requires WellFormed(g) && i <= end <= |g.edges| && fuel > 0
    ensures AllInRange(g, walks)
    decreases fuel - 1, 1, end - i
  {
    if i == end then []
    else WalksVia(g, i, target, visited, fuel) + WalksFrom(g, i + 1, end, target, visited, fuel)
  }

  function WalksVia(g: StaticGraph, i: nat, target: nat, visited: set<nat>, fuel: nat): (walks: seq<seq<nat>>)
    requires WellFormed(g) && i < |g.edges| && fuel > 0
    ensures AllInRange(g, walks)
    decreases fuel - 1, 1, 0
  {
    var edge := g.edges[i];
    if edge.poolIdx in visited then []
    else if edge.targetIdx == target then [[i]]
    else PrependAll(i, Walks(g, edge.targetIdx, target, visited + {edge.poolIdx}, fuel - 1))
  }

  function PrependAll(i: nat, walks: seq<seq<nat>>): (r: seq<seq<nat>>)
    ensures |r| == |walks|
  {
    seq(|walks|, k requires 0 <= k < |walks| => [i] + walks[k])
  }

  // ----- Hops ---------------------------------------------------------------------------------------

  function DexTypeOf(name: DexName): DexType {
    match name
    case Aerodrome => DexType.Aerodrome
    case UniswapV3 => DexType.UniswapV3
    case _ => DexType.UniswapV2
  }

  function IsStable(stable: map<Address, bool>, pool: Address): bool { if pool in stable then stable[pool] else false }

  function HopOf(g: StaticGraph, current: nat, i: nat, stable: map<Address, bool>): Hop
    requires WellFormed(g) && current < |g.tokens| && i < |g.edges|
  {
    var edge := g.edges[i];
    var pool, tokenIn, tokenOut := g.pools[edge.poolIdx], g.tokens[current], g.tokens[edge.targetIdx];
    Hop(pool, tokenIn, tokenOut, DexTypeOf(edge.dex), edge.dex, tokenIn < tokenOut, IsStable(stable, pool))
  }

  ghost predicate InRange(g: StaticGraph, walk: seq<nat>) { forall k :: 0 <= k < |walk| ==> walk[k] < |g.edges| }

  /** The hops of a walk. */
  function HopsOf(g: StaticGraph, current: nat, walk: seq<nat>, stable: map<Address, bool>): (hops: seq<Hop>)
    requires WellFormed(g) && current < |g.tokens| && InRange(g, walk)
    ensures |hops| == |walk|
    decreases walk
  {
    if walk == [] then []
    else [HopOf(g, current, walk[0], stable)] + HopsOf(g, g.edges[walk[0]].targetIdx, walk[1..], stable)
  }

  ghost predicate AllInRange(g: StaticGraph, walks: seq<seq<nat>>) {
    forall k :: 0 <= k < |walks| ==> InRange(g, walks[k])
  }

  /** Each walk as a path, after the hops already made. */
  function Paths(g: StaticGraph, prefix: seq<Hop>, current: nat, walks: seq<seq<nat>>,
      stable: map<Address, bool>): (r: seq<seq<Hop>>)
    requires WellFormed(g) && current < |g.tokens| && AllInRange(g, walks)
    ensures |r| == |walks|
  {
    seq(|walks|, k requires 0 <= k < |walks| => prefix + HopsOf(g, current, walks[k], stable))
  }

  // ----- The visited bitset ---------------------------------------------------------------------------

  ghost predicate ValidWords(words: seq<nat>) {
    |words| == 64 && forall w :: 0 <= w < 64 ==> words[w] < Pow2(64)
  }

  predicate Marked(words: seq<nat>, pool: nat)
    requires |words| == 64 && pool < MAX_POOLS
  {
    Bit(words[pool / 64], pool % 64)
  }

  ghost function VisitedSet(words: seq<nat>): set<nat>
    requires |words| == 64
  {
    set p: nat | p < MAX_POOLS && Marked(words, p)
  }

  function WithBit(word: nat, bit: nat): nat { Or(word, Pow2(bit)) }

  function WithoutBit(word: nat, bit: nat): nat
    requires bit < 64
  {
    SingleBitFits(bit);
    And(word, Complement(64, Pow2(bit)))
  }

  lemma {:induction false} SingleBitFits(bit: nat)
    requires bit < 64
    ensures Pow2(bit) < Pow2(64)
  {
    Pow2Mono(bit + 1, 64);
  }

  lemma {:induction false} SetThenClear(word: nat, bit: nat)
    requires word < Pow2(64) && bit < 64
    ensures WithBit(word, bit) < Pow2(64)
    ensures !Bit(word, bit) ==> WithoutBit(WithBit(word, bit), bit) == word
  {
    hide Or, And, Complement, Bit, Pow2;
    SingleBitFits(bit);
    OrBelow(word, Pow2(bit), 64);
    if !Bit(word, bit) {
      var cleared := WithoutBit(WithBit(word, bit), bit);
      forall i: nat ensures Bit(cleared, i) <==> Bit(word, i) {
        AndBit(WithBit(word, bit), Complement(64, Pow2(bit)), i);
        OrBit(word, Pow2(bit), i);
        SingleBit(bit, i);
        ComplementBit(64, Pow2(bit), i);
        if Bit(word, i) { BitsBelowWidth(word, 64, i); }
      }
      SameBits(cleared, word);
    }
  }

  lemma MarkOne(words: seq<nat>, pool: nat)
    requires ValidWords(words) && pool < MAX_POOLS
    ensures var marked := words[pool / 64 := WithBit(words[pool / 64], pool % 64)];
      ValidWords(marked) && VisitedSet(marked) == VisitedSet(words) + {pool}
  {
    hide Or, Bit, Pow2;
    var marked := words[pool / 64 := WithBit(words[pool / 64], pool % 64)];
    SetThenClear(words[pool / 64], pool % 64);
    forall p: nat | p < MAX_POOLS ensures Marked(marked, p) <==> Marked(words, p) || p == pool {
      OrBit(words[pool / 64], Pow2(pool % 64), p % 64);
      SingleBit(pool % 64, p % 64);
    }
  }

  // ----- The search -----------------------------------------------------------------------------------

  function Fuel(depth: nat, maxDepth: nat): nat { if depth > maxDepth then 0 else maxDepth + 1 - depth }

  /** The paths the search adds, each after the hops it was entered with. */
  function Found(g: StaticGraph, prefix: seq<Hop>, current: nat, target: nat, visited: set<nat>, fuel: nat,
      stable: map<Address, bool>): seq<seq<Hop>>
    requires WellFormed(g) && current < |g.tokens|
  {
    Paths(g, prefix, current, Walks(g, current, target, visited, fuel), stable)
  }

  lemma PathsConcat(g: StaticGraph, prefix: seq<Hop>, current: nat, a: seq<seq<nat>>, b: seq<seq<nat>>,
      stable: map<Address, bool>)
    requires WellFormed(g) && current < |g.tokens| && AllInRange(g, a) && AllInRange(g, b) && AllInRange(g, a + b)
    ensures Paths(g, prefix, current, a + b, stable)
      == Paths(g, prefix, current, a, stable) + Paths(g, prefix, current, b, stable)
  {
    hide WellFormed;
  }

  lemma PathsOfEdge(g: StaticGraph, prefix: seq<Hop>, current: nat, i: nat, stable: map<Address, bool>)
    requires WellFormed(g) && current < |g.tokens| && i < |g.edges| && AllInRange(g, [[i]])
    ensures Paths(g, prefix, current, [[i]], stable) == [prefix + [HopOf(g, current, i, stable)]]
  {
    assert HopsOf(g, current, [i], stable) == [HopOf(g, current, i, stable)];
  }

  lemma PathsVia(g: StaticGraph, prefix: seq<Hop>, current: nat, i: nat, walks: seq<seq<nat>>,
      stable: map<Address, bool>)
    requires WellFormed(g) && current < |g.tokens| && i < |g.edges|
    requires AllInRange(g, walks) && AllInRange(g, PrependAll(i, walks))
    ensures Paths(g, prefix, current, PrependAll(i, walks), stable)
      == Paths(g, prefix + [HopOf(g, current, i, stable)], g.edges[i].targetIdx, walks, stable)
  {
    var hop, next := HopOf(g, current, i, stable), g.edges[i].targetIdx;
    forall k | 0 <= k < |walks|
      ensures prefix + HopsOf(g, current, [i] + walks[k], stable) == prefix + [hop] + HopsOf(g, next, walks[k], stable)
    {
      assert ([i] + walks[k])[1..] == walks[k];
      assert HopsOf(g, current, [i] + walks[k], stable) == [hop] + HopsOf(g, next, walks[k], stable);
    }
  }

  /** The mutable state of a search: the hops made so far, the visited bitset, and the paths found. */
  class Search {
    var currentHops: seq<Hop>
    const visitedPools: array<nat>
    var results: seq<seq<Hop>>

    ghost predicate Valid()
      reads this, visitedPools
    {
      visitedPools.Length == 64 && ValidWords(visitedPools[..])
    }

    ghost function Visited(): set<nat>
      reads this, visitedPools
      requires Valid()
    {
      VisitedSet(visitedPools[..])
    }

    constructor ()
      ensures Valid() && fresh(visitedPools) && Visited() == {} && currentHops == [] && results == []
    {
      visitedPools := new nat[64](_ => 0);
      currentHops, results := [], [];
      new;
      forall p: nat | p < MAX_POOLS ensures !Marked(visitedPools[..], p) { ZeroBit(p % 64); }
    }

    /** Sets the bit of a pool. */
    method Mark(pool: nat)
      requires Valid() && pool < MAX_POOLS
      modifies visitedPools
      ensures Valid() && Visited() == old(Visited()) + {pool}
      ensures visitedPools[..] == old(visitedPools[..])[pool / 64 := WithBit(old(visitedPools[pool / 64]), pool % 64)]
    {
      MarkOne(visitedPools[..], pool);
      visitedPools[pool / 64] := WithBit(visitedPools[pool / 64], pool % 64);
    }

    /** Appends every path from current to target over unvisited pools within the depth bound, once each
        and in order, and leaves the hops and the bitset exactly as they were. */
    method FindCyclesDfs(g: StaticGraph, current: nat, target: nat, stable: map<Address, bool>, depth: nat,
        maxDepth: nat)
      requires Valid() && WellFormed(g) && current < |g.tokens|
      modifies this, visitedPools
      ensures Valid()
      ensures currentHops == old(currentHops) && visitedPools[..] == old(visitedPools[..])
      ensures results == old(results)
        + Found(g, old(currentHops), current, target, old(Visited()), Fuel(depth, maxDepth), stable)
      decreases Fuel(depth, maxDepth), 1
    {
      hide WalksVia, Paths;
      if depth > maxDepth { return; }
      assert SliceInside(g, current);
      var start, end := g.nodes[current], g.nodes[current + 1];
      ghost var hops, words, found := currentHops, visitedPools[..], results;
      ghost var visited, fuel := VisitedSet(words), Fuel(depth, maxDepth);
      for i := start to end
        invariant Valid() && currentHops == hops && visitedPools[..] == words
        invariant results + Paths(g, hops, current, WalksFrom(g, i, end, target, visited, fuel), stable)
          == found + Found(g, hops, current, target, visited, fuel, stable)
      {
        PathsConcat(g, hops, current, WalksVia(g, i, target, visited, fuel),
          WalksFrom(g, i + 1, end, target, visited, fuel), stable);
        FollowEdge(g, current, i, target, stable, depth, maxDepth);
      }
      NoPathsAtEnd(g, hops, current, end, target, visited, fuel, stable);
    }

    /** The body of the search's loop: one edge, if its pool is unvisited. */
    method FollowEdge(g: StaticGraph, current: nat, i: nat, target: nat, stable: map<Address, bool>, depth: nat,
        maxDepth: nat)
      requires Valid() && WellFormed(g) && current < |g.tokens| && i < |g.edges| && depth <= maxDepth
      modifies this, visitedPools
      ensures Valid()
      ensures currentHops == old(currentHops) && visitedPools[..] == old(visitedPools[..])
      ensures results == old(results)
        + Paths(g, old(currentHops), current, WalksVia(g, i, target, old(Visited()), Fuel(depth, maxDepth)), stable)
      decreases Fuel(depth, maxDepth), 0
    {
      hide HopOf, Pow2, Paths, Walks;
      var edge := g.edges[i];
      ghost var hops, words := currentHops, visitedPools[..];
      ghost var visited := VisitedSet(words);
      assert edge.poolIdx in visited <==> Marked(words, edge.poolIdx);
      if Bit(visitedPools[edge.poolIdx / 64], edge.poolIdx % 64) {
        NoPaths(g, hops, current, stable);
        return;
      }
      currentHops := currentHops + [HopOf(g, current, i, stable)];
      SetThenClear(words[edge.poolIdx / 64], edge.poolIdx % 64);
      Mark(edge.poolIdx);
      if edge.targetIdx == target && |currentHops| >= 1 {
        PathsOfEdge(g, hops, current, i, stable);
        results := results + [currentHops];
      } else {
        PathsVia(g, hops, current, i,
          Walks(g, edge.targetIdx, target, visited + {edge.poolIdx}, Fuel(depth + 1, maxDepth)), stable);
        FindCyclesDfs(g, edge.targetIdx, target, stable, depth + 1, maxDepth);
      }
      visitedPools[edge.poolIdx / 64] := WithoutBit(visitedPools[edge.poolIdx / 64], edge.poolIdx % 64);
      currentHops := currentHops[..|currentHops| - 1];
      assert visitedPools[..] == words;
    }
  }

  lemma NoPaths(g: StaticGraph, prefix: seq<Hop>, current: nat, stable: map<Address, bool>)
    requires WellFormed(g) && current < |g.tokens|
    ensures Paths(g, prefix, current, [], stable) == []
  {
  }

  lemma {:induction false} NoPathsAtEnd(g: StaticGraph, prefix: seq<Hop>, current: nat, end: nat, target: nat,
      visited: set<nat>, fuel: nat,
      stable: map<Address, bool>)
    requires WellFormed(g) && current < |g.tokens| && end <= |g.edges| && fuel > 0
    ensures Paths(g, prefix, current, WalksFrom(g, end, end, target, visited, fuel), stable) == []
  {
  }
}
