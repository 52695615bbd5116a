/** The compressed token graph: per-token edge slices behind an offset array, built from the included
    pools of the registry. */
module StaticGraphs {
  import opened Models

  /** A registered pool that passed the selection. */
  datatype PoolEntry = PoolEntry(pool: Address, token0: Address, token1: Address, dex: DexName)

  datatype PoolEdge = PoolEdge(pool: Address, tokenB: Address, dex: DexName)

  datatype StaticEdge = StaticEdge(poolIdx: nat, targetIdx: nat, dex: DexName)

  datatype StaticGraph = StaticGraph(
    tokens: seq<Address>, tokenToIdx: map<Address, nat>,
    pools: seq<Address>, poolToIdx: map<Address, nat>,
    nodes: seq<nat>, edges: seq<StaticEdge>)

  // ----- What the graph stands for ------------------------------------------------------------------

  /** The edges one pool contributes to a token: toward token1, toward token0, or none. */
  function EdgesOfPool(entry: PoolEntry, token: Address): seq<PoolEdge> {
    (if entry.token0 == token then [PoolEdge(entry.pool, entry.token1, entry.dex)] else [])
    + (if entry.token1 == token then [PoolEdge(entry.pool, entry.token0, entry.dex)] else [])
  }

  /** The edges leaving a token, in registry order. */
  function EdgesOf(included: seq<PoolEntry>, token: Address): seq<PoolEdge> {
    if included == [] then []
    else EdgesOf(included[..|included| - 1], token) + EdgesOfPool(included[|included| - 1], token)
  }

  function TokensOf(included: seq<PoolEntry>): set<Address> {
    (set e | e in included :: e.token0) + (set e | e in included :: e.token1)
  }

  ghost predicate DistinctPools(included: seq<PoolEntry>) {
    forall i, j :: 0 <= i < j < |included| ==> included[i].pool != included[j].pool
  }

  ghost predicate NoDuplicates<T>(s: seq<T>) {
    forall i, j :: 0 <= i < j < |s| ==> s[i] != s[j]
  }

  /** A map from elements to positions is the inverse of a sequence. */
  ghost predicate Inverts(index: map<Address, nat>, s: seq<Address>) {
    && (forall i :: 0 <= i < |s| ==> s[i] in index && index[s[i]] == i)
    && (forall a :: a in index ==> a in s)
  }

  function Translate(edges: seq<PoolEdge>, tokenToIdx: map<Address, nat>, poolToIdx: map<Address, nat>): seq<StaticEdge>
    requires forall e :: e in edges ==> e.pool in poolToIdx && e.tokenB in tokenToIdx
  {
    seq(|edges|, i requires 0 <= i < |edges| =>
      StaticEdge(poolToIdx[edges[i].pool], tokenToIdx[edges[i].tokenB], edges[i].dex))
  }

  ghost predicate Indexed(included: seq<PoolEntry>, tokenToIdx: map<Address, nat>, poolToIdx: map<Address, nat>) {
    forall i :: 0 <= i < |included| ==>
      included[i].pool in poolToIdx && included[i].token0 in tokenToIdx && included[i].token1 in tokenToIdx
  }

  lemma {:induction false} EdgesIndexed(included: seq<PoolEntry>, token: Address, tokenToIdx: map<Address, nat>,
      poolToIdx: map<Address, nat>)
    requires Indexed(included, tokenToIdx, poolToIdx)
    ensures forall e :: e in EdgesOf(included, token) ==> e.pool in poolToIdx && e.tokenB in tokenToIdx
    decreases |included|
  {
    if included != [] { EdgesIndexed(included[..|included| - 1], token, tokenToIdx, poolToIdx); }
  }

  /** The slice of one token. */
  function Slice(included: seq<PoolEntry>, token: Address, tokenToIdx: map<Address, nat>,
      poolToIdx: map<Address, nat>): seq<StaticEdge>
    requires Indexed(included, tokenToIdx, poolToIdx)
  {
    EdgesIndexed(included, token, tokenToIdx, poolToIdx);
    Translate(EdgesOf(included, token), tokenToIdx, poolToIdx)
  }

  /** The graph equals the registry it indexes. */
  ghost predicate Represents(g: StaticGraph, included: seq<PoolEntry>) {
    && NoDuplicates(g.tokens) && (forall t :: t in g.tokens <==> t in TokensOf(included))
    && Inverts(g.tokenToIdx, g.tokens)
    && |g.pools| == |included| && (forall i :: 0 <= i < |included| ==> g.pools[i] == included[i].pool)
    && Inverts(g.poolToIdx, g.pools)
    && Indexed(included, g.tokenToIdx, g.poolToIdx)
    && Compressed(g, included)
  }

  /** The offsets start at zero, never decrease, end at the edge count, and cut out each token's slice. */
  ghost predicate Compressed(g: StaticGraph, included: seq<PoolEntry>)
    requires Indexed(included, g.tokenToIdx, g.poolToIdx)
  {
    && |g.nodes| == |g.tokens| + 1 && g.nodes[0] == 0 && g.nodes[|g.tokens|] == |g.edges|
    && forall i :: 0 <= i < |g.tokens| ==> SliceAt(g, included, i)
  }

  ghost predicate SliceAt(g: StaticGraph, included: seq<PoolEntry>, i: nat)
    requires Indexed(included, g.tokenToIdx, g.poolToIdx) && i < |g.tokens| < |g.nodes|
  {
    && g.nodes[i] <= g.nodes[i + 1] <= |g.edges|
    && g.edges[g.nodes[i]..g.nodes[i + 1]] == Slice(included, g.tokens[i], g.tokenToIdx, g.poolToIdx)
  }

  // ----- Building it --------------------------------------------------------------------------------

  function Lookup(adj: map<Address, seq<PoolEdge>>, token: Address): seq<PoolEdge> {
    if token in adj then adj[token] else []
  }

  /** Appends an edge to the list of a token, creating the list when it is missing. */
  function Push(adj: map<Address, seq<PoolEdge>>, token: Address, edge: PoolEdge): map<Address, seq<PoolEdge>> {
    adj[token := Lookup(adj, token) + [edge]]
  }

  lemma PushBoth(adj: map<Address, seq<PoolEdge>>, entry: PoolEntry)
    ensures var once := Push(adj, entry.token0, PoolEdge(entry.pool, entry.token1, entry.dex));
      var twice := Push(once, entry.token1, PoolEdge(entry.pool, entry.token0, entry.dex));
      forall t :: Lookup(twice, t) == Lookup(adj, t) + EdgesOfPool(entry, t)
  {
  }

  /** The concatenation of the slices of the first tokens. */
  function FlatEdges(included: seq<PoolEntry>, tokens: seq<Address>, tokenToIdx: map<Address, nat>,
      poolToIdx: map<Address, nat>): seq<StaticEdge>
    requires Indexed(included, tokenToIdx, poolToIdx)
    decreases |tokens|
  {
    if tokens == [] then []
    else
      FlatEdges(included, tokens[..|tokens| - 1], tokenToIdx, poolToIdx)
      + Slice(included, tokens[|tokens| - 1], tokenToIdx, poolToIdx)
  }

  method CollectEdges(included: seq<PoolEntry>)
    returns (adj: map<Address, seq<PoolEdge>>, tokensSet: set<Address>, poolList: seq<Address>)
    ensures forall t :: Lookup(adj, t) == EdgesOf(included, t)
    ensures tokensSet == TokensOf(included)
    ensures |poolList| == |included| && forall i :: 0 <= i < |included| ==> poolList[i] == included[i].pool
  {
    hide EdgesOfPool, Push, Lookup, TokensOf, EdgesOf;
    NothingIncluded();
    adj, tokensSet, poolList := map[], {}, [];
    for i := 0 to |included|
      invariant forall t :: Lookup(adj, t) == EdgesOf(included[..i], t)
      invariant tokensSet == TokensOf(included[..i])
      invariant |poolList| == i && forall j :: 0 <= j < i ==> poolList[j] == included[j].pool
    {
      var entry := included[i];
      OneMoreEntry(included, i);
      poolList := poolList + [entry.pool];
      tokensSet := tokensSet + {entry.token0};
      tokensSet := tokensSet + {entry.token1};
      PushBoth(adj, entry);
      adj := Push(adj, entry.token0, PoolEdge(entry.pool, entry.token1, entry.dex));
      adj := Push(adj, entry.token1, PoolEdge(entry.pool, entry.token0, entry.dex));
    }
    assert included[..|included|] == included;
  }

  lemma NothingIncluded()
    ensures TokensOf([]) == {} && forall t :: Lookup(map[], t) == EdgesOf([], t)
  {
  }

  lemma OneMoreEntry(included: seq<PoolEntry>, i: nat)
    requires i < |included|
    ensures TokensOf(included[..i + 1]) == TokensOf(included[..i]) + {included[i].token0, included[i].token1}
    ensures forall t :: EdgesOf(included[..i + 1], t) == EdgesOf(included[..i], t) + EdgesOfPool(included[i], t)
  {
    assert included[..i + 1] == included[..i] + [included[i]];
    assert included[..i + 1][..i] == included[..i];
  }

  /** The elements of a set, in some order. */
  method Listed(s: set<Address>) returns (list: seq<Address>)
    ensures NoDuplicates(list) && forall t :: t in list <==> t in s
  {
    list := [];
    var rest := s;
    while rest != {}
      invariant rest <= s && NoDuplicates(list)
      invariant forall t :: t in list <==> t in s && t !in rest
      decreases |rest|
    {
      var t :| t in rest;
      list := list + [t];
      rest := rest - {t};
    }
  }

  /** The position of every element. */
  method IndexOf(list: seq<Address>) returns (index: map<Address, nat>)
    requires NoDuplicates(list)
    ensures Inverts(index, list)
  {
    index := map[];
    for i := 0 to |list|
      invariant forall j :: 0 <= j < i ==> list[j] in index && index[list[j]] == j
      invariant forall a :: a in index ==> a in list[..i]
    {
      index := index[list[i] := i];
    }
  }

  method Compress(included: seq<PoolEntry>, adj: map<Address, seq<PoolEdge>>, tokens: seq<Address>,
      tokenToIdx: map<Address, nat>, poolToIdx: map<Address, nat>)
    returns (nodes: seq<nat>, edges: seq<StaticEdge>)
    requires Indexed(included, tokenToIdx, poolToIdx) && forall t :: Lookup(adj, t) == EdgesOf(included, t)
    ensures edges == FlatEdges(included, tokens, tokenToIdx, poolToIdx)
    ensures |nodes| == |tokens| + 1
      && forall j :: 0 <= j < |nodes| ==> nodes[j] == |FlatEdges(included, tokens[..j], tokenToIdx, poolToIdx)|
  {
    hide EdgesOf, Translate, Slice, Lookup;
    nodes, edges := [], [];
    var currentOffset := 0;
    for k := 0 to |tokens|
      invariant |nodes| == k && currentOffset == |edges|
      invariant edges == FlatEdges(included, tokens[..k], tokenToIdx, poolToIdx)
      invariant forall j :: 0 <= j < k ==> nodes[j] == |FlatEdges(included, tokens[..j], tokenToIdx, poolToIdx)|
    {
      var token := tokens[k];
      nodes := nodes + [currentOffset];
      var leaving := Lookup(adj, token);
      ghost var before := edges;
      ghost var slice := Slice(included, token, tokenToIdx, poolToIdx);
      SliceElements(included, token, tokenToIdx, poolToIdx);
      for j := 0 to |leaving|
        invariant currentOffset == |edges| && edges == before + slice[..j]
      {
        edges := edges + [StaticEdge(poolToIdx[leaving[j].pool], tokenToIdx[leaving[j].tokenB], leaving[j].dex)];
        currentOffset := currentOffset + 1;
      }
      assert tokens[..k + 1][..k] == tokens[..k];
      assert slice[..|slice|] == slice;
    }
    nodes := nodes + [currentOffset];
    assert tokens[..|tokens|] == tokens;
  }

  method RebuildGraph(included: seq<PoolEntry>) returns (g: StaticGraph)
    requires DistinctPools(included)
    ensures Represents(g, included)
  {
    hide EdgesOf, TokensOf, Inverts, Slice, FlatEdges, Lookup;
    var adj, tokensSet, poolList := CollectEdges(included);
    var tokens := Listed(tokensSet);
    var tokenToIdx := IndexOf(tokens);
    var poolToIdx := IndexOf(poolList);
    AllIndexed(included, tokens, tokenToIdx, poolList, poolToIdx);
    var nodes, edges := Compress(included, adj, tokens, tokenToIdx, poolToIdx);
    g := StaticGraph(tokens, tokenToIdx, poolList, poolToIdx, nodes, edges);
    assert tokens[..|tokens|] == tokens;
    NothingFlat(included, tokens, tokenToIdx, poolToIdx);
    forall i | 0 <= i < |tokens| ensures SliceAt(g, included, i) {
      FlatSlice(included, tokens, i, tokenToIdx, poolToIdx);
    }
  }

  lemma AllIndexed(included: seq<PoolEntry>, tokens: seq<Address>, tokenToIdx: map<Address, nat>,
      poolList: seq<Address>, poolToIdx: map<Address, nat>)
    requires forall t :: t in tokens <==> t in TokensOf(included)
    requires |poolList| == |included| && forall i :: 0 <= i < |included| ==> poolList[i] == included[i].pool
    requires Inverts(tokenToIdx, tokens) && Inverts(poolToIdx, poolList)
    ensures Indexed(included, tokenToIdx, poolToIdx)
  {
    forall i | 0 <= i < |included|
      ensures included[i].pool in poolToIdx && included[i].token0 in tokenToIdx && included[i].token1 in tokenToIdx
    {
      assert included[i] in included;
      assert included[i].token0 in tokens && included[i].token1 in tokens;
      assert poolList[i] in poolToIdx;
    }
  }

  lemma {:induction false} SliceElements(included: seq<PoolEntry>, token: Address, tokenToIdx: map<Address, nat>,
      poolToIdx: map<Address, nat>)
    requires Indexed(included, tokenToIdx, poolToIdx)
    ensures var leaving, slice := EdgesOf(included, token), Slice(included, token, tokenToIdx, poolToIdx);
      && |slice| == |leaving|
      && forall j :: 0 <= j < |leaving| ==>
           && leaving[j].pool in poolToIdx && leaving[j].tokenB in tokenToIdx
           && slice[j] == StaticEdge(poolToIdx[leaving[j].pool], tokenToIdx[leaving[j].tokenB], leaving[j].dex)
  {
    EdgesIndexed(included, token, tokenToIdx, poolToIdx);
  }

  lemma {:induction false} NothingFlat(included: seq<PoolEntry>, tokens: seq<Address>, tokenToIdx: map<Address, nat>,
      poolToIdx: map<Address, nat>)
    requires Indexed(included, tokenToIdx, poolToIdx)
    ensures FlatEdges(included, tokens[..0], tokenToIdx, poolToIdx) == []
  {
  }

  /** The concatenation holds each slice between its offsets. */
  lemma {:induction false} FlatSlice(included: seq<PoolEntry>, tokens: seq<Address>, i: nat,
      tokenToIdx: map<Address, nat>, poolToIdx: map<Address, nat>)
    requires Indexed(included, tokenToIdx, poolToIdx) && i < |tokens|
    ensures var from := |FlatEdges(included, tokens[..i], tokenToIdx, poolToIdx)|;
      var to := |FlatEdges(included, tokens[..i + 1], tokenToIdx, poolToIdx)|;
      var all := FlatEdges(included, tokens, tokenToIdx, poolToIdx);
      from <= to <= |all| && all[from..to] == Slice(included, tokens[i], tokenToIdx, poolToIdx)
    decreases |tokens|
  {
    hide Slice;
    var init := tokens[..|tokens| - 1];
    assert tokens[..i] == init[..i];
    if i < |tokens| - 1 {
      FlatSlice(included, init, i, tokenToIdx, poolToIdx);
      assert tokens[..i + 1] == init[..i + 1];
    } else {
      assert tokens[..i] == init && tokens[..i + 1] == tokens;
    }
  }

  // ----- What follows from it -----------------------------------------------------------------------

  lemma {:induction false} OffsetsNeverDecrease(g: StaticGraph, included: seq<PoolEntry>, i: nat, j: nat)
    requires Represents(g, included) && i <= j <= |g.tokens|
    ensures g.nodes[i] <= g.nodes[j] <= |g.edges|
    decreases j - i
  {
    hide Slice, Inverts, TokensOf, NoDuplicates, Indexed;
    if i < j {
      OffsetsNeverDecrease(g, included, i, j - 1);
      assert SliceAt(g, included, j - 1);
    } else if j < |g.tokens| {
      assert SliceAt(g, included, j);
    }
  }

  /** The edge a pool contributes between two tokens, read off the registry. */
  ghost predicate Connects(g: StaticGraph, included: seq<PoolEntry>, i: nat, edge: StaticEdge)
    requires i < |g.tokens| && edge.targetIdx < |g.tokens| && edge.poolIdx < |included|
  {
    var entry := included[edge.poolIdx];
    && edge.dex == entry.dex
    && ((g.tokens[i] == entry.token0 && g.tokens[edge.targetIdx] == entry.token1)
        || (g.tokens[i] == entry.token1 && g.tokens[edge.targetIdx] == entry.token0))
  }

  /** The slice of a token holds exactly the edges its pools contribute: one toward the other token of
      each included pool it belongs to. */
  lemma SliceIsExact(g: StaticGraph, included: seq<PoolEntry>, i: nat, edge: StaticEdge)
    requires Represents(g, included) && i < |g.tokens| && edge.targetIdx < |g.tokens| && edge.poolIdx < |g.pools|
    ensures SliceAt(g, included, i)
    ensures edge in g.edges[g.nodes[i]..g.nodes[i + 1]] <==> Connects(g, included, i, edge)
  {
    hide EdgesOf, Slice, TokensOf, NoDuplicates, Inverts;
    assert SliceAt(g, included, i);
    SliceMembers(g, included, i, edge);
    EdgesExact(included, g.tokens[i], Original(g, edge));
    PoolsDistinct(g, included);
    hide Represents, Indexed;
    if Connects(g, included, i, edge) {
      assert Contributes(included, edge.poolIdx, g.tokens[i], Original(g, edge));
    }
  }

  /** The adjacency entry an edge was translated from. */
  function Original(g: StaticGraph, edge: StaticEdge): PoolEdge
    requires edge.targetIdx < |g.tokens| && edge.poolIdx < |g.pools|
  {
    PoolEdge(g.pools[edge.poolIdx], g.tokens[edge.targetIdx], edge.dex)
  }

  lemma {:induction false} SliceMembers(g: StaticGraph, included: seq<PoolEntry>, i: nat, edge: StaticEdge)
    requires Represents(g, included) && i < |g.tokens| && edge.targetIdx < |g.tokens| && edge.poolIdx < |g.pools|
    ensures edge in Slice(included, g.tokens[i], g.tokenToIdx, g.poolToIdx)
      <==> Original(g, edge) in EdgesOf(included, g.tokens[i])
  {
    hide EdgesOf, TokensOf, NoDuplicates, Compressed;
    var token := g.tokens[i];
    SliceElements(included, token, g.tokenToIdx, g.poolToIdx);
    hide Slice, Indexed;
    var leaving, slice := EdgesOf(included, token), Slice(included, token, g.tokenToIdx, g.poolToIdx);
    if edge in slice {
      var j :| 0 <= j < |slice| && slice[j] == edge;
      assert leaving[j].pool in g.poolToIdx && leaving[j].tokenB in g.tokenToIdx;
      assert leaving[j] == Original(g, edge);
    }
    if Original(g, edge) in leaving {
      var j :| 0 <= j < |leaving| && leaving[j] == Original(g, edge);
      assert slice[j] == edge;
    }
  }

  lemma PoolsDistinct(g: StaticGraph, included: seq<PoolEntry>)
    requires Represents(g, included)
    ensures DistinctPools(included)
  {
    forall i, j | 0 <= i < j < |included| ensures included[i].pool != included[j].pool {
      assert g.poolToIdx[g.pools[i]] == i && g.poolToIdx[g.pools[j]] == j;
    }
  }

  ghost predicate Contributes(included: seq<PoolEntry>, k: int, token: Address, edge: PoolEdge) {
    0 <= k < |included| && edge in EdgesOfPool(included[k], token)
  }

  lemma {:induction false} EdgesExact(included: seq<PoolEntry>, token: Address, edge: PoolEdge)
    ensures edge in EdgesOf(included, token) <==> exists k :: Contributes(included, k, token, edge)
    decreases |included|
  {
    hide EdgesOfPool;
    if included != [] {
      var last := |included| - 1;
      var init := included[..last];
      EdgesExact(init, token, edge);
      if edge in EdgesOf(init, token) {
        var k :| Contributes(init, k, token, edge);
        assert Contributes(included, k, token, edge);
      }
      if edge in EdgesOfPool(included[last], token) {
        assert Contributes(included, last, token, edge);
      }
      if exists k :: Contributes(included, k, token, edge) {
        var k :| Contributes(included, k, token, edge);
        if k < last { assert Contributes(init, k, token, edge); }
      }
    }
  }

  function Count(tokens: seq<Address>, token: Address): nat {
    if tokens == [] then 0 else Count(tokens[..|tokens| - 1], token) + if tokens[|tokens| - 1] == token then 1 else 0
  }

  /** The number of edges leaving any of the tokens. */
  function Degrees(included: seq<PoolEntry>, tokens: seq<Address>): nat
    decreases |tokens|
  {
    if tokens == [] then 0 else Degrees(included, tokens[..|tokens| - 1]) + |EdgesOf(included, tokens[|tokens| - 1])|
  }

  lemma {:induction false} CountOnce(tokens: seq<Address>, token: Address)
    requires NoDuplicates(tokens)
    ensures Count(tokens, token) == if token in tokens then 1 else 0
    decreases |tokens|
  {
    if tokens != [] {
      var init := tokens[..|tokens| - 1];
      assert tokens == init + [tokens[|tokens| - 1]];
      CountOnce(init, token);
    }
  }

  lemma {:induction false} DegreesOfOneMore(included: seq<PoolEntry>, entry: PoolEntry, tokens: seq<Address>)
    ensures Degrees(included + [entry], tokens)
      == Degrees(included, tokens) + Count(tokens, entry.token0) + Count(tokens, entry.token1)
    decreases |tokens|
  {
    if tokens != [] {
      DegreesOfOneMore(included, entry, tokens[..|tokens| - 1]);
      assert (included + [entry])[..|included|] == included;
    }
  }

  lemma {:induction false} NoDegrees(tokens: seq<Address>)
    ensures Degrees([], tokens) == 0
    decreases |tokens|
  {
    if tokens != [] { NoDegrees(tokens[..|tokens| - 1]); }
  }

  lemma {:induction false} DegreesAreTwicePools(included: seq<PoolEntry>, tokens: seq<Address>)
    requires NoDuplicates(tokens) && forall t :: t in TokensOf(included) ==> t in tokens
    ensures Degrees(included, tokens) == 2 * |included|
    decreases |included|
  {
    if included == [] {
      NoDegrees(tokens);
    } else {
      var init, entry := included[..|included| - 1], included[|included| - 1];
      assert included == init + [entry];
      assert entry.token0 in TokensOf(included) && entry.token1 in TokensOf(included);
      DegreesAreTwicePools(init, tokens);
      DegreesOfOneMore(init, entry, tokens);
      CountOnce(tokens, entry.token0);
      CountOnce(tokens, entry.token1);
    }
  }

  lemma {:induction false} OffsetIsDegrees(g: StaticGraph, included: seq<PoolEntry>, i: nat)
    requires Represents(g, included) && i <= |g.tokens|
    ensures g.nodes[i] == Degrees(included, g.tokens[..i])
    decreases i
  {
    hide Slice, EdgesOf, Inverts, TokensOf, NoDuplicates;
    if i > 0 {
      OffsetIsDegrees(g, included, i - 1);
      assert SliceAt(g, included, i - 1);
      SliceElements(included, g.tokens[i - 1], g.tokenToIdx, g.poolToIdx);
      assert g.tokens[..i][..i - 1] == g.tokens[..i - 1];
    }
  }

  /** Every included pool contributes one edge each way. */
  lemma EdgeCount(g: StaticGraph, included: seq<PoolEntry>)
    requires Represents(g, included)
    ensures |g.edges| == 2 * |included|
  {
    OffsetIsDegrees(g, included, |g.tokens|);
    assert g.tokens[..|g.tokens|] == g.tokens;
    DegreesAreTwicePools(included, g.tokens);
  }
}
