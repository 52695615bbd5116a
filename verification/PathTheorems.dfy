/** What the search finds: every walk within the bound, each once, and nothing else. */
module PathTheorems {
  import opened Models
  import opened PathSearch
  import opened StaticGraphs

  // ----- Exactness ------------------------------------------------------------------------------------

  /** A walk is a usable edge alone at the target, or followed by a walk that avoids its pool. */
  ghost predicate Unrolled(g: StaticGraph, current: nat, target: nat, visited: set<nat>, walk: seq<nat>) {
    && |walk| > 0 && walk[0] < |g.edges| && InSlice(g, current, walk[0])
    && g.edges[walk[0]].poolIdx !in visited
    && if g.edges[walk[0]].targetIdx == target then |walk| == 1
       else IsWalk(g, g.edges[walk[0]].targetIdx, target, visited + {g.edges[walk[0]].poolIdx}, walk[1..])
  }

  lemma WalkUnrolls(g: StaticGraph, current: nat, target: nat, visited: set<nat>, walk: seq<nat>)
    requires IsWalk(g, current, target, visited, walk)
    ensures Unrolled(g, current, target, visited, walk)
  {
    var first := g.edges[walk[0]];
    assert Standing(g, current, walk, 0) == current;
    if first.targetIdx != target {
      var tail := walk[1..];
      assert |walk| > 1;
      forall k | 0 <= k < |tail|
        ensures tail[k] < |g.edges|
        ensures g.edges[tail[k]].poolIdx !in visited + {first.poolIdx}
        ensures g.edges[tail[k]].targetIdx == target <==> k == |tail| - 1
      {
        assert tail[k] == walk[k + 1];
      }
      forall k | 0 <= k < |tail| ensures InSlice(g, Standing(g, first.targetIdx, tail, k), tail[k]) {
        assert Standing(g, first.targetIdx, tail, k) == Standing(g, current, walk, k + 1);
        assert InSlice(g, Standing(g, current, walk, k + 1), walk[k + 1]);
      }
    }
  }

  lemma UnrolledIsWalk(g: StaticGraph, current: nat, target: nat, visited: set<nat>, walk: seq<nat>)
    requires Unrolled(g, current, target, visited, walk)
    ensures IsWalk(g, current, target, visited, walk)
  {
    var first := g.edges[walk[0]];
    if first.targetIdx != target {
      var tail := walk[1..];
      forall k | 0 <= k < |walk|
        ensures walk[k] < |g.edges|
        ensures g.edges[walk[k]].poolIdx !in visited
        ensures g.edges[walk[k]].targetIdx == target <==> k == |walk| - 1
        ensures k > 0 ==> g.edges[walk[k]].poolIdx != first.poolIdx
      {
        if k > 0 { assert walk[k] == tail[k - 1]; }
      }
      forall k | 0 <= k < |walk| ensures InSlice(g, Standing(g, current, walk, k), walk[k]) {
        if k > 0 {
          assert Standing(g, current, walk, k) == Standing(g, first.targetIdx, tail, k - 1);
          assert InSlice(g, Standing(g, first.targetIdx, tail, k - 1), tail[k - 1]);
        }
      }
      forall j, k | 0 <= j < k < |walk| ensures g.edges[walk[j]].poolIdx != g.edges[walk[k]].poolIdx {
        if j > 0 { assert g.edges[tail[j - 1]].poolIdx != g.edges[tail[k - 1]].poolIdx; }
      }
    }
  }

  lemma {:induction false} WalksExact(g: StaticGraph, current: nat, target: nat, visited: set<nat>, fuel: nat,
      walk: seq<nat>)
    requires WellFormed(g) && current < |g.tokens|
    ensures walk in Walks(g, current, target, visited, fuel)
      <==> |walk| <= fuel && IsWalk(g, current, target, visited, walk)
    decreases fuel, 0, 0
  {
    hide IsWalk, WalksFrom;
    if IsWalk(g, current, target, visited, walk) { WalkUnrolls(g, current, target, visited, walk); }
    if fuel > 0 {
      assert SliceInside(g, current);
      WalksFromExact(g, current, g.nodes[current], g.nodes[current + 1], target, visited, fuel, walk);
    }
  }

  lemma {:induction false} WalksFromExact(g: StaticGraph, current: nat, i: nat, end: nat, target: nat,
      visited: set<nat>, fuel: nat, walk: seq<nat>)
    requires WellFormed(g) && current < |g.tokens| && fuel > 0
    requires g.nodes[current] <= i <= end <= g.nodes[current + 1] <= |g.edges|
    ensures walk in WalksFrom(g, i, end, target, visited, fuel)
      <==> |walk| > 0 && i <= walk[0] < end && |walk| <= fuel && IsWalk(g, current, target, visited, walk)
    decreases fuel - 1, 1, end - i
  {
    hide IsWalk, WalksVia;
    if i < end {
      WalksViaExact(g, current, i, target, visited, fuel, walk);
      WalksFromExact(g, current, i + 1, end, target, visited, fuel, walk);
    }
  }

  lemma {:induction false} WalksViaExact(g: StaticGraph, current: nat, i: nat, target: nat, visited: set<nat>,
      fuel: nat, walk: seq<nat>)
    requires WellFormed(g) && current < |g.tokens| && fuel > 0
    requires g.nodes[current] <= i < g.nodes[current + 1] <= |g.edges|
    ensures walk in WalksVia(g, i, target, visited, fuel)
      <==> |walk| > 0 && walk[0] == i && |walk| <= fuel && IsWalk(g, current, target, visited, walk)
    decreases fuel - 1, 1, 0
  {
    hide IsWalk, Walks;
    var edge := g.edges[i];
    if IsWalk(g, current, target, visited, walk) { WalkUnrolls(g, current, target, visited, walk); }
    if Unrolled(g, current, target, visited, walk) { UnrolledIsWalk(g, current, target, visited, walk); }
    if edge.poolIdx !in visited {
      if edge.targetIdx == target {
        assert |walk| == 1 && walk[0] == i <==> walk == [i];
      } else {
        var tails := Walks(g, edge.targetIdx, target, visited + {edge.poolIdx}, fuel - 1);
        InPrepended(i, tails, walk);
        if |walk| > 0 {
          WalksExact(g, edge.targetIdx, target, visited + {edge.poolIdx}, fuel - 1, walk[1..]);
        }
      }
    }
  }

  lemma InPrepended(i: nat, walks: seq<seq<nat>>, walk: seq<nat>)
    ensures walk in PrependAll(i, walks) <==> |walk| > 0 && walk[0] == i && walk[1..] in walks
  {
    if walk in PrependAll(i, walks) {
      var k :| 0 <= k < |walks| && PrependAll(i, walks)[k] == walk;
      assert walk[1..] == walks[k];
    }
    if |walk| > 0 && walk[0] == i && walk[1..] in walks {
      var k :| 0 <= k < |walks| && walks[k] == walk[1..];
      assert PrependAll(i, walks)[k] == [i] + walk[1..] == walk;
    }
  }

  // ----- No walk twice --------------------------------------------------------------------------------

  lemma NoDuplicatesConcat<T>(a: seq<T>, b: seq<T>)
    requires NoDuplicates(a) && NoDuplicates(b) && forall x :: x in a ==> x !in b
    ensures NoDuplicates(a + b)
  {
    forall i, j | 0 <= i < j < |a + b| ensures (a + b)[i] != (a + b)[j] {
      if i < |a| <= j { assert a[i] in a && b[j - |a|] in b; }
    }
  }

  lemma PrependedDistinct(i: nat, walks: seq<seq<nat>>)
    requires NoDuplicates(walks)
    ensures NoDuplicates(PrependAll(i, walks))
  {
    forall j, k | 0 <= j < k < |walks| ensures PrependAll(i, walks)[j] != PrependAll(i, walks)[k] {
      assert PrependAll(i, walks)[j][1..] == walks[j];
      assert PrependAll(i, walks)[k][1..] == walks[k];
    }
  }

  lemma {:induction false} WalksDistinct(g: StaticGraph, current: nat, target: nat, visited: set<nat>, fuel: nat)
    requires WellFormed(g) && current < |g.tokens|
    ensures NoDuplicates(Walks(g, current, target, visited, fuel))
    decreases fuel, 0, 0
  {
    hide WalksFrom;
    if fuel > 0 {
      assert SliceInside(g, current);
      WalksFromDistinct(g, g.nodes[current], g.nodes[current + 1], target, visited, fuel);
    }
  }

  lemma {:induction false} WalksFromDistinct(g: StaticGraph, i: nat, end: nat, target: nat, visited: set<nat>,
      fuel: nat)
    requires WellFormed(g) && i <= end <= |g.edges| && fuel > 0
    ensures NoDuplicates(WalksFrom(g, i, end, target, visited, fuel))
    ensures forall walk :: walk in WalksFrom(g, i, end, target, visited, fuel) ==> |walk| > 0 && i <= walk[0]
    decreases fuel - 1, 1, end - i
  {
    hide WellFormed, Walks;
    if i < end {
      var via, rest := WalksVia(g, i, target, visited, fuel), WalksFrom(g, i + 1, end, target, visited, fuel);
      WalksFromDistinct(g, i + 1, end, target, visited, fuel);
      var edge := g.edges[i];
      if edge.poolIdx !in visited && edge.targetIdx != target {
        assert edge.targetIdx < |g.tokens| by { EdgeInside(g, i); }
        var tails := Walks(g, edge.targetIdx, target, visited + {edge.poolIdx}, fuel - 1);
        WalksDistinct(g, edge.targetIdx, target, visited + {edge.poolIdx}, fuel - 1);
        PrependedDistinct(i, tails);
      }
      assert forall walk :: walk in via ==> |walk| > 0 && walk[0] == i;
      NoDuplicatesConcat(via, rest);
    }
  }

  lemma EdgeInside(g: StaticGraph, i: nat)
    requires WellFormed(g) && i < |g.edges|
    ensures g.edges[i].targetIdx < |g.tokens| && g.edges[i].poolIdx < |g.pools|
  {
  }

  // ----- No path twice --------------------------------------------------------------------------------

  /** Pools have distinct addresses, and no pool has two edges in one slice. */
  ghost predicate DistinctEdges(g: StaticGraph) {
    && NoDuplicates(g.pools)
    && forall token: nat, i: nat, j: nat :: InSlice(g, token, i) && InSlice(g, token, j) && i != j
         ==> g.edges[i].poolIdx != g.edges[j].poolIdx
  }

  ghost predicate Connected(g: StaticGraph, current: nat, walk: seq<nat>) {
    && (forall k :: 0 <= k < |walk| ==> walk[k] < |g.edges|)
    && forall k :: 0 <= k < |walk| ==> InSlice(g, Standing(g, current, walk, k), walk[k])
  }

  lemma ConnectedTail(g: StaticGraph, current: nat, walk: seq<nat>)
    requires Connected(g, current, walk) && |walk| > 0
    ensures InSlice(g, current, walk[0]) && Connected(g, g.edges[walk[0]].targetIdx, walk[1..])
  {
    var tail, next := walk[1..], g.edges[walk[0]].targetIdx;
    assert Standing(g, current, walk, 0) == current;
    forall k | 0 <= k < |tail| ensures tail[k] < |g.edges| { assert tail[k] == walk[k + 1]; }
    forall k | 0 <= k < |tail| ensures InSlice(g, Standing(g, next, tail, k), tail[k]) {
      assert Standing(g, next, tail, k) == Standing(g, current, walk, k + 1);
      assert InSlice(g, Standing(g, current, walk, k + 1), walk[k + 1]);
    }
  }

  /** Different walks make different hops. */
  lemma {:induction false} HopsInjective(g: StaticGraph, current: nat, a: seq<nat>, b: seq<nat>,
      stable: map<Address, bool>)
    requires WellFormed(g) && DistinctEdges(g) && current < |g.tokens|
    requires Connected(g, current, a) && Connected(g, current, b) && InRange(g, a) && InRange(g, b)
    requires HopsOf(g, current, a, stable) == HopsOf(g, current, b, stable)
    ensures a == b
    decreases a
  {
    assert |a| == |b|;
    if a != [] {
      ConnectedTail(g, current, a);
      ConnectedTail(g, current, b);
      var hopsA, hopsB := HopsOf(g, current, a, stable), HopsOf(g, current, b, stable);
      assert hopsA[0].pool == hopsB[0].pool;
      assert g.edges[a[0]].poolIdx == g.edges[b[0]].poolIdx;
      assert a[0] == b[0];
      assert hopsA[1..] == HopsOf(g, g.edges[a[0]].targetIdx, a[1..], stable);
      assert hopsB[1..] == HopsOf(g, g.edges[b[0]].targetIdx, b[1..], stable);
      HopsInjective(g, g.edges[a[0]].targetIdx, a[1..], b[1..], stable);
      assert a == [a[0]] + a[1..] && b == [b[0]] + b[1..];
    }
  }

  /** The search's paths are exactly the incoming hops followed by the hops of one walk within the bound,
      for every such walk, and no path occurs twice. */
  lemma FoundIsExact(g: StaticGraph, prefix: seq<Hop>, current: nat, target: nat, visited: set<nat>, fuel: nat,
      stable: map<Address, bool>)
    requires WellFormed(g) && DistinctEdges(g) && current < |g.tokens|
    ensures var found := Found(g, prefix, current, target, visited, fuel, stable);
      && NoDuplicates(found)
      && forall path :: path in found <==> IsPath(g, prefix, current, target, visited, fuel, stable, path)
  {
    hide WellFormed, DistinctEdges, IsWalk, Walks, HopOf;
    var walks := Walks(g, current, target, visited, fuel);
    var found := Found(g, prefix, current, target, visited, fuel, stable);
    WalksDistinct(g, current, target, visited, fuel);
    forall walk ensures walk in walks <==> |walk| <= fuel && IsWalk(g, current, target, visited, walk) {
      WalksExact(g, current, target, visited, fuel, walk);
    }
    forall j, k | 0 <= j < k < |walks| ensures found[j] != found[k] {
      PathsDiffer(g, prefix, current, target, visited, walks[j], walks[k], stable);
    }
    forall path ensures path in found <==> IsPath(g, prefix, current, target, visited, fuel, stable, path) {
      if path in found {
        var k :| 0 <= k < |walks| && found[k] == path;
        assert walks[k] in walks;
        assert MakesPath(g, prefix, current, target, visited, fuel, stable, path, walks[k]);
      }
      if IsPath(g, prefix, current, target, visited, fuel, stable, path) {
        var walk :| MakesPath(g, prefix, current, target, visited, fuel, stable, path, walk);
        var k :| 0 <= k < |walks| && walks[k] == walk;
        assert found[k] == path;
      }
    }
  }

  ghost predicate MakesPath(g: StaticGraph, prefix: seq<Hop>, current: nat, target: nat, visited: set<nat>, fuel: nat,
      stable: map<Address, bool>, path: seq<Hop>, walk: seq<nat>)
    requires WellFormed(g) && current < |g.tokens|
  {
    |walk| <= fuel && IsWalk(g, current, target, visited, walk) && InRange(g, walk)
    && path == prefix + HopsOf(g, current, walk, stable)
  }

  ghost predicate IsPath(g: StaticGraph, prefix: seq<Hop>, current: nat, target: nat, visited: set<nat>, fuel: nat,
      stable: map<Address, bool>, path: seq<Hop>)
    requires WellFormed(g) && current < |g.tokens|
  {
    exists walk :: MakesPath(g, prefix, current, target, visited, fuel, stable, path, walk)
  }

  lemma {:induction false} PathsDiffer(g: StaticGraph, prefix: seq<Hop>, current: nat, target: nat,
      visited: set<nat>, a: seq<nat>, b: seq<nat>, stable: map<Address, bool>)
    requires WellFormed(g) && DistinctEdges(g) && current < |g.tokens| && a != b && InRange(g, a) && InRange(g, b)
    requires IsWalk(g, current, target, visited, a) && IsWalk(g, current, target, visited, b)
    ensures prefix + HopsOf(g, current, a, stable) != prefix + HopsOf(g, current, b, stable)
  {
    var left, right := prefix + HopsOf(g, current, a, stable), prefix + HopsOf(g, current, b, stable);
    if left == right {
      assert left[|prefix|..] == HopsOf(g, current, a, stable) && right[|prefix|..] == HopsOf(g, current, b, stable);
      HopsInjective(g, current, a, b, stable);
      assert false;
    }
  }
}
