/** Upward swaps and the top of the tick range: a word edge beyond the highest tick has no price. */
module UpperEdge {
  import opened Bits
  import opened Rounding
  import opened SwapLoop
  import opened SwapStep
  import opened SwapTheorems
  import opened TickBitmap
  import opened TickMath
  import opened Word256

  /** The last compressed tick that ends a word and is still a tick. */
  function LastEdgeIndex(spacing: int): int
    requires 0 < spacing <= MAX_TICK
  {
    MAX_TICK / spacing - (MAX_TICK / spacing + 1) % 256
  }

  function LastEdge(spacing: int): int
    requires 0 < spacing <= MAX_TICK
  {
    LastEdgeIndex(spacing) * spacing
  }

  lemma LastEdgeFacts(spacing: int)
    requires 0 < spacing <= MAX_TICK
    ensures LastEdgeIndex(spacing) % 256 == 255
    ensures MIN_TICK <= LastEdge(spacing) <= MAX_TICK < (LastEdgeIndex(spacing) + 256) * spacing
  {
    var m, e := MAX_TICK / spacing, LastEdgeIndex(spacing);
    FloorBounds(MAX_TICK, spacing);
    FloorAtLeast(MAX_TICK, spacing, 1);
    MulMono(e, m, spacing);
    MulMono(-1, e, spacing);
    MulMono(m + 1, e + 256, spacing);
  }

  /** Below a limit at the last edge, the next tick always has a price. */
  lemma NextTickHasPrice(order: Order, s: State)
    requires Live(order, s) && Open(order, s) && !order.zeroForOne
    requires order.limit <= SqrtRatio(LastEdge(order.pool.spacing))
    ensures NextTick(order, s) <= MAX_TICK
  {
    hide SqrtRatio, NextInitializedTick;
    var spacing := order.pool.spacing;
    LastEdgeFacts(spacing);
    if LastEdge(spacing) <= s.tick { SqrtRatioMonotone(LastEdge(spacing), s.tick); }
    TicksInWordRange(s.tick, spacing);
    NextWithinEdge(s.tick, spacing, order.pool.bitmap, LastEdgeIndex(spacing));
  }

  lemma {:induction false} NeverLost(order: Order, s: State)
    requires Live(order, s) && !order.zeroForOne
    requires order.limit <= SqrtRatio(LastEdge(order.pool.spacing))
    ensures !Run(order, s).outcome.TargetLost?
    decreases Distance(order, s)
  {
    hide SqrtRatio, NextTick, StepOf, TickAt, Run, LastEdge;
    FirstStep(order, s);
    if Run(order, s).steps == [] {
      if Open(order, s) { NextTickHasPrice(order, s); }
    } else {
      Iteration(order, s);
      var step := Run(order, s).steps[0];
      if step.next == SqrtRatio(NextTick(order, s)) {
        NeverLost(order, Cross(order, After(s, step), NextTick(order, s)));
      }
    }
  }

  lemma {:induction false} NothingAbove(tick: int)
    ensures NetAbove(map[], tick) == 0
    decreases MAX_TICK - tick
  {
    if tick < MAX_TICK { NothingAbove(tick + 1); }
  }

  function EmptyOrder(spacing: int, limit: nat): Order { Order(Pool(map[], map[], spacing), false, 0, limit) }

  /** A pool without ticks, its price at the last edge. */
  function AtLastEdge(spacing: int): State
    requires 0 < spacing <= MAX_TICK
  {
    State(SqrtRatio(LastEdge(spacing)), LastEdge(spacing), 0, 1, 0)
  }

  lemma EmptyWordEdge(tick: int, spacing: int, edge: int)
    requires 0 < spacing && InWordRange(tick / spacing) && InWordRange(tick / spacing + 1)
    requires tick == edge * spacing && edge % 256 == 255
    ensures NextInitializedTick(tick, spacing, false, map[]).0 >= (edge + 256) * spacing
  {
    hide NextInitializedTick, Marked;
    NearestAbove(tick, spacing, map[]);
    var next := NextInitializedTick(tick, spacing, false, map[]).0;
    var k := next / spacing;
    EmptyUnmarked(k);
    ExactMultiple(next, spacing);
    CancelLess(edge, k, spacing);
    NextEdge(edge, k);
    MulMono(edge + 256, k, spacing);
  }

  lemma EmptyUnmarked(compressed: int)
    ensures !Marked(compressed, map[])
  {
    ZeroBit(compressed % 256);
  }

  lemma ExactMultiple(n: int, d: int)
    requires d > 0 && n % d == 0
    ensures n == n / d * d
  {
  }

  lemma NextEdge(edge: int, next: int)
    requires edge < next && edge % 256 == next % 256
    ensures edge + 256 <= next
  {
  }

  lemma LostBeyondLastEdge(spacing: int, limit: nat)
    requires 0 < spacing <= MAX_TICK && SqrtRatio(LastEdge(spacing)) < limit
    ensures Live(EmptyOrder(spacing, limit), AtLastEdge(spacing))
    ensures Run(EmptyOrder(spacing, limit), AtLastEdge(spacing)).outcome.TargetLost?
  {
    hide SqrtRatio, NextInitializedTick, StepOf, TickAt;
    var edge := LastEdge(spacing);
    LastEdgeFacts(spacing);
    NothingAbove(edge);
    SqrtRatioBelow160(edge);
    SqrtRatioMonotone(edge, Min(edge + 1, MAX_TICK));
    TicksInWordRange(edge, spacing);
    EmptyWordEdge(edge, spacing, LastEdgeIndex(spacing));
  }

  /** An upper limit is safe for every pool of a spacing, every live state and every input exactly when
      it does not exceed the price of the last word edge within the tick range. */
  lemma UpperLimitIsSafeIff(spacing: int, limit: nat)
    requires 0 < spacing <= MAX_TICK && 0 < limit
    ensures limit <= SqrtRatio(LastEdge(spacing)) <==>
      forall order: Order, s: State ::
        Live(order, s) && !order.zeroForOne && order.pool.spacing == spacing && order.limit == limit
        ==> !Run(order, s).outcome.TargetLost?
  {
    hide SqrtRatio, Live, Run, LastEdge;
    if limit <= SqrtRatio(LastEdge(spacing)) {
      forall order: Order, s: State |
        Live(order, s) && !order.zeroForOne && order.pool.spacing == spacing && order.limit == limit
        ensures !Run(order, s).outcome.TargetLost?
      {
        NeverLost(order, s);
      }
    } else {
      LostBeyondLastEdge(spacing, limit);
    }
  }

  /** What the code does then: the target becomes zero, behind the price of an upward swap. */
  lemma LostTargetIsBehind(order: Order, s: State)
    requires Live(order, s) && Open(order, s) && !order.zeroForOne
    ensures NextTick(order, s) > MAX_TICK <==> TargetPrice(order, SqrtRatio(NextTick(order, s))) < s.price
  {
    hide SqrtRatio, NextTick;
    if NextTick(order, s) > MAX_TICK {
      SqrtRatioOutside(NextTick(order, s));
    } else {
      TargetAhead(order, s);
    }
  }

  /** The default upper limit is not safe for any of the four standard spacings. */
  lemma DefaultUpperLimitIsUnsafe(spacing: int)
    requires spacing in {1, 10, 60, 200}
    ensures SqrtRatio(LastEdge(spacing)) < LimitOrDefault(None, false)
  {
    hide SqrtRatio;
    SqrtRatioEnds();
    var edge := LastEdge(spacing);
    assert MIN_TICK <= edge <= MAX_TICK - 3;
    SqrtRatioMonotone(edge, MAX_TICK - 3);
    SqrtRatioStep(MAX_TICK - 3);
    SqrtRatioStep(MAX_TICK - 2);
    SqrtRatioStep(MAX_TICK - 1);
  }
}
