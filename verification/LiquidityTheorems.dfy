/** The liquidity a run ends with, against the net liquidity of the ticks between its two ends. */
module LiquidityTheorems {
  import opened SwapLoop
  import opened SwapStep
  import opened SwapTheorems
  import opened TickBitmap
  import opened TickMath
  import opened Word256

  type Nets = map<int, i128>

  function NetAt(net: Nets, tick: int): nat { if tick in net then Abs(net[tick]) else 0 }

  /** The net liquidity, by magnitude, of all ticks up to and including one. */
  function NetUpTo(net: Nets, tick: int): nat
    decreases tick - MIN_TICK + 1
  {
    if tick < MIN_TICK then 0 else NetAt(net, tick) + NetUpTo(net, tick - 1)
  }

  /** Every tick with net liquidity is marked in the bitmap. */
  ghost predicate Consistent(pool: Pool) {
    pool.spacing > 0 && forall t :: NetAt(pool.liquidityNet, t) != 0 ==> Initialized(t, pool.spacing, pool.bitmap)
  }

  lemma {:induction false} NoNetBetween(net: Nets, low: int, high: int)
    requires low <= high && forall t :: low < t <= high ==> NetAt(net, t) == 0
    ensures NetUpTo(net, low) == NetUpTo(net, high)
    decreases high - low
  {
    if low < high { NoNetBetween(net, low, high - 1); }
  }

  /** The search for the next tick skips no net liquidity. */
  lemma NextTickSkipsNothing(order: Order, s: State)
    requires Live(order, s) && Consistent(order.pool)
    ensures var next := NextTick(order, s);
      forall t :: (if order.zeroForOne then next < t <= s.tick else s.tick < t < next)
        ==> NetAt(order.pool.liquidityNet, t) == 0
  {
    hide NextInitializedTick, Initialized, SqrtRatio, NetAt;
    TicksInWordRange(s.tick, order.pool.spacing);
    NextInitializedTickIsNearest(s.tick, order.pool.spacing, order.pool.bitmap);
  }

  function Drained(liquidity: nat, net: nat): nat { if liquidity < net then 0 else liquidity - net }

  // ----- Upward ---------------------------------------------------------------------------------------

  /** Where an upward run stops short of the next tick, the tick found lies before it. */
  lemma {:induction false} TickFoundGoingUp(order: Order, s: State)
    requires Live(order, s) && !order.zeroForOne && Run(order, s).steps != []
    requires Run(order, s).steps[0].next != SqrtRatio(NextTick(order, s))
    ensures s.tick <= TickAt(Run(order, s).steps[0].next) < NextTick(order, s)
  {
    hide SqrtRatio, NextTick, StepOf, Run, ScanDown;
    Iteration(order, s);
    NextTickNear(order, s);
    LiveFacts(order, s);
    var price, tick := Run(order, s).steps[0].next, TickAt(Run(order, s).steps[0].next);
    ScanDownBounds(MAX_TICK, price);
    if tick < s.tick { SqrtRatioMonotone(tick + 1, s.tick); }
    if NextTick(order, s) <= tick { SqrtRatioMonotone(NextTick(order, s), tick); }
  }

  /** Going up, the liquidity gained is exactly the net liquidity of the ticks passed. */
  lemma {:induction false} LiquidityGainedGoingUp(order: Order, s: State)
    requires Live(order, s) && !order.zeroForOne && Consistent(order.pool)
    ensures var last, net := Run(order, s).outcome.state, order.pool.liquidityNet;
      s.tick <= last.tick && last.liquidity + NetUpTo(net, s.tick) == s.liquidity + NetUpTo(net, last.tick)
    decreases Distance(order, s)
  {
    hide SqrtRatio, NextTick, StepOf, TickAt, Run, Live, Consistent, NetAt;
    FirstStep(order, s);
    if Run(order, s).steps != [] {
      Iteration(order, s);
      NextTickSkipsNothing(order, s);
      NextTickInRange(order, s);
      var step, next, net := Run(order, s).steps[0], NextTick(order, s), order.pool.liquidityNet;
      if step.next == SqrtRatio(next) {
        LiquidityGainedGoingUp(order, Cross(order, After(s, step), next));
        NoNetBetween(net, s.tick, next - 1);
        CrossNet(order, After(s, step), next);
      } else {
        TickFoundGoingUp(order, s);
        NoNetBetween(net, s.tick, TickAt(step.next));
      }
    }
  }

  lemma NextTickInRange(order: Order, s: State)
    requires Live(order, s)
    ensures MIN_TICK - 1 <= s.tick && order.pool.spacing > 0
    ensures if order.zeroForOne then NextTick(order, s) <= s.tick else s.tick < NextTick(order, s)
  {
    hide SqrtRatio, NextTick;
    NextTickNear(order, s);
  }

  lemma CrossNet(order: Order, s: State, next: int)
    ensures Cross(order, s, next).liquidity ==
      if order.zeroForOne then Drained(s.liquidity, NetAt(order.pool.liquidityNet, next))
      else s.liquidity + NetAt(order.pool.liquidityNet, next)
  {
  }

  // ----- Downward -------------------------------------------------------------------------------------

  /** Where a downward run stops short of the next tick, the tick found lies between it and the current
      tick, except that a price still on the current tick's upper boundary counts for the tick above. */
  lemma {:induction false} TickFoundGoingDown(order: Order, s: State)
    requires Live(order, s) && order.zeroForOne && Run(order, s).steps != []
    requires Run(order, s).steps[0].next != SqrtRatio(NextTick(order, s))
    ensures var price := Run(order, s).steps[0].next;
      if s.tick < MAX_TICK && price == SqrtRatio(s.tick + 1) then TickAt(price) == s.tick + 1
      else NextTick(order, s) <= TickAt(price) <= s.tick
  {
    hide SqrtRatio, NextTick, StepOf, Run, ScanDown;
    Iteration(order, s);
    NextTickNear(order, s);
    LiveFacts(order, s);
    var price, tick := Run(order, s).steps[0].next, TickAt(Run(order, s).steps[0].next);
    ScanDownBounds(MAX_TICK, price);
    var next := NextTick(order, s);
    if s.tick < MAX_TICK && price == SqrtRatio(s.tick + 1) && MIN_TICK <= s.tick + 1 {
      TickAtInvertsSqrtRatio(s.tick + 1);
    } else {
      if s.tick < tick { SqrtRatioMonotone(s.tick + 1, tick); }
      if tick < next { SqrtRatioMonotone(tick + 1, next); }
    }
  }

  lemma {:induction false} CrossedTickExists(order: Order, s: State)
    requires Live(order, s) && Run(order, s).steps != []
    requires Run(order, s).steps[0].next == SqrtRatio(NextTick(order, s))
    ensures MIN_TICK <= NextTick(order, s)
  {
    hide SqrtRatio, NextTick, StepOf, Run;
    Iteration(order, s);
    PricedTick(NextTick(order, s));
  }
}
