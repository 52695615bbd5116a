/** The liquidity a run ends with, against the signed net liquidity of the ticks crossed. Each net enters
    the code by magnitude, so the two agree only where no net is negative. */
module SignedNets {
  import opened BoundaryTick
  import opened LiquidityTheorems
  import opened Rounding
  import opened SwapLoop
  import opened SwapStep
  import opened SwapTheorems
  import opened TickBitmap
  import opened TickMath
  import opened Word256

  function SignedAt(net: Nets, tick: int): int { if tick in net then net[tick] else 0 }

  /** The signed net liquidity of all ticks up to and including one. */
  function SignedUpTo(net: Nets, tick: int): int
    decreases tick - MIN_TICK + 1
  {
    if tick < MIN_TICK then 0 else SignedAt(net, tick) + SignedUpTo(net, tick - 1)
  }

  ghost predicate NoneNegative(net: Nets, low: int, high: int) {
    forall t :: low < t <= high ==> SignedAt(net, t) >= 0
  }

  /** Between two ticks the signed sum is at most the sum by magnitude, and the same exactly when no net
      there is negative. */
  lemma {:induction false} MagnitudesAgreeIff(net: Nets, low: int, high: int)
    requires MIN_TICK - 1 <= low <= high
    ensures var signed := SignedUpTo(net, high) - SignedUpTo(net, low);
      var magnitude := NetUpTo(net, high) - NetUpTo(net, low);
      signed <= magnitude && (signed == magnitude <==> NoneNegative(net, low, high))
    decreases high - low
  {
    if low < high {
      MagnitudesAgreeIff(net, low, high - 1);
      assert SignedAt(net, high) <= NetAt(net, high);
      assert SignedAt(net, high) == NetAt(net, high) <==> SignedAt(net, high) >= 0;
      if NoneNegative(net, low, high - 1) && SignedAt(net, high) >= 0 {
        forall t | low < t <= high ensures SignedAt(net, t) >= 0 {
          if t < high { assert low < t <= high - 1; }
        }
      }
    }
  }

  /** Going up, the liquidity gained is the signed net liquidity of the ticks passed exactly when none of
      them has a negative net. */
  lemma GainIsSignedIff(order: Order, s: State)
    requires Live(order, s) && !order.zeroForOne && Consistent(order.pool)
    ensures var last, net := Run(order, s).outcome.state, order.pool.liquidityNet;
      && s.tick <= last.tick
      && (last.liquidity == s.liquidity + SignedUpTo(net, last.tick) - SignedUpTo(net, s.tick)
          <==> NoneNegative(net, s.tick, last.tick))
  {
    hide SqrtRatio, Run, Consistent, NetAt, NetUpTo, SignedUpTo;
    LiquidityGainedGoingUp(order, s);
    MagnitudesAgreeIff(order.pool.liquidityNet, s.tick, Run(order, s).outcome.state.tick);
  }

  function FlooredAtZero(v: int): nat { if v < 0 then 0 else v }

  /** Going down, the liquidity left is the start less the signed net liquidity of the ticks crossed, but
      not below zero, exactly when none of them has a negative net or all liquidity is gone either way. */
  lemma LossIsSignedIff(order: Order, s: State)
    requires Live(order, s) && order.zeroForOne && Consistent(order.pool)
    ensures Live(order, LastHead(order, s))
    ensures var last, net, bottom := Run(order, s).outcome.state, order.pool.liquidityNet, LastHead(order, s).tick;
      var signed := SignedUpTo(net, s.tick) - SignedUpTo(net, bottom);
      && bottom <= s.tick
      && (last.liquidity == FlooredAtZero(s.liquidity - signed)
          <==> NoneNegative(net, bottom, s.tick) || s.liquidity <= signed)
  {
    hide SqrtRatio, Run, Consistent, NetAt, NetUpTo, SignedUpTo, LastHead, Crosses;
    DrainedDownToLastHead(order, s);
    MagnitudesAgreeIff(order.pool.liquidityNet, LastHead(order, s).tick, s.tick);
  }

  // ----- A negative net is added ----------------------------------------------------------------------

  /** An upward swap of 2^128 units over tick 1, where the net liquidity is -5, up to that tick's price. */
  function NegativeNetOrder(): Order { Order(Pool(map[1 := -5], map[0 := 2], 1), false, 0, SqrtRatio(1)) }

  function NegativeNetState(): State { State(TWO_96, 0, 10, TWO_128, 0) }

  lemma NegativeNetIsLive()
    ensures Live(NegativeNetOrder(), NegativeNetState()) && Consistent(NegativeNetOrder().pool)
  {
    hide SqrtRatio, NetAbove, Consistent;
    SqrtRatioEnds();
    SqrtRatioStep(0);
    OnlyOneNet(0);
    NegativeNetIsMarked();
  }

  lemma NegativeNetIsMarked()
    ensures Consistent(Pool(map[1 := -5], map[0 := 2], 1))
  {
    var bitmap: Bitmap := map[0 := 2];
    assert Position(1) == (0, 1) && Word(bitmap, 0) == 2;
    assert Initialized(1, 1, bitmap);
    hide Initialized;
  }

  lemma {:induction false} OnlyOneNet(tick: int)
    ensures NetAbove(map[1 := -5], tick) <= if tick < 1 then 5 else 0
    decreases MAX_TICK - tick
  {
    if tick < MAX_TICK { OnlyOneNet(tick + 1); }
  }

  /** Ten units of liquidity cross a tick with net -5 upward and become fifteen. */
  lemma NegativeNetIsAdded()
    ensures Live(NegativeNetOrder(), NegativeNetState()) && Consistent(NegativeNetOrder().pool)
    ensures var last := Run(NegativeNetOrder(), NegativeNetState()).outcome.state;
      last.tick == 1 && NegativeNetState().liquidity == 10 && last.liquidity == 15
  {
    hide SqrtRatio, NextTick, StepOf, TickAt, Live, AmountIn, AfterFee, Consistent;
    NegativeNetIsLive();
    var order, s := NegativeNetOrder(), NegativeNetState();
    NextTickInRange(order, s);
    NextTickSkipsNothing(order, s);
    assert NetAt(order.pool.liquidityNet, 1) == 5;
    assert NextTick(order, s) == 1;
    SqrtRatioEnds();
    SqrtRatioStep(0);
    SqrtRatioBelow160(1);
    Affordable(SqrtRatio(1));
    CrossesIff(order, s);
    Iteration(order, s);
    FirstStep(order, Cross(order, After(s, Run(order, s).steps[0]), 1));
  }

  lemma Affordable(target: nat)
    requires TWO_96 < target < TWO_160
    ensures AmountIn(TWO_96, target, 10, false) <= AfterFee(TWO_128, 0)
  {
    hide CeilDiv, FloorDiv;
    FloorIs(TWO_128 * FEE_UNITS, FEE_UNITS, TWO_128);
    CeilAtMost(10 * (target - TWO_96), TWO_96, TWO_128);
  }
}
