/** Which orders are safe for every live state: conditions on the pool, the fee and the limit alone. */
module OrderTheorems {
  import opened BoundaryTick
  import opened LiquidityTheorems
  import opened Rounding
  import opened SignedNets
  import opened SqrtPriceMath
  import opened SwapLoop
  import opened SwapStep
  import opened SwapTheorems
  import opened TickBitmap
  import opened TickMath
  import opened Word256

  // ----- Division by zero -----------------------------------------------------------------------------

  lemma NothingLeftIff(remaining: nat, fee: nat)
    requires fee < FEE_UNITS
    ensures AfterFee(remaining, fee) == 0 <==> remaining * (FEE_UNITS - fee) < FEE_UNITS
  {
    FloorBounds(remaining * (FEE_UNITS - fee), FEE_UNITS);
  }

  /** The condition under which the iteration from a state divides by zero. */
  ghost predicate Divides(order: Order, s: State)
    requires Live(order, s)
  {
    && order.zeroForOne && Open(order, s) && s.liquidity > 0
    && AfterFee(s.remaining, order.fee) == 0 && SqrtRatio(NextTick(order, s)) < s.price
  }

  lemma {:induction false} LastIterationDividesIff(order: Order, s: State)
    requires Live(order, s) && !Crosses(order, s)
    ensures Run(order, s).outcome.DividedByZero? <==> Divides(order, s)
  {
    hide SqrtRatio, NextTick, StepOf, TickAt, AfterFee;
    FirstStep(order, s);
    NextTickNear(order, s);
    CrossesIff(order, s);
    if Run(order, s).steps != [] { Iteration(order, s); }
    if Open(order, s) && NextTick(order, s) <= MAX_TICK {
      TargetAhead(order, s);
      var target := TargetPrice(order, SqrtRatio(NextTick(order, s)));
      ZeroAfterFeeIff(s.price, target, s.liquidity, s.remaining, order.fee, order.zeroForOne);
      NothingLeftIff(s.remaining, order.fee);
    }
    hide Crosses;
  }

  /** A whole run divides by zero exactly when it goes down and its last iteration starts with something
      left, nothing of it after the fee, liquidity, and a next tick below the price. */
  lemma {:induction false} DividesByZeroIff(order: Order, s: State)
    requires Live(order, s)
    ensures Live(order, LastHead(order, s))
    ensures Run(order, s).outcome.DividedByZero? <==> Divides(order, LastHead(order, s))
    decreases Distance(order, s)
  {
    hide SqrtRatio, NextTick, StepOf, TickAt, Run, Live, AfterFee, Crosses, Divides;
    LiveFacts(order, s);
    if Crosses(order, s) {
      CrossesIff(order, s);
      Iteration(order, s);
      DividesByZeroIff(order, Cross(order, After(s, Run(order, s).steps[0]), NextTick(order, s)));
    } else {
      LastIterationDividesIff(order, s);
    }
  }

  /** One unit of input and of liquidity, at the price of the highest tick. */
  function OneUnitAtTop(): State { State(SqrtRatio(MAX_TICK), MAX_TICK - 1, 1, 1, 0) }

  lemma TopDivides(order: Order)
    requires ValidOrder(order) && order.zeroForOne && order.limit < SqrtRatio(MAX_TICK) && order.fee > 0
    ensures Live(order, OneUnitAtTop()) && Run(order, OneUnitAtTop()).outcome.DividedByZero?
  {
    hide SqrtRatio, NextTick, StepOf, TickAt, AfterFee;
    var s := OneUnitAtTop();
    SqrtRatioStep(MAX_TICK - 1);
    NextTickNear(order, s);
    TargetAhead(order, s);
    SqrtRatioMonotone(NextTick(order, s), MAX_TICK - 1);
    ZeroAfterFeeIff(s.price, TargetPrice(order, SqrtRatio(NextTick(order, s))), 1, 1, order.fee, true);
  }

  /** A limit at or above the highest price leaves a downward run nothing to do. */
  lemma {:induction false} NoRoom(order: Order, s: State)
    requires Live(order, s) && order.zeroForOne && SqrtRatio(MAX_TICK) <= order.limit
    ensures !Open(order, s) && Run(order, s) == RunResult([], Completed(s)) && LastHead(order, s) == s
  {
    hide SqrtRatio;
    SqrtRatioMonotone(Min(s.tick + 1, MAX_TICK), MAX_TICK);
  }

  /** A downward order never divides by zero, whatever the state of the pool, exactly when it has no fee
      or its limit leaves no room. */
  lemma NeverDividesIff(order: Order)
    requires ValidOrder(order) && order.zeroForOne
    ensures (forall s: State :: Live(order, s) ==> !Run(order, s).outcome.DividedByZero?)
      <==> order.fee == 0 || SqrtRatio(MAX_TICK) <= order.limit
  {
    hide SqrtRatio, Live, Run;
    if order.fee == 0 || SqrtRatio(MAX_TICK) <= order.limit {
      forall s: State | Live(order, s) ensures !Run(order, s).outcome.DividedByZero? {
        RunKeeps(order, s);
        if SqrtRatio(MAX_TICK) <= order.limit { NoRoom(order, s); }
      }
    } else {
      TopDivides(order);
    }
  }

  // ----- Signed net liquidity -------------------------------------------------------------------------

  lemma {:induction false} NetAboveMonotone(net: Nets, low: int, high: int)
    requires low <= high <= MAX_TICK
    ensures NetAbove(net, high) <= NetAbove(net, low)
    decreases high - low
  {
    if low < high { NetAboveMonotone(net, low + 1, high); }
  }

  /** A tick with net liquidity is the next tick from the tick before it, going up, and from itself,
      going down. */
  lemma NextTickIsNet(order: Order, s: State, t: int)
    requires Live(order, s) && Consistent(order.pool) && NetAt(order.pool.liquidityNet, t) != 0
    requires s.tick == if order.zeroForOne then t else t - 1
    ensures NextTick(order, s) == t
  {
    hide SqrtRatio, NextTick, Live, Consistent, NetAt;
    NextTickInRange(order, s);
    NextTickSkipsNothing(order, s);
  }

  /** An upward run gains the signed net liquidity of the ticks it passes. */
  ghost predicate GainIsSigned(order: Order, s: State)
    requires Live(order, s)
  {
    var last, net := Run(order, s).outcome.state, order.pool.liquidityNet;
    last.liquidity == s.liquidity + SignedUpTo(net, last.tick) - SignedUpTo(net, s.tick)
  }

  /** No tick whose price the order may reach going up has a negative net. */
  ghost predicate NoneNegativeBelow(net: Nets, limit: nat) {
    forall t :: MIN_TICK <= t <= MAX_TICK && SqrtRatio(t) <= limit ==> SignedAt(net, t) >= 0
  }

  lemma PositiveNetsGainSigned(order: Order, s: State)
    requires Live(order, s) && !order.zeroForOne && Consistent(order.pool)
    requires NoneNegativeBelow(order.pool.liquidityNet, order.limit)
    ensures GainIsSigned(order, s)
  {
    hide SqrtRatio, Run, Consistent, SignedUpTo, NetUpTo, NetAt, SignedAt;
    GainIsSignedIff(order, s);
    RunKeeps(order, s);
    var last := Run(order, s).outcome.state;
    forall t | s.tick < t <= last.tick ensures SignedAt(order.pool.liquidityNet, t) >= 0 {
      SqrtRatioMonotone(t, last.tick);
    }
  }

  /** A state without liquidity just before a tick. */
  function Before(t: int): State {
    State(if t == MIN_TICK then 1 else SqrtRatio(t - 1), t - 1, 0, 1, 0)
  }

  lemma BeforeIsLive(order: Order, t: int)
    requires ValidOrder(order) && !order.zeroForOne && NetAbove(order.pool.liquidityNet, MIN_TICK - 1) < TWO_128
    requires MIN_TICK <= t <= MAX_TICK && SqrtRatio(t) <= order.limit
    ensures Live(order, Before(t)) && Before(t).price < SqrtRatio(t)
  {
    hide SqrtRatio, NetAbove;
    NetAboveMonotone(order.pool.liquidityNet, MIN_TICK - 1, t - 1);
    SqrtRatioEnds();
    if t == MIN_TICK {
      SqrtRatioOutside(t - 1);
    } else {
      SqrtRatioStep(t - 1);
      SqrtRatioBelow160(t - 1);
    }
  }

  lemma NoLiquidityCosts(price: nat, target: nat, zeroForOne: bool)
    requires Toward(price, target, zeroForOne)
    ensures AmountIn(price, target, 0, zeroForOne) == 0
  {
    if zeroForOne { NoLiquidityNoAmount(target, price); } else { NoLiquidityNoAmount(price, target); }
  }

  lemma NegativeNetGainsWrong(order: Order, t: int)
    requires ValidOrder(order) && !order.zeroForOne && Consistent(order.pool)
    requires NetAbove(order.pool.liquidityNet, MIN_TICK - 1) < TWO_128
    requires MIN_TICK <= t <= MAX_TICK && SqrtRatio(t) <= order.limit && SignedAt(order.pool.liquidityNet, t) < 0
    ensures Live(order, Before(t)) && !GainIsSigned(order, Before(t))
  {
    hide SqrtRatio, NextTick, StepOf, TickAt, Live, AmountIn, AfterFee, Consistent, NetAbove, SignedUpTo, NetUpTo, Run;
    BeforeIsLive(order, t);
    var s := Before(t);
    NextTickIsNet(order, s, t);
    TargetAhead(order, s);
    NoLiquidityCosts(s.price, SqrtRatio(t), false);
    CrossesIff(order, s);
    Iteration(order, s);
    LiquidityGainedGoingUp(order, Cross(order, After(s, Run(order, s).steps[0]), t));
    GainIsSignedIff(order, s);
    assert SignedAt(order.pool.liquidityNet, t) < 0;
  }

  /** An upward order gains the signed net liquidity of the ticks passed, whatever the state of the pool,
      exactly when no tick up to its limit has a negative net. */
  lemma GainIsAlwaysSignedIff(order: Order)
    requires ValidOrder(order) && !order.zeroForOne && Consistent(order.pool)
    requires NetAbove(order.pool.liquidityNet, MIN_TICK - 1) < TWO_128
    ensures (forall s: State :: Live(order, s) ==> GainIsSigned(order, s))
      <==> NoneNegativeBelow(order.pool.liquidityNet, order.limit)
  {
    hide SqrtRatio, Live, Consistent, NetAbove, GainIsSigned, SignedAt;
    var net := order.pool.liquidityNet;
    if NoneNegativeBelow(net, order.limit) {
      forall s: State | Live(order, s) ensures GainIsSigned(order, s) { PositiveNetsGainSigned(order, s); }
    } else {
      var t :| MIN_TICK <= t <= MAX_TICK && SqrtRatio(t) <= order.limit && SignedAt(net, t) < 0;
      NegativeNetGainsWrong(order, t);
    }
  }

  /** A downward run loses the signed net liquidity of the ticks it crosses, floored at zero. */
  ghost predicate LossIsSigned(order: Order, s: State)
    requires Live(order, s) && order.zeroForOne && Consistent(order.pool)
  {
    DrainedDownToLastHead(order, s);
    var net := order.pool.liquidityNet;
    Run(order, s).outcome.state.liquidity
    == FlooredAtZero(s.liquidity - (SignedUpTo(net, s.tick) - SignedUpTo(net, LastHead(order, s).tick)))
  }

  ghost predicate NoneNegativeAbove(net: Nets, limit: nat) {
    forall t :: MIN_TICK <= t <= MAX_TICK && limit <= SqrtRatio(t) ==> SignedAt(net, t) >= 0
  }

  lemma PositiveNetsLoseSigned(order: Order, s: State)
    requires Live(order, s) && order.zeroForOne && Consistent(order.pool)
    requires NoneNegativeAbove(order.pool.liquidityNet, order.limit)
    ensures LossIsSigned(order, s)
  {
    hide SqrtRatio, Run, Consistent, SignedUpTo, NetUpTo, NetAt, SignedAt, LastHead, Crosses;
    LossIsSignedIff(order, s);
    var head := LastHead(order, s);
    forall t | head.tick < t <= s.tick ensures SignedAt(order.pool.liquidityNet, t) >= 0 {
      SqrtRatioMonotone(head.tick + 1, t);
    }
  }

  /** A state on a tick, with all the liquidity there may be, or with none where the tick is the limit. */
  function On(order: Order, t: int): State {
    if SqrtRatio(t) == order.limit then State(SqrtRatio(t + 1), t, 0, 1, 0)
    else State(SqrtRatio(t), t, TWO_128 - 1, 1, 0)
  }

  lemma OnIsLive(order: Order, t: int)
    requires ValidOrder(order) && order.zeroForOne && order.limit < SqrtRatio(MAX_TICK)
    requires MIN_TICK <= t <= MAX_TICK && order.limit <= SqrtRatio(t)
    ensures Live(order, On(order, t)) && Open(order, On(order, t))
  {
    hide SqrtRatio;
    if t < MAX_TICK { SqrtRatioStep(t); }
    SqrtRatioBelow160(t);
    SqrtRatioBelow160(t + 1);
  }

  lemma NoDistanceCosts(price: nat, liquidity: nat)
    requires price > 0
    ensures AmountIn(price, price, liquidity, true) == 0
  {
    ProductPositive(price, price);
    CeilIs(0, price * price, 0);
  }

  /** From there the run crosses the tick. */
  lemma OnCrosses(order: Order, t: int)
    requires ValidOrder(order) && order.zeroForOne && order.limit < SqrtRatio(MAX_TICK) && Consistent(order.pool)
    requires MIN_TICK <= t <= MAX_TICK && order.limit <= SqrtRatio(t) && NetAt(order.pool.liquidityNet, t) != 0
    ensures Live(order, On(order, t)) && Live(order, LastHead(order, On(order, t)))
    ensures LastHead(order, On(order, t)).tick < t
    ensures SqrtRatio(t) == order.limit ==> LastHead(order, On(order, t)).tick == t - 1
  {
    hide SqrtRatio, NextTick, StepOf, TickAt, Live, AmountIn, AfterFee, Consistent, NetAt, Run;
    OnIsLive(order, t);
    var s := On(order, t);
    NextTickIsNet(order, s, t);
    TargetAhead(order, s);
    if SqrtRatio(t) == order.limit {
      NoLiquidityCosts(s.price, SqrtRatio(t), true);
    } else {
      NoDistanceCosts(s.price, s.liquidity);
    }
    assert Crosses(order, s);
    CrossesIff(order, s);
    Iteration(order, s);
    var crossed := Cross(order, After(s, Run(order, s).steps[0]), t);
    DrainedDownToLastHead(order, crossed);
    if SqrtRatio(t) == order.limit { assert !Crosses(order, crossed); }
  }

  lemma NegativeNetLosesWrong(order: Order, t: int)
    requires ValidOrder(order) && order.zeroForOne && order.limit < SqrtRatio(MAX_TICK) && Consistent(order.pool)
    requires NetUpTo(order.pool.liquidityNet, MAX_TICK) < TWO_128
    requires MIN_TICK <= t <= MAX_TICK && order.limit <= SqrtRatio(t) && SignedAt(order.pool.liquidityNet, t) < 0
    ensures Live(order, On(order, t)) && !LossIsSigned(order, On(order, t))
  {
    hide SqrtRatio, Live, Consistent, NetUpTo, Run, LastHead, Crosses;
    var s, net := On(order, t), order.pool.liquidityNet;
    OnCrosses(order, t);
    LossIsSignedIff(order, s);
    var bottom := LastHead(order, s).tick;
    assert SignedUpTo(net, t) == SignedAt(net, t) + SignedUpTo(net, t - 1);
    hide SignedUpTo;
    LiveTick(order, LastHead(order, s));
    NetUpToMonotone(net, t, MAX_TICK);
    MagnitudesAgreeIff(net, bottom, t);
    assert SignedAt(net, t) < 0 && bottom < t <= s.tick;
  }

  lemma LiveTick(order: Order, s: State)
    requires Live(order, s)
    ensures MIN_TICK - 1 <= s.tick <= MAX_TICK
  {
    hide SqrtRatio;
  }

  lemma {:induction false} NetUpToMonotone(net: Nets, low: int, high: int)
    requires low <= high
    ensures NetUpTo(net, low) <= NetUpTo(net, high)
    decreases high - low
  {
    if low < high { NetUpToMonotone(net, low, high - 1); }
  }

  lemma NoRoomLosesSigned(order: Order, s: State)
    requires Live(order, s) && order.zeroForOne && Consistent(order.pool) && SqrtRatio(MAX_TICK) <= order.limit
    ensures LossIsSigned(order, s)
  {
    hide SqrtRatio, Live, Consistent, LastHead, Run;
    NoRoom(order, s);
  }

  /** A downward order loses the signed net liquidity of the ticks crossed, floored at zero, whatever the
      state of the pool, exactly when no tick from its limit up has a negative net, or the limit leaves
      no room. */
  lemma LossIsAlwaysSignedIff(order: Order)
    requires ValidOrder(order) && order.zeroForOne && Consistent(order.pool)
    requires NetUpTo(order.pool.liquidityNet, MAX_TICK) < TWO_128
    ensures (forall s: State :: Live(order, s) ==> LossIsSigned(order, s))
      <==> NoneNegativeAbove(order.pool.liquidityNet, order.limit) || SqrtRatio(MAX_TICK) <= order.limit
  {
    hide SqrtRatio, Live, Consistent, NetUpTo, LossIsSigned, SignedAt;
    var net := order.pool.liquidityNet;
    if NoneNegativeAbove(net, order.limit) {
      forall s: State | Live(order, s) ensures LossIsSigned(order, s) { PositiveNetsLoseSigned(order, s); }
    } else if SqrtRatio(MAX_TICK) <= order.limit {
      forall s: State | Live(order, s) ensures LossIsSigned(order, s) { NoRoomLosesSigned(order, s); }
    } else {
      var t :| MIN_TICK <= t <= MAX_TICK && order.limit <= SqrtRatio(t) && SignedAt(net, t) < 0;
      NegativeNetLosesWrong(order, t);
    }
  }

  // ----- The reported tick ----------------------------------------------------------------------------

  /** The tick a downward run reports agrees with the liquidity it kept. */
  ghost predicate ReportsRightTick(order: Order, s: State)
    requires Live(order, s)
  {
    var last := Run(order, s).outcome.state;
    DrainedDownTo(order.pool.liquidityNet, s, last, last.tick)
  }

  /** A price some input cannot leave downward when the liquidity is largest. */
  predicate Sticky(price: nat) { price * (price - 1) < (TWO_128 - 1) * TWO_96 }

  ghost predicate NoneSticky(net: Nets, limit: nat) {
    forall t :: MIN_TICK <= t <= MAX_TICK && limit < SqrtRatio(t) && NetAt(net, t) != 0 ==> !Sticky(SqrtRatio(t))
  }

  lemma StuckMeansSticky(order: Order, s: State)
    requires Live(order, s) && order.zeroForOne && StuckOnBoundary(order, s)
    ensures MIN_TICK <= s.tick + 1 <= MAX_TICK && order.limit < SqrtRatio(s.tick + 1)
    ensures NetAt(order.pool.liquidityNet, s.tick + 1) != 0 && Sticky(SqrtRatio(s.tick + 1))
  {
    hide SqrtRatio, NetAt, AfterFee;
    var input, square := AfterFee(s.remaining, order.fee), s.price * (s.price - 1);
    Assoc(input, s.price, s.price - 1);
    MulMono(0, s.price, s.price - 1);
    MulMono(1, input, square);
    MulMono(s.liquidity, TWO_128 - 1, TWO_96);
  }

  lemma NoneStickyReportsRight(order: Order, s: State)
    requires Live(order, s) && order.zeroForOne && Consistent(order.pool)
    requires NoneSticky(order.pool.liquidityNet, order.limit)
    ensures ReportsRightTick(order, s)
  {
    hide SqrtRatio, Live, Run, Consistent, NetAt, StuckOnBoundary, Sticky, LastHead, DrainedDownTo;
    ReportedTickAgreesIff(order, s);
    if StuckOnBoundary(order, LastHead(order, s)) { StuckMeansSticky(order, LastHead(order, s)); }
  }

  /** The least input that leaves one unit after the fee. */
  function OneAfterFee(fee: nat): nat
    requires fee < FEE_UNITS
  {
    CeilDiv(FEE_UNITS, FEE_UNITS - fee)
  }

  lemma OneUnitIsLeft(fee: nat)
    requires fee < FEE_UNITS
    ensures 0 < OneAfterFee(fee) <= FEE_UNITS && AfterFee(OneAfterFee(fee), fee) == 1
  {
    hide CeilDiv, FloorDiv;
    var keep, input := FEE_UNITS - fee, OneAfterFee(fee);
    CeilBounds(FEE_UNITS, keep);
    MulMono(1, keep, FEE_UNITS);
    CeilAtMost(FEE_UNITS, keep, FEE_UNITS);
    CeilAbove(FEE_UNITS, keep, 0);
    if fee == 0 { CeilIs(FEE_UNITS, FEE_UNITS, 1); }
    FloorIs(input * keep, FEE_UNITS, 1);
  }

  /** A state on the boundary below a tick, with all the liquidity there may be and one unit of input. */
  function Below(t: int, fee: nat): State
    requires fee < FEE_UNITS
  {
    State(SqrtRatio(t), t - 1, TWO_128 - 1, OneAfterFee(fee), 0)
  }

  lemma BelowIsStuck(order: Order, t: int)
    requires ValidOrder(order) && order.zeroForOne
    requires MIN_TICK <= t <= MAX_TICK && order.limit < SqrtRatio(t) && NetAt(order.pool.liquidityNet, t) != 0
    requires Sticky(SqrtRatio(t))
    ensures var s := Below(t, order.fee); Live(order, s) && StuckOnBoundary(order, s) && !Crosses(order, s)
  {
    hide SqrtRatio, NextTick, Amount0Up, OneAfterFee, AfterFee, NetAt;
    var s := Below(t, order.fee);
    OneUnitIsLeft(order.fee);
    SqrtRatioMonotone(t - 1, t);
    if t > MIN_TICK { SqrtRatioStep(t - 1); }
    SqrtRatioOutside(MIN_TICK - 1);
    if Crosses(order, s) {
      NextTickInRange(order, s);
      TargetAhead(order, s);
      SqrtRatioMonotone(NextTick(order, s), t - 1);
      ArrivingIsEnough(s.price, SqrtRatio(NextTick(order, s)), s.liquidity, 1);
      assert false;
    }
  }

  /** A downward order reports the right tick, whatever the state of the pool, exactly when no tick with
      net liquidity above its limit has a sticky price. */
  lemma AlwaysReportsRightTickIff(order: Order)
    requires ValidOrder(order) && order.zeroForOne && Consistent(order.pool)
    ensures (forall s: State :: Live(order, s) ==> ReportsRightTick(order, s))
      <==> NoneSticky(order.pool.liquidityNet, order.limit)
  {
    hide SqrtRatio, Live, Run, Consistent, NetAt, Sticky, DrainedDownTo, StuckOnBoundary;
    var net := order.pool.liquidityNet;
    if NoneSticky(net, order.limit) {
      forall s: State | Live(order, s) ensures ReportsRightTick(order, s) { NoneStickyReportsRight(order, s); }
    } else {
      var t :| MIN_TICK <= t <= MAX_TICK && order.limit < SqrtRatio(t) && NetAt(net, t) != 0 && Sticky(SqrtRatio(t));
      BelowIsStuck(order, t);
      var s := Below(t, order.fee);
      assert LastHead(order, s) == s;
      ReportedTickAgreesIff(order, s);
    }
  }
}
