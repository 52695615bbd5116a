/** Which tick a downward run reports when it ends on a boundary between two ticks. */
module BoundaryTick {
  import opened LiquidityTheorems
  import opened Rounding
  import opened SqrtPriceMath
  import opened SwapLoop
  import opened SwapStep
  import opened SwapTheorems
  import opened TickBitmap
  import opened TickMath
  import opened Word256

  // ----- When the price does not move ---------------------------------------------------------------

  /** An input leaves the price where it is exactly when it is too small against the liquidity. */
  lemma StaysPutIff(price: nat, liquidity: nat, input: nat)
    requires 0 < price < TWO_160 && liquidity < TWO_128 && 0 < input < TWO_160
    ensures NextDown(price, liquidity, input) == price <==> input * price * (price - 1) < liquidity * TWO_96
  {
    var n, product := liquidity * TWO_96, input * price;
    ProductPositive(input, price);
    NextDownBracket(price, liquidity, input);
    if n + product < TWO_256 {
      ExactStays(n, price, product);
    } else {
      // the input is then large: product is at least 2^255, and n below 2^224
      Spread(price, 1, input);
      MulMono(price, 2 * (price - 1), input);
      FallbackMoves(n, price, input);
    }
    hide CeilDiv, FloorDiv;
  }

  lemma ExactStays(n: nat, price: nat, product: nat)
    requires price > 0 && product > 0
    ensures CeilDiv(n * price, n + product) == price <==> product * (price - 1) < n
  {
    hide FloorDiv;
    var d, q := n + product, CeilDiv(n * price, n + product);
    CeilBounds(n * price, d);
    Spread(price, 1, d);
    Spread(n, product, price);
    Spread(price, 1, product);
    CeilAtMost(n * price, d, price);
    if product * (price - 1) < n {
      CeilAbove(n * price, d, price - 1);
    } else {
      CeilAtMost(n * price, d, price - 1);
    }
    hide CeilDiv;
  }

  /** The fallback always moves the price when the input is large. */
  lemma FallbackMoves(n: nat, price: nat, input: nat)
    requires 1 < price && 0 < input && n <= input * (price - 1)
    ensures FloorDiv(n, price) + input > 0 && CeilDiv(n, FloorDiv(n, price) + input) < price
    ensures n <= input * price * (price - 1)
  {
    hide FloorDiv, CeilDiv;
    FloorAtLeast(n, price, 0);
    FloorBounds(n, price);
    MulMono(input, FloorDiv(n, price) + input, price - 1);
    CeilAtMost(n, FloorDiv(n, price) + input, price - 1);
    MulMono(1, price, input);
    MulMono(input, input * price, price - 1);
  }

  /** An input that pays for a move to a lower target is not too small. */
  lemma ArrivingIsEnough(price: nat, target: nat, liquidity: nat, input: nat)
    requires 0 < target < price && Amount0Up(target, price, liquidity) <= input
    ensures liquidity * TWO_96 <= input * price * (price - 1)
  {
    hide CeilDiv;
    var n := liquidity * TWO_96;
    ProductPositive(target, price);
    CeilBounds(n * (price - target), target * price);
    MulMono(Amount0Up(target, price, liquidity), input, target * price);
    MulMono(1, price - target, n);
    MulMono(target, price - 1, input * price);
    Assoc(input, price, target);
  }

  // ----- Where the last iteration starts ------------------------------------------------------------

  /** The iteration from a state reaches the price of the next tick. */
  ghost predicate Crosses(order: Order, s: State)
    requires Live(order, s)
  {
    && Open(order, s) && NextTick(order, s) <= MAX_TICK
    && TargetPrice(order, SqrtRatio(NextTick(order, s))) == SqrtRatio(NextTick(order, s))
    && (TargetAhead(order, s);
        AmountIn(s.price, SqrtRatio(NextTick(order, s)), s.liquidity, order.zeroForOne)
        <= AfterFee(s.remaining, order.fee))
  }

  lemma {:induction false} CrossesIff(order: Order, s: State)
    requires Live(order, s)
    ensures Crosses(order, s)
      <==> Run(order, s).steps != [] && Run(order, s).steps[0].next == SqrtRatio(NextTick(order, s))
  {
    hide SqrtRatio, NextTick, TickAt, AmountIn, AfterFee, StepOf;
    FirstStep(order, s);
    if Open(order, s) && NextTick(order, s) <= MAX_TICK {
      TargetAhead(order, s);
      var target := TargetPrice(order, SqrtRatio(NextTick(order, s)));
      StepBounds(s.price, target, s.liquidity, s.remaining, order.fee, order.zeroForOne);
      StepMovesIf(s.price, target, s.liquidity, s.remaining, order.fee, order.zeroForOne);
      if Run(order, s).steps != [] {
        Iteration(order, s);
        if Run(order, s).steps[0].next != target { ShortOfTarget(order, s); }
      }
    }
  }

  lemma StepMovesIf(price: nat, target: nat, liquidity: nat, remaining: nat, fee: nat, zeroForOne: bool)
    requires Toward(price, target, zeroForOne) && fee < FEE_UNITS
    ensures AmountIn(price, target, liquidity, zeroForOne) <= AfterFee(remaining, fee) ==>
      StepOf(price, target, liquidity, remaining, fee, zeroForOne).Moved?
  {
    hide AmountIn, AfterFee;
  }

  /** The state in which the last iteration of a run starts: every iteration before it crossed a tick. */
  ghost function LastHead(order: Order, s: State): State
    requires Live(order, s)
    decreases Distance(order, s)
  {
    if !Crosses(order, s) then s
    else
      CrossesIff(order, s);
      Iteration(order, s);
      LastHead(order, Cross(order, After(s, Run(order, s).steps[0]), NextTick(order, s)))
  }

  // ----- Downward -------------------------------------------------------------------------------------

  ghost predicate DrainedDownTo(net: Nets, s: State, last: State, tick: int) {
    && NetUpTo(net, tick) <= NetUpTo(net, s.tick)
    && last.liquidity == Drained(s.liquidity, NetUpTo(net, s.tick) - NetUpTo(net, tick))
  }

  /** The iteration from a state starts on the upper boundary of its tick, the tick there carries net
      liquidity, and the input left after the fee is too small to leave the boundary. */
  ghost predicate StuckOnBoundary(order: Order, s: State)
    requires Live(order, s)
  {
    var input := AfterFee(s.remaining, order.fee);
    && Open(order, s) && s.tick < MAX_TICK && s.price == SqrtRatio(s.tick + 1)
    && NetAt(order.pool.liquidityNet, s.tick + 1) != 0
    && 0 < input && input * s.price * (s.price - 1) < s.liquidity * TWO_96
  }

  /** Where a downward step stops short, it takes the price to NextDown. */
  lemma StopsAtNextDown(price: nat, target: nat, liquidity: nat, remaining: nat, fee: nat)
    requires Toward(price, target, true) && fee < FEE_UNITS
    requires AfterFee(remaining, fee) < AmountIn(price, target, liquidity, true)
    ensures var outcome := StepOf(price, target, liquidity, remaining, fee, true);
      if AfterFee(remaining, fee) == 0 then outcome.ZeroAfterFee?
      else outcome.Moved? && outcome.step.next == NextDown(price, liquidity, AfterFee(remaining, fee))
  {
    hide AmountIn, AmountOut, AfterFee, NextDown;
  }

  /** A last iteration that goes down leaves the price where it is exactly when its input is too small. */
  lemma {:induction false} StaysIff(order: Order, s: State)
    requires Live(order, s) && order.zeroForOne && Open(order, s) && !Crosses(order, s)
    ensures var input := AfterFee(s.remaining, order.fee);
      Run(order, s).steps != [] && Run(order, s).steps[0].next == s.price
      <==> 0 < input && input * s.price * (s.price - 1) < s.liquidity * TWO_96
  {
    hide SqrtRatio, NextTick, TickAt, StepOf, NextDown, Amount0Up, MulDiv, AfterFee;
    var input := AfterFee(s.remaining, order.fee);
    NextTickNear(order, s);
    TargetAhead(order, s);
    CodeAfterFee(s.remaining, order.fee);
    var target := TargetPrice(order, SqrtRatio(NextTick(order, s)));
    StepBounds(s.price, target, s.liquidity, s.remaining, order.fee, true);
    if input < AmountIn(s.price, target, s.liquidity, true) {
      StopsAtNextDown(s.price, target, s.liquidity, s.remaining, order.fee);
      if input > 0 { StaysPutIff(s.price, s.liquidity, input); }
    } else {
      ArrivingIsEnough(s.price, target, s.liquidity, input);
    }
  }

  /** What the last iteration of a downward run does: it takes no liquidity, and no net liquidity lies
      between the tick it reports and the tick it starts on, unless it is stuck on the boundary. */
  lemma {:induction false} LastIteration(order: Order, s: State)
    requires Live(order, s) && order.zeroForOne && Consistent(order.pool) && !Crosses(order, s)
    ensures var last, net := Run(order, s).outcome.state, order.pool.liquidityNet;
      && last.liquidity == s.liquidity
      && if StuckOnBoundary(order, s) then last.price == SqrtRatio(last.tick) && last.tick == s.tick + 1
         else NetUpTo(net, last.tick) == NetUpTo(net, s.tick)
  {
    hide SqrtRatio, NextTick, TickAt, StepOf, Run, Live, AfterFee, NetAt, Consistent;
    FirstStep(order, s);
    CrossesIff(order, s);
    LiveFacts(order, s);
    if Open(order, s) { StaysIff(order, s); }
    if Run(order, s).steps != [] {
      Iteration(order, s);
      NextTickSkipsNothing(order, s);
      NextTickInRange(order, s);
      TickFoundGoingDown(order, s);
      var net, tick := order.pool.liquidityNet, TickAt(Run(order, s).steps[0].next);
      if tick <= s.tick { NoNetBetween(net, tick, s.tick); }
    }
  }

  /** Going down, the liquidity lost is the net liquidity of the ticks passed, never below zero. The ticks
      passed are those above the reported tick, and the reported tick too exactly when the last iteration
      was stuck on its boundary. */
  lemma {:induction false} LiquidityLostGoingDown(order: Order, s: State)
    requires Live(order, s) && order.zeroForOne && Consistent(order.pool)
    ensures Live(order, LastHead(order, s))
    ensures var last, net := Run(order, s).outcome.state, order.pool.liquidityNet;
      if StuckOnBoundary(order, LastHead(order, s)) then
        && last.price == SqrtRatio(last.tick) && NetAt(net, last.tick) != 0 && last.liquidity > 0
        && MIN_TICK <= last.tick && DrainedDownTo(net, s, last, last.tick - 1)
      else DrainedDownTo(net, s, last, last.tick)
    decreases Distance(order, s)
  {
    hide SqrtRatio, NextTick, StepOf, TickAt, Run, Live, Consistent, NetAt, AfterFee;
    if Crosses(order, s) {
      CrossesIff(order, s);
      Iteration(order, s);
      NextTickSkipsNothing(order, s);
      NextTickInRange(order, s);
      CrossedTickExists(order, s);
      var step, next, net := Run(order, s).steps[0], NextTick(order, s), order.pool.liquidityNet;
      LiquidityLostGoingDown(order, Cross(order, After(s, step), next));
      NoNetBetween(net, next, s.tick);
      CrossNet(order, After(s, step), next);
    } else {
      LastIteration(order, s);
      StuckHasLiquidity(order, s);
    }
  }

  /** The ticks crossed going down are those above the tick the last iteration starts on. */
  lemma {:induction false} DrainedDownToLastHead(order: Order, s: State)
    requires Live(order, s) && order.zeroForOne && Consistent(order.pool)
    ensures var head := LastHead(order, s);
      && Live(order, head) && !Crosses(order, head) && head.tick <= s.tick
      && DrainedDownTo(order.pool.liquidityNet, s, Run(order, s).outcome.state, head.tick)
    decreases Distance(order, s)
  {
    hide SqrtRatio, NextTick, StepOf, TickAt, Run, Live, Consistent, NetAt, AfterFee, Crosses;
    if Crosses(order, s) {
      CrossesIff(order, s);
      Iteration(order, s);
      NextTickSkipsNothing(order, s);
      NextTickInRange(order, s);
      CrossedTickExists(order, s);
      var step, next, net := Run(order, s).steps[0], NextTick(order, s), order.pool.liquidityNet;
      DrainedDownToLastHead(order, Cross(order, After(s, step), next));
      NoNetBetween(net, next, s.tick);
      CrossNet(order, After(s, step), next);
    } else {
      LastIteration(order, s);
    }
  }

  lemma StuckHasLiquidity(order: Order, s: State)
    requires Live(order, s)
    ensures StuckOnBoundary(order, s) ==> s.liquidity > 0 && MIN_TICK <= s.tick + 1
  {
    hide SqrtRatio, NetAt, AfterFee;
    if StuckOnBoundary(order, s) {
      var input := AfterFee(s.remaining, order.fee);
      MulMono(0, input, s.price);
      MulMono(0, input * s.price, s.price - 1);
    }
  }

  /** The exact condition, for whole runs: the tick a downward run reports agrees with the liquidity it
      kept unless its last iteration was stuck on the boundary. */
  lemma ReportedTickAgreesIff(order: Order, s: State)
    requires Live(order, s) && order.zeroForOne && Consistent(order.pool)
    ensures Live(order, LastHead(order, s))
    ensures var last, net := Run(order, s).outcome.state, order.pool.liquidityNet;
      DrainedDownTo(net, s, last, last.tick) <==> !StuckOnBoundary(order, LastHead(order, s))
  {
    hide SqrtRatio, Run, Live, Consistent, NetAt, LastHead, StuckOnBoundary;
    LiquidityLostGoingDown(order, s);
  }

  /** For a run that crosses no tick, the condition on its inputs alone. */
  lemma {:induction false} SingleIterationAgreesIff(order: Order, s: State)
    requires Live(order, s) && order.zeroForOne && Consistent(order.pool)
    requires Open(order, s) && 0 < AfterFee(s.remaining, order.fee) && !Crosses(order, s)
    ensures var last, net := Run(order, s).outcome.state, order.pool.liquidityNet;
      DrainedDownTo(net, s, last, last.tick)
      <==> !(s.tick < MAX_TICK && s.price == SqrtRatio(s.tick + 1) && NetAt(net, s.tick + 1) != 0
             && AfterFee(s.remaining, order.fee) * s.price * (s.price - 1) < s.liquidity * TWO_96)
  {
    hide SqrtRatio, Run, Live, Consistent, NetAt, AfterFee, Crosses;
    ReportedTickAgreesIff(order, s);
  }

  // ----- The boundary case happens --------------------------------------------------------------------

  /** One unit of input, no fee, a large liquidity, and the price on the boundary above tick -1. */
  function BoundaryOrder(): Order { Order(Pool(map[0 := 1], map[0 := 1], 1), true, 0, MIN_SQRT_RATIO + 1) }

  function BoundaryState(): State { State(TWO_96, -1, 0x8000_0000_0000_0000_0000_0000_0000_0000 - 1, 1, 0) }

  lemma BoundaryIsLive()
    ensures Live(BoundaryOrder(), BoundaryState())
  {
    hide SqrtRatio;
    SqrtRatioEnds();
    SqrtRatioStep(-1);
  }

  lemma BoundaryIsMarked()
    ensures Consistent(BoundaryOrder().pool)
  {
    var bitmap: Bitmap := map[0 := 1];
    assert Position(0) == (0, 0) && Word(bitmap, 0) == 1;
    assert Initialized(0, 1, bitmap);
    hide Initialized;
  }

  lemma BoundaryIsStuck()
    requires Live(BoundaryOrder(), BoundaryState())
    ensures StuckOnBoundary(BoundaryOrder(), BoundaryState()) && !Crosses(BoundaryOrder(), BoundaryState())
  {
    hide SqrtRatio, NextTick, Live, Amount0Up;
    var order, s := BoundaryOrder(), BoundaryState();
    SqrtRatioEnds();
    FloorIs(FEE_UNITS, FEE_UNITS, 1);
    hide FloorDiv;
    if Crosses(order, s) {
      NextTickInRange(order, s);
      TargetAhead(order, s);
      SqrtRatioStep(-1);
      SqrtRatioMonotone(NextTick(order, s), -1);
      ArrivingIsEnough(s.price, SqrtRatio(NextTick(order, s)), s.liquidity, 1);
      assert false;
    }
  }

  /** A swap too small to leave a boundary reports the tick above it with the liquidity below it. */
  lemma BoundaryTickIsMisreported()
    ensures Live(BoundaryOrder(), BoundaryState()) && Consistent(BoundaryOrder().pool)
    ensures var last := Run(BoundaryOrder(), BoundaryState()).outcome.state;
      && last.tick == 0 && last.liquidity == BoundaryState().liquidity
      && NetAt(BoundaryOrder().pool.liquidityNet, 0) == 1
  {
    hide Live, Consistent, StuckOnBoundary, Crosses, Run;
    BoundaryIsLive();
    BoundaryIsMarked();
    BoundaryIsStuck();
    LastIteration(BoundaryOrder(), BoundaryState());
  }
}
