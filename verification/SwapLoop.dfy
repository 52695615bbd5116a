/** A whole exact-input swap: steps from word edge to initialized tick until the input is used up or
    the limit price is reached. */
module SwapLoop {
  import opened Rounding
  import opened SqrtPriceMath
  import opened SwapStep
  import opened TickBitmap
  import opened TickMath
  import opened Word256

  /** The tick data of a pool: net liquidity by tick, and the bitmap of initialized ticks. */
  datatype Pool = Pool(liquidityNet: map<int, i128>, bitmap: Bitmap, spacing: int)

  datatype Order = Order(pool: Pool, zeroForOne: bool, fee: nat, limit: nat)

  datatype State = State(price: nat, tick: int, liquidity: nat, remaining: int, calculated: nat)

  /** A run completes, or divides by zero in a step, or going up meets a word edge beyond the highest
      tick, whose price reads zero. */
  datatype Outcome = Completed(state: State) | DividedByZero(state: State) | TargetLost(state: State)

  datatype RunResult = RunResult(steps: seq<Step>, outcome: Outcome)

  function Min(a: int, b: int): int { if a < b then a else b }

  // ----- The state a run keeps --------------------------------------------------------------------

  /** The liquidity that could still be added above a tick. */
  function NetAbove(liquidityNet: map<int, i128>, tick: int): nat
    decreases MAX_TICK - tick
  {
    if tick >= MAX_TICK then 0
    else (if tick + 1 in liquidityNet then Abs(liquidityNet[tick + 1]) else 0) + NetAbove(liquidityNet, tick + 1)
  }

  ghost predicate ValidOrder(order: Order) {
    0 < order.pool.spacing <= MAX_TICK && order.fee < FEE_UNITS && 0 < order.limit
  }

  /** The price lies within the current tick, or on the boundary just reached from above. */
  ghost predicate PriceInTick(price: nat, tick: int) {
    && MIN_TICK - 1 <= tick <= MAX_TICK && 0 < price
    && SqrtRatio(tick) <= price <= SqrtRatio(Min(tick + 1, MAX_TICK))
  }

  ghost predicate Live(order: Order, s: State) {
    && ValidOrder(order)
    && PriceInTick(s.price, s.tick)
    && (if order.zeroForOne then order.limit <= s.price else s.price <= order.limit)
    && s.liquidity + (if order.zeroForOne then 0 else NetAbove(order.pool.liquidityNet, s.tick)) < TWO_128
    && 0 <= s.remaining < TWO_160
  }

  predicate Open(order: Order, s: State) { s.remaining != 0 && s.price != order.limit }

  function NextTick(order: Order, s: State): int
    requires order.pool.spacing > 0
  {
    NextInitializedTick(s.tick, order.pool.spacing, order.zeroForOne, order.pool.bitmap).0
  }

  function TargetPrice(order: Order, nextPrice: nat): nat {
    if order.zeroForOne then (if nextPrice < order.limit then order.limit else nextPrice)
    else (if nextPrice > order.limit then order.limit else nextPrice)
  }

  /** Crossing a tick: its net liquidity is applied by magnitude, down or up with the direction. */
  function Cross(order: Order, s: State, nextTick: int): State {
    var net := order.pool.liquidityNet;
    var liquidity :=
      if nextTick !in net then s.liquidity
      else if order.zeroForOne then (if s.liquidity < Abs(net[nextTick]) then 0 else s.liquidity - Abs(net[nextTick]))
      else s.liquidity + Abs(net[nextTick]);
    s.(liquidity := liquidity, tick := if order.zeroForOne then nextTick - 1 else nextTick)
  }

  function After(s: State, step: Step): State {
    s.(price := step.next, remaining := s.remaining - step.Consumed(), calculated := s.calculated + step.amountOut)
  }

  /** Ticks left in the direction of the swap. */
  function Distance(order: Order, s: State): int {
    if order.zeroForOne then s.tick - MIN_TICK + 2 else MAX_TICK - s.tick
  }

  /** The run from a state: the steps taken and how it ended. */
  function Run(order: Order, s: State): RunResult
    requires Live(order, s)
    decreases Distance(order, s)
  {
    if !Open(order, s) then RunResult([], Completed(s))
    else
      NextTickNear(order, s);
      var nextTick := NextTick(order, s);
      if nextTick > MAX_TICK then RunResult([], TargetLost(s))
      else
        TargetAhead(order, s);
        var target := TargetPrice(order, SqrtRatio(nextTick));
        match StepOf(s.price, target, s.liquidity, s.remaining, order.fee, order.zeroForOne)
        case ZeroAfterFee => RunResult([], DividedByZero(s))
        case Moved(step) =>
          if step.next == SqrtRatio(nextTick) then
            CrossStaysLive(order, s, step);
            var rest := Run(order, Cross(order, After(s, step), nextTick));
            RunResult([step] + rest.steps, rest.outcome)
          else
            RunResult([step], Completed(After(s, step).(tick := TickAt(step.next))))
  }

  // ----- Why the next step is well placed -----------------------------------------------------------

  lemma TicksInWordRange(tick: int, spacing: int)
    requires MIN_TICK - 1 <= tick <= MAX_TICK && spacing > 0
    ensures InWordRange(tick / spacing) && InWordRange(tick / spacing + 1)
  {
    FloorBounds(tick, spacing);
    var q := tick / spacing;
    if q < 0 { MulMono(1, spacing, -q - 1); }
    if q >= 0 { MulMono(1, spacing, q); }
  }

  lemma NextTickNear(order: Order, s: State)
    requires Live(order, s)
    ensures var nextTick := NextTick(order, s);
      if order.zeroForOne then s.tick - 256 * order.pool.spacing < nextTick <= s.tick
      else s.tick < nextTick <= s.tick + 256 * order.pool.spacing
  {
    hide NextInitializedTick, Initialized, SqrtRatio;
    TicksInWordRange(s.tick, order.pool.spacing);
    NextInitializedTickIsNearest(s.tick, order.pool.spacing, order.pool.bitmap);
  }

  /** The target of an iteration lies on the side the swap moves to. */
  lemma TargetAhead(order: Order, s: State)
    requires Live(order, s) && NextTick(order, s) <= MAX_TICK
    ensures var target := TargetPrice(order, SqrtRatio(NextTick(order, s)));
      && Toward(s.price, target, order.zeroForOne)
      && target < TWO_160 && s.price < TWO_160
      && (order.zeroForOne ==> order.limit <= target)
      && (!order.zeroForOne ==> target <= order.limit)
  {
    hide SqrtRatio, NextTick;
    NextTickNear(order, s);
    var nextTick := NextTick(order, s);
    SqrtRatioBelow160(nextTick);
    SqrtRatioBelow160(Min(s.tick + 1, MAX_TICK));
    if order.zeroForOne {
      SqrtRatioMonotone(nextTick, s.tick);
    } else {
      SqrtRatioMonotone(s.tick + 1, nextTick);
    }
  }

  lemma {:induction false} NetAboveCovers(liquidityNet: map<int, i128>, tick: int, next: int)
    requires tick < next <= MAX_TICK
    ensures (if next in liquidityNet then Abs(liquidityNet[next]) else 0) + NetAbove(liquidityNet, next)
      <= NetAbove(liquidityNet, tick)
    decreases next - tick
  {
    if tick + 1 < next { NetAboveCovers(liquidityNet, tick + 1, next); }
  }

  lemma {:induction false} CrossStaysLive(order: Order, s: State, step: Step)
    requires Live(order, s) && Open(order, s) && NextTick(order, s) <= MAX_TICK
    requires Toward(s.price, TargetPrice(order, SqrtRatio(NextTick(order, s))), order.zeroForOne)
    requires StepOf(s.price, TargetPrice(order, SqrtRatio(NextTick(order, s))), s.liquidity, s.remaining, order.fee,
               order.zeroForOne) == Moved(step)
    requires step.next == SqrtRatio(NextTick(order, s))
    ensures Live(order, Cross(order, After(s, step), NextTick(order, s)))
    ensures 0 <= Distance(order, Cross(order, After(s, step), NextTick(order, s))) < Distance(order, s)
  {
    hide SqrtRatio, NextTick, StepOf;
    var nextTick := NextTick(order, s);
    NextTickNear(order, s);
    TargetAhead(order, s);
    StepBounds(s.price, TargetPrice(order, SqrtRatio(nextTick)), s.liquidity, s.remaining, order.fee, order.zeroForOne);
    if order.zeroForOne {
      if nextTick < MIN_TICK { SqrtRatioOutside(nextTick); }
      SqrtRatioMonotone(nextTick - 1, nextTick);
    } else {
      SqrtRatioMonotone(nextTick, Min(nextTick + 1, MAX_TICK));
      NetAboveCovers(order.pool.liquidityNet, s.tick, nextTick);
    }
  }

  // ----- The code -----------------------------------------------------------------------------------

  const MAX_STEP_OUTPUT: nat := 0x1_0000_0000_0000_0000_0000_0000_0000_0000_0000_0000_0000_0000_0000_0000

  /** The sum of the outputs stays far inside the word. */
  lemma OutputFits(calculated: nat, amountOut: nat, done: nat)
    requires calculated <= MAX_STEP_OUTPUT * done && done <= 2 * MAX_TICK + 2 && amountOut <= MAX_STEP_OUTPUT
    ensures calculated + amountOut < TWO_256 && WrapAdd(calculated, amountOut) == calculated + amountOut
    ensures calculated + amountOut <= MAX_STEP_OUTPUT * (done + 1)
  {
  }

  lemma StepOutputBound(price: nat, next: nat, liquidity: nat, zeroForOne: bool)
    requires Toward(price, next, zeroForOne) && price < TWO_160 && next < TWO_160 && liquidity < TWO_128
    ensures AmountOut(price, next, liquidity, zeroForOne) <= MAX_STEP_OUTPUT
  {
    if zeroForOne {
      MulMono(liquidity, TWO_128, price - next);
      FloorBelow(liquidity * (price - next), TWO_96, MAX_STEP_OUTPUT + 1);
    } else {
      var n := liquidity * TWO_96;
      ProductPositive(price, next);
      MulMono(1, price, next);
      MulMono(next - price, price * next, n);
      Spread(n, -1, price * next);
      FloorBelow(n * (next - price), price * next, n + 1);
    }
  }

  /** A step that is not at the next tick's price has used up the input or reached the limit. */
  lemma {:induction false} OffTickCloses(order: Order, s: State, step: Step)
    requires Live(order, s) && Open(order, s) && NextTick(order, s) <= MAX_TICK
    requires Toward(s.price, TargetPrice(order, SqrtRatio(NextTick(order, s))), order.zeroForOne)
    requires StepOf(s.price, TargetPrice(order, SqrtRatio(NextTick(order, s))), s.liquidity, s.remaining, order.fee,
               order.zeroForOne) == Moved(step)
    requires step.next != SqrtRatio(NextTick(order, s))
    ensures !Open(order, After(s, step))
  {
    hide SqrtRatio, NextTick, StepOf;
    StepBounds(s.price, TargetPrice(order, SqrtRatio(NextTick(order, s))), s.liquidity, s.remaining, order.fee,
      order.zeroForOne);
  }

  lemma {:induction false} RunCloses(order: Order, s: State, step: Step)
    requires Live(order, s) && Open(order, s) && NextTick(order, s) <= MAX_TICK
    requires Toward(s.price, TargetPrice(order, SqrtRatio(NextTick(order, s))), order.zeroForOne)
    requires StepOf(s.price, TargetPrice(order, SqrtRatio(NextTick(order, s))), s.liquidity, s.remaining, order.fee,
               order.zeroForOne) == Moved(step)
    requires step.next != SqrtRatio(NextTick(order, s))
    ensures Run(order, s).outcome == Completed(After(s, step).(tick := TickAt(step.next)))
    ensures !Open(order, After(s, step))
  {
    hide SqrtRatio, NextTick, StepOf, TickAt;
    OffTickCloses(order, s, step);
  }

  lemma {:induction false} RunCrosses(order: Order, s: State, step: Step)
    requires Live(order, s) && Open(order, s) && NextTick(order, s) <= MAX_TICK
    requires Toward(s.price, TargetPrice(order, SqrtRatio(NextTick(order, s))), order.zeroForOne)
    requires StepOf(s.price, TargetPrice(order, SqrtRatio(NextTick(order, s))), s.liquidity, s.remaining, order.fee,
               order.zeroForOne) == Moved(step)
    requires step.next == SqrtRatio(NextTick(order, s))
    ensures var crossed := Cross(order, After(s, step), NextTick(order, s));
      && Live(order, crossed) && crossed.liquidity < TWO_128
      && 0 <= Distance(order, crossed) < Distance(order, s)
      && Run(order, s).outcome == Run(order, crossed).outcome
  {
    hide SqrtRatio, NextTick, StepOf, TickAt;
    CrossStaysLive(order, s, step);
  }

  lemma {:induction false} RunEnds(order: Order, s: State)
    requires Live(order, s)
    ensures 0 <= Distance(order, s) <= 2 * MAX_TICK + 2
    ensures !Open(order, s) ==> Run(order, s).outcome == Completed(s)
    ensures Open(order, s) && NextTick(order, s) > MAX_TICK ==> Run(order, s).outcome == TargetLost(s)
  {
    hide SqrtRatio, NextTick, StepOf, TickAt;
  }

  lemma {:induction false} RunDivides(order: Order, s: State)
    requires Live(order, s) && Open(order, s) && NextTick(order, s) <= MAX_TICK
    requires Toward(s.price, TargetPrice(order, SqrtRatio(NextTick(order, s))), order.zeroForOne)
    requires StepOf(s.price, TargetPrice(order, SqrtRatio(NextTick(order, s))), s.liquidity, s.remaining, order.fee,
               order.zeroForOne).ZeroAfterFee?
    ensures Run(order, s).outcome == DividedByZero(s)
  {
    hide SqrtRatio, NextTick, StepOf, TickAt;
  }

  lemma StepReady(order: Order, s: State)
    requires Live(order, s) && Open(order, s) && NextTick(order, s) <= MAX_TICK
    ensures s.price < TWO_160 && s.liquidity < TWO_128 && 0 < s.remaining < TWO_160 && order.fee < FEE_UNITS
    ensures var target := TargetPrice(order, SqrtRatio(NextTick(order, s)));
      target < TWO_160 && StepRange(s.price, target, s.liquidity, s.remaining, order.fee, order.zeroForOne)
  {
    hide SqrtRatio, NextTick;
    TargetAhead(order, s);
  }

  lemma StepYield(price: nat, target: nat, liquidity: nat, remaining: nat, fee: nat, zeroForOne: bool)
    requires price < TWO_160 && target < TWO_160 && liquidity < TWO_128
    requires Toward(price, target, zeroForOne) && fee < FEE_UNITS
    ensures var outcome := StepOf(price, target, liquidity, remaining, fee, zeroForOne);
      outcome.Moved? ==>
      outcome.step.next < TWO_160 && outcome.step.amountOut <= MAX_STEP_OUTPUT && outcome.step.Consumed() <= remaining
  {
    hide StepOf;
    StepBounds(price, target, liquidity, remaining, fee, zeroForOne);
    var outcome := StepOf(price, target, liquidity, remaining, fee, zeroForOne);
    if outcome.Moved? { StepOutputBound(price, outcome.step.next, liquidity, zeroForOne); }
  }

  function LimitOrDefault(limit: Option<u256>, zeroForOne: bool): u256 {
    limit.GetOr(if zeroForOne then MIN_SQRT_RATIO + 1 else MAX_SQRT_RATIO - 1)
  }

  /** The limits used where none is given: one above the lowest price, and one below the constant for the
      highest. */
  lemma DefaultLimits(limit: u256, zeroForOne: bool)
    ensures LimitOrDefault(Some(limit), zeroForOne) == limit
    ensures LimitOrDefault(None, true) == 4295128740
    ensures LimitOrDefault(None, false) == 1461446703485210103287273052203988822378723970340
  {
  }

  method SimulateSwapWithLimit(price: u256, tick: int, liquidity: u256, pool: Pool, amountIn: u256,
      zeroForOne: bool, fee: nat, limit: Option<u256>)
    returns (outcome: Outcome)
    requires Live(Order(pool, zeroForOne, fee, LimitOrDefault(limit, zeroForOne)),
               State(price, tick, liquidity, amountIn, 0))
    ensures outcome ==
      Run(Order(pool, zeroForOne, fee, LimitOrDefault(limit, zeroForOne)),
          State(price, tick, liquidity, amountIn, 0)).outcome
  {
    hide SqrtRatio, StepOf, NextInitializedTick, TickAt, Run, Live;
    hide StepRange, AmountIn, AmountOut, AfterFee, Position, WrapAdd;
    var order := Order(pool, zeroForOne, fee, LimitOrDefault(limit, zeroForOne));
    var s := State(price, tick, liquidity, amountIn, 0);
    ghost var start, closed := s, false;
    RunEnds(order, s);
    while s.remaining != 0 && s.price != order.limit
      invariant !closed ==> Live(order, s) && Run(order, s).outcome == Run(order, start).outcome
      invariant !closed ==> 0 <= Distance(order, s) <= Distance(order, start)
      invariant !closed ==> s.calculated <= MAX_STEP_OUTPUT * (Distance(order, start) - Distance(order, s))
      invariant closed ==> !Open(order, s) && Run(order, start).outcome == Completed(s)
      decreases if closed then 0 else 1 + Distance(order, s)
    {
      NextTickNear(order, s);
      RunEnds(order, s);
      var (nextTick, _) := NextInitializedTick(s.tick, pool.spacing, zeroForOne, pool.bitmap);
      if nextTick > MAX_TICK { return TargetLost(s); }
      StepReady(order, s);
      var nextPrice := SqrtRatioAtTick(nextTick);
      var target :=
        if zeroForOne then (if nextPrice < order.limit then order.limit else nextPrice)
        else (if nextPrice > order.limit then order.limit else nextPrice);
      var result, rest := ComputeSwapStep(s.price, target, s.liquidity, s.remaining, fee, zeroForOne);
      assert Toward(s.price, target, zeroForOne) by { TargetAhead(order, s); }
      if result == null {
        RunDivides(order, s);
        return DividedByZero(s);
      }
      var step := result.AsStep();
      StepYield(s.price, target, s.liquidity, s.remaining, fee, zeroForOne);
      OutputFits(s.calculated, step.amountOut, Distance(order, start) - Distance(order, s));
      var calculated := WrapAdd(s.calculated, step.amountOut);
      if step.next == nextPrice {
        RunCrosses(order, s, step);
        var newLiquidity := s.liquidity;
        if nextTick in pool.liquidityNet {
          if zeroForOne {
            newLiquidity := SaturatingSub(newLiquidity, Abs(pool.liquidityNet[nextTick]));
          } else {
            newLiquidity := SaturatingAdd(newLiquidity, Abs(pool.liquidityNet[nextTick]));
          }
        }
        s := State(step.next, if zeroForOne then nextTick - 1 else nextTick, newLiquidity, rest, calculated);
      } else {
        RunCloses(order, s, step);
        var newTick := TickAtSqrtRatio(step.next);
        s := State(step.next, newTick, s.liquidity, rest, calculated);
        closed := true;
      }
    }
    if !closed { RunEnds(order, s); }
    return Completed(s);
  }
}
