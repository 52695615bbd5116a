/** What every run of the swap loop keeps, and how two runs compare. */
module SwapTheorems {
  import opened Rounding
  import opened SwapLoop
  import opened SwapOrder
  import opened SwapStep
  import opened TickMath
  import opened Word256

  function TotalConsumed(steps: seq<Step>): nat {
    if steps == [] then 0 else steps[0].Consumed() + TotalConsumed(steps[1..])
  }

  function TotalOutput(steps: seq<Step>): nat {
    if steps == [] then 0 else steps[0].amountOut + TotalOutput(steps[1..])
  }

  /** The price only ever moves toward the limit, from the given one through all the steps to the last. */
  ghost predicate MovesToward(price: nat, steps: seq<Step>, last: nat, zeroForOne: bool)
    decreases steps
  {
    if steps == [] then Toward(price, last, zeroForOne)
    else Toward(price, steps[0].next, zeroForOne) && MovesToward(steps[0].next, steps[1..], last, zeroForOne)
  }

  lemma {:induction false} MovesEnd(price: nat, steps: seq<Step>, last: nat, zeroForOne: bool)
    requires MovesToward(price, steps, last, zeroForOne)
    ensures Toward(price, last, zeroForOne)
    decreases steps
  {
    if steps != [] { MovesEnd(steps[0].next, steps[1..], last, zeroForOne); }
  }

  lemma LiveFacts(order: Order, s: State)
    requires Live(order, s)
    ensures order.fee < FEE_UNITS && 0 < order.pool.spacing && 0 < s.price && 0 < order.limit
    ensures Toward(s.price, order.limit, order.zeroForOne) && PriceInTick(s.price, s.tick)
  {
    hide SqrtRatio;
  }

  /** One unfolding of a run, seen from outside. */
  lemma {:induction false} FirstStep(order: Order, s: State)
    requires Live(order, s)
    ensures var run := Run(order, s);
      && (run.steps == [] && !Open(order, s) ==> run.outcome == Completed(s))
      && (run.steps == [] && Open(order, s) ==>
            run.outcome == if NextTick(order, s) > MAX_TICK then TargetLost(s) else DividedByZero(s))
      && (run.steps != [] ==> Open(order, s) && NextTick(order, s) <= MAX_TICK)
  {
    hide SqrtRatio, NextTick, StepOf, TickAt;
  }

  /** Everything one executed iteration establishes. */
  lemma {:induction false} Iteration(order: Order, s: State)
    requires Live(order, s) && Run(order, s).steps != []
    ensures var run := Run(order, s);
      var step, after := run.steps[0], After(s, run.steps[0]);
      var nextTick := NextTick(order, s);
      var target := TargetPrice(order, SqrtRatio(nextTick));
      && Open(order, s) && nextTick <= MAX_TICK
      && Toward(s.price, target, order.zeroForOne)
      && StepOf(s.price, target, s.liquidity, s.remaining, order.fee, order.zeroForOne) == Moved(step)
      && Toward(s.price, step.next, order.zeroForOne) && Toward(step.next, target, order.zeroForOne)
      && Toward(step.next, order.limit, order.zeroForOne)
      && 0 <= after.remaining <= s.remaining
      && (if step.next == SqrtRatio(nextTick) then
            var crossed := Cross(order, after, nextTick);
            && Live(order, crossed)
            && 0 <= Distance(order, crossed) < Distance(order, s)
            && run.steps[1..] == Run(order, crossed).steps && run.outcome == Run(order, crossed).outcome
          else
            && !Open(order, after)
            && run.steps[1..] == [] && run.outcome == Completed(after.(tick := TickAt(step.next))))
  {
    hide SqrtRatio, NextTick, StepOf, TickAt;
    FirstStep(order, s);
    TargetAhead(order, s);
    var target := TargetPrice(order, SqrtRatio(NextTick(order, s)));
    StepBounds(s.price, target, s.liquidity, s.remaining, order.fee, order.zeroForOne);
    var step := Run(order, s).steps[0];
    if step.next == SqrtRatio(NextTick(order, s)) {
      CrossStaysLive(order, s, step);
    } else {
      OffTickCloses(order, s, step);
    }
  }

  /** The tick found at the end agrees with the price. */
  lemma {:induction false} FinalTick(order: Order, s: State)
    requires Live(order, s) && Run(order, s).steps != []
    requires Run(order, s).steps[0].next != SqrtRatio(NextTick(order, s))
    ensures PriceInTick(Run(order, s).steps[0].next, TickAt(Run(order, s).steps[0].next))
  {
    hide SqrtRatio, NextTick, StepOf, Run, ScanDown;
    Iteration(order, s);
    var next := Run(order, s).steps[0].next;
    ScanDownBounds(MAX_TICK, next);
    NextTickNear(order, s);
    if order.zeroForOne {
      SqrtRatioMonotone(Min(s.tick + 1, MAX_TICK), MAX_TICK);
    } else {
      SqrtRatioMonotone(NextTick(order, s), MAX_TICK);
    }
  }

  /** Every run, from any live state: what is consumed and what remains add up to the input, remaining
      never goes below zero, the outputs add up, the price moves monotonically and never passes the
      limit, the final tick agrees with the final price, and the run ends in one of four ways. */
  lemma {:induction false} RunKeeps(order: Order, s: State)
    requires Live(order, s)
    ensures var run := Run(order, s);
      var last := run.outcome.state;
      && TotalConsumed(run.steps) + last.remaining == s.remaining && 0 <= last.remaining
      && s.calculated + TotalOutput(run.steps) == last.calculated
      && MovesToward(s.price, run.steps, last.price, order.zeroForOne)
      && Toward(s.price, last.price, order.zeroForOne)
      && Toward(last.price, order.limit, order.zeroForOne)
      && PriceInTick(last.price, last.tick)
      && (run.outcome.Completed? ==> last.remaining == 0 || last.price == order.limit)
      && (run.outcome.DividedByZero? ==>
            && order.zeroForOne && last.liquidity > 0
            && 0 < last.remaining * (FEE_UNITS - order.fee) < FEE_UNITS)
      && (run.outcome.TargetLost? ==> !order.zeroForOne && NextTick(order, last) > MAX_TICK)
    decreases Distance(order, s)
  {
    hide SqrtRatio, NextTick, StepOf, TickAt, Run, NetAbove, PriceInTick;
    FirstStep(order, s);
    LiveFacts(order, s);
    if Run(order, s).steps == [] {
      StopsHere(order, s);
    } else {
      Iteration(order, s);
      var step := Run(order, s).steps[0];
      if step.next == SqrtRatio(NextTick(order, s)) {
        RunKeeps(order, Cross(order, After(s, step), NextTick(order, s)));
      } else {
        FinalTick(order, s);
      }
    }
  }

  lemma {:induction false} StopsHere(order: Order, s: State)
    requires Live(order, s) && Run(order, s).steps == []
    ensures Run(order, s).outcome.state == s
    ensures Run(order, s).outcome.DividedByZero? ==>
      order.zeroForOne && s.liquidity > 0 && 0 < s.remaining * (FEE_UNITS - order.fee) < FEE_UNITS
    ensures Run(order, s).outcome.TargetLost? ==> !order.zeroForOne
  {
    hide SqrtRatio, NextTick, StepOf, TickAt;
    FirstStep(order, s);
    NextTickNear(order, s);
    if Open(order, s) && NextTick(order, s) <= MAX_TICK {
      TargetAhead(order, s);
      var target := TargetPrice(order, SqrtRatio(NextTick(order, s)));
      ZeroAfterFeeIff(s.price, target, s.liquidity, s.remaining, order.fee, order.zeroForOne);
      MulMono(1, s.remaining, FEE_UNITS - order.fee);
    }
  }

  /** No run beats the price it starts from, whatever the tick layout and liquidity changes on the way:
      going down, output * 2^192 <= net input * price^2, and going up the mirror image, where the net
      input is what was consumed less the fee rate. */
  lemma {:induction false} RunNoBetter(order: Order, s: State, start: nat)
    requires Live(order, s) && Toward(start, s.price, order.zeroForOne)
    ensures var steps := Run(order, s).steps;
      NoBetterThan(start, TotalConsumed(steps) * (FEE_UNITS - order.fee), TotalOutput(steps) * FEE_UNITS,
        order.zeroForOne)
    decreases Distance(order, s)
  {
    hide SqrtRatio, NextTick, StepOf, TickAt, Run, Live, NoBetterThan;
    LiveFacts(order, s);
    var steps := Run(order, s).steps;
    if steps == [] {
      NothingNoBetter(start, order.zeroForOne);
    } else {
      Iteration(order, s);
      IterationNoBetter(order, s, start);
      var step := steps[0];
      if step.next == SqrtRatio(NextTick(order, s)) {
        RunNoBetter(order, Cross(order, After(s, step), NextTick(order, s)), start);
      } else {
        NothingNoBetter(start, order.zeroForOne);
      }
      var keep := FEE_UNITS - order.fee;
      AddNoBetter(start, step.Consumed() * keep, step.amountOut * FEE_UNITS,
        TotalConsumed(steps[1..]) * keep, TotalOutput(steps[1..]) * FEE_UNITS, order.zeroForOne);
      Spread(step.Consumed(), TotalConsumed(steps[1..]), keep);
    }
  }

  lemma NothingNoBetter(start: nat, zeroForOne: bool)
    ensures NoBetterThan(start, 0, 0, zeroForOne)
  {
  }

  lemma {:induction false} IterationNoBetter(order: Order, s: State, start: nat)
    requires Live(order, s) && Toward(start, s.price, order.zeroForOne) && Run(order, s).steps != []
    ensures var step := Run(order, s).steps[0];
      NoBetterThan(start, step.Consumed() * (FEE_UNITS - order.fee), step.amountOut * FEE_UNITS, order.zeroForOne)
  {
    hide SqrtRatio, NextTick, StepOf, TickAt, Run, NoBetterThan;
    Iteration(order, s);
    var target := TargetPrice(order, SqrtRatio(NextTick(order, s)));
    StepBounds(s.price, target, s.liquidity, s.remaining, order.fee, order.zeroForOne);
    StepNoBetter(s.price, s.liquidity, order.fee, order.zeroForOne, start, Run(order, s).steps[0]);
  }

  lemma {:induction false} RunMoves(order: Order, s: State)
    requires Live(order, s) && Open(order, s) && NextTick(order, s) <= MAX_TICK
    requires Toward(s.price, TargetPrice(order, SqrtRatio(NextTick(order, s))), order.zeroForOne)
    requires StepOf(s.price, TargetPrice(order, SqrtRatio(NextTick(order, s))), s.liquidity, s.remaining, order.fee,
               order.zeroForOne).Moved?
    ensures Run(order, s).steps != []
  {
    hide SqrtRatio, NextTick, StepOf, TickAt;
  }

  /** Two runs from the same pool state, however they end: a larger input never yields a smaller output
      and never leaves the price less far along. */
  lemma {:induction false} MoreInputNeverYieldsLess(order: Order, s: State, more: int)
    requires Live(order, s) && Live(order, s.(remaining := more)) && s.remaining <= more
    ensures var less, larger := Run(order, s).outcome.state, Run(order, s.(remaining := more)).outcome.state;
      less.calculated <= larger.calculated && Toward(less.price, larger.price, order.zeroForOne)
    decreases Distance(order, s)
  {
    hide SqrtRatio, NextTick, StepOf, TickAt, Run, Live, PriceInTick;
    LiveFacts(order, s);
    var m := s.(remaining := more);
    FirstStep(order, s);
    FirstStep(order, m);
    RunKeeps(order, s);
    RunKeeps(order, m);
    if Run(order, s).steps != [] {
      Iteration(order, s);
      assert NextTick(order, s) == NextTick(order, m) by { SameNextTick(order, s, more); }
      var nextTick := NextTick(order, s);
      var target := TargetPrice(order, SqrtRatio(nextTick));
      StepMonotone(s.price, target, s.liquidity, s.remaining, more, order.fee, order.zeroForOne);
      RunMoves(order, m);
      Iteration(order, m);
      var step, step' := Run(order, s).steps[0], Run(order, m).steps[0];
      if step.next == target {
        if step.next == SqrtRatio(nextTick) {
          var crossed := Cross(order, After(s, step), nextTick);
          SameCross(order, After(s, step), After(m, step), nextTick);
          MoreInputNeverYieldsLess(order, crossed, more - step.Consumed());
        }
      } else {
        assert step.next != SqrtRatio(nextTick) by { ShortOfTarget(order, s); }
        MovesEnd(step'.next, Run(order, m).steps[1..], Run(order, m).outcome.state.price, order.zeroForOne);
      }
    }
  }

  lemma SameNextTick(order: Order, s: State, more: int)
    requires order.pool.spacing > 0
    ensures NextTick(order, s) == NextTick(order, s.(remaining := more))
  {
  }

  lemma SameCross(order: Order, s: State, t: State, nextTick: int)
    requires t == s.(remaining := t.remaining)
    ensures Cross(order, t, nextTick) == Cross(order, s, nextTick).(remaining := t.remaining)
  {
  }

  /** A step that stops short of its target is not at the next tick's price. */
  lemma {:induction false} ShortOfTarget(order: Order, s: State)
    requires Live(order, s) && Run(order, s).steps != []
    requires Run(order, s).steps[0].next != TargetPrice(order, SqrtRatio(NextTick(order, s)))
    ensures Run(order, s).steps[0].next != SqrtRatio(NextTick(order, s))
  {
    hide SqrtRatio, NextTick, StepOf, TickAt, Run, Live;
    Iteration(order, s);
  }

  // ----- The division by zero happens -----------------------------------------------------------------

  /** One unit of input with a fee of 0.3%, in a pool with no tick and one unit of liquidity. */
  function OneUnitOrder(): Order { Order(Pool(map[], map[], 1), true, 3000, MIN_SQRT_RATIO + 1) }

  function OneUnitState(): State { State(TWO_96, -1, 1, 1, 0) }

  lemma OneUnitIsLive()
    ensures Live(OneUnitOrder(), OneUnitState())
  {
    hide SqrtRatio;
    SqrtRatioEnds();
    SqrtRatioStep(-1);
  }

  /** The fee takes the whole unit, and the first step divides by zero. */
  lemma OneUnitDividesByZero()
    ensures Live(OneUnitOrder(), OneUnitState())
    ensures Run(OneUnitOrder(), OneUnitState()) == RunResult([], DividedByZero(OneUnitState()))
  {
    hide SqrtRatio, NextTick, StepOf, TickAt, Live;
    OneUnitIsLive();
    var order, s := OneUnitOrder(), OneUnitState();
    NextTickNear(order, s);
    TargetAhead(order, s);
    var target := TargetPrice(order, SqrtRatio(NextTick(order, s)));
    SqrtRatioEnds();
    SqrtRatioStep(-1);
    SqrtRatioMonotone(NextTick(order, s), -1);
    ZeroAfterFeeIff(s.price, target, s.liquidity, s.remaining, order.fee, true);
  }
}
