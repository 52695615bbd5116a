/** Whole runs in explicit arithmetic: iteration by iteration, and the least they pay. */
module RunFormula {
  import opened Rounding
  import opened StepFormula
  import opened SwapLoop
  import opened SwapStep
  import opened SwapTheorems
  import opened TickBitmap
  import opened TickMath
  import opened Word256

  /** The states in which the iterations of a run start. */
  ghost function Heads(order: Order, s: State): seq<State>
    requires Live(order, s)
    decreases Distance(order, s)
  {
    if Run(order, s).steps == [] then []
    else
      Iteration(order, s);
      var step, next := Run(order, s).steps[0], NextTickOf(order, s);
      if step.next == SqrtRatio(next) then [s] + Heads(order, Cross(order, After(s, step), next)) else [s]
  }

  ghost function NextTickOf(order: Order, s: State): int
    requires Live(order, s)
  {
    LiveFacts(order, s);
    NextTick(order, s)
  }

  /** What an iteration hands on: the price it reached, what it consumed, and what it paid. */
  ghost predicate Hands(s: State, step: Step, next: State) {
    && next.price == step.next
    && next.remaining == s.remaining - step.amountIn - step.feeAmount
    && next.calculated == s.calculated + step.amountOut
  }

  /** Reaching the price of a tick moves past it and changes the liquidity by the magnitude of its net. */
  ghost predicate Passes(order: Order, s: State, next: State) {
    exists t :: Passed(order, s, next, t)
  }

  ghost predicate Passed(order: Order, s: State, next: State, t: int) {
    var net := order.pool.liquidityNet;
    var size: int := if t in net then if net[t] < 0 then -(net[t] as int) else net[t] as int else 0;
    && next.price == SqrtRatio(t)
    && if order.zeroForOne then
         t <= s.tick && next.tick == t - 1 && next.liquidity == if s.liquidity < size then 0 else s.liquidity - size
       else
         s.tick < t && next.tick == t && next.liquidity == s.liquidity + size
  }

  /** One exact step, with input left and short of the limit. */
  ghost predicate Link(order: Order, s: State, step: Step) {
    && s.remaining != 0 && s.price != order.limit
    && ExactMove(s.price, step.next, s.liquidity, step.amountIn, step.amountOut, order.zeroForOne)
  }

  /** Steps that start at a state, each where the last one ended and at a tick just passed, up to a last
      state. */
  ghost predicate Chain(order: Order, s: State, heads: seq<State>, steps: seq<Step>, last: State) {
    && |heads| == |steps|
    && (if |steps| == 0 then last == s else heads[0] == s && Hands(heads[|steps| - 1], steps[|steps| - 1], last))
    && (forall k :: 0 <= k < |steps| ==> Link(order, heads[k], steps[k]))
    && (forall k :: 0 <= k < |steps| - 1 ==>
          Hands(heads[k], steps[k], heads[k + 1]) && Passes(order, heads[k], heads[k + 1]))
  }

  lemma ChainGrows(order: Order, s: State, step: Step, next: State, heads: seq<State>, steps: seq<Step>, last: State)
    requires Link(order, s, step) && Hands(s, step, next) && Passes(order, s, next)
    requires Chain(order, next, heads, steps, last)
    ensures Chain(order, s, [s] + heads, [step] + steps, last)
  {
    hide Link, Hands, Passes;
    var all, moves := [s] + heads, [step] + steps;
    forall k | 0 <= k < |moves| - 1 ensures Hands(all[k], moves[k], all[k + 1]) && Passes(order, all[k], all[k + 1]) {
      if k > 0 { assert all[k] == heads[k - 1] && moves[k] == steps[k - 1]; }
    }
  }

  lemma PassesTick(order: Order, s: State, step: Step)
    requires Live(order, s) && step.next == SqrtRatio(NextTickOf(order, s))
    ensures var crossed := Cross(order, After(s, step), NextTickOf(order, s));
      Hands(s, step, crossed) && Passes(order, s, crossed)
  {
    hide SqrtRatio, NextTick;
    NextTickNear(order, s);
    assert Passed(order, s, Cross(order, After(s, step), NextTickOf(order, s)), NextTickOf(order, s));
  }

  /** A run is a chain of exact steps from its state to its outcome. */
  lemma {:induction false} RunIsChain(order: Order, s: State)
    requires Live(order, s)
    ensures Chain(order, s, Heads(order, s), Run(order, s).steps, Run(order, s).outcome.state)
    decreases Distance(order, s)
  {
    hide SqrtRatio, NextTick, StepOf, TickAt, Run, Live, ExactMove, Passes;
    FirstStep(order, s);
    if Run(order, s).steps != [] {
      Iteration(order, s);
      LiveFacts(order, s);
      var step, next := Run(order, s).steps[0], NextTick(order, s);
      var target := TargetPrice(order, SqrtRatio(next));
      var input, cost := StepIsExact(s.price, target, s.liquidity, s.remaining, order.fee, order.zeroForOne);
      assert Link(order, s, step);
      if step.next == SqrtRatio(next) {
        var crossed := Cross(order, After(s, step), next);
        PassesTick(order, s, step);
        RunIsChain(order, crossed);
        hide Link, Hands, Chain;
        var run := Run(order, s);
        assert run.steps == [step] + run.steps[1..];
        ChainGrows(order, s, step, crossed, Heads(order, crossed), run.steps[1..], run.outcome.state);
      } else {
        assert Run(order, s).steps == [step];
      }
    }
  }

  // ----- The least a run pays -------------------------------------------------------------------------

  function TotalAmountIn(steps: seq<Step>): nat {
    if steps == [] then 0 else steps[0].amountIn + TotalAmountIn(steps[1..])
  }

  /** An exchange of input for output at no worse than a given square-root price. */
  ghost predicate NoWorseThan(price: nat, input: int, output: int, zeroForOne: bool) {
    if zeroForOne then input * (price * price) <= output * (TWO_96 * TWO_96)
    else input * (TWO_96 * TWO_96) <= output * (price * price)
  }

  lemma DownNoWorse(price: nat, next: nat, liquidity: nat, amountIn: nat, amountOut: nat, end: nat)
    requires ExactDown(price, next, liquidity, amountIn, amountOut) && 0 < end <= next <= price
    ensures NoWorseThan(end, amountIn - 1, amountOut + 1, true)
  {
    var d := liquidity * (price - next);
    SwapFactors(liquidity, TWO_96, price - next);
    MulMono(end, next, end);
    MulMono(end, price, next);
    MulMono(0, end, end);
    if amountIn > 0 {
      MulMono(end * end, price * next, amountIn - 1);
      MulMono(d, (amountOut + 1) * TWO_96, TWO_96);
      Assoc(amountOut + 1, TWO_96, TWO_96);
    }
  }

  lemma UpChain(input: int, output: nat, d: int, q: nat, product: nat, square: nat)
    requires input * q <= d && d * q <= output * product && product <= square
    ensures input * (q * q) <= output * square
  {
    MulMono(input * q, d, q);
    Assoc(input, q, q);
    MulMono(product, square, output);
  }

  lemma UpNoWorse(price: nat, next: nat, liquidity: nat, amountIn: nat, amountOut: nat, end: nat)
    requires ExactUp(price, next, liquidity, amountIn, amountOut) && 0 < price <= next <= end
    ensures NoWorseThan(end, amountIn - 1, amountOut + 1, false)
  {
    SwapFactors(liquidity, TWO_96, next - price);
    MulMono(price, end, next);
    MulMono(next, end, end);
    MulMono(0, price, next);
    UpChain(amountIn - 1, amountOut + 1, liquidity * (next - price), TWO_96, price * next, end * end);
  }

  lemma AddNoWorse(price: nat, input: int, output: int, moreInput: int, moreOutput: int, zeroForOne: bool)
    requires NoWorseThan(price, input, output, zeroForOne)
    requires NoWorseThan(price, moreInput, moreOutput, zeroForOne)
    ensures NoWorseThan(price, input + moreInput, output + moreOutput, zeroForOne)
  {
    Spread(input, -moreInput, price * price);
    Spread(output, -moreOutput, price * price);
  }

  lemma NothingNoWorse(price: nat, zeroForOne: bool)
    ensures NoWorseThan(price, 0, 0, zeroForOne)
  {
  }

  /** No run pays worse than the price it ends at, up to one unit of input and of output for each step:
      going down, (output + n) * 2^192 >= (input - n) * price^2 after n steps, and going up the mirror
      image, where the input is what was paid in without the fees. */
  lemma {:induction false} RunNoWorse(order: Order, s: State, end: nat)
    requires Live(order, s) && Toward(Run(order, s).outcome.state.price, end, order.zeroForOne)
    ensures var steps := Run(order, s).steps;
      NoWorseThan(end, TotalAmountIn(steps) - |steps|, TotalOutput(steps) + |steps|, order.zeroForOne)
    decreases Distance(order, s)
  {
    hide SqrtRatio, NextTick, StepOf, TickAt, Run, Live, NoWorseThan, ExactDown, ExactUp;
    LiveFacts(order, s);
    var steps := Run(order, s).steps;
    NothingNoWorse(end, order.zeroForOne);
    if steps != [] {
      Iteration(order, s);
      RunKeeps(order, s);
      var step, next := steps[0], NextTick(order, s);
      var target := TargetPrice(order, SqrtRatio(next));
      var input, cost := StepIsExact(s.price, target, s.liquidity, s.remaining, order.fee, order.zeroForOne);
      if step.next == SqrtRatio(next) {
        RunNoWorse(order, Cross(order, After(s, step), next), end);
      }
      MovesEnd(step.next, steps[1..], Run(order, s).outcome.state.price, order.zeroForOne);
      if order.zeroForOne {
        DownNoWorse(s.price, step.next, s.liquidity, step.amountIn, step.amountOut, end);
      } else {
        UpNoWorse(s.price, step.next, s.liquidity, step.amountIn, step.amountOut, end);
      }
      AddNoWorse(end, step.amountIn - 1, step.amountOut + 1, TotalAmountIn(steps[1..]) - |steps[1..]|,
        TotalOutput(steps[1..]) + |steps[1..]|, order.zeroForOne);
    }
  }
}
