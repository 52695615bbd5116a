/** One exact-input step of a swap inside a single liquidity range. */
module SwapStep {
  import opened Rounding
  import opened SqrtPriceMath
  import opened Word256

  const FEE_UNITS: nat := 1_000_000

  datatype Step = Step(next: nat, amountIn: nat, amountOut: nat, feeAmount: nat) {
    function Consumed(): nat { amountIn + feeAmount }
  }

  /** The code divides by zero when a downward step has nothing left after the fee but has not arrived. */
  datatype StepOutcome = Moved(step: Step) | ZeroAfterFee

  // ----- What a step computes ---------------------------------------------------------------------

  ghost predicate Toward(price: nat, target: nat, zeroForOne: bool) {
    0 < price && 0 < target && if zeroForOne then target <= price else price <= target
  }

  function AfterFee(remaining: nat, fee: nat): nat
    requires fee < FEE_UNITS
  {
    FloorDiv(remaining * (FEE_UNITS - fee), FEE_UNITS)
  }

  function AmountIn(price: nat, target: nat, liquidity: nat, zeroForOne: bool): nat
    requires Toward(price, target, zeroForOne)
  {
    if zeroForOne then Amount0Up(target, price, liquidity) else Amount1Up(price, target, liquidity)
  }

  function AmountOut(price: nat, target: nat, liquidity: nat, zeroForOne: bool): nat
    requires Toward(price, target, zeroForOne)
  {
    if zeroForOne then Amount1Down(target, price, liquidity) else Amount0Down(price, target, liquidity)
  }

  /** The exact-input step in unbounded arithmetic. */
  function StepOf(price: nat, target: nat, liquidity: nat, remaining: nat, fee: nat, zeroForOne: bool): StepOutcome
    requires Toward(price, target, zeroForOne) && fee < FEE_UNITS
  {
    var input := AfterFee(remaining, fee);
    var full := AmountIn(price, target, liquidity, zeroForOne);
    if full <= input then
      Moved(Step(target, full, AmountOut(price, target, liquidity, zeroForOne), CeilDiv(full * fee, FEE_UNITS - fee)))
    else if zeroForOne && input == 0 then
      ZeroAfterFee
    else
      PartialMove(price, target, liquidity, input, zeroForOne);
      PartialFee(remaining, fee,
        AmountIn(price, PartialNext(price, liquidity, input, zeroForOne), liquidity, zeroForOne));
      var next := PartialNext(price, liquidity, input, zeroForOne);
      var amountIn := AmountIn(price, next, liquidity, zeroForOne);
      Moved(Step(next, amountIn, AmountOut(price, next, liquidity, zeroForOne), remaining - amountIn))
  }

  function PartialNext(price: nat, liquidity: nat, input: nat, zeroForOne: bool): nat
    requires price > 0 && if zeroForOne then input > 0 else liquidity > 0
  {
    if zeroForOne then NextDown(price, liquidity, input) else NextUp(price, liquidity, input)
  }

  // ----- Why it stays in range --------------------------------------------------------------------

  /** An input too small for the target stops strictly short of it and is not exceeded by what the
      move costs. */
  lemma PartialMove(price: nat, target: nat, liquidity: nat, input: nat, zeroForOne: bool)
    requires Toward(price, target, zeroForOne) && input < AmountIn(price, target, liquidity, zeroForOne)
    requires zeroForOne ==> input > 0
    ensures liquidity > 0
    ensures var next := PartialNext(price, liquidity, input, zeroForOne);
      && Toward(price, next, zeroForOne)
      && (if zeroForOne then target < next else next < target)
      && AmountIn(price, next, liquidity, zeroForOne) <= input
  {
    if zeroForOne {
      NoLiquidityNoAmount(target, price);
      var n, next := liquidity * TWO_96, NextDown(price, liquidity, input);
      NextDownBracket(price, liquidity, input);
      ProductPositive(target, price);
      BelowCeil(n * (price - target), target * price, input);
      AboveTarget(n, price, target, input, next);
      CostWithin(n, price, input, next);
      hide NextDown, CeilDiv;
    } else {
      PartialUp(price, target, liquidity, input);
    }
  }

  lemma NoLiquidityNoAmount(low: nat, high: nat)
    requires 0 < low <= high
    ensures Amount0Up(low, high, 0) == 0 && Amount1Up(low, high, 0) == 0
  {
    ProductPositive(low, high);
    CeilIs(0, low * high, 0);
  }

  lemma CostWithin(n: nat, price: nat, input: nat, next: nat)
    requires 0 < next <= price && n * price <= next * (n + input * price)
    ensures next * price > 0 && CeilDiv(n * (price - next), next * price) <= input
  {
    ProductPositive(next, price);
    Spread(n, input * price, next);
    Assoc(input, price, next);
    Spread(price, next, n);
    CeilAtMost(n * (price - next), next * price, input);
  }

  lemma AboveTarget(n: nat, price: nat, target: nat, input: nat, next: nat)
    requires 0 < price && target <= price
    requires input * (target * price) < n * (price - target)
    requires n * price <= next * (n + input * price)
    ensures target < next
  {
    Spread(n, input * price, target);
    Assoc(input, price, target);
    Spread(price, target, n);
    CancelLess(target, next, n + input * price);
  }

  lemma PartialUp(price: nat, target: nat, liquidity: nat, input: nat)
    requires 0 < price <= target && input < Amount1Up(price, target, liquidity)
    ensures liquidity > 0
    ensures var next := NextUp(price, liquidity, input);
      price <= next < target && Amount1Up(price, next, liquidity) <= input
  {
    NoLiquidityNoAmount(price, target);
    var quotient := input * TWO_96 / liquidity;
    BelowCeil(liquidity * (target - price), TWO_96, input);
    FloorAtLeast(input * TWO_96, liquidity, 0);
    FloorBelow(input * TWO_96, liquidity, target - price);
    FloorBounds(input * TWO_96, liquidity);
    CeilAtMost(liquidity * quotient, TWO_96, input);
  }

  /** The fee kept back is at least its share of the whole. */
  lemma PartialFee(remaining: nat, fee: nat, amountIn: nat)
    requires fee < FEE_UNITS && amountIn <= AfterFee(remaining, fee)
    ensures amountIn <= remaining
    ensures remaining * fee <= (remaining - amountIn) * FEE_UNITS
  {
    FloorBounds(remaining * (FEE_UNITS - fee), FEE_UNITS);
    assert remaining * (FEE_UNITS - fee) == remaining * FEE_UNITS - remaining * fee;
  }

  /** Arriving at the target never costs more than what is left, fee included. */
  lemma FullFee(remaining: nat, fee: nat, amountIn: nat)
    requires fee < FEE_UNITS && amountIn <= AfterFee(remaining, fee)
    ensures var feeAmount := CeilDiv(amountIn * fee, FEE_UNITS - fee);
      && amountIn + feeAmount <= remaining
      && (amountIn + feeAmount) * fee <= feeAmount * FEE_UNITS
  {
    hide CeilDiv, FloorDiv;
    var keep := FEE_UNITS - fee;
    var feeAmount := CeilDiv(amountIn * fee, keep);
    FloorBounds(remaining * keep, FEE_UNITS);
    CeilBounds(amountIn * fee, keep);
    Spread(remaining, amountIn, keep);
    Spread(fee, keep, amountIn);
    CeilAtMost(amountIn * fee, keep, remaining - amountIn);
    Spread(amountIn, feeAmount, fee);
    Spread(fee, keep, feeAmount);
  }

  /** One step never overshoots: the price lands between where it was and the target; it stops strictly
      short exactly when the after-fee input is too small, and then the whole input is consumed;
      otherwise no more than the input is consumed. The fee is never below its rate. */
  lemma StepBounds(price: nat, target: nat, liquidity: nat, remaining: nat, fee: nat, zeroForOne: bool)
    requires Toward(price, target, zeroForOne) && fee < FEE_UNITS
    ensures var outcome := StepOf(price, target, liquidity, remaining, fee, zeroForOne);
      outcome.Moved? ==>
      var step := outcome.step;
      && Toward(price, step.next, zeroForOne)
      && Toward(step.next, target, zeroForOne)
      && (step.next != target <==> AfterFee(remaining, fee) < AmountIn(price, target, liquidity, zeroForOne))
      && (step.next != target ==> step.Consumed() == remaining)
      && step.Consumed() <= remaining
      && step.amountIn == AmountIn(price, step.next, liquidity, zeroForOne)
      && step.amountOut == AmountOut(price, step.next, liquidity, zeroForOne)
      && step.Consumed() * fee <= step.feeAmount * FEE_UNITS
  {
    var input := AfterFee(remaining, fee);
    var full := AmountIn(price, target, liquidity, zeroForOne);
    if full <= input {
      FullFee(remaining, fee, full);
    } else if !(zeroForOne && input == 0) {
      PartialMove(price, target, liquidity, input, zeroForOne);
      PartialFee(remaining, fee,
        AmountIn(price, PartialNext(price, liquidity, input, zeroForOne), liquidity, zeroForOne));
    }
  }

  /** The division by zero is reached exactly by a downward step that has somewhere to go, liquidity to
      cross, and less than one unit left after the fee. */
  lemma ZeroAfterFeeIff(price: nat, target: nat, liquidity: nat, remaining: nat, fee: nat, zeroForOne: bool)
    requires Toward(price, target, zeroForOne) && fee < FEE_UNITS
    ensures StepOf(price, target, liquidity, remaining, fee, zeroForOne).ZeroAfterFee?
      <==> zeroForOne && target < price && liquidity > 0 && remaining * (FEE_UNITS - fee) < FEE_UNITS
  {
    if zeroForOne {
      if liquidity == 0 { NoLiquidityNoAmount(target, price); }
      ProductPositive(target, price);
      if liquidity > 0 && target < price {
        ProductPositive(liquidity * TWO_96, price - target);
        CeilAbove(liquidity * TWO_96 * (price - target), target * price, 0);
      }
      if target == price { CeilIs(0, target * price, 0); }
    }
  }

  // ----- The code -----------------------------------------------------------------------------------

  /** The ranges in which no intermediate value of a step leaves its word. */
  ghost predicate StepRange(price: u256, target: u256, liquidity: u256, remaining: int, fee: nat, zeroForOne: bool) {
    && Toward(price, target, zeroForOne) && price < TWO_160 && target < TWO_160
    && liquidity < TWO_128 && 0 < remaining < TWO_160 && fee < FEE_UNITS
  }

  function CodeAmountIn(price: u256, target: u256, liquidity: u256, zeroForOne: bool): u256 {
    if zeroForOne then Amount0Delta(target, price, liquidity, true) else Amount1Delta(price, target, liquidity, true)
  }

  function CodeAmountOut(price: u256, target: u256, liquidity: u256, zeroForOne: bool): u256 {
    if zeroForOne then Amount1Delta(target, price, liquidity, false) else Amount0Delta(price, target, liquidity, false)
  }

  lemma CodeAmounts(price: u256, target: u256, liquidity: u256, zeroForOne: bool)
    requires Toward(price, target, zeroForOne) && price < TWO_160 && target < TWO_160 && liquidity < TWO_128
    ensures CodeAmountIn(price, target, liquidity, zeroForOne) == AmountIn(price, target, liquidity, zeroForOne)
    ensures CodeAmountOut(price, target, liquidity, zeroForOne) == AmountOut(price, target, liquidity, zeroForOne)
  {
    hide Amount0Delta, Amount1Delta, Amount0Up, Amount0Down, Amount1Up, Amount1Down;
    if zeroForOne {
      Amount0DeltaUpExact(target, price, liquidity);
      Amount1DeltaExact(target, price, liquidity);
    } else {
      Amount0DeltaDownExact(price, target, liquidity);
      Amount1DeltaExact(price, target, liquidity);
    }
  }

  lemma CodeAfterFee(remaining: u256, fee: nat)
    requires remaining < TWO_160 && fee < FEE_UNITS
    ensures MulDiv(remaining, FEE_UNITS - fee, FEE_UNITS) == Some(AfterFee(remaining, fee))
    ensures AfterFee(remaining, fee) <= remaining
  {
    MulMono(FEE_UNITS - fee, FEE_UNITS, remaining);
    MulDivFits(remaining, FEE_UNITS - fee, FEE_UNITS, remaining);
  }

  lemma CodePartialNext(price: u256, target: u256, liquidity: u256, input: u256, zeroForOne: bool)
    requires Toward(price, target, zeroForOne) && price < TWO_160 && target < TWO_160 && liquidity < TWO_128
    requires input < TWO_160 && input < AmountIn(price, target, liquidity, zeroForOne)
    ensures liquidity > 0
    ensures NextSqrtPriceFromInput(price, liquidity, input, zeroForOne)
      == if zeroForOne && input == 0 then None else Some(PartialNext(price, liquidity, input, zeroForOne))
  {
    hide NextSqrtPriceFromInput;
    if zeroForOne {
      NoLiquidityNoAmount(target, price);
      NextDownExact(price, liquidity, input);
    } else {
      PartialMove(price, target, liquidity, input, zeroForOne);
      NextUpExact(price, liquidity, input);
    }
  }

  lemma CodeFullFee(amountIn: u256, remaining: nat, fee: nat)
    requires fee < FEE_UNITS && remaining < TWO_160 && amountIn <= AfterFee(remaining, fee)
    ensures MulDivRoundUp(amountIn, fee, FEE_UNITS - fee) == Some(CeilDiv(amountIn * fee, FEE_UNITS - fee))
  {
    FullFee(remaining, fee, amountIn);
    CeilBounds(amountIn * fee, FEE_UNITS - fee);
    MulDivRoundUpFits(amountIn, fee, FEE_UNITS - fee, CeilDiv(amountIn * fee, FEE_UNITS - fee));
  }

  lemma StepArrives(price: nat, target: nat, liquidity: nat, remaining: nat, fee: nat, zeroForOne: bool, full: u256)
    requires Toward(price, target, zeroForOne) && fee < FEE_UNITS && remaining < TWO_160
    requires full == AmountIn(price, target, liquidity, zeroForOne) <= AfterFee(remaining, fee)
    ensures var feeAmount := MulDivRoundUp(full, fee, FEE_UNITS - fee).GetOr(0);
      && full + feeAmount <= remaining
      && StepOf(price, target, liquidity, remaining, fee, zeroForOne)
        == Moved(Step(target, full, AmountOut(price, target, liquidity, zeroForOne), feeAmount))
  {
    hide MulDivRoundUp, CeilDiv, AfterFee, AmountIn, AmountOut;
    CodeFullFee(full, remaining, fee);
    FullFee(remaining, fee, full);
  }

  /** The result a step fills in. */
  class SwapStepResult {
    var sqrtPriceNext: u256
    var amountIn: u256
    var amountOut: u256
    var feeAmount: u256

    constructor ()
      ensures sqrtPriceNext == 0 && amountIn == 0 && amountOut == 0 && feeAmount == 0
    {
      sqrtPriceNext, amountIn, amountOut, feeAmount := 0, 0, 0, 0;
    }

    function AsStep(): Step
      reads this
    {
      Step(sqrtPriceNext, amountIn, amountOut, feeAmount)
    }
  }

  /** The exact-input step; null where it divides by zero. The second result is what is left of the input. */
  method ComputeSwapStep(price: u256, target: u256, liquidity: u256, amountRemaining: int, fee: nat, zeroForOne: bool)
    returns (result: SwapStepResult?, remaining: int)
    requires StepRange(price, target, liquidity, amountRemaining, fee, zeroForOne)
    ensures result != null ==> fresh(result)
    ensures StepOf(price, target, liquidity, amountRemaining, fee, zeroForOne)
      == if result == null then ZeroAfterFee else Moved(result.AsStep())
    ensures result != null ==> 0 <= remaining == amountRemaining - result.AsStep().Consumed()
  {
    hide NextSqrtPriceFromInput, Amount0Delta, Amount1Delta, MulDiv, MulDivRoundUp, CeilDiv, AfterFee;
    hide AmountIn, AmountOut, PartialNext;
    result := new SwapStepResult();
    CodeAfterFee(amountRemaining, fee);
    var lessFee := MulDiv(amountRemaining, FEE_UNITS - fee, FEE_UNITS).GetOr(0);
    CodeAmounts(price, target, liquidity, zeroForOne);
    result.amountIn :=
      if zeroForOne then Amount0Delta(target, price, liquidity, true) else Amount1Delta(price, target, liquidity, true);
    if lessFee >= result.amountIn {
      result.sqrtPriceNext := target;
      StepArrives(price, target, liquidity, amountRemaining, fee, zeroForOne, result.amountIn);
    } else {
      CodePartialNext(price, target, liquidity, lessFee, zeroForOne);
      match NextSqrtPriceFromInput(price, liquidity, lessFee, zeroForOne)
      case None =>
        return null, amountRemaining;
      case Some(moved) =>
        PartialMove(price, target, liquidity, lessFee, zeroForOne);
        PartialFee(amountRemaining, fee, AmountIn(price, moved, liquidity, zeroForOne));
        result.sqrtPriceNext := moved;
    }
    CodeAmounts(price, result.sqrtPriceNext, liquidity, zeroForOne);
    var max := result.sqrtPriceNext == target;
    if zeroForOne {
      if !max { result.amountIn := Amount0Delta(result.sqrtPriceNext, price, liquidity, true); }
      result.amountOut := Amount1Delta(result.sqrtPriceNext, price, liquidity, false);
    } else {
      if !max { result.amountIn := Amount1Delta(price, result.sqrtPriceNext, liquidity, true); }
      result.amountOut := Amount0Delta(price, result.sqrtPriceNext, liquidity, false);
    }
    if result.sqrtPriceNext != target {
      result.feeAmount := amountRemaining - result.amountIn;
    } else {
      result.feeAmount := MulDivRoundUp(result.amountIn, fee, FEE_UNITS - fee).GetOr(0);
    }
    remaining := amountRemaining - WrapAdd(result.amountIn, result.feeAmount);
  }
}
