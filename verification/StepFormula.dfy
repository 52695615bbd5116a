/** One exact-input step in explicit arithmetic: every field of the result between two products. */
module StepFormula {
  import opened Rounding
  import opened SqrtPriceMath
  import opened SwapStep
  import opened Word256

  /** What a downward move from one price to another takes in and pays out. */
  ghost predicate ExactDown(price: nat, next: nat, liquidity: nat, amountIn: nat, amountOut: nat) {
    && (amountIn - 1) * (price * next) < liquidity * TWO_96 * (price - next) <= amountIn * (price * next)
    && amountOut * TWO_96 <= liquidity * (price - next) < (amountOut + 1) * TWO_96
  }

  ghost predicate ExactUp(price: nat, next: nat, liquidity: nat, amountIn: nat, amountOut: nat) {
    && (amountIn - 1) * TWO_96 < liquidity * (next - price) <= amountIn * TWO_96
    && amountOut * (price * next) <= liquidity * TWO_96 * (next - price) < (amountOut + 1) * (price * next)
  }

  /** Both directions: amounts in rounded up, amounts out rounded down. */
  ghost predicate ExactMove(price: nat, next: nat, liquidity: nat, amountIn: nat, amountOut: nat, zeroForOne: bool) {
    if zeroForOne then ExactDown(price, next, liquidity, amountIn, amountOut)
    else ExactUp(price, next, liquidity, amountIn, amountOut)
  }

  lemma CeilIsLeast(n: nat, d: nat)
    requires d > 0
    ensures (CeilDiv(n, d) - 1) * d < n <= CeilDiv(n, d) * d
  {
    CeilBounds(n, d);
    Spread(CeilDiv(n, d), 1, d);
  }

  lemma DownIsExact(price: nat, next: nat, liquidity: nat)
    requires 0 < next <= price
    ensures ExactDown(price, next, liquidity, Amount0Up(next, price, liquidity), Amount1Down(next, price, liquidity))
  {
    ProductPositive(next, price);
    CeilIsLeast(liquidity * TWO_96 * (price - next), next * price);
    FloorDivBounds(liquidity * (price - next), TWO_96);
    assert next * price == price * next;
    hide FloorDiv, CeilDiv;
  }

  lemma UpIsExact(price: nat, next: nat, liquidity: nat)
    requires 0 < price <= next
    ensures ExactUp(price, next, liquidity, Amount1Up(price, next, liquidity), Amount0Down(price, next, liquidity))
  {
    ProductPositive(price, next);
    CeilIsLeast(liquidity * (next - price), TWO_96);
    FloorDivBounds(liquidity * TWO_96 * (next - price), price * next);
    hide FloorDiv, CeilDiv;
  }

  lemma AmountsAreExact(price: nat, next: nat, liquidity: nat, zeroForOne: bool)
    requires Toward(price, next, zeroForOne)
    ensures ExactMove(price, next, liquidity, AmountIn(price, next, liquidity, zeroForOne),
              AmountOut(price, next, liquidity, zeroForOne), zeroForOne)
  {
    hide ExactDown, ExactUp, Amount0Up, Amount0Down, Amount1Up, Amount1Down;
    if zeroForOne { DownIsExact(price, next, liquidity); } else { UpIsExact(price, next, liquidity); }
  }

  /** Where an input leaves the price going down: the least price that covers it, in the exact branch
      while the denominator fits a word, and with a rounded quotient otherwise. */
  ghost predicate ExactNextDown(price: nat, next: nat, liquidity: nat, input: nat) {
    var n, product := liquidity * TWO_96, input * price;
    if n + product < TWO_256 then
      (next - 1) * (n + product) < n * price <= next * (n + product)
    else
      exists q: nat :: q * price <= n < (q + 1) * price && (next - 1) * (q + input) < n <= next * (q + input)
  }

  ghost predicate ExactNextUp(price: nat, next: nat, liquidity: nat, input: nat) {
    price <= next && (next - price) * liquidity <= input * TWO_96 < (next - price + 1) * liquidity
  }

  /** The fallback's quotient and ceiling. */
  lemma FallbackIsExact(n: nat, price: nat, input: nat)
    requires 0 < price && 0 < input
    ensures var next := CeilDiv(n, FloorDiv(n, price) + input);
      exists q: nat :: q * price <= n < (q + 1) * price && (next - 1) * (q + input) < n <= next * (q + input)
  {
    var q := FloorDiv(n, price);
    FloorDivBounds(n, price);
    CeilIsLeast(n, q + input);
    hide FloorDiv, CeilDiv;
    var next := CeilDiv(n, q + input);
    assert q * price <= n < (q + 1) * price && (next - 1) * (q + input) < n <= next * (q + input);
  }

  /** What is left after the fee: the rate's complement of it, rounded down. */
  ghost predicate ExactRest(input: nat, remaining: nat, fee: nat) {
    input * 1_000_000 <= remaining * (1_000_000 - fee) < (input + 1) * 1_000_000
  }

  /** The fee on what is paid in, rounded up. */
  ghost predicate ExactFee(feeAmount: nat, amountIn: nat, fee: nat) {
    (feeAmount - 1) * (1_000_000 - fee) < amountIn * fee <= feeAmount * (1_000_000 - fee)
  }

  lemma RestIsExact(remaining: nat, fee: nat)
    requires fee < FEE_UNITS
    ensures ExactRest(AfterFee(remaining, fee), remaining, fee)
  {
    FloorDivBounds(remaining * (FEE_UNITS - fee), FEE_UNITS);
    hide FloorDiv;
  }

  lemma FeeIsExact(amountIn: nat, fee: nat)
    requires fee < FEE_UNITS
    ensures ExactFee(CeilDiv(amountIn * fee, FEE_UNITS - fee), amountIn, fee)
  {
    CeilIsLeast(amountIn * fee, FEE_UNITS - fee);
    hide CeilDiv;
  }

  /** A step that moves, in full: the input left after the fee is the floor of its share; the step arrives
      exactly when that pays for the way, and otherwise goes as far as it reaches; the amounts are those of
      the move; the fee is the rounded-up share on arrival and all that is left otherwise. */
  lemma StepIsExact(price: nat, target: nat, liquidity: nat, remaining: nat, fee: nat, zeroForOne: bool)
      returns (input: nat, cost: nat)
    requires Toward(price, target, zeroForOne) && fee < FEE_UNITS
    ensures ExactRest(input, remaining, fee)
    ensures exists most: nat :: ExactMove(price, target, liquidity, cost, most, zeroForOne)
    ensures var outcome := StepOf(price, target, liquidity, remaining, fee, zeroForOne);
      outcome.Moved? ==>
      var step := outcome.step;
      && (step.next == target <==> cost <= input)
      && (step.next != target ==>
            if zeroForOne then ExactNextDown(price, step.next, liquidity, input)
            else ExactNextUp(price, step.next, liquidity, input))
      && ExactMove(price, step.next, liquidity, step.amountIn, step.amountOut, zeroForOne)
      && if step.next == target then ExactFee(step.feeAmount, step.amountIn, fee)
         else step.amountIn + step.feeAmount == remaining
  {
    hide FloorDiv, CeilDiv, ExactRest, ExactFee, ExactMove, AmountIn, AmountOut, AfterFee;
    input, cost := AfterFee(remaining, fee), AmountIn(price, target, liquidity, zeroForOne);
    RestIsExact(remaining, fee);
    AmountsAreExact(price, target, liquidity, zeroForOne);
    StepBounds(price, target, liquidity, remaining, fee, zeroForOne);
    var outcome := StepOf(price, target, liquidity, remaining, fee, zeroForOne);
    if outcome.Moved? {
      var step := outcome.step;
      AmountsAreExact(price, step.next, liquidity, zeroForOne);
      FeeIsExact(step.amountIn, fee);
      if input < cost {
        PartialMove(price, target, liquidity, input, zeroForOne);
        if zeroForOne {
          var n, product := liquidity * TWO_96, input * price;
          ProductPositive(input, price);
          CeilIsLeast(n * price, n + product);
          FallbackIsExact(n, price, input);
        } else {
          FloorDivBounds(input * TWO_96, liquidity);
        }
      }
    }
  }
}
