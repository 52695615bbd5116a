/** Swapping one way and feeding the whole output back, inside one liquidity range. */
module RoundTrip {
  import opened Rounding
  import opened SqrtPriceMath
  import opened SwapStep
  import opened Word256

  /** Token 0 bought with rounded-down token 1 output costs at least what it first yielded. */
  lemma Token0Narrower(low: nat, mid: nat, high: nat, liquidity: nat)
    requires 0 < low <= mid <= high
    ensures Amount0Down(low, mid, liquidity) <= Amount0Up(low, high, liquidity)
  {
    var n := liquidity * TWO_96;
    var out, cost := Amount0Down(low, mid, liquidity), Amount0Up(low, high, liquidity);
    ProductPositive(low, mid);
    ProductPositive(low, high);
    FloorBounds(n * (mid - low), low * mid);
    CeilBounds(n * (high - low), low * high);
    hide FloorDiv, CeilDiv, Amount0Down, Amount0Up;
    CrossNarrower(n, low, mid, high, out, cost);
  }

  lemma CrossNarrower(n: nat, low: nat, mid: nat, high: nat, out: int, cost: int)
    requires 0 < low <= mid <= high
    requires out * (low * mid) <= n * (mid - low)
    requires n * (high - low) <= cost * (low * high)
    ensures out <= cost
  {
    var all := low * mid * high;
    ProductPositive(low, mid);
    ProductPositive(low * mid, high);
    MulMono(out * (low * mid), n * (mid - low), high);
    MulMono(n * (high - low), cost * (low * high), mid);
    Regroup(out, low, mid, high);
    Regroup(cost, low, mid, high);
    Assoc(n, mid - low, high);
    Assoc(n, high - low, mid);
    SpanOrder(low, mid, high);
    MulMono(mid, high, low);
    MulMono((mid - low) * high, (high - low) * mid, n);
    CancelLeq(out, cost, all);
  }

  lemma SpanOrder(low: nat, mid: nat, high: nat)
    ensures (mid - low) * high <= (high - low) * mid <==> low * mid <= low * high
  {
    Spread(mid, low, high);
    Spread(high, low, mid);
  }

  lemma Token1Narrower(low: nat, mid: nat, high: nat, liquidity: nat)
    requires low <= mid <= high
    ensures Amount1Down(mid, high, liquidity) <= Amount1Up(low, high, liquidity)
  {
    var out, cost := Amount1Down(mid, high, liquidity), Amount1Up(low, high, liquidity);
    FloorBounds(liquidity * (high - mid), TWO_96);
    CeilBounds(liquidity * (high - low), TWO_96);
    MulMono(high - mid, high - low, liquidity);
    CancelLeq(out, cost, TWO_96);
  }

  /** Rounded-up token 1 within a rounded-down amount spans no more of the price axis. */
  lemma Token1SpansLess(low: nat, mid: nat, high: nat, liquidity: nat)
    requires low <= mid && low <= high && liquidity > 0
    requires Amount1Up(low, mid, liquidity) <= Amount1Down(low, high, liquidity)
    ensures mid <= high
  {
    var cost, out := Amount1Up(low, mid, liquidity), Amount1Down(low, high, liquidity);
    CeilBounds(liquidity * (mid - low), TWO_96);
    FloorBounds(liquidity * (high - low), TWO_96);
    hide Amount1Up, Amount1Down, CeilDiv;
    assert liquidity * (mid - low) <= liquidity * (high - low);
    CancelLeq(mid - low, high - low, liquidity);
  }

  /** A rounded-up amount of token 0 within a rounded-down one spans no more of the price axis. */
  lemma CostSpansLess(n: nat, low: nat, mid: nat, high: nat)
    requires 0 < low <= high && 0 < mid <= high && n > 0
    ensures mid * high > 0 && low * high > 0
    ensures CeilDiv(n * (high - mid), mid * high) <= FloorDiv(n * (high - low), low * high) ==> low <= mid
  {
    ProductPositive(mid, high);
    ProductPositive(low, high);
    var cost, out := CeilDiv(n * (high - mid), mid * high), FloorDiv(n * (high - low), low * high);
    CeilBounds(n * (high - mid), mid * high);
    FloorBounds(n * (high - low), low * high);
    hide CeilDiv, FloorDiv;
    if cost <= out { CrossSpans(n, low, mid, high, cost, out); }
  }

  lemma CrossSpans(n: nat, low: nat, mid: nat, high: nat, cost: nat, out: nat)
    requires 0 < low <= high && 0 < mid <= high && n > 0 && cost <= out
    requires n * (high - mid) <= cost * (mid * high)
    requires out * (low * high) <= n * (high - low)
    ensures low <= mid
  {
    var all := low * mid * high;
    MulMono(n * (high - mid), cost * (mid * high), low);
    MulMono(out * (low * high), n * (high - low), mid);
    MulMono(cost, out, all);
    Regroup(cost, low, mid, high);
    Regroup(out, low, mid, high);
    Assoc(n, high - mid, low);
    Assoc(n, high - low, mid);
    CancelLeq((high - mid) * low, (high - low) * mid, n);
    Spread(high, mid, low);
    Spread(high, low, mid);
    CancelLeq(low, mid, high);
  }

  /** Feeding the whole output of a step back through a step the other way never returns more than was
      put in and never moves the price past where it started, for any fees and either first direction. */
  lemma NoRoundTripGain(price: nat, target: nat, liquidity: nat, remaining: nat, fee: nat, zeroForOne: bool,
      backTarget: nat, backFee: nat)
    requires Toward(price, target, zeroForOne) && fee < FEE_UNITS && backFee < FEE_UNITS
    ensures var outcome := StepOf(price, target, liquidity, remaining, fee, zeroForOne);
      outcome.Moved? && outcome.step.amountOut > 0 && Toward(outcome.step.next, backTarget, !zeroForOne) ==>
      var back := StepOf(outcome.step.next, backTarget, liquidity, outcome.step.amountOut, backFee, !zeroForOne);
      back.Moved? ==>
      && back.step.amountOut <= outcome.step.amountIn
      && if zeroForOne then back.step.next <= price else price <= back.step.next
  {
    var outcome := StepOf(price, target, liquidity, remaining, fee, zeroForOne);
    StepBounds(price, target, liquidity, remaining, fee, zeroForOne);
    if outcome.Moved? && outcome.step.amountOut > 0 && Toward(outcome.step.next, backTarget, !zeroForOne) {
      var first := outcome.step;
      StepBounds(first.next, backTarget, liquidity, first.amountOut, backFee, !zeroForOne);
      var back := StepOf(first.next, backTarget, liquidity, first.amountOut, backFee, !zeroForOne);
      hide StepOf, Amount1Up, Amount1Down, CeilDiv, FloorDiv;
      if liquidity == 0 { NothingOut(price, first.next, zeroForOne); }
      if back.Moved? {
        if zeroForOne {
          Token1SpansLess(first.next, back.step.next, price, liquidity);
          Token0Narrower(first.next, back.step.next, price, liquidity);
        } else {
          CostSpansLess(liquidity * TWO_96, price, back.step.next, first.next);
          Token1Narrower(price, back.step.next, first.next, liquidity);
        }
      }
    }
  }

  lemma NothingOut(price: nat, next: nat, zeroForOne: bool)
    requires Toward(price, next, zeroForOne)
    ensures AmountOut(price, next, 0, zeroForOne) == 0
  {
    ProductPositive(price, next);
    FloorIs(0, price * next, 0);
  }
}
