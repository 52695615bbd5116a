/** How one exact-input step compares with another, and with the price it starts from. */
module SwapOrder {
  import opened Rounding
  import opened SqrtPriceMath
  import opened SwapStep
  import opened Word256

  lemma Amount1DownMonotone(low: nat, mid: nat, high: nat, liquidity: nat)
    requires low <= mid <= high
    ensures Amount1Down(mid, high, liquidity) <= Amount1Down(low, high, liquidity)
  {
    MulMono(high - mid, high - low, liquidity);
    FloorMono(liquidity * (high - mid), liquidity * (high - low), TWO_96);
  }

  lemma FartherYieldsMore(n: nat, low: nat, mid: nat, high: nat)
    requires 0 < low <= mid <= high
    ensures low * mid > 0 && low * high > 0
    ensures FloorDiv(n * (mid - low), low * mid) <= FloorDiv(n * (high - low), low * high)
  {
    ProductPositive(low, mid);
    ProductPositive(low, high);
    var small, large := FloorDiv(n * (mid - low), low * mid), FloorDiv(n * (high - low), low * high);
    FloorBounds(n * (mid - low), low * mid);
    FloorBounds(n * (high - low), low * high);
    CrossLess(n, low, mid, high, small, large + 1);
  }

  lemma CrossLess(n: nat, low: nat, mid: nat, high: nat, small: int, large: int)
    requires 0 < low <= mid <= high
    requires small * (low * mid) <= n * (mid - low)
    requires n * (high - low) < large * (low * high)
    ensures small < large
  {
    var all := low * mid * high;
    MulMono(small * (low * mid), n * (mid - low), high);
    MulMonoStrict(n * (high - low), large * (low * high), mid);
    Regroup(small, low, mid, high);
    Regroup(large, low, mid, high);
    Assoc(n, mid - low, high);
    Assoc(n, high - low, mid);
    Spread(mid, low, high);
    Spread(high, low, mid);
    MulMono(mid, high, low);
    MulMono((mid - low) * high, (high - low) * mid, n);
    ProductPositive(low, mid);
    CancelLess(small, large, all);
  }

  /** With more input a step yields at least as much and goes at least as far; when the smaller input
      already arrives, both steps are the same. */
  lemma StepMonotone(price: nat, target: nat, liquidity: nat, small: nat, large: nat, fee: nat, zeroForOne: bool)
    requires Toward(price, target, zeroForOne) && fee < FEE_UNITS && small <= large
    ensures var first := StepOf(price, target, liquidity, small, fee, zeroForOne);
      var second := StepOf(price, target, liquidity, large, fee, zeroForOne);
      first.Moved? ==>
      && second.Moved?
      && Toward(first.step.next, second.step.next, zeroForOne)
      && first.step.amountOut <= second.step.amountOut
      && (first.step.next == target ==> first == second)
  {
    hide FloorDiv, CeilDiv, NextDown, NextUp;
    var input, moreInput := AfterFee(small, fee), AfterFee(large, fee);
    MulMono(small, large, FEE_UNITS - fee);
    FloorMono(small * (FEE_UNITS - fee), large * (FEE_UNITS - fee), FEE_UNITS);
    assert input <= moreInput;
    hide AfterFee, AmountIn;
    var full := AmountIn(price, target, liquidity, zeroForOne);
    if input < full && !(zeroForOne && input == 0) {
      StepBounds(price, target, liquidity, small, fee, zeroForOne);
      StepBounds(price, target, liquidity, large, fee, zeroForOne);
      var less := StepOf(price, target, liquidity, small, fee, zeroForOne).step;
      var more := StepOf(price, target, liquidity, large, fee, zeroForOne).step;
      if moreInput < full {
        PartialMove(price, target, liquidity, input, zeroForOne);
        if zeroForOne {
          NextDownMonotone(price, liquidity, input, moreInput);
        } else {
          NextUpMonotone(price, liquidity, input, moreInput);
        }
      }
      if zeroForOne {
        Amount1DownMonotone(more.next, less.next, price, liquidity);
      } else {
        FartherYieldsMore(liquidity * TWO_96, price, less.next, more.next);
      }
    }
  }

  /** An exchange of input for output at no better than a given square-root price. */
  ghost predicate NoBetterThan(price: nat, input: int, output: int, zeroForOne: bool) {
    if zeroForOne then output * (TWO_96 * TWO_96) <= input * (price * price)
    else output * (price * price) <= input * (TWO_96 * TWO_96)
  }

  lemma DownNoBetter(price: nat, next: nat, liquidity: nat, start: nat)
    requires 0 < next <= price <= start
    ensures NoBetterThan(start, Amount0Up(next, price, liquidity), Amount1Down(next, price, liquidity), true)
  {
    var q := TWO_96;
    var d := liquidity * (price - next);
    var input, output := Amount0Up(next, price, liquidity), Amount1Down(next, price, liquidity);
    ProductPositive(next, price);
    FloorBounds(d, q);
    CeilBounds(liquidity * q * (price - next), next * price);
    hide CeilDiv, Amount0Up, Amount1Down;
    assert liquidity * q * (price - next) == d * q;
    assert output * q * q <= d * q;
    MulMono(next, price, price);
    MulMono(price, start, price);
    MulMono(price, start, start);
    MulMono(next * price, start * start, input);
    Assoc(output, q, q);
  }

  lemma UpNoBetter(price: nat, next: nat, liquidity: nat, start: nat)
    requires 0 < start <= price <= next
    ensures NoBetterThan(start, Amount1Up(price, next, liquidity), Amount0Down(price, next, liquidity), false)
  {
    var q := TWO_96;
    var d := liquidity * (next - price);
    var input, output := Amount1Up(price, next, liquidity), Amount0Down(price, next, liquidity);
    ProductPositive(price, next);
    CeilBounds(d, q);
    FloorBounds(liquidity * q * (next - price), price * next);
    FloorAtLeast(liquidity * q * (next - price), price * next, 0);
    hide CeilDiv, Amount0Down, Amount1Up;
    assert liquidity * q * (next - price) == d * q;
    assert d * q <= input * q * q;
    MulMono(start, price, start);
    MulMono(start, next, price);
    MulMono(start * start, price * next, output);
    Assoc(input, q, q);
  }

  /** No step beats a price the swap has already left behind, even counting only what is left of its
      consumption after the fee. */
  lemma StepNoBetter(price: nat, liquidity: nat, fee: nat, zeroForOne: bool, start: nat, step: Step)
    requires Toward(price, step.next, zeroForOne) && Toward(start, price, zeroForOne) && fee < FEE_UNITS
    requires step.amountIn == AmountIn(price, step.next, liquidity, zeroForOne)
    requires step.amountOut == AmountOut(price, step.next, liquidity, zeroForOne)
    requires step.Consumed() * fee <= step.feeAmount * FEE_UNITS
    ensures NoBetterThan(start, step.Consumed() * (FEE_UNITS - fee), step.amountOut * FEE_UNITS, zeroForOne)
  {
    hide NoBetterThan, Amount0Up, Amount0Down, Amount1Up, Amount1Down;
    if zeroForOne {
      DownNoBetter(price, step.next, liquidity, start);
    } else {
      UpNoBetter(price, step.next, liquidity, start);
    }
    NetOfFee(step.amountIn, step.feeAmount, fee);
    ScaleNoBetter(start, step.amountIn, step.amountOut, step.Consumed() * (FEE_UNITS - fee), zeroForOne);
  }

  lemma NetOfFee(amountIn: nat, feeAmount: nat, fee: nat)
    requires fee < FEE_UNITS && (amountIn + feeAmount) * fee <= feeAmount * FEE_UNITS
    ensures amountIn * FEE_UNITS <= (amountIn + feeAmount) * (FEE_UNITS - fee)
  {
    var all := amountIn + feeAmount;
    assert all * (FEE_UNITS - fee) == all * FEE_UNITS - all * fee;
  }

  lemma ScaleNoBetter(price: nat, input: int, output: int, more: int, zeroForOne: bool)
    requires NoBetterThan(price, input, output, zeroForOne) && input * FEE_UNITS <= more
    ensures NoBetterThan(price, more, output * FEE_UNITS, zeroForOne)
  {
    var x, y := price * price, TWO_96 * TWO_96;
    if zeroForOne {
      MulMono(input * FEE_UNITS, more, x);
      assert input * FEE_UNITS * x == input * x * FEE_UNITS;
    } else {
      MulMono(input * FEE_UNITS, more, y);
      assert output * FEE_UNITS * x == output * x * FEE_UNITS;
    }
  }

  lemma AddNoBetter(price: nat, input: int, output: int, moreInput: int, moreOutput: int, zeroForOne: bool)
    requires NoBetterThan(price, input, output, zeroForOne)
    requires NoBetterThan(price, moreInput, moreOutput, zeroForOne)
    ensures NoBetterThan(price, input + moreInput, output + moreOutput, zeroForOne)
  {
    Spread(input, moreInput, price * price);
    Spread(output, moreOutput, price * price);
  }
}
