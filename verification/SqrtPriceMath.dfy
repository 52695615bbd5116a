/** Amounts between two square-root prices, and the price an input moves to. Prices carry 96
    fractional bits. The first half is the 256-bit code; the second half states what it computes. */
module SqrtPriceMath {
  import opened Rounding
  import opened Word256

  // ----- 512-bit multiply and divide --------------------------------------------------------------

  function MulDiv(a: u256, b: u256, denominator: u256): Option<u256> {
    if denominator == 0 then None else Some(Clamp(FloorDiv(a * b, denominator)))
  }

  function MulDivRoundUp(a: u256, b: u256, denominator: u256): Option<u256> {
    if denominator == 0 then None else Some(Clamp(FloorDiv(a * b + denominator - 1, denominator)))
  }

  // ----- The code ---------------------------------------------------------------------------------

  function Amount0Delta(ratioA: u256, ratioB: u256, liquidity: u256, roundUp: bool): u256 {
    var (low, high) := if ratioA > ratioB then (ratioB, ratioA) else (ratioA, ratioB);
    var numerator1 := ShiftLeft96(liquidity);
    var numerator2 := high - low;
    if roundUp then MulDivRoundUp(MulDivRoundUp(numerator1, numerator2, high).GetOr(0), 1, low).GetOr(0)
    else MulDiv(MulDiv(numerator1, numerator2, high).GetOr(0), 1, low).GetOr(0)
  }

  function Amount1Delta(ratioA: u256, ratioB: u256, liquidity: u256, roundUp: bool): u256 {
    var (low, high) := if ratioA > ratioB then (ratioB, ratioA) else (ratioA, ratioB);
    if roundUp then MulDivRoundUp(liquidity, high - low, TWO_96).GetOr(0)
    else MulDiv(liquidity, high - low, TWO_96).GetOr(0)
  }

  /** The price after an input; None where the code divides by zero. */
  function NextSqrtPriceFromInput(price: u256, liquidity: u256, amountIn: u256, zeroForOne: bool): Option<u256> {
    if zeroForOne then
      var numerator := ShiftLeft96(liquidity);
      var product := WrapMul(amountIn, price);
      if amountIn == 0 then None
      else
        var denominator := WrapAdd(numerator, product);
        if WordDiv(product, amountIn) == price && denominator >= numerator then
          Some(MulDivRoundUp(numerator, price, denominator).GetOr(0))
        else if price == 0 then None
        else Some(MulDivRoundUp(numerator, 1, WrapAdd(WordDiv(numerator, price), amountIn)).GetOr(0))
    else
      if liquidity == 0 then None
      else Some(WrapAdd(price, WordDiv(ShiftLeft96(amountIn), liquidity)))
  }

  // ----- What it computes -------------------------------------------------------------------------

  /** Token 0 between two prices: L * 2^96 * (high - low) / (low * high). */
  function Amount0Up(low: nat, high: nat, liquidity: nat): nat
    requires 0 < low <= high
  {
    ProductPositive(low, high);
    CeilDiv(liquidity * TWO_96 * (high - low), low * high)
  }

  function Amount0Down(low: nat, high: nat, liquidity: nat): nat
    requires 0 < low <= high
  {
    ProductPositive(low, high);
    FloorDiv(liquidity * TWO_96 * (high - low), low * high)
  }

  /** Token 1 between two prices: L * (high - low) / 2^96. */
  function Amount1Up(low: nat, high: nat, liquidity: nat): nat
    requires low <= high
  {
    CeilDiv(liquidity * (high - low), TWO_96)
  }

  function Amount1Down(low: nat, high: nat, liquidity: nat): nat
    requires low <= high
  {
    FloorDiv(liquidity * (high - low), TWO_96)
  }

  /** Token 0 lowers the price: to the ceiling of the exact price while the denominator fits a word,
      and to a coarser upper bound of it otherwise. */
  function NextDown(price: nat, liquidity: nat, amountIn: nat): nat
    requires price > 0 && amountIn > 0
  {
    ProductPositive(amountIn, price);
    var n := liquidity * TWO_96;
    if n + amountIn * price < TWO_256 then CeilDiv(n * price, n + amountIn * price)
    else CeilDiv(n, FloorDiv(n, price) + amountIn)
  }

  /** Token 1 raises the price. */
  function NextUp(price: nat, liquidity: nat, amountIn: nat): nat
    requires liquidity > 0
  {
    price + FloorDiv(amountIn * TWO_96, liquidity)
  }

  lemma ProductPositive(a: nat, b: nat)
    requires a > 0 && b > 0
    ensures a * b > 0
  {
  }

  // ----- The code computes it ---------------------------------------------------------------------

  lemma LiquidityShift(liquidity: u256)
    requires liquidity < TWO_128
    ensures ShiftLeft96(liquidity) == liquidity * TWO_96 < TWO_128 * TWO_96
  {
  }

  lemma MulDivRoundUpFits(a: u256, b: u256, d: u256, bound: nat)
    requires d > 0 && a * b <= bound * d && bound < TWO_256
    ensures MulDivRoundUp(a, b, d) == Some(CeilDiv(a * b, d)) && CeilDiv(a * b, d) <= bound
  {
    CeilAtMost(a * b, d, bound);
  }

  lemma {:induction false} MulDivFits(a: u256, b: u256, d: u256, bound: nat)
    requires d > 0 && a * b <= bound * d && bound < TWO_256
    ensures MulDiv(a, b, d) == Some(FloorDiv(a * b, d)) && FloorDiv(a * b, d) <= bound
  {
    FloorBounds(a * b, d);
    Spread(bound, 1, d);
    CancelLess(FloorDiv(a * b, d), bound + 1, d);
  }

  /** The 512-bit quotients for all inputs: none by zero, exact while they fit a word, and the largest word
      beyond. */
  lemma MulDivIsExact(a: u256, b: u256, d: u256)
    ensures MulDiv(a, b, d).None? <==> d == 0
    ensures MulDiv(a, b, d).Some? ==>
      var q := MulDiv(a, b, d).value;
      if a * b < TWO_256 * d then q * d <= a * b < (q + 1) * d else q == TWO_256 - 1
  {
    if d > 0 {
      var q := FloorDiv(a * b, d);
      FloorDivBounds(a * b, d);
      hide FloorDiv;
      if a * b < TWO_256 * d { CancelLess(q, TWO_256, d); } else { CancelLess(TWO_256, q + 1, d); }
    }
  }

  lemma MulDivRoundUpIsExact(a: u256, b: u256, d: u256)
    ensures MulDivRoundUp(a, b, d).None? <==> d == 0
    ensures MulDivRoundUp(a, b, d).Some? ==>
      var q := MulDivRoundUp(a, b, d).value;
      if a * b <= (TWO_256 - 1) * d then (q - 1) * d < a * b <= q * d else q == TWO_256 - 1
  {
    if d > 0 {
      var q := CeilDiv(a * b, d);
      CeilBounds(a * b, d);
      Spread(q, 1, d);
      if a * b <= (TWO_256 - 1) * d { CeilAtMost(a * b, d, TWO_256 - 1); } else { CeilAbove(a * b, d, TWO_256 - 1); }
      hide CeilDiv;
    }
  }

  lemma Amount0DeltaUpExact(low: u256, high: u256, liquidity: u256)
    requires 0 < low <= high && liquidity < TWO_128
    ensures Amount0Delta(low, high, liquidity, true) == Amount0Delta(high, low, liquidity, true)
      == Amount0Up(low, high, liquidity)
  {
    hide CeilDiv, FloorDiv, ShiftLeft96, MulDivRoundUp;
    LiquidityShift(liquidity);
    var n := liquidity * TWO_96;
    MulMono(high - low, high, n);
    MulDivRoundUpFits(n, high - low, high, n);
    var inner := CeilDiv(n * (high - low), high);
    MulMono(1, low, inner);
    MulDivRoundUpFits(inner, 1, low, inner);
    NestedCeil(n * (high - low), high, low);
  }

  lemma Amount0DeltaDownExact(low: u256, high: u256, liquidity: u256)
    requires 0 < low <= high && liquidity < TWO_128
    ensures Amount0Delta(low, high, liquidity, false) == Amount0Delta(high, low, liquidity, false)
      == Amount0Down(low, high, liquidity)
  {
    hide ShiftLeft96, MulDiv, FloorDiv;
    LiquidityShift(liquidity);
    var n := liquidity * TWO_96;
    MulMono(high - low, high, n);
    MulDivFits(n, high - low, high, n);
    var inner := FloorDiv(n * (high - low), high);
    MulMono(1, low, inner);
    MulDivFits(inner, 1, low, inner);
    NestedFloor(n * (high - low), high, low);
  }

  lemma Amount1DeltaExact(low: u256, high: u256, liquidity: u256)
    requires low <= high < TWO_160 && liquidity < TWO_128
    ensures Amount1Delta(low, high, liquidity, true) == Amount1Delta(high, low, liquidity, true)
      == Amount1Up(low, high, liquidity)
    ensures Amount1Delta(low, high, liquidity, false) == Amount1Delta(high, low, liquidity, false)
      == Amount1Down(low, high, liquidity)
  {
    MulMono(liquidity, TWO_128, high - low);
    MulDivRoundUpFits(liquidity, high - low, TWO_96, TWO_128 * TWO_96);
    MulDivFits(liquidity, high - low, TWO_96, TWO_128 * TWO_96);
  }

  /** The test `product / amountIn == price` holds exactly when the product did not leave the word. */
  lemma WrapTest(amountIn: u256, price: u256)
    requires amountIn > 0
    ensures WordDiv(WrapMul(amountIn, price), amountIn) == price <==> amountIn * price < TWO_256
  {
    var product := WrapMul(amountIn, price);
    if amountIn * price < TWO_256 {
      FloorIs(product, amountIn, price) by { assert (price + 1) * amountIn == amountIn * price + amountIn; }
    } else {
      FloorBounds(product, amountIn);
      assert product < amountIn * price;
    }
  }

  /** Downward, the code divides by zero exactly on a zero input, and otherwise reaches NextDown. */
  lemma NextDownExact(price: u256, liquidity: u256, amountIn: u256)
    requires 0 < price && liquidity < TWO_128 && amountIn < TWO_160
    ensures NextSqrtPriceFromInput(price, liquidity, amountIn, true)
      == if amountIn == 0 then None else Some(NextDown(price, liquidity, amountIn))
  {
    LiquidityShift(liquidity);
    if amountIn > 0 {
      var n := liquidity * TWO_96;
      ProductPositive(amountIn, price);
      if n + amountIn * price < TWO_256 {
        ExactBranch(n, price, amountIn);
      } else {
        FallbackBranch(n, price, amountIn);
      }
      hide ShiftLeft96, WordDiv, WrapMul, WrapAdd, MulDivRoundUp, CeilDiv, FloorDiv;
    }
  }

  lemma WrapMulExact(a: u256, b: u256)
    requires a * b < TWO_256
    ensures WrapMul(a, b) == a * b
  {
  }

  /** A sum is exact, and not below its first term, exactly when it did not leave the word. */
  lemma SumTest(a: u256, b: u256)
    ensures WrapAdd(a, b) == a + b <==> a + b < TWO_256
    ensures WrapAdd(a, b) >= a <==> a + b < TWO_256
  {
  }

  lemma {:induction false} WordDivExact(a: u256, b: u256)
    requires b > 0
    ensures WordDiv(a, b) == FloorDiv(a, b) <= a
  {
    WordDivFits(a, b);
    FloorBounds(a, b);
  }

  lemma ExactBranch(n: u256, price: u256, amountIn: u256)
    requires 0 < price && 0 < amountIn && n + amountIn * price < TWO_256
    ensures var product := WrapMul(amountIn, price);
      var denominator := WrapAdd(n, product);
      && WordDiv(product, amountIn) == price && denominator >= n
      && denominator == n + amountIn * price > 0
      && MulDivRoundUp(n, price, denominator) == Some(CeilDiv(n * price, denominator))
  {
    hide MulDivRoundUp, CeilDiv, FloorDiv, WrapMul, WrapAdd, WordDiv;
    ProductPositive(amountIn, price);
    var product := amountIn * price;
    WrapMulExact(amountIn, price);
    SumTest(n, product);
    WordDivExact(product, amountIn);
    WrapTest(amountIn, price);
    MulMono(n, n + product, price);
    MulDivRoundUpFits(n, price, n + product, price);
  }

  lemma {:induction false} FallbackBranch(n: u256, price: u256, amountIn: u256)
    requires 0 < price && 0 < amountIn < TWO_160 && n < TWO_128 * TWO_96 && n + amountIn * price >= TWO_256
    ensures var product := WrapMul(amountIn, price);
      !(WordDiv(product, amountIn) == price && WrapAdd(n, product) >= n)
    ensures var d := WrapAdd(WordDiv(n, price), amountIn);
      d == FloorDiv(n, price) + amountIn > 0 && MulDivRoundUp(n, 1, d) == Some(CeilDiv(n, d))
  {
    hide MulDivRoundUp, CeilDiv, FloorDiv, WrapMul, WrapAdd, WordDiv;
    WordDivExact(WrapMul(amountIn, price), amountIn);
    WrapTest(amountIn, price);
    if amountIn * price < TWO_256 {
      WrapMulExact(amountIn, price);
      SumTest(n, amountIn * price);
    }
    WordDivExact(n, price);
    FloorAtLeast(n, price, 0);
    SumTest(FloorDiv(n, price), amountIn);
    var d := FloorDiv(n, price) + amountIn;
    MulMono(1, d, n);
    MulDivRoundUpFits(n, 1, d, n);
  }

  lemma NextUpExact(price: u256, liquidity: u256, amountIn: u256)
    requires liquidity > 0 && amountIn < TWO_160
    requires NextUp(price, liquidity, amountIn) < TWO_256
    ensures NextSqrtPriceFromInput(price, liquidity, amountIn, false) == Some(NextUp(price, liquidity, amountIn))
  {
    assert ShiftLeft96(amountIn) == amountIn * TWO_96;
    WordDivExact(amountIn * TWO_96, liquidity);
    hide ShiftLeft96, WordDiv, FloorDiv;
  }

  /** The downward price never rises and never falls below the exact rational price
      L * 2^96 * P / (L * 2^96 + x * P), in both branches; while the denominator fits a word it is
      the ceiling of that price. */
  lemma NextDownBracket(price: nat, liquidity: nat, amountIn: nat)
    requires price > 0 && amountIn > 0
    ensures var n, next := liquidity * TWO_96, NextDown(price, liquidity, amountIn);
      && next <= price
      && n * price <= next * (n + amountIn * price)
      && (n + amountIn * price < TWO_256 ==> next * (n + amountIn * price) < n * price + (n + amountIn * price))
  {
    var n, next := liquidity * TWO_96, NextDown(price, liquidity, amountIn);
    ProductPositive(amountIn, price);
    var product := amountIn * price;
    if n + product < TWO_256 {
      CeilBounds(n * price, n + product);
      CeilAtMost(n * price, n + product, price) by { assert price * (n + product) == n * price + price * product; }
    } else {
      FallbackBracket(n, price, amountIn);
    }
  }

  lemma {:induction false} FallbackBracket(n: nat, price: nat, amountIn: nat)
    requires price > 0 && amountIn > 0
    ensures var next := CeilDiv(n, FloorDiv(n, price) + amountIn);
      next <= price && n * price <= next * (n + amountIn * price)
  {
    var q := FloorDiv(n, price);
    var d := q + amountIn;
    var next := CeilDiv(n, d);
    FloorBounds(n, price);
    CeilBounds(n, d);
    MulMono(q + 1, d, price);
    CeilAtMost(n, d, price);
    hide CeilDiv;
    Spread(q, amountIn, price);
    MulMono(n, next * d, price);
    MulMono(d * price, n + amountIn * price, next);
    Assoc(next, d, price);
  }

  /** A larger input never leaves the price higher, whichever branches the two inputs take. */
  lemma NextDownMonotone(price: nat, liquidity: nat, small: nat, large: nat)
    requires price > 0 && 0 < small <= large
    ensures NextDown(price, liquidity, large) <= NextDown(price, liquidity, small)
  {
    var n := liquidity * TWO_96;
    var next := NextDown(price, liquidity, small);
    NextDownBracket(price, liquidity, small);
    MulMono(small, large, price);
    ProductPositive(large, price);
    if n + large * price < TWO_256 {
      MulMono(n + small * price, n + large * price, next);
      CeilAtMost(n * price, n + large * price, next);
    } else if n + small * price < TWO_256 {
      FallbackBelowExact(n, price, small, large, next);
    } else {
      FallbackMonotone(n, price, small, large);
    }
    hide CeilDiv;
  }

  lemma {:induction false} FallbackMonotone(n: nat, price: nat, small: nat, large: nat)
    requires price > 0 && 0 < small <= large
    ensures CeilDiv(n, FloorDiv(n, price) + large) <= CeilDiv(n, FloorDiv(n, price) + small)
  {
    var next := CeilDiv(n, FloorDiv(n, price) + small);
    CeilBounds(n, FloorDiv(n, price) + small);
    MulMono(FloorDiv(n, price) + small, FloorDiv(n, price) + large, next);
    CeilAtMost(n, FloorDiv(n, price) + large, next);
  }

  /** One unit more of input outweighs the floor inside the fallback's denominator. */
  lemma {:induction false} FallbackBelowExact(n: nat, price: nat, small: nat, large: nat, next: nat)
    requires price > 0 && 0 < small < large
    requires n * price <= next * (n + small * price)
    ensures CeilDiv(n, FloorDiv(n, price) + large) <= next
  {
    var q := FloorDiv(n, price);
    var d := q + large;
    FloorBounds(n, price);
    FloorAtLeast(n, price, 0);
    MulMono(q + 1 + small, d, price);
    Spread(q + 1, small, price);
    MulMono(n + small * price, d * price, next);
    Assoc(next, d, price);
    CancelLeq(n, next * d, price);
    CeilAtMost(n, d, next);
  }

  lemma NextUpMonotone(price: nat, liquidity: nat, small: nat, large: nat)
    requires liquidity > 0 && small <= large
    ensures price <= NextUp(price, liquidity, small) <= NextUp(price, liquidity, large)
  {
    FloorMono(small * TWO_96, large * TWO_96, liquidity);
    FloorAtLeast(small * TWO_96, liquidity, 0);
  }
}
