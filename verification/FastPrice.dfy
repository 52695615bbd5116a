/** The second next-price formula of the code base: one 512-bit division, rounding down both ways. */
module FastPrice {
  import opened Rounding
  import opened SqrtPriceMath
  import opened Word256

  const TWO_512: nat := TWO_256 * TWO_256

  /** A result reduced to 512 bits. */
  function Wrap512(v: nat): nat { if v < TWO_512 then v else Wrap512(v - TWO_512) }

  lemma {:induction false} Wrap512IsRemainder(v: nat)
    ensures Wrap512(v) == v % TWO_512
    decreases v
  {
    if TWO_512 <= v { Wrap512IsRemainder(v - TWO_512); }
  }

  function WrapMul512(a: nat, b: nat): nat { Wrap512(a * b) }

  function FastNextSqrtPrice(price: u256, liquidity: u256, amountIn: u256, zeroForOne: bool): u256 {
    if liquidity == 0 || amountIn == 0 then price
    else if zeroForOne then
      var numerator := Wrap512(Wrap512(liquidity * price) * TWO_96);
      var denominator := Wrap512(Wrap512(liquidity * TWO_96) + Wrap512(amountIn * price));
      if denominator == 0 then price else Clamp(FloorDiv(numerator, denominator))
    else
      Clamp(Wrap512(price + FloorDiv(Wrap512(amountIn * TWO_96), liquidity)))
  }

  lemma {:induction false} WrapFits(v: nat)
    requires v < TWO_512
    ensures Wrap512(v) == v
  {
  }

  lemma {:induction false} FitTogether(a: nat, b: nat, c: nat)
    requires a < TWO_128 * TWO_160 && b < TWO_128 * TWO_96 && c < TWO_160 * TWO_160
    ensures Wrap512(a) == a && Wrap512(a * TWO_96) == a * TWO_96 && Wrap512(b) == b
      && Wrap512(c) == c && Wrap512(b + c) == b + c
  {
    hide Wrap512;
    WrapFits(a);
    WrapFits(a * TWO_96);
    WrapFits(b);
    WrapFits(c);
    WrapFits(b + c);
  }

  lemma ProductBound(a: nat, b: nat, boundA: nat, boundB: nat)
    requires a < boundA && b < boundB
    ensures a * b < boundA * boundB
  {
    MulMono(a, boundA, b);
    MulMonoStrict(b, boundB, boundA);
  }

  lemma ProductsBounded(price: u256, liquidity: u256, amountIn: u256)
    requires 0 < price < TWO_160 && 0 < liquidity < TWO_128 && 0 < amountIn < TWO_160
    ensures liquidity * price < TWO_128 * TWO_160 && 0 < amountIn * price < TWO_160 * TWO_160
  {
    ProductPositive(amountIn, price);
    ProductBound(liquidity, price, TWO_128, TWO_160);
    ProductBound(amountIn, price, TWO_160, TWO_160);
  }

  lemma DownUnwrapped(price: u256, liquidity: u256, amountIn: u256)
    requires 0 < price < TWO_160 && 0 < liquidity < TWO_128 && 0 < amountIn < TWO_160
    ensures 0 < liquidity * TWO_96 + amountIn * price
    ensures FastNextSqrtPrice(price, liquidity, amountIn, true)
      == Clamp(FloorDiv(liquidity * price * TWO_96, liquidity * TWO_96 + amountIn * price))
  {
    ProductsBounded(price, liquidity, amountIn);
    FitTogether(liquidity * price, liquidity * TWO_96, amountIn * price);
    hide Wrap512;
  }

  /** The fast form is the floor of the exact price, never above the price moved from. */
  lemma FastDownIsFloor(price: u256, liquidity: u256, amountIn: u256)
    requires 0 < price < TWO_160 && 0 < liquidity < TWO_128 && 0 < amountIn < TWO_160
    ensures var n := liquidity * TWO_96;
      && n + amountIn * price > 0
      && FastNextSqrtPrice(price, liquidity, amountIn, true) == FloorDiv(n * price, n + amountIn * price) <= price
  {
    hide FastNextSqrtPrice, FloorDiv;
    DownUnwrapped(price, liquidity, amountIn);
    SwapFactors(liquidity, price, TWO_96);
    FloorOfFraction(liquidity * TWO_96, price, amountIn * price);
  }

  lemma FloorOfFraction(n: nat, price: nat, product: nat)
    requires n + product > 0
    ensures FloorDiv(n * price, n + product) <= price
  {
    var d := n + product;
    MulMono(n, d, price);
    Spread(price, 1, d);
    FloorBelow(n * price, d, price + 1);
    FloorAtLeast(n * price, d, 0);
  }

  /** Going up, both formulas agree. */
  lemma FastUpAgrees(price: u256, liquidity: u256, amountIn: u256)
    requires 0 < liquidity < TWO_128 && 0 < amountIn < TWO_160 && NextUp(price, liquidity, amountIn) < TWO_256
    ensures Some(FastNextSqrtPrice(price, liquidity, amountIn, false))
      == NextSqrtPriceFromInput(price, liquidity, amountIn, false)
  {
    hide Wrap512, NextSqrtPriceFromInput;
    NextUpExact(price, liquidity, amountIn);
    var quotient := amountIn * TWO_96 / liquidity;
    FloorAtLeast(amountIn * TWO_96, liquidity, 0);
    WrapFits(amountIn * TWO_96);
    WrapFits(price + quotient);
  }

  /** Going down, the fast form is never above the rounded-up one; while the denominator fits a word it
      is the same price when the division is exact and exactly one unit lower when it is not. */
  lemma FastDownAgrees(price: u256, liquidity: u256, amountIn: u256)
    requires 0 < price < TWO_160 && 0 < liquidity < TWO_128 && 0 < amountIn < TWO_160
    ensures NextSqrtPriceFromInput(price, liquidity, amountIn, true).Some?
    ensures var n := liquidity * TWO_96;
      var d := n + amountIn * price;
      var fast := FastNextSqrtPrice(price, liquidity, amountIn, true);
      var rounded := NextSqrtPriceFromInput(price, liquidity, amountIn, true).value;
      && d > 0 && fast <= rounded
      && (d < TWO_256 ==> rounded == if n * price % d == 0 then fast else fast + 1)
  {
    hide NextSqrtPriceFromInput, FastNextSqrtPrice;
    NextDownExact(price, liquidity, amountIn);
    FastDownIsFloor(price, liquidity, amountIn);
    FloorOfNextDown(price, liquidity, amountIn);
  }

  lemma FloorOfNextDown(price: nat, liquidity: nat, amountIn: nat)
    requires price > 0 && amountIn > 0
    ensures var n, rounded := liquidity * TWO_96, NextDown(price, liquidity, amountIn);
      var d := n + amountIn * price;
      && d > 0 && FloorDiv(n * price, d) <= rounded
      && (d < TWO_256 ==> rounded == FloorDiv(n * price, d) + if n * price % d == 0 then 0 else 1)
  {
    ProductPositive(amountIn, price);
    NextDownBracket(price, liquidity, amountIn);
    hide NextDown;
    var n, rounded := liquidity * TWO_96, NextDown(price, liquidity, amountIn);
    var d := n + amountIn * price;
    FloorBelow(n * price, d, rounded + 1) by { assert (rounded + 1) * d == rounded * d + d; }
    if d < TWO_256 {
      CeilIs(n * price, d, rounded);
      FloorAndCeil(n * price, d);
    }
  }

  lemma FloorAndCeil(n: nat, d: nat)
    requires d > 0
    ensures CeilDiv(n, d) == FloorDiv(n, d) + if n % d == 0 then 0 else 1
  {
    FloorBounds(n, d);
    var q, r := n / d, n % d;
    assert n == q * d + r;
    if r == 0 {
      CeilIs(n, d, q);
    } else {
      CeilIs(n, d, q + 1) by { assert (q + 1) * d == q * d + d; }
    }
  }
}
