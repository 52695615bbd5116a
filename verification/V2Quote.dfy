/** Constant-product quotes with the 0.3% fee, and what any sequence of quoted swaps does to a pool. */
module V2Quote {
  import opened FastPrice
  import opened Rounding
  import opened Word256

  const TWO_112: nat := 0x1_0000_0000_0000_0000_0000_0000_0000

  datatype PoolState = PoolState(reserves0: u256, reserves1: u256, isStable: bool)

  /** The quote in 512-bit arithmetic; zero for an empty pool or input. */
  function GetV2Output(amountIn: u256, state: PoolState, zeroForOne: bool): u256 {
    if state.reserves0 == 0 || state.reserves1 == 0 then 0
    else
      var (reserveIn, reserveOut) :=
        if zeroForOne then (state.reserves0, state.reserves1) else (state.reserves1, state.reserves0);
      if amountIn == 0 then 0
      else
        var amountInWithFee := WrapMul512(amountIn, 997);
        var numerator := WrapMul512(amountInWithFee, reserveOut);
        var denominator := Wrap512(WrapMul512(reserveIn, 1000) + amountInWithFee);
        if denominator == 0 then 0 else Clamp(FloorDiv(numerator, denominator))
  }

  /** 997 x r_out / (1000 r_in + 997 x), rounded down. */
  function Quote(amountIn: nat, reserveIn: nat, reserveOut: nat): (out: nat)
    requires reserveIn > 0
  {
    FloorDiv(997 * amountIn * reserveOut, 1000 * reserveIn + 997 * amountIn)
  }

  lemma QuoteBounds(amountIn: nat, reserveIn: nat, reserveOut: nat)
    requires reserveIn > 0
    ensures var out, d := Quote(amountIn, reserveIn, reserveOut), 1000 * reserveIn + 997 * amountIn;
      out * d <= 997 * amountIn * reserveOut < (out + 1) * d
  {
    FloorBounds(997 * amountIn * reserveOut, 1000 * reserveIn + 997 * amountIn);
  }

  /** No input buys the whole reserve. */
  lemma QuoteBelowReserve(amountIn: nat, reserveIn: nat, reserveOut: nat)
    requires reserveIn > 0 && reserveOut > 0
    ensures Quote(amountIn, reserveIn, reserveOut) < reserveOut
  {
    var d := 1000 * reserveIn + 997 * amountIn;
    MulMonoStrict(997 * amountIn, d, reserveOut);
    FloorBelow(997 * amountIn * reserveOut, d, reserveOut);
  }

  /** With reserves of 112 bits no intermediate value leaves 512 bits, whatever the input. */
  lemma GetV2OutputIsQuote(amountIn: u256, state: PoolState, zeroForOne: bool)
    requires 0 < state.reserves0 < TWO_112 && 0 < state.reserves1 < TWO_112
    ensures GetV2Output(amountIn, state, zeroForOne) ==
      if zeroForOne then Quote(amountIn, state.reserves0, state.reserves1)
      else Quote(amountIn, state.reserves1, state.reserves0)
  {
    var (reserveIn, reserveOut) :=
      if zeroForOne then (state.reserves0, state.reserves1) else (state.reserves1, state.reserves0);
    QuoteBelowReserve(amountIn, reserveIn, reserveOut);
    if amountIn == 0 {
      FloorIs(0, 1000 * reserveIn, 0);
    } else {
      WrapFits(amountIn * 997);
      MulMono(amountIn * 997, TWO_256 * 997, reserveOut);
      WrapFits(amountIn * 997 * reserveOut);
      WrapFits(reserveIn * 1000);
      WrapFits(reserveIn * 1000 + amountIn * 997);
    }
    hide Wrap512;
  }

  /** The quote of the code in explicit arithmetic: nothing from an empty pool, and otherwise the largest
      output that the fee of 0.3% allows. */
  lemma GetV2OutputIsExact(amountIn: u256, state: PoolState, zeroForOne: bool)
    requires state.reserves0 < TWO_112 && state.reserves1 < TWO_112
    ensures var out := GetV2Output(amountIn, state, zeroForOne);
      var (x, y) := if zeroForOne then (state.reserves0, state.reserves1) else (state.reserves1, state.reserves0);
      if x == 0 || y == 0 then out == 0
      else out * (1000 * x + 997 * amountIn) <= 997 * amountIn * y < (out + 1) * (1000 * x + 997 * amountIn)
  {
    if state.reserves0 > 0 && state.reserves1 > 0 {
      GetV2OutputIsQuote(amountIn, state, zeroForOne);
      QuoteBounds(amountIn, state.reserves0, state.reserves1);
      QuoteBounds(amountIn, state.reserves1, state.reserves0);
      hide GetV2Output, Quote;
    }
  }

  /** A larger input never buys less. */
  lemma QuoteMonotone(small: nat, large: nat, reserveIn: nat, reserveOut: nat)
    requires small <= large && reserveIn > 0
    ensures Quote(small, reserveIn, reserveOut) <= Quote(large, reserveIn, reserveOut)
  {
    var r, base := reserveOut, 1000 * reserveIn;
    var out := Quote(small, reserveIn, r);
    QuoteBounds(small, reserveIn, r);
    if r == 0 {
      FloorIs(0, base + 997 * small, 0);
      FloorAtLeast(0, base + 997 * large, 0);
    } else {
      QuoteBelowReserve(small, reserveIn, r);
      // the extra input adds 997 (large - small) to the denominator and r times that to the numerator
      var extra := 997 * (large - small);
      MulMono(out, r, extra);
      Spread(base + 997 * small, extra, out);
      Spread(997 * small, extra, r);
      FloorAtLeast(997 * large * r, base + 997 * large, out);
    }
  }

  // ----- Sequences of swaps -----------------------------------------------------------------------

  datatype Reserves = Reserves(r0: nat, r1: nat)

  datatype Trade = Trade(amountIn: nat, zeroForOne: bool)

  ghost predicate Funded(p: Reserves) { p.r0 > 0 && p.r1 > 0 }

  function Swap(p: Reserves, t: Trade): Reserves
    requires Funded(p)
  {
    if t.zeroForOne then
      QuoteBelowReserve(t.amountIn, p.r0, p.r1);
      Reserves(p.r0 + t.amountIn, p.r1 - Quote(t.amountIn, p.r0, p.r1))
    else
      QuoteBelowReserve(t.amountIn, p.r1, p.r0);
      Reserves(p.r0 - Quote(t.amountIn, p.r1, p.r0), p.r1 + t.amountIn)
  }

  function SwapAll(p: Reserves, trades: seq<Trade>): Reserves
    requires Funded(p)
    decreases trades
  {
    if trades == [] then p
    else
      SwapKeepsProduct(p, trades[0]);
      SwapAll(Swap(p, trades[0]), trades[1..])
  }

  /** What is paid in outweighs what is taken out. */
  lemma PaidForInFull(amountIn: nat, reserveIn: nat, reserveOut: nat)
    requires reserveIn > 0 && reserveOut > 0
    ensures var out := Quote(amountIn, reserveIn, reserveOut);
      out < reserveOut && reserveIn * reserveOut <= (reserveIn + amountIn) * (reserveOut - out)
  {
    var out := Quote(amountIn, reserveIn, reserveOut);
    QuoteBelowReserve(amountIn, reserveIn, reserveOut);
    QuoteBounds(amountIn, reserveIn, reserveOut);
    var left := reserveOut - out;
    var a, b := 1000 * reserveIn, 997 * amountIn;
    Spread(reserveOut, out, a + b);
    Spread(a, b, reserveOut);
    MulMono(a + b, 1000 * (reserveIn + amountIn), left);
    Assoc(1000, reserveIn + amountIn, left);
    Assoc(1000, reserveIn, reserveOut);
  }

  /** A swap adds its input on one side and takes the quoted output from the other. */
  lemma SwapIsExact(p: Reserves, t: Trade)
    requires Funded(p)
    ensures var q := Swap(p, t);
      if t.zeroForOne then
        var out := p.r1 - q.r1;
        && q.r0 == p.r0 + t.amountIn
        && out * (1000 * p.r0 + 997 * t.amountIn) <= 997 * t.amountIn * p.r1
           < (out + 1) * (1000 * p.r0 + 997 * t.amountIn)
      else
        var out := p.r0 - q.r0;
        && q.r1 == p.r1 + t.amountIn
        && out * (1000 * p.r1 + 997 * t.amountIn) <= 997 * t.amountIn * p.r0
           < (out + 1) * (1000 * p.r1 + 997 * t.amountIn)
  {
    hide Quote;
    if t.zeroForOne { QuoteBounds(t.amountIn, p.r0, p.r1); } else { QuoteBounds(t.amountIn, p.r1, p.r0); }
  }

  lemma SwapKeepsProduct(p: Reserves, t: Trade)
    requires Funded(p)
    ensures Funded(Swap(p, t)) && p.r0 * p.r1 <= Swap(p, t).r0 * Swap(p, t).r1
  {
    if t.zeroForOne {
      PaidForInFull(t.amountIn, p.r0, p.r1);
    } else {
      PaidForInFull(t.amountIn, p.r1, p.r0);
    }
  }

  /** Over any sequence of swaps in either direction the reserves stay positive and their product never
      decreases. */
  lemma {:induction false} ProductNeverDecreases(p: Reserves, trades: seq<Trade>)
    requires Funded(p)
    ensures Funded(SwapAll(p, trades)) && p.r0 * p.r1 <= SwapAll(p, trades).r0 * SwapAll(p, trades).r1
    decreases trades
  {
    if trades != [] {
      SwapKeepsProduct(p, trades[0]);
      ProductNeverDecreases(Swap(p, trades[0]), trades[1..]);
    }
  }

  /** No sequence of swaps takes out one token without leaving more of the other. */
  lemma {:induction false} NoRoundTripGain(p: Reserves, trades: seq<Trade>)
    requires Funded(p)
    ensures var q := SwapAll(p, trades);
      && (q.r0 <= p.r0 ==> p.r1 <= q.r1)
      && (q.r1 <= p.r1 ==> p.r0 <= q.r0)
  {
    hide SwapAll;
    ProductNeverDecreases(p, trades);
    var q := SwapAll(p, trades);
    if q.r0 <= p.r0 && q.r1 < p.r1 {
      MulMono(q.r0, p.r0, q.r1);
      MulMonoStrict(q.r1, p.r1, p.r0);
    }
    if q.r1 <= p.r1 && q.r0 < p.r0 {
      MulMono(q.r1, p.r1, q.r0);
      MulMonoStrict(q.r0, p.r0, p.r1);
    }
  }

  // ----- Splitting an order -------------------------------------------------------------------------

  /** Two swaps in a row never buy more than one swap of both inputs. */
  lemma TwoSwapsBuyNoMore(a: nat, b: nat, reserveIn: nat, reserveOut: nat)
    requires reserveIn > 0 && reserveOut > 0
    ensures Quote(a, reserveIn, reserveOut) < reserveOut
    ensures Quote(a, reserveIn, reserveOut) + Quote(b, reserveIn + a, reserveOut - Quote(a, reserveIn, reserveOut))
      <= Quote(a + b, reserveIn, reserveOut)
  {
    hide FloorDiv;
    QuoteBelowReserve(a, reserveIn, reserveOut);
    var base, r := 1000 * reserveIn, reserveOut;
    var x, y := 997 * a, 997 * b;
    var first := Quote(a, reserveIn, r);
    var second := Quote(b, reserveIn + a, r - first);
    QuoteBounds(a, reserveIn, r);
    QuoteBounds(b, reserveIn + a, r - first);
    MulMono(base + x + y, 1000 * (reserveIn + a) + y, second);
    Spread(r, first, y);
    Spread(base + x, y, first);
    Spread(first, second, base + x + y);
    Spread(x, y, r);
    FloorAtLeast(997 * (a + b) * r, base + 997 * (a + b), first + second);
  }

  function Sum(amounts: seq<nat>): nat {
    if amounts == [] then 0 else amounts[0] + Sum(amounts[1..])
  }

  /** The total output of an order split into consecutive swaps. */
  function SplitOutput(amounts: seq<nat>, reserveIn: nat, reserveOut: nat): nat
    requires reserveIn > 0 && reserveOut > 0
    decreases amounts
  {
    if amounts == [] then 0
    else
      QuoteBelowReserve(amounts[0], reserveIn, reserveOut);
      var out := Quote(amounts[0], reserveIn, reserveOut);
      out + SplitOutput(amounts[1..], reserveIn + amounts[0], reserveOut - out)
  }

  /** However an order is split, its parts never buy more than the whole at once, floors included. */
  lemma {:induction false} SplittingBuysNoMore(amounts: seq<nat>, reserveIn: nat, reserveOut: nat)
    requires reserveIn > 0 && reserveOut > 0
    ensures SplitOutput(amounts, reserveIn, reserveOut) <= Quote(Sum(amounts), reserveIn, reserveOut)
    decreases amounts
  {
    if amounts == [] {
      FloorAtLeast(0, 1000 * reserveIn, 0);
    } else {
      QuoteBelowReserve(amounts[0], reserveIn, reserveOut);
      var out := Quote(amounts[0], reserveIn, reserveOut);
      SplittingBuysNoMore(amounts[1..], reserveIn + amounts[0], reserveOut - out);
      TwoSwapsBuyNoMore(amounts[0], Sum(amounts[1..]), reserveIn, reserveOut);
    }
  }
}
