/** The output of a whole path of pools, each hop feeding the next. */
module PathOutput {
  import opened Models
  import opened V2Quote
  import opened Word256

  /** What a stable-curve pool pays for a positive amount from positive reserves; its floating-point
      estimate is not part of this model. */
  type StableCurve = (u256, PoolState, bool) -> u256

  function HopOutput(hop: Hop, state: PoolState, amount: u256, stable: StableCurve): u256 {
    match hop.dexType
    case UniswapV2 => GetV2Output(amount, state, hop.zeroForOne)
    case Aerodrome =>
      if !state.isStable then GetV2Output(amount, state, hop.zeroForOne)
      else if amount == 0 || state.reserves0 == 0 || state.reserves1 == 0 then 0
      else stable(amount, state, hop.zeroForOne)
    case _ => 0
  }

  /** The hops applied one after the other. */
  function OutputOf(hops: seq<Hop>, states: seq<PoolState>, amount: u256, stable: StableCurve): u256
    requires |hops| <= |states|
    decreases |hops|
  {
    if hops == [] then amount
    else OutputOf(hops[1..], states[1..], HopOutput(hops[0], states[0], amount, stable), stable)
  }

  lemma {:induction false} NothingInNothingOut(hops: seq<Hop>, states: seq<PoolState>, stable: StableCurve)
    requires |hops| <= |states|
    ensures OutputOf(hops, states, 0, stable) == 0
    decreases |hops|
  {
    if hops != [] {
      assert HopOutput(hops[0], states[0], 0, stable) == 0;
      NothingInNothingOut(hops[1..], states[1..], stable);
    }
  }

  /** A hop over a pool with reserves of 112 bits that is not priced on the stable curve. */
  ghost predicate ConstantProductHop(hop: Hop, state: PoolState) {
    && state.reserves0 < TWO_112 && state.reserves1 < TWO_112
    && (hop.dexType == DexType.Aerodrome ==> !state.isStable)
  }

  /** What one hop pays: the quote of a constant-product pool, whatever kind of pool prices by it, the stable
      curve of a stable pool with reserves, and nothing in the pools the pricing does not cover. */
  lemma HopPays(hop: Hop, state: PoolState, amount: u256, stable: StableCurve)
    requires state.reserves0 < TWO_112 && state.reserves1 < TWO_112
    ensures var out := HopOutput(hop, state, amount, stable);
      var (x, y) := if hop.zeroForOne then (state.reserves0, state.reserves1) else (state.reserves1, state.reserves0);
      if hop.dexType == DexType.UniswapV3 || hop.dexType == MaverickV2 || x == 0 || y == 0 then out == 0
      else if hop.dexType == DexType.UniswapV2 || !state.isStable then
        out * (1000 * x + 997 * amount) <= 997 * amount * y < (out + 1) * (1000 * x + 997 * amount)
      else out == if amount == 0 then 0 else stable(amount, state, hop.zeroForOne)
  {
    GetV2OutputIsExact(amount, state, hop.zeroForOne);
    hide GetV2Output;
  }

  /** A path in two parts pays what the second part pays for the output of the first. */
  lemma {:induction false} OutputsCompose(first: seq<Hop>, second: seq<Hop>, states: seq<PoolState>,
      more: seq<PoolState>, amount: u256, stable: StableCurve)
    requires |first| == |states| && |second| <= |more|
    ensures OutputOf(first + second, states + more, amount, stable)
      == OutputOf(second, more, OutputOf(first, states, amount, stable), stable)
    decreases |first|
  {
    hide HopOutput;
    if first == [] {
      assert first + second == second && states + more == more;
    } else {
      assert (first + second)[1..] == first[1..] + second && (states + more)[1..] == states[1..] + more;
      OutputsCompose(first[1..], second, states[1..], more, HopOutput(first[0], states[0], amount, stable), stable);
    }
  }

  /** A path of constant-product hops pays nothing for nothing and no less for more. */
  lemma {:induction false} OutputMonotone(
    hops: seq<Hop>, states: seq<PoolState>, small: u256, large: u256, stable: StableCurve)
    requires |hops| <= |states| && small <= large
    requires forall i :: 0 <= i < |hops| ==> ConstantProductHop(hops[i], states[i])
    ensures OutputOf(hops, states, 0, stable) == 0
    ensures OutputOf(hops, states, small, stable) <= OutputOf(hops, states, large, stable)
    decreases |hops|
  {
    hide GetV2Output;
    NothingInNothingOut(hops, states, stable);
    if hops != [] {
      assert ConstantProductHop(hops[0], states[0]);
      ConstantProductIsMonotone(small, large, states[0], hops[0].zeroForOne);
      OutputMonotone(hops[1..], states[1..], HopOutput(hops[0], states[0], small, stable),
        HopOutput(hops[0], states[0], large, stable), stable);
    }
  }

  /** A constant-product pool with reserves of 112 bits, or without reserves, pays no less for more. */
  lemma ConstantProductIsMonotone(small: u256, large: u256, state: PoolState, zeroForOne: bool)
    requires state.reserves0 < TWO_112 && state.reserves1 < TWO_112 && small <= large
    ensures GetV2Output(small, state, zeroForOne) <= GetV2Output(large, state, zeroForOne)
  {
    if state.reserves0 > 0 && state.reserves1 > 0 {
      GetV2OutputIsQuote(small, state, zeroForOne);
      GetV2OutputIsQuote(large, state, zeroForOne);
      QuoteMonotone(small, large, state.reserves0, state.reserves1);
      QuoteMonotone(small, large, state.reserves1, state.reserves0);
      hide GetV2Output, Quote;
    }
  }

  /** A path that ends in a funded constant-product pool never pays out that pool's whole reserve,
      whatever the hops before it do. */
  lemma {:induction false} OutputBelowLastReserve(hops: seq<Hop>, states: seq<PoolState>, amount: u256,
      stable: StableCurve)
    requires 0 < |hops| <= |states|
    requires var last := |hops| - 1;
      && ConstantProductHop(hops[last], states[last])
      && states[last].reserves0 > 0 && states[last].reserves1 > 0
    ensures var last := |hops| - 1;
      OutputOf(hops, states, amount, stable)
        < if hops[last].zeroForOne then states[last].reserves1 else states[last].reserves0
    decreases |hops|
  {
    hide GetV2Output;
    if |hops| == 1 {
      var state := states[0];
      GetV2OutputIsQuote(amount, state, hops[0].zeroForOne);
      QuoteBelowReserve(amount, state.reserves0, state.reserves1);
      QuoteBelowReserve(amount, state.reserves1, state.reserves0);
      hide Quote;
    } else {
      OutputBelowLastReserve(hops[1..], states[1..], HopOutput(hops[0], states[0], amount, stable), stable);
    }
  }

  /** The output of the path; a zero amount on the way is returned at once. */
  method GetPathOutputWithStates(hops: seq<Hop>, inputAmount: u256, states: seq<PoolState>, stable: StableCurve)
    returns (amount: u256)
    requires |hops| <= |states|
    ensures amount == OutputOf(hops, states, inputAmount, stable)
  {
    hide HopOutput;
    amount := inputAmount;
    for i := 0 to |hops|
      invariant OutputOf(hops[i..], states[i..], amount, stable) == OutputOf(hops, states, inputAmount, stable)
    {
      if amount == 0 {
        NothingInNothingOut(hops[i..], states[i..], stable);
        return 0;
      }
      amount := HopOutput(hops[i], states[i], amount, stable);
    }
  }
}
