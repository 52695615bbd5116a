# Verified models of the pricing, search and encoding core

Four parts of the arbitrage bot are modelled in Dafny, each with the properties it is relied on for.

- **Concentrated-liquidity swaps** (`TickMath`, `TickAccuracy`, `TickSteps`, `Bits`, `TickBitmap`, `SqrtPriceMath`,
  `FastPrice`, `SwapStep`, `StepFormula`, `SwapOrder`, `RoundTrip`, `SwapLoop`, `SwapTheorems`, `RunFormula`,
  `LiquidityTheorems`, `BoundaryTick`, `SignedNets`, `UpperEdge`, `OrderTheorems`). The simulator follows sections 6.2
  and 6.3 of the Uniswap v3 Core whitepaper, with the differences listed below. The 256-bit and 512-bit arithmetic of
  the code, with its wrapping operators and clamped results, is written out in `Word256`, `SqrtPriceMath` and
  `FastPrice`; the code is proved equal to unbounded floor and ceiling formulas, those are bounded by explicit products
  in `StepFormula`, and the theorems are about whole runs of the swap loop.
- **Constant-product quotes and numeric search** (`V2Quote`, `ReserveProjection`, `PathOutput`, `IntegerSqrt`,
  `GoldenSection`).
- **Token graph and path search** (`StaticGraphs`, `PathSearch`, `PathTheorems`, `TriggerSearch`).
- **Packed path payload** (`Bytes`, `PathCodec`): the encoder of the bot and the decoder of the contract.

`Models` holds the entities the parts share; `Rounding` and `Bits` hold the arithmetic of quotients and of bit strings
that the rest builds on.

## Ranges

Swaps are modelled for prices in the open interval from 0 to 2^160, liquidity plus the sum of the net liquidity
still ahead (by magnitude) below 2^128, input below 2^160, a fee below 1,000,000, and a positive tick spacing no
larger than the tick range. A run starts from a live state: the price lies in the current tick or on its upper
boundary, and the limit lies on the side the swap moves to. The next tick is never more than 256 spacings away
(`SwapLoop.NextTickNear`), so the 32-bit tick arithmetic of the code does not overflow. Constant-product reserves are
below 2^112. At most 4096 pools are searched.

## What the code does differently from its promise

- **Division by zero.** A downward step with less than one unit left after the fee, with liquidity and with somewhere
  to go, divides by zero (src/v3_math.rs:367). It is the outcome `ZeroAfterFee` of a step and `DividedByZero` of a run;
  `SwapStep.ZeroAfterFeeIff` is the exact condition for a step, `OrderTheorems.DividesByZeroIff` for a run, and
  `OrderTheorems.NeverDividesIff` for an order over all live states: a downward order with room to move is safe exactly
  when it has no fee. `SwapTheorems.OneUnitDividesByZero` is an instance.
- **Top of the tick range.** Going up, a word edge beyond the highest tick has price zero, so the target falls behind
  the price. `UpperEdge.UpperLimitIsSafeIff` shows that a limit is safe exactly when it does not exceed the price of
  the last word edge inside the range, and `UpperEdge.DefaultUpperLimitIsUnsafe` that the default limit is not safe
  for any of the four standard spacings.
- **Reported tick.** A downward swap too small to leave the upper boundary of its tick reports the tick above the
  boundary while keeping the liquidity below it, because the tick is looked up again even when the price did not move
  (src/v3_math.rs:306-308). `BoundaryTick.ReportedTickAgreesIff` is the exact condition on the state in which the last
  iteration starts, `BoundaryTick.SingleIterationAgreesIff` the one on the inputs of a run that crosses no tick, and
  `OrderTheorems.AlwaysReportsRightTickIff` the one on an order over all live states: no tick with net liquidity above
  the limit has a price P with P·(P−1) < (2^128−1)·2^96. `BoundaryTick.BoundaryTickIsMisreported` is an instance.
- **Sign of the net liquidity.** Section 6.3 of the whitepaper adds the signed net liquidity of a tick crossed upward
  and subtracts it downward. The code adds and subtracts its magnitude (src/v3_math.rs:298-304), so a negative net
  raises the liquidity going up. `SignedNets.GainIsSignedIff` and `SignedNets.LossIsSignedIff` show that a run follows
  the whitepaper exactly when no net it crosses is negative (or, going down, when all liquidity is gone either way).
  `OrderTheorems.GainIsAlwaysSignedIff` and `OrderTheorems.LossIsAlwaysSignedIff` give the conditions on the order
  alone: no negative net at a tick up to the limit price, or from the limit price up. `SignedNets.NegativeNetIsAdded` is
  an instance.
- **Upper price constant.** The constant of src/v3_math.rs:15-17 is one less than the price of the highest tick
  (`TickMath.SqrtRatioEnds`).
- **Golden ratio.** The fifteen-digit constant of src/math_engine.rs:12-13 is rounded up, not truncated. The comment
  of src/math_engine.rs:94 promises more precision than forty iterations give; the bound proved is 0.62^40 of the
  starting width.
- **List lengths.** The payload stores list lengths in one byte without a check. `PathCodec.DecodesIff` shows that the
  contract reads back what was encoded exactly when both lists have at most 255 elements.
- **Hop size.** The layout comments of src/ShadowBot.sol:448 and 452 give 42 bytes per hop; encoder and decoder use 43.
- **Skipped hops and loans.** The contract has no case for a Maverick hop and none for lenders other than the first
  two. `PathCodec.EveryHopSwapsIff` and `PathCodec.LoanStartsIff` are the exact conditions, and
  `PathCodec.NothingExecuted` an instance that fails both.
- **Outputs asked for.** The block that sets the first output of a constant-product or Aerodrome swap stands behind an
  `if` without being its alternative (src/ShadowBot.sol:315, 357, 487 and 507), so it is always carried out: a hop that
  sells token 0 asks the pool for its output on both sides. `PathCodec.RequestsOneSideIff` is the exact condition.
- **Maverick pools.** Pools are registered under the name Maverick (src/factory_scanner.rs:103), the search trades in
  them, and its type table has no case for them (src/arbitrage_detector.rs:400-404). Their hops are typed as
  constant-product hops, and the contract calls the constant-product swap on the pool.
  `TriggerSearch.FoundPathsUseOwnCallsIff` shows that every hop of a found path is executed by the call of its own
  exchange exactly when none is in a Maverick pool; `TriggerSearch.MaverickHopIsMistyped` is the failing case.

## Model

| member | source | states |
|---|---|---|
| `TickMath.InverseRatioGap` | src/v3_math.rs:82-106 | for every 20-bit tick magnitude, one tick further lowers the folded 128-bit product by at least 2^32, all floors included, so that the later rounding to 96 bits keeps neighbouring ticks apart |
| `TickAccuracy.MultiplierIsNearest` | src/v3_math.rs:82-106 | each of the twenty factors is 2^128 times 1.0001 to the power −2^i/2, rounded to the nearest unit |
| `TickMath.MulShiftIsFloor` | src/v3_math.rs:63-68 | the shifted product is the floor of a·b/2^128 |
| `TickAccuracy.InverseRatioIsPower` | src/v3_math.rs:82-106 | the folded product of every 20-bit magnitude t is within 30 units of 2^128 times 1.0001 to the power −t/2 |
| `TickSteps.InverseRatioStep` | src/v3_math.rs:82-106 | one tick further divides the square of the folded product by 1.0001, to one part in 2^62, for every tick of the range |
| `TickSteps.PriceRounding` | src/v3_math.rs:108-113 | the price is the folded product, or above tick zero the floor of (2^256−1) by it, rounded up by 32 bits |
| `TickSteps.SqrtRatioIsPowerStep` | src/v3_math.rs:78-114 | one tick up multiplies the square of the price by 1.0001, to one part in 2^30, over the whole tick range |
| `TickMath.SqrtRatioStrictlyIncreasing` | src/v3_math.rs:78-114 | higher ticks have strictly higher prices over the whole tick range, negative and positive |
| `TickMath.SqrtRatioEnds` | src/v3_math.rs:14-17 | the lowest tick has the minimum price, tick zero has price 2^96, and the highest tick has the price one above the maximum constant |
| `TickMath.SqrtRatioAtTickUncached` | src/v3_math.rs:78-114 | the straight-line bit-by-bit computation equals the fold over the bits of the tick, for every tick, zero outside the range |
| `TickMath.SqrtRatioAtTick` | src/v3_math.rs:70-76 | the table lookup gives the same price as the direct computation for every tick |
| `TickMath.TickAtSqrtRatio` | src/v3_math.rs:117-130 | the binary search ends for every price and agrees with a linear scan down from the highest tick |
| `TickMath.TickAtIsGreatest` | src/v3_math.rs:117-130 | a tick's price is at most the given price if and only if the tick is at most the tick found |
| `TickMath.TickAtInvertsSqrtRatio` | src/v3_math.rs:117-130 | the tick found for the price of a tick is that tick |
| `TickBitmap.MarkedIffBit` | src/v3_math.rs:445-449 | compressed tick 256·w + b is marked exactly when word w of the bitmap is present and its binary digit b is one, for every word, negative ones included |
| `TickBitmap.SettingMarksOne` | src/v3_math.rs:445-449 | setting bit b of word w marks compressed tick 256·w + b and no other |
| `TickBitmap.SearchFromTick300` | src/v3_math.rs:400-449 | a concrete search: from tick 300 down, with bit 10 of word 1 set, tick 266 is found |
| `Bits.BitIsDigit` | src/v3_math.rs:404-431 | bit i of a word is its i-th binary digit |
| `TickBitmap.NextInitializedTickIsNearest` | src/v3_math.rs:400-449 | both directions: the nearest initialized tick of the word, or the word edge; none is skipped; the flag is true exactly when the returned tick's bit is set; any spacing, negative ticks included; which bit that is, is said without the code's position function |
| `TickBitmap.SweepDownIsGlobal` | src/v3_math.rs:400-434 | repeated downward searches reach the greatest initialized tick at or below the start |
| `TickBitmap.SweepUpIsGlobal` | src/v3_math.rs:400-434 | repeated upward searches reach the least initialized tick above the start |
| `TickBitmap.NextWithinEdge` | src/v3_math.rs:421-433 | an upward search never passes a word edge that lies above the tick |
| `SqrtPriceMath.MulDivIsExact` | src/v3_math.rs:28-36 | for all inputs: none for a zero divisor, the floor of a·b/d while it fits a word, the largest word beyond |
| `SqrtPriceMath.MulDivRoundUpIsExact` | src/v3_math.rs:38-47 | the same with the ceiling |
| `SqrtPriceMath.Amount0DeltaUpExact` | src/v3_math.rs:315-335 | the nested 512-bit round-ups give the ceiling of L·2^96·(b−a)/(a·b), for either order of the prices |
| `SqrtPriceMath.Amount0DeltaDownExact` | src/v3_math.rs:315-335 | the nested 512-bit divisions give the floor of the same fraction |
| `SqrtPriceMath.Amount1DeltaExact` | src/v3_math.rs:338-355 | token 1 between two prices is L·(b−a)/2^96, rounded as asked, never clamped |
| `Word256.WrapIsRemainder` | src/v3_math.rs:366-369 | a 256-bit product or sum keeps the remainder modulo 2^256 |
| `FastPrice.Wrap512IsRemainder` | src/math_engine.rs:157-160 | a 512-bit product or sum keeps the remainder modulo 2^512 |
| `SqrtPriceMath.WrapTest` | src/v3_math.rs:366-367 | the test `product / amount_in == price` holds exactly when the 256-bit product did not overflow |
| `SqrtPriceMath.NextDownExact` | src/v3_math.rs:363-374 | going down, the wrapping code divides by zero exactly on a zero input, and otherwise takes the exact branch precisely while numerator plus product fit a word |
| `SqrtPriceMath.NextUpExact` | src/v3_math.rs:374-378 | going up, the code adds floor(x·2^96/L) to the price |
| `SqrtPriceMath.NextDownBracket` | src/v3_math.rs:363-373 | both branches give a price at most the old one and at least the exact rational price; the exact branch gives its ceiling |
| `SqrtPriceMath.NextDownMonotone` | src/v3_math.rs:363-373 | a larger input never leaves the price higher, also when the two inputs take different branches |
| `FastPrice.FastDownIsFloor` | src/math_engine.rs:353-368 | going down, the single 512-bit division gives the floor of the exact price |
| `FastPrice.FastUpAgrees` | src/math_engine.rs:353-368 | going up, both next-price formulas give the same price |
| `FastPrice.FastDownAgrees` | src/math_engine.rs:353-368 | going down, the fast price never exceeds the rounded-up one; while the denominator fits a word they are equal if the division is exact and differ by exactly one otherwise |
| `SwapStep.ComputeSwapStep` | src/v3_math.rs:168-263 | the exact-input step of the wrapping code, which fills a mutable result, equals the step in unbounded arithmetic; what is left is the input less amount and fee, never negative |
| `SwapStep.StepBounds` | src/v3_math.rs:168-263 | a step never overshoots: the price ends between start and target, strictly short exactly when the after-fee input is too small, and then everything is consumed; otherwise no more than the input is consumed; the fee is never below its rate |
| `StepFormula.StepIsExact` | src/v3_math.rs:168-263 | every field of a step that moves, between explicit products: the input after the fee, the cost of the way, the next price in each branch, both amounts (output rounded down, input rounded up), and the fee |
| `StepFormula.AmountsAreExact` | src/v3_math.rs:315-355 | going down from P to N the output satisfies out·2^96 ≤ L·(P−N) < (out+1)·2^96, going up from P to N out·P·N ≤ L·2^96·(N−P) < (out+1)·P·N; the inputs are the mirror image, rounded up |
| `SwapStep.ZeroAfterFeeIff` | src/v3_math.rs:363-369 | the division by zero happens exactly for a downward step with somewhere to go, liquidity, and less than one unit after the fee |
| `RoundTrip.NoRoundTripGain` | src/v3_math.rs:168-263 | swapping one way and feeding the whole output back returns at most what was put in and never moves the price past its start, for any fees and both first directions |
| `SwapOrder.StepMonotone` | src/v3_math.rs:168-263 | with more input a step yields at least as much and goes at least as far; if the smaller input already arrives, both steps are the same |
| `SwapOrder.StepNoBetter` | src/v3_math.rs:168-263 | no step beats a price the swap has already left, even counting only its consumption net of the fee rate |
| `SwapLoop.SimulateSwapWithLimit` | src/v3_math.rs:265-312 | the loop ends for every live start and computes the recursive run: word edges, targets capped by the limit, steps, crossings, final tick |
| `SwapLoop.DefaultLimits` | src/v3_math.rs:279 | without a limit a downward run stops at 4295128740 and an upward one at 1461446703485210103287273052203988822378723970340 |
| `SwapTheorems.RunKeeps` | src/v3_math.rs:265-312 | every run: consumption plus remainder equals the input, remainder never negative, outputs add up, price monotone and never past the limit, final tick consistent with the final price, and it ends with nothing left, at the limit, at the division by zero with less than one unit after fee, or at the lost target |
| `SwapTheorems.OneUnitDividesByZero` | src/v3_math.rs:363-369 | a concrete run, one unit of input at a fee of 0.3%, whose first step divides by zero |
| `SwapTheorems.RunNoBetter` | src/v3_math.rs:265-312 | no run beats its starting price: going down output·2^192 ≤ net input·P0², going up output·P0² ≤ net input·2^192, for any tick layout and liquidity changes, the net input being the consumption less the fee rate |
| `RunFormula.RunNoWorse` | src/v3_math.rs:265-312 | no run pays worse than the price it ends at: after n steps, going down, (output + n)·2^192 ≥ (input − n)·P², and going up the mirror image, the input being what was paid in without fees |
| `RunFormula.RunIsChain` | src/v3_math.rs:281-311 | a run is a chain of exact steps: each starts where the last ended, with input left and short of the limit, at a tick it has just passed, with the liquidity changed by the magnitude of its net; what is left and what was paid are carried along |
| `SwapTheorems.MoreInputNeverYieldsLess` | src/v3_math.rs:265-312 | of two runs from one pool state, however they end, the larger input yields at least as much and leaves the price at least as far along |
| `LiquidityTheorems.LiquidityGainedGoingUp` | src/v3_math.rs:297-308 | going up over a consistent pool, the liquidity gained is exactly the sum of the magnitudes of the nets of the ticks between the two tick indices, which is what the code applies |
| `BoundaryTick.LiquidityLostGoingDown` | src/v3_math.rs:297-308 | going down, the liquidity lost is the sum of the magnitudes of the nets of the ticks passed, never below zero: the ticks above the reported one, and the reported one too when the last iteration was stuck on its boundary |
| `BoundaryTick.StaysPutIff` | src/v3_math.rs:363-373 | a downward input x leaves the price P where it is exactly when x·P·(P−1) < L·2^96, in both branches of the formula |
| `BoundaryTick.CrossesIff` | src/v3_math.rs:281-298 | an iteration crosses the next tick exactly when the limit does not come first and the input after the fee pays for the whole move |
| `SignedNets.GainIsSignedIff` | src/v3_math.rs:298-304 | going up, the liquidity gained is the signed net liquidity of the ticks passed, as the whitepaper asks, exactly when none of them has a negative net |
| `SignedNets.LossIsSignedIff` | src/v3_math.rs:298-304 | going down, the liquidity left is the start less the signed net liquidity of the ticks crossed, floored at zero, exactly when none of them has a negative net or all liquidity is gone either way |
| `SignedNets.NegativeNetIsAdded` | src/v3_math.rs:298-304 | a concrete upward run over a tick with net −5 that ends with five units of liquidity more |
| `BoundaryTick.ReportedTickAgreesIff` | src/v3_math.rs:297-308 | for whole downward runs: the reported tick agrees with the liquidity kept unless the last iteration starts on the upper boundary of its tick, net liquidity lies there, and x·P·(P−1) < L·2^96 for its input x after the fee |
| `BoundaryTick.SingleIterationAgreesIff` | src/v3_math.rs:297-308 | the same condition on the inputs of a run that crosses no tick |
| `BoundaryTick.BoundaryTickIsMisreported` | src/v3_math.rs:306-308 | a concrete swap that reports the tick above a boundary with the liquidity below it |
| `OrderTheorems.DividesByZeroIff` | src/v3_math.rs:281-291 | a whole run divides by zero exactly when it goes down and its last iteration starts with input left, nothing of it after the fee, liquidity, and a next tick below the price |
| `OrderTheorems.NeverDividesIff` | src/v3_math.rs:281-291 | a downward order divides by zero for no live state exactly when its fee is zero or its limit leaves no room |
| `OrderTheorems.GainIsAlwaysSignedIff` | src/v3_math.rs:298-304 | over a consistent pool, an upward order gains the signed net liquidity of the ticks passed for every live state exactly when no tick priced up to its limit has a negative net |
| `OrderTheorems.LossIsAlwaysSignedIff` | src/v3_math.rs:298-304 | a downward order loses the signed net liquidity of the ticks crossed, floored at zero, for every live state exactly when no tick priced from its limit up has a negative net, or the limit leaves no room |
| `OrderTheorems.AlwaysReportsRightTickIff` | src/v3_math.rs:297-308 | a downward order reports the tick that agrees with the liquidity for every live state exactly when no tick with net liquidity above its limit has a price P with P·(P−1) < (2^128−1)·2^96 |
| `UpperEdge.UpperLimitIsSafeIff` | src/v3_math.rs:279-289 | an upper limit keeps every upward run of every pool of a spacing from losing its target exactly when it is at most the price of the last word edge within the tick range |
| `UpperEdge.LostTargetIsBehind` | src/v3_math.rs:282-289 | going up, the target lies behind the price exactly when the next tick is beyond the highest tick |
| `UpperEdge.DefaultUpperLimitIsUnsafe` | src/v3_math.rs:279 | for spacings 1, 10, 60 and 200 the default limit exceeds the price of the last word edge |
| `V2Quote.GetV2OutputIsQuote` | src/math_engine.rs:146-163 | for reserves of 112 bits the 512-bit code gives floor(997·x·r_out/(1000·r_in+997·x)) for any input and direction |
| `V2Quote.GetV2OutputIsExact` | src/math_engine.rs:146-163 | nothing from an empty pool; otherwise out·(1000·r_in+997·x) ≤ 997·x·r_out < (out+1)·(1000·r_in+997·x) |
| `V2Quote.SwapIsExact` | src/math_engine.rs:146-163 | a quoted swap adds its input on one side and takes the output so bounded from the other |
| `V2Quote.QuoteMonotone` | src/math_engine.rs:157-162 | a larger input never buys less |
| `V2Quote.ProductNeverDecreases` | src/math_engine.rs:146-163 | over any sequence of quoted swaps in either direction reserves stay positive and their product never decreases |
| `V2Quote.NoRoundTripGain` | src/math_engine.rs:146-163 | no sequence of swaps takes out one token without leaving at least as much of the other |
| `V2Quote.TwoSwapsBuyNoMore` | src/math_engine.rs:146-163 | executing a and then b never buys more than a + b at once, floors included |
| `V2Quote.SplittingBuysNoMore` | src/math_engine.rs:146-163 | however an order is split into consecutive swaps, the parts never buy more than the whole |
| `ReserveProjection.ProjectReserveImpact` | src/math_engine.rs:49-77 | exactly the calls with the swap selector, 100 bytes and a mirrored target have an impact, on that pool only; the first non-zero output decides, and asking for a whole reserve has none |
| `ReserveProjection.SwapCallIsRead` | src/math_engine.rs:51-59 | a call made of the selector, two 32-byte words and a tail of 32 bytes or more is recognised, and the words are read in order |
| `ReserveProjection.ImpactIsExact` | src/math_engine.rs:61-77 | the first output that is not zero counts and has an impact exactly when it is below its reserve; that reserve loses it and the other gains x with 997·x·(r−o) ≤ 1000·r'·o < 997·(x+1)·(r−o) |
| `ReserveProjection.ProjectionInvertsQuote` | src/math_engine.rs:61-72 | for projected input x and output o: quote(x) ≤ o ≤ quote(x+1), and (x+1+r_in)·(r_out−o) > r_in·r_out |
| `ReserveProjection.LeftBehindPaysItsWay` | src/math_engine.rs:61-72 | the projected reserves, with one unit more on the side paid in, have a larger product than before, on the right sides |
| `PathOutput.GetPathOutputWithStates` | src/math_engine.rs:20-37 | the loop with its early exit equals the hops applied one after the other, for any path and states |
| `PathOutput.HopPays` | src/math_engine.rs:30-34 | one hop pays the explicit constant-product fraction, the stable curve, or nothing, by its type and its pool |
| `PathOutput.OutputsCompose` | src/math_engine.rs:20-37 | a path in two parts pays what the second part pays for the output of the first |
| `PathOutput.OutputMonotone` | src/math_engine.rs:20-37 | a path of constant-product hops (volatile Aerodrome pools included) over reserves of 112 bits pays nothing for nothing and no less for more |
| `PathOutput.OutputBelowLastReserve` | src/math_engine.rs:20-37 | a path that ends in a funded constant-product pool never pays that pool's whole reserve, whatever comes before |
| `PathOutput.ConstantProductIsMonotone` | src/math_engine.rs:146-163 | the quote of the code pays no less for more, for reserves of 112 bits or none |
| `IntegerSqrt.StartAbove` | src/math_engine.rs:326-327 | the starting power of two lies above the root |
| `IntegerSqrt.StartNear` | src/math_engine.rs:326-327 | the square of the starting power of two is at most eight times the number |
| `IntegerSqrt.NewtonStaysAbove` | src/math_engine.rs:328-329 | a Newton step from any positive guess ends at or above the floor of the root |
| `IntegerSqrt.SumBelow` | src/math_engine.rs:328-329 | for n up to R², the guess stays below 3·R and the sum of a step below 6·R + 3, far inside 512 bits for R = 2^256 |
| `IntegerSqrt.UintSqrt512` | src/math_engine.rs:324-331 | in 512-bit arithmetic the guesses fall strictly and end at r with r² ≤ n < (r+1)², for every 512-bit n |
| `GoldenSection.EnterOnce` | src/math_engine.rs:96-112 | one iteration: which end is dropped, on a tie the lower one, which probe and value are reused, and where the new probe lies |
| `GoldenSection.SearchKeeps` | src/math_engine.rs:81-112 | in each of the at most 40 iterations the probes are strictly ordered inside the interval, the reused values are the values at the probes, the width is at most 0.62^k of the start, and the peak of any strictly unimodal objective stays inside |
| `GoldenSection.SearchEndsNearPeak` | src/math_engine.rs:96-114 | at the end the width is below 10^11 or at most 0.62^40 of the start, and the middle is within half of it of the peak |
| `GoldenSection.FindOptimalInput` | src/math_engine.rs:81-122 | the search stops after the fortieth iteration or a width below 10^11 and returns the middle of the last interval with its value, if that is positive, else two zeros; a positive answer is within half a width, below 10^11 or at most 0.62^40 of the range, of the peak of any strictly unimodal objective |
| `StaticGraphs.RebuildGraph` | src/arbitrage_detector.rs:499-535 | the built graph represents the registry: distinct tokens, inverse index maps, offsets from zero to the edge count, and each token's slice in registry order |
| `StaticGraphs.OffsetsNeverDecrease` | src/arbitrage_detector.rs:518-532 | offsets never decrease and stay within the edge count |
| `StaticGraphs.SliceIsExact` | src/arbitrage_detector.rs:503-532 | an edge is in a token's slice if and only if its pool joins that token with the edge's target, under the same exchange |
| `StaticGraphs.EdgeCount` | src/arbitrage_detector.rs:503-532 | every included pool contributes one edge each way: twice as many edges as pools |
| `PathSearch.Search.FindCyclesDfs` | src/arbitrage_detector.rs:371-424 | appends exactly the enumerated paths after the incoming hops; on return the hops and every word of the bitset are as before |
| `PathSearch.Search.FollowEdge` | src/arbitrage_detector.rs:387-423 | one loop iteration: the paths through one edge if its pool is unvisited, none otherwise, with all state restored |
| `PathSearch.SetThenClear` | src/arbitrage_detector.rs:411-421 | setting a clear bit of a word and clearing it again gives back the word |
| `PathTheorems.WalksExact` | src/arbitrage_detector.rs:371-424 | a walk is enumerated if and only if it is within the depth bound, consecutive, over pairwise distinct unvisited pools, and touches the target only with its last edge |
| `PathTheorems.WalksDistinct` | src/arbitrage_detector.rs:371-424 | no walk is enumerated twice |
| `TriggerSearch.SearchIsDepthBounded` | src/arbitrage_detector.rs:381 | a walk is found from a depth exactly when it is a walk and its last hop is no deeper than the greatest depth |
| `PathTheorems.FoundIsExact` | src/arbitrage_detector.rs:371-424 | the appended paths are exactly the incoming hops followed by the hops of such a walk, each path once |
| `TriggerSearch.RepresentedIsWellFormed` | src/arbitrage_detector.rs:512-535 | a graph built from at most 4096 pools keeps every index of the search inside its arrays |
| `TriggerSearch.RepresentedIsDistinct` | src/arbitrage_detector.rs:503-532 | with two distinct tokens per pool no pool has two edges in one slice |
| `TriggerSearch.WalksAreTrades` | src/arbitrage_detector.rs:387-409 | the hops of a walk form a trade: each sells what the last one bought, in an included pool, in the direction its token order says and on the curve the pool is mirrored with, from the first token to the last |
| `TriggerSearch.FoundPathsAreExecuted` | src/arbitrage_detector.rs:400-404 | a path found by the search and encoded is read by the contract hop for hop, and some call is made for each hop, because the type table never yields the type the contract skips |
| `TriggerSearch.FoundPathsUseOwnCallsIff` | src/arbitrage_detector.rs:400-404 | every hop of a found path over registered exchanges is executed by the call of its own exchange exactly when none is in a Maverick pool, whose hops are executed as constant-product swaps |
| `TriggerSearch.MaverickHopIsMistyped` | src/arbitrage_detector.rs:400-404 | the hop over any Maverick edge is executed by the constant-product swap |
| `TriggerSearch.PathsAfterFirstHop` | src/arbitrage_detector.rs:257-302 | one search branch marks the trigger pool, makes the first hop, and finds that hop alone if it arrives, else the paths beyond it |
| `TriggerSearch.FirstHopWalks` | src/arbitrage_detector.rs:257-302 | what is searched beyond the first hop are exactly the walks that begin with it, use no pool twice, do not use the trigger pool after it, and have at most the greatest path length of hops |
| `PathCodec.EncodeGhostMulti` | src/models.rs:124-142 | the two append loops build the byte layout |
| `PathCodec.HeaderLayout` | src/models.rs:124-132 | the header in literal offsets: profit in 32 bytes, lender as 0, 1 or 2, loan count, and the hop count after the loans |
| `PathCodec.LoanLayout` | src/models.rs:129-132 | loan i has its token at 34 + 52·i and its amount 20 bytes later |
| `PathCodec.HopLayout` | src/models.rs:133-140 | hop i has pool and token out from 35 + 52·n + 43·i, then its type as 0 to 3, and its two flags as 1 for true and 0 for false |
| `Bytes.ToBytesDigit` | src/models.rs:126 | byte i of a number is its digit to base 256, the most significant first |
| `PathCodec.ReadLoans` | src/ShadowBot.sol:97-135 | the two passes read lender, tokens at 34 + 52·i and amounts at 54 + 52·i |
| `PathCodec.ReadHops` | src/ShadowBot.sol:450-474 | one pass reads hops of stride 43 after the loans |
| `PathCodec.DecodesIff` | src/ShadowBot.sol:280-302 | the contract reads back profit, lender id, every loan and every hop of an encoded payload, whatever bytes follow it, if and only if both lists have at most 255 elements |
| `PathCodec.EncodingIsInjective` | src/models.rs:124-142 | two payloads with lists of up to 255 elements have the same bytes if and only if they agree on profit, lender id, loans and every hop's pool, token out, type and flags |
| `PathCodec.EveryHopSwapsIff` | src/ShadowBot.sol:468-472 | every decoded hop swaps exactly when no hop of the payload is a Maverick hop; each other type selects its own swap |
| `PathCodec.HopsTradeAsMeant` | src/ShadowBot.sol:462-472 | every decoded hop sells token 0, and uses the stable curve, exactly when the payload's hop says so; the flags are read as 1 and 0 |
| `PathCodec.RequestsOneSideIff` | src/ShadowBot.sol:485-508 | a constant-product or Aerodrome hop asks the pool for its output on the side it buys, and only there, exactly when it sells token 1 or asks for nothing |
| `PathCodec.LoanStartsIff` | src/ShadowBot.sol:106-110 | a loan is started exactly for Balancer and Aave, each from its own source |
| `PathCodec.NothingExecuted` | src/ShadowBot.sol:106-110 | a concrete payload, one Maverick hop lent by Curve, that starts no loan and swaps nothing |

## Left out

- TriggerSearch.FoundPathsUseOwnCallsIff: paths over registered exchanges, because no pool is registered under the order venues Permit2, CowSwap and UniswapX; which call an exchange needs is taken from its name.
- OrderTheorems.GainIsAlwaysSignedIff: pools whose nets sum, by magnitude, to less than 2^128, the range in which liquidity stays a 128-bit value; the same for `OrderTheorems.LossIsAlwaysSignedIff`.
- SwapLoop.SimulateSwapWithLimit: a run stops with `TargetLost` where the code would go on with a target price of zero, because nothing it computes after that is a swap; and a run starts from a live state, because a limit behind the price or a tick that disagrees with it, which the code accepts unchecked, describes no pool.
- SwapStep.ComputeSwapStep: exact input only; the exact-output branches and `get_next_sqrt_price_from_output` are not used by the simulator. Inputs of 2^255 and more, which the code reads as negative, are excluded by the input range.
- PathOutput.ConstantProductIsMonotone: reserves of 112 bits, the width pools report, because a wider product could wrap at 512 bits.
- GoldenSection.FindOptimalInput: the objective is a pure function, and the interval is small enough that its product with the ratio fits a word; optimality at the call site is not claimed, because its saturating subtraction makes the objective flat where it loses.
- PathCodec.ReadHops: the calldata and the memory reader are one reader over the payload followed by arbitrary bytes.
- PathSearch.Search.FollowEdge: the loop body of the recursive search is a method of its own; the stability flags are one snapshot of the pool mirror instead of reads at different times.
- StaticGraphs.RebuildGraph: takes the included pools as a list; the selection heuristics are not modelled, and the order of the tokens is left open, as for a hash set.
- Liquidity and amount conversions of src/v3_math.rs:132-158: not used by the simulator.
- `calculate_optimal_v2_v2`, the two-pool optimum: its scaling does not match the profit it is named after; only the square root is modelled.
- Floating-point pricing: the stable-curve output for a positive amount and positive reserves is a parameter; the Newton optimizer and the liquidity skew are left out.
- The contract's swaps beyond their direction, curve and requested outputs, its flash-loan calls and token calls, and the other contracts of the repository: external behaviour of the chain.
- The foreign call-data readers, networking, relays, telemetry, gas, nonces, inventory, simulation and persistence.
- Circuit breaker, provider rotation, bidding bounds and pool locks: small state with easy claims.
