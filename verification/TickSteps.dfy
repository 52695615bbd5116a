/** From one tick to the next the price moves by 1.0001, whatever carries the tick number makes. */
module TickSteps {
  import opened Bits
  import opened Rounding
  import opened SqrtPriceMath
  import opened TickMath
  import opened Word256

  /** The factor of one tick. */
  const ONE_TICK: nat := 0xfffcb933bd6fad37aa2d162d1a594001

  /** The second ratio is the first times that factor, up to an error in units of 2^-128. */
  ghost predicate OneTickApart(x: nat, y: nat, error: int) {
    -error <= y * TWO_128 - x * ONE_TICK <= error
  }

  // ----- Through the fold -----------------------------------------------------------------------------

  lemma GapScaled(x: nat, y: nat, m: nat, unit: nat, factor: nat, error: int)
    requires -error <= y * unit - x * factor <= error
    ensures -(error * m) <= y * m * unit - x * m * factor <= error * m
  {
    var gap := y * unit - x * factor;
    MulMono(-error, gap, m);
    MulMono(gap, error, m);
    Spread(y * unit, x * factor, m);
    SwapFactors(y, unit, m);
    SwapFactors(x, factor, m);
  }

  lemma FloorsApart(p: nat, q: nat, x: nat, y: nat, spread: int, next: int)
    requires x * TWO_128 <= p < (x + 1) * TWO_128 && y * TWO_128 <= q < (y + 1) * TWO_128
    requires -spread <= q * TWO_128 - p * ONE_TICK <= spread && spread + TWO_128 * TWO_128 <= next * TWO_128
    ensures OneTickApart(x, y, next)
  {
  }

  const LOOSE: nat := 0x40_0000_0000_0000_0000_0000_0000_0000_0000
  const TIGHT: nat := 0x1_0000_0010_0000_0000_0000_0000_0000_0000

  lemma LastFactor()
    ensures LOOSE * Multiplier(19) + TWO_128 * TWO_128 <= TIGHT * TWO_128
  {
  }

  lemma FactorFits(i: nat)
    requires i < 20
    ensures Multiplier(i) <= TWO_128
  {
  }

  /** Whether the highest of the bits that are left is set. */
  ghost predicate Top(i: nat, bits: nat)
    requires i <= 20
  {
    i < 20 && Span(i + 1) <= bits
  }

  /** The later factors are the same for both ticks. Each adds a unit of error, but the last factor, where
      it applies, shrinks all error before it. */
  lemma {:induction false} TailApart(i: nat, bits: nat, x: nat, y: nat, error: int)
    requires i <= 20 && bits < Span(i) && OneTickApart(x, y, error)
    requires 0 <= error && error + (20 - i) * TWO_128 <= LOOSE
    ensures OneTickApart(ApplyBits(i, bits, x), ApplyBits(i, bits, y), if Top(i, bits) then TIGHT else LOOSE)
    decreases 20 - i
  {
    hide Multiplier, MulShift128, ApplyBits;
    if i == 20 {
      AllBitsDone(bits, x);
      AllBitsDone(bits, y);
      Loosen(x, y, error, LOOSE);
    } else {
      var odd := bits % 2 == 1;
      var m := Multiplier(i);
      FactorFits(i);
      OneBit(i, bits, x, if odd then MulShift128(x, m) else x);
      OneBit(i, bits, y, if odd then MulShift128(y, m) else y);
      if i == 19 {
        LastSpan();
        OneBitLeft(bits);
        if odd {
          Loosen(x, y, error, LOOSE);
          LastFactor();
          MulShiftIsFloor(x, m);
          MulShiftIsFloor(y, m);
          GapScaled(x, y, m, TWO_128, ONE_TICK, LOOSE);
          FloorsApart(x * m, y * m, MulShift128(x, m), MulShift128(y, m), LOOSE * m, TIGHT);
          AllBitsDone(bits / 2, MulShift128(x, m));
          AllBitsDone(bits / 2, MulShift128(y, m));
        } else {
          Loosen(x, y, error, LOOSE);
          AllBitsDone(bits / 2, x);
          AllBitsDone(bits / 2, y);
        }
      } else if odd {
        MulMono(m, TWO_128, error);
        MulShiftIsFloor(x, m);
        MulShiftIsFloor(y, m);
        GapScaled(x, y, m, TWO_128, ONE_TICK, error);
        FloorsApart(x * m, y * m, MulShift128(x, m), MulShift128(y, m), error * m, error + TWO_128);
        TailApart(i + 1, bits / 2, MulShift128(x, m), MulShift128(y, m), error + TWO_128);
      } else {
        TailApart(i + 1, bits / 2, x, y, error);
      }
    }
  }

  lemma {:induction false} OneBitLeft(bits: nat)
    requires bits < 2
    ensures Top(19, bits) <==> bits % 2 == 1
  {
    assert Span(20) == 1;
  }

  lemma Loosen(x: nat, y: nat, error: int, more: int)
    requires OneTickApart(x, y, error) && error <= more
    ensures OneTickApart(x, y, more)
  {
  }

  /** At the carry the two ticks are apart by less than four units. */
  lemma CarryFactor(i: nat)
    requires i < 20
    ensures OneTickApart(Prefix(i), Multiplier(i), 4 * TWO_128)
  {
  }

  lemma {:induction false} CarryApart(i: nat, bits: nat)
    requires i < 20 && bits + 1 < Span(i)
    ensures OneTickApart(ApplyBits(i, bits, Prefix(i)), ApplyBits(i, bits + 1, TWO_128),
              if Top(i, bits) then TIGHT else LOOSE)
    decreases 20 - i
  {
    hide Multiplier, Prefix, Threshold, MulShift128, ApplyBits, OneTickApart;
    MultiplierFacts(i);
    StartFactor(i);
    LastSpan();
    if bits % 2 == 0 {
      OneBit(i, bits, Prefix(i), Prefix(i));
      OneBit(i, bits + 1, TWO_128, Multiplier(i));
      CarryFactor(i);
      TailApart(i + 1, bits / 2, Prefix(i), Multiplier(i), 4 * TWO_128);
      if i == 19 { OneBitLeft(bits); }
    } else {
      OneBit(i, bits, Prefix(i), Prefix(i + 1));
      OneBit(i, bits + 1, TWO_128, TWO_128);
      CarryApart(i + 1, bits / 2);
    }
  }

  // ----- The inverse price ----------------------------------------------------------------------------

  lemma {:induction false} InverseRatioFalls(low: nat, high: nat)
    requires low <= high < 0x10_0000
    ensures InverseRatio(high) <= InverseRatio(low)
    decreases high - low
  {
    hide InverseRatio;
    if low < high {
      InverseRatioGap(high - 1);
      InverseRatioFalls(low, high - 1);
    }
  }

  /** The tick of all ones from bit i up. */
  lemma {:induction false} AllOnes(i: nat, bits: nat)
    requires i < 20 && bits + 1 == Span(i + 1)
    ensures ApplyBits(i, bits, Prefix(i)) == Prefix(19)
    decreases 20 - i
  {
    hide Multiplier, Prefix, Threshold, MulShift128, ApplyBits;
    MultiplierFacts(i);
    if i == 19 {
      assert Span(20) == 1;
      OneBit(19, 0, Prefix(19), Prefix(19));
      AllBitsDone(0, Prefix(19));
    } else {
      OneBit(i, bits, Prefix(i), Prefix(i + 1));
      AllOnes(i + 1, bits / 2);
    }
  }

  lemma {:induction false} FirstSpan()
    ensures Span(0) == 2 * Span(1) && Prefix(0) == TWO_128
  {
  }

  lemma LargeInverse(absTick: nat)
    requires absTick < Span(1)
    ensures Prefix(19) <= InverseRatio(absTick)
  {
    hide ApplyBits, Prefix, Span;
    SpanOfTicks();
    FirstSpan();
    AllOnes(0, Span(1) - 1);
    InverseRatioFalls(absTick, Span(1) - 1);
  }

  /** The error against one tick is a small part of the ratio. */
  ghost predicate OneTickWithin(x: nat, y: nat, part: nat) {
    -(x * ONE_TICK) <= (y * TWO_128 - x * ONE_TICK) * part <= x * ONE_TICK
  }

  lemma WithinTight(x: nat, y: nat)
    requires OneTickApart(x, y, TIGHT) && 0x1000276a221a17501 <= x
    ensures OneTickWithin(x, y, 0x8000_0000_0000_0002)
  {
  }

  lemma WithinLoose(x: nat, y: nat)
    requires OneTickApart(x, y, LOOSE) && Prefix(19) <= x
    ensures OneTickWithin(x, y, 0x8000_0000_0000_0002)
  {
  }

  lemma InverseStep(absTick: nat)
    requires absTick < MAX_TICK
    ensures OneTickWithin(InverseRatio(absTick), InverseRatio(absTick + 1), 0x8000_0000_0000_0002)
  {
    hide ApplyBits, Prefix, Span, OneTickApart, OneTickWithin;
    SpanOfTicks();
    CarryApart(0, absTick);
    FirstSpan();
    if Span(1) <= absTick {
      InverseRatioOfLastTick();
      InverseRatioFalls(absTick, MAX_TICK);
      WithinTight(InverseRatio(absTick), InverseRatio(absTick + 1));
    } else {
      LargeInverse(absTick);
      WithinLoose(InverseRatio(absTick), InverseRatio(absTick + 1));
    }
  }

  // ----- Squares --------------------------------------------------------------------------------------

  /** Squares that differ from the ratio 10000 / 10001 by at most one part in the given number. */
  ghost predicate StepWithin(u: nat, v: nat, part: nat) {
    -(u * u * 10000) <= (v * v * 10001 - u * u * 10000) * part <= u * u * 10000
  }

  lemma SquareOfProduct(u: int, k: int)
    ensures (u * k) * (u * k) == u * u * (k * k)
  {
    Assoc(u * k, u, k);
    SwapFactors(u, k, u);
    Assoc(u * u, k, k);
  }

  lemma SquareOfSum(w: int, d: int)
    ensures (w + d) * (w + d) == w * w + 2 * (w * d) + d * d
  {
    Spread(w, -d, w + d);
    Spread(w, -d, w);
    Spread(w, -d, d);
  }

  lemma ErrorOfSquare(w: int, d: int, part: int)
    requires -w <= d * part <= w
    ensures -(w * w) <= w * d * part <= w * w
    ensures 0 <= d * d && d * d * (part * part) <= w * w
  {
    var e := d * part;
    Assoc(w, d, part);
    MulMono(-w, e, w);
    MulMono(e, w, w);
    SquareOfProduct(d, part);
    MulMono(-w, e, w + e);
    MulMono(e, w, w + e);
    Spread(w, -e, w + e);
    Spread(w, -e, w);
    Spread(w, -e, e);
    MulMono(0, w - e, w + e);
    assert (w - e) * (w + e) == w * w - e * e;
  }

  /** From the ratio to its square: the error doubles, and the factor of one tick is the root of
      10000 / 10001 up to its own rounding. */
  lemma SquareStep(u: nat, v: nat)
    requires OneTickWithin(u, v, 0x8000_0000_0000_0002)
    ensures StepWithin(u, v, 0x4000_0000_0000_0000)
  {
    var w, z := u * ONE_TICK, v * TWO_128;
    var d, square, other := z - w, u * u, v * v;
    ErrorOfSquare(w, d, 0x8000_0000_0000_0002);
    SquareOfSum(w, d);
    SquareOfProduct(u, ONE_TICK);
    SquareOfProduct(v, TWO_128);
    SquareParts(square, other, w * d, d * d, w * w, z * z);
  }

  lemma SquareParts(square: nat, other: nat, cross: int, gap: int, all: int, whole: int)
    requires all == square * (ONE_TICK * ONE_TICK) && whole == other * (TWO_128 * TWO_128)
    requires whole == all + 2 * cross + gap
    requires -all <= cross * 0x8000_0000_0000_0002 <= all && 0 <= gap
    requires gap * (0x8000_0000_0000_0002 * 0x8000_0000_0000_0002) <= all
    ensures -(square * 10000) <= (other * 10001 - square * 10000) * 0x4000_0000_0000_0000 <= square * 10000
  {
  }

  /** One tick further divides the square of the inverse price by 1.0001, to one part in 2^62, for every
      tick of the range. */
  lemma InverseRatioStep(absTick: nat)
    requires absTick < MAX_TICK
    ensures var x, y := InverseRatio(absTick), InverseRatio(absTick + 1);
      Abs(y * y * 10001 - x * x * 10000) * 0x4000_0000_0000_0000 <= x * x * 10000
  {
    hide InverseRatio, OneTickWithin;
    InverseStep(absTick);
    SquareStep(InverseRatio(absTick), InverseRatio(absTick + 1));
  }

  // ----- The price ------------------------------------------------------------------------------------

  /** Rounding up by 32 bits, and before that, above tick zero, the reciprocal. */
  lemma PriceRounding(tick: int) returns (q: nat)
    requires MIN_TICK <= tick <= MAX_TICK
    ensures var inverse := InverseRatio(Abs(tick));
      && (SqrtRatio(tick) - 1) * 0x1_0000_0000 < q <= SqrtRatio(tick) * 0x1_0000_0000
      && (tick <= 0 ==> q == inverse)
      && (tick > 0 ==> q * inverse <= TWO_256 - 1 < (q + 1) * inverse)
  {
    hide InverseRatio;
    InverseRatioRange(Abs(tick));
    var inverse := InverseRatio(Abs(tick));
    FloorBounds(TWO_256 - 1, inverse);
    FloorAtLeast(TWO_256 - 1, inverse, 0);
    q := if tick > 0 then (TWO_256 - 1) / inverse else inverse;
  }

  /** Below tick zero the rounding up by 32 bits is the larger error. */
  lemma PriceStepDown(tick: int)
    requires MIN_TICK <= tick < 0
    ensures OneTickWithin(SqrtRatio(tick + 1), SqrtRatio(tick), 0x8000_0002)
  {
    hide InverseRatio, SqrtRatio;
    var q := PriceRounding(tick);
    var q' := PriceRounding(tick + 1);
    InverseStep(-tick - 1);
    InverseRatioOfLastTick();
    InverseRatioFalls(-tick - 1, MAX_TICK);
    RoundedStep(q', q, SqrtRatio(tick + 1), SqrtRatio(tick));
  }

  lemma RoundedStep(x: nat, y: nat, u: nat, v: nat)
    requires OneTickWithin(x, y, 0x8000_0000_0000_0002) && 0x1000276a221a17501 <= x
    requires (u - 1) * 0x1_0000_0000 < x <= u * 0x1_0000_0000 && (v - 1) * 0x1_0000_0000 < y <= v * 0x1_0000_0000
    ensures OneTickWithin(u, v, 0x8000_0002)
  {
  }

  /** From tick zero up the reciprocals are all but exact. */
  lemma PriceStepUp(tick: int)
    requires 0 <= tick < MAX_TICK
    ensures OneTickWithin(SqrtRatio(tick + 1), SqrtRatio(tick), 0x8000_0002)
  {
    hide InverseRatio, SqrtRatio, OneTickWithin;
    InverseStep(tick);
    InverseRatioRange(tick);
    InverseRatioRange(tick + 1);
    NearReciprocal(tick);
    NearReciprocal(tick + 1);
    ReciprocalStep(InverseRatio(tick), InverseRatio(tick + 1), SqrtRatio(tick), SqrtRatio(tick + 1));
  }

  /** Price times inverse price, in units of 2^-224, is one. */
  lemma NearReciprocal(tick: int)
    requires 0 <= tick <= MAX_TICK
    ensures var x, s := InverseRatio(tick), SqrtRatio(tick);
      TWO_256 - TWO_128 <= s * 0x1_0000_0000 * x <= TWO_256 + 0x1_0000_0000 * TWO_128
  {
    hide InverseRatio, SqrtRatio;
    InverseRatioRange(tick);
    if tick == 0 {
      SqrtRatioEnds();
      InverseRatioOfZero();
    } else {
      var q := PriceRounding(tick);
      var x, s := InverseRatio(tick), SqrtRatio(tick);
      MulMono(q, s * 0x1_0000_0000, x);
      MulMono((s - 1) * 0x1_0000_0000, q, x);
      Spread(q, -1, x);
      assert (s - 1) * 0x1_0000_0000 * x == s * 0x1_0000_0000 * x - 0x1_0000_0000 * x;
    }
  }

  /** Two prices with their inverse prices, all products named: how far price times the other inverse
      price may be off. */
  lemma ReciprocalProducts(x: nat, y: nat, v: nat, u: nat, k: nat, m: nat, unit: nat, part: nat, low: nat, most: int)
    requires -(x * m) <= (y * k - x * m) * part <= x * m
    requires low <= u * unit * y && -most <= v * unit * x - u * unit * y <= most
    ensures var ay, bx, both := unit * (v * (x * y)), unit * (u * (x * y)), u * unit * y * y;
      && -(bx * m) <= (both * k - bx * m) * part <= bx * m
      && -(most * y) <= ay - both <= most * y
      && low * x <= bx
  {
    var a, b := v * unit * x, u * unit * y;
    var ay, bx, both := unit * (v * (x * y)), unit * (u * (x * y)), b * y;
    var w := x * y;
    Assoc(v * unit, x, y);
    SwapFactors(v, unit, w);
    SwapFactors(b, x, y);
    Assoc(u * unit, y, x);
    SwapFactors(u, unit, w);
    MulMono(-(x * m), (y * k - x * m) * part, b);
    MulMono((y * k - x * m) * part, x * m, b);
    Assoc(b, x, m);
    Assoc(b, y, k);
    Spread(y * k, x * m, b);
    Assoc(b, y * k - x * m, part);
    MulMono(low, b, x);
    MulMono(-most, a - b, y);
    MulMono(a - b, most, y);
    Spread(a, b, y);
  }

  lemma ReciprocalStep(x: nat, y: nat, v: nat, u: nat)
    requires OneTickWithin(x, y, 0x8000_0000_0000_0002) && 0 < x && 0 < y
    requires TWO_256 - TWO_128 <= v * 0x1_0000_0000 * x <= TWO_256 + 0x1_0000_0000 * TWO_128
    requires TWO_256 - TWO_128 <= u * 0x1_0000_0000 * y <= TWO_256 + 0x1_0000_0000 * TWO_128
    ensures OneTickWithin(u, v, 0x8000_0002)
  {
    ReciprocalProducts(x, y, v, u, TWO_128, ONE_TICK, 0x1_0000_0000, 0x8000_0000_0000_0002, TWO_256 - TWO_128,
      0x2_0000_0000 * TWO_128);
    var w := x * y;
    ReciprocalParts(0x1_0000_0000 * (v * w), u * 0x1_0000_0000 * y * y, 0x1_0000_0000 * (u * w), x, y);
    ProductPositive(x, y);
    CancelPrices(u, v, w);
  }

  lemma CancelPrices(u: nat, v: nat, w: nat)
    requires w > 0
    requires var bx, ay := 0x1_0000_0000 * (u * w), 0x1_0000_0000 * (v * w);
      -(bx * ONE_TICK) <= (ay * TWO_128 - bx * ONE_TICK) * 0x8000_0002 <= bx * ONE_TICK
    ensures OneTickWithin(u, v, 0x8000_0002)
  {
    var gap := (v * TWO_128 - u * ONE_TICK) * 0x8000_0002;
    assert gap * w == (v * w * TWO_128 - u * w * ONE_TICK) * 0x8000_0002;
    assert u * ONE_TICK * w == u * w * ONE_TICK;
    CancelLeq(gap, u * ONE_TICK, w);
    CancelLeq(-(u * ONE_TICK), gap, w);
  }

  lemma ReciprocalParts(ay: int, both: int, bx: int, x: nat, y: nat)
    requires OneTickWithin(x, y, 0x8000_0000_0000_0002)
    requires -(bx * ONE_TICK) <= (both * TWO_128 - bx * ONE_TICK) * 0x8000_0000_0000_0002 <= bx * ONE_TICK
    requires -(0x2_0000_0000 * TWO_128 * y) <= ay - both <= 0x2_0000_0000 * TWO_128 * y
    requires (TWO_256 - TWO_128) * x <= bx
    ensures -(bx * ONE_TICK) <= (ay * TWO_128 - bx * ONE_TICK) * 0x8000_0002 <= bx * ONE_TICK
  {
  }

  /** The roundings of the price leave twice as much error as one part in 2^31. */
  lemma PriceSquares(u: nat, v: nat)
    requires OneTickWithin(u, v, 0x8000_0002)
    ensures StepWithin(u, v, 0x4000_0000)
  {
    var w, z := u * ONE_TICK, v * TWO_128;
    var d, square, other := z - w, u * u, v * v;
    ErrorOfSquare(w, d, 0x8000_0002);
    SquareOfSum(w, d);
    SquareOfProduct(u, ONE_TICK);
    SquareOfProduct(v, TWO_128);
    PriceParts(square, other, w * d, d * d, w * w, z * z);
  }

  lemma PriceParts(square: nat, other: nat, cross: int, gap: int, all: int, whole: int)
    requires all == square * (ONE_TICK * ONE_TICK) && whole == other * (TWO_128 * TWO_128)
    requires whole == all + 2 * cross + gap
    requires -all <= cross * 0x8000_0002 <= all && 0 <= gap && gap * (0x8000_0002 * 0x8000_0002) <= all
    ensures -(square * 10000) <= (other * 10001 - square * 10000) * 0x4000_0000 <= square * 10000
  {
  }

  /** One tick up multiplies the square of the price by 1.0001, to one part in 2^30, over the whole range. */
  lemma SqrtRatioIsPowerStep(tick: int)
    requires MIN_TICK <= tick < MAX_TICK
    ensures var s, next := SqrtRatio(tick), SqrtRatio(tick + 1);
      Abs(next * next * 10000 - s * s * 10001) * 0x4000_0000 <= next * next * 10000
  {
    hide SqrtRatio, OneTickWithin;
    if tick < 0 { PriceStepDown(tick); } else { PriceStepUp(tick); }
    PriceSquares(SqrtRatio(tick + 1), SqrtRatio(tick));
  }
}
