/** Square-root prices of ticks, and the tick of a square-root price. */
module TickMath {
  import opened Bits
  import opened Rounding
  import opened Word256

  const MIN_TICK: int := -887272
  const MAX_TICK: int := 887272
  const MIN_SQRT_RATIO: nat := 4295128739
  const MAX_SQRT_RATIO: nat := 0xfffd8963_efd1fc6a50648849_5d951d5263988d25

  /** 2^128 / sqrt(1.0001)^(2^i), the factor applied when bit i of the tick is set. */
  function Multiplier(i: nat): nat
    requires i < 20
  {
    match i
    case 0 => 0xfffcb933bd6fad37aa2d162d1a594001
    case 1 => 0xfff97272373d413259a46990580e213a
    case 2 => 0xfff2e50f5f656932ef12357cf3c7fdcc
    case 3 => 0xffe5caca7e10e4e61c3624eaa0941cd0
    case 4 => 0xffcb9843d60f6159c9db58835c926644
    case 5 => 0xff973b41fa98c081472e6896dfb254c0
    case 6 => 0xff2ea16466c96a3843ec78b326b52861
    case 7 => 0xfe5dee046a99a2a811c461f1969c3053
    case 8 => 0xfcbe86c7900a88aedcffc83b479aa3a4
    case 9 => 0xf987a7253ac413176f2b074cf7815e54
    case 10 => 0xf3392b0822b70005940c7a398e4b70f3
    case 11 => 0xe7159475a2c29b7443b29c7fa6e889d9
    case 12 => 0xd097f3bdfd2022b8845ad8f792aa5825
    case 13 => 0xa9f746462d870fdf8a65dc1f90e061e5
    case 14 => 0x70d869a156d2a1b890bb3df62baf32f7
    case 15 => 0x31be135f97d08fd981231505542fcfa6
    case 16 => 0x9aa508b5b7a84e1c677de54f3e99bc9
    case 17 => 0x5d6af8dedb81196699c329225ee604
    case 18 => 0x2216e584f5fa1ea926041bedfe98
    case _ => 0x48a170391f7dc42444e8fa2
  }

  function MulShift128(a: nat, b: nat): nat {
    a * b / 0x1_0000_0000_0000_0000_0000_0000_0000_0000
  }

  /** The product of two 128-bit fractions, rounded down. */
  lemma MulShiftIsFloor(a: nat, b: nat)
    ensures MulShift128(a, b) * 0x1_0000_0000_0000_0000_0000_0000_0000_0000 <= a * b
      < (MulShift128(a, b) + 1) * 0x1_0000_0000_0000_0000_0000_0000_0000_0000
  {
  }

  /** Folds the factors of the set bits of bits, the lowest of which stands for bit i of the tick, into ratio. */
  function ApplyBits(i: nat, bits: nat, ratio: nat): nat
    requires i <= 20
    decreases 20 - i
  {
    if i == 20 then ratio
    else ApplyBits(i + 1, bits / 2, if bits % 2 == 1 then MulShift128(ratio, Multiplier(i)) else ratio)
  }

  /** The inverse square-root price of a non-negative tick, in 128-bit fixed point. */
  function InverseRatio(absTick: nat): nat {
    ApplyBits(0, absTick, TWO_128)
  }

  // ----- Strict monotonicity of the folded product ---------------------------------------------

  /** The folded product of the first i factors: the inverse ratio of tick 2^i - 1. */
  function Prefix(i: nat): nat {
    match i
    case 0 => 0x100000000000000000000000000000000
    case 1 => 0xfffcb933bd6fad37aa2d162d1a594001
    case 2 => 0xfff62bbb6d458ec3c792106391dc463e
    case 3 => 0xffe9114b9cf28d394c3203dbd44eb085
    case 4 => 0xffcede6f1d8be90b88f350424e84e5b7
    case 5 => 0xff9a80c1ada7480b1daa871d7c4d9b36
    case 6 => 0xff31e58d5a53c84fc142023ec1b1dfd7
    case 7 => 0xfe612f8183b1ea21b72fb71b03542ae4
    case 8 => 0xfcc1c2f380536bc67ee1ff564d1080b2
    case 9 => 0xf98ad8c8d7ecc0a3f8a42c9724cffb6a
    case 10 => 0xf33c480189b415235ad119427d89a1f6
    case 11 => 0xe71889a85903fd03cb7cc40bdf371a9c
    case 12 => 0xd09a9f3e93db5812d4820c2fc67a3e3a
    case 13 => 0xa9f973345b9e647c4163af91d00b255f
    case 14 => 0x70d9db6485f04ddd567e07c7b89f8e7c
    case 15 => 0x31beb65d91af63ae717a760be3b374dc
    case 16 => 0x9aa7036fd2355429c4030b032e1cf71
    case 17 => 0x5d6c2af97aaa8de0e5a6bf23f5e547
    case 18 => 0x221755388a6658e120f4a3c503cf
    case _ => 0x48a25e36942a4fc0c1f899f
  }

  /** A gap of this size before bit i is still at least 2^32 after every remaining factor. */
  function Threshold(i: nat): nat {
    match i
    case 0 => 0xc6c3b30bb4df48635d982f16449
    case 1 => 0xc6c127c88125c6785e9d8fa8bc0
    case 2 => 0xc6bc115b1b484d6cf77953358df
    case 3 => 0xc6b1e4e452e6d7855785de86371
    case 4 => 0xc69d8d86b7a58a2fe552305dfd8
    case 5 => 0xc674e50a98192f47e83296416b3
    case 6 => 0xc623ad08bd7cf8022aaf966cc67
    case 7 => 0xc581a0aef1a1b93eff1536fb73c
    case 8 => 0xc43f1526def3996c18c9d3f2065
    case 9 => 0xc1c026f5f6d89ce158c0f79e682
    case 10 => 0xbcda90ba4f77e0ca7357e0937bc
    case 11 => 0xb36da3c9c9aa54b7284a3eb59b7
    case 12 => 0xa1f70ed75a6688ea8c08cab0f16
    case 13 => 0x83f8defe711b800aa2543aa7e7f
    case 14 => 0x579ec48f5aa9352f2637736fab9
    case 15 => 0x269f881be7ce5e00570d5516622
    case 16 => 0x78136609f49b052259dc798a25
    case 17 => 0x488913f8989c2cff131aa36a2
    case 18 => 0x1a781b8784c9eaca1e89ac4
    case 19 => 0x38651b58d457501417
    case _ => 0x100000000
  }

  lemma MultiplierFacts(i: nat)
    requires i < 20
    ensures Threshold(i + 1) <= Threshold(i)
    ensures Threshold(i) * Multiplier(i) >= Threshold(i + 1) * TWO_128
    ensures Multiplier(i) + Threshold(i + 1) <= Prefix(i)
    ensures i < 19 ==> MulShift128(Prefix(i), Multiplier(i)) == Prefix(i + 1)
  {
  }

  function Span(i: nat): nat
    requires i <= 20
    decreases 20 - i
  {
    if i == 20 then 1 else 2 * Span(i + 1)
  }

  lemma MulShiftSuperadditive(x: nat, y: nat, m: nat)
    requires y <= x
    ensures MulShift128(y, m) + MulShift128(x - y, m) <= MulShift128(x, m)
  {
    assert x * m == y * m + (x - y) * m;
  }

  lemma MulShiftKeepsThreshold(g: nat, i: nat)
    requires i < 20 && Threshold(i) <= g
    ensures MulShift128(g, Multiplier(i)) >= Threshold(i + 1)
  {
    MultiplierFacts(i);
    var m, t := Multiplier(i), Threshold(i);
    assert t * m <= g * m;
  }

  lemma LastThreshold()
    ensures Threshold(20) == 0x1_0000_0000
  {
  }

  lemma {:induction false} GapSurvives(i: nat, bits: nat, x: nat, y: nat)
    requires i <= 20 && y + Threshold(i) <= x
    ensures ApplyBits(i, bits, y) + 0x1_0000_0000 <= ApplyBits(i, bits, x)
    decreases 20 - i
  {
    hide Multiplier, Threshold, MulShift128;
    LastThreshold();
    if i < 20 {
      MultiplierFacts(i);
      if bits % 2 == 1 {
        MulShiftSuperadditive(x, y, Multiplier(i));
        MulShiftKeepsThreshold(x - y, i);
        GapSurvives(i + 1, bits / 2, MulShift128(x, Multiplier(i)), MulShift128(y, Multiplier(i)));
      } else {
        GapSurvives(i + 1, bits / 2, x, y);
      }
    }
  }

  lemma {:induction false} OneBit(i: nat, bits: nat, ratio: nat, next: nat)
    requires i < 20
    requires next == if bits % 2 == 1 then MulShift128(ratio, Multiplier(i)) else ratio
    ensures ApplyBits(i, bits, ratio) == ApplyBits(i + 1, bits / 2, next)
  {
  }

  /** Adding one to a tick clears its trailing ones and sets the next bit, so the folds of both ticks
      agree on every later bit; the gap at the carry survives the floors of the later factors. */
  lemma {:induction false} CarryGap(i: nat, bits: nat)
    requires i < 20 && bits + 1 < Span(i)
    ensures ApplyBits(i, bits + 1, TWO_128) + 0x1_0000_0000 <= ApplyBits(i, bits, Prefix(i))
    decreases 20 - i
  {
    hide Multiplier, Prefix, Threshold, MulShift128, ApplyBits;
    MultiplierFacts(i);
    StartFactor(i);
    if bits % 2 == 0 {
      OneBit(i, bits, Prefix(i), Prefix(i));
      OneBit(i, bits + 1, TWO_128, Multiplier(i));
      GapSurvives(i + 1, bits / 2, Prefix(i), Multiplier(i));
    } else {
      assert i < 19 by { LastSpan(); }
      OneBit(i, bits, Prefix(i), Prefix(i + 1));
      OneBit(i, bits + 1, TWO_128, TWO_128);
      CarryGap(i + 1, bits / 2);
    }
  }

  lemma StartFactor(i: nat)
    requires i < 20
    ensures MulShift128(TWO_128, Multiplier(i)) == Multiplier(i)
  {
    hide Multiplier;
  }

  lemma LastSpan()
    ensures Span(19) == 2
  {
  }

  lemma SpanOfTicks()
    ensures Span(0) == 0x10_0000
  {
    assert Span(15) == 32;
    assert Span(10) == 1024;
    assert Span(5) == 32768;
  }

  lemma InverseRatioGap(absTick: nat)
    requires absTick + 1 < 0x10_0000
    ensures InverseRatio(absTick + 1) + 0x1_0000_0000 <= InverseRatio(absTick)
  {
    SpanOfTicks();
    CarryGap(0, absTick);
  }

  lemma {:induction false} ApplyBitsShrinks(i: nat, bits: nat, ratio: nat)
    requires i <= 20
    ensures ApplyBits(i, bits, ratio) <= ratio
    decreases 20 - i
  {
    if i < 20 {
      var m := Multiplier(i);
      assert ratio * m <= ratio * 0x1_0000_0000_0000_0000_0000_0000_0000_0000;
      ApplyBitsShrinks(i + 1, bits / 2, if bits % 2 == 1 then MulShift128(ratio, m) else ratio);
    }
  }

  lemma InverseRatioRange(absTick: nat)
    requires absTick <= MAX_TICK
    ensures 0x1_0000_0000 <= InverseRatio(absTick) <= TWO_128
  {
    InverseRatioGap(absTick);
    ApplyBitsShrinks(0, absTick, TWO_128);
  }

  // ----- Tick to price --------------------------------------------------------------------------

  /** From 128 to 96 fractional bits, rounding up. */
  function RoundUp32(ratio: nat): nat {
    ratio / 0x1_0000_0000 + if ratio % 0x1_0000_0000 != 0 then 1 else 0
  }

  function Abs(tick: int): nat { if tick < 0 then -tick else tick }

  /** The square-root price of a tick in 96-bit fixed point; zero beyond the tick range. */
  function SqrtRatio(tick: int): nat {
    var absTick := Abs(tick);
    if absTick > MAX_TICK then 0
    else
      InverseRatioRange(absTick);
      RoundUp32(if tick > 0 then (TWO_256 - 1) / InverseRatio(absTick) else InverseRatio(absTick))
  }

  lemma ReciprocalGap(x: nat, y: nat, top: nat)
    requires 0 < y && y + 0x1_0000_0000 <= x && x * y <= top
    ensures top / x + 0x1_0000_0000 <= top / y
  {
    var k, q := 0x1_0000_0000, top / x;
    FloorAtLeast(top, x, y) by { assert y * x == x * y; }
    FloorBounds(top, x);
    MulMono(y + k, x, q);
    MulMono(y, q, k);
    assert (q + k) * y == (y + k) * q - k * q + y * k;
    FloorAtLeast(top, y, q + k);
  }

  lemma SquareFits(x: nat, y: nat)
    requires y < x <= TWO_128
    ensures x * y <= TWO_256 - 1
  {
    MulMono(x, TWO_128, y);
    assert TWO_128 * y <= TWO_256 - 1;
  }

  lemma PositiveTickStep(tick: nat)
    requires tick < MAX_TICK
    ensures SqrtRatio(tick) < SqrtRatio(tick + 1)
  {
    hide InverseRatio;
    InverseRatioGap(tick);
    InverseRatioRange(tick);
    InverseRatioRange(tick + 1);
    var x, y, top := InverseRatio(tick), InverseRatio(tick + 1), TWO_256 - 1;
    SquareFits(x, y);
    ReciprocalGap(x, y, top);
    if tick == 0 {
      InverseRatioOfZero();
      assert top / TWO_128 == TWO_128 - 1;
    }
  }

  lemma SqrtRatioStep(tick: int)
    requires MIN_TICK <= tick < MAX_TICK
    ensures SqrtRatio(tick) < SqrtRatio(tick + 1)
  {
    if tick < 0 {
      InverseRatioGap(-tick - 1);
    } else {
      PositiveTickStep(tick);
    }
  }

  lemma {:induction false} NoBits(i: nat)
    requires i <= 20
    ensures ApplyBits(i, 0, TWO_128) == TWO_128
    decreases 20 - i
  {
    if i < 20 { NoBits(i + 1); }
  }

  /** Higher ticks have strictly higher prices. */
  lemma {:induction false} SqrtRatioStrictlyIncreasing(low: int, high: int)
    requires MIN_TICK <= low < high <= MAX_TICK
    ensures SqrtRatio(low) < SqrtRatio(high)
    decreases high - low
  {
    SqrtRatioStep(high - 1);
    if low < high - 1 { SqrtRatioStrictlyIncreasing(low, high - 1); }
  }

  lemma InverseRatioOfLastTick()
    ensures InverseRatio(MAX_TICK) == 0x1000276a221a17501
  {
    hide ApplyBits;
    OneBit(0, 887272, 0x100000000000000000000000000000000, 0x100000000000000000000000000000000);
    OneBit(1, 443636, 0x100000000000000000000000000000000, 0x100000000000000000000000000000000);
    OneBit(2, 221818, 0x100000000000000000000000000000000, 0x100000000000000000000000000000000);
    OneBit(3, 110909, 0x100000000000000000000000000000000, 0xffe5caca7e10e4e61c3624eaa0941cd0);
    OneBit(4, 55454, 0xffe5caca7e10e4e61c3624eaa0941cd0, 0xffe5caca7e10e4e61c3624eaa0941cd0);
    OneBit(5, 27727, 0xffe5caca7e10e4e61c3624eaa0941cd0, 0xff7d10c63a977157da4140deb6f31a7b);
    OneBit(6, 13863, 0xff7d10c63a977157da4140deb6f31a7b, 0xfeac1d4052f7714818b490c1138ea058);
    OneBit(7, 6931, 0xfeac1d4052f7714818b490c1138ea058, 0xfd0c3654da9e033741d1a9f93707f6f6);
    OneBit(8, 3465, 0xfd0c3654da9e033741d1a9f93707f6f6, 0xf9d459c5817dbafa9e376ae84dcfeb8b);
    OneBit(9, 1732, 0xf9d459c5817dbafa9e376ae84dcfeb8b, 0xf9d459c5817dbafa9e376ae84dcfeb8b);
    OneBit(10, 866, 0xf9d459c5817dbafa9e376ae84dcfeb8b, 0xf9d459c5817dbafa9e376ae84dcfeb8b);
    OneBit(11, 433, 0xf9d459c5817dbafa9e376ae84dcfeb8b, 0xe183ac4e25d5949966242a64e9c80e2f);
    OneBit(12, 216, 0xe183ac4e25d5949966242a64e9c80e2f, 0xe183ac4e25d5949966242a64e9c80e2f);
    OneBit(13, 108, 0xe183ac4e25d5949966242a64e9c80e2f, 0xe183ac4e25d5949966242a64e9c80e2f);
    OneBit(14, 54, 0xe183ac4e25d5949966242a64e9c80e2f, 0xe183ac4e25d5949966242a64e9c80e2f);
    OneBit(15, 27, 0xe183ac4e25d5949966242a64e9c80e2f, 0x2bd1a4c5d2a1181aca1ef15e64c2e3cf);
    OneBit(16, 13, 0x2bd1a4c5d2a1181aca1ef15e64c2e3cf, 0x1a785cbbdc050483e3be5812760be73);
    OneBit(17, 6, 0x1a785cbbdc050483e3be5812760be73, 0x1a785cbbdc050483e3be5812760be73);
    OneBit(18, 3, 0x1a785cbbdc050483e3be5812760be73, 0x3865a6455d07d2bc87c5956d2e);
    OneBit(19, 1, 0x3865a6455d07d2bc87c5956d2e, 0x1000276a221a17501);
    AllBitsDone(0, 0x1000276a221a17501);
  }

  lemma {:induction false} AllBitsDone(bits: nat, ratio: nat)
    ensures ApplyBits(20, bits, ratio) == ratio
  {
  }

  lemma HighestPrice()
    ensures SqrtRatio(MAX_TICK) == MAX_SQRT_RATIO + 1
  {
    hide SqrtRatio, InverseRatio;
    InverseRatioOfLastTick();
    LastRounding(MAX_TICK, 0x1000276a221a17501);
    assert (TWO_256 - 1) / 0x1000276a221a17501 == 0xfffd8963efd1fc6a506488495d951d5263988d25fa78259a;
  }

  lemma LowestPrice()
    ensures SqrtRatio(MIN_TICK) == MIN_SQRT_RATIO
  {
    hide SqrtRatio, InverseRatio;
    InverseRatioOfLastTick();
    LastRounding(MIN_TICK, 0x1000276a221a17501);
  }

  lemma PriceOfTickZero()
    ensures SqrtRatio(0) == TWO_96
  {
    hide SqrtRatio, InverseRatio;
    assert InverseRatio(0) == TWO_128 by { InverseRatioOfZero(); }
    LastRounding(0, TWO_128);
  }

  lemma InverseRatioOfZero()
    ensures InverseRatio(0) == TWO_128
  {
    NoBits(0);
  }

  /** The ends of the tick range have the two published limit prices, and tick zero the price one. */
  lemma SqrtRatioEnds()
    ensures SqrtRatio(MIN_TICK) == MIN_SQRT_RATIO
    ensures SqrtRatio(MAX_TICK) == MAX_SQRT_RATIO + 1
    ensures SqrtRatio(0) == TWO_96
  {
    hide SqrtRatio;
    LowestPrice();
    HighestPrice();
    PriceOfTickZero();
  }

  lemma SqrtRatioOutside(tick: int)
    requires Abs(tick) > MAX_TICK
    ensures SqrtRatio(tick) == 0
  {
  }

  lemma PricedTick(tick: int)
    requires SqrtRatio(tick) > 0
    ensures MIN_TICK <= tick <= MAX_TICK
  {
  }

  /** Beyond the lowest tick the price reads zero, so prices never decrease up to the highest tick. */
  lemma SqrtRatioMonotone(low: int, high: int)
    requires low <= high <= MAX_TICK
    ensures SqrtRatio(low) <= SqrtRatio(high)
  {
    hide SqrtRatio;
    if low < MIN_TICK {
      SqrtRatioOutside(low);
    } else if low < high {
      SqrtRatioStrictlyIncreasing(low, high);
    }
  }

  lemma SqrtRatioBelow160(tick: int)
    ensures SqrtRatio(tick) < TWO_160
    ensures MIN_TICK <= tick <= MAX_TICK ==> MIN_SQRT_RATIO <= SqrtRatio(tick) <= MAX_SQRT_RATIO + 1
  {
    hide SqrtRatio;
    SqrtRatioEnds();
    if MIN_TICK <= tick <= MAX_TICK {
      SqrtRatioMonotone(tick, MAX_TICK);
      SqrtRatioMonotone(MIN_TICK, tick);
    } else {
      SqrtRatioOutside(tick);
    }
  }

  /** The fold over bits i and up of a tick. */
  function ApplyFrom(i: nat, absTick: nat, ratio: nat): nat
    requires i <= 20
  {
    ApplyBits(i, FloorDiv(absTick, Pow2(i)), ratio)
  }

  /** One line of the straight-line computation: the factor is applied when the masked bit is set. */
  function MulIfSet(absTick: nat, mask: nat, ratio: nat, factor: nat): nat
    requires mask > 0
  {
    if absTick / mask % 2 == 1 then MulShift128(ratio, factor) else ratio
  }

  lemma {:induction false} MaskedBit(i: nat, absTick: nat, mask: nat, ratio: nat)
    requires i < 20 && mask == Pow2(i)
    ensures Pow2(i + 1) == 2 * mask
    ensures ApplyFrom(i, absTick, ratio) == ApplyFrom(i + 1, absTick, MulIfSet(absTick, mask, ratio, Multiplier(i)))
  {
    hide Multiplier, FloorDiv;
    FloorBounds(absTick, mask);
    FloorBounds(absTick / mask, 2);
    NestedFloor(absTick, mask, 2);
  }

  lemma FirstBit(absTick: nat)
    ensures Pow2(1) == 2
    ensures InverseRatio(absTick) == ApplyFrom(1, absTick, if absTick % 2 == 1 then Multiplier(0) else TWO_128)
  {
    hide FloorDiv;
    FloorBounds(absTick, 1);
    FloorBounds(absTick, 2);
    assert MulShift128(TWO_128, Multiplier(0)) == Multiplier(0);
  }

  lemma AfterLastBit(absTick: nat, ratio: nat)
    ensures ApplyFrom(20, absTick, ratio) == ratio
  {
  }

  lemma LastRounding(tick: int, ratio: nat)
    requires Abs(tick) <= MAX_TICK && ratio == InverseRatio(Abs(tick))
    ensures ratio > 0
    ensures SqrtRatio(tick) == RoundUp32(if tick > 0 then (TWO_256 - 1) / ratio else ratio)
  {
    InverseRatioRange(Abs(tick));
  }

  /** The price of a tick, one bit of the tick after the other. */
  method SqrtRatioAtTickUncached(tick: int) returns (price: nat)
    ensures price == SqrtRatio(tick)
  {
    hide ApplyFrom, Pow2, MulIfSet, SqrtRatio, InverseRatio;
    var absTick := Abs(tick);
    if absTick > MAX_TICK {
      SqrtRatioOutside(tick);
      return 0;
    }
    var ratio := if absTick % 2 == 1 then 0xfffcb933bd6fad37aa2d162d1a594001 else TWO_128;
    FirstBit(absTick);
    MaskedBit(1, absTick, 0x2, ratio);
    ratio := MulIfSet(absTick, 0x2, ratio, 0xfff97272373d413259a46990580e213a);
    MaskedBit(2, absTick, 0x4, ratio);
    ratio := MulIfSet(absTick, 0x4, ratio, 0xfff2e50f5f656932ef12357cf3c7fdcc);
    MaskedBit(3, absTick, 0x8, ratio);
    ratio := MulIfSet(absTick, 0x8, ratio, 0xffe5caca7e10e4e61c3624eaa0941cd0);
    MaskedBit(4, absTick, 0x10, ratio);
    ratio := MulIfSet(absTick, 0x10, ratio, 0xffcb9843d60f6159c9db58835c926644);
    MaskedBit(5, absTick, 0x20, ratio);
    ratio := MulIfSet(absTick, 0x20, ratio, 0xff973b41fa98c081472e6896dfb254c0);
    MaskedBit(6, absTick, 0x40, ratio);
    ratio := MulIfSet(absTick, 0x40, ratio, 0xff2ea16466c96a3843ec78b326b52861);
    MaskedBit(7, absTick, 0x80, ratio);
    ratio := MulIfSet(absTick, 0x80, ratio, 0xfe5dee046a99a2a811c461f1969c3053);
    MaskedBit(8, absTick, 0x100, ratio);
    ratio := MulIfSet(absTick, 0x100, ratio, 0xfcbe86c7900a88aedcffc83b479aa3a4);
    MaskedBit(9, absTick, 0x200, ratio);
    ratio := MulIfSet(absTick, 0x200, ratio, 0xf987a7253ac413176f2b074cf7815e54);
    MaskedBit(10, absTick, 0x400, ratio);
    ratio := MulIfSet(absTick, 0x400, ratio, 0xf3392b0822b70005940c7a398e4b70f3);
    MaskedBit(11, absTick, 0x800, ratio);
    ratio := MulIfSet(absTick, 0x800, ratio, 0xe7159475a2c29b7443b29c7fa6e889d9);
    MaskedBit(12, absTick, 0x1000, ratio);
    ratio := MulIfSet(absTick, 0x1000, ratio, 0xd097f3bdfd2022b8845ad8f792aa5825);
    MaskedBit(13, absTick, 0x2000, ratio);
    ratio := MulIfSet(absTick, 0x2000, ratio, 0xa9f746462d870fdf8a65dc1f90e061e5);
    MaskedBit(14, absTick, 0x4000, ratio);
    ratio := MulIfSet(absTick, 0x4000, ratio, 0x70d869a156d2a1b890bb3df62baf32f7);
    MaskedBit(15, absTick, 0x8000, ratio);
    ratio := MulIfSet(absTick, 0x8000, ratio, 0x31be135f97d08fd981231505542fcfa6);
    MaskedBit(16, absTick, 0x10000, ratio);
    ratio := MulIfSet(absTick, 0x10000, ratio, 0x9aa508b5b7a84e1c677de54f3e99bc9);
    MaskedBit(17, absTick, 0x20000, ratio);
    ratio := MulIfSet(absTick, 0x20000, ratio, 0x5d6af8dedb81196699c329225ee604);
    MaskedBit(18, absTick, 0x40000, ratio);
    ratio := MulIfSet(absTick, 0x40000, ratio, 0x2216e584f5fa1ea926041bedfe98);
    MaskedBit(19, absTick, 0x80000, ratio);
    ratio := MulIfSet(absTick, 0x80000, ratio, 0x48a170391f7dc42444e8fa2);
    AfterLastBit(absTick, ratio);
    LastRounding(tick, ratio);
    if tick > 0 { ratio := (TWO_256 - 1) / ratio; }
    var lowBitsExist := ratio % 0x1_0000_0000 != 0;
    var shifted := ratio / 0x1_0000_0000;
    price := shifted + if lowBitsExist then 1 else 0;
  }

  const CACHED_TICKS: int := 110000

  /** The precomputed prices of the ticks near zero. */
  function SqrtRatioTable(): seq<int> {
    seq(2 * CACHED_TICKS + 1, index requires 0 <= index => SqrtRatio(index - CACHED_TICKS))
  }

  /** The table and the direct computation agree on every tick. */
  function SqrtRatioAtTick(tick: int): (price: int)
    ensures price == SqrtRatio(tick)
  {
    if -CACHED_TICKS <= tick <= CACHED_TICKS then SqrtRatioTable()[tick + CACHED_TICKS]
    else SqrtRatio(tick)
  }

  // ----- Price to tick --------------------------------------------------------------------------

  /** The greatest tick, scanning down from high, whose price is at most the given one;
      MIN_TICK - 1 when there is none. */
  function ScanDown(high: int, price: nat): int
    requires MIN_TICK - 1 <= high
    decreases high - MIN_TICK + 1
  {
    if high < MIN_TICK || SqrtRatio(high) <= price then high else ScanDown(high - 1, price)
  }

  function TickAt(price: nat): int { ScanDown(MAX_TICK, price) }

  lemma {:induction false} ScanDownFinds(high: int, price: nat, tick: int)
    requires MIN_TICK - 1 <= tick <= high <= MAX_TICK
    requires SqrtRatio(tick) <= price
    requires tick < high ==> price < SqrtRatio(tick + 1)
    ensures ScanDown(high, price) == tick
    decreases high - MIN_TICK + 1
  {
    hide SqrtRatio;
    if tick < high {
      SqrtRatioMonotone(tick + 1, high);
      ScanDownFinds(high - 1, price, tick);
    }
  }

  lemma {:induction false} ScanDownBounds(high: int, price: nat)
    requires MIN_TICK - 1 <= high <= MAX_TICK
    ensures MIN_TICK - 1 <= ScanDown(high, price) <= high
    ensures SqrtRatio(ScanDown(high, price)) <= price
    ensures ScanDown(high, price) < high ==> price < SqrtRatio(ScanDown(high, price) + 1)
    decreases high - MIN_TICK + 1
  {
    hide SqrtRatio;
    if high < MIN_TICK {
      SqrtRatioOutside(high);
    } else if price < SqrtRatio(high) {
      ScanDownBounds(high - 1, price);
    }
  }

  /** The tick of a price is the greatest tick whose price does not exceed it. */
  lemma TickAtIsGreatest(price: nat, tick: int)
    requires MIN_TICK <= tick <= MAX_TICK
    ensures SqrtRatio(tick) <= price <==> tick <= TickAt(price)
  {
    hide SqrtRatio;
    ScanDownBounds(MAX_TICK, price);
    var found := TickAt(price);
    if tick <= found {
      SqrtRatioMonotone(tick, found);
    } else {
      SqrtRatioMonotone(found + 1, tick);
    }
  }

  /** The tick of a tick's price is that tick. */
  lemma TickAtInvertsSqrtRatio(tick: int)
    requires MIN_TICK <= tick <= MAX_TICK
    ensures TickAt(SqrtRatio(tick)) == tick
  {
    hide SqrtRatio;
    if tick < MAX_TICK { SqrtRatioStep(tick); }
    ScanDownFinds(MAX_TICK, SqrtRatio(tick), tick);
  }

  /** Integer division that truncates toward zero. */
  function HalfTowardZero(n: int): int { if n < 0 then -(-n / 2) else n / 2 }

  /** Binary search over the whole tick range; any price is accepted. */
  method TickAtSqrtRatio(price: nat) returns (tick: int)
    ensures tick == TickAt(price)
  {
    hide SqrtRatio;
    SqrtRatioOutside(MIN_TICK - 1);
    var low, high := MIN_TICK, MAX_TICK;
    while low <= high
      invariant MIN_TICK <= low <= high + 1 <= MAX_TICK + 1
      invariant SqrtRatio(low - 1) <= price
      invariant high < MAX_TICK ==> price < SqrtRatio(high + 1)
    {
      var mid := HalfTowardZero(low + high);
      var midPrice := SqrtRatioAtTick(mid);
      if midPrice < price {
        low := mid + 1;
      } else if midPrice > price {
        high := mid - 1;
      } else {
        TickAtInvertsSqrtRatio(mid);
        return mid;
      }
    }
    ScanDownFinds(MAX_TICK, price, high);
    return high;
  }
}
