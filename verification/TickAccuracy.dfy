/** How far the prices of ticks are from the powers of 1.0001 they stand for. */
module TickAccuracy {
  import opened Bits
  import opened Rounding
  import opened TickMath
  import opened Word256

  // ----- The factors ----------------------------------------------------------------------------------


  /** The square root of 1 / 1.0001. */
  ghost predicate IsInverseRoot(r: real) { r > 0.0 && r * r * 1.0001 == 1.0 }

  /** r^(2^i), by squaring. */
  function Squared(r: real, i: nat): real {
    if i == 0 then r else Squared(r, i - 1) * Squared(r, i - 1)
  }

  /** r^(2^i) * 2^192, to the nearest unit. */
  function Fine(i: nat): real {
    match i
    case 0 => 6276787903837081514829396598204045630580073477104785039927.0
    case 1 => 6276474087977882975538235599647701645937761668297204792417.0
    case 2 => 6275846503327550220516183981249576688268934774819722820135.0
    case 3 => 6274591522277179561832021958537649572977843476346018852904.0
    case 4 => 6272082313001951044836785449776160496731871304309039820029.0
    case 5 => 6267066904348739216195255923761712854730933336302956688307.0
    case 6 => 6257048115401272697612148328659971512688831233024887618396.0
    case 7 => 6237058561236600351038219512792328282083500289158405225928.0
    case 8 => 6197270832332368720461642383463214993684154772451400567706.0
    case 9 => 6118455202464810974821409688218103339947731791676575210168.0
    case 10 => 5963818278351134172059245797052747480708924454314892861786.0
    case 11 => 5666170464736634851993488882073003136953485452467364313906.0
    case 12 => 5114699281431355796537114337396143115031927467752303214934.0
    case 13 => 4167552135087852783235469390455838697069644268186150720166.0
    case 14 => 2766960219994807849376719907793812327906143938008457108625.0
    case 15 => 1219682137039967511559029381836998852027973235289551580422.0
    case 16 => 236992258230898617319205069060041340648307296879556599858.0
    case 17 => 8947653364410708884414568062085377472852958613481882688.0
    case 18 => 12754373611361965129659252728497653434375631199247511.0
    case _ => 25915470718141139432135155849719857479676324299.0
  }

  /** How far from it that may be; squaring doubles an error. */
  function Slack(i: nat): real {
    match i
    case 0 => 2.0
    case 1 => 6.0
    case 2 => 14.0
    case 3 => 30.0
    case 4 => 62.0
    case 5 => 126.0
    case 6 => 254.0
    case 7 => 510.0
    case 8 => 1022.0
    case 9 => 2046.0
    case 10 => 4094.0
    case 11 => 8190.0
    case 12 => 16382.0
    case 13 => 32766.0
    case 14 => 65534.0
    case 15 => 131070.0
    case 16 => 262142.0
    case 17 => 524286.0
    case 18 => 1048574.0
    case _ => 2097150.0
  }

  const SCALE: real := 6277101735386680763835789423207666416102355444464034512896.0

  ghost predicate Brackets(x: real, i: nat) { Fine(i) - Slack(i) <= x * SCALE <= Fine(i) + Slack(i) }

  lemma SquareOrder(x: real, y: real)
    requires 0.0 <= x <= y
    ensures x * x <= y * y
  {
    assert x * x <= x * y;
    assert x * y <= y * y;
  }

  lemma FineFacts(i: nat)
    requires i < 19
    ensures var low, high := Fine(i) - Slack(i), Fine(i) + Slack(i);
      && 0.0 <= low
      && (Fine(i + 1) - Slack(i + 1)) * SCALE <= low * low
      && high * high <= (Fine(i + 1) + Slack(i + 1)) * SCALE
  {
  }

  lemma SquareBrackets(i: nat, x: real)
    requires i < 19 && 0.0 <= x && Brackets(x, i)
    ensures Brackets(x * x, i + 1)
  {
    FineFacts(i);
    var low, high, y := Fine(i) - Slack(i), Fine(i) + Slack(i), x * SCALE;
    hide Fine, Slack;
    SquareOrder(low, y);
    SquareOrder(y, high);
    assert y * y == x * x * SCALE * SCALE;
  }

  lemma FirstBrackets(r: real)
    requires IsInverseRoot(r)
    ensures Brackets(r, 0)
  {
    var low, high, y := Fine(0) - Slack(0), Fine(0) + Slack(0), r * SCALE;
    assert low * low * 1.0001 <= SCALE * SCALE <= high * high * 1.0001;
    assert y * y * 1.0001 == SCALE * SCALE by { assert y * y == r * r * (SCALE * SCALE); }
    hide Fine, Slack;
    if y < low { StrictSquareOrder(y, low); }
    if high < y { StrictSquareOrder(high, y); }
  }

  lemma StrictSquareOrder(x: real, y: real)
    requires 0.0 <= x < y
    ensures x * x < y * y
  {
    var gap := y - x;
    assert gap * y > 0.0;
    assert x * gap >= 0.0;
    assert y * y - x * x == gap * y + x * gap;
  }

  lemma {:induction false} SquaredBrackets(r: real, i: nat)
    requires IsInverseRoot(r) && i < 20
    ensures 0.0 <= Squared(r, i) && Brackets(Squared(r, i), i)
  {
    hide Brackets, Fine, Slack;
    if i == 0 {
      FirstBrackets(r);
    } else {
      SquaredBrackets(r, i - 1);
      var x := Squared(r, i - 1);
      SquareBrackets(i - 1, x);
      assert Squared(r, i) == x * x;
      SquareOrder(0.0, x);
    }
  }

  lemma MultiplierNearFine(i: nat)
    requires i < 20
    ensures var fine := (Multiplier(i) as real) * 18446744073709551616.0;
      -9223372036854775808.0 <= fine - Fine(i) - Slack(i) && fine - Fine(i) + Slack(i) <= 9223372036854775808.0
  {
  }

  /** The factor of bit i is 2^128 times 1.0001 to the power -2^i / 2, rounded to the nearest unit. */
  lemma MultiplierIsNearest(i: nat, r: real)
    requires i < 20 && IsInverseRoot(r)
    ensures -0.5 <= Multiplier(i) as real - Squared(r, i) * 340282366920938463463374607431768211456.0 <= 0.5
  {
    hide Multiplier, Fine, Slack;
    SquaredBrackets(r, i);
    MultiplierNearFine(i);
  }

  // ----- The folded product ---------------------------------------------------------------------------

  function RealPower(x: real, n: nat): real { if n == 0 then 1.0 else x * RealPower(x, n - 1) }

  lemma {:induction false} PowerOfSquare(x: real, n: nat)
    ensures RealPower(x * x, n) == RealPower(x, 2 * n)
    decreases n
  {
    if n > 0 {
      PowerOfSquare(x, n - 1);
      assert RealPower(x, 2 * n) == x * (x * RealPower(x, 2 * n - 2));
    }
  }

  lemma ScaleBound(a: real, bound: real, m: real, top: real)
    requires -bound <= a <= bound && 0.0 <= m <= top
    ensures -bound * top <= a * m <= bound * top
  {
    assert (a + bound) * m >= 0.0 && (bound - a) * m >= 0.0;
    assert bound * (top - m) >= 0.0;
  }

  lemma RealProduct(a: int, b: int)
    ensures (a * b) as real == a as real * b as real
  {
  }

  const UNIT: real := 340282366920938463463374607431768211456.0

  /** A ratio stands for a fraction of 2^128, up to an error in units. */
  ghost predicate Close(ratio: nat, fraction: real, error: real) {
    -error <= ratio as real - fraction * UNIT <= error
  }

  lemma Expand(x: real, m: real, fraction: real, exact: real, unit: real)
    ensures x * m == (x - fraction * unit) * m + fraction * (m - exact * unit) * unit + fraction * exact * unit * unit
  {
    var u := fraction * unit;
    assert (x - u) * m == x * m - u * m;
    var v := exact * unit;
    assert fraction * (m - v) == fraction * m - fraction * v;
    assert (fraction * m - fraction * v) * unit == fraction * m * unit - fraction * v * unit;
    assert u * m == fraction * m * unit;
    assert fraction * v == fraction * exact * unit;
  }

  /** A rounded-down product by a rounded factor is off by one and a half units more at most. */
  lemma ProductClose(ratio: nat, factor: nat, fraction: real, exact: real, part: real, error: real, more: real)
    requires Close(ratio, fraction, error) && 0.0 <= fraction <= 1.0 && factor <= TWO_128
    requires Close(factor, exact, 0.5) && part == fraction * exact && more == error + 1.5
    ensures Close(MulShift128(ratio, factor), part, more)
  {
    var next, x, m := MulShift128(ratio, factor), ratio as real, factor as real;
    MulShiftIsFloor(ratio, factor);
    RealProduct(ratio, factor);
    hide MulShift128;
    var all := x * m;
    ScaleBound(x - fraction * UNIT, error, m, UNIT);
    ScaleBound(m - exact * UNIT, 0.5, fraction, 1.0);
    Expand(x, m, fraction, exact, UNIT);
    var first, second := (x - fraction * UNIT) * m, fraction * (m - exact * UNIT);
    assert second == (m - exact * UNIT) * fraction;
    assert all == first + second * UNIT + part * UNIT * UNIT;
    assert next as real * UNIT <= all < (next as real + 1.0) * UNIT;
    Divided(next as real, first, second, part, error);
  }

  lemma Divided(next: real, first: real, second: real, target: real, error: real)
    requires -error * UNIT <= first <= error * UNIT && -0.5 <= second <= 0.5
    requires next * UNIT <= first + second * UNIT + target * UNIT * UNIT < (next + 1.0) * UNIT
    ensures -(error + 1.5) <= next - target * UNIT <= error + 1.5
  {
  }

  lemma {:induction false} SquaredAtMostOne(r: real, i: nat)
    requires IsInverseRoot(r)
    ensures 0.0 <= Squared(r, i) <= 1.0
  {
    if i == 0 {
      if r > 1.0 { StrictSquareOrder(1.0, r); }
    } else {
      SquaredAtMostOne(r, i - 1);
      SquareOrder(0.0, Squared(r, i - 1));
      SquareOrder(Squared(r, i - 1), 1.0);
    }
  }

  lemma MultiplierFits(i: nat)
    requires i < 20
    ensures Multiplier(i) <= TWO_128
  {
  }

  /** One bit more or less in an exponent. */
  lemma {:induction false} PowerHalves(q: real, n: nat, fraction: real)
    ensures (if n % 2 == 1 then fraction * q else fraction) * RealPower(q * q, n / 2) == fraction * RealPower(q, n)
  {
    PowerOfSquare(q, n / 2);
    var half := RealPower(q * q, n / 2);
    if n % 2 == 1 {
      assert RealPower(q, n) == q * half;
      assert fraction * q * half == fraction * (q * half);
    }
  }

  /** Every bit of the fold adds one and a half units of error at most. */
  lemma {:induction false} FoldIsClose(r: real, i: nat, bits: nat, ratio: nat, fraction: real, whole: real,
      error: real, allowed: real)
    requires IsInverseRoot(r) && i <= 20 && bits < Span(i)
    requires Close(ratio, fraction, error) && 0.0 <= fraction <= 1.0
    requires whole == fraction * RealPower(Squared(r, i), bits) && allowed == error + 1.5 * (20 - i) as real
    ensures Close(ApplyBits(i, bits, ratio), whole, allowed)
    decreases 20 - i
  {
    hide Multiplier, MulShift128, Close, IsInverseRoot, ApplyBits, RealPower;
    if i == 20 {
      NoBitsLeft(Squared(r, i), ratio);
    } else {
      var q := Squared(r, i);
      PowerHalves(q, bits, fraction);
      var next := if bits % 2 == 1 then MulShift128(ratio, Multiplier(i)) else ratio;
      var part := if bits % 2 == 1 then fraction * q else fraction;
      OneBit(i, bits, ratio, next);
      StepIsClose(i, r, bits % 2 == 1, ratio, next, fraction, part, error, error + 1.5);
      assert Squared(r, i + 1) == q * q;
      FoldIsClose(r, i + 1, bits / 2, next, part, whole, error + 1.5, allowed);
    }
  }

  lemma {:induction false} NoBitsLeft(q: real, ratio: nat)
    ensures ApplyBits(20, 0, ratio) == ratio && RealPower(q, 0) == 1.0
  {
  }

  lemma StepIsClose(i: nat, r: real, applied: bool, ratio: nat, next: nat, fraction: real, part: real,
      error: real, more: real)
    requires IsInverseRoot(r) && i < 20 && Close(ratio, fraction, error) && 0.0 <= fraction <= 1.0
    requires next == if applied then MulShift128(ratio, Multiplier(i)) else ratio
    requires part == if applied then fraction * Squared(r, i) else fraction
    requires more == error + 1.5
    ensures 0.0 <= part <= 1.0 && Close(next, part, more)
  {
    hide Multiplier, MulShift128, Close, IsInverseRoot, Squared;
    if applied {
      SquaredAtMostOne(r, i);
      MultiplierFits(i);
      MultiplierIsClose(i, r);
      ProductClose(ratio, Multiplier(i), fraction, Squared(r, i), part, error, more);
      UnitProduct(fraction, Squared(r, i));
    } else {
      Widen(ratio, fraction, error, more);
    }
  }

  lemma NonNegative(x: real, y: real)
    requires 0.0 <= x && 0.0 <= y
    ensures 0.0 <= x * y
  {
  }

  lemma UnitProduct(x: real, y: real)
    requires 0.0 <= x <= 1.0 && 0.0 <= y <= 1.0
    ensures 0.0 <= x * y <= 1.0
  {
    NonNegative(x, y);
    NonNegative(1.0 - x, y);
    assert (1.0 - x) * y == y - x * y;
  }

  lemma MultiplierIsClose(i: nat, r: real)
    requires i < 20 && IsInverseRoot(r)
    ensures Close(Multiplier(i), Squared(r, i), 0.5)
  {
    hide Multiplier;
    MultiplierIsNearest(i, r);
  }

  lemma Widen(ratio: nat, fraction: real, error: real, more: real)
    requires Close(ratio, fraction, error) && error <= more
    ensures Close(ratio, fraction, more)
  {
  }

  /** The inverse price of every tick is 2^128 times 1.0001 to the power -t / 2, up to thirty units. */
  lemma InverseRatioIsPower(r: real, absTick: nat)
    requires IsInverseRoot(r) && absTick < 0x10_0000
    ensures -30.0 <= InverseRatio(absTick) as real - RealPower(r, absTick) * UNIT <= 30.0
  {
    hide ApplyBits, IsInverseRoot, RealPower;
    SpanOfTicks();
    assert Squared(r, 0) == r;
    FoldIsClose(r, 0, absTick, TWO_128, 1.0, RealPower(r, absTick), 0.0, 30.0);
  }
}
