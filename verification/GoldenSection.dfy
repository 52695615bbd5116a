/** Golden-section search with reused evaluations and a golden ratio rounded to fifteen digits. */
module GoldenSection {
  import opened Rounding
  import opened Word256

  const PHI_NUM: nat := 618033988749895
  const PHI_DEN: nat := 1000000000000000
  const TOLERANCE: nat := 100_000_000_000
  const MAX_ITERATIONS: nat := 40

  type Objective = int -> int

  /** The interval, its two probes, and the remembered values at the probes. */
  datatype Bracket = Bracket(a: int, b: int, c: int, d: int, fc: int, fd: int) {
    function Width(): int { b - a }
  }

  /** The golden part of a width, rounded down. */
  function Part(width: int): int { width * PHI_NUM / PHI_DEN }

  function Start(low: int, high: int, f: Objective): Bracket {
    var c := high - Part(high - low);
    var d := low + Part(high - low);
    Bracket(low, high, c, d, f(c), f(d))
  }

  /** One iteration: the interval loses an end, one probe is reused and the other is new. */
  function Narrow(s: Bracket, f: Objective): Bracket {
    if s.fc > s.fd then
      var c := s.d - Part(s.d - s.a);
      Bracket(s.a, s.d, c, s.c, f(c), s.fc)
    else
      var d := s.c + Part(s.b - s.c);
      Bracket(s.c, s.b, s.d, d, s.fd, f(d))
  }

  /** The bracket after k iterations. */
  function After(k: nat, low: int, high: int, f: Objective): Bracket {
    if k == 0 then Start(low, high, f) else Narrow(After(k - 1, low, high, f), f)
  }

  /** Every one of the first k iterations is entered with a width of at least the tolerance. */
  ghost predicate Entered(k: nat, low: int, high: int, f: Objective) {
    forall j :: 0 <= j < k ==> After(j, low, high, f).Width() >= TOLERANCE
  }

  // ----- Rounding error of the reused probe -------------------------------------------------------

  /** How much of the error is proportional to the width after n iterations; it grows with the inverse
      of the shrinking width. */
  function Growth(n: nat): nat {
    if n == 0 then 0 else (Growth(n - 1) + 1) * 162 / 100 + 1
  }

  /** The distance of a probe from its golden place, in units of 10^-15, is within the given bound. */
  ghost predicate Near(offset: int, width: int, bound: int) {
    -bound <= offset * 1000000000000000 - width * 618033988749895 <= bound
  }

  /** Of the two probes one is freshly rounded; the other may be off by more. */
  ghost predicate PairNear(u: int, v: int, width: int, loose: int) {
    || (Near(u, width, 1000000000000000) && Near(v, width, loose))
    || (Near(v, width, 1000000000000000) && Near(u, width, loose))
  }

  function Loose(n: nat, width: int): int { (n + 1) * 1000000000000000 + Growth(n) * width }

  /** After n iterations the right probe, seen from the left end, and the left probe, seen from the
      right end, are near the golden part of the width. */
  ghost predicate Placed(s: Bracket, n: nat) {
    s.b - s.a >= 0 && PairNear(s.d - s.a, s.b - s.c, s.b - s.a, Loose(n, s.b - s.a))
  }

  lemma PartNear(width: int)
    ensures Near(Part(width), width, 1000000000000000)
  {
  }

  /** The reused probe misses the golden part of the new width by the two errors of the old probes and
      by what the rounding of the ratio itself contributes. */
  lemma ReusedNear(w: int, u: int, v: int, loose: int)
    requires 0 <= w && 1000000000000000 <= loose && PairNear(u, v, w, loose)
    ensures Near(w - v, u, loose + 1000000000000000 + w)
    ensures Near(w - u, v, loose + 1000000000000000 + w)
  {
  }

  lemma {:induction false} OneIteration(n: nat)
    ensures 162 * (Growth(n) + 1) <= 100 * Growth(n + 1) <= 162 * (Growth(n) + 1) + 100
  {
  }

  lemma {:induction false} GrowthMonotone(m: nat, n: nat)
    requires m <= n
    ensures Growth(m) <= Growth(n)
  {
    if m < n {
      OneIteration(n - 1);
      GrowthMonotone(m, n - 1);
    }
  }

  lemma {:induction false} TenIterations(n: nat)
    ensures Growth(n + 10) <= 125 * Growth(n) + 600
  {
    hide Growth;
    OneIteration(n);
    OneIteration(n + 1);
    OneIteration(n + 2);
    OneIteration(n + 3);
    OneIteration(n + 4);
    OneIteration(n + 5);
    OneIteration(n + 6);
    OneIteration(n + 7);
    OneIteration(n + 8);
    OneIteration(n + 9);
  }

  lemma NoGrowth()
    ensures Growth(0) == 0
  {
  }

  /** Forty iterations are few enough. */
  lemma {:induction false} GrowthBound(n: nat)
    requires n <= MAX_ITERATIONS
    ensures Growth(n) <= 2_000_000_000
  {
    hide Growth;
    NoGrowth();
    TenIterations(0);
    TenIterations(10);
    TenIterations(20);
    TenIterations(30);
    GrowthMonotone(n, 40);
  }

  /** At widths that matter, the loose bound is a ten-thousandth of the width. */
  lemma LooseIsSmall(n: nat, w: int)
    requires n <= MAX_ITERATIONS && w >= 60_000_000_000
    ensures 1000000000000000 <= Loose(n, w) <= w * 100000000000
  {
    GrowthBound(n);
    MulMono(Growth(n), 2_000_000_000, w);
    MulMono(0, Growth(n), w);
  }

  lemma LooseGrows(n: nat, w: int, next: int)
    requires 0 <= w && 100 * w <= 162 * next
    ensures Loose(n, w) + 1000000000000000 + w <= Loose(n + 1, next)
  {
    hide Growth;
    var g, g' := Growth(n), Growth(n + 1);
    OneIteration(n);
    MulMono(162 * (g + 1), 100 * g', next);
    MulMono(100 * w, 162 * next, g + 1);
    Assoc(100, g', next);
    Spread(g, 1, w);
  }

  // ----- What an iteration keeps ------------------------------------------------------------------

  /** At widths that matter, placed probes are strictly ordered inside the interval, and either part of
      it is between 0.617 and 0.62 of the width. */
  lemma PlacedOrders(s: Bracket, n: nat)
    requires Placed(s, n) && n <= MAX_ITERATIONS && s.Width() >= 60_000_000_000
    ensures s.a < s.c < s.d < s.b
    ensures 617 * s.Width() <= 1000 * (s.d - s.a) <= 619 * s.Width()
    ensures 617 * s.Width() <= 1000 * (s.b - s.c) <= 619 * s.Width()
  {
    hide Loose;
    LooseIsSmall(n, s.Width());
  }

  lemma StartPlaced(low: int, high: int, f: Objective)
    requires low <= high
    ensures Placed(Start(low, high, f), 0)
  {
    hide Part;
    PartNear(high - low);
    NoGrowth();
  }

  lemma NarrowPlaced(s: Bracket, n: nat, f: Objective)
    requires Placed(s, n) && n < MAX_ITERATIONS && s.Width() >= TOLERANCE
    ensures Placed(Narrow(s, f), n + 1)
  {
    hide Part, Loose, Near;
    var w, u, v := s.b - s.a, s.d - s.a, s.b - s.c;
    PlacedOrders(s, n);
    LooseIsSmall(n, w);
    ReusedNear(w, u, v, Loose(n, w));
    LooseGrows(n, w, u);
    LooseGrows(n, w, v);
    NearWidens(w - v, u, Loose(n, w) + 1000000000000000 + w, Loose(n + 1, u));
    NearWidens(w - u, v, Loose(n, w) + 1000000000000000 + w, Loose(n + 1, v));
    PartNear(u);
    PartNear(v);
  }

  lemma NearWidens(offset: int, width: int, bound: int, wider: int)
    requires Near(offset, width, bound) && bound <= wider
    ensures Near(offset, width, wider)
  {
  }

  // ----- Whole searches -----------------------------------------------------------------------------

  function Power(base: nat, k: nat): nat { if k == 0 then 1 else base * Power(base, k - 1) }

  /** Strictly rising up to the peak, strictly falling after it. */
  ghost predicate Unimodal(f: Objective, low: int, high: int, peak: int) {
    && low <= peak <= high
    && (forall x, y :: low <= x < y <= peak ==> f(x) < f(y))
    && (forall x, y :: peak <= x < y <= high ==> f(x) > f(y))
  }

  /** The peak lies in the kept part, because the probes are distinct. */
  lemma NarrowKeepsPeak(s: Bracket, f: Objective, low: int, high: int, peak: int)
    requires Unimodal(f, low, high, peak) && low <= s.a <= peak <= s.b <= high
    requires s.a <= s.c < s.d <= s.b && s.fc == f(s.c) && s.fd == f(s.d)
    ensures Narrow(s, f).a <= peak <= Narrow(s, f).b
  {
    assert s.d <= peak ==> f(s.c) < f(s.d);
    assert peak <= s.c ==> f(s.c) > f(s.d);
  }

  /** Every iteration of every search: the remembered values stay those of the probes, the interval only
      shrinks, by at least 0.62 each time, the probes stay strictly ordered inside it, and the peak of a
      strictly unimodal objective never leaves it. */
  lemma {:induction false} SearchKeeps(k: nat, low: int, high: int, f: Objective)
    requires low <= high && high - low >= TOLERANCE && k <= MAX_ITERATIONS && Entered(k, low, high, f)
    ensures var s := After(k, low, high, f);
      && Placed(s, k)
      && low <= s.a < s.c < s.d < s.b <= high
      && s.fc == f(s.c) && s.fd == f(s.d)
      && s.Width() >= 60_000_000_000
      && s.Width() * Power(100, k) <= (high - low) * Power(62, k)
      && forall peak :: Unimodal(f, low, high, peak) ==> s.a <= peak <= s.b
  {
    hide Placed, Part, Unimodal;
    if k == 0 {
      StartPlaced(low, high, f);
      PlacedOrders(Start(low, high, f), 0);
      forall peak | Unimodal(f, low, high, peak) ensures low <= peak <= high { PeakInside(f, low, high, peak); }
    } else {
      SearchKeeps(k - 1, low, high, f);
      assert After(k - 1, low, high, f).Width() >= TOLERANCE;
      NarrowKeeps(After(k - 1, low, high, f), k - 1, low, high, f);
    }
  }

  /** One iteration keeps all of it. */
  lemma {:induction false} NarrowKeeps(before: Bracket, k: nat, low: int, high: int, f: Objective)
    requires low <= high && k < MAX_ITERATIONS && before.Width() >= TOLERANCE
    requires Placed(before, k) && low <= before.a < before.c < before.d < before.b <= high
    requires before.fc == f(before.c) && before.fd == f(before.d)
    requires before.Width() * Power(100, k) <= (high - low) * Power(62, k)
    requires forall peak :: Unimodal(f, low, high, peak) ==> before.a <= peak <= before.b
    ensures var s := Narrow(before, f);
      && Placed(s, k + 1)
      && low <= s.a < s.c < s.d < s.b <= high
      && s.fc == f(s.c) && s.fd == f(s.d)
      && s.Width() >= 60_000_000_000
      && s.Width() * Power(100, k + 1) <= (high - low) * Power(62, k + 1)
      && forall peak :: Unimodal(f, low, high, peak) ==> s.a <= peak <= s.b
  {
    hide Placed, Part, Unimodal, Power;
    var s := Narrow(before, f);
    NarrowPlaced(before, k, f);
    PlacedOrders(before, k);
    PlacedOrders(s, k + 1);
    ShrinkOnce(s.Width(), before.Width(), high - low, k);
    forall peak | Unimodal(f, low, high, peak) ensures s.a <= peak <= s.b {
      NarrowKeepsPeak(before, f, low, high, peak);
    }
  }

  lemma PeakInside(f: Objective, low: int, high: int, peak: int)
    requires Unimodal(f, low, high, peak)
    ensures low <= peak <= high
  {
  }

  lemma {:induction false} ShrinkOnce(w: int, before: int, first: int, k: nat)
    requires 0 <= w && 100 * w <= 62 * before
    requires before * Power(100, k) <= first * Power(62, k)
    ensures w * Power(100, k + 1) <= first * Power(62, k + 1)
  {
    var p, q := Power(100, k), Power(62, k);
    PowerPositive(100, k);
    MulMono(100 * w, 62 * before, p);
    Assoc(w, 100, p);
    Assoc(62, before, p);
    Assoc(first, 62, q);
    Assoc(62, first, q);
  }

  lemma {:induction false} PowerPositive(base: nat, k: nat)
    requires base > 0
    ensures Power(base, k) > 0
  {
    if k > 0 { PowerPositive(base, k - 1); }
  }

  lemma EnteredMeansWide(k: nat, low: int, high: int, f: Objective)
    requires k > 0 && Entered(k, low, high, f)
    ensures high - low >= TOLERANCE
  {
    assert After(0, low, high, f).Width() >= TOLERANCE;
  }

  /** Entering one more iteration. */
  lemma {:induction false} EnterOnce(k: nat, low: int, high: int, f: Objective)
    requires low <= high && k < MAX_ITERATIONS && Entered(k, low, high, f)
    requires After(k, low, high, f).Width() >= TOLERANCE
    ensures Entered(k + 1, low, high, f)
    ensures var s := After(k, low, high, f);
      && low <= s.a < s.c < s.d < s.b <= high
      && After(k + 1, low, high, f) ==
        if s.fc > s.fd then
          Bracket(s.a, s.d, s.d - Part(s.d - s.a), s.c, f(s.d - Part(s.d - s.a)), s.fc)
        else
          Bracket(s.c, s.b, s.d, s.c + Part(s.b - s.c), s.fd, f(s.c + Part(s.b - s.c)))
  {
    hide Placed, Power, Unimodal, Part;
    if k > 0 { EnteredMeansWide(k, low, high, f); }
    SearchKeeps(k, low, high, f);
  }

  /** The search stops after k iterations: the fortieth, or as soon as the width is below 10^11. */
  ghost predicate Stops(k: nat, low: int, high: int, f: Objective) {
    && k <= 40 && (forall j :: 0 <= j < k ==> After(j, low, high, f).Width() >= 100_000_000_000)
    && (k == 40 || After(k, low, high, f).Width() < 100_000_000_000)
  }

  /** At the end the interval is below the tolerance or has shrunk to at most 0.62^40 of the start, and
      the middle is within half of it of the peak of a strictly unimodal objective. */
  lemma {:induction false} SearchEndsNearPeak(k: nat, low: int, high: int, f: Objective, peak: int)
    requires low <= high && Stops(k, low, high, f) && Unimodal(f, low, high, peak)
    ensures var s := After(k, low, high, f);
      && s.a <= peak <= s.b
      && (s.Width() < 100_000_000_000 || s.Width() * Power(100, 40) <= (high - low) * Power(62, 40))
      && -s.Width() - 1 <= 2 * ((s.a + s.b) / 2 - peak) <= s.Width()
  {
    hide Unimodal, Power;
    PeakInside(f, low, high, peak);
    if k > 0 {
      EnteredMeansWide(k, low, high, f);
      SearchKeeps(k, low, high, f);
    }
  }

  /** No product of the search leaves its word. */
  lemma PartOfWord(width: u256, widest: int)
    requires width <= widest && widest * PHI_NUM < TWO_256
    ensures WordDiv(WrapMul(width, PHI_NUM), PHI_DEN) == Part(width) <= width
  {
  }

  lemma HalfOfSum(a: u256, b: u256)
    requires a + b < TWO_256
    ensures WordDiv(WrapAdd(a, b), 2) == (a + b) / 2
  {
  }

  lemma {:induction false} StartIsFirst(low: int, high: int, f: Objective)
    ensures Entered(0, low, high, f)
    ensures After(0, low, high, f) ==
      Bracket(low, high, high - Part(high - low), low + Part(high - low),
        f(high - Part(high - low)), f(low + Part(high - low)))
  {
    hide Part;
  }

  /** An answer near the peak: no further from it than half a width that is below 10^11 or at most 0.62^40
      of the range. */
  ghost predicate NearPeak(input: int, peak: int, range: int) {
    exists width: nat :: Within(input, peak, width, range)
  }

  ghost predicate Within(input: int, peak: int, width: nat, range: int) {
    && (width < 100_000_000_000 || width * Power(100, 40) <= range * Power(62, 40))
    && 0 - width - 1 <= 2 * (input - peak) <= width
  }

  lemma {:induction false} MiddleIsNearPeak(k: nat, low: int, high: int, f: Objective, peak: int)
    requires low <= high && Stops(k, low, high, f) && Unimodal(f, low, high, peak)
    ensures var s := After(k, low, high, f); NearPeak((s.a + s.b) / 2, peak, high - low)
  {
    hide Unimodal, Power, After, Stops;
    SearchEndsNearPeak(k, low, high, f, peak);
    var s := After(k, low, high, f);
    assert Within((s.a + s.b) / 2, peak, s.Width(), high - low);
  }

  lemma {:induction false} StopsHere(k: nat, low: int, high: int, f: Objective)
    requires k <= 40 && Entered(k, low, high, f) && (k == 40 || After(k, low, high, f).Width() < TOLERANCE)
    ensures Stops(k, low, high, f)
  {
    hide After;
  }

  /** The middle of the last interval and its value, if that is positive, and two zeros otherwise. A
      positive answer is near the peak of any strictly unimodal objective. */
  method FindOptimalInput(minIn: u256, maxIn: u256, f: Objective) returns (input: int, profit: int)
    requires minIn <= maxIn && (maxIn - minIn) * PHI_NUM < TWO_256 && maxIn + maxIn < TWO_256
    ensures exists k: nat ::
      && Stops(k, minIn, maxIn, f)
      && var s := After(k, minIn, maxIn, f);
        if f((s.a + s.b) / 2) <= 0 then input == 0 && profit == 0
        else input == (s.a + s.b) / 2 && profit == f(input) && profit > 0
    ensures profit > 0 ==> forall peak :: Unimodal(f, minIn, maxIn, peak) ==> NearPeak(input, peak, maxIn - minIn)
  {
    hide WordDiv, WrapMul, WrapAdd, Part, After, Entered;
    StartIsFirst(minIn, maxIn, f);
    ghost var widest := maxIn - minIn;
    var a, b := minIn, maxIn;
    PartOfWord(b - a, widest);
    var c := b - WordDiv(WrapMul(b - a, PHI_NUM), PHI_DEN);
    var d := a + WordDiv(WrapMul(b - a, PHI_NUM), PHI_DEN);
    var fc, fd := f(c), f(d);
    ghost var k := 0;
    for i := 0 to 40
      invariant k == i && Entered(k, minIn, maxIn, f)
      invariant minIn <= a <= b <= maxIn
      invariant Bracket(a, b, c, d, fc, fd) == After(k, minIn, maxIn, f)
    {
      if b - a < TOLERANCE { break; }
      EnterOnce(k, minIn, maxIn, f);
      if fc > fd {
        b := d;
        d := c;
        fd := fc;
        PartOfWord(b - a, widest);
        c := b - WordDiv(WrapMul(b - a, PHI_NUM), PHI_DEN);
        fc := f(c);
      } else {
        a := c;
        c := d;
        fc := fd;
        PartOfWord(b - a, widest);
        d := a + WordDiv(WrapMul(b - a, PHI_NUM), PHI_DEN);
        fd := f(d);
      }
      k := k + 1;
    }
    StopsHere(k, minIn, maxIn, f);
    hide Stops, Unimodal;
    forall peak | Unimodal(f, minIn, maxIn, peak) ensures NearPeak((a + b) / 2, peak, maxIn - minIn) {
      MiddleIsNearPeak(k, minIn, maxIn, f, peak);
    }
    HalfOfSum(a, b);
    var optimalInput := WordDiv(WrapAdd(a, b), 2);
    var maxProfit := f(optimalInput);
    if maxProfit <= 0 {
      input, profit := 0, 0;
    } else {
      input, profit := optimalInput, maxProfit;
    }
    assert Stops(k, minIn, maxIn, f);
  }
}
