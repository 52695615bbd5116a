/** Bitmap words of initialized ticks and the search for the next one within a word. */
module TickBitmap {
  import opened Bits
  import opened Rounding
  import opened Word256

  type Bitmap = map<int, u256>

  /** Signed division that truncates toward zero. */
  function TruncatedQuotient(n: int, d: int): int
    requires d > 0
  {
    if n < 0 then -(-n / d) else n / d
  }

  function TruncatedRemainder(n: int, d: int): int
    requires d > 0
  {
    n - TruncatedQuotient(n, d) * d
  }

  function ToI16(n: int): int { (n + 0x8000) % 0x1_0000 - 0x8000 }

  /** The word of a compressed tick and the bit within that word. */
  function Position(compressed: int): (int, nat) { (ToI16(compressed / 256), compressed % 256) }

  function Word(bitmap: Bitmap, wordPos: int): u256 {
    if wordPos in bitmap then bitmap[wordPos] else 0
  }

  function Compress(tick: int, spacing: int): int
    requires spacing > 0
  {
    var quotient := TruncatedQuotient(tick, spacing);
    if tick < 0 && TruncatedRemainder(tick, spacing) != 0 then quotient - 1 else quotient
  }

  function MostSignificantBit(x: nat): nat { if x == 0 then 0 else BitLength(x) - 1 }

  /** A mask of the bits up to and including bitPos. */
  function MaskUpTo(bitPos: nat): nat { Pow2(bitPos) - 1 + Pow2(bitPos) }

  /** The search of the word at or below a compressed tick; the flag says whether a set bit was found. */
  function SearchDown(compressed: int, bitmap: Bitmap): (int, bool) {
    var (wordPos, bitPos) := Position(compressed);
    var masked := And(Word(bitmap, wordPos), MaskUpTo(bitPos));
    if masked != 0 then (compressed - (bitPos - MostSignificantBit(masked)), true)
    else (compressed - bitPos, false)
  }

  /** The search of the word at or above a compressed tick. */
  function SearchUp(compressed: int, bitmap: Bitmap): (int, bool) {
    var (wordPos, bitPos) := Position(compressed);
    LowMaskFits(bitPos);
    var masked := And(Word(bitmap, wordPos), Complement(256, Pow2(bitPos) - 1));
    if masked != 0 then (compressed + (TrailingZeros(masked) - bitPos), true)
    else (compressed + (255 - bitPos), false)
  }

  /** The next initialized tick at or below the given one (lte) or above it, looking at one word only;
      the word edge with false when the word has none. */
  function NextInitializedTick(tick: int, spacing: int, lte: bool, bitmap: Bitmap): (int, bool)
    requires spacing > 0
  {
    var compressed := Compress(tick, spacing);
    var (found, initialized) := if lte then SearchDown(compressed, bitmap) else SearchUp(compressed + 1, bitmap);
    (found * spacing, initialized)
  }

  lemma {:induction false} LowMaskFits(bitPos: nat)
    requires bitPos < 256
    ensures Pow2(bitPos) - 1 < Pow2(256)
  {
    Pow2Mono(bitPos, 256);
  }

  // ----- Meaning ----------------------------------------------------------------------------------

  /** The bit of a compressed tick: 256 of them to a word, words numbered by the floor of the quotient. */
  predicate Marked(compressed: int, bitmap: Bitmap) { Bit(Word(bitmap, compressed / 256), compressed % 256) }

  /** Bit b of word w stands for compressed tick 256 w + b, whatever the sign of w; a missing word is zero. */
  lemma MarkedIffBit(wordPos: int, bitPos: nat, bitmap: Bitmap)
    requires bitPos < 256
    ensures Marked(256 * wordPos + bitPos, bitmap)
      <==> wordPos in bitmap && bitmap[wordPos] / Pow2(bitPos) % 2 == 1
  {
    hide Pow2, Bit;
    if wordPos in bitmap { BitIsDigit(bitmap[wordPos], bitPos); } else { ZeroBit(bitPos); }
  }

  /** Setting bit b of word w initializes that compressed tick and no other. */
  lemma SettingMarksOne(wordPos: int, bitPos: nat, bitmap: Bitmap, word: u256, compressed: int)
    requires bitPos < 256 && word == Or(Word(bitmap, wordPos), Pow2(bitPos))
    ensures Marked(compressed, bitmap[wordPos := word])
      <==> Marked(compressed, bitmap) || compressed == 256 * wordPos + bitPos
  {
    hide Pow2, Bit, Or;
    if compressed / 256 == wordPos {
      OrBit(Word(bitmap, wordPos), Pow2(bitPos), compressed % 256);
      SingleBit(bitPos, compressed % 256);
    }
  }

  /** A tick is initialized when it is a multiple of the spacing whose bit is set. */
  predicate Initialized(tick: int, spacing: int, bitmap: Bitmap)
    requires spacing > 0
  {
    tick % spacing == 0 && Marked(tick / spacing, bitmap)
  }

  /** Compressed ticks whose word number fits 16 bits, so that no two words share a number. */
  predicate InWordRange(compressed: int) { -0x80_0000 <= compressed < 0x80_0000 }

  lemma CompressIsFloor(tick: int, spacing: int)
    requires spacing > 0
    ensures Compress(tick, spacing) == tick / spacing
  {
    if tick < 0 {
      var q := -tick / spacing;
      var r := -tick % spacing;
      assert tick == -q * spacing - r;
      if r == 0 {
        FloorIs(tick, spacing, -q);
      } else {
        assert tick == (-q - 1) * spacing + (spacing - r);
        FloorIs(tick, spacing, -q - 1);
      }
    }
  }

  /** The code finds a compressed tick in its own word while word numbers fit 16 bits. */
  lemma PositionInRange(compressed: int)
    requires InWordRange(compressed)
    ensures Position(compressed) == (compressed / 256, compressed % 256)
  {
  }

  /** Within one word, the search at or below finds the nearest set bit, or the low edge. */
  lemma SearchDownInWord(compressed: int, bitmap: Bitmap)
    requires InWordRange(compressed)
    ensures var (found, initialized) := SearchDown(compressed, bitmap);
      && compressed - compressed % 256 <= found <= compressed
      && (!initialized ==> found % 256 == 0)
      && (initialized <==> Marked(found, bitmap))
      && forall c :: found < c <= compressed ==> !Marked(c, bitmap)
  {
    PositionInRange(compressed);
    var (wordPos, bitPos) := Position(compressed);
    var word := Word(bitmap, wordPos);
    var mask := MaskUpTo(bitPos);
    var masked := And(word, mask);
    hide And, MaskUpTo, Bit, BitLength;
    forall c | compressed - bitPos <= c <= compressed
      ensures c / 256 == wordPos && c % 256 == c - (compressed - bitPos)
      ensures Marked(c, bitmap) <==> Bit(masked, c - (compressed - bitPos))
    {
      MaskedBelow(word, bitPos, c - (compressed - bitPos));
    }
    if masked != 0 {
      HighestBit(masked);
      MaskedBelow(word, bitPos, BitLength(masked) - 1);
    } else {
      forall i: nat ensures !Bit(masked, i) { ZeroBit(i); }
    }
  }

  lemma {:induction false} MaskedBelow(word: nat, bitPos: nat, i: nat)
    ensures Bit(And(word, MaskUpTo(bitPos)), i) <==> Bit(word, i) && i <= bitPos
  {
    hide And, Bit;
    assert MaskUpTo(bitPos) == Pow2(bitPos + 1) - 1;
    AndBit(word, MaskUpTo(bitPos), i);
    LowBits(bitPos + 1, i);
  }

  /** Within one word, the search above finds the nearest set bit, or the high edge. */
  lemma SearchUpInWord(compressed: int, bitmap: Bitmap)
    requires InWordRange(compressed)
    ensures var (found, initialized) := SearchUp(compressed, bitmap);
      && compressed <= found <= compressed - compressed % 256 + 255
      && (!initialized ==> found % 256 == 255)
      && (initialized <==> Marked(found, bitmap))
      && forall c :: compressed <= c < found ==> !Marked(c, bitmap)
  {
    PositionInRange(compressed);
    var (wordPos, bitPos) := Position(compressed);
    hide And, Bit, TrailingZeros;
    LowMaskFits(bitPos);
    WordWidths();
    var word := Word(bitmap, wordPos);
    var mask := Complement(256, Pow2(bitPos) - 1);
    var masked := And(word, mask);
    forall c | compressed <= c <= compressed + (255 - bitPos)
      ensures c / 256 == wordPos && c % 256 == c - (compressed - bitPos)
      ensures Marked(c, bitmap) <==> Bit(masked, c - (compressed - bitPos))
    {
      MaskedAbove(word, bitPos, c - (compressed - bitPos));
    }
    if masked != 0 {
      LowestBit(masked);
      var low := TrailingZeros(masked);
      MaskedAbove(word, bitPos, low);
      BitsBelowWidth(word, 256, low);
    } else {
      forall i: nat ensures !Bit(masked, i) { ZeroBit(i); }
    }
  }

  lemma {:induction false} MaskedAbove(word: nat, bitPos: nat, i: nat)
    requires bitPos < 256
    requires Pow2(bitPos) - 1 < Pow2(256)
    ensures Bit(And(word, Complement(256, Pow2(bitPos) - 1)), i) <==> Bit(word, i) && bitPos <= i < 256
  {
    hide And, Bit, Complement, Pow2;
    AndBit(word, Complement(256, Pow2(bitPos) - 1), i);
    ComplementBit(256, Pow2(bitPos) - 1, i);
    LowBits(bitPos, i);
  }

  lemma Multiple(c: int, spacing: int)
    requires spacing > 0
    ensures (c * spacing) / spacing == c && (c * spacing) % spacing == 0
  {
    FloorIs(c * spacing, spacing, c);
  }

  lemma MultipleOrder(c: int, tick: int, spacing: int)
    requires spacing > 0
    ensures c * spacing <= tick <==> c <= tick / spacing
  {
    FloorBounds(tick, spacing);
    var q := tick / spacing;
    if c <= q {
      MulMono(c, q, spacing);
    } else {
      MulMono(q + 1, c, spacing);
    }
  }

  /** The one-word search, both ways: it finds the nearest initialized tick on its side of the word or
      stops at the word edge, skips none, and its flag tells exactly whether the result is initialized. */
  lemma NextInitializedTickIsNearest(tick: int, spacing: int, bitmap: Bitmap)
    requires spacing > 0 && InWordRange(tick / spacing) && InWordRange(tick / spacing + 1)
    ensures var (next, initialized) := NextInitializedTick(tick, spacing, true, bitmap);
      && next <= tick < next + 256 * spacing
      && (initialized <==> Initialized(next, spacing, bitmap))
      && (!initialized ==> next % spacing == 0 && next / spacing % 256 == 0)
      && forall t :: next < t <= tick ==> !Initialized(t, spacing, bitmap)
    ensures var (next, initialized) := NextInitializedTick(tick, spacing, false, bitmap);
      && tick < next <= tick + 256 * spacing
      && (initialized <==> Initialized(next, spacing, bitmap))
      && (!initialized ==> next % spacing == 0 && next / spacing % 256 == 255)
      && forall t :: tick < t < next ==> !Initialized(t, spacing, bitmap)
  {
    NearestBelow(tick, spacing, bitmap);
    NearestAbove(tick, spacing, bitmap);
  }

  lemma NearestBelow(tick: int, spacing: int, bitmap: Bitmap)
    requires spacing > 0 && InWordRange(tick / spacing)
    ensures var (next, initialized) := NextInitializedTick(tick, spacing, true, bitmap);
      && next <= tick < next + 256 * spacing
      && (initialized <==> Initialized(next, spacing, bitmap))
      && (!initialized ==> next % spacing == 0 && next / spacing % 256 == 0)
      && forall t :: next < t <= tick ==> !Initialized(t, spacing, bitmap)
  {
    hide SearchDown, Marked, Compress;
    CompressIsFloor(tick, spacing);
    var compressed := tick / spacing;
    SearchDownInWord(compressed, bitmap);
    var (found, _) := SearchDown(compressed, bitmap);
    Multiple(found, spacing);
    MultipleOrder(found, tick, spacing);
    MultipleOrder(found + 256, tick, spacing);
    assert (found + 256) * spacing == found * spacing + 256 * spacing;
    forall t | found * spacing < t <= tick && t % spacing == 0 ensures !Marked(t / spacing, bitmap) {
      var c := t / spacing;
      assert c * spacing == t;
      MultipleOrder(c, tick, spacing);
      MultipleOrder(c, found * spacing, spacing);
    }
  }

  lemma NearestAbove(tick: int, spacing: int, bitmap: Bitmap)
    requires spacing > 0 && InWordRange(tick / spacing + 1)
    ensures var (next, initialized) := NextInitializedTick(tick, spacing, false, bitmap);
      && tick < next <= tick + 256 * spacing
      && (initialized <==> Initialized(next, spacing, bitmap))
      && (!initialized ==> next % spacing == 0 && next / spacing % 256 == 255)
      && forall t :: tick < t < next ==> !Initialized(t, spacing, bitmap)
  {
    hide SearchUp, Marked, Compress;
    CompressIsFloor(tick, spacing);
    var compressed := tick / spacing + 1;
    SearchUpInWord(compressed, bitmap);
    var (found, _) := SearchUp(compressed, bitmap);
    Multiple(found, spacing);
    MultipleOrder(found, tick, spacing);
    MultipleOrder(found - 256, tick, spacing);
    assert (found - 256) * spacing == found * spacing - 256 * spacing;
    forall t | tick < t < found * spacing && t % spacing == 0 ensures !Marked(t / spacing, bitmap) {
      var c := t / spacing;
      assert c * spacing == t;
      MultipleOrder(c, tick, spacing);
      MultipleOrder(found, t, spacing);
    }
  }

  lemma EdgeAfter(compressed: int, edge: int)
    requires compressed <= edge && edge % 256 == 255
    ensures compressed - compressed % 256 + 255 <= edge
  {
  }

  /** The search above never passes a word edge that lies above the tick. */
  lemma NextWithinEdge(tick: int, spacing: int, bitmap: Bitmap, edge: int)
    requires spacing > 0 && InWordRange(tick / spacing + 1)
    requires edge % 256 == 255 && tick < edge * spacing
    ensures NextInitializedTick(tick, spacing, false, bitmap).0 <= edge * spacing
  {
    hide SearchUp, Compress, Marked;
    CompressIsFloor(tick, spacing);
    var compressed := tick / spacing + 1;
    SearchUpInWord(compressed, bitmap);
    MultipleOrder(edge, tick, spacing);
    EdgeAfter(compressed, edge);
    MulMono(SearchUp(compressed, bitmap).0, edge, spacing);
  }

  // ----- Repeated searches across words -----------------------------------------------------------

  ghost predicate SearchRange(low: int, high: int, spacing: int) {
    spacing > 0 && InWordRange(low / spacing) && InWordRange(high / spacing + 1)
  }

  lemma SearchRangeCovers(low: int, tick: int, high: int, spacing: int)
    requires SearchRange(low, high, spacing) && low <= tick <= high
    ensures InWordRange(tick / spacing) && InWordRange(tick / spacing + 1)
  {
    FloorBounds(low, spacing);
    FloorAtLeast(tick, spacing, low / spacing);
    FloorBounds(tick, spacing);
    FloorAtLeast(high, spacing, tick / spacing);
  }

  /** The search at or below, repeated from below each uninitialized word edge; some initialized tick
      lies on the way, so the sweep ends. */
  ghost function SweepDown(tick: int, spacing: int, bitmap: Bitmap, some: int): int
    requires SearchRange(some, tick, spacing) && some <= tick && Initialized(some, spacing, bitmap)
    decreases tick - some
  {
    SearchRangeCovers(some, tick, tick, spacing);
    NearestBelow(tick, spacing, bitmap);
    var (next, initialized) := NextInitializedTick(tick, spacing, true, bitmap);
    if initialized then next
    else
      SearchRangeCovers(some, next - 1, tick, spacing);
      SweepDown(next - 1, spacing, bitmap, some)
  }

  ghost function SweepUp(tick: int, spacing: int, bitmap: Bitmap, some: int): int
    requires SearchRange(tick, some, spacing) && tick < some && Initialized(some, spacing, bitmap)
    decreases some - tick
  {
    SearchRangeCovers(tick, tick, some, spacing);
    NearestAbove(tick, spacing, bitmap);
    var (next, initialized) := NextInitializedTick(tick, spacing, false, bitmap);
    if initialized then next
    else
      SearchRangeCovers(tick, next, some, spacing);
      SweepUp(next, spacing, bitmap, some)
  }

  /** Repeated downward searches reach the greatest initialized tick at or below the start. */
  lemma {:induction false} SweepDownIsGlobal(tick: int, spacing: int, bitmap: Bitmap, some: int)
    requires SearchRange(some, tick, spacing) && some <= tick && Initialized(some, spacing, bitmap)
    ensures var found := SweepDown(tick, spacing, bitmap, some);
      && some <= found <= tick && Initialized(found, spacing, bitmap)
      && forall t :: found < t <= tick ==> !Initialized(t, spacing, bitmap)
    decreases tick - some
  {
    hide NextInitializedTick, Initialized;
    SearchRangeCovers(some, tick, tick, spacing);
    NearestBelow(tick, spacing, bitmap);
    var (next, initialized) := NextInitializedTick(tick, spacing, true, bitmap);
    if !initialized {
      SearchRangeCovers(some, next - 1, tick, spacing);
      SweepDownIsGlobal(next - 1, spacing, bitmap, some);
    }
  }

  /** Repeated upward searches reach the least initialized tick above the start. */
  lemma {:induction false} SweepUpIsGlobal(tick: int, spacing: int, bitmap: Bitmap, some: int)
    requires SearchRange(tick, some, spacing) && tick < some && Initialized(some, spacing, bitmap)
    ensures var found := SweepUp(tick, spacing, bitmap, some);
      && tick < found <= some && Initialized(found, spacing, bitmap)
      && forall t :: tick < t < found ==> !Initialized(t, spacing, bitmap)
    decreases some - tick
  {
    hide NextInitializedTick, Initialized;
    SearchRangeCovers(tick, tick, some, spacing);
    NearestAbove(tick, spacing, bitmap);
    var (next, initialized) := NextInitializedTick(tick, spacing, false, bitmap);
    if !initialized {
      SearchRangeCovers(tick, next, some, spacing);
      SweepUpIsGlobal(next, spacing, bitmap, some);
    }
  }

  /** One search: tick 266 is bit 10 of word 1, and from tick 300 it is the next one down. */
  lemma SearchFromTick300()
    ensures NextInitializedTick(300, 1, true, map[1 := 1024]) == (266, true)
  {
    hide NextInitializedTick, Marked, Pow2;
    var bitmap: Bitmap := map[1 := 1024];
    NearestBelow(300, 1, bitmap);
    Pow2OfTen();
    MarkedIffBit(1, 10, bitmap);
    var (next, initialized) := NextInitializedTick(300, 1, true, bitmap);
    assert Initialized(266, 1, bitmap);
    assert initialized && 266 <= next <= 300;
    MarkedIffBit(1, next - 256, bitmap);
    BitIsDigit(1024, next - 256);
    SingleBit(10, next - 256);
    hide Bit;
  }

  lemma Pow2OfTen()
    ensures Pow2(10) == 1024
  {
  }
}
