/** Machine words seen as sets of bits: the operators the code applies to its bitmaps, and what each
    of them does to every single bit. */
module Bits {
  import opened Rounding

  function Pow2(n: nat): (p: nat)
    ensures p > 0
  {
    if n == 0 then 1 else 2 * Pow2(n - 1)
  }

  /** Bit i of a word. */
  predicate Bit(word: nat, i: nat) {
    if i == 0 then word % 2 == 1 else Bit(word / 2, i - 1)
  }

  function And(x: nat, y: nat): nat {
    if x == 0 || y == 0 then 0 else (x % 2) * (y % 2) + 2 * And(x / 2, y / 2)
  }

  function Or(x: nat, y: nat): nat
    decreases x + y
  {
    if x == 0 then y else if y == 0 then x
    else (if x % 2 == 1 || y % 2 == 1 then 1 else 0) + 2 * Or(x / 2, y / 2)
  }

  /** Bitwise complement of a word of the given width. */
  function Complement(width: nat, x: nat): nat
    requires x < Pow2(width)
  {
    Pow2(width) - 1 - x
  }

  function BitLength(x: nat): nat { if x == 0 then 0 else 1 + BitLength(x / 2) }

  function TrailingZeros(x: nat): nat
    requires x > 0
  {
    if x % 2 == 1 then 0 else 1 + TrailingZeros(x / 2)
  }

  lemma {:induction false} ZeroBit(i: nat)
    ensures !Bit(0, i)
  {
    if i > 0 { ZeroBit(i - 1); }
  }

  lemma {:induction false} AndBit(x: nat, y: nat, i: nat)
    ensures Bit(And(x, y), i) <==> Bit(x, i) && Bit(y, i)
    decreases i
  {
    ZeroBit(i);
    if x != 0 && y != 0 {
      var low, high := (x % 2) * (y % 2), And(x / 2, y / 2);
      assert 0 <= low <= 1;
      assert (low + 2 * high) / 2 == high && (low + 2 * high) % 2 == low;
      if i > 0 { AndBit(x / 2, y / 2, i - 1); }
    }
  }

  lemma {:induction false} OrBit(x: nat, y: nat, i: nat)
    ensures Bit(Or(x, y), i) <==> Bit(x, i) || Bit(y, i)
    decreases i
  {
    ZeroBit(i);
    if x != 0 && y != 0 && i > 0 { OrBit(x / 2, y / 2, i - 1); }
  }

  lemma {:induction false} OrBelow(x: nat, y: nat, width: nat)
    requires x < Pow2(width) && y < Pow2(width)
    ensures Or(x, y) < Pow2(width)
    decreases width
  {
    if x != 0 && y != 0 { OrBelow(x / 2, y / 2, width - 1); }
  }

  lemma {:induction false} ComplementBit(width: nat, x: nat, i: nat)
    requires x < Pow2(width)
    ensures Bit(Complement(width, x), i) <==> i < width && !Bit(x, i)
    decreases width
  {
    if width == 0 {
      ZeroBit(i);
    } else if i > 0 {
      assert Complement(width, x) / 2 == Complement(width - 1, x / 2);
      ComplementBit(width - 1, x / 2, i - 1);
    }
  }

  lemma {:induction false} SingleBit(n: nat, i: nat)
    ensures Bit(Pow2(n), i) <==> i == n
    decreases n
  {
    if n == 0 {
      if i > 0 { ZeroBit(i - 1); }
    } else if i > 0 {
      SingleBit(n - 1, i - 1);
    }
  }

  /** Bit i is the i-th binary digit. */
  lemma {:induction false} BitIsDigit(word: nat, i: nat)
    ensures Bit(word, i) <==> word / Pow2(i) % 2 == 1
    decreases i
  {
    if i > 0 {
      BitIsDigit(word / 2, i - 1);
      var d := Pow2(i - 1);
      HalfThenDivide(word, d);
    }
  }

  lemma HalfThenDivide(n: nat, d: nat)
    requires d > 0
    ensures n / 2 / d == n / (2 * d)
  {
    var q := n / 2 / d;
    FloorBounds(n / 2, d);
    Assoc(q, d, 2);
    Assoc(q + 1, d, 2);
    FloorIs(n, 2 * d, q);
  }

  lemma {:induction false} LowBits(n: nat, i: nat)
    ensures Bit(Pow2(n) - 1, i) <==> i < n
    decreases n
  {
    if n == 0 {
      ZeroBit(i);
    } else if i > 0 {
      assert (Pow2(n) - 1) / 2 == Pow2(n - 1) - 1;
      LowBits(n - 1, i - 1);
    }
  }

  lemma {:induction false} Pow2Mono(m: nat, n: nat)
    requires m <= n
    ensures Pow2(m) <= Pow2(n)
  {
    if m < n { Pow2Mono(m, n - 1); }
  }

  lemma {:induction false} BitsBelowWidth(word: nat, width: nat, i: nat)
    requires word < Pow2(width) && Bit(word, i)
    ensures i < width
    decreases i
  {
    if width == 0 {
      ZeroBit(i);
    } else if i > 0 {
      BitsBelowWidth(word / 2, width - 1, i - 1);
    }
  }

  /** Words with the same bits are the same word. */
  lemma {:induction false} SameBits(x: nat, y: nat)
    requires forall i: nat :: Bit(x, i) <==> Bit(y, i)
    ensures x == y
    decreases x + y
  {
    if x != 0 || y != 0 {
      assert Bit(x, 0) <==> Bit(y, 0);
      forall i: nat ensures Bit(x / 2, i) <==> Bit(y / 2, i) {
        assert Bit(x, i + 1) <==> Bit(y, i + 1);
      }
      SameBits(x / 2, y / 2);
    }
  }

  /** The highest set bit of a non-zero word. */
  lemma {:induction false} HighestBit(x: nat)
    requires x > 0
    ensures BitLength(x) > 0 && Bit(x, BitLength(x) - 1)
    ensures forall i :: BitLength(x) <= i ==> !Bit(x, i)
  {
    if x / 2 > 0 { HighestBit(x / 2); }
    forall i | BitLength(x) <= i ensures !Bit(x, i) {
      if x / 2 == 0 {
        ZeroBit(i - 1);
      } else {
        assert !Bit(x / 2, i - 1);
      }
    }
  }

  /** The lowest set bit of a non-zero word. */
  lemma {:induction false} LowestBit(x: nat)
    requires x > 0
    ensures Bit(x, TrailingZeros(x))
    ensures forall i :: 0 <= i < TrailingZeros(x) ==> !Bit(x, i)
  {
    if x % 2 == 0 {
      LowestBit(x / 2);
      forall i | 0 <= i < TrailingZeros(x) ensures !Bit(x, i) {
        if i > 0 { assert !Bit(x / 2, i - 1); }
      }
    }
  }

  lemma {:induction false} Pow2Add(m: nat, n: nat)
    ensures Pow2(m + n) == Pow2(m) * Pow2(n)
    decreases m
  {
    if m > 0 { Pow2Add(m - 1, n); }
  }

  lemma EightBits()
    ensures Pow2(8) == 0x100
  {
  }

  /** The powers that bound the two word widths in use. */
  lemma WordWidths()
    ensures Pow2(64) == 0x1_0000_0000_0000_0000
    ensures Pow2(256) == 0x1_0000_0000_0000_0000_0000_0000_0000_0000_0000_0000_0000_0000_0000_0000_0000_0000
  {
    hide Pow2;
    EightBits();
    Pow2Add(8, 8);
    Pow2Add(16, 16);
    Pow2Add(32, 32);
    Pow2Add(64, 64);
    Pow2Add(128, 128);
  }
}
