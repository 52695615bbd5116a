/** The integer square root by Newton's iteration. */
module IntegerSqrt {
  import opened Bits
  import opened FastPrice
  import opened Rounding
  import opened Word256

  /** The starting point, a power of two, lies above the root. */
  lemma {:induction false} StartAbove(n: nat)
    requires n > 0
    ensures n < Pow2(BitLength(n) / 2 + 1) * Pow2(BitLength(n) / 2 + 1)
  {
    var k := BitLength(n) / 2 + 1;
    BelowBitLength(n);
    Pow2Mono(BitLength(n), k + k);
    Pow2Add(k, k);
  }

  lemma {:induction false} BelowBitLength(n: nat)
    ensures n < Pow2(BitLength(n))
  {
    if n > 0 { BelowBitLength(n / 2); }
  }

  /** The starting point is not far above the root, so it fits the word. */
  lemma {:induction false} StartNear(n: nat)
    requires n > 0
    ensures Pow2(BitLength(n) / 2 + 1) * Pow2(BitLength(n) / 2 + 1) <= 8 * n
  {
    var k := BitLength(n) / 2 + 1;
    AboveBitLength(n);
    Pow2Mono(k + k, BitLength(n) + 2);
    Pow2Add(k, k);
  }

  lemma {:induction false} AboveBitLength(n: nat)
    requires n > 0
    ensures BitLength(n) > 0 && Pow2(BitLength(n)) <= 2 * n
  {
    if n > 1 { AboveBitLength(n / 2); }
  }

  /** A guess at or above the root whose square is at most eight times the number. */
  ghost predicate Near(n: nat, x: nat) { x > 0 && n < (x + 1) * (x + 1) && x * x <= 8 * n }

  ghost predicate IsRoot(n: nat, x: nat) { x * x <= n < (x + 1) * (x + 1) }

  /** The sum of a step from a near guess stays near any bound on the root. */
  lemma SumBelow(n: nat, x: nat, quotient: nat, root: nat)
    requires Near(n, x) && quotient * x <= n && n <= root * root
    ensures x <= 3 * root && x + quotient <= 6 * root + 3
  {
    if 3 * root < x {
      SquareMono(3 * root + 1, x);
      Spread(3 * root, 1, 3 * root + 1);
      Spread(3 * root, 1, 3 * root);
      Assoc(3, root, 3 * root);
      Assoc(3, root, root);
    }
    if x + 4 <= quotient {
      MulMono(x + 4, quotient, x);
      Spread(x, 4, x);
      Spread(x, 1, x + 1);
      Spread(x, 1, x);
    }
  }

  lemma StartIsNear(n: nat)
    requires n > 0
    ensures Near(n, Pow2(BitLength(n) / 2 + 1)) && Pow2(BitLength(n) / 2 + 1) > 0
  {
    hide BitLength, Pow2;
    StartAbove(n);
    StartNear(n);
    var start := Pow2(BitLength(n) / 2 + 1);
    SquareMono(start, start + 1);
  }

  lemma Square(d: int)
    ensures d * d >= 0
  {
  }

  /** Four times a product is at most the square of the sum. */
  lemma ProductBelowSquare(a: int, b: int)
    ensures 4 * (a * b) <= (a + b) * (a + b)
  {
    Square(a - b);
    Spread(a, b, a + b);
    Spread(a, b, a - b);
    Spread(a, b, a);
    Spread(a, b, b);
  }

  lemma SquareMono(a: int, b: int)
    requires 0 <= a <= b
    ensures a * a <= b * b
  {
    MulMono(a, b, a);
    MulMono(a, b, b);
  }

  lemma HalvesAbove(n: int, x: int, t: int, y: int)
    requires n < t * x && 0 <= x + t <= y + y
    ensures n < y * y
  {
    ProductBelowSquare(t, x);
    SquareMono(x + t, y + y);
    Spread(y, y, y);
    Spread(y, y, y + y);
  }

  /** A Newton step from any positive guess stays at or above the root. */
  lemma NewtonStaysAbove(n: nat, x: nat)
    requires x > 0
    ensures var y := (x + n / x) / 2; 0 <= y && n < (y + 1) * (y + 1)
  {
    var q := n / x;
    FloorAtLeast(n, x, 0);
    FloorBounds(n, x);
    HalvesAbove(n, x, q + 1, (x + q) / 2 + 1);
  }

  /** A guess that does not fall is at or below the root. */
  lemma NewtonStops(n: nat, x: nat)
    requires x > 0 && x <= (x + n / x) / 2
    ensures x * x <= n
  {
    FloorBounds(n, x);
    MulMono(x, n / x, x);
  }

  /** The next guess is positive as long as the number is. */
  lemma NewtonStaysPositive(n: nat, y: nat)
    requires 0 < n < (y + 1) * (y + 1)
    ensures y > 0
  {
  }

  /** A Newton step from a near guess stays above the root: a guess that falls stays near, and a guess
      that does not fall is the root. */
  lemma NearStep(n: nat, x: nat)
    requires 0 < n && x > 0 && Near(n, x)
    ensures var y := (x + n / x) / 2;
      && 0 <= y
      && (y < x ==> y > 0 && Near(n, y))
      && (x <= y ==> IsRoot(n, x))
  {
    NewtonStaysAbove(n, x);
    var y := (x + n / x) / 2;
    NewtonStaysPositive(n, y);
    if y < x {
      SquareMono(y, x);
    } else {
      NewtonStops(n, x);
    }
  }

  /** Newton's iteration from above: the guesses fall strictly until the floor of the root is reached,
      and no shift and no sum on the way leaves 512 bits. */
  method UintSqrt512(n: nat) returns (x: nat)
    requires n < TWO_512
    ensures IsRoot(n, x)
  {
    if n == 0 { return 0; }
    var bits := BitLength(n);
    StartIsNear(n);
    SumBelow(n, Pow2(bits / 2 + 1), 0, TWO_256);
    hide Pow2, BitLength, Wrap512, Near, IsRoot;
    WrapFits(Pow2(bits / 2 + 1));
    x := Wrap512(Pow2(bits / 2 + 1));
    NearStep(n, x);
    FloorBounds(n, x);
    SumBelow(n, x, n / x, TWO_256);
    WrapFits(x + n / x);
    var y := Wrap512(x + n / x) / 2;
    while y < x
      invariant Near(n, x) && x > 0 && y == (x + n / x) / 2
      decreases x
    {
      NearStep(n, x);
      x := y;
      NearStep(n, x);
      FloorBounds(n, x);
      SumBelow(n, x, n / x, TWO_256);
      WrapFits(x + n / x);
      y := Wrap512(x + n / x) / 2;
    }
    NearStep(n, x);
  }
}
