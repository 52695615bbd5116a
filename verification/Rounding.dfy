/** Floor and ceiling division, characterised by the products that bound them.

    FloorDiv is the built-in quotient (FloorBounds), defined by repeated subtraction: formulas that carry the
    quotient of a product then stay out of the solver's theory of nonlinear division, and proofs use only the
    bounds below. Word256.Wrap and FastPrice.Wrap512 are remainders defined the same way for the same reason.
    The built-in operators appear where the code divides by a constant, and in the lemmas on quotients below,
    whose second ensures says that FloorDiv is the same number. */
module Rounding {
  /** The quotient of two numbers: how often the divisor can be taken away. */
  function FloorDiv(n: nat, d: nat): nat
    requires d > 0
  {
    if n < d then 0 else 1 + FloorDiv(n - d, d)
  }

  function CeilDiv(n: nat, d: nat): nat
    requires d > 0
  {
    FloorDiv(n + d - 1, d)
  }

  lemma MulMono(a: int, b: int, c: int)
    requires a <= b && 0 <= c
    ensures a * c <= b * c && c * a <= c * b
  {
  }

  lemma MulMonoStrict(a: int, b: int, c: int)
    requires a < b && 0 < c
    ensures a * c < b * c && c * a < c * b
  {
  }

  lemma Assoc(a: int, b: int, c: int)
    ensures a * b * c == a * (b * c)
  {
  }

  lemma SwapFactors(a: int, b: int, c: int)
    ensures a * b * c == a * c * b
  {
    Assoc(a, b, c);
    Assoc(a, c, b);
  }

  lemma Spread(a: int, b: int, c: int)
    ensures (a - b) * c == a * c - b * c == c * (a - b)
    ensures (a + b) * c == a * c + b * c == c * (a + b)
  {
  }

  /** A factor times two of three others, times the third. */
  lemma Regroup(x: int, a: int, b: int, c: int)
    ensures x * (a * b) * c == x * (a * b * c)
    ensures x * (a * c) * b == x * (a * b * c)
    ensures x * (b * c) * a == x * (a * b * c)
  {
    Assoc(x, a * b, c);
    Assoc(x, a * c, b);
    Assoc(x, b * c, a);
    Assoc(a, b, c);
    Assoc(a, c, b);
  }

  /** The smaller factor of two products with the same other factor. */
  lemma CancelLess(a: int, b: int, c: int)
    requires 0 <= c && a * c < b * c
    ensures a < b
  {
    if b <= a { MulMono(b, a, c); }
  }

  lemma CancelLeq(a: int, b: int, c: int)
    requires 0 < c && a * c <= b * c
    ensures a <= b
  {
    if b < a { MulMonoStrict(b, a, c); }
  }

  lemma {:induction false} FloorDivBounds(n: nat, d: nat)
    requires d > 0
    ensures FloorDiv(n, d) * d <= n < (FloorDiv(n, d) + 1) * d
    decreases n
  {
    if d <= n {
      FloorDivBounds(n - d, d);
      Spread(FloorDiv(n - d, d), 1, d);
      Spread(FloorDiv(n - d, d) + 1, 1, d);
    }
  }

  lemma EuclidBounds(n: int, d: int)
    requires d > 0
    ensures (n / d) * d <= n < (n / d + 1) * d
  {
    var q, r := n / d, n % d;
    assert n == q * d + r;
  }

  lemma SameQuotient(n: int, d: int, p: int, q: int)
    requires d > 0 && p * d <= n < (p + 1) * d && q * d <= n < (q + 1) * d
    ensures p == q
  {
    CancelLess(p, q + 1, d);
    CancelLess(q, p + 1, d);
  }

  /** The built-in quotient is the same number. */
  lemma {:induction false} FloorBounds(n: int, d: int)
    requires d > 0
    ensures (n / d) * d <= n < (n / d + 1) * d
    ensures n >= 0 ==> FloorDiv(n, d) == n / d
  {
    EuclidBounds(n, d);
    if n >= 0 {
      FloorDivBounds(n, d);
      SameQuotient(n, d, FloorDiv(n, d), n / d);
    }
  }

  lemma {:induction false} FloorAtLeast(n: int, d: int, q: int)
    requires d > 0 && q * d <= n
    ensures q <= n / d
    ensures n >= 0 ==> FloorDiv(n, d) == n / d
  {
    FloorBounds(n, d);
    CancelLess(q, n / d + 1, d);
  }

  lemma {:induction false} FloorBelow(n: int, d: int, q: int)
    requires d > 0 && n < q * d
    ensures n / d < q
    ensures n >= 0 ==> FloorDiv(n, d) == n / d
  {
    FloorBounds(n, d);
    CancelLess(n / d, q, d);
  }

  lemma {:induction false} FloorIs(n: int, d: int, q: int)
    requires d > 0 && q * d <= n < (q + 1) * d
    ensures n / d == q
    ensures n >= 0 ==> FloorDiv(n, d) == n / d
  {
    FloorAtLeast(n, d, q);
    FloorBelow(n, d, q + 1);
  }

  lemma {:induction false} FloorMono(m: nat, n: nat, d: nat)
    requires d > 0 && m <= n
    ensures FloorDiv(m, d) <= FloorDiv(n, d)
  {
    FloorBounds(m, d);
    FloorAtLeast(n, d, m / d);
  }

  lemma CeilBounds(n: nat, d: nat)
    requires d > 0
    ensures n <= CeilDiv(n, d) * d < n + d
  {
    FloorDivBounds(n + d - 1, d);
    Spread(CeilDiv(n, d), 1, d);
  }

  lemma CeilAtMost(n: nat, d: nat, q: int)
    requires d > 0 && n <= q * d
    ensures CeilDiv(n, d) <= q
  {
    CeilBounds(n, d);
    Spread(CeilDiv(n, d), 1, d);
    CancelLess(CeilDiv(n, d) - 1, q, d);
  }

  lemma CeilAbove(n: nat, d: nat, q: int)
    requires d > 0 && q * d < n
    ensures q < CeilDiv(n, d)
  {
    CeilBounds(n, d);
    CancelLess(q, CeilDiv(n, d), d);
  }

  lemma BelowCeil(n: nat, d: nat, q: int)
    requires d > 0 && q < CeilDiv(n, d)
    ensures q * d < n
  {
    CeilBounds(n, d);
    MulMono(q + 1, CeilDiv(n, d), d);
    Spread(q, 1, d);
  }

  lemma CeilIs(n: nat, d: nat, q: int)
    requires d > 0 && n <= q * d < n + d
    ensures CeilDiv(n, d) == q
  {
    CeilAtMost(n, d, q);
    Spread(q, 1, d);
    CeilAbove(n, d, q - 1);
  }

  /** Dividing twice with floors is dividing once by the product. */
  lemma {:induction false} NestedFloor(n: nat, a: nat, b: nat)
    requires a > 0 && b > 0
    ensures a * b > 0 && FloorDiv(FloorDiv(n, a), b) == FloorDiv(n, a * b)
  {
    hide FloorDiv;
    MulMono(1, a, b);
    var q := n / a;
    var r := q / b;
    FloorBounds(n, a);
    FloorBounds(q, b);
    MulMono(r * b, q, a);
    MulMono(q + 1, (r + 1) * b, a);
    Assoc(r, b, a);
    Assoc(r + 1, b, a);
    FloorIs(n, a * b, r);
  }

  /** Dividing twice with ceilings is dividing once by the product. */
  lemma NestedCeil(n: nat, a: nat, b: nat)
    requires a > 0 && b > 0
    ensures a * b > 0 && CeilDiv(CeilDiv(n, a), b) == CeilDiv(n, a * b)
  {
    MulMono(1, a, b);
    var q: int := CeilDiv(n, a);
    var r: int := CeilDiv(q, b);
    CeilBounds(n, a);
    CeilBounds(q, b);
    hide CeilDiv;
    MulMono(q, r * b, a);
    Assoc(r, b, a);
    CeilAtMost(n, a * b, r);
    // one less is not enough: (r - 1) * b <= q - 1, and (q - 1) * a < n
    Spread(r, 1, b);
    MulMono((r - 1) * b, q - 1, a);
    Spread(q, 1, a);
    Assoc(r - 1, b, a);
    CeilAbove(n, a * b, r - 1);
  }
}
