/** Unsigned machine words as the pricing code uses them: 256-bit values whose operators wrap,
    and 512-bit intermediates that are clamped when they are brought back to 256 bits. */
module Word256 {
  import opened Rounding

  const TWO_96: nat := 0x1_0000_0000_0000_0000_0000_0000
  const TWO_128: nat := 0x1_0000_0000_0000_0000_0000_0000_0000_0000
  const TWO_160: nat := 0x1_0000_0000_0000_0000_0000_0000_0000_0000_0000_0000
  const TWO_256: nat := 0x1_0000_0000_0000_0000_0000_0000_0000_0000_0000_0000_0000_0000_0000_0000_0000_0000

  type i128 = x: int | -0x8000_0000_0000_0000_0000_0000_0000_0000 <= x < 0x8000_0000_0000_0000_0000_0000_0000_0000

  type u256 = x: int | 0 <= x < TWO_256

  datatype Option<+T> = None | Some(value: T) {
    function GetOr(default: T): T {
      match this
      case Some(v) => v
      case None => default
    }
  }

  /** A result reduced to the 256 bits of the word: whole multiples of 2^256 drop out. */
  function Wrap(v: nat): (w: u256)
    ensures v < TWO_256 ==> w == v
    ensures TWO_256 <= v ==> w <= v - TWO_256
  {
    if v < TWO_256 then v else Wrap(v - TWO_256)
  }

  lemma {:induction false} WrapIsRemainder(v: nat)
    ensures Wrap(v) == v % TWO_256
    decreases v
  {
    if TWO_256 <= v { WrapIsRemainder(v - TWO_256); }
  }

  function WrapAdd(a: u256, b: u256): u256 { Wrap(a + b) }

  function WrapMul(a: u256, b: u256): u256 { Wrap(a * b) }

  /** A left shift by 96 bits drops whatever leaves the word. */
  function ShiftLeft96(a: u256): u256 { Wrap(a * TWO_96) }

  function WordDiv(a: u256, b: u256): u256
    requires b > 0
  {
    WordDivFits(a, b);
    a / b
  }

  lemma WordDivFits(a: u256, b: u256)
    requires b > 0
    ensures 0 <= a / b <= a
  {
    FloorAtLeast(a, b, 0);
    MulMono(1, b, a + 1);
    FloorBelow(a, b, a + 1);
  }

  function SaturatingSub(a: u256, b: u256): u256 { if a < b then 0 else a - b }

  function SaturatingAdd(a: u256, b: u256): u256 { Clamp(a + b) }

  /** A 512-bit value brought back to 256 bits: clamped to the largest word. */
  function Clamp(v: nat): u256 { if v < TWO_256 then v else TWO_256 - 1 }
}
