/** Big-endian byte strings and the words they spell. */
module Bytes {
  import opened Rounding

  type byte = x: int | 0 <= x < 256

  function Pow256(n: nat): (p: nat)
    ensures p > 0
  {
    if n == 0 then 1 else 256 * Pow256(n - 1)
  }

  /** The low len bytes of a number, most significant first. */
  function ToBytes(n: nat, len: nat): (s: seq<byte>)
    ensures |s| == len
  {
    if len == 0 then [] else ToBytes(n / 256, len - 1) + [n % 256]
  }

  function FromBytes(s: seq<byte>): nat {
    if s == [] then 0 else FromBytes(s[..|s| - 1]) * 256 + s[|s| - 1]
  }

  lemma {:induction false} FromBytesBelow(s: seq<byte>)
    ensures FromBytes(s) < Pow256(|s|)
    decreases |s|
  {
    if s != [] { FromBytesBelow(s[..|s| - 1]); }
  }

  lemma {:induction false} FromToBytes(n: nat, len: nat)
    requires n < Pow256(len)
    ensures FromBytes(ToBytes(n, len)) == n
    decreases len
  {
    if len > 0 {
      FromToBytes(n / 256, len - 1);
      assert ToBytes(n, len)[..len - 1] == ToBytes(n / 256, len - 1);
    }
  }

  lemma {:induction false} FromBytesConcat(high: seq<byte>, low: seq<byte>)
    ensures FromBytes(high + low) == FromBytes(high) * Pow256(|low|) + FromBytes(low)
    decreases |low|
  {
    if low == [] {
      assert high + low == high;
    } else {
      var init := low[..|low| - 1];
      assert (high + low)[..|high + low| - 1] == high + init;
      FromBytesConcat(high, init);
      Assoc(FromBytes(high), Pow256(|init|), 256);
    }
  }

  /** Dropping the low bytes of a number drops the end of its string. */
  lemma {:induction false} HighBytes(s: seq<byte>, k: nat)
    requires k <= |s|
    ensures FromBytes(s) / Pow256(|s| - k) == FromBytes(s[..k])
  {
    var high, low := s[..k], s[k..];
    assert s == high + low;
    FromBytesConcat(high, low);
    FromBytesBelow(low);
    Spread(FromBytes(high), 1, Pow256(|low|));
    FloorIs(FromBytes(s), Pow256(|low|), FromBytes(high));
  }

  lemma {:induction false} ByteOf(s: seq<byte>, i: nat)
    requires i < |s|
    ensures FromBytes(s) / Pow256(|s| - 1 - i) % 256 == s[i]
  {
    HighBytes(s, i + 1);
    assert s[..i + 1][..i] == s[..i];
  }

  lemma {:induction false} Pow256Add(m: nat, n: nat)
    ensures Pow256(m + n) == Pow256(m) * Pow256(n)
    decreases m
  {
    if m > 0 {
      Pow256Add(m - 1, n);
      Assoc(256, Pow256(m - 1), Pow256(n));
    }
  }

  lemma Pow256Four()
    ensures Pow256(4) == 0x1_0000_0000
  {
  }

  /** The sizes of an address, of half a word, and of a word. */
  lemma WordSizes()
    ensures Pow256(12) == 0x1_0000_0000_0000_0000_0000_0000
    ensures Pow256(20) == 0x1_0000_0000_0000_0000_0000_0000_0000_0000_0000_0000
    ensures Pow256(32) == 0x1_0000_0000_0000_0000_0000_0000_0000_0000_0000_0000_0000_0000_0000_0000_0000_0000
  {
    hide Pow256;
    Pow256Four();
    Pow256Add(4, 4);
    Pow256Add(8, 4);
    Pow256Add(8, 8);
    Pow256Add(16, 4);
    Pow256Add(16, 16);
  }

  /** Byte i of a number's string, counted from the most significant, is that digit to base 256. */
  lemma ToBytesDigit(n: nat, len: nat, i: nat)
    requires n < Pow256(len) && i < len
    ensures ToBytes(n, len)[i] == n / Pow256(len - 1 - i) % 256
  {
    hide ToBytes, FromBytes, Pow256;
    FromToBytes(n, len);
    ByteOf(ToBytes(n, len), i);
  }
}
