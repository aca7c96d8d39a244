/** Bytes and fixed-width big-endian words, the unit of the contract ABI. */
module Bytes {

  type Byte = b: int | 0 <= b < 256

  /** Bytes in one ABI word. */
  const WORD_SIZE: nat := 32

  /** 256 to the power n: the number of values that fit in n bytes. */
  function Pow256(n: nat): (r: nat)
    ensures r >= 1
  {
    if n == 0 then 1 else 256 * Pow256(n - 1)
  }

  /** 2^256: the smallest value that no longer fits a `uint256`. */
  const UINT256_BOUND: nat := Pow256(WORD_SIZE)

  function Zeros(n: nat): (r: seq<Byte>)
    ensures |r| == n && forall i :: 0 <= i < n ==> r[i] == 0
  {
    seq(n, _ => 0)
  }

  function AllOnes(n: nat): (r: seq<Byte>)
    ensures |r| == n && forall i :: 0 <= i < n ==> r[i] == 0xFF
  {
    seq(n, _ => 0xFF)
  }

  /** The `width` bytes, most significant first, whose base-256 value is x. */
  function ToBigEndian(x: nat, width: nat): (r: seq<Byte>)
    requires x < Pow256(width)
    ensures |r| == width
  {
    if width == 0 then []
    else
      assert x / 256 < Pow256(width - 1);
      ToBigEndian(x / 256, width - 1) + [x % 256]
  }

  /** The base-256 value of s read most significant byte first. */
  function FromBigEndian(s: seq<Byte>): (r: nat)
    ensures r < Pow256(|s|)
  {
    if s == [] then 0 else FromBigEndian(s[..|s| - 1]) * 256 + s[|s| - 1]
  }

  /** Reading a word back gives the integer that was written. */
  lemma {:induction false} FromToBigEndian(x: nat, width: nat)
    requires x < Pow256(width)
    ensures FromBigEndian(ToBigEndian(x, width)) == x
  {
    if width > 0 {
      var w := ToBigEndian(x, width);
      assert w[..width - 1] == ToBigEndian(x / 256, width - 1);
      FromToBigEndian(x / 256, width - 1);
    }
  }

  /** Every byte string of a given width is the word of its own value. */
  lemma {:induction false} ToFromBigEndian(s: seq<Byte>)
    ensures ToBigEndian(FromBigEndian(s), |s|) == s
  {
    if s != [] {
      var n := |s|;
      var v := FromBigEndian(s[..n - 1]);
      var x := FromBigEndian(s);
      assert x / 256 == v && x % 256 == s[n - 1];
      ToFromBigEndian(s[..n - 1]);
      assert s == s[..n - 1] + [s[n - 1]];
    }
  }

  /** Different integers of the same width give different words. */
  lemma ToBigEndianInjective(x: nat, y: nat, width: nat)
    requires x < Pow256(width) && y < Pow256(width)
    requires ToBigEndian(x, width) == ToBigEndian(y, width)
    ensures x == y
  {
    FromToBigEndian(x, width);
    FromToBigEndian(y, width);
  }

  /** Zero is written as all-zero bytes. */
  lemma {:induction false} ZeroWord(width: nat)
    ensures ToBigEndian(0, width) == Zeros(width)
  {
    if width > 0 {
      ZeroWord(width - 1);
    }
  }

  /** The largest value of a width is written as all-0xFF bytes. */
  lemma {:induction false} MaxWord(width: nat)
    ensures ToBigEndian(Pow256(width) - 1, width) == AllOnes(width)
  {
    if width > 0 {
      var p := Pow256(width - 1);
      assert (256 * p - 1) / 256 == p - 1 && (256 * p - 1) % 256 == 0xFF;
      MaxWord(width - 1);
    }
  }

  /** Widths add where bounds multiply. */
  lemma {:induction false} Pow256Add(a: nat, b: nat)
    ensures Pow256(a + b) == Pow256(a) * Pow256(b)
  {
    if a > 0 {
      Pow256Add(a - 1, b);
      assert Pow256(a + b) == 256 * (Pow256(a - 1) * Pow256(b));
    }
  }

  /** The ABI word bound is 2^256. */
  lemma Uint256Bound()
    ensures UINT256_BOUND == 0x1_0000000000000000_0000000000000000_0000000000000000_0000000000000000
  {
    assert Pow256(2) == 0x1_0000;
    Pow256Add(2, 2);
    Pow256Add(4, 4);
    Pow256Add(8, 8);
    Pow256Add(16, 16);
  }
}
