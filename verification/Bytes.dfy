/** Big-endian words of 32 bytes. */
module Bytes {
  import opened Common

  type Byte = b: nat | b < 256

  function Pow256(n: nat): (r: nat)
    ensures r >= 1
  {
    if n == 0 then 1 else 256 * Pow256(n - 1)
  }

  /** `FillBytes`: the last `n` base-256 digits. */
  function BigEndian(v: nat, n: nat): (s: seq<Byte>)
    ensures |s| == n
  {
    if n == 0 then [] else BigEndian(v / 256, n - 1) + [v % 256]
  }

  /** `SetBytes`. */
  function ToNat(s: seq<Byte>): nat {
    if s == [] then 0 else 256 * ToNat(s[..|s| - 1]) + s[|s| - 1]
  }

  /** The bytes of a number below 256^n read back as the number. */
  lemma {:induction false} BigEndianReads(v: nat, n: nat)
    requires v < Pow256(n)
    ensures ToNat(BigEndian(v, n)) == v
  {
    if n > 0 {
      BigEndianReads(v / 256, n - 1);
      var s := BigEndian(v, n);
      assert s[..n - 1] == BigEndian(v / 256, n - 1);
    }
  }

  /** The most significant digit comes first. */
  lemma {:induction false} BigEndianDigit(v: nat, n: nat, k: nat)
    requires k < n
    ensures BigEndian(v, n)[k] == v / Pow256(n - 1 - k) % 256
  {
    if k < n - 1 {
      BigEndianDigit(v / 256, n - 1, k);
      DivDiv(v, 256, Pow256(n - 2 - k));
    } else {
      assert Pow256(0) == 1;
    }
  }

  type Uint256 = v: nat | v < Pow256(32) witness (assert Pow256(32) >= 1; 0)
  type Address = s: seq<Byte> | |s| == 20 witness seq(20, i => 0)
  type Bytes32 = s: seq<Byte> | |s| == 32 witness seq(32, i => 0)

  function Word(v: nat): (s: seq<Byte>)
    ensures |s| == 32
  {
    BigEndian(v, 32)
  }

  lemma WordReads(v: nat)
    requires v < Pow256(32)
    ensures ToNat(Word(v)) == v
  {
    BigEndianReads(v, 32);
  }

  lemma WordInjective(u: nat, v: nat)
    requires u < Pow256(32) && v < Pow256(32) && Word(u) == Word(v)
    ensures u == v
  {
    WordReads(u);
    WordReads(v);
  }

  /** 64-bit values are far below the limit of a word. */
  lemma {:induction false} SmallFits(n: nat)
    requires n >= 8
    ensures 0x1_0000_0000_0000_0000 <= Pow256(n)
    ensures n > 8 ==> 256 * 0x1_0000_0000_0000_0000 <= Pow256(n)
    decreases n
  {
    if n > 8 {
      SmallFits(n - 1);
    } else {
      assert Pow256(2) == 65536 by { assert Pow256(0) == 1; assert Pow256(1) == 256; }
      assert Pow256(4) == 65536 * Pow256(2) by { assert Pow256(3) == 256 * Pow256(2); }
      assert Pow256(6) == 65536 * Pow256(4) by { assert Pow256(5) == 256 * Pow256(4); }
      assert Pow256(8) == 65536 * Pow256(6) by { assert Pow256(7) == 256 * Pow256(6); }
    }
  }

  // ---- cutting ends off a concatenation -------------------------------------------------------

  lemma SameTail<T>(a: seq<T>, x: seq<T>, b: seq<T>, y: seq<T>)
    requires |x| == |y|
    ensures a + x == b + y <==> a == b && x == y
  {
    if a + x == b + y {
      assert |a| == |b|;
      assert a == (a + x)[..|a|] && b == (b + y)[..|b|];
      assert x == (a + x)[|a|..] && y == (b + y)[|b|..];
    }
  }

  function Zeros(n: nat): (s: seq<Byte>)
    ensures |s| == n
  {
    seq(n, i => 0)
  }
}
