/** Octets bit by bit, and what an exclusive or does to each bit. */
module Bits {
  import opened ByteStrings

  /** The `k`-th binary digit, the lowest being the 0-th. */
  function Bit(v: nat, k: nat): nat {
    if k == 0 then v % 2 else Bit(v / 2, k - 1)
  }

  /** Every bit of `z` is the sum modulo 2 of the bits of `x` and `y`. */
  ghost predicate IsXorByte(z: byte, x: byte, y: byte) {
    forall k: nat :: k < 8 ==> Bit(z, k) == (Bit(x, k) + Bit(y, k)) % 2
  }

  ghost predicate IsXor(z: seq<byte>, x: seq<byte>, y: seq<byte>) {
    |z| == |x| == |y| && forall i :: 0 <= i < |z| ==> IsXorByte(z[i], x[i], y[i])
  }

  // ----- machine octets -----

  lemma FromInt(x: byte)
    ensures (x as bv8) as int == x
  {
    var y := (x as bv8) as int;
    assert y < 256;
    assert (y - x) % 256 == 0;
  }

  lemma ToInt(v: bv8, x: byte)
    requires v as int == x
    ensures v == x as bv8
  {
  }

  lemma LowBit(v: bv8)
    ensures (v as int) % 2 == (v & 1) as int
    ensures v & 1 <= 1
  {
  }

  lemma Half(v: bv8)
    ensures (v as int) / 2 == (v >> 1) as int
  {
  }

  lemma HalfOfInt(x: byte)
    ensures (x as bv8) >> 1 == (x / 2) as bv8
  {
    Half(x as bv8);
    FromInt(x);
    ToInt((x as bv8) >> 1, x / 2);
  }

  lemma XorParts(a: bv8, b: bv8)
    ensures (a ^ b) & 1 == (a & 1) ^ (b & 1)
    ensures (a ^ b) >> 1 == (a >> 1) ^ (b >> 1)
  {
  }

  lemma XorOfBits(a: bv8, b: bv8)
    requires a <= 1 && b <= 1
    ensures (a ^ b) as int == (a as int + b as int) % 2
  {
    assert a == 0 || a == 1;
    assert b == 0 || b == 1;
  }

  // ----- the exclusive or of octets -----

  lemma XorLow(x: byte, y: byte)
    ensures XorByte(x, y) % 2 == (x % 2 + y % 2) % 2
  {
    var a, b := x as bv8, y as bv8;
    FromInt(x);
    FromInt(y);
    LowBit(a);
    LowBit(b);
    LowBit(a ^ b);
    XorParts(a, b);
    XorOfBits(a & 1, b & 1);
  }

  lemma XorHalf(x: byte, y: byte)
    ensures XorByte(x, y) / 2 == XorByte(x / 2, y / 2)
  {
    var a, b := x as bv8, y as bv8;
    Half(a ^ b);
    XorParts(a, b);
    HalfOfInt(x);
    HalfOfInt(y);
  }

  lemma {:induction false} XorBit(x: byte, y: byte, k: nat)
    ensures Bit(XorByte(x, y), k) == (Bit(x, k) + Bit(y, k)) % 2
    decreases k
  {
    hide XorByte;
    if k == 0 {
      XorLow(x, y);
    } else {
      XorHalf(x, y);
      XorBit(x / 2, y / 2, k - 1);
    }
  }

  function Pow2(n: nat): (p: nat)
    ensures p > 0
  {
    if n == 0 then 1 else 2 * Pow2(n - 1)
  }

  /** Numbers of `n` bits that agree in every bit are equal. */
  lemma {:induction false} SameBits(u: nat, v: nat, n: nat)
    requires u < Pow2(n) && v < Pow2(n)
    requires forall k: nat :: k < n ==> Bit(u, k) == Bit(v, k)
    ensures u == v
    decreases n
  {
    if n == 0 {
    } else {
      assert Bit(u, 0) == Bit(v, 0);
      forall k: nat | k < n - 1
        ensures Bit(u / 2, k) == Bit(v / 2, k)
      {
        assert Bit(u, k + 1) == Bit(v, k + 1);
      }
      SameBits(u / 2, v / 2, n - 1);
    }
  }

  /** The exclusive or is the one octet with these bits. */
  lemma XorByteBits(z: byte, x: byte, y: byte)
    ensures z == XorByte(x, y) <==> IsXorByte(z, x, y)
  {
    hide XorByte;
    forall k: nat
      ensures Bit(XorByte(x, y), k) == (Bit(x, k) + Bit(y, k)) % 2
    {
      XorBit(x, y, k);
    }
    if IsXorByte(z, x, y) {
      EightBits();
      SameBits(z, XorByte(x, y), 8);
    }
  }

  lemma EightBits()
    ensures Pow2(8) == 256
  {
  }

  lemma BitIsBit(v: nat, k: nat)
    ensures Bit(v, k) == 0 || Bit(v, k) == 1
    decreases k
  {
  }

  lemma XorTwice(x: byte, y: byte)
    ensures XorByte(XorByte(x, y), y) == x
  {
    hide XorByte;
    forall k: nat | k < 8
      ensures Bit(x, k) == (Bit(XorByte(x, y), k) + Bit(y, k)) % 2
    {
      XorBit(x, y, k);
      BitIsBit(x, k);
      BitIsBit(y, k);
    }
    XorByteBits(x, XorByte(x, y), y);
  }
}
