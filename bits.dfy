/**
 * The fixed-width unsigned integers of the C++ source (uint8_t, uint16_t,
 * uint32_t, uint64_t) as bounded integers, bitwise XOR on them, and
 * uint64_t wrap-around.
 */
module Bits {

  type byte = x: int | 0 <= x < 0x100
  type u16 = x: int | 0 <= x < 0x1_0000
  type u32 = x: int | 0 <= x < 0x1_0000_0000

  /** 2^64: uint64_t arithmetic is arithmetic modulo U64. */
  const U64: int := 0x1_0000_0000_0000_0000

  type u64 = x: int | 0 <= x < U64

  function Pow2(n: nat): (r: nat)
    ensures r >= 1
  {
    if n == 0 then 1 else 2 * Pow2(n - 1)
  }

  /** Bitwise XOR of two non-negative integers, one bit per halving step. */
  function Xor(a: nat, b: nat): nat
    decreases a + b
  {
    if a == 0 && b == 0 then 0 else 2 * Xor(a / 2, b / 2) + (if a % 2 == b % 2 then 0 else 1)
  }

  /** The recursive step holds at 0 too, so proofs need no special case. */
  lemma XorStep(a: nat, b: nat)
    ensures Xor(a, b) == 2 * Xor(a / 2, b / 2) + (if a % 2 == b % 2 then 0 else 1)
  {
    if a == 0 && b == 0 {
      assert Xor(0, 0) == 0;
    }
  }

  /** XOR of two n-bit values is an n-bit value. */
  lemma {:induction false} XorBelow(a: nat, b: nat, n: nat)
    requires a < Pow2(n) && b < Pow2(n)
    ensures Xor(a, b) < Pow2(n)
  {
    if n > 0 {
      XorStep(a, b);
      XorBelow(a / 2, b / 2, n - 1);
    } else {
      assert a == 0 && b == 0;
    }
  }

  lemma XorOfBytes(a: byte, b: byte)
    ensures Xor(a, b) < 0x100
  {
    assert Pow2(8) == 0x100;
    XorBelow(a, b, 8);
  }

  lemma XorOfWords(a: u16, b: u16)
    ensures Xor(a, b) < 0x1_0000
  {
    assert Pow2(8) == 0x100;
    assert Pow2(12) == 0x1000;
    assert Pow2(16) == 0x1_0000;
    XorBelow(a, b, 16);
  }

  /** uint8_t ^ uint8_t, which fits a byte again. */
  function XorByte(a: byte, b: byte): (r: byte)
    ensures r == Xor(a, b)
  {
    XorOfBytes(a, b);
    Xor(a, b)
  }

  lemma {:induction false} XorZeroLeft(c: nat)
    ensures Xor(0, c) == c
    decreases c
  {
    if c > 0 {
      XorStep(0, c);
      XorZeroLeft(c / 2);
    }
  }

  lemma {:induction false} XorSelf(a: nat)
    ensures Xor(a, a) == 0
    decreases a
  {
    if a > 0 {
      XorStep(a, a);
      XorSelf(a / 2);
    }
  }

  /** XORing twice with the same mask gives the value back. */
  lemma {:induction false} XorInvolution(a: nat, c: nat)
    ensures Xor(Xor(a, c), c) == a
    decreases a + c
  {
    if a + c > 0 {
      var y := Xor(a, c);
      XorStep(a, c);
      XorStep(y, c);
      XorInvolution(a / 2, c / 2);
      assert y / 2 == Xor(a / 2, c / 2);
    }
  }

  /** XOR with a fixed mask is injective. */
  lemma XorInjective(a: nat, b: nat, c: nat)
    requires a != b
    ensures Xor(a, c) != Xor(b, c)
  {
    XorInvolution(a, c);
    XorInvolution(b, c);
  }

  /** a ^ c is zero exactly when a equals c. */
  lemma XorZero(a: nat, c: nat)
    ensures Xor(a, c) == 0 <==> a == c
  {
    if Xor(a, c) == 0 {
      XorInvolution(a, c);
      XorZeroLeft(c);
    }
    if a == c {
      XorSelf(a);
    }
  }

  /** The two low bits of a ^ c are the XORs of the two low bits of a and c. */
  lemma XorLow2(a: nat, c: nat)
    ensures Xor(a, c) % 4
      == 2 * (if a / 2 % 2 == c / 2 % 2 then 0 else 1) + (if a % 2 == c % 2 then 0 else 1)
  {
    XorStep(a, c);
    XorStep(a / 2, c / 2);
  }

  lemma MulMono(d: nat, k: int)
    requires k >= 1
    ensures d * k >= d
  {
  }

  /** Quotient and remainder are unique. */
  lemma DivUnique(x: nat, d: nat, q: nat, r: nat)
    requires d > 0 && x == d * q + r && r < d
    ensures x / d == q && x % d == r
  {
    var k := x / d - q;
    assert d * k == r - x % d;
    if k > 0 {
      MulMono(d, k);
    } else if k < 0 {
      MulMono(d, -k);
    }
  }

  /** Dividing by 2p is halving and then dividing by p; the remainder splits the same way. */
  lemma DivHalf(x: nat, p: nat)
    requires p > 0
    ensures x / (2 * p) == x / 2 / p && x % (2 * p) == 2 * (x / 2 % p) + x % 2
  {
    var q, q2 := x / 2, x / 2 / p;
    assert x == 2 * (p * q2 + q % p) + x % 2;
    assert x == (2 * p) * q2 + (2 * (q % p) + x % 2);
    DivUnique(x, 2 * p, q2, 2 * (q % p) + x % 2);
  }

  /**
   * XOR with an n-bit value leaves the bits of c above bit n alone, and
   * below bit n it is the XOR with the low n bits of c.
   */
  lemma {:induction false} XorHigh(a: nat, c: nat, n: nat)
    requires a < Pow2(n)
    ensures Xor(a, c) / Pow2(n) == c / Pow2(n)
    ensures Xor(a, c) % Pow2(n) == Xor(a, c % Pow2(n))
  {
    if n == 0 {
      XorZeroLeft(c);
    } else {
      var p := Pow2(n - 1);
      XorHigh(a / 2, c / 2, n - 1);
      XorStep(a, c);
      XorStep(a, c % Pow2(n));
      DivHalf(Xor(a, c), p);
      DivHalf(c, p);
    }
  }

  /** A value reduced to uint64_t: the unique residue of x below 2^64. */
  function Wrap(x: int): (r: u64)
    ensures (x - r) % U64 == 0
  {
    x % U64
  }

  lemma WrapAdd(x: int, y: int)
    ensures Wrap(Wrap(x) + y) == Wrap(x + y)
  {
  }

  lemma WrapAddBoth(x: int, y: int)
    ensures Wrap(Wrap(x) + Wrap(y)) == Wrap(x + y)
  {
    WrapAdd(x, Wrap(y));
    WrapAdd(y, x);
  }

  /** Two integers closer than 2^64 that differ stay different after the reduction. */
  lemma WrapDistinct(x: int, y: int)
    requires x != y && -U64 < x - y < U64
    ensures Wrap(x) != Wrap(y)
  {
  }
}
