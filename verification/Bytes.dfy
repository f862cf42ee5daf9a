/** Exclusive or of bytes, bit by bit. */
module Bytes {

  import opened Common

  const BITS: nat := 8

  /** Exclusive or of the n low bits */
  function XorBits(a: nat, b: nat, n: nat): (r: nat)
    ensures r < Pow2(n)
  {
    if n == 0 then 0 else 2 * XorBits(a / 2, b / 2, n - 1) + (a + b) % 2
  }

  lemma Pow2Bits()
    ensures Pow2(BITS) == 256
  {
    assert Pow2(4) == 16;
  }

  function Xor(a: byte, b: byte): byte {
    Pow2Bits();
    XorBits(a, b, BITS)
  }

  lemma XorBitsHalf(a: nat, b: nat, n: nat)
    requires n > 0
    ensures XorBits(a, b, n) / 2 == XorBits(a / 2, b / 2, n - 1) && XorBits(a, b, n) % 2 == (a + b) % 2
  {
    var h := XorBits(a / 2, b / 2, n - 1);
    assert (2 * h + (a + b) % 2) / 2 == h;
  }

  /** Of x, y and z an even number is odd */
  predicate Odd(x: int, y: int, z: int) {
    x % 2 == (y + z) % 2
  }

  /** Bit i of the result is set exactly when it is set in one of the two */
  lemma {:induction false} XorBitsAt(a: nat, b: nat, n: nat, i: nat)
    requires i < n
    ensures Odd(XorBits(a, b, n) / Pow2(i), a / Pow2(i), b / Pow2(i))
  {
    XorBitsHalf(a, b, n);
    if i == 0 {
      BitZero(XorBits(a, b, n));
      BitZero(a);
      BitZero(b);
    } else {
      XorBitsAt(a / 2, b / 2, n - 1, i - 1);
      BitDown(XorBits(a, b, n), i);
      BitDown(a, i);
      BitDown(b, i);
    }
  }

  lemma BitZero(x: nat)
    ensures x / Pow2(0) == x
  {
  }

  lemma BitDown(x: nat, i: nat)
    requires i > 0
    ensures x / Pow2(i) == x / 2 / Pow2(i - 1)
  {
    DivThen(x, 2, Pow2(i - 1));
  }

  lemma XorAt(a: byte, b: byte, i: nat)
    requires i < 8
    ensures Xor(a, b) / Pow2(i) % 2 == (a / Pow2(i) + b / Pow2(i)) % 2
  {
    XorBitsAt(a, b, BITS, i);
  }

  lemma LowBit(a: nat, k: nat, h: nat)
    ensures var r := 2 * h + (a + k) % 2; r / 2 == h && (r + k) % 2 == a % 2
  {
    assert a % 2 == 0 || a % 2 == 1;
    assert k % 2 == 0 || k % 2 == 1;
  }

  lemma {:induction false} XorBitsTwice(a: nat, k: nat, n: nat)
    requires a < Pow2(n)
    ensures XorBits(XorBits(a, k, n), k, n) == a
  {
    if n > 0 {
      XorBitsTwice(a / 2, k / 2, n - 1);
      LowBit(a, k, XorBits(a / 2, k / 2, n - 1));
    }
  }

  /** Applying a key byte twice gives the byte back */
  lemma XorTwice(a: byte, k: byte)
    ensures Xor(Xor(a, k), k) == a
  {
    Pow2Bits();
    XorBitsTwice(a, k, BITS);
  }

  lemma {:induction false} XorBitsComm(a: nat, b: nat, n: nat)
    ensures XorBits(a, b, n) == XorBits(b, a, n)
  {
    if n > 0 {
      XorBitsComm(a / 2, b / 2, n - 1);
    }
  }

  /** Different key bytes give different results */
  lemma XorInjective(a: byte, k: byte, j: byte)
    ensures Xor(a, k) == Xor(a, j) <==> k == j
  {
    XorBitsComm(a, k, BITS);
    XorBitsComm(a, j, BITS);
    XorTwice(k, a);
    XorTwice(j, a);
  }
}
