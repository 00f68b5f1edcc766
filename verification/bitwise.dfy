/**
 Bitwise exclusive-or on non-negative integers, restricted to a fixed number
 of low-order bits. Hash values are kept as unbounded integers in the range
 [0, 2^n), so this is the `^` of an n-bit unsigned integer type.
 */
module Bitwise {
  import Modular

  /** 2 raised to the n-th power. */
  function Pow2(n: nat): (r: nat)
    ensures r >= 1
  {
    if n == 0 then 1 else 2 * Pow2(n - 1)
  }

  /** Exponents add when powers of two multiply. */
  lemma {:induction false} Pow2Add(a: nat, b: nat)
    ensures Pow2(a + b) == Pow2(a) * Pow2(b)
    decreases a
  {
    if a > 0 {
      Pow2Add(a - 1, b);
    }
  }

  /** The sizes of the 32-bit and 64-bit unsigned types. */
  lemma Pow2WordSizes()
    ensures Pow2(32) == 0x1_0000_0000
    ensures Pow2(64) == 0x1_0000_0000_0000_0000
  {
    assert Pow2(8) == 0x100;
    Pow2Add(8, 8);
    Pow2Add(16, 16);
    Pow2Add(32, 32);
  }

  /** The lowest bit of a, as 0 or 1. */
  function LowBit(a: nat): nat {
    a % 2
  }

  /** Exclusive-or of the low n bits of a and b, built from the least
      significant bit upwards. */
  function Xor(a: nat, b: nat, n: nat): (r: nat)
    ensures r < Pow2(n)
    decreases n
  {
    if n == 0 then 0
    else (if LowBit(a) == LowBit(b) then 0 else 1) + 2 * Xor(a / 2, b / 2, n - 1)
  }

  /** Exclusive-or does not depend on the order of its operands. */
  lemma {:induction false} XorCommutes(a: nat, b: nat, n: nat)
    ensures Xor(a, b, n) == Xor(b, a, n)
    decreases n
  {
    if n > 0 {
      XorCommutes(a / 2, b / 2, n - 1);
    }
  }

  /** Applying the same mask twice restores an n-bit value. */
  lemma {:induction false} XorSelfInverse(a: nat, b: nat, n: nat)
    requires a < Pow2(n)
    ensures Xor(Xor(a, b, n), b, n) == a
    decreases n
  {
    if n > 0 {
      var r := Xor(a, b, n);
      XorSelfInverse(a / 2, b / 2, n - 1);
      assert r / 2 == Xor(a / 2, b / 2, n - 1);
    }
  }

  /** Exclusive-or with zero keeps an n-bit value. */
  lemma {:induction false} XorZero(a: nat, n: nat)
    requires a < Pow2(n)
    ensures Xor(a, 0, n) == a
    decreases n
  {
    if n > 0 {
      XorZero(a / 2, n - 1);
    }
  }

  /** A mask narrower than k bits leaves every bit of a above bit k as it is. */
  lemma {:induction false} XorLow(a: nat, b: nat, n: nat, k: nat)
    requires k <= n && a < Pow2(n) && b < Pow2(k)
    ensures Xor(a, b, n) == Xor(a % Pow2(k), b, k) + Pow2(k) * (a / Pow2(k))
    decreases k
  {
    if k == 0 {
      XorZero(a, n);
    } else {
      var p := Pow2(k - 1);
      assert Pow2(k) == 2 * p;
      Modular.DivModHalf(a, p);
      var lo := a % (2 * p);
      var q := (a / 2) / p;
      assert LowBit(lo) == LowBit(a) && lo / 2 == (a / 2) % p;
      XorLow(a / 2, b / 2, n - 1, k - 1);
      var x := Xor((a / 2) % p, b / 2, k - 1);
      assert Xor(a / 2, b / 2, n - 1) == x + p * q;
      assert Xor(lo, b, k) == (if LowBit(a) == LowBit(b) then 0 else 1) + 2 * x;
      assert a / Pow2(k) == q;
      Modular.MulDouble(p, q);
    }
  }

  /** One unfolding of Xor, its low bit written as a sum modulo 2. */
  lemma XorStep(a: nat, b: nat, n: nat)
    requires n > 0
    ensures Xor(a, b, n) == (a + b) % 2 + 2 * Xor(a / 2, b / 2, n - 1)
  {
    assert (if LowBit(a) == LowBit(b) then 0 else 1) == (a + b) % 2;
  }

  /** a divided by d; for d = 2^k this is a shifted right by k bits. */
  function Shift(a: nat, d: nat): nat
    requires d > 0
  {
    a / d
  }

  /** The lowest bits of a / d and b / d added modulo 2: for d = 2^k, the
      exclusive-or of bit k of a and bit k of b. */
  function BitXor(a: nat, b: nat, d: nat): nat
    requires d > 0
  {
    (a / d + b / d) % 2
  }

  /** Exclusive-or of the low eight bits, written out bit by bit. */
  function ByteXor(a: nat, b: nat): nat {
    BitXor(a, b, 1) + 2 * BitXor(a, b, 2) + 4 * BitXor(a, b, 4) + 8 * BitXor(a, b, 8)
    + 16 * BitXor(a, b, 16) + 32 * BitXor(a, b, 32) + 64 * BitXor(a, b, 64) + 128 * BitXor(a, b, 128)
  }

  /** One unfolding of Xor at the bit position d. */
  lemma XorAt(a: nat, b: nat, d: nat, n: nat)
    requires d > 0 && n > 0
    ensures Xor(Shift(a, d), Shift(b, d), n)
         == BitXor(a, b, d) + 2 * Xor(Shift(a, 2 * d), Shift(b, 2 * d), n - 1)
  {
    XorStep(a / d, b / d, n);
    Modular.DivHalf(a, d);
    Modular.DivHalf(b, d);
  }

  /** The recursive exclusive-or of eight bits agrees with the bit-by-bit sum. */
  lemma XorByte(a: nat, b: nat)
    ensures Xor(a, b, 8) == ByteXor(a, b)
  {
    assert Shift(a, 1) == a && Shift(b, 1) == b;
    XorAt(a, b, 1, 8);
    XorAt(a, b, 2, 7);
    XorAt(a, b, 4, 6);
    XorAt(a, b, 8, 5);
    XorAt(a, b, 16, 4);
    XorAt(a, b, 32, 3);
    XorAt(a, b, 64, 2);
    XorAt(a, b, 128, 1);
  }

  /** With the first operand fixed, exclusive-or is injective on n-bit values. */
  lemma XorCancel(h: nat, x: nat, y: nat, n: nat)
    requires x < Pow2(n) && y < Pow2(n)
    ensures Xor(h, x, n) == Xor(h, y, n) <==> x == y
  {
    XorCommutes(h, x, n);
    XorCommutes(h, y, n);
    XorSelfInverse(x, h, n);
    XorSelfInverse(y, h, n);
  }
}
