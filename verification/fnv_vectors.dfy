/**
 Published FNV-1a test vectors, derived from the model one unit at a time.
 Each step evaluates one application of `Compute` on a unit below 256: only
 the low byte of the hash takes part in the exclusive-or, which is evaluated
 bit by bit, and the reduction modulo the word size is checked against an
 explicit quotient.
 */
module FnvVectors {
  import opened Bitwise
  import opened FnvDetail
  import opened Fnv
  import Modular

  /** For a unit that fits in a byte, the exclusive-or on the hash type
      changes only the low byte of the hash. */
  lemma XorOnLowByte(w: Width, hash: nat, u: nat)
    requires hash < Modulus(w) && u < 0x100
    ensures XorW(w, hash, Widen(w, u)) == Xor(hash % 0x100, u, 8) + 0x100 * (hash / 0x100)
  {
    assert Pow2(8) == 0x100;
    ModulusIsPow2(w);
    assert Widen(w, u) == u;
    XorLow(hash, u, Bits(w), 8);
  }

  /** Advances a known hash of the first i units of s by the unit s[i] == u.
      The hash is split at its low byte (low, high), x is the exclusive-or of
      that byte with u, and k is the quotient dropped by the reduction modulo
      the word size. */
  lemma ByteStep(w: Width, s: seq<int>, i: nat, u: nat, hash: nat, low: nat, high: nat, x: nat, k: nat, next: nat)
    requires i < |s| && s[i] == u && u < 0x100 && low < 0x100 && next < Modulus(w)
    requires Strptr(w, s, i, Prime(w), OffsetBasis(w)) == hash
    requires hash == low + 0x100 * high && x == ByteXor(low, u)
    requires (x + 0x100 * high) * Prime(w) == Modulus(w) * k + next
    ensures Strptr(w, s, i + 1, Prime(w), OffsetBasis(w)) == next
  {
    StrptrStep(w, s, i, Prime(w), OffsetBasis(w));
    Modular.ModUnique(hash, 0x100, high, low);
    XorOnLowByte(w, hash, u);
    XorByte(low, u);
    var xored := XorW(w, hash, Widen(w, u));
    assert xored == x + 0x100 * high;
    Modular.ModUnique(xored * Prime(w), Modulus(w), k, next);
  }

  /** The empty string literal hashes to the offset basis at each width. */
  lemma EmptyString()
    ensures Fnv1aArray([0]) == 0x811c9dc5
    ensures Fnv1aArray([0], W64) == 0xcbf29ce484222325
  {
  }

  /** Unit 0 ('a') of "a" at 32 bits: the hash split at its low byte,
      the exclusive-or of that byte with the unit, and the product with the
      prime against the next hash. */
  lemma LetterA32Arithmetic0()
    ensures 0x811c9dc5 == 0xc5 + 0x100 * 0x811c9d && 0xa4 == ByteXor(0xc5, 97)
    ensures (0xa4 + 0x100 * 0x811c9d) * Prime(W32) == Modulus(W32) * 0x811d68 + 0xe40c292c
  {
    var p, m := Prime(W32), Modulus(W32);
    assert p == 16777619 && m == 0x1_0000_0000;
  }

  /** Hashing unit 0 of "a" at 32 bits. */
  lemma LetterA32Step0(s: seq<int>, i: nat)
    requires i < |s| && s[i] == 97
    requires Strptr(W32, s, i, Prime(W32), OffsetBasis(W32)) == 0x811c9dc5
    ensures Strptr(W32, s, i + 1, Prime(W32), OffsetBasis(W32)) == 0xe40c292c
  {
    LetterA32Arithmetic0();
    ByteStep(W32, s, i, 97, 0x811c9dc5, 0xc5, 0x811c9d, 0xa4, 0x811d68, 0xe40c292c);
  }

  /** The 32-bit hash of the string literal "a". */
  lemma LetterA32()
    ensures Fnv1aArray([97, 0]) == 0xe40c292c
  {
    LetterA32Step0([97, 0], 0);
  }
  /** Unit 0 ('a') of "a" at 64 bits: the hash split at its low byte,
      the exclusive-or of that byte with the unit, and the product with the
      prime against the next hash. */
  lemma LetterA64Arithmetic0()
    ensures 0xcbf29ce484222325 == 0x25 + 0x100 * 0xcbf29ce4842223 && 0x44 == ByteXor(0x25, 97)
    ensures (0x44 + 0x100 * 0xcbf29ce4842223) * Prime(W64) == Modulus(W64) * 0xcbf29ce5de + 0xaf63dc4c8601ec8c
  {
    var p, m := Prime(W64), Modulus(W64);
    assert p == 1099511628211 && m == 0x1_0000_0000_0000_0000;
  }

  /** Hashing unit 0 of "a" at 64 bits. */
  lemma LetterA64Step0(s: seq<int>, i: nat)
    requires i < |s| && s[i] == 97
    requires Strptr(W64, s, i, Prime(W64), OffsetBasis(W64)) == 0xcbf29ce484222325
    ensures Strptr(W64, s, i + 1, Prime(W64), OffsetBasis(W64)) == 0xaf63dc4c8601ec8c
  {
    LetterA64Arithmetic0();
    ByteStep(W64, s, i, 97, 0xcbf29ce484222325, 0x25, 0xcbf29ce4842223, 0x44, 0xcbf29ce5de, 0xaf63dc4c8601ec8c);
  }

  /** The 64-bit hash of the string literal "a". */
  lemma LetterA64()
    ensures Fnv1aArray([97, 0], W64) == 0xaf63dc4c8601ec8c
  {
    LetterA64Step0([97, 0], 0);
  }
  /** Unit 0 ('f') of "foobar" at 32 bits: the hash split at its low byte,
      the exclusive-or of that byte with the unit, and the product with the
      prime against the next hash. */
  lemma Foobar32Arithmetic0()
    ensures 0x811c9dc5 == 0xc5 + 0x100 * 0x811c9d && 0xa3 == ByteXor(0xc5, 102)
    ensures (0xa3 + 0x100 * 0x811c9d) * Prime(W32) == Modulus(W32) * 0x811d68 + 0xe30c2799
  {
    var p, m := Prime(W32), Modulus(W32);
    assert p == 16777619 && m == 0x1_0000_0000;
  }

  /** Hashing unit 0 of "foobar" at 32 bits. */
  lemma Foobar32Step0(s: seq<int>, i: nat)
    requires i < |s| && s[i] == 102
    requires Strptr(W32, s, i, Prime(W32), OffsetBasis(W32)) == 0x811c9dc5
    ensures Strptr(W32, s, i + 1, Prime(W32), OffsetBasis(W32)) == 0xe30c2799
  {
    Foobar32Arithmetic0();
    ByteStep(W32, s, i, 102, 0x811c9dc5, 0xc5, 0x811c9d, 0xa3, 0x811d68, 0xe30c2799);
  }
  /** Unit 1 ('o') of "foobar" at 32 bits: the hash split at its low byte,
      the exclusive-or of that byte with the unit, and the product with the
      prime against the next hash. */
  lemma Foobar32Arithmetic1()
    ensures 0xe30c2799 == 0x99 + 0x100 * 0xe30c27 && 0xf6 == ByteXor(0x99, 111)
    ensures (0xf6 + 0x100 * 0xe30c27) * Prime(W32) == Modulus(W32) * 0xe30d8d + 0x6222e842
  {
    var p, m := Prime(W32), Modulus(W32);
    assert p == 16777619 && m == 0x1_0000_0000;
  }

  /** Hashing unit 1 of "foobar" at 32 bits. */
  lemma Foobar32Step1(s: seq<int>, i: nat)
    requires i < |s| && s[i] == 111
    requires Strptr(W32, s, i, Prime(W32), OffsetBasis(W32)) == 0xe30c2799
    ensures Strptr(W32, s, i + 1, Prime(W32), OffsetBasis(W32)) == 0x6222e842
  {
    Foobar32Arithmetic1();
    ByteStep(W32, s, i, 111, 0xe30c2799, 0x99, 0xe30c27, 0xf6, 0xe30d8d, 0x6222e842);
  }
  /** Unit 2 ('o') of "foobar" at 32 bits: the hash split at its low byte,
      the exclusive-or of that byte with the unit, and the product with the
      prime against the next hash. */
  lemma Foobar32Arithmetic2()
    ensures 0x6222e842 == 0x42 + 0x100 * 0x6222e8 && 0x2d == ByteXor(0x42, 111)
    ensures (0x2d + 0x100 * 0x6222e8) * Prime(W32) == Modulus(W32) * 0x622382 + 0xa9f37ed7
  {
    var p, m := Prime(W32), Modulus(W32);
    assert p == 16777619 && m == 0x1_0000_0000;
  }

  /** Hashing unit 2 of "foobar" at 32 bits. */
  lemma Foobar32Step2(s: seq<int>, i: nat)
    requires i < |s| && s[i] == 111
    requires Strptr(W32, s, i, Prime(W32), OffsetBasis(W32)) == 0x6222e842
    ensures Strptr(W32, s, i + 1, Prime(W32), OffsetBasis(W32)) == 0xa9f37ed7
  {
    Foobar32Arithmetic2();
    ByteStep(W32, s, i, 111, 0x6222e842, 0x42, 0x6222e8, 0x2d, 0x622382, 0xa9f37ed7);
  }
  /** Unit 3 ('b') of "foobar" at 32 bits: the hash split at its low byte,
      the exclusive-or of that byte with the unit, and the product with the
      prime against the next hash. */
  lemma Foobar32Arithmetic3()
    ensures 0xa9f37ed7 == 0xd7 + 0x100 * 0xa9f37e && 0xb5 == ByteXor(0xd7, 98)
    ensures (0xb5 + 0x100 * 0xa9f37e) * Prime(W32) == Modulus(W32) * 0xa9f48a + 0x3f5076ef
  {
    var p, m := Prime(W32), Modulus(W32);
    assert p == 16777619 && m == 0x1_0000_0000;
  }

  /** Hashing unit 3 of "foobar" at 32 bits. */
  lemma Foobar32Step3(s: seq<int>, i: nat)
    requires i < |s| && s[i] == 98
    requires Strptr(W32, s, i, Prime(W32), OffsetBasis(W32)) == 0xa9f37ed7
    ensures Strptr(W32, s, i + 1, Prime(W32), OffsetBasis(W32)) == 0x3f5076ef
  {
    Foobar32Arithmetic3();
    ByteStep(W32, s, i, 98, 0xa9f37ed7, 0xd7, 0xa9f37e, 0xb5, 0xa9f48a, 0x3f5076ef);
  }
  /** Unit 4 ('a') of "foobar" at 32 bits: the hash split at its low byte,
      the exclusive-or of that byte with the unit, and the product with the
      prime against the next hash. */
  lemma Foobar32Arithmetic4()
    ensures 0x3f5076ef == 0xef + 0x100 * 0x3f5076 && 0x8e == ByteXor(0xef, 97)
    ensures (0x8e + 0x100 * 0x3f5076) * Prime(W32) == Modulus(W32) * 0x3f50da + 0x39aaa18a
  {
    var p, m := Prime(W32), Modulus(W32);
    assert p == 16777619 && m == 0x1_0000_0000;
  }

  /** Hashing unit 4 of "foobar" at 32 bits. */
  lemma Foobar32Step4(s: seq<int>, i: nat)
    requires i < |s| && s[i] == 97
    requires Strptr(W32, s, i, Prime(W32), OffsetBasis(W32)) == 0x3f5076ef
    ensures Strptr(W32, s, i + 1, Prime(W32), OffsetBasis(W32)) == 0x39aaa18a
  {
    Foobar32Arithmetic4();
    ByteStep(W32, s, i, 97, 0x3f5076ef, 0xef, 0x3f5076, 0x8e, 0x3f50da, 0x39aaa18a);
  }
  /** Unit 5 ('r') of "foobar" at 32 bits: the hash split at its low byte,
      the exclusive-or of that byte with the unit, and the product with the
      prime against the next hash. */
  lemma Foobar32Arithmetic5()
    ensures 0x39aaa18a == 0x8a + 0x100 * 0x39aaa1 && 0xf8 == ByteXor(0x8a, 114)
    ensures (0xf8 + 0x100 * 0x39aaa1) * Prime(W32) == Modulus(W32) * 0x39aafc + 0xbf9cf968
  {
    var p, m := Prime(W32), Modulus(W32);
    assert p == 16777619 && m == 0x1_0000_0000;
  }

  /** Hashing unit 5 of "foobar" at 32 bits. */
  lemma Foobar32Step5(s: seq<int>, i: nat)
    requires i < |s| && s[i] == 114
    requires Strptr(W32, s, i, Prime(W32), OffsetBasis(W32)) == 0x39aaa18a
    ensures Strptr(W32, s, i + 1, Prime(W32), OffsetBasis(W32)) == 0xbf9cf968
  {
    Foobar32Arithmetic5();
    ByteStep(W32, s, i, 114, 0x39aaa18a, 0x8a, 0x39aaa1, 0xf8, 0x39aafc, 0xbf9cf968);
  }

  /** The units of "foobar", starting at position j of s, hashed in order at
      32 bits from the offset basis. */
  lemma Foobar32Chain(s: seq<int>, j: nat)
    requires j + 6 <= |s| && s[j] == 102 && s[j + 1] == 111 && s[j + 2] == 111 && s[j + 3] == 98 && s[j + 4] == 97 && s[j + 5] == 114
    requires Strptr(W32, s, j, Prime(W32), OffsetBasis(W32)) == 0x811c9dc5
    ensures Strptr(W32, s, j + 6, Prime(W32), OffsetBasis(W32)) == 0xbf9cf968
  {
    Foobar32Step0(s, j);
    Foobar32Step1(s, j + 1);
    Foobar32Step2(s, j + 2);
    Foobar32Step3(s, j + 3);
    Foobar32Step4(s, j + 4);
    Foobar32Step5(s, j + 5);
  }

  /** The 32-bit hash of the string literal "foobar". */
  lemma Foobar32()
    ensures Fnv1aArray([102, 111, 111, 98, 97, 114, 0]) == 0xbf9cf968
  {
    Foobar32Chain([102, 111, 111, 98, 97, 114, 0], 0);
  }
  /** Unit 0 ('f') of "foobar" at 64 bits: the hash split at its low byte,
      the exclusive-or of that byte with the unit, and the product with the
      prime against the next hash. */
  lemma Foobar64Arithmetic0()
    ensures 0xcbf29ce484222325 == 0x25 + 0x100 * 0xcbf29ce4842223 && 0x43 == ByteXor(0x25, 102)
    ensures (0x43 + 0x100 * 0xcbf29ce4842223) * Prime(W64) == Modulus(W64) * 0xcbf29ce5de + 0xaf63db4c8601ead9
  {
    var p, m := Prime(W64), Modulus(W64);
    assert p == 1099511628211 && m == 0x1_0000_0000_0000_0000;
  }

  /** Hashing unit 0 of "foobar" at 64 bits. */
  lemma Foobar64Step0(s: seq<int>, i: nat)
    requires i < |s| && s[i] == 102
    requires Strptr(W64, s, i, Prime(W64), OffsetBasis(W64)) == 0xcbf29ce484222325
    ensures Strptr(W64, s, i + 1, Prime(W64), OffsetBasis(W64)) == 0xaf63db4c8601ead9
  {
    Foobar64Arithmetic0();
    ByteStep(W64, s, i, 102, 0xcbf29ce484222325, 0x25, 0xcbf29ce4842223, 0x43, 0xcbf29ce5de, 0xaf63db4c8601ead9);
  }
  /** Unit 1 ('o') of "foobar" at 64 bits: the hash split at its low byte,
      the exclusive-or of that byte with the unit, and the product with the
      prime against the next hash. */
  lemma Foobar64Arithmetic1()
    ensures 0xaf63db4c8601ead9 == 0xd9 + 0x100 * 0xaf63db4c8601ea && 0xb6 == ByteXor(0xd9, 111)
    ensures (0xb6 + 0x100 * 0xaf63db4c8601ea) * Prime(W64) == Modulus(W64) * 0xaf63db4db0 + 0x8985907b541d342
  {
    var p, m := Prime(W64), Modulus(W64);
    assert p == 1099511628211 && m == 0x1_0000_0000_0000_0000;
  }

  /** Hashing unit 1 of "foobar" at 64 bits. */
  lemma Foobar64Step1(s: seq<int>, i: nat)
    requires i < |s| && s[i] == 111
    requires Strptr(W64, s, i, Prime(W64), OffsetBasis(W64)) == 0xaf63db4c8601ead9
    ensures Strptr(W64, s, i + 1, Prime(W64), OffsetBasis(W64)) == 0x8985907b541d342
  {
    Foobar64Arithmetic1();
    ByteStep(W64, s, i, 111, 0xaf63db4c8601ead9, 0xd9, 0xaf63db4c8601ea, 0xb6, 0xaf63db4db0, 0x8985907b541d342);
  }
  /** Unit 2 ('o') of "foobar" at 64 bits: the hash split at its low byte,
      the exclusive-or of that byte with the unit, and the product with the
      prime against the next hash. */
  lemma Foobar64Arithmetic2()
    ensures 0x8985907b541d342 == 0x42 + 0x100 * 0x8985907b541d3 && 0x2d == ByteXor(0x42, 111)
    ensures (0x2d + 0x100 * 0x8985907b541d3) * Prime(W64) == Modulus(W64) * 0x8985907c3 + 0xdcb27518fed9d577
  {
    var p, m := Prime(W64), Modulus(W64);
    assert p == 1099511628211 && m == 0x1_0000_0000_0000_0000;
  }

  /** Hashing unit 2 of "foobar" at 64 bits. */
  lemma Foobar64Step2(s: seq<int>, i: nat)
    requires i < |s| && s[i] == 111
    requires Strptr(W64, s, i, Prime(W64), OffsetBasis(W64)) == 0x8985907b541d342
    ensures Strptr(W64, s, i + 1, Prime(W64), OffsetBasis(W64)) == 0xdcb27518fed9d577
  {
    Foobar64Arithmetic2();
    ByteStep(W64, s, i, 111, 0x8985907b541d342, 0x42, 0x8985907b541d3, 0x2d, 0x8985907c3, 0xdcb27518fed9d577);
  }
  /** Unit 3 ('b') of "foobar" at 64 bits: the hash split at its low byte,
      the exclusive-or of that byte with the unit, and the product with the
      prime against the next hash. */
  lemma Foobar64Arithmetic3()
    ensures 0xdcb27518fed9d577 == 0x77 + 0x100 * 0xdcb27518fed9d5 && 0x15 == ByteXor(0x77, 98)
    ensures (0x15 + 0x100 * 0xdcb27518fed9d5) * Prime(W64) == Modulus(W64) * 0xdcb2751a75 + 0xdd120e790c2512af
  {
    var p, m := Prime(W64), Modulus(W64);
    assert p == 1099511628211 && m == 0x1_0000_0000_0000_0000;
  }

  /** Hashing unit 3 of "foobar" at 64 bits. */
  lemma Foobar64Step3(s: seq<int>, i: nat)
    requires i < |s| && s[i] == 98
    requires Strptr(W64, s, i, Prime(W64), OffsetBasis(W64)) == 0xdcb27518fed9d577
    ensures Strptr(W64, s, i + 1, Prime(W64), OffsetBasis(W64)) == 0xdd120e790c2512af
  {
    Foobar64Arithmetic3();
    ByteStep(W64, s, i, 98, 0xdcb27518fed9d577, 0x77, 0xdcb27518fed9d5, 0x15, 0xdcb2751a75, 0xdd120e790c2512af);
  }
  /** Unit 4 ('a') of "foobar" at 64 bits: the hash split at its low byte,
      the exclusive-or of that byte with the unit, and the product with the
      prime against the next hash. */
  lemma Foobar64Arithmetic4()
    ensures 0xdd120e790c2512af == 0xaf + 0x100 * 0xdd120e790c2512 && 0xce == ByteXor(0xaf, 97)
    ensures (0xce + 0x100 * 0xdd120e790c2512) * Prime(W64) == Modulus(W64) * 0xdd120e7a83 + 0xcac165afa2fef40a
  {
    var p, m := Prime(W64), Modulus(W64);
    assert p == 1099511628211 && m == 0x1_0000_0000_0000_0000;
  }

  /** Hashing unit 4 of "foobar" at 64 bits. */
  lemma Foobar64Step4(s: seq<int>, i: nat)
    requires i < |s| && s[i] == 97
    requires Strptr(W64, s, i, Prime(W64), OffsetBasis(W64)) == 0xdd120e790c2512af
    ensures Strptr(W64, s, i + 1, Prime(W64), OffsetBasis(W64)) == 0xcac165afa2fef40a
  {
    Foobar64Arithmetic4();
    ByteStep(W64, s, i, 97, 0xdd120e790c2512af, 0xaf, 0xdd120e790c2512, 0xce, 0xdd120e7a83, 0xcac165afa2fef40a);
  }
  /** Unit 5 ('r') of "foobar" at 64 bits: the hash split at its low byte,
      the exclusive-or of that byte with the unit, and the product with the
      prime against the next hash. */
  lemma Foobar64Arithmetic5()
    ensures 0xcac165afa2fef40a == 0xa + 0x100 * 0xcac165afa2fef4 && 0x78 == ByteXor(0xa, 114)
    ensures (0x78 + 0x100 * 0xcac165afa2fef4) * Prime(W64) == Modulus(W64) * 0xcac165b0fb + 0x85944171f73967e8
  {
    var p, m := Prime(W64), Modulus(W64);
    assert p == 1099511628211 && m == 0x1_0000_0000_0000_0000;
  }

  /** Hashing unit 5 of "foobar" at 64 bits. */
  lemma Foobar64Step5(s: seq<int>, i: nat)
    requires i < |s| && s[i] == 114
    requires Strptr(W64, s, i, Prime(W64), OffsetBasis(W64)) == 0xcac165afa2fef40a
    ensures Strptr(W64, s, i + 1, Prime(W64), OffsetBasis(W64)) == 0x85944171f73967e8
  {
    Foobar64Arithmetic5();
    ByteStep(W64, s, i, 114, 0xcac165afa2fef40a, 0xa, 0xcac165afa2fef4, 0x78, 0xcac165b0fb, 0x85944171f73967e8);
  }

  /** The units of "foobar", starting at position j of s, hashed in order at
      64 bits from the offset basis. */
  lemma Foobar64Chain(s: seq<int>, j: nat)
    requires j + 6 <= |s| && s[j] == 102 && s[j + 1] == 111 && s[j + 2] == 111 && s[j + 3] == 98 && s[j + 4] == 97 && s[j + 5] == 114
    requires Strptr(W64, s, j, Prime(W64), OffsetBasis(W64)) == 0xcbf29ce484222325
    ensures Strptr(W64, s, j + 6, Prime(W64), OffsetBasis(W64)) == 0x85944171f73967e8
  {
    Foobar64Step0(s, j);
    Foobar64Step1(s, j + 1);
    Foobar64Step2(s, j + 2);
    Foobar64Step3(s, j + 3);
    Foobar64Step4(s, j + 4);
    Foobar64Step5(s, j + 5);
  }

  /** The 64-bit hash of the string literal "foobar". */
  lemma Foobar64()
    ensures Fnv1aArray([102, 111, 111, 98, 97, 114, 0], W64) == 0x85944171f73967e8
  {
    Foobar64Chain([102, 111, 111, 98, 97, 114, 0], 0);
  }
}
