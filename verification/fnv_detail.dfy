/**
 The FNV-1a kernel: the per-width constant pairs, the single fold step and the
 two loop drivers (fixed-size array and pointer-plus-length).

 Hash values of the unsigned type T (uint32_t or uint64_t) are integers in
 [0, 2^W). Input units (char or wchar_t) are plain integers of either sign;
 the conversion C++ applies in `hash ^= input` is written out in `Widen`.
 */
module FnvDetail {
  import opened Bitwise

  /** The hash type T: uint32_t or uint64_t. */
  datatype Width = W32 | W64

  /** Number of bits of the hash type. */
  function Bits(w: Width): nat {
    match w
    case W32 => 32
    case W64 => 64
  }

  /** 2^W, the number of values of the hash type; arithmetic on T wraps modulo it. */
  function Modulus(w: Width): nat {
    match w
    case W32 => 0x1_0000_0000
    case W64 => 0x1_0000_0000_0000_0000
  }

  /** The modulus is the power of two of the width's bit count. */
  lemma ModulusIsPow2(w: Width)
    ensures Modulus(w) == Pow2(Bits(w))
  {
    Pow2WordSizes();
  }

  // The constant pairs of namespaces constant::b32 and constant::b64.
  const B32Prime: nat := 16777619
  const B32OffsetBasis: nat := 2166136261
  const B64Prime: nat := 1099511628211
  const B64OffsetBasis: nat := 14695981039346656037

  /** The FNV prime of a width. It is odd, which makes every step invertible. */
  function Prime(w: Width): (p: nat)
    ensures p < Modulus(w)
    ensures p % 2 == 1
  {
    if w == W64 then B64Prime else B32Prime
  }

  /** The offset basis of a width: the hash of the empty input. */
  function OffsetBasis(w: Width): (b: nat)
    ensures b < Modulus(w)
  {
    if w == W64 then B64OffsetBasis else B32OffsetBasis
  }

  /** The usual arithmetic conversion of an input unit to the hash type T:
      a representable value is kept, a negative one is taken modulo 2^W
      (sign extension in two's complement). */
  function Widen(w: Width, u: int): (x: nat)
    ensures x < Modulus(w)
    ensures 0 <= u < Modulus(w) ==> x == u
    ensures u < 0 && u + Modulus(w) >= 0 ==> x == u + Modulus(w)
  {
    u % Modulus(w)
  }

  /** `^` on the hash type T. */
  function XorW(w: Width, a: nat, b: nat): (r: nat)
    ensures r < Modulus(w)
  {
    ModulusIsPow2(w);
    Xor(a, b, Bits(w))
  }

  /** fnv1a_compute: `hash ^= input; hash *= prime;` on T, where the
      multiplication wraps modulo 2^W. */
  function Compute(w: Width, input: int, prime: nat, hash: nat): (r: nat)
    requires prime < Modulus(w) && hash < Modulus(w)
    ensures r < Modulus(w)
  {
    (XorW(w, hash, Widen(w, input)) * prime) % Modulus(w)
  }

  /** The running hash after folding every unit of s, left to right, into
      `hash` with `Compute`. Defined on the last unit so that it follows a
      counting loop: Fold(h, s[..i+1]) is one step after Fold(h, s[..i]). */
  function Fold(w: Width, prime: nat, hash: nat, s: seq<int>): (r: nat)
    requires prime < Modulus(w) && hash < Modulus(w)
    ensures r < Modulus(w)
    decreases |s|
  {
    if |s| == 0 then hash
    else Compute(w, s[|s| - 1], prime, Fold(w, prime, hash, s[..|s| - 1]))
  }

  /** fnv1a_strptr: folds exactly the first `len` units of `input`. The
      caller must provide at least `len` readable units. */
  function Strptr(w: Width, input: seq<int>, len: nat, prime: nat, hash: nat): (r: nat)
    requires len <= |input|
    requires prime < Modulus(w) && hash < Modulus(w)
    ensures r < Modulus(w)
    ensures len == 0 ==> r == hash
  {
    Fold(w, prime, hash, input[..len])
  }

  /** One more iteration of the fnv1a_strptr loop folds one more unit. */
  lemma StrptrStep(w: Width, input: seq<int>, len: nat, prime: nat, hash: nat)
    requires len < |input|
    requires prime < Modulus(w) && hash < Modulus(w)
    ensures Strptr(w, input, len + 1, prime, hash)
         == Compute(w, input[len], prime, Strptr(w, input, len, prime, hash))
  {
    assert input[..len + 1][..len] == input[..len];
  }

  /** fnv1a_strlit: folds the first N - 1 units of an N-unit array, leaving
      out the trailing terminator. C++ arrays have N >= 1. */
  function Strlit(w: Width, input: seq<int>, prime: nat, hash: nat): (r: nat)
    requires |input| >= 1
    requires prime < Modulus(w) && hash < Modulus(w)
    ensures r == Strptr(w, input, |input| - 1, prime, hash)
  {
    Fold(w, prime, hash, input[..|input| - 1])
  }

  /** The loop of fnv1a_strlit, statement for statement. */
  method StrlitLoop(w: Width, input: seq<int>, prime: nat, hash: nat) returns (r: nat)
    requires |input| >= 1
    requires prime < Modulus(w) && hash < Modulus(w)
    ensures r == Strlit(w, input, prime, hash)
  {
    r := hash;
    var i := 0;
    while i < |input| - 1
      invariant 0 <= i <= |input| - 1
      invariant r == Strptr(w, input, i, prime, hash)
    {
      StrptrStep(w, input, i, prime, hash);
      r := Compute(w, input[i], prime, r);
      i := i + 1;
    }
  }

  /** The loop of fnv1a_strptr, statement for statement. */
  method StrptrLoop(w: Width, input: seq<int>, len: nat, prime: nat, hash: nat) returns (r: nat)
    requires len <= |input|
    requires prime < Modulus(w) && hash < Modulus(w)
    ensures r == Strptr(w, input, len, prime, hash)
  {
    r := hash;
    var i := 0;
    while i < len
      invariant 0 <= i <= len
      invariant r == Strptr(w, input, i, prime, hash)
    {
      StrptrStep(w, input, i, prime, hash);
      r := Compute(w, input[i], prime, r);
      i := i + 1;
    }
  }
}
