/**
 Properties of the FNV-1a fold: how the drivers relate to one another, which
 units they read, how the fold splits over concatenation, and that every
 step can be undone, so distinct units and distinct starting hashes never
 collide after one more step.
 */
module FnvProperties {
  import opened Bitwise
  import Modular
  import opened FnvDetail
  import opened Fnv

  /** The fold splits at any point: hashing a + b continues from the hash of a. */
  lemma {:induction false} FoldConcat(w: Width, prime: nat, hash: nat, a: seq<int>, b: seq<int>)
    requires prime < Modulus(w) && hash < Modulus(w)
    ensures Fold(w, prime, hash, a + b) == Fold(w, prime, Fold(w, prime, hash, a), b)
    decreases |b|
  {
    if |b| == 0 {
      assert a + b == a;
    } else {
      var b' := b[..|b| - 1];
      assert (a + b)[..|a + b| - 1] == a + b';
      FoldConcat(w, prime, hash, a, b');
    }
  }

  /** The public pointer-plus-length entry point on a + b equals running the
      driver over b, seeded with the hash of a. */
  lemma Fnv1aPtrConcat(w: Width, a: seq<int>, b: seq<int>)
    ensures Fnv1aPtr(a + b, |a + b|, w)
         == Strptr(w, b, |b|, Prime(w), Fnv1aPtr(a, |a|, w))
  {
    assert (a + b)[..|a + b|] == a + b;
    assert a[..|a|] == a;
    assert b[..|b|] == b;
    FoldConcat(w, Prime(w), OffsetBasis(w), a, b);
  }

  /** fnv1a_strptr reads input[0 .. len) only: units at index len or later
      never affect the result. */
  lemma StrptrReadsPrefixOnly(w: Width, input: seq<int>, other: seq<int>, len: nat, prime: nat, hash: nat)
    requires len <= |input| && len <= |other|
    requires prime < Modulus(w) && hash < Modulus(w)
    requires forall i :: 0 <= i < len ==> input[i] == other[i]
    ensures Strptr(w, input, len, prime, hash) == Strptr(w, other, len, prime, hash)
  {
    assert input[..len] == other[..len];
  }

  /** fnv1a_strlit never looks at the last array element: two arrays that
      agree everywhere but there hash alike, and the hash is that of the
      units before it. */
  lemma StrlitSkipsTerminator(w: Width, text: seq<int>, t1: int, t2: int, prime: nat, hash: nat)
    requires prime < Modulus(w) && hash < Modulus(w)
    ensures Strlit(w, text + [t1], prime, hash) == Strlit(w, text + [t2], prime, hash)
    ensures Strlit(w, text + [t1], prime, hash) == Strptr(w, text, |text|, prime, hash)
  {
    assert (text + [t1])[..|text|] == text;
    assert (text + [t2])[..|text|] == text;
    assert text[..|text|] == text;
  }

  /** A multiplicative inverse of the prime modulo 2^W. */
  function InversePrime(w: Width): (q: nat)
    ensures q < Modulus(w)
    ensures (Prime(w) * q) % Modulus(w) == 1
  {
    if w == W64 then 14886173955864302971 else 899433627
  }

  /** Undoes one step of fnv1a_compute with the width's own prime: multiply
      by the inverse prime, then remove the unit with another exclusive-or. */
  function Uncompute(w: Width, input: int, r: nat): nat {
    XorW(w, (r * InversePrime(w)) % Modulus(w), Widen(w, input))
  }

  /** Multiplying by the prime and then by its inverse restores a hash value. */
  lemma PrimeCancels(w: Width, x: nat)
    requires x < Modulus(w)
    ensures (((x * Prime(w)) % Modulus(w)) * InversePrime(w)) % Modulus(w) == x
  {
    Modular.MulModInverse(x, Prime(w), InversePrime(w), Modulus(w));
  }

  /** Every step is invertible: the previous hash can be recovered from the
      next one and the unit. */
  lemma ComputeRoundTrip(w: Width, input: int, hash: nat)
    requires hash < Modulus(w)
    ensures Uncompute(w, input, Compute(w, input, Prime(w), hash)) == hash
  {
    ModulusIsPow2(w);
    PrimeCancels(w, XorW(w, hash, Widen(w, input)));
    XorSelfInverse(hash, Widen(w, input), Bits(w));
  }

  /** From one running hash, two units lead to the same next hash exactly
      when they convert to the same value of the hash type. */
  lemma ComputeSeparatesUnits(w: Width, hash: nat, u1: int, u2: int)
    requires hash < Modulus(w)
    ensures Compute(w, u1, Prime(w), hash) == Compute(w, u2, Prime(w), hash)
        <==> Widen(w, u1) == Widen(w, u2)
  {
    ModulusIsPow2(w);
    var x1 := XorW(w, hash, Widen(w, u1));
    var x2 := XorW(w, hash, Widen(w, u2));
    PrimeCancels(w, x1);
    PrimeCancels(w, x2);
    XorCancel(hash, Widen(w, u1), Widen(w, u2), Bits(w));
  }

  /** Walks the fold backwards over s, undoing one step per unit. */
  function Unfold(w: Width, r: nat, s: seq<int>): nat
    decreases |s|
  {
    if |s| == 0 then r
    else Unfold(w, Uncompute(w, s[|s| - 1], r), s[..|s| - 1])
  }

  /** Unfold inverts the fold over the same units. */
  lemma {:induction false} FoldRoundTrip(w: Width, hash: nat, s: seq<int>)
    requires hash < Modulus(w)
    ensures Unfold(w, Fold(w, Prime(w), hash, s), s) == hash
    decreases |s|
  {
    if |s| > 0 {
      var s' := s[..|s| - 1];
      ComputeRoundTrip(w, s[|s| - 1], Fold(w, Prime(w), hash, s'));
      FoldRoundTrip(w, hash, s');
    }
  }

  /** Different seeds never reach the same hash over the same units. */
  lemma FoldInjective(w: Width, h1: nat, h2: nat, s: seq<int>)
    requires h1 < Modulus(w) && h2 < Modulus(w)
    ensures Fold(w, Prime(w), h1, s) == Fold(w, Prime(w), h2, s) <==> h1 == h2
  {
    FoldRoundTrip(w, h1, s);
    FoldRoundTrip(w, h2, s);
  }

  /** Two texts that differ only in their last unit collide exactly when
      those units convert to the same value of the hash type. */
  lemma LastUnitDecides(w: Width, text: seq<int>, u1: int, u2: int)
    ensures Fnv1aPtr(text + [u1], |text| + 1, w) == Fnv1aPtr(text + [u2], |text| + 1, w)
        <==> Widen(w, u1) == Widen(w, u2)
  {
    StrptrStep(w, text + [u1], |text|, Prime(w), OffsetBasis(w));
    StrptrStep(w, text + [u2], |text|, Prime(w), OffsetBasis(w));
    StrptrReadsPrefixOnly(w, text + [u1], text + [u2], |text|, Prime(w), OffsetBasis(w));
    ComputeSeparatesUnits(w, Fnv1aPtr(text + [u1], |text|, w), u1, u2);
  }

  /** The signedness of plain char shows in the hash: after any text, the
      byte 0xFF read as signed char (-1) and as unsigned char (255) hashes
      differently, at both widths, because -1 is widened by sign extension. */
  lemma CharSignednessMatters(w: Width, text: seq<int>)
    ensures Fnv1aPtr(text + [-1], |text| + 1, w) != Fnv1aPtr(text + [0xFF], |text| + 1, w)
  {
    assert Widen(w, -1) == Modulus(w) - 1 && Widen(w, 0xFF) == 0xFF;
    LastUnitDecides(w, text, -1, 0xFF);
  }
}
