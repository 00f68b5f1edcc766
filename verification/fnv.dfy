/**
 The public entry points of namespace fnv: the two `fnv1a` overloads, which
 pick the constant pair from the requested hash type and call a driver. The
 hash type is a template parameter that defaults to uint32_t, so the width
 comes last here and defaults to W32.
 */
module Fnv {
  import opened FnvDetail

  /** fnv1a(const U(&input)[N]): the hash of a fixed-size array, its last
      unit (the string terminator) left out. */
  function Fnv1aArray(input: seq<int>, w: Width := W32): (r: nat)
    requires |input| >= 1
    ensures w == W64 ==> r == Strlit(W64, input, Prime(W64), OffsetBasis(W64))
    ensures w == W32 ==> r == Strlit(W32, input, Prime(W32), OffsetBasis(W32))
    ensures r == Fnv1aPtr(input, |input| - 1, w)
  {
    if w == W64 then Strlit(W64, input, B64Prime, B64OffsetBasis)
    else Strlit(W32, input, B32Prime, B32OffsetBasis)
  }

  /** fnv1a(const U *input, size_t len): the hash of the first len units. */
  function Fnv1aPtr(input: seq<int>, len: nat, w: Width := W32): (r: nat)
    requires len <= |input|
    ensures r < Modulus(w)
    ensures w == W64 ==> r == Strptr(W64, input, len, Prime(W64), OffsetBasis(W64))
    ensures w == W32 ==> r == Strptr(W32, input, len, Prime(W32), OffsetBasis(W32))
    ensures len == 0 ==> r == OffsetBasis(w)
  {
    if w == W64 then Strptr(W64, input, len, B64Prime, B64OffsetBasis)
    else Strptr(W32, input, len, B32Prime, B32OffsetBasis)
  }

  /** Without a hash type, both overloads hash to 32 bits, as in `fnv1a("a")`. */
  lemma DefaultIsW32(input: seq<int>, len: nat)
    requires 1 <= |input| && len <= |input|
    ensures Fnv1aArray(input) == Strlit(W32, input, Prime(W32), OffsetBasis(W32))
    ensures Fnv1aPtr(input, len) == Strptr(W32, input, len, Prime(W32), OffsetBasis(W32))
  {
  }
}
