/**
 The user-defined literal operators of namespace fnv::literals. Each one
 forwards the literal's units and length to the pointer-plus-length driver
 with the constant pair of its width; there is one per character kind
 (char, wchar_t) and width.
 */
module FnvLiterals {
  import opened FnvDetail
  import opened Fnv

  /** Units a `char` can hold, whichever signedness the platform gives it. */
  predicate IsCharText(ptr: seq<int>) {
    forall i :: 0 <= i < |ptr| ==> -0x80 <= ptr[i] <= 0xFF
  }

  /** Units a `wchar_t` can hold on the usual platforms: 16-bit unsigned,
      32-bit signed or 32-bit unsigned. */
  predicate IsWideText(ptr: seq<int>) {
    forall i :: 0 <= i < |ptr| ==> -0x8000_0000 <= ptr[i] <= 0xFFFF_FFFF
  }

  /** operator "" _fnv1a_32(const char *ptr, size_t len) */
  function Fnv1a32Char(ptr: seq<int>, len: nat): (r: nat)
    requires IsCharText(ptr) && len <= |ptr|
    ensures r < 0x1_0000_0000
    ensures r == Fnv1aPtr(ptr, len, W32)
  {
    Strptr(W32, ptr, len, B32Prime, B32OffsetBasis)
  }

  /** operator "" _fnv1a_64(const char *ptr, size_t len) */
  function Fnv1a64Char(ptr: seq<int>, len: nat): (r: nat)
    requires IsCharText(ptr) && len <= |ptr|
    ensures r < 0x1_0000_0000_0000_0000
    ensures r == Fnv1aPtr(ptr, len, W64)
  {
    Strptr(W64, ptr, len, B64Prime, B64OffsetBasis)
  }

  /** operator "" _fnv1a_32(const wchar_t *ptr, size_t len) */
  function Fnv1a32Wide(ptr: seq<int>, len: nat): (r: nat)
    requires IsWideText(ptr) && len <= |ptr|
    ensures r < 0x1_0000_0000
    ensures r == Fnv1aPtr(ptr, len, W32)
  {
    Strptr(W32, ptr, len, B32Prime, B32OffsetBasis)
  }

  /** operator "" _fnv1a_64(const wchar_t *ptr, size_t len) */
  function Fnv1a64Wide(ptr: seq<int>, len: nat): (r: nat)
    requires IsWideText(ptr) && len <= |ptr|
    ensures r < 0x1_0000_0000_0000_0000
    ensures r == Fnv1aPtr(ptr, len, W64)
  {
    Strptr(W64, ptr, len, B64Prime, B64OffsetBasis)
  }

  /** A literal `"text"_fnv1a_W` sees the text of the string literal, whose
      array also holds a terminator, with len = |text|: it hashes to the same
      value as passing the whole array to fnv1a. */
  lemma LiteralMatchesArray(text: seq<int>, terminator: int)
    ensures IsCharText(text + [terminator]) ==>
      && Fnv1a32Char(text + [terminator], |text|) == Fnv1aArray(text + [terminator], W32)
      && Fnv1a64Char(text + [terminator], |text|) == Fnv1aArray(text + [terminator], W64)
    ensures IsWideText(text + [terminator]) ==>
      && Fnv1a32Wide(text + [terminator], |text|) == Fnv1aArray(text + [terminator], W32)
      && Fnv1a64Wide(text + [terminator], |text|) == Fnv1aArray(text + [terminator], W64)
  {
  }

  /** Units are widened by value, not by their storage size: every char text
      is also wchar_t text, and it hashes to the same value through the
      narrow and the wide operator of one width. */
  lemma NarrowAndWideAgree(ptr: seq<int>, len: nat)
    requires IsCharText(ptr) && len <= |ptr|
    ensures Fnv1a32Char(ptr, len) == Fnv1a32Wide(ptr, len)
    ensures Fnv1a64Char(ptr, len) == Fnv1a64Wide(ptr, len)
  {
  }
}
