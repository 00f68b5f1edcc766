# constexpr FNV-1a, modelled in Dafny

This project models the header `constexpr_fnv.hpp`. It is a compile-time
implementation of the FNV-1a hash for 32-bit and 64-bit output, following
section 2 of the FNV IETF draft (draft-eastlake-fnv). The constants are the
FNV primes of its section 2.1 and the offset bases of its section 2.2.

The header has three layers, and there is one Dafny module per layer.

- **`FnvDetail`** models namespace `fnv::detail`:
  - the constant pairs of `constant::b32` and `constant::b64`;
  - the single step `fnv1a_compute`, which does `hash ^= input; hash *= prime` on the hash type;
  - the two loops `fnv1a_strlit` and `fnv1a_strptr`.
- **`Fnv`** models the two public `fnv1a` overloads. One takes a fixed-size array and the other a pointer and length. Each picks the constant pair from the requested hash type.
- **`FnvLiterals`** models the four user-defined literal operators `_fnv1a_32` and `_fnv1a_64`, for `char` and `wchar_t` text.

Representation:

- **Hash values.** A value of the hash type `T` (`uint32_t` or `uint64_t`) is an integer in `[0, 2^W)`. The wrap-around of `hash *= prime` is written as `% 2^W`.
- **`^` on `T`.** This is `Bitwise.Xor`, an exclusive-or over the low W bits defined bit by bit.
- **Input units.** A `char` or `wchar_t` unit is a plain `int` of either sign. The conversion that `hash ^= input` applies to the unit is `FnvDetail.Widen`, which takes the value modulo `2^W`. That is the usual arithmetic conversion to an unsigned type, so a negative `char` is sign-extended.
- **Pointers and arrays.** A pointer, or an array of `N` units, is a `seq<int>`. A pointer's readable extent is the length of the sequence.

The loop drivers are written twice:

- as functions (`Strlit`, `Strptr`) over one functional fold, `Fold`;
- as methods (`StrlitLoop`, `StrptrLoop`) that follow the C++ loops statement for statement, with the loop invariant that ties them together.

The supporting modules are:

- `Modular`: modular-arithmetic facts;
- `Bitwise`: the exclusive-or;
- `FnvProperties`: invertibility, concatenation, prefix reads and terminators;
- `FnvVectors`: the published test vectors, proved by symbolic evaluation.

## Model

| member | source | states |
|---|---|---|
| FnvDetail.Prime | constexpr_fnv.hpp:16-24 | the FNV prime of each width is a value of the hash type and is odd, which makes multiplication by it invertible modulo 2^W |
| FnvDetail.OffsetBasis | constexpr_fnv.hpp:16-24 | the offset basis of each width is a value of the hash type |
| FnvDetail.Widen | constexpr_fnv.hpp:28 | converting an input unit to the hash type keeps every representable value and maps a negative one to its two's-complement image u + 2^W |
| Bitwise.Xor | constexpr_fnv.hpp:28 | `^` on n-bit values stays an n-bit value |
| FnvDetail.XorW | constexpr_fnv.hpp:28 | `hash ^= input` on T yields a value of T |
| Bitwise.XorSelfInverse | constexpr_fnv.hpp:28 | xoring the same unit twice restores the hash |
| Bitwise.XorCancel | constexpr_fnv.hpp:28 | for a fixed hash, xoring two units gives the same result if and only if the units are equal |
| Bitwise.XorByte | constexpr_fnv.hpp:28 | `^` on the low eight bits equals the bit-by-bit sum of differing bits |
| FnvDetail.Compute | constexpr_fnv.hpp:26-32 | one step of fnv1a_compute never leaves the hash type: the result is below 2^W |
| FnvDetail.Fold | constexpr_fnv.hpp:43-50 | folding any sequence of units from a hash of type T yields a value of T |
| FnvDetail.Strptr | constexpr_fnv.hpp:43-50 | fnv1a_strptr returns a value of T, and with len = 0 returns the seed hash unchanged |
| FnvDetail.StrptrStep | constexpr_fnv.hpp:45-47 | one more loop iteration folds exactly one more unit, input[len], into the running hash |
| FnvDetail.Strlit | constexpr_fnv.hpp:34-41 | fnv1a_strlit over an N-unit array equals fnv1a_strptr over the same units with len = N - 1 |
| FnvDetail.StrlitLoop | constexpr_fnv.hpp:34-41 | the imperative loop `for i < N - 1` computes the fold of the first N - 1 units, with the invariant that after i iterations the hash is the fold of the first i units |
| FnvDetail.StrptrLoop | constexpr_fnv.hpp:43-50 | the imperative loop `for i < len` computes the fold of the first len units, with the same invariant |
| Fnv.Fnv1aArray | constexpr_fnv.hpp:54-64 | the array overload selects the b64 constants for uint64_t and the b32 constants otherwise, with uint32_t as the default hash type, and equals the pointer overload with len = N - 1 |
| Fnv.Fnv1aPtr | constexpr_fnv.hpp:66-76 | the pointer overload selects the constant pair by width, with uint32_t as the default hash type, returns a value of the hash type, and returns the offset basis for len = 0 |
| Fnv.DefaultIsW32 | constexpr_fnv.hpp:54-76 | called without a hash type, both overloads hash with the 32-bit constant pair |
| FnvLiterals.Fnv1a32Char | constexpr_fnv.hpp:96-98 | `"..."_fnv1a_32` on char text is a 32-bit value equal to fnv1a<uint32_t>(ptr, len) |
| FnvLiterals.Fnv1a64Char | constexpr_fnv.hpp:100-102 | `"..."_fnv1a_64` on char text is a 64-bit value equal to fnv1a<uint64_t>(ptr, len) |
| FnvLiterals.Fnv1a32Wide | constexpr_fnv.hpp:104-106 | `L"..."_fnv1a_32` on wchar_t text is a 32-bit value equal to fnv1a<uint32_t>(ptr, len) |
| FnvLiterals.Fnv1a64Wide | constexpr_fnv.hpp:108-110 | `L"..."_fnv1a_64` on wchar_t text is a 64-bit value equal to fnv1a<uint64_t>(ptr, len) |
| FnvLiterals.LiteralMatchesArray | constexpr_fnv.hpp:96-110 | a literal operator applied to a text equals the array overload applied to that text's terminated array, for both character kinds and both widths |
| FnvLiterals.NarrowAndWideAgree | constexpr_fnv.hpp:96-110 | any char text, read as wchar_t text with the same unit values, hashes to the same value through the narrow and the wide operator of one width |
| FnvProperties.FoldConcat | constexpr_fnv.hpp:44-49 | hashing a + b equals continuing the fold over b from the hash of a |
| FnvProperties.Fnv1aPtrConcat | constexpr_fnv.hpp:66-76 | fnv1a(a + b) equals fnv1a_strptr over b seeded with fnv1a(a) |
| FnvProperties.StrptrReadsPrefixOnly | constexpr_fnv.hpp:44-49 | fnv1a_strptr reads only input[0 .. len): two inputs that agree there hash alike |
| FnvProperties.StrlitSkipsTerminator | constexpr_fnv.hpp:34-41 | the last array element never affects fnv1a_strlit, and the result is the hash of the units before it |
| FnvProperties.InversePrime | constexpr_fnv.hpp:16-24 | each width's prime has a multiplicative inverse modulo 2^W |
| FnvProperties.PrimeCancels | constexpr_fnv.hpp:29 | `hash *= prime` on T can be undone by multiplying by the inverse prime |
| FnvProperties.ComputeRoundTrip | constexpr_fnv.hpp:26-32 | every fnv1a_compute step is invertible: the previous hash is recovered from the next hash and the unit |
| FnvProperties.ComputeSeparatesUnits | constexpr_fnv.hpp:26-32 | from one hash, two units give the same next hash if and only if they convert to the same value of T |
| FnvProperties.FoldRoundTrip | constexpr_fnv.hpp:44-49 | undoing the steps of the fold in reverse order recovers the seed hash |
| FnvProperties.FoldInjective | constexpr_fnv.hpp:44-49 | over the same units, two seed hashes reach the same result if and only if they are equal |
| FnvProperties.LastUnitDecides | constexpr_fnv.hpp:66-76 | two texts that differ only in their last unit collide if and only if those units convert to the same value of T |
| FnvProperties.CharSignednessMatters | constexpr_fnv.hpp:28 | after any text, the byte 0xFF hashes differently as signed char (-1, sign-extended) and as unsigned char (255), at both widths |
| FnvVectors.EmptyString | constexpr_fnv.hpp:54-64 | fnv1a("") is 0x811c9dc5 with the default hash type and 0xcbf29ce484222325 as uint64_t |
| FnvVectors.LetterA32 | constexpr_fnv.hpp:54-64 | fnv1a("a"), with the default hash type, is 0xe40c292c |
| FnvVectors.LetterA64 | constexpr_fnv.hpp:54-64 | fnv1a<uint64_t>("a") is 0xaf63dc4c8601ec8c |
| FnvVectors.Foobar32 | constexpr_fnv.hpp:54-64 | fnv1a("foobar"), with the default hash type, is 0xbf9cf968 |
| FnvVectors.Foobar64 | constexpr_fnv.hpp:54-64 | fnv1a<uint64_t>("foobar") is 0x85944171f73967e8 |

## Left out

- The `v(expr)` macro and `forced_value::detail::v` (constexpr_fnv.hpp:6-13) are left out. They only force compile-time evaluation and compute nothing.
- `make_type_unique_hash` (constexpr_fnv.hpp:80-92) is left out. It hashes `__FUNCSIG__` or `__PRETTY_FUNCTION__`, whose text the compiler makes up. All it adds beyond the array overload is that unknown text.
- The `static_assert`s (constexpr_fnv.hpp:56-57, 68-69) are not modelled as checks. The hash type is the closed datatype `Width`, so no other hash type can be written. The character kind appears only as a range of unit values in `IsCharText` and `IsWideText`.
- The sizes and signedness of `char` and `wchar_t` depend on the platform and are not fixed. `IsCharText` accepts any value of a signed or unsigned 8-bit char. `IsWideText` accepts any value of a 16-bit or 32-bit `wchar_t`. Any unit value is modelled exactly as C++ converts it.
- Narrow and wide encodings of the same text are not claimed to hash differently. The header converts each unit by value (constexpr_fnv.hpp:28), so units with equal values hash alike through `char` and `wchar_t`; `FnvLiterals.NarrowAndWideAgree` states this.
- `std::size_t` bounds on `len` and `N` are not modelled; lengths are unbounded naturals. Reading past the end of the pointed-to text is excluded by `len <= |input|`, because the C++ caller must guarantee it.
- Integer promotion on a platform where `int` is wider than 32 bits is not modelled. There `uint32_t * uint32_t` would be computed in `int`. The model assumes the usual 32-bit `int`, where the product wraps modulo 2^32.
- Compile-time evaluation (`constexpr`) is not modelled. Every function of the model is pure, so it returns the same value wherever it is evaluated.
