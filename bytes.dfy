/**
 * Byte-level vocabulary shared by the model: the C `unsigned char` and
 * `unsigned int` types, the C-locale character classes the parser uses,
 * NUL-terminated string views and the byte-wise XOR of the unlock step.
 */
module Bytes {

  /** A C `unsigned char`. */
  type byte = bv8

  /** A C `unsigned int` (32 bits). */
  type uint32 = x: int | 0 <= x < 0x1_0000_0000

  const UINT_MODULUS: int := 0x1_0000_0000
  /** `ULONG_MAX` of an LP64 platform: the range of `strtoul`. */
  const ULONG_MAX: int := 0xFFFF_FFFF_FFFF_FFFF

  const NUL: byte := 0x00
  const NEWLINE: byte := 0x0A
  const COLON: byte := 0x3A

  datatype Option<T> = None | Some(value: T)

  /** `isgraph` in the C locale: printable and not a space. */
  predicate IsGraph(b: byte) { 0x21 <= b <= 0x7E }

  /** `isspace` in the C locale: space, \t, \n, \v, \f, \r. */
  predicate IsSpace(b: byte) { b == 0x20 || 0x09 <= b <= 0x0D }

  /** `isdigit` in the C locale. */
  predicate IsDigit(b: byte) { 0x30 <= b <= 0x39 }

  function Zeros(n: nat): seq<byte> { seq(n, _ => 0) }

  /**
   * Reads byte `i` of a C string whose bytes are `s`: every position at or
   * past the end of `s` reads as the terminating NUL.
   */
  function At(s: seq<byte>, i: nat): byte { if i < |s| then s[i] else NUL }

  /**
   * The C string stored in `s`: the bytes before the first NUL (all of `s`
   * when it holds none). This is what `strcmp` compares.
   */
  function CStr(s: seq<byte>): (r: seq<byte>)
    ensures NUL !in r
    ensures |r| <= |s| && r == s[..|r|]
    ensures |r| < |s| ==> s[|r|] == NUL
  {
    if s == [] || s[0] == NUL then [] else [s[0]] + CStr(s[1..])
  }

  /** The byte-wise exclusive or of two equally long byte strings. */
  function XorBytes(a: seq<byte>, k: seq<byte>): (r: seq<byte>)
    requires |a| == |k|
    ensures |r| == |a|
  {
    seq(|a|, i requires 0 <= i < |a| => a[i] ^ k[i])
  }

  /** XOR with the same keystream twice gives back the original bytes. */
  lemma XorTwiceRestores(a: seq<byte>, k: seq<byte>)
    requires |a| == |k|
    ensures XorBytes(XorBytes(a, k), k) == a
  {
  }

  /**
   * `explicit_memzero(a, n)`: overwrites the first `n` bytes with zeros and
   * leaves the rest alone.
   */
  method ExplicitMemzero(a: array<byte>, n: nat)
    requires n <= a.Length
    modifies a
    ensures a[..n] == Zeros(n)
    ensures a[n..] == old(a[n..])
  {
    forall i | 0 <= i < n {
      a[i] := 0;
    }
  }
}
