/**
 Fixed-width quantities shared by every part of the model.

 C's unsigned types are integers confined to a range, and wrap-around is
 written out wherever the source relies on it.
 */
module Words {

  type byte = b: int | 0 <= b < 256

  /** A text of ASCII characters as bytes. */
  function Ascii(s: string): (t: seq<byte>)
    requires forall k :: 0 <= k < |s| ==> s[k] as int < 128
    ensures |t| == |s| && forall k :: 0 <= k < |s| ==> t[k] == s[k] as int
  {
    seq(|s|, k requires 0 <= k < |s| => s[k] as int)
  }

  const M32: int := 0x1_0000_0000
  const M64: int := 0x1_0000_0000_0000_0000

  type U64 = x: int | 0 <= x < M64

  /** A mathematical integer stored in a UINT64. */
  function Wrap(x: int): (r: U64) {
    x % M64
  }

  /** UINT64 addition: the address `k` bytes past `a`, around the 64-bit ring. */
  function Plus(a: U64, k: U64): (x: U64) {
    if a + k < M64 then a + k else a + k - M64
  }

  /** UINT64 subtraction: the number of steps from `a` up to `x` around the ring. */
  function Off(x: U64, a: U64): (k: U64) {
    if a <= x then x - a else x - a + M64
  }

  /** Both are the mathematical operation modulo 2^64. */
  lemma WrappingArithmetic(a: U64, b: U64)
    ensures Plus(a, b) == Wrap(a + b) && Off(a, b) == Wrap(a - b)
  {
  }

  /** The address of element `k` of an array of `size`-byte elements at `t`. */
  function Element(t: U64, size: nat, k: nat): (x: U64) {
    Wrap(t + size * k)
  }

  lemma ElementInside(t: U64, size: nat, k: nat)
    requires t + size * k < M64
    ensures Element(t, size, k) == t + size * k
  {
  }
}
