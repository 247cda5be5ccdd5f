/**
 The floating conversions: a number as the integer before the point and the
 integer behind it, each printed by `__int_str`. The arithmetic is that of the
 real numbers; the rounding of `double` itself is not modelled.
 */
module FloatFormat {
  import opened Words
  import opened CStrings
  import opened DivMod
  import opened IntFormat

  const POINT: byte := '.' as int

  /** A cast to an integer type drops what is behind the point. */
  function Trunc(x: real): (t: int)
    ensures x >= 0.0 ==> t as real <= x < t as real + 1.0
    ensures x < 0.0 ==> t as real - 1.0 < x <= t as real
  {
    if x >= 0.0 then x.Floor else -((-x).Floor)
  }

  datatype Scientific = Scientific(mantissa: real, expo: nat)

  /** Dividing by ten while the number is at least ten. */
  function Normalised(x: real, e: nat): (r: Scientific)
    decreases if x >= 10.0 then x.Floor else 0
  {
    if x >= 10.0 then Normalised(x / 10.0, e + 1) else Scientific(x, e)
  }

  /** Multiplying by ten `n` times. */
  function TimesTen(x: real, n: nat): real
    decreases n
  {
    if n == 0 then x else TimesTen(x * 10.0, n - 1)
  }

  /** The number printed behind the point. */
  function Decimals(x: real, prec: nat): int {
    Trunc(TimesTen(x - Trunc(x) as real, prec) + 0.5)
  }

  /** At most `prec` characters of it. */
  function DecimalText(d: int, prec: nat): seq<byte> {
    var t := Rendered(d, 10, false, false, 0, false, false);
    if |t| <= prec then t else t[..prec]
  }

  /** The width left for the part before the point. */
  function WholeWidth(width: int, prec: int, alt: bool, emode: bool, expo: nat): nat {
    var form := width - prec - expo - (if prec != 0 || alt then 1 else 0) - if emode then 4 else 0;
    if form < 0 then 0 else form
  }

  /** The casts are in range, the buffers suffice and the division handles the decimals. */
  ghost predicate Handled(x: real, width: int, prec: int, alt: bool, emode: bool) {
    var n := if emode then Normalised(x, 0) else Scientific(x, 0);
    && -0x8000_0000 <= Trunc(n.mantissa) < 0x8000_0000 && 0 <= prec < 256
    && WholeWidth(width, prec, alt, emode, n.expo) < 256 && NoBitLost(n.expo, 10)
    && NoBitLost(Abs(Decimals(n.mantissa, prec)), 10)
  }

  /** The point and what stands behind it. */
  function Fraction(x: real, prec: nat, alt: bool): seq<byte> {
    if prec != 0 then [POINT] + DecimalText(Decimals(x, prec), prec)
    else if alt then [POINT]
    else []
  }

  /** "e+" or "E+" and at least two digits. */
  function ExponentText(letter: byte, expo: nat): seq<byte> {
    [letter, PLUS] + Rendered(expo, 10, false, false, 2, false, true)
  }

  function Whole(x: real, plus: bool, space: bool, width: int, left: bool, zero: bool): seq<byte> {
    Rendered(Trunc(x), 10, plus, space, width, left, zero)
  }
}
