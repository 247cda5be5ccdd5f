/**
 `__int_str`: an integer as text in a given base, with sign, width and padding.
 */
module IntFormat {
  import opened Words
  import opened Numerals
  import opened CStrings
  import opened DivMod

  /** digits[]: sixteen digits and the NUL that a seventeenth digit would print. */
  const DIGITS: seq<byte> := [
    48, 49, 50, 51, 52, 53, 54, 55, 56, 57, 65, 66, 67, 68, 69, 70, 0]

  function Abs(v: int): nat { if v < 0 then -v else v }

  function DigitText(ds: seq<nat>): (t: seq<byte>)
    requires InBase(ds, 17)
    ensures |t| == |ds|
  {
    seq(|ds|, k requires 0 <= k < |ds| => DIGITS[ds[k]])
  }

  function SignText(value: int, plus: bool, space: bool): seq<byte> {
    if value < 0 then [MINUS] else if plus then [PLUS] else if space then [SPACE] else []
  }

  /** Sign and canonical digits, before padding. */
  function Natural(value: int, base: nat, plus: bool, space: bool): (t: seq<byte>)
    requires 2 <= base <= 17
    ensures |t| >= 1
  {
    DigitsCanonical(Abs(value), base);
    SignText(value, plus, space) + DigitText(Digits(Abs(value), base))
  }

  function Padding(n: int, zero: bool): (t: seq<byte>)
    ensures |t| == if n > 0 then n else 0
  {
    seq(if n > 0 then n else 0, _ => if zero then ZERO else SPACE)
  }

  /** A text as a C string sees it: up to the first NUL. */
  function UpToNul(t: seq<byte>): (r: seq<byte>)
    ensures |r| <= |t| && r == t[..|r|] && 0 !in r && (|r| < |t| ==> t[|r|] == 0)
  {
    if t == [] || t[0] == 0 then [] else [t[0]] + UpToNul(t[1..])
  }

  /** What the buffer holds at the end. */
  function Rendered(value: int, base: nat, plus: bool, space: bool, width: int, left: bool, zero: bool): seq<byte>
    requires 2 <= base <= 17
  {
    var t := Natural(value, base, plus, space);
    var pad := Padding(width - |t|, zero);
    if left then UpToNul(t + pad) else pad + UpToNul(t)
  }

  lemma UpToNulIs(t: seq<byte>, r: seq<byte>)
    requires r <= t && 0 !in r && (|r| < |t| ==> t[|r|] == 0)
    ensures UpToNul(t) == r
  {
  }

  /** A terminated copy of a text holds the text up to its first NUL. */
  lemma {:induction false} StrOfText(s: seq<byte>, t: seq<byte>)
    requires |t| < |s| && s[..|t|] == t && s[|t|] == 0
    ensures Terminated(s, 0) && Str(s, 0) == UpToNul(t)
  {
  }

  // ----- sizes

  /** Every number the division handles fits the 65-byte scratch buffer. */
  lemma {:induction false} NaturalLength(value: int, base: nat, plus: bool, space: bool)
    requires 2 <= base <= 17 && NoBitLost(Abs(value), base)
    ensures |Natural(value, base, plus, space)| <= 34
  {
    var n := Abs(value);
    SafeBelow33(n, base);
    Pow2Of33();
    PowMonotone(2, base, 33);
    DigitsLength(n, base, 33);
  }

  lemma {:induction false} Pow2Of33()
    ensures Pow(2, 33) == 2 * M32
  {
    BitValues();
    ScaledIsProduct(1, 33);
    assert Scaled(1, 33) == 2 * Scaled(1, 32);
  }

  /** Once one division has succeeded all later ones do. */
  lemma {:induction false} QuotientSafe(n: nat, base: nat)
    requires 2 <= base <= 17 && NoBitLost(n, base)
    ensures NoBitLost(Quot(n, base), base) && n < 2 * M32
  {
    SafeBelow33(n, base);
    hide NoBitLost, Quot, Rem;
    DivModIs(n, base);
    MulMonotone(2, base, Quot(n, base));
    SmallIsSafe(Quot(n, base), base);
  }

  // ----- the routine

  method IntStr(value: int, b: array<byte>, base: nat, plus: bool, space: bool, width: int, left: bool, zero: bool)
    requires 2 <= base <= 17 && NoBitLost(Abs(value), base)
    requires width < 256 && width < b.Length && |Natural(value, base, plus, space)| < b.Length
    modifies b
    ensures Terminated(b[..], 0)
    ensures Str(b[..], 0) == Rendered(value, base, plus, space, width, left, zero)
  {
    hide NoBitLost, Natural, Rendered, Padding, UpToNul, Terminated, Str;
    ghost var text := Natural(value, base, plus, space);
    var buf := new byte[65];
    var i := ReversedText(value, buf, base, plus, space);
    CopyReversed(b, buf, i, text);
    RenderedCases(value, base, plus, space, width, left, zero);
    var pad := width - i;
    if pad > 0 {
      if left {
        PadRight(b, i, pad, zero, text);
      } else {
        PadLeft(b, i, pad, zero, text);
      }
    } else {
      StrOfText(b[..], text);
    }
  }

  /** Reverses the scratch text into the buffer and terminates it. */
  method CopyReversed(b: array<byte>, buf: array<byte>, i: nat, ghost text: seq<byte>)
    requires b != buf && i == |text| < b.Length && i <= buf.Length
    requires forall k :: 0 <= k < i ==> buf[i - k - 1] == text[k]
    modifies b
    ensures b[..i] == text && b[i] == 0
  {
    for j := 0 to i
      invariant forall k :: 0 <= k < j ==> b[k] == text[k]
    {
      b[j] := buf[i - j - 1];
    }
    b[i] := 0;
  }

  lemma {:induction false} RenderedCases(value: int, base: nat, plus: bool, space: bool, width: int, left: bool,
      zero: bool)
    requires 2 <= base <= 17
    ensures var t, r := Natural(value, base, plus, space), Rendered(value, base, plus, space, width, left, zero);
      r == if width <= |t| then UpToNul(t)
           else if left then UpToNul(t + Padding(width - |t|, zero))
           else Padding(width - |t|, zero) + UpToNul(t)
  {
    hide Natural, UpToNul;
    var t := Natural(value, base, plus, space);
    if width <= |t| {
      assert Padding(width - |t|, zero) == [];
      assert t + [] == t && [] + UpToNul(t) == UpToNul(t);
    }
  }

  /** The digits least significant first, then the sign. */
  method ReversedText(value: int, buf: array<byte>, base: nat, plus: bool, space: bool) returns (i: nat)
    requires 2 <= base <= 17 && NoBitLost(Abs(value), base) && buf.Length == 65
    modifies buf
    ensures i == |Natural(value, base, plus, space)| <= 34
    ensures forall k :: 0 <= k < i ==> buf[i - k - 1] == Natural(value, base, plus, space)[k]
  {
    NaturalLength(value, base, plus, space);
    hide Digits, NoBitLost, Natural;
    ghost var ds := Digits(Abs(value), base);
    NaturalIs(value, base, plus, space);
    i := DigitLoop(Abs(value), buf, base);
    if value < 0 {
      buf[i] := MINUS;
      i := i + 1;
    } else if plus {
      buf[i] := PLUS;
      i := i + 1;
    } else if space {
      buf[i] := SPACE;
      i := i + 1;
    }
  }

  lemma {:induction false} NaturalIs(value: int, base: nat, plus: bool, space: bool)
    requires 2 <= base <= 17
    ensures var ds, sign, t := Digits(Abs(value), base), SignText(value, plus, space), Natural(value, base, plus,
      space);
      && InBase(ds, 17) && |t| == |sign| + |ds| && (|sign| == 1 ==> t[0] == sign[0])
      && forall k :: 0 <= k < |ds| ==> t[|sign| + k] == DIGITS[ds[k]]
  {
    hide Digits;
    DigitsCanonical(Abs(value), base);
  }

  /** do { ... } while (n): repeated division. */
  method DigitLoop(value: nat, buf: array<byte>, base: nat) returns (i: nat)
    requires 2 <= base <= 17 && NoBitLost(value, base) && buf.Length == 65
    requires |Digits(value, base)| <= 34
    modifies buf
    ensures i == |Digits(value, base)| && InBase(Digits(value, base), 17)
    ensures forall k :: 0 <= k < i ==> buf[i - k - 1] == DIGITS[Digits(value, base)[k]]
  {
    hide NoBitLost, Digits, Terminates, Outcome, Quot, Rem;
    ghost var ds := Digits(value, base);
    DigitsCanonical(value, base);
    assert ds[..|ds|] == ds;
    var n := value;
    i := 0;
    while true
      invariant NoBitLost(n, base)
      invariant i < |ds| && Digits(n, base) == ds[..|ds| - i]
      invariant forall k :: 0 <= k < i ==> buf[k] == DIGITS[ds[|ds| - 1 - k]]
      decreases n
    {
      QuotientSafe(n, base);
      DividesWhenSafe(n, base);
      DigitStep(ds, n, base, i);
      var quot, rem := DivModU64(n, base);
      buf[i] := DIGITS[rem];
      i := i + 1;
      n := quot;
      if n == 0 {
        break;
      }
    }
  }

  /** The digit one division yields, and what is left to print. */
  lemma {:induction false} DigitStep(ds: seq<nat>, n: nat, base: nat, i: nat)
    requires base >= 2 && i < |ds| && Digits(n, base) == ds[..|ds| - i]
    ensures ds[|ds| - 1 - i] == Rem(n, base)
    ensures Quot(n, base) == 0 ==> i + 1 == |ds|
    ensures Quot(n, base) > 0 ==>
      Quot(n, base) < n && i + 1 < |ds| && Digits(Quot(n, base), base) == ds[..|ds| - (i + 1)]
  {
    DigitsUnfold(n, base);
    assert n < base ==> Quot(n, base) == 0 && Rem(n, base) == n by {
      if n < base {
        DivModUnique(0, n, base);
      }
    }
    hide Digits, Quot, Rem;
    var front := ds[..|ds| - i];
    if n >= base {
      assert ds[..|ds| - (i + 1)] == front[..|front| - 1];
    }
  }

  method PadRight(b: array<byte>, i: nat, pad: nat, zero: bool, ghost text: seq<byte>)
    requires i + pad < b.Length && b[..i] == text && pad > 0
    modifies b
    ensures Terminated(b[..], 0) && Str(b[..], 0) == UpToNul(text + Padding(pad, zero))
  {
    for k := 0 to pad
      invariant b[..i] == text
      invariant b[i..i + k] == Padding(k, zero)
    {
      b[i + k] := if zero then ZERO else SPACE;
      assert b[i..i + k + 1] == b[i..i + k] + [b[i + k]];
      assert Padding(k + 1, zero) == Padding(k, zero) + [b[i + k]];
    }
    b[i + pad] := 0;
    assert b[..i + pad] == b[..i] + b[i..i + pad];
    StrOfText(b[..], text + Padding(pad, zero));
  }

  method FillPadding(tmp: array<byte>, pad: nat, zero: bool)
    requires pad <= tmp.Length
    modifies tmp
    ensures tmp[..pad] == Padding(pad, zero)
  {
    for k := 0 to pad
      invariant forall j :: 0 <= j < k ==> tmp[j] == if zero then ZERO else SPACE
    {
      tmp[k] := if zero then ZERO else SPACE;
    }
  }

  /** Left padding goes through a second buffer and two string copies. */
  method PadLeft(b: array<byte>, i: nat, pad: nat, zero: bool, ghost text: seq<byte>)
    requires i + pad < b.Length && i + pad < 256 && pad > 0
    requires b[..i] == text && b[i] == 0
    modifies b
    ensures Terminated(b[..], 0) && Str(b[..], 0) == Padding(pad, zero) + UpToNul(text)
  {
    ghost var p, u := Padding(pad, zero), UpToNul(text);
    var tmp := new byte[256];
    FillPadding(tmp, pad, zero);
    StrOfText(b[..], text);
    hide Terminated, Str, UpToNul, Spliced;
    SplicedString(tmp[..], pad, u);
    Strcpy(tmp, pad, b[..], 0);
    assert b[..][..0] == [];
    assert b[..][..0] + (p + u) == p + u;
    SplicedString(b[..], 0, p + u);
    Strcpy(b, 0, tmp[..], 0);
  }

  // ----- what the text is, for the sixteen digits there are characters for

  lemma {:induction false} NoNulInNatural(value: int, base: nat, plus: bool, space: bool)
    requires 2 <= base <= 16
    ensures 0 !in Natural(value, base, plus, space)
  {
    hide Digits;
    var ds := Digits(Abs(value), base);
    DigitsCanonical(Abs(value), base);
    forall k | 0 <= k < |ds| ensures DigitText(ds)[k] != 0 {
      assert DIGITS[ds[k]] != 0;
    }
  }

  /** The padded text is the natural text and the padding, side by side, exactly as wide as asked or needed. */
  lemma {:induction false} RenderedShape(value: int, base: nat, plus: bool, space: bool, width: int, left: bool,
      zero: bool)
    requires 2 <= base <= 16
    ensures var t, r := Natural(value, base, plus, space), Rendered(value, base, plus, space, width, left, zero);
      && r == (if left then t + Padding(width - |t|, zero) else Padding(width - |t|, zero) + t)
      && |r| == (if width > |t| then width else |t|) && 0 !in r
  {
    hide Natural, UpToNul;
    var t := Natural(value, base, plus, space);
    var pad := Padding(width - |t|, zero);
    NoNulInNatural(value, base, plus, space);
    UpToNulIs(t, t);
    UpToNulIs(t + pad, t + pad);
  }
}
