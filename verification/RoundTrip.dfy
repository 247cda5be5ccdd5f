/**
 The printer against the parser: what `strtoul` makes of the text that
 `__int_str` produces, for every value, base, flag and width.
 */
module RoundTrip {
  import opened Words
  import opened Numerals
  import opened CStrings
  import opened IntFormat
  import S = Strtoul

  predicate AllSpaces(t: seq<byte>) {
    forall k :: 0 <= k < |t| ==> t[k] == SPACE
  }

  lemma {:induction false} DigitTextRoundTrip(d: nat)
    requires d < 16
    ensures S.DigitOf(DIGITS[d]) == d && !S.IsX(DIGITS[d]) && !S.IsSpace(DIGITS[d])
    ensures DIGITS[d] != MINUS && DIGITS[d] != PLUS
  {
  }

  /** The texts `__int_str` can leave: blanks, a sign, digits, and something that is no digit. */
  ghost predicate Shaped(t: seq<byte>, ws: seq<byte>, sign: seq<byte>, ds: seq<nat>, rest: seq<byte>, base: nat) {
    && 2 <= base <= 16 && InBase(ds, base) && |ds| >= 1
    && InBase(ds, 17) && t == ws + sign + DigitText(ds) + rest
    && AllSpaces(ws) && (sign == [] || sign == [MINUS] || sign == [PLUS])
    && (rest != [] ==> S.DigitOf(rest[0]) >= base && !S.IsX(rest[0]))
  }

  lemma {:induction false} ShapedPrefix(t: seq<byte>, ws: seq<byte>, sign: seq<byte>, ds: seq<nat>, rest: seq<byte>,
      base: nat)
    requires Shaped(t, ws, sign, ds, rest, base)
    ensures S.SubjectOf(t, base) == S.Subject(sign == [MINUS], base, false, |ws| + |sign|)
  {
    hide DigitText, S.SpaceEnd, Shaped;
    ShapedStart(t, ws, sign, ds, rest, base);
    NoPrefix(t, ws, sign, ds, rest, base);
  }

  /** The blanks end where they should, and the sign comes next. */
  lemma {:induction false} ShapedStart(t: seq<byte>, ws: seq<byte>, sign: seq<byte>, ds: seq<nat>, rest: seq<byte>,
      base: nat)
    requires Shaped(t, ws, sign, ds, rest, base)
    ensures 2 <= base && S.SpaceEnd(t, 0) == |ws| && (sign == [] || sign == [MINUS] || sign == [PLUS])
    ensures |ws| < |t| && if sign == [] then t[|ws|] != MINUS && t[|ws|] != PLUS else t[|ws|] == sign[0]
  {
    hide DigitText, S.SpaceEnd;
    var x := DigitText(ds);
    TextOfDigits(ds);
    DigitTextRoundTrip(ds[0]);
    assert t[|ws|..] == sign + x + rest;
    S.SpaceEndIs(t, 0, |ws|);
  }

  /** The character after the first digit is a digit, the end, or something that is no `x`. */
  lemma {:induction false} NoPrefix(t: seq<byte>, ws: seq<byte>, sign: seq<byte>, ds: seq<nat>, rest: seq<byte>,
      base: nat)
    requires Shaped(t, ws, sign, ds, rest, base)
    ensures var i := |ws| + |sign|; i < |t| && t[i] == DIGITS[ds[0]] && !S.IsX(S.At(t, i + 1))
  {
  }

  lemma {:induction false} TextOfDigits(ds: seq<nat>)
    requires InBase(ds, 17)
    ensures forall k :: 0 <= k < |ds| ==> DigitText(ds)[k] == DIGITS[ds[k]]
  {
  }

  lemma {:induction false} ShapedRun(t: seq<byte>, ws: seq<byte>, sign: seq<byte>, ds: seq<nat>, rest: seq<byte>,
      base: nat)
    requires Shaped(t, ws, sign, ds, rest, base)
    ensures var i := |ws| + |sign|;
      S.DigitEnd(t, i, base) == i + |ds| && S.RunValue(t, i, i + |ds|, base) == Value(ds, base)
  {
    hide S.DigitEnd, DigitText, Value;
    var i := |ws| + |sign|;
    TextOfDigits(ds);
    assert t[i..i + |ds|] == DigitText(ds);
    forall k | 0 <= k < |ds| ensures S.DigitOf(t[i + k]) == ds[k] {
      assert t[i + k] == DigitText(ds)[k];
      DigitTextRoundTrip(ds[k]);
    }
    assert rest != [] ==> t[i + |ds|] == rest[0];
    assert forall k :: i <= k < i + |ds| ==> S.DigitOf(t[k]) == ds[k - i];
    S.DigitEndIs(t, i, base, i + |ds|);
    assert S.DigitValues(t[i..i + |ds|]) == ds;
  }

  /** Such a text is parsed as its digits, signed and brought into the word. */
  lemma {:induction false} ParseShaped(t: seq<byte>, ws: seq<byte>, sign: seq<byte>, ds: seq<nat>, rest: seq<byte>,
      base: nat, modulus: nat)
    requires Shaped(t, ws, sign, ds, rest, base) && modulus >= 1
    ensures S.Parse(t, base, modulus) ==
      S.Parsed(S.Clamp(Value(ds, base), sign == [MINUS], modulus), |ws| + |sign| + |ds|)
  {
    assert |ds| >= 1;
    hide Shaped, S.SubjectOf, S.DigitEnd, S.RunValue, Value;
    ShapedPrefix(t, ws, sign, ds, rest, base);
    ShapedRun(t, ws, sign, ds, rest, base);
  }

  // ----- all renderings, all values

  /** The sign character that `strtoul` sees; a blank in place of a plus is white space to it. */
  function ParsedSign(value: int, plus: bool): seq<byte> {
    if value < 0 then [MINUS] else if plus then [PLUS] else []
  }

  /** The magnitude with `pad` zeros written behind it. */
  function ScaledUp(value: int, base: nat, pad: nat): nat {
    Abs(value) * Pow(base, pad)
  }

  /**
   What the parser returns for the rendering: the value itself, unless zeros were
   padded on the left of a sign (zero) or on the right (the value scaled up).
   */
  function ParsedBack(value: int, base: nat, plus: bool, space: bool, width: int, left: bool, zero: bool,
      modulus: nat): nat
    requires 2 <= base <= 16 && modulus >= 1
  {
    var pad := width - |Natural(value, base, plus, space)|;
    if pad <= 0 || !zero then S.Clamp(Abs(value), value < 0, modulus)
    else if left then S.Clamp(ScaledUp(value, base, pad), value < 0, modulus)
    else if SignText(value, plus, space) == [] then S.Clamp(Abs(value), false, modulus)
    else 0
  }

  /** The blank that stands for a sign, if there is one. */
  function BlankSign(value: int, plus: bool, space: bool): seq<byte> {
    if value >= 0 && !plus && space then [SPACE] else []
  }

  lemma {:induction false} NaturalParts(value: int, base: nat, plus: bool, space: bool)
    requires 2 <= base <= 16
    ensures InBase(Digits(Abs(value), base), base) && InBase(Digits(Abs(value), base), 17)
    ensures Value(Digits(Abs(value), base), base) == Abs(value)
    ensures Natural(value, base, plus, space) ==
      BlankSign(value, plus, space) + ParsedSign(value, plus) + DigitText(Digits(Abs(value), base))
  {
    DigitsCanonical(Abs(value), base);
    hide Digits, Value;
    var x := DigitText(Digits(Abs(value), base));
    assert [] + x == x && [] + [] + x == x;
  }

  lemma {:induction false} ZeroText(k: nat, ds: seq<nat>)
    requires InBase(ds, 17)
    ensures InBase(Zeros(k) + ds, 17) && InBase(ds + Zeros(k), 17)
    ensures Padding(k, true) + DigitText(ds) == DigitText(Zeros(k) + ds)
    ensures DigitText(ds) + Padding(k, true) == DigitText(ds + Zeros(k))
  {
  }

  /** No padding, or blanks on either side. */
  lemma {:induction false} BlankPadded(value: int, base: nat, plus: bool, space: bool, pre: seq<byte>,
      post: seq<byte>, modulus: nat)
    requires 2 <= base <= 16 && modulus >= 1 && AllSpaces(pre) && AllSpaces(post)
    ensures S.Parse(pre + Natural(value, base, plus, space) + post, base, modulus).value ==
      S.Clamp(Abs(value), value < 0, modulus)
  {
    hide Natural, Digits, Value;
    var t, ds := Natural(value, base, plus, space), Digits(Abs(value), base);
    NaturalParts(value, base, plus, space);
    var ws, sign := pre + BlankSign(value, plus, space), ParsedSign(value, plus);
    assert pre + t + post == ws + sign + DigitText(ds) + post;
    ParseShaped(pre + t + post, ws, sign, ds, post, base, modulus);
  }

  lemma {:induction false} ZerosRight(value: int, base: nat, plus: bool, space: bool, k: nat, modulus: nat)
    requires 2 <= base <= 16 && modulus >= 1
    ensures S.Parse(Natural(value, base, plus, space) + Padding(k, true), base, modulus).value ==
      S.Clamp(ScaledUp(value, base, k), value < 0, modulus)
  {
    hide Natural, Digits, Value, DigitText, Pow, Padding;
    var t, ds := Natural(value, base, plus, space), Digits(Abs(value), base);
    NaturalParts(value, base, plus, space);
    var ws, sign := BlankSign(value, plus, space), ParsedSign(value, plus);
    ZeroText(k, ds);
    TrailingZeros(ds, k, base);
    var text := t + Padding(k, true);
    assert text == ws + sign + DigitText(ds + Zeros(k)) + [];
    ParseShaped(text, ws, sign, ds + Zeros(k), [], base, modulus);
  }

  lemma {:induction false} ZerosLeftUnsigned(value: int, base: nat, k: nat, modulus: nat)
    requires 2 <= base <= 16 && modulus >= 1 && value >= 0
    ensures S.Parse(Padding(k, true) + Natural(value, base, false, false), base, modulus).value ==
      S.Clamp(value, false, modulus)
  {
    hide Natural, Digits, Value, DigitText, Padding;
    var t, ds := Natural(value, base, false, false), Digits(value, base);
    NaturalParts(value, base, false, false);
    ZeroText(k, ds);
    LeadingZeros(k, ds, base);
    var text := Padding(k, true) + t;
    assert t == DigitText(ds);
    assert text == [] + [] + DigitText(Zeros(k) + ds) + [];
    ParseShaped(text, [], [], Zeros(k) + ds, [], base, modulus);
  }

  lemma {:induction false} ZerosLeftSigned(value: int, base: nat, plus: bool, space: bool, k: nat, modulus: nat)
    requires 2 <= base <= 16 && modulus >= 1 && k > 0 && SignText(value, plus, space) != []
    ensures S.Parse(Padding(k, true) + Natural(value, base, plus, space), base, modulus).value == 0
  {
    var t := Natural(value, base, plus, space);
    assert t[0] == SignText(value, plus, space)[0];
    hide Natural, Value, DigitText, Padding;
    ZeroText(k, []);
    LeadingZeros(k, [], base);
    var text := Padding(k, true) + t;
    assert Zeros(k) + [] == Zeros(k) && DigitText([]) == [];
    assert text == [] + [] + DigitText(Zeros(k)) + t;
    ParseShaped(text, [], [], Zeros(k), t, base, modulus);
    assert Value([], base) == 0 by { ZeroValue(base); }
  }

  lemma {:induction false} ZeroValue(base: nat)
    ensures Value([], base) == 0
  {
  }

  /** The round trip, for every value, base 2 to 16, every flag, width and word size. */
  lemma {:induction false} ParseOfRendered(value: int, base: nat, plus: bool, space: bool, width: int, left: bool,
      zero: bool, modulus: nat)
    requires 2 <= base <= 16 && modulus >= 1
    ensures S.Parse(Rendered(value, base, plus, space, width, left, zero), base, modulus).value ==
      ParsedBack(value, base, plus, space, width, left, zero, modulus)
  {
    hide Natural, S.Parse, S.Clamp, Rendered;
    RenderedShape(value, base, plus, space, width, left, zero);
    var t, r := Natural(value, base, plus, space), Rendered(value, base, plus, space, width, left, zero);
    var pad := Padding(width - |t|, zero);
    if width <= |t| || !zero {
      BlankPadded(value, base, plus, space, if left then [] else pad, if left then pad else [], modulus);
      assert r == (if left then [] else pad) + t + (if left then pad else []);
    } else if left {
      ZerosRight(value, base, plus, space, width - |t|, modulus);
    } else if SignText(value, plus, space) == [] {
      ZerosLeftUnsigned(value, base, width - |t|, modulus);
    } else {
      ZerosLeftSigned(value, base, plus, space, width - |t|, modulus);
    }
  }

  /** Padding that cannot spoil the number: none, blanks, or zeros before an unsigned number. */
  predicate HarmlessPadding(value: int, base: nat, plus: bool, space: bool, width: int, left: bool, zero: bool)
    requires 2 <= base <= 16
  {
    width <= |Natural(value, base, plus, space)| || !zero || (!left && SignText(value, plus, space) == [])
  }

  /** With such padding, `strtoul` returns the printed value modulo 2^W whenever its magnitude fits the word. */
  lemma {:induction false} PrintParse(value: int, base: nat, plus: bool, space: bool, width: int, left: bool,
      zero: bool, modulus: nat)
    requires 2 <= base <= 16 && modulus >= 1 && Abs(value) < modulus
    requires HarmlessPadding(value, base, plus, space, width, left, zero)
    ensures S.Parse(Rendered(value, base, plus, space, width, left, zero), base, modulus).value == value % modulus
  {
    hide Natural, Rendered, S.Parse;
    ParseOfRendered(value, base, plus, space, width, left, zero, modulus);
    WordOf(value, modulus);
  }

  lemma WordOf(value: int, modulus: nat)
    requires modulus >= 1 && Abs(value) < modulus
    ensures S.Clamp(Abs(value), value < 0, modulus) == value % modulus
  {
    if value < 0 {
      WrapNegative(value, modulus);
      SmallMod(modulus + value, modulus);
    } else {
      SmallMod(value, modulus);
    }
  }

  lemma WrapNegative(value: int, modulus: nat)
    requires 0 < -value < modulus
    ensures value % modulus == modulus + value
  {
  }

  /** Zeros on the right can still be right by accident: at saturation, for the one value that saturates to itself. */
  predicate SaturatesToItself(value: int, base: nat, pad: int, modulus: nat) {
    pad > 0 && ScaledUp(value, base, pad) >= modulus && (value == -1 || value == modulus - 1)
  }

  /** Exactly when the round trip succeeds, among values whose magnitude fits the word. */
  lemma {:induction false} RoundTripIff(value: int, base: nat, plus: bool, space: bool, width: int, left: bool,
      zero: bool, modulus: nat)
    requires 2 <= base <= 16 && modulus >= 1 && Abs(value) < modulus
    ensures S.Parse(Rendered(value, base, plus, space, width, left, zero), base, modulus).value == value % modulus
      <==> || HarmlessPadding(value, base, plus, space, width, left, zero) || value == 0
           || (left && SaturatesToItself(value, base, width - |Natural(value, base, plus, space)|, modulus))
  {
    hide Natural, Rendered, S.Parse;
    ParseOfRendered(value, base, plus, space, width, left, zero, modulus);
    WordOf(value, modulus);
    var pad := width - |Natural(value, base, plus, space)|;
    if pad > 0 && zero && left {
      ScaledWord(value, base, pad, modulus);
    } else if !HarmlessPadding(value, base, plus, space, width, left, zero) && value != 0 {
      if value < 0 {
        WrapNegative(value, modulus);
      }
    }
  }

  /**
   It fails for -5 printed with zeros to width 4, read as 0, and for 5 with zeros behind it to
   width 3, read as 500.
   */
  lemma {:induction false} PaddingSpoils(modulus: nat)
    requires modulus > 500
    ensures Rendered(-5, 10, false, false, 4, false, true) == [48, 48, 45, 53]
    ensures S.Parse(Rendered(-5, 10, false, false, 4, false, true), 10, modulus).value == 0 != -5 % modulus
    ensures Rendered(5, 10, false, false, 3, true, true) == [53, 48, 48]
    ensures S.Parse(Rendered(5, 10, false, false, 3, true, true), 10, modulus).value == 500
  {
    hide S.Parse, Rendered;
    assert Digits(5, 10) == [5];
    assert Natural(-5, 10, false, false) == [45, 53] && Natural(5, 10, false, false) == [53];
    RenderedShape(-5, 10, false, false, 4, false, true);
    RenderedShape(5, 10, false, false, 3, true, true);
    ParseOfRendered(-5, 10, false, false, 4, false, true, modulus);
    ParseOfRendered(5, 10, false, false, 3, true, true, modulus);
    assert Pow(10, 2) == 100;
    WrapNegative(-5, modulus);
  }

  lemma {:induction false} ScaledWord(value: int, base: nat, pad: nat, modulus: nat)
    requires base >= 2 && pad > 0 && modulus >= 1 && Abs(value) < modulus
    ensures S.Clamp(ScaledUp(value, base, pad), value < 0, modulus) == value % modulus
      <==> value == 0 || SaturatesToItself(value, base, pad, modulus)
  {
    var v, p := Abs(value), Pow(base, pad);
    assert p >= 2 by {
      MulMonotone(1, Pow(base, pad - 1), base);
    }
    hide Pow;
    MulMonotone(2, p, v);
    EnlargedWord(value, v * p, modulus);
  }

  lemma EnlargedWord(value: int, w: nat, modulus: nat)
    requires modulus >= 1 && Abs(value) < modulus && w >= 2 * Abs(value) && (value == 0 ==> w == 0)
    ensures S.Clamp(w, value < 0, modulus) == value % modulus
      <==> value == 0 || (w >= modulus && (value == -1 || value == modulus - 1))
  {
    if value < 0 {
      WrapNegative(value, modulus);
      if w < modulus {
        SmallMod(modulus - w, modulus);
      }
    } else {
      SmallMod(value, modulus);
    }
  }

  lemma SmallMod(a: nat, m: nat)
    requires a < m
    ensures a % m == a
  {
  }
}
