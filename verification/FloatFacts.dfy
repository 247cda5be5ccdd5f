/**
 What %f prints against section 7.21.6.1 of ISO C11: the decimal notation of the
 number, rounded to the precision. Exactly when the code prints that.
 */
module FloatFacts {
  import opened Words
  import opened Numerals
  import opened CStrings
  import opened IntFormat
  import opened FloatFormat

  // ----- the standard

  /** `n` is a nearest integer of `y`; between two integers both are. */
  ghost predicate Nearest(n: int, y: real) {
    n as real - 0.5 <= y <= n as real + 0.5
  }

  ghost predicate IsDecimal(ds: seq<nat>) {
    InBase(ds, 10) && InBase(ds, 17)
  }

  /** Digits before the point, at least one and no superfluous zero, and digits behind it. */
  ghost predicate Notation(x: real, prec: nat, ws: seq<nat>, fs: seq<nat>) {
    && IsDecimal(ws) && IsDecimal(fs) && |ws| >= 1 && (|ws| > 1 ==> ws[0] != 0) && |fs| == prec
    && Nearest(Value(ws + fs, 10), Scale(Magnitude(x), prec))
  }

  /** `prec` places to the left. */
  function Scale(y: real, prec: nat): real {
    y * Pow(10, prec) as real
  }

  function Magnitude(x: real): real {
    if x < 0.0 then -x else x
  }

  ghost function NotationText(x: real, ws: seq<nat>, fs: seq<nat>): seq<byte>
    requires IsDecimal(ws) && IsDecimal(fs)
  {
    (if x < 0.0 then [MINUS] else []) + DigitText(ws) + if fs == [] then [] else [POINT] + DigitText(fs)
  }

  /** `t` is what %.nf asks for. */
  ghost predicate IsFixed(t: seq<byte>, x: real, prec: nat) {
    exists ws, fs :: Notation(x, prec, ws, fs) && t == NotationText(x, ws, fs)
  }

  // ----- the code

  /** What the code prints for %.nf without flags and width. */
  function CodeFixed(x: real, prec: nat): seq<byte> {
    Whole(x, false, false, 0, false, false) + Fraction(x, prec, false)
  }

  /**
   It is right when rounding leaves the decimals as many as asked for: no zero at their
   front and no carry into the integer. Of negative numbers, only those that have an
   integer part and no decimals to speak of.
   */
  ghost predicate FixedRight(x: real, prec: nat) {
    var rest := Magnitude(x - Trunc(x) as real);
    if x < 0.0 then Trunc(x) <= -1 && prec <= 1 && Scale(rest, prec) <= 0.5
    else if prec == 0 then rest <= 0.5
    else Decimals(x, prec) < Pow(10, prec) && (prec == 1 || Pow(10, prec - 1) <= Decimals(x, prec))
  }

  // ----- arithmetic

  lemma {:induction false} TimesTenIs(x: real, n: nat)
    ensures TimesTen(x, n) == Scale(x, n)
    decreases n
  {
    if n > 0 {
      TimesTenIs(x * 10.0, n - 1);
      RealProduct(10, Pow(10, n - 1));
      RealAssociates(x, 10.0, Pow(10, n - 1) as real);
    }
  }

  lemma RealAssociates(a: real, b: real, c: real)
    ensures (a * b) * c == a * (b * c)
  {
  }

  /** The decimals are the rounded rest, between 0 and 10^n for a number that is not negative. */
  lemma {:induction false} DecimalsRounded(x: real, prec: nat)
    requires x >= 0.0
    ensures 0 <= Decimals(x, prec) <= Pow(10, prec)
    ensures Nearest(Decimals(x, prec), Scale(x - Trunc(x) as real, prec))
  {
    var rest := x - Trunc(x) as real;
    TimesTenIs(rest, prec);
    ScalePart(rest, prec);
    hide TimesTen, Pow, Scale;
    RoundedUp(TimesTen(rest, prec), Pow(10, prec));
  }

  lemma RoundedUp(y: real, p: int)
    requires 0.0 <= y < p as real
    ensures 0 <= Trunc(y + 0.5) <= p && Nearest(Trunc(y + 0.5), y)
  {
  }

  lemma ScalePart(rest: real, prec: nat)
    requires 0.0 <= rest < 1.0
    ensures 0.0 <= Scale(rest, prec) < Pow(10, prec) as real
  {
    hide Pow;
    PartOf(rest, Pow(10, prec) as real);
  }

  lemma PartOf(rest: real, p: real)
    requires 0.0 <= rest < 1.0 && p >= 1.0
    ensures 0.0 <= rest * p < p
  {
  }

  /** Of a negative number they are negative or zero. */
  lemma {:induction false} DecimalsNegative(x: real, prec: nat)
    requires x < 0.0
    ensures Decimals(x, prec) <= 0
    ensures Scale(Magnitude(x - Trunc(x) as real), prec) <= 0.5 ==> Decimals(x, prec) == 0
  {
    var rest := Trunc(x) as real - x;
    TimesTenIs(-rest, prec);
    ScalePart(rest, prec);
    ScaleNegative(rest, prec);
    hide TimesTen, Pow, Scale;
    assert Magnitude(x - Trunc(x) as real) == rest && x - Trunc(x) as real == -rest;
  }

  lemma ScaleNegative(y: real, prec: nat)
    ensures Scale(-y, prec) == -Scale(y, prec)
  {
  }

  lemma {:induction false} ValueAppend(a: seq<nat>, b: seq<nat>)
    ensures Value(a + b, 10) == Value(a, 10) * Pow(10, |b|) + Value(b, 10)
    decreases |b|
  {
    if b == [] {
      assert a + b == a;
    } else {
      var init, last := b[..|b| - 1], b[|b| - 1];
      assert b == init + [last] && a + b == a + init + [last];
      hide Value;
      ValueAppend(a, init);
      ValueSnoc(a + init, last, 10);
      ValueSnoc(init, last, 10);
      MulAssoc(Value(a, 10), Pow(10, |b| - 1), 10);
    }
  }

  lemma {:induction false} ValueBound(ds: seq<nat>)
    requires InBase(ds, 10)
    ensures Value(ds, 10) < Pow(10, |ds|)
  {
    if ds != [] {
      ValueBound(ds[..|ds| - 1]);
    }
  }

  lemma {:induction false} PowGrows(j: nat, k: nat)
    requires j <= k
    ensures Pow(10, j) <= Pow(10, k)
  {
    if j < k {
      PowGrows(j, k - 1);
    }
  }

  /** A number has `k` digits exactly when it is below 10^k and, for k > 1, not below 10^(k-1). */
  lemma {:induction false} DigitCount(n: nat, k: nat)
    requires k >= 1
    ensures |Digits(n, 10)| == k <==> n < Pow(10, k) && (k == 1 || Pow(10, k - 1) <= n)
  {
    hide Digits, Pow, Value;
    var ds := Digits(n, 10);
    DigitsCanonical(n, 10);
    ValueBound(ds);
    if |ds| == k {
      if k > 1 && n < Pow(10, k - 1) {
        DigitsLength(n, 10, k - 1);
        assert false;
      }
    } else if n < Pow(10, k) {
      DigitsLength(n, 10, k);
      PowGrows(|ds|, k - 1);
    }
  }

  // ----- texts

  lemma {:induction false} DecimalCharacters(ds: seq<nat>)
    requires IsDecimal(ds)
    ensures forall k :: 0 <= k < |ds| ==> DigitText(ds)[k] == 48 + ds[k]
    ensures POINT !in DigitText(ds) && MINUS !in DigitText(ds)
  {
    forall k | 0 <= k < |ds| ensures DigitText(ds)[k] == 48 + ds[k] {
      DecimalCharacter(ds[k]);
    }
  }

  lemma DecimalCharacter(d: nat)
    requires d < 10
    ensures DIGITS[d] == 48 + d
  {
  }

  lemma {:induction false} SameDigits(a: seq<nat>, b: seq<nat>)
    requires IsDecimal(a) && IsDecimal(b) && DigitText(a) == DigitText(b)
    ensures a == b
  {
    DecimalCharacters(a);
    DecimalCharacters(b);
    forall k | 0 <= k < |a| ensures a[k] == b[k] {
      assert DigitText(a)[k] == DigitText(b)[k];
    }
  }

  /** A text without a point is followed by its point at one place only. */
  lemma {:induction false} SplitAtPoint(a: seq<byte>, b: seq<byte>, a': seq<byte>, b': seq<byte>)
    requires POINT !in a && POINT !in a' && a + ([POINT] + b) == a' + ([POINT] + b')
    ensures a == a' && b == b'
  {
    var t, t' := a + ([POINT] + b), a' + ([POINT] + b');
    assert t[|a|] == POINT && forall i :: 0 <= i < |a| ==> t[i] != POINT;
    assert t'[|a'|] == POINT && forall i :: 0 <= i < |a'| ==> t'[i] != POINT;
    assert |a| == |a'|;
    assert t[..|a|] == a && t[..|a|] == a';
    assert t[|a| + 1..] == b && t[|a| + 1..] == b';
  }

  function SignOf(negative: bool): seq<byte> {
    if negative then [MINUS] else []
  }

  /** An integer without flags and width. */
  lemma {:induction false} BareNumber(v: int)
    ensures IsDecimal(Digits(Abs(v), 10))
    ensures Rendered(v, 10, false, false, 0, false, false) == SignOf(v < 0) + DigitText(Digits(Abs(v), 10))
  {
    DigitsCanonical(Abs(v), 10);
    hide Digits, Rendered;
    RenderedShape(v, 10, false, false, 0, false, false);
    var t := Natural(v, 10, false, false);
    assert Padding(0 - |t|, false) + t == t;
  }

  /** The text of the decimals, cut to `prec` characters. */
  lemma {:induction false} BareDecimals(d: int, prec: nat)
    requires prec >= 1
    ensures IsDecimal(Digits(Abs(d), 10))
    ensures d >= 0 ==> var ds := Digits(d, 10);
      DecimalText(d, prec) == DigitText(if |ds| <= prec then ds else ds[..prec])
    ensures d < 0 ==> MINUS in DecimalText(d, prec)
  {
    BareNumber(d);
    hide Digits, Rendered;
    var ds := Digits(Abs(d), 10);
    if d >= 0 {
      assert [] + DigitText(ds) == DigitText(ds);
      assert |ds| > prec ==> DigitText(ds)[..prec] == DigitText(ds[..prec]);
    } else {
      assert DecimalText(d, prec)[0] == MINUS;
    }
  }

  lemma {:induction false} CodeFixedParts(x: real, prec: nat)
    ensures IsDecimal(Digits(Abs(Trunc(x)), 10))
    ensures CodeFixed(x, prec) == SignOf(Trunc(x) < 0) + DigitText(Digits(Abs(Trunc(x)), 10)) +
      if prec == 0 then [] else [POINT] + DecimalText(Decimals(x, prec), prec)
  {
    BareNumber(Trunc(x));
    hide Digits, Rendered, DecimalText, Decimals;
  }

  /** Two such texts are the same only part by part. */
  lemma {:induction false} SameParts(neg: bool, a: seq<nat>, u: seq<byte>, neg': bool, a': seq<nat>, u': seq<byte>,
      point: bool)
    requires IsDecimal(a) && IsDecimal(a') && |a| >= 1 && |a'| >= 1
    requires SignOf(neg) + DigitText(a) + (if point then [POINT] + u else []) ==
      SignOf(neg') + DigitText(a') + (if point then [POINT] + u' else [])
    ensures neg == neg' && a == a' && (point ==> u == u')
  {
    DecimalCharacters(a);
    DecimalCharacters(a');
    var s, s' := SignOf(neg) + DigitText(a), SignOf(neg') + DigitText(a');
    if point {
      SplitAtPoint(s, u, s', u');
    } else {
      assert s + [] == s && s' + [] == s';
    }
    assert s[0] == MINUS <==> neg;
    assert s'[0] == MINUS <==> neg';
    assert s == s';
    assert DigitText(a) == s[|SignOf(neg)|..] && DigitText(a') == s'[|SignOf(neg)|..];
    SameDigits(a, a');
  }

  // ----- exactness

  lemma {:induction false} WholeNotation(x: real)
    ensures var ws := Digits(Abs(Trunc(x)), 10);
      IsDecimal(ws) && Value(ws, 10) == Abs(Trunc(x)) && |ws| >= 1 && (|ws| > 1 ==> ws[0] != 0)
  {
    hide Digits, Value;
    DigitsCanonical(Abs(Trunc(x)), 10);
  }

  /** The number is its integer part and the rest, scaled. */
  lemma {:induction false} Shifted(x: real, prec: nat, w: nat, f: nat)
    requires w == Abs(Trunc(x))
    ensures Nearest(w * Pow(10, prec) + f, Scale(Magnitude(x), prec)) <==>
      Nearest(f, Scale(Magnitude(x - Trunc(x) as real), prec))
  {
    var rest := Magnitude(x - Trunc(x) as real);
    assert Magnitude(x) == w as real + rest;
    hide Pow, Nearest, Magnitude, Trunc;
    ScaleSum(w, rest, prec);
    NearestShift(w * Pow(10, prec), f, Scale(Magnitude(x), prec), Scale(rest, prec));
  }

  lemma ScaleSum(w: nat, rest: real, prec: nat)
    ensures Scale(w as real + rest, prec) == (w * Pow(10, prec)) as real + Scale(rest, prec)
  {
    hide Pow;
    var p := Pow(10, prec);
    Distributes(w as real, rest, p as real);
    RealProduct(w, p);
  }

  lemma RealProduct(w: int, p: int)
    ensures (w * p) as real == w as real * p as real
  {
  }

  lemma NearestShift(n: int, f: int, y: real, z: real)
    requires y == n as real + z
    ensures Nearest(n + f, y) <==> Nearest(f, z)
  {
  }

  lemma Distributes(a: real, b: real, c: real)
    ensures (a + b) * c == a * c + b * c
  {
  }

  /** Written with the integer part and the digits `fs`, the number is right exactly when they round the rest. */
  lemma {:induction false} NotationIff(x: real, prec: nat, fs: seq<nat>)
    requires IsDecimal(fs) && |fs| == prec
    ensures Notation(x, prec, Digits(Abs(Trunc(x)), 10), fs) <==>
      Nearest(Value(fs, 10), Scale(Magnitude(x - Trunc(x) as real), prec))
  {
    hide Digits, Value, Pow, Nearest, Magnitude, Scale;
    var ws := Digits(Abs(Trunc(x)), 10);
    WholeNotation(x);
    ValueAppend(ws, fs);
    assert Value(ws + fs, 10) == Abs(Trunc(x)) * Pow(10, prec) + Value(fs, 10);
    Shifted(x, prec, Abs(Trunc(x)), Value(fs, 10));
  }

  /** A text that the code prints is right only in one way: its own parts must be the notation. */
  lemma {:induction false} OwnParts(x: real, prec: nat, ws: seq<nat>, fs: seq<nat>)
    requires Notation(x, prec, ws, fs) && CodeFixed(x, prec) == NotationText(x, ws, fs)
    ensures (Trunc(x) < 0) == (x < 0.0) && ws == Digits(Abs(Trunc(x)), 10)
    ensures prec >= 1 ==> DecimalText(Decimals(x, prec), prec) == DigitText(fs)
  {
    hide Digits, Value, Pow, Nearest, CodeFixed, Decimals, DecimalText;
    CodeFixedParts(x, prec);
    WholeNotation(x);
    SameParts(Trunc(x) < 0, Digits(Abs(Trunc(x)), 10), DecimalText(Decimals(x, prec), prec),
              x < 0.0, ws, DigitText(fs), prec >= 1);
  }

  /** Decimals that carried over are cut to a wrong number. */
  lemma {:induction false} CarryIsWrong(x: real, prec: nat, fs: seq<nat>)
    requires x >= 0.0 && prec >= 1 && Decimals(x, prec) == Pow(10, prec)
    requires |Digits(Pow(10, prec), 10)| > prec && IsDecimal(fs) && fs == Digits(Pow(10, prec), 10)[..prec]
    ensures !Nearest(Value(fs, 10), Scale(x - Trunc(x) as real, prec))
  {
    var d, ds := Pow(10, prec), Digits(Pow(10, prec), 10);
    DecimalsRounded(x, prec);
    PowGrows(1, prec);
    DigitsUnfold(d, 10);
    DivModUnique(Pow(10, prec - 1), 0, 10);
    DigitCount(Quot(d, 10), prec);
    DigitsCanonical(Quot(d, 10), 10);
    hide Digits, Value, Decimals, Quot, Rem;
    assert d == Pow(10, prec - 1) * 10 + 0;
    assert fs == Digits(Quot(d, 10), 10);
    assert Value(fs, 10) == Pow(10, prec - 1);
  }

  lemma {:induction false} PositiveOnlyIf(x: real, prec: nat, fs: seq<nat>)
    requires x >= 0.0 && prec >= 1 && IsDecimal(fs) && |fs| == prec
    requires Nearest(Value(fs, 10), Scale(x - Trunc(x) as real, prec))
    requires DecimalText(Decimals(x, prec), prec) == DigitText(fs)
    ensures FixedRight(x, prec)
  {
    hide Digits, Value, Pow, Nearest, Scale, Decimals, DecimalText;
    var d := Decimals(x, prec);
    DecimalsRounded(x, prec);
    BareDecimals(d, prec);
    var ds := Digits(d, 10);
    DigitCount(d, prec);
    if |ds| > prec {
      SameDigits(ds[..prec], fs);
      ManyDigits(d, prec);
      CarryIsWrong(x, prec, fs);
      assert false;
    } else {
      SameDigits(ds, fs);
    }
  }

  /** Of the numbers up to 10^k only 10^k has more than `k` digits. */
  lemma {:induction false} ManyDigits(d: nat, k: nat)
    requires k >= 1 && d <= Pow(10, k) && |Digits(d, 10)| > k
    ensures d == Pow(10, k)
  {
    hide Digits, Pow;
    if d < Pow(10, k) {
      DigitsLength(d, 10, k);
      assert false;
    }
  }

  lemma {:induction false} PositiveIf(x: real, prec: nat)
    requires x >= 0.0 && prec >= 1 && FixedRight(x, prec)
    ensures IsFixed(CodeFixed(x, prec), x, prec)
  {
    hide Digits, Value, Pow, Nearest, Scale, Decimals, DecimalText, CodeFixed;
    var d := Decimals(x, prec);
    DecimalsRounded(x, prec);
    DigitCount(d, prec);
    var ws, fs := Digits(Abs(Trunc(x)), 10), Digits(d, 10);
    DigitsCanonical(d, 10);
    NotationIff(x, prec, fs);
    BareDecimals(d, prec);
    CodeFixedParts(x, prec);
    assert CodeFixed(x, prec) == NotationText(x, ws, fs);
  }

  /** Without decimals. */
  lemma {:induction false} NoDecimalsIff(x: real)
    ensures IsFixed(CodeFixed(x, 0), x, 0) <==> FixedRight(x, 0)
  {
    hide Digits, Value, Nearest, CodeFixed, Decimals;
    var rest := Magnitude(x - Trunc(x) as real);
    CodeFixedParts(x, 0);
    var ws := Digits(Abs(Trunc(x)), 10);
    NotationIff(x, 0, []);
    ZeroNearest(rest);
    assert Scale(rest, 0) == rest;
    if FixedRight(x, 0) {
      assert CodeFixed(x, 0) == NotationText(x, ws, []);
    }
    if IsFixed(CodeFixed(x, 0), x, 0) {
      var ws', fs' :| Notation(x, 0, ws', fs') && CodeFixed(x, 0) == NotationText(x, ws', fs');
      OwnParts(x, 0, ws', fs');
      assert fs' == [];
    }
  }

  lemma {:induction false} ZeroNearest(y: real)
    requires y >= 0.0
    ensures Value([], 10) == 0 && Value([0], 10) == 0 && (Nearest(0, y) <==> y <= 0.5)
  {
    ValueOne(0, 10);
  }

  /** Negative numbers with decimals: only a single decimal that is zero comes out right. */
  lemma {:induction false} NegativeIff(x: real, prec: nat)
    requires x < 0.0 && prec >= 1
    ensures IsFixed(CodeFixed(x, prec), x, prec) <==> FixedRight(x, prec)
  {
    hide Digits, Value, Nearest, CodeFixed, Decimals, DecimalText, Pow, Scale;
    var d, ws, y := Decimals(x, prec), Digits(Abs(Trunc(x)), 10), Scale(Magnitude(x - Trunc(x) as real), prec);
    DecimalsNegative(x, prec);
    CodeFixedParts(x, prec);
    BareDecimals(d, prec);
    OneZero();
    ScalePositive(Magnitude(x - Trunc(x) as real), prec);
    ZeroNearest(y);
    if FixedRight(x, prec) {
      NotationIff(x, prec, [0]);
      assert CodeFixed(x, prec) == NotationText(x, ws, [0]);
    }
    if IsFixed(CodeFixed(x, prec), x, prec) {
      var ws', fs' :| Notation(x, prec, ws', fs') && CodeFixed(x, prec) == NotationText(x, ws', fs');
      OwnParts(x, prec, ws', fs');
      DecimalCharacters(fs');
      assert d == 0;
      SameDigits([0], fs');
      NotationIff(x, prec, fs');
    }
  }

  lemma {:induction false} OneZero()
    ensures Digits(0, 10) == [0] && IsDecimal([0])
  {
  }

  lemma ScalePositive(y: real, prec: nat)
    requires y >= 0.0
    ensures Scale(y, prec) >= 0.0
  {
  }

  /** Exactness: for every number and precision, %.nf prints the decimal notation if and only if `FixedRight` holds. */
  lemma {:induction false} FixedIff(x: real, prec: nat)
    ensures IsFixed(CodeFixed(x, prec), x, prec) <==> FixedRight(x, prec)
  {
    hide FixedRight, CodeFixed;
    if prec == 0 {
      NoDecimalsIff(x);
    } else if x < 0.0 {
      NegativeIff(x, prec);
    } else {
      if FixedRight(x, prec) {
        PositiveIf(x, prec);
      }
      if IsFixed(CodeFixed(x, prec), x, prec) {
        PositiveParts(x, prec);
      }
    }
  }

  lemma {:induction false} PositiveParts(x: real, prec: nat)
    requires x >= 0.0 && prec >= 1 && IsFixed(CodeFixed(x, prec), x, prec)
    ensures FixedRight(x, prec)
  {
    hide CodeFixed, Digits, Value, Pow, Nearest, Scale, Decimals, DecimalText, FixedRight;
    var ws, fs :| Notation(x, prec, ws, fs) && CodeFixed(x, prec) == NotationText(x, ws, fs);
    OwnParts(x, prec, ws, fs);
    NotationIff(x, prec, fs);
    PositiveOnlyIf(x, prec, fs);
  }

  // ----- the exponent

  /** Dividing by ten until the number is below ten. */
  lemma {:induction false} NormalisedIs(x: real, e: nat)
    ensures var r := Normalised(x, e);
      && r.expo >= e && x == Scale(r.mantissa, r.expo - e)
      && (if x < 10.0 then r == Scientific(x, e) else 1.0 <= r.mantissa < 10.0)
    decreases if x >= 10.0 then x.Floor else 0
  {
    if x >= 10.0 {
      NormalisedIs(x / 10.0, e + 1);
      var r := Normalised(x, e);
      ScaleTen(r.mantissa, r.expo - e - 1);
    } else {
      assert Scale(x, 0) == x;
    }
  }

  lemma ScaleTen(y: real, n: nat)
    ensures Scale(y, n + 1) == 10.0 * Scale(y, n)
  {
    RealProduct(10, Pow(10, n));
    RealAssociates(y, 10.0, Pow(10, n) as real);
    assert y * 10.0 == 10.0 * y;
    RealAssociates(10.0, y, Pow(10, n) as real);
  }

  /** What %.ne prints without flags and width. */
  function CodeScientific(x: real, prec: nat, letter: byte): seq<byte> {
    var n := Normalised(x, 0);
    CodeFixed(n.mantissa, prec) + ExponentText(letter, n.expo)
  }

  /** At least two digits, and no more than are needed. */
  ghost predicate ExponentDigits(es: seq<nat>, e: nat) {
    IsDecimal(es) && Value(es, 10) == e && |es| >= 2 && (|es| > 2 ==> es[0] != 0)
  }

  /**
   The standard's scientific notation for an exponent that is not negative: one digit before
   the point, not zero unless the number is, and `y`, the number without its exponent, is
   below ten; below one only if rounding in its own decade reaches one.
   */
  ghost predicate ScientificNotation(x: real, prec: nat, y: real, d: nat, fs: seq<nat>, e: nat, es: seq<nat>) {
    && d < 10 && (x != 0.0 ==> d != 0) && (x == 0.0 ==> e == 0) && ExponentDigits(es, e)
    && x == Scale(y, e) && Notation(y, prec, [d], fs) && Magnitude(y) < 10.0
    && (x != 0.0 && Magnitude(y) < 1.0 ==> Nearest(10 * Value([d] + fs, 10), Scale(Magnitude(y), prec + 1)))
  }

  ghost predicate IsScientificText(t: seq<byte>, x: real, prec: nat, letter: byte) {
    exists y: real, d: nat, fs, e: nat, es :: ScientificNotation(x, prec, y, d, fs, e, es) &&
      t == NotationText(y, [d], fs) + ([letter, PLUS] + DigitText(es))
  }

  /** Right when the mantissa is, and has one digit before the point that is not zero. */
  ghost predicate ScientificRight(x: real, prec: nat) {
    var m := Normalised(x, 0).mantissa;
    FixedRight(m, prec) && (x == 0.0 || 1 <= Abs(Trunc(m)) <= 9)
  }

  lemma {:induction false} ExponentIs(e: nat)
    ensures exists es :: ExponentDigits(es, e) && Rendered(e, 10, false, false, 2, false, true) == DigitText(es)
  {
    hide Digits, Rendered, Value, Natural, Padding, DigitText, Zeros;
    var ds := Digits(e, 10);
    DigitsCanonical(e, 10);
    RenderedShape(e, 10, false, false, 2, false, true);
    ExponentPadded(ds);
    UnsignedText(e);
    if |ds| == 1 {
      LeadingZeros(1, ds, 10);
      assert ExponentDigits(Zeros(1) + ds, e);
    } else {
      assert ExponentDigits(ds, e);
    }
  }

  lemma {:induction false} UnsignedText(e: nat)
    ensures InBase(Digits(e, 10), 17) && Natural(e, 10, false, false) == DigitText(Digits(e, 10))
  {
    hide Digits, DigitText;
    DigitsCanonical(e, 10);
  }

  /** Padding to two places is a leading zero for one digit, and nothing for more. */
  lemma {:induction false} ExponentPadded(ds: seq<nat>)
    requires IsDecimal(ds) && |ds| >= 1
    ensures Padding(2 - |ds|, true) + DigitText(ds) == DigitText(if |ds| == 1 then Zeros(1) + ds else ds)
    ensures |DigitText(ds)| == |ds| && IsDecimal(Zeros(1) + ds) && |Zeros(1)| == 1
  {
  }

  /** The letter stands at one place only. */
  lemma {:induction false} SplitAtLetter(a: seq<byte>, b: seq<byte>, a': seq<byte>, b': seq<byte>, letter: byte)
    requires letter !in a && letter !in a' && a + ([letter] + b) == a' + ([letter] + b')
    ensures a == a' && b == b'
  {
    var t, t' := a + ([letter] + b), a' + ([letter] + b');
    assert t[|a|] == letter && forall i :: 0 <= i < |a| ==> t[i] != letter;
    assert t'[|a'|] == letter && forall i :: 0 <= i < |a'| ==> t'[i] != letter;
    assert |a| == |a'|;
    assert t[..|a|] == a && t[..|a|] == a';
    assert t[|a| + 1..] == b && t[|a| + 1..] == b';
  }

  lemma {:induction false} NoLetterInNotation(x: real, ws: seq<nat>, fs: seq<nat>, letter: byte)
    requires IsDecimal(ws) && IsDecimal(fs) && letter >= 'E' as int
    ensures letter !in NotationText(x, ws, fs)
  {
    DecimalCharacters(ws);
    DecimalCharacters(fs);
  }

  lemma {:induction false} NoLetterInFixed(x: real, prec: nat, letter: byte)
    requires letter >= 'E' as int
    ensures letter !in CodeFixed(x, prec)
  {
    hide Digits, Decimals, DecimalText, CodeFixed;
    CodeFixedParts(x, prec);
    DecimalCharacters(Digits(Abs(Trunc(x)), 10));
    if prec >= 1 {
      NoLetterInDecimals(Decimals(x, prec), prec, letter);
    }
  }

  lemma {:induction false} NoLetterInDecimals(d: int, prec: nat, letter: byte)
    requires letter >= 'E' as int
    ensures letter !in DecimalText(d, prec)
  {
    BareNumber(d);
    hide Digits, Rendered;
    DecimalCharacters(Digits(Abs(d), 10));
    var t := Rendered(d, 10, false, false, 0, false, false);
    assert letter !in t;
  }

  /** Exponent texts are the same only for the same exponent. */
  lemma {:induction false} SameExponent(es: seq<nat>, e: nat, es': seq<nat>, e': nat)
    requires ExponentDigits(es, e) && ExponentDigits(es', e') && DigitText(es) == DigitText(es')
    ensures e == e'
  {
    hide Value;
    SameDigits(es, es');
  }

  lemma ScaleInjective(y: real, y': real, n: nat)
    requires Scale(y, n) == Scale(y', n)
    ensures y == y'
  {
    hide Pow;
    CancelFactor(y, y', Pow(10, n) as real);
  }

  lemma CancelFactor(a: real, b: real, c: real)
    requires c > 0.0 && a * c == b * c
    ensures a == b
  {
  }

  /** Exactness: what %.ne prints is the scientific notation of the number if and only if `ScientificRight` holds. */
  lemma {:induction false} ScientificIff(x: real, prec: nat, letter: byte)
    requires letter == 'e' as int || letter == 'E' as int
    ensures IsScientificText(CodeScientific(x, prec, letter), x, prec, letter) <==> ScientificRight(x, prec)
  {
    if ScientificRight(x, prec) {
      ScientificIf(x, prec, letter);
    }
    if IsScientificText(CodeScientific(x, prec, letter), x, prec, letter) {
      ScientificOnlyIf(x, prec, letter);
    }
  }

  lemma {:induction false} ScientificIf(x: real, prec: nat, letter: byte)
    requires ScientificRight(x, prec)
    ensures IsScientificText(CodeScientific(x, prec, letter), x, prec, letter)
  {
    hide FixedRight, Scale, Normalised, CodeFixed, Digits, Value, Rendered, Nearest, NotationText;
    var n := Normalised(x, 0);
    var m := n.mantissa;
    NormalisedIs(x, 0);
    FixedIff(m, prec);
    var ws, fs :| Notation(m, prec, ws, fs) && CodeFixed(m, prec) == NotationText(m, ws, fs);
    OwnParts(m, prec, ws, fs);
    ExponentIs(n.expo);
    var es :| ExponentDigits(es, n.expo) && Rendered(n.expo, 10, false, false, 2, false, true) == DigitText(es);
    ZeroMantissa(x);
    var d := Abs(Trunc(m));
    SmallDigits(d);
    assert ws == [d];
    assert ScientificNotation(x, prec, m, d, fs, n.expo, es);
  }

  lemma {:induction false} SmallDigits(d: nat)
    ensures d < 10 ==> Digits(d, 10) == [d]
  {
  }

  /** Zero stays zero. */
  lemma {:induction false} ZeroMantissa(x: real)
    ensures x == 0.0 ==> Normalised(x, 0) == Scientific(0.0, 0) && Trunc(0.0) == 0
  {
  }

  lemma {:induction false} ScientificOnlyIf(x: real, prec: nat, letter: byte)
    requires letter == 'e' as int || letter == 'E' as int
    requires IsScientificText(CodeScientific(x, prec, letter), x, prec, letter)
    ensures ScientificRight(x, prec)
  {
    hide FixedRight, Scale, Normalised, CodeFixed, Digits, Value, Rendered, NotationText;
    var n := Normalised(x, 0);
    var m := n.mantissa;
    var y: real, d: nat, fs, e: nat, es :| ScientificNotation(x, prec, y, d, fs, e, es) &&
      CodeScientific(x, prec, letter) == NotationText(y, [d], fs) + ([letter, PLUS] + DigitText(es));
    NormalisedIs(x, 0);
    ExponentIs(n.expo);
    var es' :| ExponentDigits(es', n.expo) && Rendered(n.expo, 10, false, false, 2, false, true) == DigitText(es');
    NoLetterInNotation(y, [d], fs, letter);
    NoLetterInFixed(m, prec, letter);
    SameTails(CodeFixed(m, prec), DigitText(es'), NotationText(y, [d], fs), DigitText(es), letter);
    SameExponent(es', n.expo, es, e);
    ScaleInjective(m, y, e);
    assert IsFixed(CodeFixed(m, prec), m, prec);
    FixedIff(m, prec);
    OwnParts(m, prec, [d], fs);
    SmallDigitsBack(Abs(Trunc(m)), d);
  }

  lemma {:induction false} SmallDigitsBack(n: nat, d: nat)
    requires [d] == Digits(n, 10)
    ensures n == d
  {
    DigitsCanonical(n, 10);
    ValueOne(d, 10);
  }

  lemma {:induction false} SameTails(a: seq<byte>, b: seq<byte>, a': seq<byte>, b': seq<byte>, letter: byte)
    requires letter !in a && letter !in a' && a + ([letter, PLUS] + b) == a' + ([letter, PLUS] + b')
    ensures a == a' && b == b'
  {
    assert [letter, PLUS] + b == [letter] + ([PLUS] + b) && [letter, PLUS] + b' == [letter] + ([PLUS] + b');
    SplitAtLetter(a, [PLUS] + b, a', [PLUS] + b', letter);
    assert ([PLUS] + b)[1..] == b && ([PLUS] + b')[1..] == b';
  }

  // ----- the field width

  /**
   The field of a fixed number is as wide as asked for or needed, when the decimals are as many
   as asked for; that of a scientific one is short by its exponent.
   */
  lemma {:induction false} FloatField(
      x: real, width: int, prec: nat, alt: bool, plus: bool, space: bool, left: bool, zero: bool, emode: bool,
        expo: nat)
    requires prec >= 1 ==> |DecimalText(Decimals(x, prec), prec)| == prec
    requires emode ==> expo < 100
    ensures var whole := |Natural(Trunc(x), 10, plus, space)|;
      var own := whole + (if prec != 0 then 1 + prec else if alt then 1 else 0) + if emode then 4 else 0;
      var form := WholeWidth(width, prec, alt, emode, expo);
      var out := Whole(x, plus, space, form, left, zero) + Fraction(x, prec, alt) +
        if emode then ExponentText('e' as int, expo) else [];
      |out| == if width - expo > own then width - expo else own
  {
    hide Decimals, DecimalText, Rendered, Natural;
    RenderedShape(Trunc(x), 10, plus, space, WholeWidth(width, prec, alt, emode, expo), left, zero);
    if emode {
      ExponentLength(expo);
    }
  }

  lemma {:induction false} ExponentLength(expo: nat)
    requires expo < 100
    ensures |Rendered(expo, 10, false, false, 2, false, true)| == 2
  {
    hide Rendered, Natural, Digits;
    RenderedShape(expo, 10, false, false, 2, false, true);
    assert Pow(10, 2) == 100;
    DigitsLength(expo, 10, 2);
    NaturalIs(expo, 10, false, false);
  }

  // ----- inputs on which it fails

  /** 1.05 with two decimals comes out as "1.5": the zero is lost. */
  lemma {:induction false} LostZero()
    ensures CodeFixed(1.05, 2) == ['1' as int, POINT, '5' as int] && !FixedRight(1.05, 2)
  {
    assert Trunc(1.05) == 1;
    assert TimesTen(0.05, 2) == TimesTen(0.5, 1) == TimesTen(5.0, 0) == 5.0;
    assert Decimals(1.05, 2) == 5;
    assert Pow(10, 1) == 10;
    OneDigitEach();
    CodeFixedParts(1.05, 2);
    BareDecimals(5, 2);
    hide CodeFixed, Digits, DecimalText;
  }

  /** 0.99 with one decimal comes out as "0.1": the carry is lost. */
  lemma {:induction false} LostCarry()
    ensures CodeFixed(0.99, 1) == ['0' as int, POINT, '1' as int] && !FixedRight(0.99, 1)
  {
    assert Trunc(0.99) == 0;
    assert TimesTen(0.99, 1) == TimesTen(9.9, 0) == 9.9;
    assert Decimals(0.99, 1) == 10;
    assert Pow(10, 1) == 10;
    OneDigitEach();
    CodeFixedParts(0.99, 1);
    BareDecimals(10, 1);
    hide CodeFixed, Digits, DecimalText;
    assert [1, 0][..1] == [1];
  }

  lemma {:induction false} OneDigitEach()
    ensures Digits(0, 10) == [0] && Digits(1, 10) == [1] && Digits(5, 10) == [5] && Digits(10, 10) == [1, 0]
    ensures DigitText([0]) == [48] && DigitText([1]) == [49] && DigitText([5]) == [53]
  {
    DigitsUnfold(10, 10);
    DivModUnique(1, 0, 10);
  }
}
