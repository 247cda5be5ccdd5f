/**
 What section 7.21.6.1 of ISO C11 asks `printf` to print for d, i, u, o, X, c, s
 and %, written without reference to the renderer, and exactly when `vprintf`
 prints it. The types are those of i386: int, long, size_t and ptrdiff_t of 32
 bits, long long and intmax_t of 64.
 */
module StandardPrintf {
  import opened Words
  import opened Numerals
  import opened CStrings
  import opened DivMod
  import opened IntFormat
  import opened FloatFormat
  import opened FloatFacts
  import opened Printf
  import opened PrintfFacts
  import opened DirectiveGrammar
  import RoundTrip

  datatype Precision = Default | Exactly(n: nat)

  /** Flags, width and precision once the stars have been replaced by their arguments. */
  datatype Layout = Layout(flags: Flags, width: nat, precision: Precision)

  // ----- the standard's text

  function Blanks(n: int): seq<byte> { Padding(n, false) }
  function Noughts(n: int): seq<byte> { Padding(n, true) }

  predicate StdSigned(conv: byte) { conv == 'd' as int || conv == 'i' as int }

  /** Only the result of a signed conversion begins with a plus sign or a blank. */
  function StdSign(l: Layout, conv: byte, v: int): seq<byte> {
    if v < 0 then [MINUS]
    else if !StdSigned(conv) then []
    else if l.flags.plus then [PLUS]
    else if l.flags.space then [SPACE]
    else []
  }

  /** The precision is the least number of digits; zero with precision zero has none. */
  function PlainDigits(l: Layout, conv: byte, v: int): seq<byte> {
    if v == 0 && l.precision == Exactly(0) then []
    else
      var ds := Numeral(v, StandardBase(conv));
      Noughts(if l.precision.Exactly? then l.precision.n - |ds| else 0) + ds
  }

  /** # makes an octal number begin with a zero. */
  function StdDigits(l: Layout, conv: byte, v: int): seq<byte> {
    var ds := PlainDigits(l, conv, v);
    if conv == 'o' as int && l.flags.alt && (ds == [] || ds[0] != ZERO) then [ZERO] + ds else ds
  }

  /** # puts 0X before a hexadecimal number that is not zero. */
  function StdPrefix(l: Layout, conv: byte, v: int): seq<byte> {
    if conv == 'X' as int && l.flags.alt && v != 0 then [ZERO, 'X' as int] else []
  }

  function StdInteger(l: Layout, conv: byte, v: int): seq<byte> {
    var s := StdSign(l, conv, v) + StdPrefix(l, conv, v);
    var ds := StdDigits(l, conv, v);
    var k := l.width - |s| - |ds|;
    if l.flags.left then s + ds + Blanks(k)
    else if l.flags.zero && l.precision == Default then s + Noughts(k) + ds
    else Blanks(k) + (s + ds)
  }

  /** A text in its field. */
  function Justified(l: Layout, t: seq<byte>): seq<byte> {
    if l.flags.left then t + Blanks(l.width - |t|) else Blanks(l.width - |t|) + t
  }

  function StdString(l: Layout, s: seq<byte>): seq<byte> {
    Justified(l, if l.precision.Exactly? && l.precision.n < |s| then s[..l.precision.n] else s)
  }

  /** The digits of a number's magnitude as characters. */
  function Numeral(v: int, base: nat): (t: seq<byte>)
    requires 2 <= base <= 16
    ensures |t| >= 1
  {
    DigitsCanonical(Abs(v), base);
    DigitText(Digits(Abs(v), base))
  }

  lemma {:induction false} NumeralIs(v: int, base: nat)
    requires 2 <= base <= 16
    ensures IsNumeral(Numeral(v, base), v) && |Numeral(v, base)| == |Digits(Abs(v), base)|
  {
    hide Digits;
    var ds := Digits(Abs(v), base);
    DigitsCanonical(Abs(v), base);
    forall k | 0 <= k < |ds|
      ensures ZERO <= DigitText(ds)[k] < 'X' as int && (DigitText(ds)[k] == ZERO <==> ds[k] == 0)
    {
      DigitCharacter(ds[k]);
    }
    if v == 0 {
      assert DigitText(ds) == [ZERO];
    }
  }

  lemma DigitCharacter(d: nat)
    requires d < 16
    ensures DIGITS[d] >= ZERO && (DIGITS[d] == ZERO <==> d == 0) && DIGITS[d] < 'X' as int
  {
  }

  /** Characters of digits, without a leading zero. */
  ghost predicate IsNumeral(t: seq<byte>, v: int) {
    && |t| >= 1 && (forall k :: 0 <= k < |t| ==> ZERO <= t[k] < 'X' as int)
    && if v == 0 then t == [ZERO] else t[0] != ZERO
  }

  // ----- when an integer's text is the standard's

  /** The precision asks for no more than `n` digits. */
  predicate AtMost(p: Precision, n: nat) {
    p.Default? || p.n <= n
  }

  /** With #, which the code prints in front of the padding. */
  predicate SameAlternate(fl: Flags, width: int, p: Precision, conv: byte, v: int, n: nat) {
    && conv == 'o' as int && !fl.plus && !fl.space
    && if width <= n then (if v == 0 then p == Exactly(2) else AtMost(p, n + 1)) && -width <= n + 1
       else fl.zero && p == Exactly(width + 1) && (!fl.left || v == 0)
  }

  /** A blank in place of a sign, which the code also prints for unsigned numbers. */
  predicate SameBlank(fl: Flags, width: int, p: Precision, n: nat) {
    && !fl.plus && !fl.left && width > n && AtMost(p, n)
    && (fl.zero ==> p.Exactly? && width == n + 1)
  }

  /** Sign and digits, `m` characters in all, `n` of them digits. */
  predicate SamePlain(fl: Flags, width: int, p: Precision, v: int, m: nat, n: nat) {
    if width <= m then AtMost(p, n) && -width <= m
    else if !fl.zero then AtMost(p, n)
    else if fl.left then v == 0 && p == Exactly(width - (m - n))
    else m == n && (p == Default || p == Exactly(width))
  }

  predicate SameText(fl: Flags, width: int, p: Precision, conv: byte, v: int) {
    var n := |Digits(Abs(v), StandardBase(conv))|;
    if fl.alt then SameAlternate(fl, width, p, conv, v, n)
    else if v == 0 && p == Exactly(0) then false
    else if !StdSigned(conv) && (fl.plus || fl.space) then SameBlank(fl, width, p, n)
    else SamePlain(fl, width, p, v, |SignText(v, fl.plus, fl.space)| + n, n)
  }

  /** The conversions compared. */
  predicate IsCompared(conv: byte) {
    StdSigned(conv) || conv == 'u' as int || conv == 'o' as int || conv == 'X' as int
  }

  /** What the code prints for an integer. */
  function CodeInteger(fl: Flags, width: int, conv: byte, v: int): seq<byte> {
    AltPrefix(conv, fl.alt) + Rendered(v, StandardBase(conv), fl.plus, fl.space, width, fl.left, fl.zero)
  }

  /** A negative width from a star is a - flag and a width. */
  function LayoutOf(fl: Flags, width: int, p: Precision): Layout {
    Layout(fl.(left := fl.left || width < 0), Abs(width), p)
  }

  // ----- texts side by side

  lemma {:induction false} LeftTexts(s: seq<byte>, q: nat, ds: seq<byte>, k': int, k: int, zero: bool, v: int)
    requires IsNumeral(ds, v) && (q == 0 ==> Blanks(k') == Blanks(k))
    ensures s + (Noughts(q) + ds) + Blanks(k') == s + ds + Padding(k, zero) <==>
      (q == 0 && (k <= 0 || !zero)) || (v == 0 && zero && k' <= 0 && 0 < q == k)
  {
    var a, b := s + (Noughts(q) + ds) + Blanks(k'), s + ds + Padding(k, zero);
    if q == 0 {
      assert Noughts(q) + ds == ds;
      if k > 0 && zero {
        assert a[|s| + |ds|] == SPACE && b[|s| + |ds|] == ZERO;
      }
    } else if v != 0 {
      assert a[|s|] == ZERO && b[|s|] == ds[0];
    } else if zero && k' <= 0 && q == k {
      assert a == b;
    } else if k' > 0 {
      assert a[|a| - 1] == SPACE;
      assert !zero || k <= 0 ==> a[|s| + 1] == ZERO;
      assert b[|b| - 1] == if k <= 0 || zero then ZERO else SPACE;
      assert k > 0 && !zero ==> b[|s| + 1] == SPACE;
    } else {
      assert |a| == |s| + q + 1 && |b| == |s| + 1 + |Padding(k, zero)|;
      assert k > 0 && !zero ==> b[|s| + 1] == SPACE && a[|s| + 1] == ZERO;
    }
  }

  lemma {:induction false} ZeroTexts(s: seq<byte>, ds: seq<byte>, k: int, v: int)
    requires IsNumeral(ds, v) && |s| <= 1 && ZERO !in s
    ensures s + Noughts(k) + ds == Noughts(k) + (s + ds) <==> k <= 0 || s == []
  {
    var a, b := s + Noughts(k) + ds, Noughts(k) + (s + ds);
    if k <= 0 {
      assert a == s + ds && b == s + ds;
    } else if s == [] {
      assert a == b;
    } else {
      assert a[0] == s[0] && b[0] == ZERO;
    }
  }

  lemma {:induction false} RightTexts(s: seq<byte>, q: nat, ds: seq<byte>, k': int, k: int, zero: bool, v: int)
    requires IsNumeral(ds, v) && |s| <= 1 && ZERO !in s
    requires k' == k - q
    ensures Blanks(k') + (s + (Noughts(q) + ds)) == Padding(k, zero) + (s + ds) <==>
      if k <= 0 || !zero then q == 0 else s == [] && q == k
  {
    var a, b := Blanks(k') + (s + (Noughts(q) + ds)), Padding(k, zero) + (s + ds);
    if q == 0 {
      assert Noughts(q) + ds == ds;
      if k > 0 && zero {
        assert b[0] == ZERO && a[0] == SPACE;
      }
    } else if k <= 0 {
      assert |a| != |b|;
    } else if !zero {
      if k' >= 0 {
        assert a[k' + |s|] == ZERO;
        assert b[k' + |s|] == if k' + |s| < k then SPACE else s[0];
      } else {
        assert |a| != |b|;
      }
    } else if k' > 0 {
      assert a[0] == SPACE && b[0] == ZERO;
    } else if s != [] {
      assert a[0] == s[0] && b[0] == ZERO;
    } else if q == k {
      assert a == b;
    } else {
      assert |a| != |b|;
    }
  }

  /** Without padding from the code, as for a negative width. */
  lemma {:induction false} NegativeTexts(s: seq<byte>, q: nat, ds: seq<byte>, k: int)
    ensures s + (Noughts(q) + ds) + Blanks(k) == s + ds <==> q == 0 && k <= 0
  {
    var a := s + (Noughts(q) + ds) + Blanks(k);
    if q == 0 && k <= 0 {
      assert a == s + ds;
    }
  }

  /** A sign that only the code prints: before the digits, the standard has no such character. */
  lemma {:induction false} ExtraLeft(c: byte, q: nat, ds: seq<byte>, k': int, k: int, zero: bool, v: int)
    requires IsNumeral(ds, v) && c < ZERO
    ensures [] + (Noughts(q) + ds) + Blanks(k') != [c] + ds + Padding(k, zero)
  {
    assert ([] + (Noughts(q) + ds) + Blanks(k'))[0] >= ZERO;
  }

  lemma {:induction false} ExtraZero(c: byte, ds: seq<byte>, k': int, k: int, v: int)
    requires IsNumeral(ds, v) && c < ZERO
    ensures [] + Noughts(k') + ds != Noughts(k) + ([c] + ds)
  {
    var a, b := [] + Noughts(k') + ds, Noughts(k) + ([c] + ds);
    var i := if k > 0 then k else 0;
    assert b[i] == c;
    assert forall j :: 0 <= j < |a| ==> a[j] >= ZERO;
  }

  lemma {:induction false} ExtraRight(c: byte, q: nat, ds: seq<byte>, k: int, zero: bool, v: int)
    requires IsNumeral(ds, v) && c < ZERO
    ensures Blanks(k + 1 - q) + ([] + (Noughts(q) + ds)) == Padding(k, zero) + ([c] + ds) <==>
      c == SPACE && q == 0 && k >= 0 && (zero ==> k == 0)
  {
    if c != SPACE {
      ExtraCharacter(c, q, ds, k, zero, v);
    } else if k > 0 && zero {
      BlankBehindZeros(q, ds, k, v);
    } else {
      BlankRight(q, ds, k, zero, v);
    }
  }

  lemma {:induction false} ExtraCharacter(c: byte, q: nat, ds: seq<byte>, k: int, zero: bool, v: int)
    requires IsNumeral(ds, v) && c < ZERO && c != SPACE
    ensures Blanks(k + 1 - q) + ([] + (Noughts(q) + ds)) != Padding(k, zero) + ([c] + ds)
  {
    var a, b := Blanks(k + 1 - q) + ([] + (Noughts(q) + ds)), Padding(k, zero) + ([c] + ds);
    assert b[if k > 0 then k else 0] == c;
    assert forall j :: 0 <= j < |a| ==> a[j] == SPACE || a[j] >= ZERO;
  }

  lemma {:induction false} BlankBehindZeros(q: nat, ds: seq<byte>, k: int, v: int)
    requires IsNumeral(ds, v) && k > 0
    ensures Blanks(k + 1 - q) + ([] + (Noughts(q) + ds)) != Noughts(k) + ([SPACE] + ds)
  {
    var a, b := Blanks(k + 1 - q) + ([] + (Noughts(q) + ds)), Noughts(k) + ([SPACE] + ds);
    assert b[0] == ZERO && b[k] == SPACE;
    if k + 1 - q > 0 {
      assert a[0] == SPACE;
    } else {
      assert forall j :: 0 <= j < |a| ==> a[j] >= ZERO;
    }
  }

  lemma {:induction false} BlankRight(q: nat, ds: seq<byte>, k: int, zero: bool, v: int)
    requires IsNumeral(ds, v) && (k <= 0 || !zero)
    ensures Blanks(k + 1 - q) + ([] + (Noughts(q) + ds)) == Padding(k, zero) + ([SPACE] + ds) <==> q == 0 && k >= 0
  {
    var a, b := Blanks(k + 1 - q) + ([] + (Noughts(q) + ds)), Padding(k, zero) + ([SPACE] + ds);
    if q == 0 && k >= 0 {
      assert a == b;
    } else if k >= 0 && k + 1 - q >= 0 {
      assert a[k + 1 - q] == ZERO && b[k + 1 - q] == SPACE;
    } else if k >= 0 {
      assert |a| != |b|;
    } else {
      assert b[0] == SPACE;
      assert a[0] >= ZERO;
    }
  }

  /** A zero that the code prints in front of everything. */
  lemma {:induction false} OctalLeft(s: seq<byte>, q: nat, ds: seq<byte>, k': int, k: int, zero: bool, v: int)
    requires IsNumeral(ds, v) && |s| <= 1 && (s != [] ==> s[0] < ZERO)
    requires s == [] && k > 0 ==> k' == k - q
    ensures [] + (Noughts(q) + ds) + Blanks(k') == [ZERO] + (s + ds + Padding(k, zero)) <==>
      s == [] && k' <= 0 && if k <= 0 then q == 1 else v == 0 && zero && q == 1 + k
  {
    var a, b := [] + (Noughts(q) + ds) + Blanks(k'), [ZERO] + (s + ds + Padding(k, zero));
    var e := Noughts(q) + ds;
    assert a == e + Blanks(k');
    if s != [] {
      assert b[1] == s[0] && b[2] == ds[0];
      assert |e| >= 2 ==> a[1] == e[1] && e[1] >= ZERO;
      assert |a| >= 3 && |e| == 1 ==> a[2] == SPACE;
    } else {
      var d := [ZERO] + ds;
      assert b == d + Padding(k, zero);
      if q == 0 {
        assert v != 0 ==> a[0] == ds[0] && b[0] == ZERO;
        assert v == 0 ==> b[1] == ZERO && (|a| >= 2 ==> a[1] == SPACE);
      } else if q == 1 {
        assert e == d;
        if k > 0 {
          assert |a| != |b|;
        } else if k' > 0 {
          assert |a| != |b|;
        } else {
          assert a == b;
        }
      } else {
        assert a[1] == ZERO;
        assert v != 0 ==> b[1] == ds[0];
        if v == 0 {
          if k <= 0 {
            assert |a| != |b|;
          } else if !zero {
            assert b[2] == SPACE;
            assert e[2] == ZERO;
          } else if k' > 0 {
            assert a[|a| - 1] == SPACE && b[|b| - 1] == ZERO;
          } else if q == 1 + k {
            assert a == b;
          } else {
            assert |a| != |b|;
          }
        }
      }
    }
  }

  lemma {:induction false} OctalZero(s: seq<byte>, q: nat, ds: seq<byte>, k': int, k: int, v: int)
    requires IsNumeral(ds, v) && |s| <= 1 && (s != [] ==> s[0] < ZERO)
    ensures [] + Noughts(k') + (Noughts(q) + ds) == [ZERO] + (Noughts(k) + (s + ds)) <==>
      s == [] && |Noughts(k')| + q == 1 + |Noughts(k)|
  {
    var a, b := [] + Noughts(k') + (Noughts(q) + ds), [ZERO] + (Noughts(k) + (s + ds));
    if s != [] {
      assert b[1 + |Noughts(k)|] == s[0];
      assert forall j :: 0 <= j < |a| ==> a[j] >= ZERO;
    } else if |a| == |b| {
      assert a == b;
    }
  }

  lemma {:induction false} OctalRight(s: seq<byte>, q: nat, ds: seq<byte>, k': int, k: int, zero: bool, v: int)
    requires IsNumeral(ds, v) && |s| <= 1 && (s != [] ==> s[0] < ZERO)
    ensures Blanks(k') + ([] + (Noughts(q) + ds)) == [ZERO] + (Padding(k, zero) + (s + ds)) <==>
      s == [] && k' <= 0 && (zero || k <= 0) && q == 1 + |Padding(k, zero)|
  {
    var a, b := Blanks(k') + ([] + (Noughts(q) + ds)), [ZERO] + (Padding(k, zero) + (s + ds));
    if k' > 0 {
      assert a[0] == SPACE;
    } else {
      assert forall j :: 0 <= j < |a| ==> a[j] >= ZERO;
      if s != [] {
        assert b[1 + |Padding(k, zero)|] == s[0];
      } else if k > 0 && !zero {
        assert b[1] == SPACE;
      } else if |a| == |b| {
        assert a == b;
      }
    }
  }

  // ----- the two texts, in parts

  function More(p: Precision, n: nat): nat {
    if p.Exactly? && p.n > n then p.n - n else 0
  }

  /** The zeros that the standard puts before the numeral, `n` digits long. */
  function LeadingNoughts(l: Layout, conv: byte, v: int, n: nat): nat {
    var q := More(l.precision, n);
    if conv == 'o' as int && l.flags.alt && v != 0 && q == 0 then 1 else q
  }

  lemma {:induction false} StdDigitsParts(l: Layout, conv: byte, v: int)
    requires (l.flags.alt && conv == 'o' as int) || !(v == 0 && l.precision == Exactly(0))
    ensures var ds := Numeral(v, StandardBase(conv));
      StdDigits(l, conv, v) == Noughts(LeadingNoughts(l, conv, v, |ds|)) + ds
  {
    hide Numeral;
    var ds := Numeral(v, StandardBase(conv));
    NumeralIs(v, StandardBase(conv));
    var q := More(l.precision, |ds|);
    if v == 0 && l.precision == Exactly(0) {
      assert [ZERO] + [] == Noughts(0) + ds;
    } else {
      assert PlainDigits(l, conv, v) == Noughts(q) + ds;
      if conv == 'o' as int && l.flags.alt && v != 0 && q == 0 {
        assert Noughts(0) + ds == ds;
        assert [ZERO] + ds == Noughts(1) + ds;
      }
    }
  }

  /** Sign, digits and padding as the code lines them up. */
  function CodeBody(fl: Flags, width: int, s: seq<byte>, ds: seq<byte>): seq<byte> {
    var pad := Padding(width - |s| - |ds|, fl.zero);
    if fl.left then s + ds + pad else pad + (s + ds)
  }

  /** And as the standard does, with `q` zeros before the digits. */
  function StdBody(l: Layout, s: seq<byte>, q: nat, ds: seq<byte>): seq<byte> {
    var k := l.width - |s| - |ds| - q;
    if l.flags.left then s + (Noughts(q) + ds) + Blanks(k)
    else if l.flags.zero && l.precision == Default then s + Noughts(k) + (Noughts(q) + ds)
    else Blanks(k) + (s + (Noughts(q) + ds))
  }

  lemma {:induction false} CodeParts(fl: Flags, width: int, conv: byte, v: int)
    ensures CodeInteger(fl, width, conv, v) ==
      AltPrefix(conv, fl.alt) + CodeBody(fl, width, SignText(v, fl.plus, fl.space), Numeral(v, StandardBase(conv)))
  {
    hide Rendered, Digits;
    RenderedShape(v, StandardBase(conv), fl.plus, fl.space, width, fl.left, fl.zero);
    assert Natural(v, StandardBase(conv), fl.plus, fl.space) ==
      SignText(v, fl.plus, fl.space) + Numeral(v, StandardBase(conv));
  }

  lemma {:induction false} StdParts(l: Layout, conv: byte, v: int)
    requires !(conv == 'X' as int && l.flags.alt)
    requires (l.flags.alt && conv == 'o' as int) || !(v == 0 && l.precision == Exactly(0))
    ensures var ds := Numeral(v, StandardBase(conv));
      StdInteger(l, conv, v) == StdBody(l, StdSign(l, conv, v), LeadingNoughts(l, conv, v, |ds|), ds)
  {
    hide Numeral, StdDigits, LeadingNoughts;
    StdDigitsParts(l, conv, v);
    assert StdSign(l, conv, v) + [] == StdSign(l, conv, v);
  }

  lemma NoPadding(k: int, zero: bool)
    requires k <= 0
    ensures Padding(k, zero) == []
  {
  }

  ghost predicate IsSign(s: seq<byte>) {
    |s| <= 1 && ZERO !in s && (s != [] ==> s[0] < ZERO)
  }

  lemma SignShort(v: int, plus: bool, space: bool)
    ensures IsSign(SignText(v, plus, space))
  {
  }

  // ----- exactness for integers

  lemma {:induction false} NegativeBody(fl: Flags, width: int, p: Precision, s: seq<byte>, q: nat, ds: seq<byte>)
    requires width < 0
    ensures StdBody(LayoutOf(fl, width, p), s, q, ds) == CodeBody(fl, width, s, ds) <==>
      q == 0 && -width <= |s| + |ds|
  {
    hide Padding;
    NoPadding(width - |s| - |ds|, fl.zero);
    assert s + ds + [] == s + ds && [] + (s + ds) == s + ds;
    NegativeTexts(s, q, ds, -width - |s| - |ds| - q);
  }

  lemma {:induction false} LeftBody(fl: Flags, width: int, p: Precision, s: seq<byte>, q: nat, ds: seq<byte>, v: int)
    requires width >= 0 && fl.left && IsNumeral(ds, v)
    ensures StdBody(LayoutOf(fl, width, p), s, q, ds) == CodeBody(fl, width, s, ds) <==>
      var k := width - |s| - |ds|;
      (q == 0 && (k <= 0 || !fl.zero)) || (v == 0 && fl.zero && 0 < q == k)
  {
    hide Padding, IsNumeral;
    var k := width - |s| - |ds|;
    LeftTexts(s, q, ds, k - q, k, fl.zero, v);
  }

  lemma {:induction false} RightBody(fl: Flags, width: int, p: Precision, s: seq<byte>, q: nat, ds: seq<byte>, v: int)
    requires width >= 0 && !fl.left && IsNumeral(ds, v) && IsSign(s) && (p == Default ==> q == 0)
    ensures StdBody(LayoutOf(fl, width, p), s, q, ds) == CodeBody(fl, width, s, ds) <==>
      var k := width - |s| - |ds|;
      if k <= 0 || !fl.zero then q == 0 else s == [] && (p == Default || q == k)
  {
    hide Padding, IsNumeral;
    var k := width - |s| - |ds|;
    if fl.zero && p == Default {
      NoPadding(0, true);
      assert [] + ds == ds;
      ZeroTexts(s, ds, k, v);
    } else {
      RightTexts(s, q, ds, k - q, k, fl.zero, v);
    }
  }

  lemma PlainCases(fl: Flags, width: int, p: Precision, v: int, m: nat, n: nat)
    requires n <= m && n >= 1 && (v == 0 ==> n == 1)
    ensures SamePlain(fl, width, p, v, m, n) <==>
      var q, k := More(p, n), width - m;
      if width < 0 then q == 0 && -width <= m
      else if fl.left then (q == 0 && (k <= 0 || !fl.zero)) || (v == 0 && fl.zero && 0 < q == k)
      else if k <= 0 || !fl.zero then q == 0
      else m == n && (p == Default || q == k)
  {
  }

  lemma {:induction false} PlainBody(fl: Flags, width: int, p: Precision, s: seq<byte>, ds: seq<byte>, v: int)
    requires IsNumeral(ds, v) && IsSign(s)
    ensures StdBody(LayoutOf(fl, width, p), s, More(p, |ds|), ds) == CodeBody(fl, width, s, ds) <==>
      SamePlain(fl, width, p, v, |s| + |ds|, |ds|)
  {
    assert |ds| >= 1 && (v == 0 ==> |ds| == 1);
    PlainCases(fl, width, p, v, |s| + |ds|, |ds|);
    hide IsNumeral, StdBody, CodeBody, IsSign, SamePlain, LayoutOf;
    var q := More(p, |ds|);
    if width < 0 {
      NegativeBody(fl, width, p, s, q, ds);
    } else if fl.left {
      LeftBody(fl, width, p, s, q, ds, v);
    } else {
      RightBody(fl, width, p, s, q, ds, v);
    }
  }

  /** A sign that only the code prints. */
  lemma {:induction false} ExtraLeftBody(fl: Flags, width: int, p: Precision, c: byte, q: nat, ds: seq<byte>, v: int)
    requires IsNumeral(ds, v) && c < ZERO && (width < 0 || fl.left)
    ensures StdBody(LayoutOf(fl, width, p), [], q, ds) != CodeBody(fl, width, [c], ds)
  {
    hide IsNumeral, Padding;
    var k := width - 1 - |ds|;
    if width < 0 {
      NoPadding(k, fl.zero);
      assert [] + ([c] + ds) == [c] + ds && [c] + ds + [] == [c] + ds;
    }
    ExtraLeft(c, q, ds, Abs(width) - |ds| - q, k, fl.zero, v);
  }

  lemma {:induction false} ExtraRightBody(fl: Flags, width: int, p: Precision, c: byte, q: nat, ds: seq<byte>, v: int)
    requires IsNumeral(ds, v) && c < ZERO && width >= 0 && !fl.left && (p == Default ==> q == 0)
    ensures StdBody(LayoutOf(fl, width, p), [], q, ds) == CodeBody(fl, width, [c], ds) <==>
      c == SPACE && q == 0 && width > |ds| && (fl.zero ==> p != Default && width == |ds| + 1)
  {
    hide IsNumeral, Padding;
    var k := width - 1 - |ds|;
    if fl.zero && p == Default {
      NoPadding(0, true);
      assert [] + ds == ds;
      ExtraZero(c, ds, width - |ds|, k, v);
    } else {
      ExtraRight(c, q, ds, k, fl.zero, v);
    }
  }

  lemma {:induction false} ExtraBody(fl: Flags, width: int, p: Precision, c: byte, ds: seq<byte>, v: int)
    requires IsNumeral(ds, v) && c < ZERO
    ensures StdBody(LayoutOf(fl, width, p), [], More(p, |ds|), ds) == CodeBody(fl, width, [c], ds) <==>
      c == SPACE && SameBlank(fl.(plus := false), width, p, |ds|)
  {
    hide IsNumeral, StdBody, CodeBody, LayoutOf;
    var q := More(p, |ds|);
    if width < 0 || fl.left {
      ExtraLeftBody(fl, width, p, c, q, ds, v);
    } else {
      ExtraRightBody(fl, width, p, c, q, ds, v);
    }
  }

  /** The zero of # that the code prints in front of everything. */
  lemma {:induction false} OctalLeftBody(fl: Flags, width: int, p: Precision, s: seq<byte>, q: nat, ds: seq<byte>,
      v: int)
    requires IsNumeral(ds, v) && IsSign(s) && (width < 0 || fl.left)
    ensures StdBody(LayoutOf(fl, width, p), [], q, ds) == [ZERO] + CodeBody(fl, width, s, ds) <==>
      && s == [] && Abs(width) <= |ds| + q
      && if width <= |ds| then q == 1 else v == 0 && fl.zero && q == 1 + width - |ds|
  {
    hide IsNumeral, Padding, IsSign;
    var k := width - |s| - |ds|;
    LeftForms(fl, width, p, s, q, ds);
    assert IsSign(s) ==> |s| <= 1 && (s != [] ==> s[0] < ZERO) by { SignIs(s); }
    OctalLeft(s, q, ds, Abs(width) - |ds| - q, k, fl.zero, v);
  }

  lemma SignIs(s: seq<byte>)
    ensures IsSign(s) ==> |s| <= 1 && (s != [] ==> s[0] < ZERO)
  {
  }

  /** The two texts when both are at the left of the field, or the width is negative. */
  lemma {:induction false} LeftForms(fl: Flags, width: int, p: Precision, s: seq<byte>, q: nat, ds: seq<byte>)
    requires width < 0 || fl.left
    ensures StdBody(LayoutOf(fl, width, p), [], q, ds) == [] + (Noughts(q) + ds) + Blanks(Abs(width) - |ds| - q)
    ensures CodeBody(fl, width, s, ds) == s + ds + Padding(width - |s| - |ds|, fl.zero)
  {
    hide Padding;
    if width < 0 {
      NoPadding(width - |s| - |ds|, fl.zero);
      assert [] + (s + ds) == s + ds && s + ds + [] == s + ds;
    }
  }

  lemma {:induction false} OctalRightBody(fl: Flags, width: int, p: Precision, s: seq<byte>, q: nat, ds: seq<byte>,
      v: int)
    requires IsNumeral(ds, v) && IsSign(s) && width >= 0 && !fl.left && (p == Default ==> q <= 1)
    ensures StdBody(LayoutOf(fl, width, p), [], q, ds) == [ZERO] + CodeBody(fl, width, s, ds) <==>
      && s == []
      && if width <= |ds| then q == 1 else fl.zero && p != Default && q == 1 + width - |ds|
  {
    hide IsNumeral;
    var k, k' := width - |s| - |ds|, width - |ds| - q;
    if fl.zero && p == Default {
      OctalZero(s, q, ds, k', k, v);
    } else {
      OctalRight(s, q, ds, k', k, fl.zero, v);
    }
  }

  lemma {:induction false} OctalBody(fl: Flags, width: int, p: Precision, s: seq<byte>, q: nat, ds: seq<byte>, v: int)
    requires IsNumeral(ds, v) && IsSign(s)
    requires q == if v == 0 || More(p, |ds|) > 0 then More(p, |ds|) else 1
    ensures StdBody(LayoutOf(fl, width, p), [], q, ds) == [ZERO] + CodeBody(fl, width, s, ds) <==>
      s == [] && SameAlternate(fl.(plus := false, space := false), width, p, 'o' as int, v, |ds|)
  {
    assert |ds| >= 1 && (v == 0 ==> |ds| == 1);
    hide IsNumeral, IsSign, StdBody, CodeBody, LayoutOf;
    if width < 0 || fl.left {
      OctalLeftBody(fl, width, p, s, q, ds, v);
    } else {
      OctalRightBody(fl, width, p, s, q, ds, v);
    }
  }

  /** What characters the standard's text has: those of sign, prefix and digits, and the padding. */
  lemma {:induction false} StdMembers(l: Layout, conv: byte, v: int, c: byte)
    ensures var s, ds := StdSign(l, conv, v) + StdPrefix(l, conv, v), StdDigits(l, conv, v);
      && (c in s || c in ds ==> c in StdInteger(l, conv, v))
      && (c in StdInteger(l, conv, v) ==> c in s || c in ds || c == SPACE || (c == ZERO && l.precision == Default))
  {
    hide StdSign, StdPrefix, StdDigits, Padding;
    var s, ds := StdSign(l, conv, v) + StdPrefix(l, conv, v), StdDigits(l, conv, v);
    PaddingMembers(l.width - |s| - |ds|, false, c);
    PaddingMembers(l.width - |s| - |ds|, true, c);
  }

  lemma PaddingMembers(k: int, zero: bool, c: byte)
    ensures c in Padding(k, zero) ==> c == if zero then ZERO else SPACE
  {
  }

  lemma {:induction false} DigitMembers(l: Layout, conv: byte, v: int, c: byte)
    ensures c in StdDigits(l, conv, v) ==> ZERO <= c < 'X' as int
  {
    NumeralIs(v, StandardBase(conv));
    hide Numeral, Padding;
    var ds := Numeral(v, StandardBase(conv));
    PaddingMembers(if l.precision.Exactly? then l.precision.n - |ds| else 0, true, c);
  }

  /** Zero with precision zero: the code prints a digit and the standard none. */
  lemma {:induction false} EmptyDiffers(fl: Flags, width: int, conv: byte)
    requires !fl.alt
    ensures StdInteger(LayoutOf(fl, width, Exactly(0)), conv, 0) != CodeInteger(fl, width, conv, 0)
  {
    var l := LayoutOf(fl, width, Exactly(0));
    StdMembers(l, conv, 0, ZERO);
    assert StdDigits(l, conv, 0) == [];
    assert ZERO !in StdSign(l, conv, 0) + StdPrefix(l, conv, 0);
    hide StdInteger, CodeInteger, Numeral, StdSign, StdPrefix, StdDigits;
    CodeParts(fl, width, conv, 0);
    NumeralIs(0, StandardBase(conv));
    CodeMembers(fl, width, conv, 0, ZERO);
  }

  lemma {:induction false} CodeMembers(fl: Flags, width: int, conv: byte, v: int, c: byte)
    ensures var s, ds := SignText(v, fl.plus, fl.space), Numeral(v, StandardBase(conv));
      && (c in s || c in ds || c in AltPrefix(conv, fl.alt) ==> c in CodeInteger(fl, width, conv, v))
      && (c in CodeInteger(fl, width, conv, v) ==>
            c in s || c in ds || c in AltPrefix(conv, fl.alt) || c == SPACE || c == ZERO)
  {
    hide CodeInteger, Numeral, SignText, Padding, AltPrefix;
    CodeParts(fl, width, conv, v);
    var s, ds := SignText(v, fl.plus, fl.space), Numeral(v, StandardBase(conv));
    PaddingMembers(width - |s| - |ds|, fl.zero, c);
  }

  /** The prefix of %#X is 0x in the code and 0X, or none, in the standard. */
  lemma {:induction false} HexPrefixDiffers(fl: Flags, width: int, p: Precision, v: int)
    requires fl.alt && v >= 0
    ensures StdInteger(LayoutOf(fl, width, p), 'X' as int, v) != CodeInteger(fl, width, 'X' as int, v)
  {
    var l, x := LayoutOf(fl, width, p), 'x' as int;
    assert x !in StdSign(l, 'X' as int, v) + StdPrefix(l, 'X' as int, v);
    assert AltPrefix('X' as int, true)[1] == x;
    hide StdInteger, CodeInteger, Numeral, StdSign, StdPrefix, StdDigits;
    StdMembers(l, 'X' as int, v, x);
    DigitMembers(l, 'X' as int, v, x);
    CodeMembers(fl, width, 'X' as int, v, x);
  }

  /** Exactness for integers: the two texts are the same if and only if `SameText` says so. */
  lemma {:induction false} IntegerTextIff(fl: Flags, width: int, p: Precision, conv: byte, v: int)
    requires IsCompared(conv) && (IsSignedConv(conv) || v >= 0)
    requires fl.alt ==> conv == 'o' as int || conv == 'X' as int
    ensures StdInteger(LayoutOf(fl, width, p), conv, v) == CodeInteger(fl, width, conv, v) <==>
      SameText(fl, width, p, conv, v)
  {
    hide StdInteger, CodeInteger, Numeral, StdBody, CodeBody, Digits, SameAlternate, SameBlank, SamePlain, IsNumeral;
    hide IsSign, SignText, LeadingNoughts, StdSign;
    NumeralIs(v, StandardBase(conv));
    if fl.alt && conv == 'X' as int {
      HexPrefixDiffers(fl, width, p, v);
      NotAlternate(fl, width, p, v, |Digits(Abs(v), 16)|);
    } else if fl.alt {
      AlternateIff(fl, width, p, v);
    } else if v == 0 && p == Exactly(0) {
      EmptyDiffers(fl, width, conv);
    } else if !IsSignedConv(conv) && (fl.plus || fl.space) {
      ExtraIff(fl, width, p, conv, v);
    } else {
      PlainIff(fl, width, p, conv, v);
    }
  }

  lemma NotAlternate(fl: Flags, width: int, p: Precision, v: int, n: nat)
    ensures !SameAlternate(fl, width, p, 'X' as int, v, n)
  {
  }

  lemma {:induction false} AlternateIff(fl: Flags, width: int, p: Precision, v: int)
    requires fl.alt && v >= 0
    ensures StdInteger(LayoutOf(fl, width, p), 'o' as int, v) == CodeInteger(fl, width, 'o' as int, v) <==>
      SameAlternate(fl, width, p, 'o' as int, v, |Numeral(v, 8)|)
  {
    var l, conv := LayoutOf(fl, width, p), 'o' as int;
    var s, ds := SignText(v, fl.plus, fl.space), Numeral(v, 8);
    var q := LeadingNoughts(l, conv, v, |ds|);
    assert StdSign(l, conv, v) == [] && q == if v == 0 || More(p, |ds|) > 0 then More(p, |ds|) else 1;
    NumeralIs(v, 8);
    hide StdInteger, CodeInteger, Numeral, StdBody, CodeBody, Digits, SameAlternate, IsNumeral, IsSign, SignText,
      LayoutOf;
    StdParts(l, conv, v);
    CodeParts(fl, width, conv, v);
    SignShort(v, fl.plus, fl.space);
    OctalBody(fl, width, p, s, q, ds, v);
    SameAlternateSigns(fl, width, p, v, |ds|);
  }

  lemma {:induction false} ExtraIff(fl: Flags, width: int, p: Precision, conv: byte, v: int)
    requires !fl.alt && !(v == 0 && p == Exactly(0)) && !IsSignedConv(conv) && v >= 0 && (fl.plus || fl.space)
    ensures StdInteger(LayoutOf(fl, width, p), conv, v) == CodeInteger(fl, width, conv, v) <==>
      SameBlank(fl, width, p, |Numeral(v, StandardBase(conv))|)
  {
    var l, ds, c := LayoutOf(fl, width, p), Numeral(v, StandardBase(conv)), if fl.plus then PLUS else SPACE;
    assert StdSign(l, conv, v) == [] && LeadingNoughts(l, conv, v, |ds|) == More(p, |ds|);
    assert SignText(v, fl.plus, fl.space) == [c];
    NumeralIs(v, StandardBase(conv));
    hide StdInteger, CodeInteger, Numeral, StdBody, CodeBody, Digits, SameBlank, IsNumeral, LayoutOf;
    StdParts(l, conv, v);
    CodeParts(fl, width, conv, v);
    assert [] + CodeBody(fl, width, [c], ds) == CodeBody(fl, width, [c], ds);
    ExtraBody(fl, width, p, c, ds, v);
    SameBlankSigns(fl, width, p, |ds|);
  }

  lemma PlainSign(fl: Flags, width: int, p: Precision, conv: byte, v: int, n: nat)
    requires !fl.alt && (IsSignedConv(conv) || (v >= 0 && !fl.plus && !fl.space))
    ensures var l := LayoutOf(fl, width, p);
      && !l.flags.alt && l.precision == p
      && StdSign(l, conv, v) == SignText(v, fl.plus, fl.space) && LeadingNoughts(l, conv, v, n) == More(p, n)
  {
  }

  lemma {:induction false} PlainIff(fl: Flags, width: int, p: Precision, conv: byte, v: int)
    requires !fl.alt && !(v == 0 && p == Exactly(0)) && (IsSignedConv(conv) || (v >= 0 && !fl.plus && !fl.space))
    ensures var s, n := SignText(v, fl.plus, fl.space), |Numeral(v, StandardBase(conv))|;
      StdInteger(LayoutOf(fl, width, p), conv, v) == CodeInteger(fl, width, conv, v) <==>
        SamePlain(fl, width, p, v, |s| + n, n)
  {
    hide StdInteger, CodeInteger, Numeral, StdBody, CodeBody, Digits, SamePlain, IsNumeral, IsSign, SignText;
    hide StdSign, LeadingNoughts, LayoutOf, IsSignedConv;
    var l, s, ds := LayoutOf(fl, width, p), SignText(v, fl.plus, fl.space), Numeral(v, StandardBase(conv));
    PlainSign(fl, width, p, conv, v, |ds|);
    NumeralIs(v, StandardBase(conv));
    StdParts(l, conv, v);
    CodeParts(fl, width, conv, v);
    SignShort(v, fl.plus, fl.space);
    assert [] + CodeBody(fl, width, s, ds) == CodeBody(fl, width, s, ds);
    PlainBody(fl, width, p, s, ds, v);
  }

  lemma SameAlternateSigns(fl: Flags, width: int, p: Precision, v: int, n: nat)
    requires v >= 0
    ensures SameAlternate(fl, width, p, 'o' as int, v, n) <==>
      SignText(v, fl.plus, fl.space) == [] &&
        SameAlternate(fl.(plus := false, space := false), width, p, 'o' as int, v, n)
  {
  }

  lemma SameBlankSigns(fl: Flags, width: int, p: Precision, n: nat)
    requires fl.plus || fl.space
    ensures SameBlank(fl, width, p, n) <==> !fl.plus && SameBlank(fl.(plus := false), width, p, n)
  {
  }

  // ----- a value that changes sign on the way

  lemma {:induction false} StdMinus(l: Layout, conv: byte, v: int)
    requires IsCompared(conv)
    ensures MINUS in StdInteger(l, conv, v) <==> v < 0
  {
    var s := StdSign(l, conv, v) + StdPrefix(l, conv, v);
    assert v < 0 ==> s[0] == MINUS;
    assert v >= 0 ==> MINUS !in s;
    hide StdInteger, StdSign, StdPrefix, StdDigits;
    StdMembers(l, conv, v, MINUS);
    DigitMembers(l, conv, v, MINUS);
  }

  lemma {:induction false} CodeMinus(fl: Flags, width: int, conv: byte, v: int)
    ensures MINUS in CodeInteger(fl, width, conv, v) <==> v < 0
  {
    NumeralIs(v, StandardBase(conv));
    CodeMembers(fl, width, conv, v, MINUS);
    hide CodeInteger, Numeral;
    assert v < 0 ==> SignText(v, fl.plus, fl.space)[0] == MINUS;
  }

  /** Another value of the other sign has another text. */
  lemma {:induction false} OtherSignDiffers(fl: Flags, width: int, p: Precision, conv: byte, v: int, r: int)
    requires IsCompared(conv) && (v < 0) != (r < 0)
    ensures StdInteger(LayoutOf(fl, width, p), conv, v) != CodeInteger(fl, width, conv, r)
  {
    hide StdInteger, CodeInteger;
    StdMinus(LayoutOf(fl, width, p), conv, v);
    CodeMinus(fl, width, conv, r);
  }

  // ----- characters and strings

  lemma {:induction false} JustifiedIff(l: Layout, t: seq<byte>)
    ensures Justified(l, t) == t <==> l.width <= |t|
  {
  }

  predicate AllBlank(t: seq<byte>) {
    forall k :: 0 <= k < |t| ==> t[k] == SPACE
  }

  /** The field and the precision leave a string alone, or cut off blanks and put them back. */
  predicate SameString(l: Layout, s: seq<byte>) {
    if AtLeast(l.precision, |s|) then l.width <= |s|
    else l.width == |s| && if l.flags.left then AllBlank(s[l.precision.n..]) else AllBlank(s)
  }

  predicate AtLeast(p: Precision, n: nat) {
    p.Default? || p.n >= n
  }

  lemma {:induction false} StringIff(l: Layout, s: seq<byte>)
    ensures StdString(l, s) == s <==> SameString(l, s)
  {
    if AtLeast(l.precision, |s|) {
      JustifiedIff(l, s);
    } else {
      var n := l.precision.n;
      var t, k := s[..n], l.width - n;
      assert |StdString(l, s)| == n + |Blanks(k)|;
      if l.width == |s| {
        if l.flags.left {
          CutLeft(s, n);
        } else {
          CutRight(s, n);
        }
      }
    }
  }

  lemma {:induction false} CutLeft(s: seq<byte>, n: nat)
    requires n < |s|
    ensures s[..n] + Blanks(|s| - n) == s <==> AllBlank(s[n..])
  {
    var a := s[..n] + Blanks(|s| - n);
    if a == s {
      forall k | 0 <= k < |s[n..]| ensures s[n..][k] == SPACE {
        assert a[n + k] == SPACE;
      }
    } else {
      var k :| 0 <= k < |s| && a[k] != s[k];
      assert s[n..][k - n] == s[k];
    }
  }

  lemma {:induction false} CutRight(s: seq<byte>, n: nat)
    requires n < |s|
    ensures Blanks(|s| - n) + s[..n] == s <==> AllBlank(s)
  {
    var a := Blanks(|s| - n) + s[..n];
    if a == s {
      forall k | 0 <= k < |s| ensures s[k] == SPACE {
        BlankThroughout(s, n, k);
      }
    }
  }

  lemma {:induction false} BlankThroughout(s: seq<byte>, n: nat, k: nat)
    requires n < |s| && Blanks(|s| - n) + s[..n] == s && k < |s|
    ensures s[k] == SPACE
  {
    var a := Blanks(|s| - n) + s[..n];
    assert s[k] == a[k];
    if k >= |s| - n {
      BlankThroughout(s, n, k - (|s| - n));
      assert a[k] == s[k - (|s| - n)];
    }
  }

  // ----- a whole specification

  /** How many values the type of a length modifier has. */
  function TypeSize(length: seq<byte>): nat {
    if length == HH then 256
    else if length == ['h' as int] then 0x1_0000
    else if length == LL || length == ['j' as int] then M64
    else M32
  }

  predicate InType(signed: bool, length: seq<byte>, v: int) {
    var m := TypeSize(length);
    if signed then -(m as int) / 2 <= v < m / 2 else 0 <= v < m
  }

  predicate IsInt(a: Arg) {
    a.IntArg? && InType(true, [], a.v)
  }

  function StarCount(p: Spelling): nat {
    (if p.width.Star? then 1 else 0) + if p.precision.Star? then 1 else 0
  }

  predicate StarsTyped(p: Spelling, args: seq<Arg>) {
    StarCount(p) <= |args| && forall k :: 0 <= k < StarCount(p) ==> IsInt(args[k])
  }

  function WidthGiven(p: Spelling, args: seq<Arg>): int
    requires Grammatical(p) && StarsTyped(p, args)
  {
    if p.width.Star? then args[0].v else FieldValue(p.width)
  }

  /** A negative precision is taken as if there were none. */
  function PrecisionGiven(p: Spelling, args: seq<Arg>): Precision
    requires Grammatical(p) && StarsTyped(p, args)
  {
    if p.precision.Absent? then Default
    else if p.precision.Number? then Exactly(FieldValue(p.precision))
    else
      var v := args[StarCount(p) - 1].v;
      if v < 0 then Default else Exactly(v)
  }

  predicate IsPlainPercent(p: Spelling) {
    p == Spelling([], Absent, Absent, [], PERCENT)
  }

  /** The standard defines the conversion, and the arguments have the types it asks for. */
  predicate Defined(p: Spelling, args: seq<Arg>) {
    && Grammatical(p) && StarsTyped(p, args)
    && var fl, rest := FlagsIn(p.flags), args[StarCount(p)..];
       if p.conv == PERCENT then IsPlainPercent(p)
       else if rest == [] then false
       else if IsCompared(p.conv) then
         && p.length != ['L' as int] && rest[0].IntArg? && InType(StdSigned(p.conv), p.length, rest[0].v)
         && (fl.alt ==> p.conv == 'o' as int || p.conv == 'X' as int)
       else if p.conv == 'c' as int then
         p.length == [] && IsInt(rest[0]) && !fl.alt && !fl.zero && p.precision.Absent?
       else
         p.conv == 's' as int && p.length == [] && rest[0].StrArg? && 0 !in rest[0].s && !fl.alt && !fl.zero
  }

  /** What the standard asks for: a text, and the arguments left. */
  function StdOutcome(p: Spelling, args: seq<Arg>): Output
    requires Defined(p, args)
  {
    var l := LayoutOf(FlagsIn(p.flags), WidthGiven(p, args), PrecisionGiven(p, args));
    var rest := args[StarCount(p)..];
    if p.conv == PERCENT then Done([PERCENT], rest, [])
    else if IsCompared(p.conv) then Done(StdInteger(l, p.conv, rest[0].v), rest[1..], [])
    else if p.conv == 'c' as int then Done(Justified(l, [rest[0].v % 256]), rest[1..], [])
    else Done(StdString(l, rest[0].s), rest[1..], [])
  }

  /** The code hands the value on with its sign: size_t and the 64-bit types are signed to it, ptrdiff_t is not. */
  predicate ValueKept(signed: bool, length: seq<byte>, v: int) {
    if length == ['t' as int] then signed ==> v >= 0
    else if length == ['z' as int] || TypeSize(length) == M64 then !signed ==> v < TypeSize(length) / 2
    else true
  }

  /** Exactly when the code prints it. */
  ghost predicate MeetsStandard(p: Spelling, args: seq<Arg>)
    requires Defined(p, args)
  {
    var fl, width, precision := FlagsIn(p.flags), WidthGiven(p, args), PrecisionGiven(p, args);
    var rest := args[StarCount(p)..];
    if p.conv == PERCENT then false
    else if IsCompared(p.conv) then
      var v := rest[0].v;
      && p.length != HH && width < 256 && ValueKept(StdSigned(p.conv), p.length, v)
      && NoBitLost(Abs(v), StandardBase(p.conv)) && SameText(fl, width, precision, p.conv, v)
    else if p.conv == 'c' as int then Abs(width) <= 1
    else SameString(LayoutOf(fl, width, precision), rest[0].s)
  }

  lemma {:induction false} SignedSmall(v: int, m: nat)
    requires m >= 2 && m % 2 == 0 && -(m as int) / 2 <= v < m / 2
    ensures Signed(v, m) == v
  {
    if v < 0 {
      RoundTrip.WrapNegative(v, m);
    } else {
      RoundTrip.SmallMod(v, m);
    }
  }

  /** What the code hands on for an argument of the right type: itself, or a number of the other sign. */
  lemma {:induction false} ValuePassed(signed: bool, length: seq<byte>, v: int)
    requires IsLengthText(length) && length != HH && length != ['L' as int] && InType(signed, length, v)
    ensures var r := ArgValue(signed, LengthCode(length), v);
      && r.Some? && (ValueKept(signed, length, v) ==> r.v == v)
      && (!ValueKept(signed, length, v) ==> (r.v < 0) != (v < 0))
  {
    var m := TypeSize(length);
    if signed {
      SignedSmall(v, m);
    } else if LengthCode(length) == 'l' as int {
      SignedSmall(v, M64);
    }
    assert 0 <= v < m ==> v % m == v;
  }

  lemma {:induction false} StarsAgree(p: Spelling, args: seq<Arg>)
    requires Grammatical(p) && StarsTyped(p, args)
    ensures var d := Meant(p);
      StarsGiven(d, args) && WidthOf(d, args) == WidthGiven(p, args) && AfterStars(d, args) == args[StarCount(p)..]
  {
    hide FieldValue;
    if p.width.Star? {
      SignedSmall(args[0].v, M32);
    }
  }

  /** What the code does with a specification that stands alone and is read as spelled. */
  lemma {:induction false} SpelledOutcome(p: Spelling, args: seq<Arg>)
    requires Grammatical(p) && StarsTyped(p, args) && p.length != HH
    ensures StarsGiven(Meant(p), args)
    ensures Render([PERCENT] + Spell(p), args) ==
      RenderConv(Meant(p), WidthGiven(p, args), PrecOf(Meant(p), args), p.conv, args[StarCount(p)..])
  {
    hide ReadDirective, RenderConv, Spell, Meant, StarsGiven, WidthOf, PrecOf, WidthGiven, AfterStars;
    var d := Meant(p);
    SpellingRead(p, []);
    assert Spell(p) + [] == Spell(p) && [p.conv] + [] == [p.conv];
    StarsAgree(p, args);
    FormatStep(Spell(p), args);
    DirectiveAfterStars(d, p.conv, args);
    var o := RenderConv(d, WidthGiven(p, args), PrecOf(d, args), p.conv, args[StarCount(p)..]);
    if o.Done? {
      ThenEnd(o);
    }
  }

  lemma {:induction false} IntegerOutcome(d: Directive, width: int, prec: int, conv: byte, v: int, rest: seq<Arg>)
    requires IsCompared(conv) && ArgValue(IsSignedConv(conv), d.length, v).Some?
    ensures var r := ArgValue(IsSignedConv(conv), d.length, v).v;
      RenderConv(d, width, prec, conv, [IntArg(v)] + rest) ==
        if width < 256 && NoBitLost(Abs(r), StandardBase(conv)) then Done(CodeInteger(d.flags, width, conv, r),
          rest, [])
        else Stuck
  {
    var signed := IsSignedConv(conv);
    var r := ArgValue(signed, d.length, v).v;
    hide Rendered, NoBitLost, Signed;
    if width < 256 && NoBitLost(Abs(r), StandardBase(conv)) {
      IntegerConv(d, width, prec, conv, v, rest);
    } else {
      ArgumentAsTyped(signed, d.length, 0);
      ArgumentAsTyped(signed, d.length, v);
    }
  }

  /** Integers. */
  lemma {:induction false} StandardIntegerIff(p: Spelling, args: seq<Arg>)
    requires Defined(p, args) && IsCompared(p.conv) && p.length != HH
    ensures Render([PERCENT] + Spell(p), args) == StdOutcome(p, args) <==> MeetsStandard(p, args)
  {
    var d, fl, width, precision := Meant(p), FlagsIn(p.flags), WidthGiven(p, args), PrecisionGiven(p, args);
    var rest := args[StarCount(p)..];
    var v, signed := rest[0].v, IsSignedConv(p.conv);
    ValuePassed(signed, p.length, v);
    var r := ArgValue(signed, d.length, v).v;
    hide Render, RenderConv, Spell, StdInteger, CodeInteger, SameText, NoBitLost, ValueKept, ArgValue, FlagsIn;
    hide WidthGiven, PrecisionGiven, StarsTyped, InType, FieldValue, LengthCode, LayoutOf, Digits;
    SpelledOutcome(p, args);
    assert rest == [IntArg(v)] + rest[1..];
    IntegerOutcome(d, width, PrecOf(d, args), p.conv, v, rest[1..]);
    if ValueKept(signed, p.length, v) {
      IntegerTextIff(fl, width, precision, p.conv, v);
    } else {
      OtherSignDiffers(fl, width, precision, p.conv, v, r);
    }
  }

  /** Whatever stands around it, hh converts nothing: its conversion letter is printed as text. */
  lemma {:induction false} DoubleHPrintsLetter(p: Spelling, rest: seq<byte>, args: seq<Arg>)
    requires Grammatical(p) && p.length == HH && p.conv != PERCENT
    ensures var d := Meant(p);
      Render([PERCENT] + (Spell(p) + rest), args) ==
        if StarsGiven(d, args) then Prepend([p.conv], Render(rest, AfterStars(d, args))) else Stuck
  {
    hide ReadDirective, Spell, Meant, StarsGiven, AfterStars;
    SpellingRead(p, rest);
    NothingConverted(Spell(p) + rest, args);
    var u := ['h' as int, p.conv] + rest;
    assert u[1..] == [p.conv] + rest && ([p.conv] + rest)[1..] == rest;
  }

  /** Alone, it leaves its argument behind. */
  lemma {:induction false} DoubleHOutcome(p: Spelling, args: seq<Arg>)
    requires Grammatical(p) && StarsTyped(p, args) && p.length == HH && p.conv != PERCENT
    ensures Render([PERCENT] + Spell(p), args) == Done([p.conv], args[StarCount(p)..], [])
  {
    hide Spell, Meant, StarsGiven, AfterStars, WidthGiven, WidthOf;
    assert Spell(p) + [] == Spell(p);
    StarsAgree(p, args);
    DoubleHPrintsLetter(p, [], args);
    assert [p.conv] + [] == [p.conv];
  }

  /** Characters and strings. */
  lemma {:induction false} StandardTextIff(p: Spelling, args: seq<Arg>)
    requires Defined(p, args) && (p.conv == 'c' as int || p.conv == 's' as int)
    ensures Render([PERCENT] + Spell(p), args) == StdOutcome(p, args) <==> MeetsStandard(p, args)
  {
    hide Render, Spell, FlagsIn, WidthGiven, PrecisionGiven, FieldValue, Justified, StdString, SameString;
    var l := LayoutOf(FlagsIn(p.flags), WidthGiven(p, args), PrecisionGiven(p, args));
    var rest := args[StarCount(p)..];
    SpelledOutcome(p, args);
    if p.conv == 'c' as int {
      JustifiedIff(l, [rest[0].v % 256]);
    } else {
      StringIff(l, rest[0].s);
    }
  }

  lemma {:induction false} PercentOutcome(args: seq<Arg>)
    ensures Render([PERCENT] + Spell(Spelling([], Absent, Absent, [], PERCENT)), args) == Done([], args, [])
  {
    var p := Spelling([], Absent, Absent, [], PERCENT);
    assert args[0..] == args;
    hide Render, Spell;
    SpelledOutcome(p, args);
  }

  /**
   Exactness: a specification that the standard defines is carried out as the standard
   says, text and arguments, if and only if `MeetsStandard` holds of it and its arguments.
   */
  lemma {:induction false} StandardIff(p: Spelling, args: seq<Arg>)
    requires Defined(p, args)
    ensures Render([PERCENT] + Spell(p), args) == StdOutcome(p, args) <==> MeetsStandard(p, args)
  {
    hide Render, Spell, StdInteger, StdString, Justified, SameText, SameString, NoBitLost, ValueKept;
    if p.conv == PERCENT {
      PercentOutcome(args);
    } else if IsCompared(p.conv) {
      if p.length == HH {
        DoubleHOutcome(p, args);
      } else {
        StandardIntegerIff(p, args);
      }
    } else {
      StandardTextIff(p, args);
    }
  }

  // ----- what that means for a precision and for a star

  /** %.nd prints what it should if and only if the number has `n` digits or more, and is not 0 with n = 0. */
  lemma {:induction false} PrecisionIff(digits: seq<byte>, v: int)
    requires AllDigits(digits) && InType(true, [], v)
    ensures var p, args := Spelling([], Absent, Number(digits), [], 'd' as int), [IntArg(v)];
      Defined(p, args) && (MeetsStandard(p, args) <==>
        Decimal(digits) <= |Digits(Abs(v), 10)| && !(v == 0 && Decimal(digits) == 0))
  {
    SmallIsSafe(Abs(v), 10);
    hide Decimal, Digits, NoBitLost;
  }

  /** %.ns if and only if the string has at most `n` characters. */
  lemma {:induction false} StringPrecisionIff(digits: seq<byte>, s: seq<byte>)
    requires AllDigits(digits) && 0 !in s
    ensures var p, args := Spelling([], Absent, Number(digits), [], 's' as int), [StrArg(s)];
      Defined(p, args) && (MeetsStandard(p, args) <==> |s| <= Decimal(digits))
  {
    hide Decimal;
  }

  /** %*d with a negative width if and only if the number is as wide already. */
  lemma {:induction false} StarWidthIff(w: int, v: int)
    requires InType(true, [], w) && InType(true, [], v)
    ensures var p, args := Spelling([], Star, Absent, [], 'd' as int), [IntArg(w), IntArg(v)];
      Defined(p, args) && (MeetsStandard(p, args) <==> w < 256 && -w <= |Natural(v, 10, false, false)|)
  {
    SmallIsSafe(Abs(v), 10);
    DigitsCanonical(Abs(v), 10);
    hide Digits, NoBitLost;
    assert |Natural(v, 10, false, false)| == |SignText(v, false, false)| + |Digits(Abs(v), 10)|;
  }

  // ----- %f

  /** The precision of a specification without stars; 6 if there is none. */
  function StatedPrecision(f: Field): nat
    requires f.Number? ==> AllDigits(f.digits)
  {
    if f.Number? then Decimal(f.digits) else 6
  }

  /** %f and %.nf print the number before the point and the one behind it, or get stuck. */
  lemma {:induction false} FixedPrinted(precision: Field, x: real, rest: seq<Arg>)
    requires !precision.Star? && (precision.Number? ==> AllDigits(precision.digits))
    ensures var p, prec := Spelling([], Absent, precision, [], 'f' as int), StatedPrecision(precision);
      Render([PERCENT] + Spell(p), [RealArg(x)] + rest) ==
        if Handled(x, 0, prec, false, false) then Done(CodeFixed(x, prec), rest, []) else Stuck
  {
    var p, prec, args := Spelling([], Absent, precision, [], 'f' as int), StatedPrecision(precision),
      [RealArg(x)] + rest;
    hide Render, RenderConv, Spell, Decimal, Handled, CodeFixed, FlagsIn;
    SpelledOutcome(p, args);
    assert args[0..] == args;
    BareFlags();
    FixedConv(Meant(p), prec, x, rest);
  }

  lemma {:induction false} BareFlags()
    ensures FlagsIn([]) == NO_FLAGS
  {
  }

  lemma {:induction false} FixedConv(d: Directive, prec: int, x: real, rest: seq<Arg>)
    requires d.flags == NO_FLAGS && prec >= 0
    ensures RenderConv(d, 0, prec, 'f' as int, [RealArg(x)] + rest) ==
      if Handled(x, 0, prec, false, false) then Done(CodeFixed(x, prec), rest, []) else Stuck
  {
    hide RenderInt, Handled, Whole, Fraction, Normalised, RenderCount;
    assert ([RealArg(x)] + rest)[1..] == rest;
    var t := CodeFixed(x, prec);
    assert t + [] == t;
  }

  /** Exactly when %f and %.nf print the decimal notation that the standard asks for. */
  lemma {:induction false} FixedConversionIff(precision: Field, x: real, rest: seq<Arg>)
    requires !precision.Star? && (precision.Number? ==> AllDigits(precision.digits))
    ensures var p, prec := Spelling([], Absent, precision, [], 'f' as int), StatedPrecision(precision);
      var o := Render([PERCENT] + Spell(p), [RealArg(x)] + rest);
      o.Done? && o.args == rest && IsFixed(o.out, x, prec) <==> Handled(x, 0, prec, false, false) && FixedRight(x, prec)
  {
    hide Render, Spell, Handled, CodeFixed, FixedRight, IsFixed, StatedPrecision;
    FixedPrinted(precision, x, rest);
    FixedIff(x, StatedPrecision(precision));
  }

  /** The flags and the width of a floating conversion act on the part before the point. */
  lemma {:induction false} FloatFlags(d: Directive, width: int, prec: nat, x: real, rest: seq<Arg>)
    requires RenderConv(d, width, prec, 'f' as int, [RealArg(x)] + rest).Done? && Trunc(x) == 2
    ensures var out := RenderConv(d, width, prec, 'f' as int, [RealArg(x)] + rest).out;
      var sign := if d.flags.plus then Ascii("+") else if d.flags.space then Ascii(" ") else [];
      var k := width - prec - (if prec != 0 || d.flags.alt then 1 else 0) - |sign| - 1;
      out == (if d.flags.left then sign + Ascii("2") + Padding(k, d.flags.zero)
              else Padding(k, d.flags.zero) + (sign + Ascii("2"))) + Fraction(x, prec, d.flags.alt)
  {
    hide Handled, Fraction, Normalised, Whole, WholeWidth, RenderInt, RenderCount, Padding;
    TwoWhole(x, d.flags, width, prec);
    var form := WholeWidth(width, prec, d.flags.alt, false, 0);
    var out := Whole(x, d.flags.plus, d.flags.space, form, d.flags.left, d.flags.zero) + Fraction(x, prec, d.flags.alt);
    assert out + [] == out;
  }

  lemma {:induction false} TwoWhole(x: real, fl: Flags, width: int, prec: nat)
    requires Trunc(x) == 2
    ensures var form := WholeWidth(width, prec, fl.alt, false, 0);
      var sign := if fl.plus then Ascii("+") else if fl.space then Ascii(" ") else [];
      var k := width - prec - (if prec != 0 || fl.alt then 1 else 0) - |sign| - 1;
      Whole(x, fl.plus, fl.space, form, fl.left, fl.zero) ==
        if fl.left then sign + Ascii("2") + Padding(k, fl.zero) else Padding(k, fl.zero) + (sign + Ascii("2"))
  {
    hide Rendered, Natural, Ascii;
    var form := WholeWidth(width, prec, fl.alt, false, 0);
    RenderedShape(2, 10, fl.plus, fl.space, form, fl.left, fl.zero);
    TwoIs(fl.plus, fl.space);
    assert |Ascii("2")| == 1;
    var sign := if fl.plus then Ascii("+") else if fl.space then Ascii(" ") else [];
    var k := width - prec - (if prec != 0 || fl.alt then 1 else 0) - |sign| - 1;
    assert Padding(form - |sign| - 1, fl.zero) == Padding(k, fl.zero);
  }

  lemma {:induction false} TwoIs(plus: bool, space: bool)
    ensures var sign := if plus then Ascii("+") else if space then Ascii(" ") else [];
      Natural(2, 10, plus, space) == sign + Ascii("2")
  {
    assert Digits(2, 10) == [2];
    assert DigitText([2]) == Ascii("2");
    assert SignText(2, plus, space) == if plus then Ascii("+") else if space then Ascii(" ") else [];
  }

  // ----- %p

  /** %p prints a pointer as upper-case hexadecimal digits and nothing else; # does not change that. */
  lemma {:induction false} PointerPrinted(flags: seq<byte>, v: int, rest: seq<Arg>)
    requires 0 <= v < 0x8000_0000 && (flags == [] || flags == Ascii("#"))
    ensures var p := Spelling(flags, Absent, Absent, [], 'p' as int);
      Render([PERCENT] + Spell(p), [IntArg(v)] + rest) == Done(Numeral(v, 16), rest, [])
  {
    var p, args := Spelling(flags, Absent, Absent, [], 'p' as int), [IntArg(v)] + rest;
    assert IsFlag('#' as int);
    PointerFlags(flags);
    SignedSmall(v, M32);
    SmallIsSafe(v, 16);
    hide Render, Spell, RenderConv, Rendered, NoBitLost, Signed, FlagsIn, Numeral;
    SpelledOutcome(p, args);
    assert args[0..] == args;
    IntegerConv(Meant(p), 0, PrecOf(Meant(p), args), 'p' as int, v, rest);
    BareNumeral(v);
  }

  lemma {:induction false} PointerFlags(flags: seq<byte>)
    requires flags == [] || flags == Ascii("#")
    ensures var fl := FlagsIn(flags); !fl.left && !fl.plus && !fl.space && !fl.zero
  {
  }

  lemma {:induction false} BareNumeral(v: nat)
    ensures [] + Rendered(v, 16, false, false, 0, false, false) == Numeral(v, 16)
  {
    hide Rendered, Digits;
    RenderedShape(v, 16, false, false, 0, false, false);
    var t := Natural(v, 16, false, false);
    assert t == Numeral(v, 16) && Padding(0 - |t|, false) + t == t;
  }

  // ----- %e and %n

  /** %e and %.ne print the mantissa as %f would, "e+" and the exponent. */
  lemma {:induction false} ScientificPrinted(precision: Field, conv: byte, x: real, rest: seq<Arg>)
    requires !precision.Star? && (precision.Number? ==> AllDigits(precision.digits))
    requires conv == 'e' as int || conv == 'E' as int
    ensures var p, prec := Spelling([], Absent, precision, [], conv), StatedPrecision(precision);
      Render([PERCENT] + Spell(p), [RealArg(x)] + rest) ==
        if Handled(x, 0, prec, false, true) then Done(CodeScientific(x, prec, conv), rest, []) else Stuck
  {
    var p, prec, args := Spelling([], Absent, precision, [], conv), StatedPrecision(precision), [RealArg(x)] + rest;
    hide Render, RenderConv, Spell, Decimal, Handled, CodeScientific, FlagsIn;
    SpelledOutcome(p, args);
    assert args[0..] == args;
    BareFlags();
    ScientificConv(Meant(p), prec, conv, x, rest);
  }

  lemma {:induction false} ScientificConv(d: Directive, prec: int, conv: byte, x: real, rest: seq<Arg>)
    requires d.flags == NO_FLAGS && prec >= 0 && (conv == 'e' as int || conv == 'E' as int)
    ensures RenderConv(d, 0, prec, conv, [RealArg(x)] + rest) ==
      if Handled(x, 0, prec, false, true) then Done(CodeScientific(x, prec, conv), rest, []) else Stuck
  {
    hide RenderInt, Handled, Whole, Fraction, Normalised, RenderCount, ExponentText;
    assert ([RealArg(x)] + rest)[1..] == rest;
  }

  /** Exactly when %e and %.ne print the scientific notation that the standard asks for. */
  lemma {:induction false} ScientificConversionIff(precision: Field, conv: byte, x: real, rest: seq<Arg>)
    requires !precision.Star? && (precision.Number? ==> AllDigits(precision.digits))
    requires conv == 'e' as int || conv == 'E' as int
    ensures var p, prec := Spelling([], Absent, precision, [], conv), StatedPrecision(precision);
      var o := Render([PERCENT] + Spell(p), [RealArg(x)] + rest);
      o.Done? && o.args == rest && IsScientificText(o.out, x, prec, conv) <==>
        Handled(x, 0, prec, false, true) && ScientificRight(x, prec)
  {
    hide Render, Spell, Handled, CodeScientific, ScientificRight, IsScientificText, StatedPrecision;
    ScientificPrinted(precision, conv, x, rest);
    ScientificIff(x, StatedPrecision(precision), conv);
  }

  /** %n with each length modifier: a store of that type, and none for L. */
  lemma {:induction false} CountSpelled(length: seq<byte>, q: nat, rest: seq<Arg>)
    requires IsLengthText(length) && length != Ascii("hh")
    ensures var p := Spelling([], Absent, Absent, length, 'n' as int);
      var code := if length == [] then 0 else if length == Ascii("ll") then 'q' as int else length[0];
      Render([PERCENT] + Spell(p), [PtrArg(q)] + rest) ==
        if length == Ascii("L") then Done([], [PtrArg(q)] + rest, [])
        else Done([], rest, [Store(q, code, 0)])
  {
    var p, args := Spelling([], Absent, Absent, length, 'n' as int), [PtrArg(q)] + rest;
    assert HH == Ascii("hh") && LL == Ascii("ll");
    hide Render, Spell, FlagsIn, RenderInt, RenderFloat;
    SpelledOutcome(p, args);
    assert args[0..] == args && args[1..] == rest;
  }

  // ----- inputs on which it fails

  lemma {:induction false} OneDigit(d: nat)
    requires d < 10
    ensures Digits(d, 10) == [d] && Numeral(d, 10) == [48 + d]
  {
    assert DigitText([d]) == [48 + d];
  }

  lemma {:induction false} ThreeIs()
    ensures AllDigits(['3' as int]) && Decimal(['3' as int]) == 3
  {
    ValueOne(3, 10);
    assert DigitValues(['3' as int]) == [3];
  }

  /** %.3d of 5 is "005" in the standard and "5" in the code. */
  lemma {:induction false} PrecisionIgnored()
    ensures var p, args := Spelling([], Absent, Number(['3' as int]), [], 'd' as int), [IntArg(5)];
      && Spell(p) == ['.' as int, '3' as int, 'd' as int] && Defined(p, args) && !MeetsStandard(p, args)
      && StdOutcome(p, args) == Done(['0' as int, '0' as int, '5' as int], [], [])
  {
    ThreeIs();
    OneDigit(5);
    hide Decimal, Numeral, Digits, NoBitLost;
    assert Noughts(2) + ['5' as int] == ['0' as int, '0' as int, '5' as int];
    assert [] + Blanks(0) == [];
  }

  /** %*d of -5 and 7 is "7" and four blanks in the standard and "7" in the code. */
  lemma {:induction false} NegativeWidthIgnored()
    ensures var p, args := Spelling([], Star, Absent, [], 'd' as int), [IntArg(-5), IntArg(7)];
      && Spell(p) == ['*' as int, 'd' as int] && Defined(p, args) && !MeetsStandard(p, args)
      && StdOutcome(p, args) == Done(['7' as int, SPACE, SPACE, SPACE, SPACE], [], [])
  {
    OneDigit(7);
    hide Numeral, Digits, NoBitLost;
    assert Noughts(0) + ['7' as int] == ['7' as int];
    assert ['7' as int] + Blanks(4) == ['7' as int, SPACE, SPACE, SPACE, SPACE];
    assert [] + ['7' as int] == ['7' as int];
  }
}
