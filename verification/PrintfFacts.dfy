/**
 What the integer conversions of `vprintf` mean: the number printed is the
 argument as its C type would hold it, in the base the standard prescribes,
 except for %x, which prints in base 17.
 */
module PrintfFacts {
  import opened Words
  import opened Numerals
  import opened DivMod
  import opened IntFormat
  import opened FloatFormat
  import opened Printf
  import opened RoundTrip
  import S = Strtoul

  // ----- arguments

  /** The number of values of the type that each length modifier selects; 0 where the code has no case. */
  function TypeModulus(signed: bool, length: byte): nat {
    if length == 'H' as int then 256
    else if length == 'h' as int then 0x1_0000
    else if length == 0 || length == 't' as int || length == 'z' as int then M32
    else if length == 'l' as int then (if signed then M32 else M64)
    else if length == 'q' as int || length == 'j' as int then M64
    else 0
  }

  /**
   Whether the value handed on is that of a signed type: `size_t` is signed here, and 64-bit values
   go through intmax_t.
   */
  predicate TypeSigned(signed: bool, length: byte) {
    length == 'z' as int || (signed && length != 't' as int) || TypeModulus(signed, length) == M64
  }

  lemma SignedCongruent(v: int, m: nat)
    requires m >= 2 && m % 2 == 0
    ensures Signed(v, m) % m == v % m && -(m as int) / 2 <= Signed(v, m) < m / 2
  {
    var u := v % m;
    if u >= m / 2 {
      WrapNegative(u - m, m);
    } else {
      SmallMod(u, m);
    }
  }

  ghost predicate AsTyped(signed: bool, length: byte, v: int, p: Picked) {
    var m := TypeModulus(signed, length);
    && (p == None <==> m == 0)
    && (p.Some? ==>
          && p.v % m == v % m
          && if TypeSigned(signed, length) then -(m as int) / 2 <= p.v < m / 2 else 0 <= p.v < m)
  }

  lemma {:induction false} SignedAsTyped(length: byte, v: int)
    ensures AsTyped(true, length, v, SignedValue(length, v))
  {
    hide Signed;
    SignedCongruent(v, 256);
    SignedCongruent(v, 0x1_0000);
    SignedCongruent(v, M32);
    SignedCongruent(v, M64);
  }

  lemma {:induction false} UnsignedAsTyped(length: byte, v: int)
    ensures AsTyped(false, length, v, UnsignedValue(length, v))
  {
    hide Signed;
    SignedCongruent(v, M32);
    SignedCongruent(v, M64);
  }

  /** The value printed is congruent to the argument and lies in the range of its type. */
  lemma {:induction false} ArgumentAsTyped(signed: bool, length: byte, v: int)
    ensures AsTyped(signed, length, v, ArgValue(signed, length, v))
  {
    hide AsTyped, SignedValue, UnsignedValue;
    SignedAsTyped(length, v);
    UnsignedAsTyped(length, v);
  }

  // ----- numbers

  /** The base in which the standard prints each conversion. */
  function StandardBase(conv: byte): nat {
    if conv == 'o' as int then 8
    else if conv == 'x' as int || conv == 'X' as int || conv == 'p' as int then 16
    else 10
  }

  predicate IsIntegerConv(c: byte) { IsUnsignedConv(c) || IsSignedConv(c) }

  function EffectiveLength(d: Directive, conv: byte): byte {
    if conv == 'p' as int then 'z' as int else d.length
  }

  /** The arguments that `*` takes are there. */
  predicate StarsGiven(d: Directive, args: seq<Arg>) {
    var stars := (if d.widthStar then 1 else 0) + if d.precStar then 1 else 0;
    stars <= |args| && forall k :: 0 <= k < stars ==> args[k].IntArg?
  }

  function WidthOf(d: Directive, args: seq<Arg>): int
    requires StarsGiven(d, args)
  {
    if d.widthStar then Signed(args[0].v, M32) else d.width
  }

  function PrecOf(d: Directive, args: seq<Arg>): int
    requires StarsGiven(d, args)
  {
    if d.precStar then Signed(args[if d.widthStar then 1 else 0].v, M32) else d.precision
  }

  /** The arguments left for the conversion. */
  function AfterStars(d: Directive, args: seq<Arg>): seq<Arg>
    requires StarsGiven(d, args)
  {
    args[(if d.widthStar then 1 else 0) + if d.precStar then 1 else 0..]
  }

  lemma {:induction false} DirectiveAfterStars(d: Directive, conv: byte, args: seq<Arg>)
    ensures RenderDirective(d, conv, args) ==
      if StarsGiven(d, args) then RenderConv(d, WidthOf(d, args), PrecOf(d, args), conv, AfterStars(d, args)) else Stuck
  {
    hide RenderConv, Signed;
    if StarsGiven(d, args) && d.widthStar && d.precStar {
      assert args[1..][1..] == args[2..];
    }
  }

  lemma {:induction false} FormatStep(t: seq<byte>, args: seq<Arg>)
    ensures Render([PERCENT] + t, args) ==
      var (d, r) := ReadDirective(t);
      if r == [] then Stuck
      else
        var o := RenderDirective(d, r[0], args);
        if o.Stuck? then Stuck else Then(o, Render(r[1..], o.args))
  {
    hide ReadDirective, RenderDirective;
    assert ([PERCENT] + t)[1..] == t;
  }

  /**
   Of every directive a format can spell, an integer conversion takes one argument
   and prints it as its type holds it, behind what # puts there. `hh` is no such type:
   no directive that ends in an integer conversion has been read with it.
   */
  lemma {:induction false} ConversionPrints(t: seq<byte>, args: seq<Arg>, v: int, rest: seq<Arg>)
    requires var (d, u) := ReadDirective(t);
      && u != [] && IsIntegerConv(u[0]) && StarsGiven(d, args) && WidthOf(d, args) < 256
      && AfterStars(d, args) == [IntArg(v)] + rest
      && var r := ArgValue(IsSignedConv(u[0]), EffectiveLength(d, u[0]), v);
      r.Some? && NoBitLost(Abs(r.v), BaseOf(u[0]))
    ensures var (d, u) := ReadDirective(t);
      var r := ArgValue(IsSignedConv(u[0]), EffectiveLength(d, u[0]), v).v;
      && d.length != 'H' as int
      && RenderDirective(d, u[0], args) == Done(
           AltPrefix(u[0], d.flags.alt) +
             Rendered(r, BaseOf(u[0]), d.flags.plus, d.flags.space, WidthOf(d, args), d.flags.left, d.flags.zero),
           rest, [])
  {
    DoubleHLeavesH(t);
    hide ReadDirective, Rendered, NoBitLost, Signed, RenderDirective, WidthOf, PrecOf, StarsGiven, AfterStars;
    var (d, u) := ReadDirective(t);
    DirectiveAfterStars(d, u[0], args);
    IntegerConv(d, WidthOf(d, args), PrecOf(d, args), u[0], v, rest);
  }

  lemma {:induction false} IntegerConv(d: Directive, width: int, prec: int, conv: byte, v: int, rest: seq<Arg>)
    requires IsIntegerConv(conv) && width < 256
    requires var r := ArgValue(IsSignedConv(conv), EffectiveLength(d, conv), v);
      r.Some? && NoBitLost(Abs(r.v), BaseOf(conv))
    ensures var r := ArgValue(IsSignedConv(conv), EffectiveLength(d, conv), v).v;
      RenderConv(d, width, prec, conv, [IntArg(v)] + rest) == Done(
        AltPrefix(conv, d.flags.alt) +
          Rendered(r, BaseOf(conv), d.flags.plus, d.flags.space, width, d.flags.left, d.flags.zero),
        rest, [])
  {
    var signed, length := IsSignedConv(conv), EffectiveLength(d, conv);
    var r := ArgValue(signed, length, v).v;
    var args := [IntArg(v)] + rest;
    hide Rendered, NoBitLost, Signed;
    ArgumentAsTyped(signed, length, 0);
    ArgumentAsTyped(signed, length, v);
    var out := Rendered(r, BaseOf(conv), d.flags.plus, d.flags.space, width, d.flags.left, d.flags.zero);
    assert args[1..] == rest;
    assert RenderInt(d.flags, width, BaseOf(conv), signed, length, args) == Done(out, rest, []);
    assert [] + out == out;
  }

  /**
   The number printed by any integer conversion but %x, read back in the standard base
   and any word that can hold it: the argument's value, provided the padding is harmless
   and, behind the prefix of #, the number starts with a digit.
   */
  lemma {:induction false} IntegerConversion(t: seq<byte>, args: seq<Arg>, v: int, rest: seq<Arg>, modulus: nat)
    requires var (d, u) := ReadDirective(t);
      && u != [] && IsIntegerConv(u[0]) && u[0] != 'x' as int && StarsGiven(d, args) && WidthOf(d, args) < 256
      && AfterStars(d, args) == [IntArg(v)] + rest
      && var r := ArgValue(IsSignedConv(u[0]), EffectiveLength(d, u[0]), v);
      && r.Some? && NoBitLost(Abs(r.v), StandardBase(u[0])) && Abs(r.v) < modulus
      && HarmlessPadding(r.v, StandardBase(u[0]), d.flags.plus, d.flags.space, WidthOf(d, args), d.flags.left,
        d.flags.zero)
    ensures var (d, u) := ReadDirective(t);
      var r := ArgValue(IsSignedConv(u[0]), EffectiveLength(d, u[0]), v).v;
      var base, prefix := StandardBase(u[0]), AltPrefix(u[0], d.flags.alt);
      var o := RenderDirective(d, u[0], args);
      && d.length != 'H' as int && o.Done? && o.args == rest
      && S.Parse(o.out, base, modulus).value ==
           if prefix == [] || DigitFirst(r, base, d.flags.plus, d.flags.space, WidthOf(d, args), d.flags.left,
             d.flags.zero)
           then r % modulus else 0
  {
    ConversionPrints(t, args, v, rest);
    hide ReadDirective, Rendered, HarmlessPadding, DigitFirst, NoBitLost, Signed, S.Parse, WidthOf, AfterStars,
      StarsGiven, RenderDirective;
    var (d, u) := ReadDirective(t);
    var r := ArgValue(IsSignedConv(u[0]), EffectiveLength(d, u[0]), v).v;
    var base, prefix, width := StandardBase(u[0]), AltPrefix(u[0], d.flags.alt), WidthOf(d, args);
    PrintParse(r, base, d.flags.plus, d.flags.space, width, d.flags.left, d.flags.zero, modulus);
    var out := Rendered(r, base, d.flags.plus, d.flags.space, width, d.flags.left, d.flags.zero);
    if prefix == [] {
      assert [] + out == out;
    } else {
      PrefixedParse(r, base, d.flags.plus, d.flags.space, width, d.flags.left, d.flags.zero, prefix, modulus);
    }
  }

  // ----- the prefix of #

  /** The text starts with a digit, not with a sign or a blank. */
  predicate DigitFirst(value: int, base: nat, plus: bool, space: bool, width: int, left: bool, zero: bool)
    requires 2 <= base <= 16
  {
    if !left && width > |Natural(value, base, plus, space)| then zero else SignText(value, plus, space) == []
  }

  lemma {:induction false} FirstIsDigit(value: int, base: nat, plus: bool, space: bool, width: int, left: bool,
      zero: bool)
    requires 2 <= base <= 16
    ensures var r := Rendered(value, base, plus, space, width, left, zero);
      && r != []
      && (S.DigitOf(r[0]) < base <==> DigitFirst(value, base, plus, space, width, left, zero))
      && forall k :: 0 <= k < |r| ==> !S.IsX(r[k])
  {
    hide Natural, Rendered, Padding, SignText;
    RenderedShape(value, base, plus, space, width, left, zero);
    NoXInNatural(value, base, plus, space);
    var t := Natural(value, base, plus, space);
    var pad := Padding(width - |t|, zero);
    NoXInPadding(width - |t|, zero, base);
    var r := Rendered(value, base, plus, space, width, left, zero);
    if !left && width > |t| {
      assert r[0] == pad[0];
    } else {
      assert r[0] == t[0];
    }
    forall k | 0 <= k < |r| ensures !S.IsX(r[k]) {
      assert r[k] in t || r[k] in pad;
    }
  }

  lemma {:induction false} NoXInPadding(n: int, zero: bool, base: nat)
    requires 2 <= base <= 16
    ensures var pad := Padding(n, zero);
      (n > 0 ==> (S.DigitOf(pad[0]) < base <==> zero)) && forall c :: c in pad ==> !S.IsX(c)
  {
  }

  lemma {:induction false} NoXInNatural(value: int, base: nat, plus: bool, space: bool)
    requires 2 <= base <= 16
    ensures var t := Natural(value, base, plus, space);
      && (S.DigitOf(t[0]) < base <==> SignText(value, plus, space) == [])
      && forall c :: c in t ==> !S.IsX(c)
  {
    var ds, sign := Digits(Abs(value), base), SignText(value, plus, space);
    DigitsCanonical(Abs(value), base);
    hide Digits;
    assert Natural(value, base, plus, space) == sign + DigitText(ds);
    forall k | 0 <= k < |ds| ensures S.DigitOf(DigitText(ds)[k]) == ds[k] && !S.IsX(DigitText(ds)[k]) {
      DigitTextRoundTrip(ds[k]);
    }
  }

  /** "0" or "0x" in front is harmless to a parser if a digit follows, and all it sees otherwise. */
  lemma {:induction false} PrefixedParse(value: int, base: nat, plus: bool, space: bool, width: int, left: bool,
      zero: bool, prefix: seq<byte>, modulus: nat)
    requires (base == 8 && prefix == [48]) || (base == 16 && prefix == [48, 120])
    requires modulus >= 1
    ensures var r := Rendered(value, base, plus, space, width, left, zero);
      S.Parse(prefix + r, base, modulus).value ==
        if DigitFirst(value, base, plus, space, width, left, zero) then S.Parse(r, base, modulus).value else 0
  {
    hide Rendered, DigitFirst;
    FirstIsDigit(value, base, plus, space, width, left, zero);
    var r := Rendered(value, base, plus, space, width, left, zero);
    if base == 8 {
      OctalPrefix(r, modulus);
    } else {
      HexPrefix(r, modulus);
    }
  }

  lemma {:induction false} OctalPrefix(r: seq<byte>, modulus: nat)
    requires r != [] && modulus >= 1
    ensures S.Parse([48] + r, 8, modulus).value ==
      if S.DigitOf(r[0]) < 8 then S.Parse(r, 8, modulus).value else 0
  {
    hide S.DigitEnd, S.SpaceEnd, S.RunValue, S.Clamp;
    var t: seq<byte> := [48] + r;
    var e := S.DigitEnd(r, 0, 8);
    S.SpaceEndIs(t, 0, 0);
    OneZeroMore(r, e);
    if S.DigitOf(r[0]) < 8 {
      S.SpaceEndIs(r, 0, 0);
    } else {
      S.DigitEndIs(r, 0, 8, 0);
      S.RunEmpty(r, 0, 8);
      NothingClamped(modulus);
    }
  }

  lemma {:induction false} OneZeroMore(r: seq<byte>, e: nat)
    requires e == S.DigitEnd(r, 0, 8)
    ensures S.DigitEnd([48] + r, 0, 8) == e + 1 && S.RunValue([48] + r, 0, e + 1, 8) == S.RunValue(r, 0, e, 8)
  {
    hide S.DigitEnd, Value;
    var t: seq<byte> := [48] + r;
    S.DigitEndIs(r, 0, 8, e);
    S.DigitEndIs(t, 0, 8, e + 1);
    LeadingZeros(1, S.DigitValues(r[0..e]), 8);
    assert S.DigitValues(t[0..e + 1]) == Zeros(1) + S.DigitValues(r[0..e]);
  }

  lemma NothingClamped(modulus: nat)
    requires modulus >= 1
    ensures S.Clamp(0, false, modulus) == 0
  {
  }

  lemma {:induction false} HexPrefix(r: seq<byte>, modulus: nat)
    requires r != [] && modulus >= 1 && forall k :: 0 <= k < |r| ==> !S.IsX(r[k])
    ensures S.Parse([48, 120] + r, 16, modulus).value ==
      if S.DigitOf(r[0]) < 16 then S.Parse(r, 16, modulus).value else 0
  {
    hide S.DigitEnd, S.SpaceEnd, S.RunValue, S.Clamp;
    var t: seq<byte> := [48, 120] + r;
    var e := S.DigitEnd(r, 0, 16);
    S.SpaceEndIs(t, 0, 0);
    TwoCharactersMore(r, e);
    if S.DigitOf(r[0]) < 16 {
      S.SpaceEndIs(r, 0, 0);
    } else {
      S.DigitEndIs(r, 0, 16, 0);
      S.RunEmpty(r, 0, 16);
      NothingClamped(modulus);
    }
  }

  lemma {:induction false} TwoCharactersMore(r: seq<byte>, e: nat)
    requires e == S.DigitEnd(r, 0, 16)
    ensures S.DigitEnd([48, 120] + r, 2, 16) == e + 2 &&
      S.RunValue([48, 120] + r, 2, e + 2, 16) == S.RunValue(r, 0, e, 16)
  {
    hide S.DigitEnd, Value;
    var t: seq<byte> := [48, 120] + r;
    S.DigitEndIs(r, 0, 16, e);
    S.DigitEndIs(t, 2, 16, e + 2);
    assert t[2..e + 2] == r[0..e];
  }

  // ----- %x

  function LowerDigit(d: nat): byte
    requires d < 16
  {
    if d < 10 then 48 + d else 87 + d
  }

  /** The number in lower-case hexadecimal, as %x should print it. */
  function LowerHex(v: nat): (t: seq<byte>)
    ensures |t| == |Digits(v, 16)|
  {
    DigitsCanonical(v, 16);
    seq(|Digits(v, 16)|, k requires 0 <= k < |Digits(v, 16)| => LowerDigit(Digits(v, 16)[k]))
  }

  /** What %x does print: base 17, with NUL for the seventeenth digit. */
  function PrintedX(v: nat): seq<byte> {
    Rendered(v, 17, false, false, 0, false, false)
  }

  lemma {:induction false} ValueInLargerBase(ds: seq<nat>, b: nat, b': nat)
    requires b <= b'
    ensures Value(ds, b) <= Value(ds, b')
  {
    if ds != [] {
      var init := ds[..|ds| - 1];
      ValueInLargerBase(init, b, b');
      MulMonotone(Value(init, b), Value(init, b'), b);
      MulMonotone(b, b', Value(init, b'));
    }
  }

  /** Two digits or more denote more in a larger base. */
  lemma {:induction false} ValueStrictlyLarger(ds: seq<nat>, b: nat, b': nat)
    requires b < b' && |ds| >= 2 && Value(ds[..|ds| - 1], b') > 0
    ensures Value(ds, b) < Value(ds, b')
  {
    var init := ds[..|ds| - 1];
    ValueInLargerBase(init, b, b');
    var x, y := Value(init, b), Value(init, b');
    MulMonotone(x, y, b);
    MulMonotone(b + 1, b', y);
    assert (b + 1) * y == b * y + y;
  }

  /** Dropping a digit divides. */
  lemma {:induction false} PrefixSmaller(ds: seq<nat>, k: nat, base: nat)
    requires k < |ds| && base >= 2
    ensures Value(ds, base) > 0 ==> Value(ds[..k], base) < Value(ds, base)
  {
    var init := ds[..|ds| - 1];
    ValueGrows(init, k, base);
    assert init[..k] == ds[..k];
    MulMonotone(2, base, Value(init, base));
  }

  /** A printed text that matches the hexadecimal one would be a prefix of the base-17 digits. */
  lemma {:induction false} MatchingPrefix(v: nat)
    requires PrintedX(v) == LowerHex(v)
    ensures |Digits(v, 16)| <= |Digits(v, 17)| && Digits(v, 16) == Digits(v, 17)[..|Digits(v, 16)|]
    ensures forall k :: 0 <= k < |Digits(v, 16)| ==> Digits(v, 16)[k] < 10
  {
    hide PrintedX, LowerHex, Digits;
    var x, h := Digits(v, 17), Digits(v, 16);
    PrintedXDigits(v);
    LowerHexDigits(v);
    forall k | 0 <= k < |h| ensures h[k] == x[k] && h[k] < 10 {
      SameDigit(x[k], h[k]);
    }
  }

  lemma {:induction false} PrintedXDigits(v: nat)
    ensures var x, t := Digits(v, 17), PrintedX(v);
      InBase(x, 17) && |t| <= |x| && forall k :: 0 <= k < |t| ==> t[k] == DIGITS[x[k]]
  {
    var x := Digits(v, 17);
    DigitsCanonical(v, 17);
    hide Digits, UpToNul, Rendered;
    var t := Natural(v, 17, false, false);
    assert t == DigitText(x);
    RenderedCases(v, 17, false, false, 0, false, false);
  }

  lemma {:induction false} LowerHexDigits(v: nat)
    ensures var h, t := Digits(v, 16), LowerHex(v);
      InBase(h, 16) && |t| == |h| && forall k :: 0 <= k < |t| ==> t[k] == LowerDigit(h[k])
  {
    hide Digits;
    DigitsCanonical(v, 16);
  }

  lemma SameDigit(x: nat, h: nat)
    requires x < 17 && h < 16 && DIGITS[x] == LowerDigit(h)
    ensures x == h < 10
  {
  }

  lemma {:induction false} PrintedXIff(v: nat)
    ensures PrintedX(v) == LowerHex(v) <==> v < 10
  {
    DigitsUnfold(v, 16);
    DigitsUnfold(v, 17);
    if v < 10 {
      SmallX(v);
    } else if PrintedX(v) == LowerHex(v) {
      MatchingPrefix(v);
      hide PrintedX, LowerHex, Digits, Value;
      var x, h := Digits(v, 17), Digits(v, 16);
      DigitsCanonical(v, 17);
      DigitsCanonical(v, 16);
      ValueInLargerBase(h, 16, 17);
      if |h| < |x| {
        PrefixSmaller(x, |h|, 17);
        assert false;
      } else {
        assert x == h;
        if v >= 17 {
          LongNumeral(v);
        }
        assert false;
      }
    }
  }

  /** %x prints lower-case hexadecimal exactly for the arguments that are 0 to 9 modulo 2^32. */
  lemma {:induction false} HexConversionIff(v: int, rest: seq<Arg>)
    ensures var o := Render([PERCENT, 'x' as int], [IntArg(v)] + rest);
      o.Done? && o.args == rest && (o.out == LowerHex(v % M32) <==> v % M32 < 10)
  {
    hide Render, LowerHex, PrintedX;
    PercentX(v, rest);
    PrintedXIff(v % M32);
  }

  lemma {:induction false} ReadX()
    ensures ReadDirective(['x' as int]) == (Directive(NO_FLAGS, 0, false, 6, false, 0), ['x' as int])
  {
  }

  /** The output of %x. */
  lemma {:induction false} PercentX(v: int, rest: seq<Arg>)
    ensures Render([PERCENT, 'x' as int], [IntArg(v)] + rest) == Done(PrintedX(v % M32), rest, [])
  {
    var t: seq<byte> := ['x' as int];
    var args := [IntArg(v)] + rest;
    ReadX();
    SmallIsSafe(v % M32, 17);
    hide ReadDirective, NoBitLost, Rendered, Signed, RenderDirective, RenderConv;
    ConversionPrints(t, args, v, rest);
    assert [PERCENT] + t == [PERCENT, 'x' as int];
    FormatStep(t, args);
    var out := PrintedX(v % M32);
    assert [] + out == out;
    ThenEnd(Done(out, rest, []));
  }

  lemma {:induction false} SmallX(v: nat)
    requires v < 10
    ensures PrintedX(v) == LowerHex(v)
  {
  }

  /** From 17 on the same digits denote different numbers in bases 16 and 17. */
  lemma {:induction false} LongNumeral(v: nat)
    requires v >= 17
    ensures Digits(v, 16) != Digits(v, 17)
  {
    var ds := Digits(v, 17);
    DigitsCanonical(v, 16);
    DigitsCanonical(v, 17);
    DigitsUnfold(v, 17);
    hide Digits, Value, Rem;
    assert ds[..|ds| - 1] == Digits(Quot(v, 17), 17);
    DigitsCanonical(Quot(v, 17), 17);
    DivModIs(v, 17);
    ValueStrictlyLarger(ds, 16, 17);
  }

  // ----- directives that convert nothing

  /** Length 'H' leaves its second h to be the conversion. */
  lemma {:induction false} DoubleHLeavesH(t: seq<byte>)
    ensures var (d, u) := ReadDirective(t);
      d.length == 'H' as int ==> u != [] && u[0] == 'h' as int
  {
    hide ReadFlags, ReadNumber, ReadStar, ReadPrecision;
  }

  /** A character that is no conversion at all. */
  predicate ConvertsNothing(c: byte) {
    !IsIntegerConv(c) && c != 'c' as int && c != 's' as int && c != 'n' as int && !IsFloatConv(c)
  }

  /** Such a directive prints nothing and takes only the arguments of its `*`s, and the format goes on behind it. */
  lemma {:induction false} NothingConverted(t: seq<byte>, args: seq<Arg>)
    requires var (d, u) := ReadDirective(t); u != [] && ConvertsNothing(u[0])
    ensures var (d, u) := ReadDirective(t);
      Render([PERCENT] + t, args) == if StarsGiven(d, args) then Render(u[1..], AfterStars(d, args)) else Stuck
  {
    hide ReadDirective, StarsGiven, AfterStars, WidthOf, PrecOf, RenderFloat;
    FormatStep(t, args);
    var (d, u) := ReadDirective(t);
    hide Render;
    DirectiveAfterStars(d, u[0], args);
    if StarsGiven(d, args) {
      ThenNothing(AfterStars(d, args), Render(u[1..], AfterStars(d, args)));
    }
  }

  /** %% prints nothing, with any flags, width, precision and length between. */
  lemma {:induction false} PercentPrintsNothing(t: seq<byte>, args: seq<Arg>)
    requires var (d, u) := ReadDirective(t); u != [] && u[0] == PERCENT
    ensures var (d, u) := ReadDirective(t);
      Render([PERCENT] + t, args) == if StarsGiven(d, args) then Render(u[1..], AfterStars(d, args)) else Stuck
  {
    hide ReadDirective, StarsGiven, AfterStars, Render;
    NothingConverted(t, args);
  }

  // ----- # with the other conversions

  lemma {:induction false} ReadAltX()
    ensures ReadDirective(Ascii("#x")) == (Directive(NO_FLAGS.(alt := true), 0, false, 6, false, 0), Ascii("x"))
  {
    assert Ascii("#x")[1..] == Ascii("x");
  }

  /** %#x prints 0x in front of its base-17 digits, even of 0; right exactly from 1 to 9. */
  lemma {:induction false} AlternateHexIff(v: int, rest: seq<Arg>)
    ensures var o := Render(Ascii("%#x"), [IntArg(v)] + rest);
      && o == Done(Ascii("0x") + PrintedX(v % M32), rest, [])
      && (o.out == (if v % M32 == 0 then Ascii("0") else Ascii("0x") + LowerHex(v % M32)) <==> 1 <= v % M32 < 10)
  {
    hide Render, LowerHex, PrintedX;
    PercentAltX(v, rest);
    PrintedXIff(v % M32);
    var x, h, p := PrintedX(v % M32), LowerHex(v % M32), Ascii("0x");
    assert (p + x)[2..] == x && (p + h)[2..] == h;
  }

  lemma {:induction false} PercentAltX(v: int, rest: seq<Arg>)
    ensures Render(Ascii("%#x"), [IntArg(v)] + rest) == Done(Ascii("0x") + PrintedX(v % M32), rest, [])
  {
    var t, args := Ascii("#x"), [IntArg(v)] + rest;
    var d := Directive(NO_FLAGS.(alt := true), 0, false, 6, false, 0);
    AltXTexts();
    SmallIsSafe(v % M32, 17);
    hide ReadDirective, NoBitLost, Rendered, Signed, RenderDirective, RenderConv, Ascii;
    ReadAltX();
    ConversionPrints(t, args, v, rest);
    FormatStep(t, args);
    var out := Ascii("0x") + PrintedX(v % M32);
    assert RenderDirective(d, 'x' as int, args) == Done(out, rest, []);
    EndOfFormat(rest);
    hide Render, PrintedX;
    ThenEnd(Done(out, rest, []));
  }

  lemma {:induction false} AltXTexts()
    ensures [PERCENT] + Ascii("#x") == Ascii("%#x") && Ascii("x") == ['x' as int] && Ascii("x")[1..] == []
    ensures AltPrefix('x' as int, true) == Ascii("0x")
  {
  }

  lemma {:induction false} EndOfFormat(args: seq<Arg>)
    ensures Render([], args) == Done([], args, [])
  {
  }

  /** # changes nothing but o, x, X and the floating conversions. */
  lemma {:induction false} AlternateElsewhere(d: Directive, width: int, prec: int, conv: byte, args: seq<Arg>)
    requires conv != 'o' as int && conv != 'x' as int && conv != 'X' as int && !IsFloatConv(conv)
    ensures RenderConv(d.(flags := d.flags.(alt := true)), width, prec, conv, args) ==
      RenderConv(d.(flags := d.flags.(alt := false)), width, prec, conv, args)
  {
    hide Rendered, NoBitLost, Signed;
  }

  /** F, g and G are printed as f is. */
  lemma {:induction false} FixedConversions(d: Directive, width: int, prec: int, conv: byte, args: seq<Arg>)
    requires conv == 'F' as int || conv == 'g' as int || conv == 'G' as int
    ensures RenderConv(d, width, prec, conv, args) == RenderConv(d, width, prec, 'f' as int, args)
  {
    hide Handled, Whole, Fraction, Normalised, ExponentText;
  }
}
