/**
 How section 7.21.6.1 of ISO C11 spells a conversion specification, stated as
 text and without a reader, and exactly when `vprintf` reads what was spelled.
 */
module DirectiveGrammar {
  import opened Words
  import opened Numerals
  import opened Printf

  /** A width or a precision. */
  datatype Field = Absent | Number(digits: seq<byte>) | Star

  datatype Spelling = Spelling(flags: seq<byte>, width: Field, precision: Field, length: seq<byte>, conv: byte)

  predicate IsFlag(c: byte) {
    c == '-' as int || c == '+' as int || c == '#' as int || c == ' ' as int || c == '0' as int
  }

  predicate AllDigits(t: seq<byte>) {
    forall k :: 0 <= k < |t| ==> '0' as int <= t[k] <= '9' as int
  }

  const HH: seq<byte> := ['h' as int, 'h' as int]
  const LL: seq<byte> := ['l' as int, 'l' as int]

  predicate IsLengthText(t: seq<byte>) {
    || t == [] || t == HH || t == LL
    || t == Ascii("h") || t == Ascii("l") || t == Ascii("j") || t == Ascii("z") || t == Ascii("t") || t == Ascii("L")
  }

  predicate IsConversion(c: byte) {
    || c == 'd' as int || c == 'i' as int || c == 'o' as int || c == 'u' as int || c == 'x' as int || c == 'X' as int
    || c == 'e' as int || c == 'E' as int || c == 'f' as int || c == 'F' as int || c == 'g' as int || c == 'G' as int
    || c == 'a' as int || c == 'A' as int || c == 'c' as int || c == 's' as int || c == 'p' as int || c == 'n' as int
    || c == PERCENT
  }

  predicate Grammatical(p: Spelling) {
    && (forall k :: 0 <= k < |p.flags| ==> IsFlag(p.flags[k]))
    && (p.width.Number? ==> p.width.digits != [] && AllDigits(p.width.digits) && p.width.digits[0] != '0' as int)
    && (p.precision.Number? ==> AllDigits(p.precision.digits))
    && IsLengthText(p.length) && IsConversion(p.conv)
  }

  function FieldText(f: Field): seq<byte> {
    match f
    case Absent => []
    case Number(digits) => digits
    case Star => ['*' as int]
  }

  function PrecisionText(f: Field): seq<byte> {
    if f.Absent? then [] else ['.' as int] + FieldText(f)
  }

  /** What stands behind the percent sign. */
  function Spell(p: Spelling): (t: seq<byte>) {
    p.flags + (FieldText(p.width) + (PrecisionText(p.precision) + (p.length + [p.conv])))
  }

  // ----- what it means

  function FlagsIn(t: seq<byte>): Flags {
    Flags('-' as int in t, '+' as int in t, '#' as int in t, ' ' as int in t, '0' as int in t)
  }

  function DigitValues(t: seq<byte>): seq<nat>
    requires AllDigits(t)
  {
    seq(|t|, k requires 0 <= k < |t| => t[k] - 48)
  }

  function Decimal(t: seq<byte>): nat
    requires AllDigits(t)
  {
    Value(DigitValues(t), 10)
  }

  function FieldValue(f: Field): nat
    requires f.Number? ==> AllDigits(f.digits)
  {
    if f.Number? then Decimal(f.digits) else 0
  }

  function LengthCode(t: seq<byte>): byte {
    if t == HH then 'H' as int else if t == LL then 'q' as int else if |t| == 1 then t[0] else 0
  }

  function Meant(p: Spelling): Directive
    requires Grammatical(p)
  {
    Directive(
      FlagsIn(p.flags), FieldValue(p.width), p.width.Star?,
      if p.precision.Absent? then 6 else FieldValue(p.precision), p.precision.Star?, LengthCode(p.length))
  }

  // ----- what is read

  ghost predicate StopsFlags(u: seq<byte>) {
    u != [] ==> !IsFlag(u[0])
  }

  ghost predicate StopsDigits(u: seq<byte>) {
    u != [] ==> !IsDigit(u[0])
  }

  function WithFlags(fl: Flags, t: seq<byte>): Flags {
    Flags(fl.left || '-' as int in t, fl.plus || '+' as int in t, fl.alt || '#' as int in t,
          fl.space || ' ' as int in t, fl.zero || '0' as int in t)
  }

  lemma {:induction false} FlagsRead(t: seq<byte>, u: seq<byte>, fl: Flags)
    requires (forall k :: 0 <= k < |t| ==> IsFlag(t[k])) && StopsFlags(u)
    ensures ReadFlags(t + u, fl) == (WithFlags(fl, t), u)
    decreases |t|
  {
    if t == [] {
      assert t + u == u;
    } else {
      assert (t + u)[1..] == t[1..] + u;
      FlagRead(t, fl);
      hide FlagStep, WithFlags;
      FlagsRead(t[1..], u, FlagStep(fl, t[0]).1);
    }
  }

  lemma {:induction false} FlagRead(t: seq<byte>, fl: Flags)
    requires t != [] && IsFlag(t[0])
    ensures FlagStep(fl, t[0]).0 && WithFlags(FlagStep(fl, t[0]).1, t[1..]) == WithFlags(fl, t)
  {
    assert t == [t[0]] + t[1..];
    assert forall c: byte :: c in t <==> c == t[0] || c in t[1..];
  }

  lemma {:induction false} NumberRead(done: seq<byte>, t: seq<byte>, u: seq<byte>)
    requires AllDigits(done) && AllDigits(t) && AllDigits(done + t) && StopsDigits(u)
    ensures ReadNumber(t + u, Decimal(done)) == (Decimal(done + t), u)
    decreases |t|
  {
    hide Value;
    if t == [] {
      assert t + u == u && done + t == done;
    } else {
      var next := done + [t[0]];
      assert (t + u)[1..] == t[1..] + u;
      assert next + t[1..] == done + t;
      assert DigitValues(next) == DigitValues(done) + [t[0] - 48];
      ValueSnoc(DigitValues(done), t[0] - 48, 10);
      NumberRead(next, t[1..], u);
    }
  }

  lemma {:induction false} WholeNumberRead(t: seq<byte>, u: seq<byte>)
    requires AllDigits(t) && StopsDigits(u)
    ensures ReadNumber(t + u, 0) == (Decimal(t), u)
  {
    NumberRead([], t, u);
    assert [] + t == t;
    assert DigitValues([]) == [];
  }

  /** The width: a number or nothing, then a star or nothing. */
  lemma {:induction false} WidthRead(f: Field, u: seq<byte>)
    requires (f.Number? ==> AllDigits(f.digits)) && StopsDigits(u) && (u != [] ==> u[0] != '*' as int)
    ensures ReadNumber(FieldText(f) + u, 0).0 == FieldValue(f)
    ensures ReadStar(ReadNumber(FieldText(f) + u, 0).1) == (f.Star?, u)
  {
    hide Decimal;
    match f
    case Absent => assert [] + u == u;
    case Number(digits) => WholeNumberRead(digits, u);
    case Star => assert (['*' as int] + u)[1..] == u;
  }

  lemma {:induction false} PrecisionRead(f: Field, u: seq<byte>)
    requires (f.Number? ==> AllDigits(f.digits)) && StopsDigits(u)
    requires u != [] ==> u[0] != '*' as int && u[0] != '.' as int
    ensures ReadPrecision(PrecisionText(f) + u) == (if f.Absent? then 6 else FieldValue(f), f.Star?, u)
  {
    hide ReadNumber, ReadStar;
    if f.Absent? {
      assert [] + u == u;
    } else {
      var t := PrecisionText(f) + u;
      assert t[0] == '.' as int && t[1..] == FieldText(f) + u;
      WidthRead(f, u);
    }
  }

  lemma {:induction false} LengthRead(t: seq<byte>, conv: byte, rest: seq<byte>)
    requires IsLengthText(t) && IsConversion(conv)
    ensures ReadLength(t + ([conv] + rest)) ==
      (LengthCode(t), if t == HH then ['h' as int, conv] + rest else [conv] + rest)
  {
    var x := t + ([conv] + rest);
    if t == HH {
      assert x[1..] == ['h' as int, conv] + rest;
    } else if t == LL {
      assert x[2..] == [conv] + rest;
    } else if |t| == 1 {
      assert x[1..] == [conv] + rest;
    } else {
      assert x == [conv] + rest;
    }
  }

  /** What the code makes of every spelling: all of it as meant, except that hh leaves an h behind. */
  lemma {:induction false} SpellingRead(p: Spelling, rest: seq<byte>)
    requires Grammatical(p)
    ensures ReadDirective(Spell(p) + rest) ==
      (Meant(p), if p.length == HH then ['h' as int, p.conv] + rest else [p.conv] + rest)
  {
    hide ReadFlags, ReadNumber, ReadStar, ReadPrecision, ReadLength, FieldValue, LengthCode;
    var u4 := p.length + ([p.conv] + rest);
    var u3 := PrecisionText(p.precision) + u4;
    var u1 := FieldText(p.width) + u3;
    assert Spell(p) + rest == p.flags + u1;
    FlagsRead(p.flags, u1, NO_FLAGS);
    WidthRead(p.width, u3);
    PrecisionRead(p.precision, u4);
    LengthRead(p.length, p.conv, rest);
  }

  /** Exactly: a specification is read as it is spelled unless its length modifier is hh. */
  lemma {:induction false} SpellingReadIff(p: Spelling, rest: seq<byte>)
    requires Grammatical(p)
    ensures ReadDirective(Spell(p) + rest) == (Meant(p), [p.conv] + rest) <==> p.length != HH
  {
    hide ReadDirective, Spell, Meant;
    SpellingRead(p, rest);
  }
}
