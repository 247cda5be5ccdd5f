/**
 `strtoul`: its loop with the cutoff test, and what it computes for every
 string, every base and every word size.
 */
module Strtoul {
  import opened Words
  import opened Numerals
  import opened CStrings

  // ----- characters

  predicate IsSpace(c: byte) { 9 <= c <= 13 || c == 32 }
  predicate IsX(c: byte) { c == 120 || c == 88 }

  /** The value of a digit character; anything else has no value below any base. */
  function DigitOf(c: byte): (d: nat) {
    if 48 <= c <= 57 then c - 48
    else if 65 <= c <= 90 then c - 55
    else if 97 <= c <= 122 then c - 87
    else 99
  }

  function At(t: seq<byte>, i: nat): byte {
    if i < |t| then t[i] else 0
  }

  // ----- the shape of the input

  function SpaceEnd(t: seq<byte>, i: nat): (r: nat)
    requires i <= |t|
    ensures i <= r <= |t|
    decreases |t| - i
  {
    if i < |t| && IsSpace(t[i]) then SpaceEnd(t, i + 1) else i
  }

  /** The end of the longest run of digits below `base` that starts at `i`. */
  function DigitEnd(t: seq<byte>, i: nat, base: nat): (r: nat)
    requires i <= |t|
    ensures i <= r <= |t|
    decreases |t| - i
  {
    if i < |t| && DigitOf(t[i]) < base then DigitEnd(t, i + 1, base) else i
  }

  function DigitValues(t: seq<byte>): (ds: seq<nat>)
    ensures |ds| == |t|
  {
    seq(|t|, k requires 0 <= k < |t| => DigitOf(t[k]))
  }

  /** The number that the digits from `i` up to `j` denote. */
  function RunValue(t: seq<byte>, i: nat, j: nat, base: nat): nat
    requires i <= j <= |t|
  {
    Value(DigitValues(t[i..j]), base)
  }

  /** Sign, base and position of the digits. */
  datatype Subject = Subject(neg: bool, base: nat, prefixed: bool, start: nat)

  function SignEnd(t: seq<byte>): (r: nat)
    ensures r <= |t|
  {
    var i := SpaceEnd(t, 0);
    if At(t, i) == MINUS || At(t, i) == PLUS then i + 1 else i
  }

  function SubjectOf(t: seq<byte>, base: nat): (u: Subject)
    ensures SignEnd(t) <= u.start <= |t|
    ensures u.base == base || (base == 0 && 8 <= u.base <= 16)
  {
    var neg := At(t, SpaceEnd(t, 0)) == MINUS;
    var i := SignEnd(t);
    if (base == 0 || base == 16) && At(t, i) == ZERO && IsX(At(t, i + 1)) then Subject(neg, 16, true, i + 2)
    else if base == 0 then Subject(neg, if At(t, i) == ZERO then 8 else 10, false, i)
    else Subject(neg, base, false, i)
  }

  /** The mathematical value of a digit run, brought into an unsigned word of `modulus` values. */
  function Clamp(v: nat, neg: bool, modulus: nat): (r: nat)
    requires modulus >= 1
  {
    if v >= modulus then modulus - 1 else if neg then (modulus - v) % modulus else v
  }

  datatype Parsed = Parsed(value: nat, end: nat)

  function Parse(t: seq<byte>, base: nat, modulus: nat): (r: Parsed)
    requires modulus >= 1
    ensures r.end <= |t|
  {
    var u := SubjectOf(t, base);
    var e := DigitEnd(t, u.start, u.base);
    Parsed(Clamp(RunValue(t, u.start, e, u.base), u.neg, modulus), if e == u.start then 0 else e)
  }

  // ----- lemmas about runs

  lemma {:induction false} SpaceEndIs(t: seq<byte>, i: nat, r: nat)
    requires i <= r <= |t|
    ensures r == SpaceEnd(t, i) <==>
      (forall k :: i <= k < r ==> IsSpace(t[k])) && (r < |t| ==> !IsSpace(t[r]))
    decreases |t| - i
  {
    if i < |t| && IsSpace(t[i]) && i < r {
      SpaceEndIs(t, i + 1, r);
    }
  }

  lemma {:induction false} DigitEndIs(t: seq<byte>, i: nat, base: nat, r: nat)
    requires i <= r <= |t|
    ensures r == DigitEnd(t, i, base) <==>
      (forall k :: i <= k < r ==> DigitOf(t[k]) < base) && (r < |t| ==> DigitOf(t[r]) >= base)
    decreases |t| - i
  {
    if i < |t| && DigitOf(t[i]) < base && i < r {
      DigitEndIs(t, i + 1, base, r);
    }
  }

  lemma {:induction false} RunEmpty(t: seq<byte>, i: nat, base: nat)
    requires i <= |t|
    ensures RunValue(t, i, i, base) == 0
  {
  }

  lemma {:induction false} RunSnoc(t: seq<byte>, i: nat, j: nat, base: nat)
    requires i <= j < |t|
    ensures RunValue(t, i, j + 1, base) == RunValue(t, i, j, base) * base + DigitOf(t[j])
  {
    ValueSnoc(DigitValues(t[i..j]), DigitOf(t[j]), base);
    assert DigitValues(t[i..j + 1]) == DigitValues(t[i..j]) + [DigitOf(t[j])];
  }

  /** The cutoff test is exactly the overflow test. */
  lemma {:induction false} CutoffTest(acc: nat, d: nat, base: nat, max: nat)
    requires base >= 2 && d < base
    ensures (acc > Quot(max, base) || (acc == Quot(max, base) && d > Rem(max, base))) <==> acc * base + d > max
  {
    hide Quot, Rem;
    var q := Quot(max, base);
    DivModIs(max, base);
    if acc > q {
      MulMonotone(q + 1, acc, base);
    } else if acc < q {
      MulMonotone(acc + 1, q, base);
    }
  }

  // ----- the routine

  /** The accumulation loop; `any` is -1 once the number is too large. */
  method DigitRun(s: seq<byte>, p: nat, start: nat, base: nat, max: nat) returns (j: nat, acc: nat, any: int)
    requires Terminated(s, p) && start <= |Str(s, p)| && 2 <= base <= 36
    ensures j == DigitEnd(Str(s, p), start, base)
    ensures -1 <= any <= 1 && (any == 0 <==> j == start)
    ensures any >= 0 ==> acc == RunValue(Str(s, p), start, j, base) <= max
    ensures any < 0 ==> RunValue(Str(s, p), start, j, base) > max
  {
    hide RunValue, DigitEnd, Quot, Rem;
    ghost var t := Str(s, p);
    var cutoff, cutlim := Quot(max, base), Rem(max, base);
    j, acc, any := start, 0, 0;
    RunEmpty(t, start, base);
    while true
      invariant start <= j <= |t| && -1 <= any <= 1 && (any == 0 <==> j == start)
      invariant forall k :: start <= k < j ==> DigitOf(t[k]) < base
      invariant any >= 0 ==> acc == RunValue(t, start, j, base) <= max
      invariant any < 0 ==> RunValue(t, start, j, base) > max
      decreases |t| - j
    {
      var d := DigitOf(s[p + j]);
      if d >= base {
        break;
      }
      RunSnoc(t, start, j, base);
      CutoffTest(acc, d, base, max);
      if any < 0 || acc > cutoff || (acc == cutoff && d > cutlim) {
        StaysOver(RunValue(t, start, j, base), d, base, max, any < 0);
        any := -1;
      } else {
        any := 1;
        acc := acc * base + d;
      }
      j := j + 1;
    }
    DigitEndIs(t, start, base, j);
  }

  method Strtoul(s: seq<byte>, p: nat, base0: nat, modulus: nat) returns (acc: nat, end: nat)
    requires Terminated(s, p) && modulus >= 1
    requires base0 == 0 || 2 <= base0 <= 36
    ensures var r := Parse(Str(s, p), base0, modulus); acc == r.value && end == p + r.end
  {
    var start, neg, base := Prefix(s, p, base0);
    var j, value, any := DigitRun(s, p, start, base, modulus - 1);
    acc := value;
    if any < 0 {
      acc := modulus - 1;
    } else if neg {
      acc := (modulus - acc) % modulus;
    }
    end := if any != 0 then p + j else p;
  }

  lemma StaysOver(v: nat, d: nat, base: nat, max: nat, over: bool)
    requires base >= 2 && (over ==> v > max)
    ensures over ==> v * base + d > max
  {
  }

  /** White space, sign and "0x": where the digits start, and in which base they are. */
  method Prefix(s: seq<byte>, p: nat, base0: nat) returns (j: nat, neg: bool, base: nat)
    requires Terminated(s, p) && (base0 == 0 || 2 <= base0 <= 36)
    ensures var u := SubjectOf(Str(s, p), base0);
      j == u.start && neg == u.neg && base == u.base && 2 <= base <= 36
  {
    ghost var t := Str(s, p);
    j := 0;
    while IsSpace(s[p + j])
      invariant 0 <= j <= |t|
      invariant forall k :: 0 <= k < j ==> IsSpace(t[k])
      decreases |t| - j
    {
      j := j + 1;
    }
    SpaceEndIs(t, 0, j);
    neg, base := false, base0;
    if s[p + j] == MINUS {
      neg := true;
      j := j + 1;
    } else if s[p + j] == PLUS {
      j := j + 1;
    }
    if (base == 0 || base == 16) && s[p + j] == ZERO && IsX(s[p + j + 1]) {
      j := j + 2;
      base := 16;
    }
    if base == 0 {
      base := if s[p + j] == ZERO then 8 else 10;
    }
  }

  // ----- the constants a text may start with, by position

  /** The digits t[d..e] are a constant of base `b` that may be expected when called with `base`. */
  ghost predicate IsForm(t: seq<byte>, base: nat, b: nat, d: nat, e: nat) {
    var i := SignEnd(t);
    && d < e <= |t| && (forall k :: d <= k < e ==> DigitOf(t[k]) < b)
    && (|| (base != 0 && b == base && d == i)
        || ((base == 0 || base == 16) && b == 16 && At(t, i) == ZERO && IsX(At(t, i + 1)) && d == i + 2)
        || (base == 0 && b == 8 && At(t, i) == ZERO && d == i)
        || (base == 0 && b == 10 && At(t, i) != ZERO && d == i))
  }

  /** A "0x" that the routine consumes with no hexadecimal digit behind it. */
  predicate BarePrefix(t: seq<byte>, base: nat) {
    var u := SubjectOf(t, base);
    u.prefixed && DigitEnd(t, u.start, u.base) == u.start
  }

  /** Any such constant ends no later than the routine's digit run, except behind a bare "0x". */
  lemma {:induction false} FormsEndInRun(t: seq<byte>, base: nat, b: nat, d: nat, e: nat)
    requires (base == 0 || 2 <= base <= 36) && IsForm(t, base, b, d, e)
    ensures var u := SubjectOf(t, base);
      if BarePrefix(t, base) then e == SignEnd(t) + 1 else e <= DigitEnd(t, u.start, u.base)
  {
    hide DigitEnd;
    var u := SubjectOf(t, base);
    var r := DigitEnd(t, u.start, u.base);
    DigitEndIs(t, u.start, u.base, r);
    if d == u.start && b == u.base {
      assert e <= r;
    } else {
      assert u.prefixed && d == SignEnd(t);
      assert e <= d + 1;
    }
  }

  lemma {:induction false} NoForms(t: seq<byte>, base: nat, b: nat, d: nat, e: nat)
    requires (base == 0 || 2 <= base <= 36) && IsForm(t, base, b, d, e)
    ensures var u := SubjectOf(t, base); u.prefixed || DigitEnd(t, u.start, u.base) > u.start
  {
  }

  // ----- section 7.22.1.4 of ISO C11, on the text alone

  /** White space in the "C" locale: tab, newline, vertical tab, form feed, carriage return and blank. */
  const WHITE: set<byte> := {9, 10, 11, 12, 13, 32}

  /** The letters from a (or A) through z (or Z) are ascribed the values 10 through 35. */
  ghost predicate HasValue(c: byte, v: int) {
    || ('0' as int <= c <= '9' as int && v == c - '0' as int)
    || ('a' as int <= c <= 'z' as int && v == c - 'a' as int + 10)
    || ('A' as int <= c <= 'Z' as int && v == c - 'A' as int + 10)
  }

  /** The text `u` spells the digits `ds`, at least one and all below `b`. */
  ghost predicate Spells(u: seq<byte>, ds: seq<nat>, b: nat) {
    |u| == |ds| >= 1 && forall k :: 0 <= k < |u| ==> HasValue(u[k], ds[k]) && ds[k] < b
  }

  ghost predicate StartsHex(u: seq<byte>) {
    |u| >= 2 && u[0] == '0' as int && (u[1] == 'x' as int || u[1] == 'X' as int)
  }

  /** An integer in base `b` as it may be written for `base`; 0 stands for the notations of the language. */
  ghost predicate Constant(u: seq<byte>, base: nat, b: nat, ds: seq<nat>) {
    || (base != 0 && b == base && Spells(u, ds, b))
    || ((base == 0 || base == 16) && b == 16 && StartsHex(u) && Spells(u[2..], ds, 16))
    || (base == 0 && b == 8 && Spells(u, ds, 8) && u[0] == '0' as int)
    || (base == 0 && b == 10 && Spells(u, ds, 10) && u[0] != '0' as int)
  }

  /** The same, optionally preceded by a plus or minus sign. */
  ghost predicate Expected(u: seq<byte>, base: nat, neg: bool, b: nat, ds: seq<nat>) {
    || (!neg && Constant(u, base, b, ds))
    || (|u| >= 1 && u[0] == (if neg then '-' as int else '+' as int) && Constant(u[1..], base, b, ds))
  }

  /** The text starts with `w` characters of white space, and not more. */
  ghost predicate WhiteUpTo(t: seq<byte>, w: nat) {
    w <= |t| && (forall k :: 0 <= k < w ==> t[k] in WHITE) && (w < |t| ==> t[w] !in WHITE)
  }

  /** t[w..e] is of the expected form. */
  ghost predicate FormAt(t: seq<byte>, base: nat, w: nat, e: nat, neg: bool, b: nat, ds: seq<nat>) {
    WhiteUpTo(t, w) && w <= e <= |t| && Expected(t[w..e], base, neg, b, ds)
  }

  /** It is the subject sequence: the longest such. */
  ghost predicate Subjects(t: seq<byte>, base: nat, w: nat, e: nat, neg: bool, b: nat, ds: seq<nat>) {
    && FormAt(t, base, w, e, neg, b, ds)
    && forall w': nat, e': nat, neg', b': nat, ds' :: FormAt(t, base, w', e', neg', b', ds') ==> e' <= e
  }

  /** The value returned: negated in the return type behind a minus sign, the largest if it does not fit. */
  ghost predicate Returns(v: nat, neg: bool, modulus: nat, r: int) {
    if v >= modulus then r == modulus - 1
    else if neg && v > 0 then r == modulus - v
    else r == v
  }

  /** The standard's answer: the subject's value and its end, or zero and an unmoved pointer when there is none. */
  ghost predicate MeetsC11(t: seq<byte>, base: nat, modulus: nat, r: Parsed) {
    || (exists w: nat, e: nat, neg, b: nat, ds ::
          Subjects(t, base, w, e, neg, b, ds) && r.end == e && Returns(Value(ds, b), neg, modulus, r.value))
    || (r.end == 0 && r.value == 0 &&
        forall w: nat, e: nat, neg, b: nat, ds :: !FormAt(t, base, w, e, neg, b, ds))
  }

  /** Behind white space and an optional sign there is a 0x without a hexadecimal digit. */
  ghost predicate BareHex(t: seq<byte>, base: nat, w: nat) {
    && (base == 0 || base == 16) && WhiteUpTo(t, w) && w < |t|
    && var i := if t[w] == '+' as int || t[w] == '-' as int then w + 1 else w;
       StartsHex(t[i..]) && (i + 2 < |t| ==> !IsHexDigit(t[i + 2]))
  }

  predicate IsHexDigit(c: byte) {
    || '0' as int <= c <= '9' as int || 'a' as int <= c <= 'f' as int || 'A' as int <= c <= 'F' as int
  }

  // ----- the two views of a constant

  lemma ValueOfDigit(c: byte, v: nat)
    ensures HasValue(c, v) <==> DigitOf(c) == v && v < 36
  {
  }

  lemma WhiteIsSpace(c: byte)
    ensures c in WHITE <==> IsSpace(c)
  {
  }

  lemma {:induction false} WhiteEnds(t: seq<byte>, w: nat)
    ensures WhiteUpTo(t, w) <==> w <= |t| && w == SpaceEnd(t, 0)
  {
    hide SpaceEnd, IsSpace;
    if w <= |t| {
      SpaceEndIs(t, 0, w);
      forall k | 0 <= k < |t| ensures t[k] in WHITE <==> IsSpace(t[k]) {
        WhiteIsSpace(t[k]);
      }
    }
  }

  lemma {:induction false} SpellsDigits(t: seq<byte>, d: nat, e: nat, ds: seq<nat>, b: nat)
    requires d <= e <= |t| && b <= 36
    ensures Spells(t[d..e], ds, b) <==>
      d < e && ds == DigitValues(t[d..e]) && forall k :: d <= k < e ==> DigitOf(t[k]) < b
  {
    hide HasValue, DigitOf;
    var u := t[d..e];
    forall k, v: nat | 0 <= k < |u| ensures HasValue(u[k], v) <==> DigitOf(t[d + k]) == v && v < 36 {
      ValueOfDigit(u[k], v);
    }
    if Spells(u, ds, b) {
      forall k | d <= k < e ensures DigitOf(t[k]) < b {
        assert HasValue(u[k - d], ds[k - d]);
      }
      forall k | 0 <= k < |u| ensures ds[k] == DigitValues(u)[k] {
        assert HasValue(u[k], ds[k]);
      }
    }
    if d < e && ds == DigitValues(u) && forall k :: d <= k < e ==> DigitOf(t[k]) < b {
      forall k | 0 <= k < |u| ensures HasValue(u[k], ds[k]) && ds[k] < b {
        assert DigitOf(t[d + k]) < b;
      }
    }
  }

  lemma {:induction false} ConstantAt(t: seq<byte>, base: nat, i: nat, e: nat, b: nat, ds: seq<nat>)
    requires (base == 0 || 2 <= base <= 36) && i == SignEnd(t) && i <= e <= |t|
    ensures Constant(t[i..e], base, b, ds) ==>
      || (IsForm(t, base, b, i, e) && ds == DigitValues(t[i..e]))
      || (i + 2 <= e && IsForm(t, base, b, i + 2, e) && ds == DigitValues(t[i + 2..e]))
    ensures b <= 36 && IsForm(t, base, b, i, e) ==> Constant(t[i..e], base, b, DigitValues(t[i..e]))
    ensures i + 2 <= e && IsForm(t, base, b, i + 2, e) ==> Constant(t[i..e], base, b, DigitValues(t[i + 2..e]))
  {
    hide SignEnd, DigitOf, HasValue, Spells, DigitValues;
    var u := t[i..e];
    if b <= 36 {
      SpellsDigits(t, i, e, ds, b);
      SpellsDigits(t, i, e, DigitValues(u), b);
      if i + 2 <= e {
        assert u[2..] == t[i + 2..e];
        SpellsDigits(t, i + 2, e, ds, b);
        SpellsDigits(t, i + 2, e, DigitValues(t[i + 2..e]), b);
      }
    }
  }

  /** A text of the expected form is a constant by position. */
  lemma {:induction false} FormHasPosition(t: seq<byte>, base: nat, w: nat, e: nat, neg: bool, b: nat, ds: seq<nat>)
      returns (d: nat)
    requires (base == 0 || 2 <= base <= 36) && FormAt(t, base, w, e, neg, b, ds)
    ensures w == SpaceEnd(t, 0) && neg == (At(t, w) == MINUS)
    ensures d <= e <= |t| && IsForm(t, base, b, d, e) && ds == DigitValues(t[d..e]) && b <= 36
  {
    WhiteEnds(t, w);
    hide SpaceEnd, IsForm, DigitValues;
    var u := t[w..e];
    if !neg && Constant(u, base, b, ds) {
      FirstIsNoSign(u, base, b, ds);
      assert u[0] == t[w];
      ConstantAt(t, base, w, e, b, ds);
    } else {
      assert u[0] == t[w] && u[1..] == t[w + 1..e];
      ConstantAt(t, base, w + 1, e, b, ds);
    }
    var i := SignEnd(t);
    d := if IsForm(t, base, b, i, e) && ds == DigitValues(t[i..e]) then i else i + 2;
  }

  lemma {:induction false} FirstIsNoSign(u: seq<byte>, base: nat, b: nat, ds: seq<nat>)
    requires Constant(u, base, b, ds)
    ensures u != [] && u[0] != MINUS && u[0] != PLUS
  {
    if Spells(u, ds, b) {
      assert HasValue(u[0], ds[0]);
    }
  }

  /** And the other way round. */
  lemma {:induction false} PositionHasForm(t: seq<byte>, base: nat, b: nat, d: nat, e: nat)
    requires (base == 0 || 2 <= base <= 36) && IsForm(t, base, b, d, e)
    ensures d <= e <= |t|
    ensures FormAt(t, base, SpaceEnd(t, 0), e, At(t, SpaceEnd(t, 0)) == MINUS, b, DigitValues(t[d..e]))
  {
    var w, i := SpaceEnd(t, 0), SignEnd(t);
    WhiteEnds(t, w);
    assert i <= d && b <= 36 && (d == i || d == i + 2);
    hide SpaceEnd, DigitValues, WhiteUpTo;
    ConstantAt(t, base, i, e, b, DigitValues(t[d..e]));
    hide Constant, IsForm;
    assert i == w + 1 ==> t[w..e][1..] == t[i..e] && t[w..e][0] == t[w];
  }

  lemma ReturnsClamped(v: nat, neg: bool, modulus: nat)
    requires modulus >= 1
    ensures Returns(v, neg, modulus, Clamp(v, neg, modulus))
  {
    if neg && 0 < v < modulus {
      assert (modulus - v) % modulus == modulus - v;
    }
  }

  lemma {:induction false} BareIsBare(t: seq<byte>, base: nat)
    ensures BarePrefix(t, base) <==> exists w: nat :: BareHex(t, base, w)
  {
    var w, u := SpaceEnd(t, 0), SubjectOf(t, base);
    WhiteEnds(t, w);
    var i := SignEnd(t);
    DigitEndIs(t, u.start, u.base, u.start);
    hide SpaceEnd, DigitEnd, WhiteUpTo;
    if i + 2 < |t| {
      HexDigitValue(t[i + 2]);
    }
    assert |t[i..]| >= 2 ==> t[i..][0] == t[i] && t[i..][1] == t[i + 1];
    if BarePrefix(t, base) {
      assert BareHex(t, base, w);
    }
    forall w': nat | BareHex(t, base, w') ensures w' == w {
      WhiteEnds(t, w');
    }
  }

  lemma HexDigitValue(c: byte)
    ensures IsHexDigit(c) <==> DigitOf(c) < 16
  {
  }

  /** Every expected form ends within the routine's digit run, or is the 0 of a bare 0x. */
  lemma {:induction false} FormsEnd(t: seq<byte>, base: nat, w: nat, e: nat, neg: bool, b: nat, ds: seq<nat>)
    requires (base == 0 || 2 <= base <= 36) && FormAt(t, base, w, e, neg, b, ds)
    ensures var u := SubjectOf(t, base);
      && e > 0 && (u.prefixed || DigitEnd(t, u.start, u.base) > u.start)
      && (!BarePrefix(t, base) ==> e <= DigitEnd(t, u.start, u.base))
  {
    hide FormAt, DigitEnd, SpaceEnd;
    var d := FormHasPosition(t, base, w, e, neg, b, ds);
    FormsEndInRun(t, base, b, d, e);
    NoForms(t, base, b, d, e);
  }

  /** The routine meets the standard on every string exactly when it does not meet a bare "0x". */
  lemma {:induction false} C11Iff(t: seq<byte>, base: nat, modulus: nat)
    requires (base == 0 || 2 <= base <= 36) && modulus >= 1
    ensures MeetsC11(t, base, modulus, Parse(t, base, modulus)) <==> !exists w: nat :: BareHex(t, base, w)
  {
    hide DigitEnd, SpaceEnd, FormAt, Returns, Clamp, BareHex, Value, SignEnd;
    BareIsBare(t, base);
    var u := SubjectOf(t, base);
    var r := DigitEnd(t, u.start, u.base);
    DigitEndIs(t, u.start, u.base, r);
    forall w: nat, e: nat, neg, b: nat, ds | FormAt(t, base, w, e, neg, b, ds)
      ensures e > 0 && (u.prefixed || r > u.start) && (!BarePrefix(t, base) ==> e <= r)
    {
      FormsEnd(t, base, w, e, neg, b, ds);
    }
    if BarePrefix(t, base) {
      BareFails(t, base, modulus);
    } else if r > u.start {
      RunIsForm(t, base);
      var w, neg, ds := SpaceEnd(t, 0), At(t, SpaceEnd(t, 0)) == MINUS, DigitValues(t[u.start..r]);
      ReturnsClamped(Value(ds, u.base), neg, modulus);
      SubjectSign(t, base);
      assert Subjects(t, base, w, r, neg, u.base, ds);
    } else {
      RunEmpty(t, r, u.base);
      ReturnsClamped(0, u.neg, modulus);
      ZeroClamped(u.neg, modulus);
    }
  }

  lemma ZeroClamped(neg: bool, modulus: nat)
    requires modulus >= 1
    ensures Clamp(0, neg, modulus) == 0
  {
  }

  lemma SubjectSign(t: seq<byte>, base: nat)
    ensures SubjectOf(t, base).neg == (At(t, SpaceEnd(t, 0)) == MINUS)
  {
  }

  lemma {:induction false} RunIsForm(t: seq<byte>, base: nat)
    requires base == 0 || 2 <= base <= 36
    requires var u := SubjectOf(t, base); DigitEnd(t, u.start, u.base) > u.start
    ensures var u := SubjectOf(t, base);
      var r := DigitEnd(t, u.start, u.base);
      FormAt(t, base, SpaceEnd(t, 0), r, At(t, SpaceEnd(t, 0)) == MINUS, u.base, DigitValues(t[u.start..r]))
  {
    hide DigitEnd, SpaceEnd, FormAt;
    var u := SubjectOf(t, base);
    var r := DigitEnd(t, u.start, u.base);
    DigitEndIs(t, u.start, u.base, r);
    assert IsForm(t, base, u.base, u.start, r);
    PositionHasForm(t, base, u.base, u.start, r);
  }

  /** A bare 0x: the standard converts the 0, the routine nothing. */
  lemma {:induction false} BareFails(t: seq<byte>, base: nat, modulus: nat)
    requires (base == 0 || 2 <= base <= 36) && modulus >= 1 && BarePrefix(t, base)
    ensures !MeetsC11(t, base, modulus, Parse(t, base, modulus))
  {
    hide DigitEnd, SpaceEnd, FormAt, Returns, Clamp;
    var i, b := SignEnd(t), if base == 0 then 8 else 16;
    assert IsForm(t, base, b, i, i + 1);
    PositionHasForm(t, base, b, i, i + 1);
    forall w: nat, e: nat, neg, b: nat, ds | FormAt(t, base, w, e, neg, b, ds) ensures e > 0 {
      FormsEnd(t, base, w, e, neg, b, ds);
    }
  }

  /** It fails on "0x" in base 16: the standard converts the "0", the routine converts nothing. */
  lemma {:induction false} BareHexPrefix(modulus: nat)
    requires modulus >= 1
    ensures var t: seq<byte> := ['0' as int, 'x' as int];
      !MeetsC11(t, 16, modulus, Parse(t, 16, modulus)) && Parse(t, 16, modulus).end == 0
  {
    hide MeetsC11;
    var t: seq<byte> := ['0' as int, 'x' as int];
    C11Iff(t, 16, modulus);
    assert WhiteUpTo(t, 0);
    assert BareHex(t, 16, 0);
  }
}
