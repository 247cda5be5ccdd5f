/**
 Positional notation: the number a digit sequence denotes, most significant
 digit first, and the one sequence without leading zeros that denotes it.
 */
module Numerals {

  function Pow(b: nat, e: nat): (p: nat)
    ensures b >= 1 ==> p >= 1
  {
    if e == 0 then 1 else b * Pow(b, e - 1)
  }

  function Value(ds: seq<nat>, base: nat): (v: nat) {
    if ds == [] then 0 else Value(ds[..|ds| - 1], base) * base + ds[|ds| - 1]
  }

  /** The quotient and remainder of a division, as functions of their own. */
  function Quot(n: nat, base: nat): (q: nat)
    requires base >= 1
    ensures base >= 2 && n >= 1 ==> q < n
    ensures n >= base ==> q >= 1
  {
    n / base
  }

  function Rem(n: nat, base: nat): (r: nat)
    requires base >= 1
    ensures r < base
  {
    n % base
  }

  function Digits(n: nat, base: nat): (ds: seq<nat>)
    requires base >= 2
    ensures |ds| >= 1
  {
    if n < base then [n] else Digits(Quot(n, base), base) + [Rem(n, base)]
  }

  ghost predicate InBase(ds: seq<nat>, base: nat) {
    forall k :: 0 <= k < |ds| ==> ds[k] < base
  }

  lemma {:induction false} ValueSnoc(ds: seq<nat>, d: nat, base: nat)
    ensures Value(ds + [d], base) == Value(ds, base) * base + d
  {
  }

  lemma {:induction false} ValueOne(d: nat, base: nat)
    ensures Value([d], base) == d
  {
  }

  lemma MulMonotone(a: nat, b: nat, c: nat)
    requires a <= b
    ensures a * c <= b * c && c * a <= c * b
  {
  }

  lemma DivModIs(n: nat, base: nat)
    requires base >= 1
    ensures n == Quot(n, base) * base + Rem(n, base)
  {
  }

  lemma DivModUnique(q: nat, r: nat, base: nat)
    requires 0 <= r < base
    ensures Quot(q * base + r, base) == q && Rem(q * base + r, base) == r
  {
    hide Quot, Rem;
    var n := q * base + r;
    DivModIs(n, base);
    OnlyQuotient(q, r, Quot(n, base), Rem(n, base), base);
  }

  lemma OnlyQuotient(q: nat, r: nat, q': nat, r': nat, base: nat)
    requires r < base && r' < base && q * base + r == q' * base + r'
    ensures q == q' && r == r'
  {
    if q' < q {
      MulMonotone(q' + 1, q, base);
    } else if q < q' {
      MulMonotone(q + 1, q', base);
    }
  }

  lemma {:induction false} DigitsUnfold(n: nat, base: nat)
    requires base >= 2
    ensures Digits(n, base) == if n < base then [n] else Digits(Quot(n, base), base) + [Rem(n, base)]
  {
  }

  /** Digits gives a representation of its number, in range and without leading zeros. */
  lemma {:induction false} DigitsCanonical(n: nat, base: nat)
    requires base >= 2
    ensures Value(Digits(n, base), base) == n
    ensures InBase(Digits(n, base), base)
    ensures n > 0 ==> Digits(n, base)[0] != 0
    ensures n == 0 ==> Digits(n, base) == [0]
  {
    hide Value, Digits, Quot, Rem;
    DigitsUnfold(n, base);
    if n < base {
      ValueOne(n, base);
    } else {
      var q, r := Quot(n, base), Rem(n, base);
      DivModIs(n, base);
      DigitsCanonical(q, base);
      ValueSnoc(Digits(q, base), r, base);
    }
  }

  /** It is the only such representation. */
  lemma {:induction false} DigitsUnique(ds: seq<nat>, base: nat)
    requires base >= 2 && |ds| >= 1 && InBase(ds, base) && (|ds| > 1 ==> ds[0] != 0)
    ensures ds == Digits(Value(ds, base), base)
  {
    hide Value, Quot, Rem;
    var init, last := ds[..|ds| - 1], ds[|ds| - 1];
    assert ds == init + [last];
    if init == [] {
      ValueOne(last, base);
    } else {
      var v := Value(init, base);
      DigitsUnique(init, base);
      DigitsCanonical(v, base);
      ValueSnoc(init, last, base);
      assert v >= 1;
      MulMonotone(1, v, base);
      DivModUnique(v, last, base);
    }
  }

  /** A number below base^k has at most k digits. */
  lemma {:induction false} DigitsLength(n: nat, base: nat, k: nat)
    requires base >= 2 && k >= 1 && n < Pow(base, k)
    ensures |Digits(n, base)| <= k
  {
    hide Quot, Rem, Digits;
    DigitsUnfold(n, base);
    if n >= base {
      var q := Quot(n, base);
      DivModIs(n, base);
      QuotBelow(q, Rem(n, base), Pow(base, k - 1), base);
      DigitsLength(q, base, k - 1);
    }
  }

  lemma QuotBelow(q: nat, r: nat, p: nat, base: nat)
    requires q * base + r < base * p
    ensures q < p
  {
  }

  lemma {:induction false} PowMonotone(b: nat, b': nat, e: nat)
    requires b <= b'
    ensures Pow(b, e) <= Pow(b', e)
  {
    if e > 0 {
      PowMonotone(b, b', e - 1);
      MulMonotone(b, b', Pow(b, e - 1));
      MulMonotone(Pow(b, e - 1), Pow(b', e - 1), b');
    }
  }

  function Zeros(k: nat): (z: seq<nat>)
    ensures |z| == k
  {
    seq(k, _ => 0)
  }

  lemma ZerosSnoc(k: nat)
    requires k > 0
    ensures Zeros(k) == Zeros(k - 1) + [0]
  {
  }

  /** Leading zeros do not change the number. */
  lemma {:induction false} LeadingZeros(k: nat, ds: seq<nat>, base: nat)
    ensures Value(Zeros(k) + ds, base) == Value(ds, base)
    decreases |ds|, k
  {
    if ds != [] {
      var init, last := ds[..|ds| - 1], ds[|ds| - 1];
      LeadingZeros(k, init, base);
      ValueSnoc(Zeros(k) + init, last, base);
      assert Zeros(k) + ds == (Zeros(k) + init) + [last];
    } else if k > 0 {
      LeadingZeros(k - 1, [], base);
      ZerosSnoc(k);
      ValueSnoc(Zeros(k - 1), 0, base);
      assert Zeros(k) + [] == Zeros(k) && Zeros(k - 1) + [] == Zeros(k - 1);
    }
  }

  /** Each trailing zero multiplies by the base. */
  lemma {:induction false} TrailingZeros(ds: seq<nat>, k: nat, base: nat)
    ensures Value(ds + Zeros(k), base) == Value(ds, base) * Pow(base, k)
  {
    if k == 0 {
      assert ds + Zeros(k) == ds;
    } else {
      hide Value;
      TrailingZeros(ds, k - 1, base);
      ValueSnoc(ds + Zeros(k - 1), 0, base);
      ZerosSnoc(k);
      assert ds + Zeros(k) == (ds + Zeros(k - 1)) + [0];
      MulAssoc(Value(ds, base), Pow(base, k - 1), base);
    }
  }

  lemma MulAssoc(a: nat, b: nat, c: nat)
    ensures (a * b) * c == a * (c * b)
  {
  }

  /** A longer run of digits denotes at least as much. */
  lemma {:induction false} ValueGrows(ds: seq<nat>, k: nat, base: nat)
    requires k <= |ds| && base >= 1
    ensures Value(ds[..k], base) <= Value(ds, base)
  {
    if k < |ds| {
      var init := ds[..|ds| - 1];
      ValueGrows(init, k, base);
      assert init[..k] == ds[..k];
      assert Value(init, base) <= Value(init, base) * base;
    } else {
      assert ds[..k] == ds;
    }
  }
}
