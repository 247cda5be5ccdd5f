/**
 `divmod_u64`: division by doubling and subtracting, with the doubled divisor
 kept in 32 bits.
 */
module DivMod {
  import opened Words
  import opened Numerals

  /** The divisor after `k` doublings in a uint32_t, and the quotient bit in a uint64_t. */
  function DoubledBase(base: nat, k: nat): (r: nat)
    requires base < M32
    ensures r < M32
  {
    if k == 0 then base else (2 * DoubledBase(base, k - 1)) % M32
  }

  function DoubledBit(k: nat): (r: nat)
    ensures r < M64
  {
    if k == 0 then 1 else (2 * DoubledBit(k - 1)) % M64
  }

  /** The doubling loop leaves off after exactly `k` rounds. */
  ghost predicate StopsAfter(n: nat, base: nat, k: nat)
    requires base < M32
  {
    DoubledBase(base, k) > n / 2 && forall j: nat :: j < k ==> DoubledBase(base, j) <= n / 2
  }

  ghost predicate Terminates(n: nat, base: nat)
    requires base < M32
  {
    exists k: nat :: StopsAfter(n, base, k)
  }

  datatype QuotRem = QuotRem(quot: nat, rem: nat)

  /** The subtracting loop from a given state. */
  function Subtract(n: nat, base: nat, b: nat, result: nat): QuotRem
    decreases b
  {
    if b == 0 then QuotRem(result, n % M32)
    else if n >= base then Subtract(n - base, base / 2, b / 2, (result + b) % M64)
    else Subtract(n, base / 2, b / 2, result)
  }

  lemma StopUnique(n: nat, base: nat, k: nat, k': nat)
    requires base < M32 && StopsAfter(n, base, k) && StopsAfter(n, base, k')
    ensures k == k'
  {
  }

  ghost function Outcome(n: nat, base: nat): QuotRem
    requires base < M32 && Terminates(n, base)
  {
    var k: nat :| StopsAfter(n, base, k);
    Subtract(n, DoubledBase(base, k), DoubledBit(k), 0)
  }

  /** The routine, for every input on which its first loop ends. */
  method DivModU64(num: U64, divisor: nat) returns (quot: nat, rem: nat)
    requires divisor < M32 && Terminates(num, divisor)
    ensures QuotRem(quot, rem) == Outcome(num, divisor)
  {
    var n: nat, base: nat, result: nat, b: nat := num, divisor, 0, 1;
    ghost var stop: nat :| StopsAfter(num, divisor, stop) &&
      Outcome(num, divisor) == Subtract(num, DoubledBase(divisor, stop), DoubledBit(stop), 0);
    ghost var k: nat := 0;
    while base <= n / 2
      invariant k <= stop && base == DoubledBase(divisor, k) && b == DoubledBit(k)
      decreases stop - k
    {
      base := (2 * base) % M32;
      b := (2 * b) % M64;
      k := k + 1;
    }
    while b != 0
      invariant Subtract(n, base, b, result) == Outcome(num, divisor)
      decreases b
    {
      if n >= base {
        n := n - base;
        result := (result + b) % M64;
      }
      base := base / 2;
      b := b / 2;
    }
    quot, rem := result, n % M32;
  }

  // ----- when is it division?

  /** base * 2^k */
  function Scaled(base: nat, k: nat): (r: nat) {
    if k == 0 then base else 2 * Scaled(base, k - 1)
  }

  ghost predicate Carries(n: nat, base: nat, k: nat) {
    n / 2 < Scaled(base, k) < M32
  }

  /** Some power of two carries the divisor past n/2 without leaving 32 bits. */
  ghost predicate NoBitLost(n: nat, base: nat) {
    exists k: nat :: Carries(n, base, k)
  }

  lemma {:induction false} ScaledIsProduct(base: nat, k: nat)
    ensures Scaled(base, k) == base * Scaled(1, k) == base * Pow(2, k)
    decreases k
  {
    if k > 0 {
      ScaledIsProduct(base, k - 1);
      ScaledIsProduct(1, k - 1);
      DoubleProduct(base, Scaled(1, k - 1));
      DoubleProduct(base, Pow(2, k - 1));
    }
  }

  lemma DoubleProduct(a: nat, b: nat)
    ensures a * (2 * b) == 2 * (a * b)
  {
  }

  lemma DoubleMod(p: nat)
    ensures (2 * (p % M32)) % M32 == (2 * p) % M32
  {
  }

  lemma {:induction false} ScaledGrows(base: nat, j: nat, k: nat)
    requires j <= k && base >= 1
    ensures Scaled(base, j) <= Scaled(base, k) && Scaled(base, j) >= 1
    ensures j < k ==> 2 * Scaled(base, j) <= Scaled(base, k)
    decreases k - j, j
  {
    if j < k {
      ScaledGrows(base, j, k - 1);
    } else if j > 0 {
      ScaledGrows(base, j - 1, j - 1);
    }
  }

  lemma {:induction false} BitValues()
    ensures Scaled(1, 32) == M32 && Scaled(1, 64) == M64
  {
    ScaledSplit(1, 4, 4);
    ScaledSplit(1, 8, 8);
    ScaledSplit(1, 16, 16);
    ScaledSplit(1, 32, 32);
    assert Scaled(1, 4) == 16;
    ScaledIsProduct(16, 4);
    ScaledIsProduct(256, 8);
    ScaledIsProduct(0x1_0000, 16);
    ScaledIsProduct(M32, 32);
  }

  lemma {:induction false} ScaledSplit(base: nat, j: nat, k: nat)
    ensures Scaled(base, j + k) == Scaled(Scaled(base, j), k)
  {
    if k > 0 {
      ScaledSplit(base, j, k - 1);
    }
  }

  lemma {:induction false} DoubledIsScaled(base: nat, k: nat)
    requires base < M32
    ensures DoubledBase(base, k) == Scaled(base, k) % M32
  {
    if k > 0 {
      DoubledIsScaled(base, k - 1);
      DoubleMod(Scaled(base, k - 1));
    }
  }

  lemma {:induction false} BitBound(k: nat)
    requires k < 64
    ensures 1 <= Scaled(1, k) && 2 * Scaled(1, k) <= M64
  {
    hide Scaled;
    BitValues();
    ScaledGrows(1, k, 64);
  }

  lemma {:induction false} BitIsScaled(k: nat)
    requires k < 64
    ensures DoubledBit(k) == Scaled(1, k) < M64
  {
    BitBound(k);
    if k > 0 {
      BitIsScaled(k - 1);
    }
  }

  /** Below 2^32 no bit is ever lost, whatever the divisor. */
  lemma {:induction false} Below32(n: nat, base: nat, k: nat)
    requires n < M32 && 1 <= base && Scaled(base, k) < M32
    ensures NoBitLost(n, base)
    decreases M32 - Scaled(base, k)
  {
    if Scaled(base, k) <= n / 2 {
      ScaledGrows(base, k, k);
      Below32(n, base, k + 1);
    } else {
      assert Carries(n, base, k);
    }
  }

  lemma {:induction false} SmallIsSafe(n: nat, base: nat)
    requires n < M32 && 1 <= base < M32
    ensures NoBitLost(n, base)
  {
    Below32(n, base, 0);
  }

  /** From 2^33 on the doubling loop never ends. */
  lemma {:induction false} NeverStops(n: nat, base: nat)
    requires n >= 2 * M32 && base < M32
    ensures forall k: nat :: DoubledBase(base, k) <= n / 2
    ensures !Terminates(n, base) && !NoBitLost(n, base)
  {
  }

  lemma {:induction false} SafeBelow33(n: nat, base: nat)
    requires NoBitLost(n, base)
    ensures n < 2 * M32
  {
  }

  /** Without a lost bit the loop stops at the true multiple of the divisor. */
  lemma {:induction false} SafeStop(n: nat, base: nat, k: nat)
    requires 1 <= base < M32 && Carries(n, base, k)
    requires forall j: nat :: j < k ==> !Carries(n, base, j)
    ensures StopsAfter(n, base, k) && DoubledBase(base, k) == Scaled(base, k)
  {
    hide DoubledBase, Scaled;
    SmallScaled(base, k);
    forall j: nat | j < k ensures DoubledBase(base, j) <= n / 2 {
      ScaledGrows(base, j, k);
      SmallScaled(base, j);
      assert !Carries(n, base, j);
    }
  }

  lemma {:induction false} SmallScaled(base: nat, k: nat)
    requires base < M32 && Scaled(base, k) < M32
    ensures DoubledBase(base, k) == Scaled(base, k)
  {
    hide DoubledBase, Scaled;
    DoubledIsScaled(base, k);
  }

  lemma {:induction false} LeastCarry(n: nat, base: nat, k: nat) returns (j: nat)
    requires Carries(n, base, k)
    ensures j <= k && Carries(n, base, j) && forall i: nat :: i < j ==> !Carries(n, base, i)
  {
    j := k;
    if i: nat :| i < k && Carries(n, base, i) {
      j := LeastCarry(n, base, i);
    }
  }

  /** One round keeps `num == result * base + n`. */
  lemma RoundKeeps(n: nat, base: nat, p: nat, b: nat, result: nat, num: nat)
    requires base >= 1 && p == base * b && num == result * base + n && num < M64 && n >= p
    ensures num == (result + b) * base + (n - p) && result + b < M64
  {
  }

  lemma {:induction false} SubtractTake(n: nat, p: nat, b: nat, result: nat)
    requires b > 0 && n >= p && result + b < M64
    ensures Subtract(n, p, b, result) == Subtract(n - p, p / 2, b / 2, result + b)
  {
  }

  lemma {:induction false} SubtractSkip(n: nat, p: nat, b: nat, result: nat)
    requires b > 0 && n < p
    ensures Subtract(n, p, b, result) == Subtract(n, p / 2, b / 2, result)
  {
  }

  /** The subtracting loop performs long division. */
  lemma {:induction false} SubtractDivides(n: nat, base: nat, k: nat, result: nat, num: nat)
    requires 1 <= base < M32
    requires n < 2 * Scaled(base, k) && num == result * base + n && num < M64
    ensures var r := Subtract(n, Scaled(base, k), Scaled(1, k), result);
      num == r.quot * base + r.rem && r.rem < base
    decreases k
  {
    hide Subtract, Scaled, Pow;
    var p, b := Scaled(base, k), Scaled(1, k);
    ScaledGrows(1, k, k);
    ScaledIsProduct(base, k);
    if n >= p {
      RoundKeeps(n, base, p, b, result, num);
      SubtractTake(n, p, b, result);
      SubtractHalved(n - p, base, k, result + b, num);
    } else {
      SubtractSkip(n, p, b, result);
      SubtractHalved(n, base, k, result, num);
    }
  }

  lemma {:induction false} SubtractHalved(n: nat, base: nat, k: nat, result: nat, num: nat)
    requires 1 <= base < M32
    requires n < Scaled(base, k) && num == result * base + n && num < M64
    ensures var r := Subtract(n, Scaled(base, k) / 2, Scaled(1, k) / 2, result);
      num == r.quot * base + r.rem && r.rem < base
    decreases k, 0
  {
    HalfScaled(base, k);
    HalfScaled(1, k);
    if k > 0 {
      hide Subtract, Scaled;
      SubtractDivides(n, base, k - 1, result, num);
    } else {
      SubtractDone(n, base / 2, result);
      hide Subtract;
    }
  }

  lemma {:induction false} HalfScaled(base: nat, k: nat)
    ensures k > 0 ==> Scaled(base, k) / 2 == Scaled(base, k - 1)
    ensures k == 0 ==> Scaled(base, k) == base
  {
  }

  lemma {:induction false} SubtractDone(n: nat, p: nat, result: nat)
    requires n < M32
    ensures Subtract(n, p, 0, result) == QuotRem(result, n)
  {
  }

  lemma {:induction false} SafeBound(n: nat, base: nat, k: nat)
    requires 1 <= base && Carries(n, base, k)
    ensures k < 32 && n < 2 * Scaled(base, k)
  {
    if k >= 32 {
      hide Scaled, Pow;
      ScaledGrows(base, 32, k);
      BitValues();
      ScaledIsProduct(base, 32);
      MulMonotone(1, base, M32);
      assert false;
    }
  }

  /** Where no bit is lost the routine terminates with the true quotient and remainder. */
  lemma {:induction false} DividesWhenSafe(n: nat, base: nat)
    requires n < M64 && 1 <= base < M32 && NoBitLost(n, base)
    ensures Terminates(n, base) && Outcome(n, base) == QuotRem(Quot(n, base), Rem(n, base))
  {
    hide Subtract, DoubledBase, DoubledBit, Carries, Scaled, Quot, Rem;
    var any: nat :| Carries(n, base, any);
    var k := LeastCarry(n, base, any);
    SafeStop(n, base, k);
    SafeBound(n, base, k);
    BitIsScaled(k);
    SubtractDivides(n, base, k, 0, n);
    var r := Subtract(n, Scaled(base, k), Scaled(1, k), 0);
    DivModUnique(r.quot, r.rem, base);
    forall k': nat | StopsAfter(n, base, k') ensures k' == k {
      StopUnique(n, base, k, k');
    }
  }

  /** Once a bit is lost, the loop stops only when the quotient bit already exceeds the quotient. */
  lemma {:induction false} LostStop(n: nat, base: nat, k: nat)
    requires 1 <= base < M32 && StopsAfter(n, base, k) && !NoBitLost(n, base)
    ensures k < 32 && M32 <= n < 2 * M32 <= Scaled(base, k)
  {
    if n < M32 {
      SmallIsSafe(n, base);
      assert false;
    }
    if k >= 32 {
      VanishedBase(base, k);
      assert false;
    }
    LostPast(n, base, k);
  }

  lemma {:induction false} LostPast(n: nat, base: nat, k: nat)
    requires 1 <= base < M32 && StopsAfter(n, base, k) && !NoBitLost(n, base) && n >= M32
    ensures n < 2 * M32 <= Scaled(base, k)
  {
    hide Scaled, DoubledBase;
    DoubledIsScaled(base, k);
    assert !Carries(n, base, k);
    assert Scaled(base, k) >= M32 by {
      if Scaled(base, k) < M32 {
        SmallScaled(base, k);
      }
    }
    LostBits(n, base, k);
  }

  /** Where the loop stops after losing a bit, the true multiple has passed 2^33. */
  lemma {:induction false} LostBits(n: nat, base: nat, k: nat)
    requires 1 <= base < M32 && StopsAfter(n, base, k) && n >= M32 && Scaled(base, k) >= M32
    ensures n < 2 * M32 <= Scaled(base, k)
  {
    assert k > 0 && Scaled(base, k) == 2 * Scaled(base, k - 1);
    hide DoubledBase, Scaled;
    DoubledIsScaled(base, k);
    DoubledIsScaled(base, k - 1);
    assert DoubledBase(base, k - 1) <= n / 2;
    WrappedTwice(Scaled(base, k - 1), n / 2);
  }

  /** A number whose low 32 bits grow past `h` when doubled, although the doubling loses a bit, is 2^32 or more. */
  lemma {:induction false} WrappedTwice(s: nat, h: nat)
    requires s % M32 <= h < (2 * s) % M32 && 2 * s >= M32
    ensures s >= M32 && h < M32
  {
  }

  lemma MultipleMod(a: nat)
    ensures (a * M32) % M32 == 0
  {
  }

  lemma {:induction false} VanishedBase(base: nat, k: nat)
    requires base < M32 && k >= 32
    ensures DoubledBase(base, k) == 0
  {
    if k == 32 {
      DoubledIsScaled(base, 32);
      ScaledIsProduct(base, 32);
      BitValues();
      MultipleMod(base);
    } else {
      VanishedBase(base, k - 1);
    }
  }

  lemma {:induction false} SubtractGrows(n: nat, base: nat, b: nat, result: nat)
    requires result + 2 * b <= M64
    ensures Subtract(n, base, b, result).quot >= result
    decreases b
  {
    hide Subtract;
    if b == 0 {
      SubtractEnd(n, base, result);
    } else if n >= base {
      SubtractTake(n, base, b, result);
      SubtractGrows(n - base, base / 2, b / 2, result + b);
    } else {
      SubtractSkip(n, base, b, result);
      SubtractGrows(n, base / 2, b / 2, result);
    }
  }

  lemma {:induction false} SubtractEnd(n: nat, base: nat, result: nat)
    ensures Subtract(n, base, 0, result).quot == result
  {
  }

  /** Where a bit is lost the routine either never ends or returns too large a quotient. */
  lemma {:induction false} WrongWhenUnsafe(n: nat, base: nat)
    requires n < M64 && 1 <= base < M32 && !NoBitLost(n, base) && Terminates(n, base)
    ensures Outcome(n, base).quot > Quot(n, base)
  {
    hide NoBitLost, DoubledBit, DoubledBase, Scaled, Quot, Rem, Subtract;
    var k: nat :| StopsAfter(n, base, k) && Outcome(n, base) == Subtract(n, DoubledBase(base, k), DoubledBit(k), 0);
    LostStop(n, base, k);
    BitIsScaled(k);
    BitBound(k);
    FirstRoundCounts(n, DoubledBase(base, k), Scaled(1, k));
    QuotOfScaled(n, base, k);
  }

  lemma {:induction false} FirstRoundCounts(n: nat, d: nat, b: nat)
    requires n >= d && b > 0 && 2 * b <= M64
    ensures Subtract(n, d, b, 0).quot >= b
  {
    hide Subtract;
    SubtractTake(n, d, b, 0);
    SubtractGrows(n - d, d / 2, b / 2, b);
  }

  lemma {:induction false} QuotOfScaled(n: nat, base: nat, k: nat)
    requires base >= 1 && n < Scaled(base, k)
    ensures Quot(n, base) < Scaled(1, k)
  {
    hide Quot, Rem, Scaled, Pow;
    ScaledIsProduct(base, k);
    DivModIs(n, base);
    QuotBelow(Quot(n, base), Rem(n, base), Scaled(1, k), base);
  }

  /** Exactness: the routine is division exactly on the inputs where no bit is lost. */
  lemma {:induction false} DivisionIff(n: nat, base: nat)
    requires n < M64 && 1 <= base < M32
    ensures NoBitLost(n, base) <==> Terminates(n, base) && Outcome(n, base) == QuotRem(Quot(n, base), Rem(n, base))
  {
    hide NoBitLost, Terminates, Outcome, Quot, Rem;
    if NoBitLost(n, base) {
      DividesWhenSafe(n, base);
    } else if Terminates(n, base) {
      WrongWhenUnsafe(n, base);
    }
  }

  /** The boundary is real: 2^32 can be divided by 10 but not by 16. */
  lemma {:induction false} TwoTo32()
    ensures NoBitLost(M32, 10) && !NoBitLost(M32, 16)
  {
    BitValues();
    ScaledSplit(1, 4, 27);
    assert Scaled(16, 27) == M32 / 2;
    forall k: nat ensures !Carries(M32, 16, k) {
      if k <= 27 {
        ScaledGrows(16, k, 27);
      } else {
        ScaledGrows(16, 27, k);
      }
    }
    ScaledIsProduct(10, 28);
    ScaledIsProduct(16, 28);
    assert Scaled(16, 28) == M32;
    assert Carries(M32, 10, 28);
  }
}
