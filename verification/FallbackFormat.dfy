/**
 The bundled fmt's `fallback_format`: digits of f * 2^e from limb arithmetic, either the shortest
 ones that read back as the same float or a given number of them.
 */
module FallbackFormat {
  import opened Words
  import opened Limbs
  import opened Bigints
  import opened DigitGeneration

  function Max(a: int, b: int): int { if a < b then b else a }

  /** f * 2^e / 10^exp10 as the fraction Numerator / Denominator. */
  function Numerator(f: nat, e: int, exp10: int): nat {
    f * Pow(2, Max(e, 0)) * Pow(10, Max(-exp10, 0))
  }

  function Denominator(e: int, exp10: int): (d: nat)
    ensures d > 0
  {
    MulMono(1, Pow(2, Max(-e, 0)), Pow(10, Max(exp10, 0)));
    Pow(2, Max(-e, 0)) * Pow(10, Max(exp10, 0))
  }

  /** What the arguments of `fallback_format` promise: a finite positive double and exponents an int holds. */
  predicate Input(f: Word, e: int, exp10: int) {
    && 0 < f < 0x20_0000_0000_0000
    && -0x2000_0000 < e < 0x2000_0000 && -0x2000_0000 < exp10 < 0x2000_0000
    && (e >= 0 ==> exp10 >= 0)
  }

  function Shift(closer: bool): nat { if closer then 2 else 1 }

  /** The limb exponent of lower exceeds that of denominator. */
  predicate Misaligned(e: int, exp10: int, closer: bool) {
    LowerExp(e, exp10) > DenominatorExp(e, exp10, closer)
  }

  function LowerExp(e: int, exp10: int): nat {
    if e >= 0 then e / 32 else if exp10 < 0 then (-exp10) / 32 else 0
  }

  function DenominatorExp(e: int, exp10: int, closer: bool): nat {
    if e >= 0 then Max(exp10, 0) / 32
    else if exp10 < 0 then (Shift(closer) - e) / 32
    else exp10 / 32 + (Shift(closer) - e) / 32
  }

  // ---- the exact quotient that would defeat the first comparison does not occur ----

  /** No multiple of the dividend by a power of ten equals a divisor with a lower limb exponent. */
  ghost predicate NeverMissed(numerator: nat, numeratorExp: nat, denominator: nat, denominatorExp: nat) {
    numeratorExp <= denominatorExp || forall i: nat :: numerator * Pow(10, i) != denominator
  }

  lemma {:induction false} FivesAreOdd(k: nat)
    ensures Pow(5, k) % 2 == 1
  {
    if k > 0 { FivesAreOdd(k - 1); }
  }

  lemma {:induction false} TwosAvoidFive(k: nat)
    ensures Pow(2, k) % 5 != 0
  {
    if k > 0 { TwosAvoidFive(k - 1); }
  }

  /** f * 2^e is no power of ten when e >= 32 and f is below 2^53. */
  lemma NoLargePowerOfTen(f: nat, e: nat, j: nat)
    requires 0 < f < 0x20_0000_0000_0000 && e >= 32
    ensures f * Pow(2, e) != Pow(10, j)
  {
    if f * Pow(2, e) == Pow(10, j) {
      PowMulBase(5, 2, j);
      if e > j { TooManyTwos(f, e, j); } else { TooManyFives(f, e, j); }
    }
  }

  lemma TooManyTwos(f: nat, e: nat, j: nat)
    requires e > j
    ensures f * Pow(2, e) != Pow(5, j) * Pow(2, j)
  {
    PowAdd(2, e - j, j);
    FivesAreOdd(j);
    if f * Pow(2, e) == Pow(5, j) * Pow(2, j) {
      CancelPower(f, Pow(2, e - j), Pow(2, j), Pow(5, j));
      EvenFactor(f, Pow(2, e - j), Pow(2, e - j - 1));
    }
  }

  lemma EvenFactor(f: nat, a: nat, x: nat)
    requires a == 2 * x
    ensures (f * a) % 2 == 0
  {
    assert f * a == 2 * (f * x) by { MulReorder(2, x, f); MulAssoc(2, x, f); }
  }

  lemma TooManyFives(f: nat, e: nat, j: nat)
    requires 0 < f < 0x20_0000_0000_0000 && 32 <= e <= j
    ensures f * Pow(2, e) != Pow(5, j) * Pow(2, j)
  {
    PowAdd(2, j - e, e);
    MulMono(1, Pow(2, j - e), Pow(5, j));
    PowMonotone(5, 32, j);
    FiveTo32();
    if f * Pow(2, e) == Pow(5, j) * Pow(2, j) { CancelPower(Pow(5, j), Pow(2, j - e), Pow(2, e), f); }
  }

  lemma FiveTo32()
    ensures Pow(5, 32) > 0x20_0000_0000_0000
  {
    assert Pow(5, 4) == 625;
    PowAdd(5, 4, 4);
    PowAdd(5, 8, 8);
    PowAdd(5, 16, 16);
    assert Pow(5, 16) == 390625 * 390625;
  }

  lemma CancelPower(a: nat, b: nat, c: nat, r: nat)
    requires a * (b * c) == r * c && c > 0
    ensures a * b == r
  {
    MulAssoc(a, b, c);
    Cancel(a * b, r, c);
  }

  lemma Cancel(a: int, b: int, c: int)
    requires a * c == b * c && c > 0
    ensures a == b
  {
    if a < b { MulStrict(a, b, c); } else if b < a { MulStrict(b, a, c); }
  }

  /** A nonempty product of tens is no power of two. */
  lemma TenTimesIsNoPowerOfTwo(a: nat, n: nat, k: nat)
    requires n > 0
    ensures a * Pow(10, n) != Pow(2, k)
  {
    TwosAvoidFive(k);
    var p := a * Pow(10, n - 1);
    assert a * Pow(10, n) == 5 * (2 * p) by { MulReorder(10, a, Pow(10, n - 1)); }
  }

  // ---- setting up the fraction ----

  /** A nonzero number in normal form, and its limb exponent. */
  ghost predicate Holds(b: Bigint, value: nat, exp: nat)
    reads b
  {
    b.Normal() && b.Nonzero() && b.Value() == value && b.exp == exp
  }

  predicate Apart(numerator: Bigint, denominator: Bigint, lower: Bigint, upperStore: Bigint) {
    && numerator != denominator && numerator != lower && denominator != lower
    && upperStore != numerator && upperStore != denominator && upperStore != lower
  }

  /** e >= 0: the power of two belongs to the dividend. */
  method SetUpInteger(significand: Word, e: nat, shift: nat, exp10: nat,
                      numerator: Bigint, denominator: Bigint, lower: Bigint, upperStore: Bigint)
    requires significand > 0 && 1 <= shift <= 2 && exp10 < 0x2000_0000
    requires Apart(numerator, denominator, lower, upperStore)
    modifies numerator, denominator, lower, upperStore
    ensures Holds(numerator, significand * Pow(2, e), e / 32) && Holds(lower, Pow(2, e), e / 32)
    ensures Holds(denominator, Pow(10, exp10) * Pow(2, shift), exp10 / 32)
    ensures shift != 1 ==> Holds(upperStore, Pow(2, e + 1), (e + 1) / 32)
  {
    hide Scaled, Val, Pow;
    numerator.AssignWord(significand);
    numerator.ShiftLeft(e);
    lower.AssignWord(1);
    lower.ShiftLeft(e);
    if shift != 1 {
      upperStore.AssignWord(1);
      upperStore.ShiftLeft(e + 1);
    }
    denominator.AssignPow10(exp10);
    denominator.ShiftLeft(shift);
  }

  /** A negative exp10: its power of ten belongs to the dividend, the power of two to the divisor. */
  method SetUpSmall(significand: Word, below: nat, shift: nat, tens: nat,
                    numerator: Bigint, denominator: Bigint, lower: Bigint, upperStore: Bigint)
    requires significand > 0 && 1 <= shift <= 2 && tens < 0x2000_0000
    requires Apart(numerator, denominator, lower, upperStore)
    modifies numerator, denominator, lower, upperStore
    ensures Holds(numerator, Pow(10, tens) * significand, tens / 32) && Holds(lower, Pow(10, tens), tens / 32)
    ensures Holds(denominator, Pow(2, shift + below), (shift + below) / 32)
    ensures shift != 1 ==> Holds(upperStore, Pow(10, tens) * Pow(2, 1), tens / 32)
  {
    hide Scaled, Val, Pow;
    numerator.AssignPow10(tens);
    lower.AssignFrom(numerator);
    if shift != 1 {
      upperStore.AssignFrom(numerator);
      upperStore.ShiftLeft(1);
    }
    numerator.TimesWord(significand);
    denominator.AssignWord(1);
    denominator.ShiftLeft(shift + below);
  }

  /** Otherwise both powers belong to the divisor. */
  method SetUpMiddle(significand: Word, below: nat, shift: nat, exp10: nat,
                     numerator: Bigint, denominator: Bigint, lower: Bigint, upperStore: Bigint)
    requires significand > 0 && 1 <= shift <= 2 && exp10 < 0x2000_0000
    requires Apart(numerator, denominator, lower, upperStore)
    modifies numerator, denominator, lower, upperStore
    ensures Holds(numerator, significand, 0) && Holds(lower, 1, 0)
    ensures Holds(denominator, Pow(10, exp10) * Pow(2, shift + below), exp10 / 32 + (shift + below) / 32)
    ensures shift != 1 ==> Holds(upperStore, 2, 0)
  {
    hide Scaled, Val, Pow;
    numerator.AssignWord(significand);
    denominator.AssignPow10(exp10);
    denominator.ShiftLeft(shift + below);
    lower.AssignWord(1);
    if shift != 1 { upperStore.AssignWord(2); }
  }

  /**
   The fraction and its half-gaps, all scaled by 2^shift. The upper half-gap is stored only when it
   differs from the lower one.
   */
  method SetUp(f: Word, e: int, closer: bool, exp10: int,
               numerator: Bigint, denominator: Bigint, lower: Bigint, upperStore: Bigint)
    requires Input(f, e, exp10) && Apart(numerator, denominator, lower, upperStore)
    modifies numerator, denominator, lower, upperStore
    ensures Holds(numerator, Numerator(f, e, exp10) * Pow(2, Shift(closer)), LowerExp(e, exp10))
    ensures Holds(denominator, Denominator(e, exp10) * Pow(2, Shift(closer)), DenominatorExp(e, exp10, closer))
    ensures Holds(lower, Numerator(1, e, exp10), LowerExp(e, exp10))
    ensures closer ==> Holds(upperStore, 2 * Numerator(1, e, exp10), upperStore.exp)
  {
    hide Scaled, Val, Pow, Apart, Numerator, Denominator;
    var shift := Shift(closer);
    FractionCases(f, e, exp10, shift);
    var significand: Word := f * (if closer then 4 else 2);
    if e >= 0 {
      SetUpInteger(significand, e, shift, exp10, numerator, denominator, lower, upperStore);
    } else if exp10 < 0 {
      SetUpSmall(significand, -e, shift, -exp10, numerator, denominator, lower, upperStore);
    } else {
      SetUpMiddle(significand, -e, shift, exp10, numerator, denominator, lower, upperStore);
    }
  }

  /** The fraction in the three cases the set-up distinguishes. */
  lemma FractionCases(f: Word, e: int, exp10: int, shift: nat)
    requires Input(f, e, exp10) && 1 <= shift <= 2
    ensures Pow(2, shift) == (if shift == 2 then 4 else 2) && Pow(2, 1) == 2
    ensures var n, d, h, w := Numerator(f, e, exp10), Denominator(e, exp10), Numerator(1, e, exp10), Pow(2, shift);
      if e >= 0 then
        n * w == (f * w) * Pow(2, e) && h == Pow(2, e) && 2 * h == Pow(2, e + 1) && d * w == Pow(10, exp10) * w
      else if exp10 < 0 then
        n * w == Pow(10, -exp10) * (f * w) && h == Pow(10, -exp10) && d * w == Pow(2, shift - e)
      else
        n * w == f * w && h == 1 && d * w == Pow(10, exp10) * Pow(2, shift - e)
  {
    var w := Pow(2, shift);
    assert Pow(2, 0) == 1 && Pow(10, 0) == 1 && Pow(2, 1) == 2 * Pow(2, 0) && Pow(2, 2) == 2 * Pow(2, 1);
    if e >= 0 {
      MulReorder(f, w, Pow(2, e));
    } else if exp10 < 0 {
      PowAdd(2, -e, shift);
      MulReorder(f, Pow(10, -exp10), w);
    } else {
      PowAdd(2, -e, shift);
      MulReorder(Pow(2, -e), Pow(10, exp10), w);
      MulAssoc(Pow(10, exp10), Pow(2, -e), w);
    }
  }

  /** Scaled by w or not, the dividend's multiples miss the divisor. */
  lemma MissedUnscaled(n: nat, d: nat, w: nat, i: nat)
    requires w > 0 && n * Pow(10, i) != d
    ensures (n * w) * Pow(10, i) != d * w
  {
    MulReorder(n, w, Pow(10, i));
    if (n * w) * Pow(10, i) == d * w { Cancel(n * Pow(10, i), d, w); }
  }

  lemma LargeMisses(f: Word, e: nat, exp10: nat, i: nat)
    requires 0 < f < 0x20_0000_0000_0000 && e >= 32
    ensures f * Pow(2, e) * Pow(10, i) != Pow(10, exp10)
  {
    hide Pow;
    var x := f * Pow(2, e);
    MulMono(1, f, Pow(2, e));
    if i <= exp10 {
      NoLargePowerOfTen(f, e, exp10 - i);
      QuotientMisses(x, i, exp10);
    } else {
      MorePlacesMiss(x, i, exp10);
    }
  }

  lemma QuotientMisses(x: nat, i: nat, j: nat)
    requires i <= j && x != Pow(10, j - i)
    ensures x * Pow(10, i) != Pow(10, j)
  {
    PowAdd(10, j - i, i);
    if x * Pow(10, i) == Pow(10, j) { Cancel(x, Pow(10, j - i), Pow(10, i)); }
  }

  lemma MorePlacesMiss(x: nat, i: nat, j: nat)
    requires i > j && x > 0
    ensures x * Pow(10, i) != Pow(10, j)
  {
    PowMonotone(10, j + 1, i);
    MulMono(1, x, Pow(10, i));
  }

  lemma SmallMisses(f: Word, k: nat, n: nat, i: nat)
    requires n > 0
    ensures f * Pow(10, n) * Pow(10, i) != Pow(2, k)
  {
    MulAssoc(f, Pow(10, n), Pow(10, i));
    PowAdd(10, n, i);
    TenTimesIsNoPowerOfTwo(f, n + i, k);
  }

  /** Without the common scale: the fraction when its dividend has the larger limb exponent. */
  lemma MisalignedFraction(f: Word, e: int, exp10: int, closer: bool)
    requires Input(f, e, exp10) && LowerExp(e, exp10) > DenominatorExp(e, exp10, closer)
    ensures if e >= 0 then e >= 32 && Numerator(f, e, exp10) == f * Pow(2, e) && Denominator(e, exp10) == Pow(10, exp10)
            else exp10 < 0 && Numerator(f, e, exp10) == f * Pow(10, -exp10) && Denominator(e, exp10) == Pow(2, -e)
  {
    assert Pow(2, 0) == 1 && Pow(10, 0) == 1;
  }

  /** The fraction set up for a double never meets the comparison's blind spot. */
  lemma SetUpNeverMissed(f: Word, e: int, closer: bool, exp10: int)
    requires Input(f, e, exp10)
    ensures NeverMissed(Numerator(f, e, exp10) * Pow(2, Shift(closer)), LowerExp(e, exp10),
                        Denominator(e, exp10) * Pow(2, Shift(closer)), DenominatorExp(e, exp10, closer))
  {
    hide Pow, Numerator, Denominator, LowerExp, DenominatorExp;
    var n, d, w := Numerator(f, e, exp10), Denominator(e, exp10), Pow(2, Shift(closer));
    if LowerExp(e, exp10) > DenominatorExp(e, exp10, closer) {
      MisalignedFraction(f, e, exp10, closer);
      forall i: nat
        ensures (n * w) * Pow(10, i) != d * w
      {
        if e >= 0 { LargeMisses(f, e, exp10, i); } else { SmallMisses(f, -e, -exp10, i); }
        MissedUnscaled(n, d, w, i);
      }
    }
  }

  // ---- digit loops ----

  /** The state in which a digit loop divides: single-digit quotients, nothing the comparisons misjudge. */
  ghost predicate Dividing(numerator: Bigint, denominator: Bigint)
    reads numerator, denominator
  {
    && numerator != denominator
    && numerator.Normal() && denominator.Normal() && denominator.Nonzero()
    && numerator.Value() < 10 * denominator.Value()
    && (numerator.Nonzero() || numerator.NumBigits() <= denominator.NumBigits())
    && NeverMissed(numerator.Value(), numerator.exp, denominator.Value(), denominator.exp)
  }

  /** One digit: the quotient is exact and the next dividend is ten times the remainder. */
  method NextDigit(numerator: Bigint, denominator: Bigint) returns (digit: nat)
    requires Dividing(numerator, denominator)
    modifies numerator
    ensures numerator.Normal()
    ensures var n, d := old(numerator.Value()), denominator.Value();
            d > 0 && digit == n / d && digit <= 9 && numerator.Value() == n % d
    ensures numerator.Nonzero() || numerator.NumBigits() <= denominator.NumBigits()
    ensures digit == 0 ==> numerator.exp == old(numerator.exp)
    ensures digit > 0 ==> numerator.exp == Min(old(numerator.exp), denominator.exp)
    ensures numerator.NumBigits() <= denominator.NumBigits() + 1
    ensures NeverMissed(10 * numerator.Value(), numerator.exp, denominator.Value(), denominator.exp)
  {
    ghost var n, d, e := numerator.Value(), denominator.Value(), numerator.exp;
    assert n * Pow(10, 0) == n;
    digit := numerator.DivmodAssign(denominator);
    QuotientRemainder(n, d);
    if digit == 0 {
      DivUnique(n, d, 0, n);
      KeepsNeverMissed(n, e, d, denominator.exp);
    }
  }

  lemma KeepsNeverMissed(n: nat, e: nat, d: nat, f: nat)
    requires NeverMissed(n, e, d, f)
    ensures NeverMissed(10 * n, e, d, f)
  {
    if e > f {
      forall i: nat
        ensures (10 * n) * Pow(10, i) != d
      {
        MulReorder(10, n, Pow(10, i));
        assert n * Pow(10, i + 1) != d;
        assert (10 * n) * Pow(10, i) == n * (10 * Pow(10, i)) by { MulAssoc(n, 10, Pow(10, i)); }
      }
    }
  }

  /** The two termination tests of the shortest mode. */
  method MeetsGap(numerator: Bigint, denominator: Bigint, lower: Bigint, upper: Bigint, even: bool)
    returns (low: bool, high: bool)
    requires numerator.Normal() && denominator.Normal() && denominator.Nonzero()
    requires lower.Normal() && lower.Nonzero() && upper.Normal() && upper.Nonzero()
    requires numerator.Nonzero() || (numerator.NumBigits() <= denominator.NumBigits() && numerator.exp <= lower.exp)
    requires numerator.exp == Min(lower.exp, denominator.exp) || numerator.Value() != lower.Value()
    ensures low == MeetsLow(numerator.Value(), lower.Value(), even, lower.exp > denominator.exp)
    ensures high == MeetsHigh(numerator.Value(), upper.Value(), denominator.Value(), even)
  {
    var bias := if even then 1 else 0;
    ZeroIffTop(numerator.bigits);
    ZeroIffTop(lower.bigits);
    Magnitude(numerator.bigits, numerator.exp);
    Magnitude(lower.bigits, lower.exp);
    var c := Bigint.Compare(numerator, lower);
    low := c - bias < 0;
    c := Bigint.AddCompare(numerator, upper, denominator);
    high := c + bias > 0;
  }

  ghost predicate Shows(data: string, s: seq<nat>) {
    |data| == |s| && forall i :: 0 <= i < |s| ==> s[i] <= 9 && data[i] == '0' + s[i] as char
  }

  lemma ShowsNothing()
    ensures Shows("", [])
  {
  }

  lemma ShowsAppend(data: string, s: seq<nat>, x: nat)
    requires Shows(data, s) && x <= 9
    ensures Shows(data + ['0' + x as char], s + [x])
  {
  }

  /** The characters shown stand for the number the digits make. */
  lemma {:induction false} ShownNumber(data: string, s: seq<nat>)
    requires Shows(data, s)
    ensures AllDigits(data) && Decimal(data) == Number(s)
    decreases |s|
  {
    hide Pow, Decimal;
    if s == [] {
      EmptyDecimal();
      assert data == "";
    } else {
      ShownNumber(data[1..], s[1..]);
      ShownFirst(data, s[0]);
    }
  }

  lemma EmptyDecimal()
    ensures Decimal("") == 0
  {
  }

  lemma ShownFirst(data: string, digit: nat)
    requires data != "" && digit <= 9 && data[0] == '0' + digit as char
    ensures Decimal(data) == digit * Pow(10, |data| - 1) + Decimal(data[1..])
  {
    hide Pow;
    var first := [data[0]];
    assert data == first + data[1..];
    DecimalConcat(first, data[1..]);
    assert first[..0] == [] && Decimal(first) == digit;
  }

  /** Whether the remainder rounds the digit up, half to even. */
  method RoundsUp(numerator: Bigint, denominator: Bigint, digit: nat) returns (up: bool)
    requires numerator.Normal() && denominator.Normal() && denominator.Nonzero()
    requires numerator.Nonzero() || numerator.NumBigits() <= denominator.NumBigits()
    ensures var r, d := numerator.Value(), denominator.Value();
            up == (2 * r > d || (2 * r == d && digit % 2 != 0))
  {
    var result := Bigint.AddCompare(numerator, numerator, denominator);
    up := result > 0 || (result == 0 && digit % 2 != 0);
  }

  lemma SameParity(v: nat, digit: nat)
    ensures (10 * v + digit) % 2 == digit % 2
  {
  }

  /** The final digit: up when only the upper test holds, to the nearest when both do. */
  method LastDigit(numerator: Bigint, denominator: Bigint, digit: nat, low: bool, high: bool) returns (last: nat)
    requires numerator.Normal() && denominator.Normal() && denominator.Nonzero()
    requires numerator.Nonzero() || numerator.NumBigits() <= denominator.NumBigits()
    ensures var r, d := numerator.Value(), denominator.Value();
            last == LastOf(digit, r, d, low, high)
  {
    last := digit;
    if !low {
      last := last + 1;
    } else if high {
      var up := RoundsUp(numerator, denominator, digit);
      if up { last := last + 1; }
    }
  }

  /** Moves on to the next decimal position; upper and lower may be one object. */
  method NextPosition(numerator: Bigint, lower: Bigint, upper: Bigint)
    requires numerator != lower && numerator != upper
    requires numerator.Normal() && lower.Normal() && upper.Normal()
    modifies numerator`bigits, lower`bigits, upper`bigits
    ensures numerator.Normal() && lower.Normal() && upper.Normal()
    ensures numerator.Value() == 10 * old(numerator.Value())
    ensures lower.Value() == 10 * old(lower.Value()) && upper.Value() == 10 * old(upper.Value())
    ensures numerator.Nonzero() <==> old(numerator.Nonzero())
    ensures !numerator.Nonzero() ==> numerator.bigits == old(numerator.bigits)
    ensures (lower.Nonzero() <==> old(lower.Nonzero())) && (upper.Nonzero() <==> old(upper.Nonzero()))
  {
    numerator.TimesBigit(10);
    lower.TimesBigit(10);
    if upper != lower { upper.TimesBigit(10); }
  }

  lemma SmallQuotient(n: nat, d: nat)
    requires d > 0
    ensures n % d < d && (n / d == 0 ==> n % d == n)
  {
    QuotientRemainder(n, d);
  }

  /** The state in which the shortest mode starts a digit. */
  ghost predicate Emitting(numerator: Bigint, denominator: Bigint, lower: Bigint, upper: Bigint)
    reads numerator, denominator, lower, upper
  {
    && Dividing(numerator, denominator)
    && lower != denominator && upper != denominator && lower != numerator && upper != numerator
    && lower.Normal() && lower.Nonzero() && upper.Normal() && upper.Nonzero()
    && AboveOrAligned(numerator, denominator, lower)
  }

  /** The first termination test misses no equality: there is none, or the limb exponents agree. */
  ghost predicate AboveOrAligned(numerator: Bigint, denominator: Bigint, lower: Bigint)
    reads numerator, denominator, lower
  {
    || (numerator.exp == lower.exp && numerator.Value() > lower.Value())
    || numerator.exp == Min(lower.exp, denominator.exp)
  }

  /** One digit of the shortest mode, and whether the remainder meets the half-gaps. */
  method DigitAndTests(numerator: Bigint, denominator: Bigint, lower: Bigint, upper: Bigint, even: bool)
    returns (digit: nat, low: bool, high: bool)
    requires Emitting(numerator, denominator, lower, upper)
    modifies numerator
    ensures numerator.Normal() && (numerator.Nonzero() || numerator.NumBigits() <= denominator.NumBigits())
    ensures var n, d := old(numerator.Value()), denominator.Value();
            d > 0 && digit == n / d && digit <= 9 && numerator.Value() == n % d && n % d < d
    ensures low == MeetsLow(numerator.Value(), lower.Value(), even, lower.exp > denominator.exp)
    ensures high == MeetsHigh(numerator.Value(), upper.Value(), denominator.Value(), even)
    ensures AboveOrAligned(numerator, denominator, lower)
    ensures NeverMissed(10 * numerator.Value(), numerator.exp, denominator.Value(), denominator.exp)
  {
    hide Scaled, Val, NeverMissed, MeetsLow, MeetsHigh;
    ghost var n := numerator.Value();
    Magnitude(lower.bigits, lower.exp);
    ZeroIffTop(lower.bigits);
    digit := NextDigit(numerator, denominator);
    SmallQuotient(n, denominator.Value());
    low, high := MeetsGap(numerator, denominator, lower, upper, even);
  }

  /** `for (;;)` of the shortest mode, emitting digits until the remainder meets a half-gap. */
  method ShortestDigitLoop(numerator: Bigint, denominator: Bigint, lower: Bigint, upper: Bigint, even: bool)
    returns (data: string)
    requires Emitting(numerator, denominator, lower, upper)
    requires denominator.Value() > 0 && lower.Value() > 0
    requires Fits(numerator.Value(), denominator.Value(), upper.Value(), even)
    modifies numerator, lower, upper
    ensures Shows(data, Shortest(old(numerator.Value()), denominator.Value(), old(lower.Value()), old(upper.Value()),
                                 even, old(lower.exp) > denominator.exp))
  {
    hide Scaled, Val, Shortest, Fits, MeetsLow, MeetsHigh, LastOf, NeverMissed, Shows;
    ghost var d, blind, e := denominator.Value(), lower.exp > denominator.exp, lower.exp;
    ghost var n, l, u := numerator.Value(), lower.Value(), upper.Value();
    ghost var all, done := Shortest(n, d, l, u, even, blind), [];
    Magnitude(upper.bigits, upper.exp);
    ZeroIffTop(upper.bigits);
    ShowsNothing();
    data := "";
    while true
      invariant numerator.Value() == n && lower.Value() == l && upper.Value() == u && denominator.Value() == d
      invariant Emitting(numerator, denominator, lower, upper) && lower.exp == e
      invariant l > 0 && u > 0 && Fits(n, d, u, even)
      invariant Shows(data, done)
      invariant done + Shortest(n, d, l, u, even, blind) == all
      decreases if l < d then d - l else 0
    {
      var digit, low, high := DigitAndTests(numerator, denominator, lower, upper, even);
      ghost var r := n % d;
      ShortestStep(n, d, l, u, even, blind, low, high);
      if low || high {
        var last := LastDigit(numerator, denominator, digit, low, high);
        ShortestDigits(n, d, l, u, even, blind);
        assert last == [last][0] && [last] == Shortest(n, d, l, u, even, blind);
        ShowsAppend(data, done, last);
        data := data + ['0' + last as char];
        return;
      }
      ShowsAppend(data, done, digit);
      data := data + ['0' + digit as char];
      Append(done, digit, Shortest(10 * r, d, 10 * l, 10 * u, even, blind));
      done := done + [digit];
      KeepsGoing(n, d, l, u, even, blind);
      NextPosition(numerator, lower, upper);
      n, l, u := 10 * r, 10 * l, 10 * u;
    }
  }

  /** '1' followed by zeros. */
  ghost predicate OneAndZeros(digits: string) {
    digits != "" && digits[0] == '1' && forall k :: 1 <= k < |digits| ==> digits[k] == '0'
  }

  /**
   digits * 10^exp10 is n/d * 10^entry rounded half to even at numDigits digits; a number that rounds
   to one place more is written as '1' and zeros, and exp10 is one larger.
   */
  ghost predicate Rounded(digits: string, exp10: int, n: nat, d: nat, entry: int, numDigits: nat) {
    && AllDigits(digits) && |digits| == Max(numDigits, 1)
    && if numDigits == 0 then
         exp10 == entry + 1 && RoundsHalfEven(Decimal(digits), n, 10 * d)
       else
         var scaled := n * Pow(10, numDigits - 1);
         || (exp10 == entry - (numDigits - 1) && RoundsHalfEven(Decimal(digits), scaled, d))
         || (exp10 == entry - (numDigits - 1) + 1 && OneAndZeros(digits)
             && RoundsHalfEven(Pow(10, numDigits), scaled, d))
  }

  lemma OneAndZerosIs(digits: string)
    requires OneAndZeros(digits)
    ensures AllDigits(digits) && Decimal(digits) == Pow(10, |digits| - 1)
  {
    hide Pow, Decimal;
    var t := digits[1..];
    assert digits == ['1'] + t;
    DecimalConcat(['1'], t);
    Zeros(t);
    TenAndOne();
  }

  /** The first digit decides whether a numeral has as many places as characters. */
  lemma {:induction false} LeadingDigit(digits: string)
    requires AllDigits(digits) && digits != ""
    ensures Decimal(digits) < Pow(10, |digits|)
    ensures digits[0] != '0' <==> Pow(10, |digits| - 1) <= Decimal(digits)
    decreases |digits|
  {
    var n := |digits| - 1;
    var front := digits[..n];
    if front == "" {
      assert Pow(10, 0) == 1 && Pow(10, 1) == 10 && Decimal(front) == 0;
    } else {
      assert AllDigits(front) && front[0] == digits[0];
      LeadingDigit(front);
    }
  }

  lemma SameLast(x: nat, c: char, y: nat, e: char)
    requires '0' <= c <= '9' && '0' <= e <= '9' && 10 * x + DigitOf(c) == 10 * y + DigitOf(e)
    ensures x == y && c == e
  {
  }

  lemma ByLastDigit(a: string)
    requires a != ""
    ensures Decimal(a) == 10 * Decimal(a[..|a| - 1]) + DigitOf(a[|a| - 1])
  {
  }

  lemma {:induction false} DecimalUnique(a: string, b: string)
    requires AllDigits(a) && AllDigits(b) && |a| == |b| && Decimal(a) == Decimal(b)
    ensures a == b
    decreases |a|
  {
    hide Decimal, DigitOf;
    if a != "" {
      var n := |a| - 1;
      var x, y := a[..n], b[..n];
      ByLastDigit(a);
      ByLastDigit(b);
      SameLast(Decimal(x), a[n], Decimal(y), b[n]);
      DecimalUnique(x, y);
      assert a == x + [a[n]] && b == y + [b[n]];
    }
  }

  /** exp10 grows exactly when the number rounds to one place more than was asked for. */
  lemma ExponentGrowsIff(digits: string, exp10: int, n: nat, d: nat, entry: int, numDigits: nat)
    requires d > 0 && numDigits > 0 && Rounded(digits, exp10, n, d, entry, numDigits)
    ensures exp10 == entry - (numDigits - 1) + 1 <==> RoundsHalfEven(Pow(10, numDigits), n * Pow(10, numDigits - 1), d)
    ensures exp10 == entry - (numDigits - 1) + 1 ==> OneAndZeros(digits)
    ensures exp10 == entry - (numDigits - 1) + 1 || exp10 == entry - (numDigits - 1)
  {
    hide Pow, Decimal, RoundsHalfEven;
    if exp10 == entry - (numDigits - 1) && RoundsHalfEven(Pow(10, numDigits), n * Pow(10, numDigits - 1), d) {
      RoundsHalfEvenUnique(Pow(10, numDigits), Decimal(digits), n * Pow(10, numDigits - 1), d);
      LeadingDigit(digits);
    }
  }

  /** An entry value of at least one digit is written without a leading zero. */
  lemma NoLeadingZero(digits: string, exp10: int, n: nat, d: nat, entry: int, numDigits: nat)
    requires d > 0 && numDigits > 0 && n >= d && Rounded(digits, exp10, n, d, entry, numDigits)
    ensures digits[0] != '0' && Pow(10, numDigits - 1) <= Decimal(digits) < Pow(10, numDigits)
  {
    hide Pow, Decimal, RoundsHalfEven;
    LeadingDigit(digits);
    if exp10 == entry - (numDigits - 1) {
      MulMono(d, n, Pow(10, numDigits - 1));
      RoundsUpTo(Decimal(digits), n * Pow(10, numDigits - 1), d, Pow(10, numDigits - 1));
    } else {
      OneAndZerosIs(digits);
    }
  }

  lemma RoundsUpTo(q: nat, n: nat, d: nat, p: nat)
    requires d > 0 && d * p <= n && RoundsHalfEven(q, n, d)
    ensures p <= q
  {
    if q < p {
      MulMono(q + 1, p, d);
      Distribute(q, 1, d);
    }
  }

  /** The fixed mode has one answer. */
  lemma RoundedUnique(a: string, x: int, b: string, y: int, n: nat, d: nat, entry: int, numDigits: nat)
    requires d > 0 && Rounded(a, x, n, d, entry, numDigits) && Rounded(b, y, n, d, entry, numDigits)
    ensures a == b && x == y
  {
    hide Pow, Decimal, RoundsHalfEven;
    if numDigits == 0 {
      RoundsHalfEvenUnique(Decimal(a), Decimal(b), n, 10 * d);
      DecimalUnique(a, b);
    } else {
      ExponentGrowsIff(a, x, n, d, entry, numDigits);
      ExponentGrowsIff(b, y, n, d, entry, numDigits);
      if x == entry - (numDigits - 1) {
        RoundsHalfEvenUnique(Decimal(a), Decimal(b), n * Pow(10, numDigits - 1), d);
        DecimalUnique(a, b);
      }
    }
  }

  /** A ':' may stand at i, digits stand before it and zeros after. */
  ghost predicate Carrying(r: string, i: nat) {
    i < |r| && AllDigits(r[..i]) && '0' <= r[i] <= ':' && forall k :: i < k < |r| ==> r[k] == '0'
  }

  lemma CarryStep(r: string, i: nat)
    requires 0 < i && Carrying(r, i) && r[i] == ':'
    ensures '0' <= r[i - 1] <= '9'
    ensures Carrying(r[i := '0'][i - 1 := r[i - 1] + 1 as char], i - 1)
    ensures Decimal(r[i := '0'][i - 1 := r[i - 1] + 1 as char]) == Decimal(r)
  {
    hide Decimal;
    assert r[..i][i - 1] == r[i - 1];
    var next := r[i := '0'][i - 1 := r[i - 1] + 1 as char];
    assert next[..i - 1] == r[..i][..i - 1];
    CarryUp(r, i);
  }

  /** With nothing left to carry all characters are digits. */
  lemma CarryDone(r: string, i: nat)
    requires Carrying(r, i) && r[i] != ':'
    ensures AllDigits(r) && r[0] != ':'
  {
    forall k | 0 <= k < |r| ensures '0' <= r[k] <= '9' {
      if k < i { assert r[..i][k] == r[k]; }
    }
  }

  lemma CarryStart(r: string, i: nat)
    requires |r| == i + 1 && r[i] == ':' && AllDigits(r[..i])
    ensures Carrying(r, i)
  {
  }

  /** A carry out of the first place: 10 followed by zeros is a power of ten. */
  lemma CarryOut(r: string)
    requires Carrying(r, 0) && r[0] == ':'
    ensures OneAndZeros(r[0 := '1']) && AllDigits(r[0 := '1']) && Decimal(r) == Pow(10, |r|)
  {
    hide Decimal;
    var t := r[1..];
    assert r == [':'] + t && r[0 := '1'] == ['1'] + t;
    DecimalConcat([':'], t);
    Zeros(t);
    TenAndOne();
  }

  /** Carries a ':' in the last place up; a carry out of the first place shortens the number by a zero. */
  method PropagateCarry(buf: string) returns (r: string, bumped: bool)
    requires |buf| > 0 && buf[|buf| - 1] == ':' && AllDigits(buf[..|buf| - 1])
    ensures |r| == |buf| && AllDigits(r)
    ensures if bumped then OneAndZeros(r) && Decimal(buf) == Pow(10, |buf|) else Decimal(buf) == Decimal(r)
  {
    hide Decimal, Carrying, AllDigits, OneAndZeros, Pow;
    r := buf;
    var i := |buf| - 1;
    CarryStart(r, i);
    while i > 0 && r[i] == ':'
      invariant 0 <= i < |r| == |buf| && Carrying(r, i) && Decimal(r) == Decimal(buf)
    {
      CarryStep(r, i);
      r := r[i := '0'];
      r := r[i - 1 := r[i - 1] + 1 as char];
      i := i - 1;
    }
    if r[i] != ':' { CarryDone(r, i); }
    bumped := false;
    if r[0] == ':' {
      CarryOut(r);
      r := r[0 := '1'];
      bumped := true;
    }
  }

  lemma TenAndOne()
    ensures Decimal([':']) == 10 && Decimal(['1']) == 1
  {
  }

  lemma {:induction false} Zeros(t: string)
    requires forall k :: 0 <= k < |t| ==> t[k] == '0'
    ensures Decimal(t) == 0
  {
    if t != [] { Zeros(t[..|t| - 1]); }
  }

  lemma DigitStep(n0: nat, p: nat, v: nat, d: nat, n: nat, digit: nat, r: nat)
    requires n0 * p == v * (10 * d) + n && n == digit * d + r
    ensures n0 * (10 * p) == (10 * v + digit) * (10 * d) + 10 * r
    ensures n0 * p == (10 * v + digit) * d + r
  {
    MulReorder(v, 10, d);
    MulAssoc(v, 10, d);
    Distribute(10 * v, digit, d);
    MulReorder(10, 10 * v + digit, d);
    MulReorder(10, n0, p);
    MulAssoc(n0, 10, p);
    assert n0 * p == (10 * v) * d + digit * d + r;
    assert n0 * (10 * p) == 10 * (n0 * p);
    assert (10 * v + digit) * (10 * d) == 10 * ((10 * v + digit) * d);
  }

  /** The fixed-digit mode. */
  method FixedDigits(numerator: Bigint, denominator: Bigint, numDigits: nat, entry: int)
    returns (buf: string, exp10: int)
    requires Dividing(numerator, denominator) && numerator.Nonzero()
    modifies numerator, denominator
    ensures Rounded(buf, exp10, old(numerator.Value()), old(denominator.Value()), entry, numDigits)
  {
    hide NeverMissed, Scaled, Val, RoundsHalfEven;
    ghost var n0, d := numerator.Value(), denominator.Value();
    exp10 := entry - (numDigits - 1);
    if numDigits == 0 {
      denominator.TimesBigit(10);
      var c := Bigint.AddCompare(numerator, numerator, denominator);
      buf := if c > 0 then "1" else "0";
      assert Decimal(buf[..0]) == 0;
      RoundingStep(0, n0, n0, 10 * d, c > 0);
      return;
    }
    buf := LeadingDigits(numerator, denominator, numDigits);
    ghost var n, v: nat, p: nat := numerator.Value(), Decimal(buf[..numDigits - 1]), Pow(10, numDigits - 1);
    MulMono(0, n0, p);
    var digit := NextDigit(numerator, denominator);
    ghost var r := numerator.Value();
    QuotientRemainder(n, d);
    DigitStep(n0, p, v, d, n, digit, r);
    ghost var q, scaled := 10 * v + digit, n0 * p;
    var up := RoundsUp(numerator, denominator, digit);
    SameParity(v, digit);
    RoundingStep(q, r, scaled, d, up);
    var bumped;
    buf, bumped := StoreLastDigit(buf, digit, up);
    if bumped { exp10 := exp10 + 1; }
  }

  /** Writes the last digit, rounded up or not, and carries a ten. */
  method StoreLastDigit(digits: string, digit: nat, up: bool) returns (buf: string, bumped: bool)
    requires |digits| > 0 && AllDigits(digits[..|digits| - 1]) && digit <= 9
    ensures |buf| == |digits| && AllDigits(buf)
    ensures var v := 10 * Decimal(digits[..|digits| - 1]) + digit + (if up then 1 else 0);
            if bumped then OneAndZeros(buf) && v == Pow(10, |buf|) else v == Decimal(buf)
  {
    hide OneAndZeros, Pow;
    var last := |digits| - 1;
    bumped := false;
    if up {
      if digit == 9 {
        buf := digits[last := ':'];
        DecimalSnoc(digits, buf, last, 10);
        buf, bumped := PropagateCarry(buf);
        return;
      }
      buf := digits[last := '0' + (digit + 1) as char];
      DecimalSnoc(digits, buf, last, digit + 1);
      return;
    }
    buf := digits[last := '0' + digit as char];
    DecimalSnoc(digits, buf, last, digit);
  }

  /** All digits but the last. */
  method LeadingDigits(numerator: Bigint, denominator: Bigint, numDigits: nat) returns (buf: string)
    requires Dividing(numerator, denominator) && numDigits > 0
    modifies numerator
    ensures Dividing(numerator, denominator) && denominator.Value() == old(denominator.Value())
    ensures |buf| == numDigits && AllDigits(buf[..numDigits - 1])
    ensures old(numerator.Value()) * Pow(10, numDigits - 1)
         == Decimal(buf[..numDigits - 1]) * (10 * denominator.Value()) + numerator.Value()
  {
    ghost var n0, d := numerator.Value(), denominator.Value();
    buf := seq(numDigits, _ => '0');
    ghost var n := n0;
    var i := 0;
    assert buf[..0] == [];
    while i < numDigits - 1
      invariant 0 <= i < numDigits == |buf|
      invariant Dividing(numerator, denominator) && numerator.Value() == n && denominator.Value() == d
      invariant AllDigits(buf[..i])
      invariant n0 * Pow(10, i) == Decimal(buf[..i]) * (10 * d) + n
    {
      var digit := NextDigit(numerator, denominator);
      ghost var before := buf;
      buf := buf[i := '0' + digit as char];
      QuotientRemainder(n, d);
      DigitStep(n0, Pow(10, i), Decimal(before[..i]), d, n, digit, n % d);
      DecimalSnoc(before, buf, i, digit);
      numerator.TimesBigit(10);
      n := 10 * (n % d);
      i := i + 1;
    }
  }

  lemma DecimalSnoc(before: string, buf: string, i: nat, digit: nat)
    requires i < |before| == |buf| && digit <= 10
    requires buf == before[i := '0' + digit as char]
    ensures Decimal(buf[..i + 1]) == 10 * Decimal(before[..i]) + digit
    ensures buf[..i] == before[..i]
    ensures i + 1 == |buf| ==> buf[..i + 1] == buf
    ensures digit <= 9 && AllDigits(before[..i]) ==> AllDigits(buf[..i + 1])
  {
    assert buf[..i + 1][..i] == before[..i];
  }

  lemma RoundedUnscaled(digits: string, exp10: int, n: nat, d: nat, w: nat, entry: int, numDigits: nat)
    requires w > 0 && Rounded(digits, exp10, n * w, d * w, entry, numDigits)
    ensures Rounded(digits, exp10, n, d, entry, numDigits)
  {
    var v := Decimal(digits);
    if numDigits == 0 {
      MulAssoc(10, d, w);
      Unscale(v, n, 10 * d, w);
    } else {
      MulReorder(n, w, Pow(10, numDigits - 1));
      var q := if exp10 == entry - (numDigits - 1) then v else Pow(10, numDigits);
      Unscale(q, n * Pow(10, numDigits - 1), d, w);
    }
  }

  lemma Unscale(q: int, n: int, d: int, w: int)
    requires w > 0 && RoundsHalfEven(q, n * w, d * w)
    ensures RoundsHalfEven(q, n, d)
  {
    MulAssoc(q, d, w);
    var x := q * d - n;
    Distribute(q * d, n, w);
    assert q * (d * w) - n * w == x * w;
    if 2 * x > d { MulMono(d + 1, 2 * x, w); Distribute(d, 1, w); MulAssoc(2, x, w); }
    if 2 * x < -d { MulMono(2 * x, -d - 1, w); Distribute(-d, 1, w); MulAssoc(2, x, w); MulAssoc(-1, d, w); }
    if 2 * x == d { MulAssoc(2, x, w); }
    if 2 * x == -d { MulAssoc(2, x, w); MulAssoc(-1, d, w); }
  }

  /** The half-gaps of a double, scaled like the fraction. */
  function UpperGap(e: int, exp10: int, closer: bool): nat {
    Numerator(1, e, exp10) * (if closer then 2 else 1)
  }

  /**
   Formats f * 2^e, given an exp10 large enough for the first digit to be a single digit. A negative
   numDigits asks for the shortest digits.
   */
  method FallbackFormat(f: Word, e: int, closer: bool, numDigits: int, entry: int) returns (buf: string, exp10: int)
    requires Input(f, e, entry)
    requires var n, d, w := Numerator(f, e, entry), Denominator(e, entry), Pow(2, Shift(closer));
             if numDigits < 0 then Fits(n * w, d * w, UpperGap(e, entry, closer), f % 2 == 0) else n < 10 * d
    ensures var n, d, w := Numerator(f, e, entry), Denominator(e, entry), Pow(2, Shift(closer));
            if numDigits < 0 then
              && n * w > 0 && d * w > 0 && Numerator(1, e, entry) > 0
              && Shows(buf, Shortest(n * w, d * w, Numerator(1, e, entry), UpperGap(e, entry, closer),
                                     f % 2 == 0, Misaligned(e, entry, closer)))
              && AllDigits(buf) && |buf| > 0
              && Within(Decimal(buf), |buf| - 1, n * w, d * w, Numerator(1, e, entry), UpperGap(e, entry, closer),
                        f % 2 == 0)
              && Closest(Decimal(buf), |buf| - 1, n * w, d * w, Numerator(1, e, entry), UpperGap(e, entry, closer),
                         f % 2 == 0, Misaligned(e, entry, closer))
              && exp10 == entry - (|buf| - 1)
            else
              && Rounded(buf, exp10, n, d, entry, numDigits)
              && (numDigits > 0 && n >= d ==> buf[0] != '0')
              && (numDigits > 0 ==> d > 0 && (exp10 == entry - (numDigits - 1) + 1
                                    <==> RoundsHalfEven(Pow(10, numDigits), n * Pow(10, numDigits - 1), d)))
  {
    hide OneAndZeros, RoundsHalfEven, Closest;
    hide Shortest, Within, Fits, Rounded, Shows, NeverMissed, Numerator, Denominator;
    hide LowerExp, DenominatorExp, Scaled, Val, Pow, Decimal, AllDigits;
    var numerator := new Bigint();
    var denominator := new Bigint();
    var lower := new Bigint();
    var upperStore := new Bigint();
    ghost var n, d, w := Numerator(f, e, entry), Denominator(e, entry), Pow(2, Shift(closer));
    SetUp(f, e, closer, entry, numerator, denominator, lower, upperStore);
    SetUpNeverMissed(f, e, closer, entry);
    GapsFit(f, e, closer, entry);
    if numDigits < 0 {
      FitsBound(n * w, d * w, UpperGap(e, entry, closer), f % 2 == 0);
      var upper := if closer then upperStore else lower;
      buf := ShortestDigitLoop(numerator, denominator, lower, upper, f % 2 == 0);
      ShownWithin(buf, n * w, d * w, Numerator(1, e, entry), UpperGap(e, entry, closer), f % 2 == 0,
                  Misaligned(e, entry, closer));
      exp10 := entry - (|buf| - 1);
    } else {
      ScaledBound(n, d, w);
      buf, exp10 := FixedDigits(numerator, denominator, numDigits, entry);
      RoundedUnscaled(buf, exp10, n, d, w, entry, numDigits);
      FixedForm(buf, exp10, n, d, entry, numDigits);
    }
  }

  lemma NumeratorLinear(f: nat, e: int, exp10: int)
    ensures Numerator(f, e, exp10) == f * Numerator(1, e, exp10)
  {
    MulAssoc(f, Pow(2, Max(e, 0)), Pow(10, Max(-exp10, 0)));
  }

  /** The half-gaps in units of half and of a quarter of the distance to the next float. */
  lemma HalfGaps(f: nat, e: int, exp10: int, closer: bool)
    requires f > 0
    ensures var n, h, k := Numerator(f, e, exp10), Numerator(1, e, exp10), if closer then 4 else 2;
            && Pow(2, Shift(closer)) == k
            && k * n - h == Numerator(k * f - 1, e, exp10)
            && k * n + UpperGap(e, exp10, closer) == (k / 2) * Numerator(2 * f + 1, e, exp10)
  {
    hide Numerator;
    assert Pow(2, 1) == 2 && Pow(2, 2) == 4;
    var h, k := Numerator(1, e, exp10), if closer then 4 else 2;
    NumeratorLinear(f, e, exp10);
    NumeratorLinear(k * f - 1, e, exp10);
    NumeratorLinear(2 * f + 1, e, exp10);
    Distribute(k * f, 1, h);
    Distribute(2 * f, 1, h);
    MulAssoc(k, f, h);
    MulAssoc(2, f, h);
  }

  /** Between the points half-way to the two neighbouring floats, endpoints for even significands only. */
  ghost predicate BetweenMidpoints(y: int, m: nat, f: nat, e: int, exp10: int, closer: bool)
    requires f > 0
  {
    var k, v, p := if closer then 4 else 2, y * Denominator(e, exp10), Pow(10, m);
    var low, high := Numerator(k * f - 1, e, exp10) * p, Numerator(2 * f + 1, e, exp10) * p;
    if f % 2 == 0 then low <= k * v && 2 * v <= high else low < k * v && 2 * v < high
  }

  /**
   The interval of the shortest mode is the one that rounds to f * 2^e: y / 10^m lies in it if and only
   if it is between (f - 1/2) * 2^e, or (f - 1/4) * 2^e when the float below is closer, and (f + 1/2) * 2^e.
   */
  lemma WithinIffBetween(y: int, m: nat, f: nat, e: int, exp10: int, closer: bool)
    requires f > 0
    ensures var n, d, w := Numerator(f, e, exp10), Denominator(e, exp10), Pow(2, Shift(closer));
            Within(y, m, n * w, d * w, Numerator(1, e, exp10), UpperGap(e, exp10, closer), f % 2 == 0)
            <==> BetweenMidpoints(y, m, f, e, exp10, closer)
  {
    hide Numerator, Denominator, UpperGap, Pow;
    HalfGaps(f, e, exp10, closer);
    var k := if closer then 4 else 2;
    var low, high := Numerator(k * f - 1, e, exp10), Numerator(2 * f + 1, e, exp10);
    ScaledWithin(y, m, Numerator(f, e, exp10), Denominator(e, exp10), k, Numerator(1, e, exp10),
                 UpperGap(e, exp10, closer), f % 2 == 0, low, high);
  }

  lemma ScaledWithin(y: int, m: nat, n: nat, d: nat, k: nat, l: nat, u: nat, even: bool, low: nat, high: nat)
    requires (k == 2 || k == 4) && k * n - l == low && k * n + u == (k / 2) * high
    ensures var v, p := y * d, Pow(10, m);
            Within(y, m, n * k, d * k, l, u, even)
            <==> if even then low * p <= k * v && 2 * v <= high * p else low * p < k * v && 2 * v < high * p
  {
    hide Pow, Within;
    MulAssoc(y, d, k);
    var v := y * d;
    if k == 2 {
      WithinBounds(y, m, n * 2, d * 2, l, u, even, low, 1, high, 2 * v);
    } else {
      WithinBounds(y, m, n * 4, d * 4, l, u, even, low, 2, high, 4 * v);
    }
  }

  lemma WithinBounds(y: int, m: nat, n: nat, d: nat, l: nat, u: nat, even: bool, low: nat, c: nat, high: nat, v: int)
    requires n - l == low && n + u == c * high && y * d == v
    ensures var p := Pow(10, m);
            Within(y, m, n, d, l, u, even)
            <==> if even then low * p <= v <= c * (high * p) else low * p < v < c * (high * p)
  {
    hide Pow;
    MulAssoc(c, high, Pow(10, m));
  }

  lemma FixedForm(digits: string, exp10: int, n: nat, d: nat, entry: int, numDigits: nat)
    requires d > 0 && Rounded(digits, exp10, n, d, entry, numDigits)
    ensures digits != ""
    ensures numDigits > 0 && n >= d ==> digits[0] != '0'
    ensures numDigits > 0 ==> (exp10 == entry - (numDigits - 1) + 1
                          <==> RoundsHalfEven(Pow(10, numDigits), n * Pow(10, numDigits - 1), d))
  {
    hide Pow, Decimal, RoundsHalfEven, OneAndZeros;
    if numDigits > 0 {
      ExponentGrowsIff(digits, exp10, n, d, entry, numDigits);
      if n >= d { NoLeadingZero(digits, exp10, n, d, entry, numDigits); }
    }
  }

  /** The emitted string is a decimal inside the rounding interval, and the closest of its length there. */
  lemma ShownWithin(data: string, n: nat, d: nat, l: nat, u: nat, even: bool, blind: bool)
    requires d > 0 && l > 0 && u > 0 && Fits(n, d, u, even)
    requires Shows(data, Shortest(n, d, l, u, even, blind))
    ensures AllDigits(data) && |data| > 0 && Within(Decimal(data), |data| - 1, n, d, l, u, even)
    ensures Closest(Decimal(data), |data| - 1, n, d, l, u, even, blind)
  {
    hide Shortest, Within, Fits, Closest;
    ShortestWithin(n, d, l, u, even, blind);
    ShortestClosest(n, d, l, u, even, blind);
    ShownNumber(data, Shortest(n, d, l, u, even, blind));
  }

  lemma ScaledBound(n: nat, d: nat, w: nat)
    requires n < 10 * d && w > 0
    ensures n * w < 10 * (d * w)
  {
    MulMono(n + 1, 10 * d, w);
    Distribute(n, 1, w);
    MulAssoc(10, d, w);
  }

  lemma FitsBound(n: nat, d: nat, u: nat, even: bool)
    requires Fits(n, d, u, even) && u > 0
    ensures n < 10 * d
  {
  }

  lemma GapsFit(f: Word, e: int, closer: bool, exp10: int)
    requires Input(f, e, exp10)
    ensures Numerator(1, e, exp10) > 0
    ensures Numerator(f, e, exp10) * Pow(2, Shift(closer)) > Numerator(1, e, exp10)
    ensures Denominator(e, exp10) * Pow(2, Shift(closer)) > 0
  {
    var a, b, w := Pow(2, Max(e, 0)), Pow(10, Max(-exp10, 0)), Pow(2, Shift(closer));
    assert Pow(2, 1) == 2 && Pow(2, 2) == 4;
    MulMono(1, f, a);
    MulMono(1 * a, f * a, b);
    MulMono(1, a, b);
    MulMono(2, w, f * a * b);
    MulMono(1, Denominator(e, exp10), w);
  }

  /** Exactly when the shortest mode emits the shortest decimal of the rounding interval. */
  lemma ShortestOutputIff(f: Word, e: int, closer: bool, exp10: int)
    requires Input(f, e, exp10)
    ensures var n, d := Numerator(f, e, exp10) * Pow(2, Shift(closer)), Denominator(e, exp10) * Pow(2, Shift(closer));
            var l, u, even := Numerator(1, e, exp10), UpperGap(e, exp10, closer), f % 2 == 0;
            && d > 0 && l > 0
            && (IsShortest(Shortest(n, d, l, u, even, Misaligned(e, exp10, closer)), n, d, l, u, even)
                <==> !(even && Misaligned(e, exp10, closer) && exists m: nat :: EndsOnDecimal(m, n, d, l, u)))
  {
    GapsFit(f, e, closer, exp10);
    var n, d := Numerator(f, e, exp10) * Pow(2, Shift(closer)), Denominator(e, exp10) * Pow(2, Shift(closer));
    ShortestIff(n, d, Numerator(1, e, exp10), UpperGap(e, exp10, closer), f % 2 == 0, Misaligned(e, exp10, closer));
  }

  lemma TenTo25()
    ensures Pow(10, 25) == 10_000_000_000_000_000_000_000_000
  {
    assert Pow(10, 5) == 100_000;
    PowAdd(10, 5, 5);
    PowAdd(10, 10, 10);
    PowAdd(10, 20, 5);
  }

  /** That double's fraction: twice 10^25 under twice f * 2^33, with half-gap 2^33. */
  lemma WitnessFraction()
    ensures var f, e, exp10 := 8344650268554688, 33, 25;
            && Input(f, e, exp10) && f % 2 == 0 && Misaligned(e, exp10, false)
            && Numerator(f, e, exp10) * Pow(2, Shift(false)) == 8344650268554688 * 2 * 0x2_0000_0000
            && Denominator(e, exp10) * Pow(2, Shift(false)) == 2 * 10_000_000_000_000_000_000_000_000
            && Numerator(1, e, exp10) == UpperGap(e, exp10, false) == 0x2_0000_0000
  {
    PowTwo32();
    PowAdd(2, 32, 1);
    TenTo25();
    assert Pow(2, 1) == 2 && Pow(2, 0) == 1 && Pow(10, 0) == 1;
  }

  /**
   The double 8344650268554688 * 2^33 with exp10 = 25: the four-digit decimal 7168 lies in the
   rounding interval, yet more than four digits are emitted.
   */
  lemma NotAlwaysShortest()
    ensures var f, e, exp10 := 8344650268554688, 33, 25;
            var n, d := Numerator(f, e, exp10) * Pow(2, Shift(false)), Denominator(e, exp10) * Pow(2, Shift(false));
            var l, u, blind := Numerator(1, e, exp10), UpperGap(e, exp10, false), Misaligned(e, exp10, false);
            && Input(f, e, exp10) && f % 2 == 0 && d > 0 && l > 0
            && Fits(n, d, u, true) && Within(7168, 3, n, d, l, u, true)
            && |Shortest(n, d, l, u, true, blind)| > 4
  {
    hide Numerator, Denominator, UpperGap, Misaligned, Shift, Input, Shortest, Within, Fits, Pow;
    WitnessFraction();
    BlindWitness();
  }
}
