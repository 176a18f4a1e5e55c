/**
 Divisibility by powers of five through modular inverses, and the trailing-zero removal of the
 bundled fmt that rests on it.
 */
module TrailingZeros {
  import opened Words

  /**
   Multiplying by the inverse of d modulo m and comparing with the largest quotient decides
   divisibility by d; the product then is the quotient.
   */
  lemma InverseDecides(n: nat, d: nat, inv: nat, maxQuotient: nat, m: nat)
    requires n < m && d > 0 && m > 1 && (d * inv) % m == 1 && maxQuotient == (m - 1) / d
    ensures (n * inv) % m <= maxQuotient <==> n % d == 0
    ensures n % d == 0 ==> (n * inv) % m == n / d
  {
    var k := Split(d * inv, m);
    var j := Split(n * inv, m);
    InverseCore(n, d, inv, maxQuotient, m, k, j, (n * inv) % m);
  }

  lemma Split(x: nat, m: nat) returns (k: nat)
    requires m > 0
    ensures x == k * m + x % m && x % m < m
  {
    k := x / m;
  }

  lemma InverseCore(n: nat, d: nat, inv: nat, maxQuotient: nat, m: nat, k: nat, j: nat, q: nat)
    requires n < m && d > 0 && m > 1 && maxQuotient == (m - 1) / d
    requires d * inv == k * m + 1 && n * inv == j * m + q && q < m
    ensures q <= maxQuotient <==> n % d == 0
    ensures n % d == 0 ==> q == n / d
  {
    if n % d == 0 {
      Divisible(n, d, inv, n / d, k, m);
      DivUnique(n * inv, m, j, q);
    } else if q <= maxQuotient {
      SmallProduct(n, d, inv, q, j, k, m);
    }
  }

  lemma Divisible(n: nat, d: nat, inv: nat, p: nat, k: nat, m: nat)
    requires n < m && d > 0 && n == d * p && d * inv == k * m + 1
    ensures (n * inv) % m == p <= (m - 1) / d
  {
    ExactQuotient(n, d, inv, p, k, m);
    MulMono(1, d, p);
    DivUnique(n * inv, m, p * k, p);
    QuotientBound(p, d, m - 1);
  }

  lemma ExactQuotient(n: nat, d: nat, inv: nat, p: nat, k: nat, m: nat)
    requires n == d * p && d * inv == k * m + 1
    ensures n * inv == (p * k) * m + p
  {
    calc {
      (d * p) * inv;
      { MulReorder(d, p, inv); }
      (d * inv) * p;
      { Distribute(k * m, 1, p); MulReorder(k, m, p); MulReorder(p, k, m); }
      (p * k) * m + p;
    }
  }

  lemma QuotientBound(p: nat, d: nat, limit: nat)
    requires d > 0 && d * p <= limit
    ensures p <= limit / d
  {
    if p > limit / d { MulMono(limit / d + 1, p, d); }
  }

  lemma SmallProduct(n: nat, d: nat, inv: nat, q: nat, j: nat, k: nat, m: nat)
    requires n < m && d > 0 && m > 1 && d * inv == k * m + 1
    requires n * inv == j * m + q && q <= (m - 1) / d
    ensures n % d == 0
  {
    MulMono(q, (m - 1) / d, d);
    assert d * q < m;
    // d * n * inv, computed both ways, is n modulo m
    var x: int := n * k - d * j;
    assert x * m == d * q - n by {
      calc {
        d * (j * m + q);
        d * (n * inv);
        { MulReorder(d, inv, n); MulAssoc(d, n, inv); MulReorder(d, n, inv); }
        (k * m + 1) * n;
      }
      Distribute(j * m, q, d);
      MulReorder(j, m, d);
      Distribute(k * m, 1, n);
      MulReorder(k, m, n);
      Distribute(n * k, d * j, m);
    }
    if x >= 1 { MulMono(1, x, m); } else if x <= -1 { MulMono(x, -1, m); }
    assert n == q * d;
    DivUnique(n, d, q, 0);
  }

  /** What divisible_by_power_of_5 looks up for an exponent: the inverse of 5^exp and the largest quotient. */
  datatype Entry = Entry(modInv: nat, maxQuotient: nat)

  const TABLE32: seq<Entry> := [
    Entry(0x00000001, 0xffffffff), Entry(0xcccccccd, 0x33333333), Entry(0xc28f5c29, 0x0a3d70a3),
    Entry(0x26e978d5, 0x020c49ba), Entry(0x3afb7e91, 0x0068db8b), Entry(0x0bcbe61d, 0x0014f8b5),
    Entry(0x68c26139, 0x000431bd), Entry(0xae8d46a5, 0x0000d6bf), Entry(0x22e90e21, 0x00002af3),
    Entry(0x3a2e9c6d, 0x00000897), Entry(0x3ed61f49, 0x000001b7)]

  const TABLE64: seq<Entry> := [
    Entry(0x0000000000000001, 0xffffffffffffffff), Entry(0xcccccccccccccccd, 0x3333333333333333),
    Entry(0x8f5c28f5c28f5c29, 0x0a3d70a3d70a3d70), Entry(0x1cac083126e978d5, 0x020c49ba5e353f7c),
    Entry(0xd288ce703afb7e91, 0x0068db8bac710cb2), Entry(0x5d4e8fb00bcbe61d, 0x0014f8b588e368f0),
    Entry(0x790fb65668c26139, 0x000431bde82d7b63), Entry(0xe5032477ae8d46a5, 0x0000d6bf94d5e57a),
    Entry(0xc767074b22e90e21, 0x00002af31dc46118), Entry(0x8e47ce423a2e9c6d, 0x0000089705f4136b),
    Entry(0x4fa7f60d3ed61f49, 0x000001b7cdfd9d7b), Entry(0x0fee64690c913975, 0x00000057f5ff85e5),
    Entry(0x3662e0e1cf503eb1, 0x000000119799812d), Entry(0xa47a2cf9f6433fbd, 0x0000000384b84d09),
    Entry(0x54186f653140a659, 0x00000000b424dc35), Entry(0x7738164770402145, 0x0000000024075f3d),
    Entry(0xe4a4d1417cd9a041, 0x000000000734aca5), Entry(0xc75429d9e5c5200d, 0x000000000170ef54),
    Entry(0xc1773b91fac10669, 0x000000000049c977), Entry(0x26b172506559ce15, 0x00000000000ec1e4),
    Entry(0xd489e3a9addec2d1, 0x000000000002f394), Entry(0x90e860bb892c8d5d, 0x000000000000971d),
    Entry(0x502e79bf1b6f4f79, 0x0000000000001e39), Entry(0xdcd618596be30fe5, 0x000000000000060b)]

  predicate EntryCorrect(e: Entry, d: nat, m: nat) {
    d > 0 && m > 0 && (d * e.modInv) % m == 1 && e.maxQuotient == (m - 1) / d
  }

  lemma Table32Correct(k: nat)
    requires k < |TABLE32|
    ensures EntryCorrect(TABLE32[k], Pow(5, k), 0x1_0000_0000)
  {
    FivePowers();
  }

  lemma FivePowers()
    ensures Pow(5, 0) == 1 && Pow(5, 1) == 5 && Pow(5, 2) == 25 && Pow(5, 3) == 125 && Pow(5, 4) == 625
    ensures Pow(5, 5) == 3125 && Pow(5, 6) == 15625 && Pow(5, 7) == 78125 && Pow(5, 8) == 390625
    ensures Pow(5, 9) == 1953125 && Pow(5, 10) == 9765625 && Pow(5, 11) == 48828125
  {
    assert Pow(5, 3) == 5 * Pow(5, 2);
    assert Pow(5, 6) == 5 * Pow(5, 5);
    assert Pow(5, 9) == 5 * Pow(5, 8);
  }

  lemma {:induction false} Table64Low(k: nat)
    requires k < 8
    ensures EntryCorrect(TABLE64[k], Pow(5, k), 0x1_0000_0000_0000_0000)
  {
    FivePowers();
    hide Pow;
  }

  lemma {:induction false} Table64Middle(k: nat)
    requires 8 <= k < 16
    ensures EntryCorrect(TABLE64[k], Pow(5, k), 0x1_0000_0000_0000_0000)
  {
    FivePowers();
    LargeFivePowers();
    hide Pow;
  }

  lemma {:induction false} Table64High(k: nat)
    requires 16 <= k < |TABLE64|
    ensures EntryCorrect(TABLE64[k], Pow(5, k), 0x1_0000_0000_0000_0000)
  {
    LargeFivePowers();
    hide Pow;
  }

  lemma {:induction false} Table64Correct(k: nat)
    requires k < |TABLE64|
    ensures EntryCorrect(TABLE64[k], Pow(5, k), 0x1_0000_0000_0000_0000)
  {
    hide EntryCorrect, Pow;
    if k < 8 { Table64Low(k); } else if k < 16 { Table64Middle(k); } else { Table64High(k); }
  }

  lemma LargeFivePowers()
    ensures Pow(5, 12) == 244140625 && Pow(5, 13) == 1220703125 && Pow(5, 14) == 6103515625
    ensures Pow(5, 15) == 30517578125 && Pow(5, 16) == 152587890625 && Pow(5, 17) == 762939453125
    ensures Pow(5, 18) == 3814697265625 && Pow(5, 19) == 19073486328125 && Pow(5, 20) == 95367431640625
    ensures Pow(5, 21) == 476837158203125 && Pow(5, 22) == 2384185791015625 && Pow(5, 23) == 11920928955078125
  {
    FivePowers();
    assert Pow(5, 13) == 5 * Pow(5, 12);
    assert Pow(5, 16) == 5 * Pow(5, 15);
    assert Pow(5, 19) == 5 * Pow(5, 18);
    assert Pow(5, 22) == 5 * Pow(5, 21);
  }

  /** divisible_by_power_of_5 for 32-bit and 64-bit arguments. */
  predicate DivisibleByPowerOf5Narrow(x: Bigit, exp: nat)
    requires exp <= 10
    ensures DivisibleByPowerOf5Narrow(x, exp) <==> x % Pow(5, exp) == 0
  {
    Table32Correct(exp);
    InverseDecides(x, Pow(5, exp), TABLE32[exp].modInv, TABLE32[exp].maxQuotient, 0x1_0000_0000);
    (x * TABLE32[exp].modInv) % 0x1_0000_0000 <= TABLE32[exp].maxQuotient
  }

  predicate DivisibleByPowerOf5(x: Word, exp: nat)
    requires exp <= 23
    ensures DivisibleByPowerOf5(x, exp) <==> x % Pow(5, exp) == 0
  {
    Table64Correct(exp);
    InverseDecides(x, Pow(5, exp), TABLE64[exp].modInv, TABLE64[exp].maxQuotient, 0x1_0000_0000_0000_0000);
    (x * TABLE64[exp].modInv) % 0x1_0000_0000_0000_0000 <= TABLE64[exp].maxQuotient
  }

  /** Count of trailing zero bits. */
  function Ctz(n: nat): nat
    requires n > 0
  {
    if n % 2 == 1 then 0 else 1 + Ctz(n / 2)
  }

  lemma DoubleFactor(a: nat, p: nat)
    ensures a * (2 * p) == 2 * (a * p)
  {
  }

  /** n is odd * 2^Ctz(n). */
  lemma {:induction false} CtzFactor(n: nat) returns (odd: nat)
    requires n > 0
    ensures odd % 2 == 1 && n == odd * Pow(2, Ctz(n))
  {
    if n % 2 == 1 {
      odd := n;
    } else {
      odd := CtzFactor(n / 2);
      DoubleFactor(odd, Pow(2, Ctz(n / 2)));
    }
  }

  const MOD_INV1: nat := 0xcccccccd
  const MAX_QUOTIENT1: nat := 0x33333333
  const MOD_INV2: nat := 0xc28f5c29
  const MAX_QUOTIENT2: nat := 0x0a3d70a3
  const MOD_INV8: nat := 0xc767074b22e90e21
  const MAX_QUOTIENT8: nat := 0x00002af31dc46118

  function Times32(n: Bigit, inv: nat): Bigit { ((n as int) * inv) % 0x1_0000_0000 }

  /** The test the removal loops share, for one factor of five. */
  lemma OneFive(n: Bigit)
    ensures Times32(n, MOD_INV1) <= MAX_QUOTIENT1 <==> n % 5 == 0
    ensures n % 5 == 0 ==> n == 5 * Times32(n, MOD_INV1)
  {
    InverseDecides(n, 5, MOD_INV1, MAX_QUOTIENT1, 0x1_0000_0000);
  }

  lemma TwoFives(n: Bigit)
    ensures Times32(n, MOD_INV2) <= MAX_QUOTIENT2 <==> n % 25 == 0
    ensures n % 25 == 0 ==> n == 25 * Times32(n, MOD_INV2)
  {
    InverseDecides(n, 25, MOD_INV2, MAX_QUOTIENT2, 0x1_0000_0000);
  }

  function ShiftRight(n: nat, s: nat): (r: nat)
    ensures r <= n
  {
    QuotientAtMost(n, Pow(2, s));
    n / Pow(2, s)
  }

  lemma QuotientAtMost(n: nat, p: nat)
    requires p > 0
    ensures 0 <= n / p <= n
  {
    MulMono(1, p, n / p);
  }

  /** n == m * 10^s with s as large as possible up to the cap. */
  ghost predicate Stripped(n: nat, m: nat, s: nat, cap: nat) {
    n == m * Pow(10, s) && s <= cap && (s == cap || m % 10 != 0)
  }

  /** Dividing by five leaves the power of two in place. */
  /** An odd factor leaves the even half to the other one. */
  lemma HalfOut(f: nat, r: nat, odd: nat, p: nat)
    requires f * r == odd * (2 * p) && f % 2 == 1
    ensures r % 2 == 0 && f * (r / 2) == odd * p
  {
    MulReorder(2, p, odd);
    if r % 2 == 1 { OddProduct(f, r); }
    DoubleFactor(f, r / 2);
    DoubleFactor(odd, p);
  }

  lemma {:induction false} FivesOut(r: nat, f: nat, odd: nat, c: nat) returns (o: nat)
    requires f * r == odd * Pow(2, c) && odd % 2 == 1 && f % 2 == 1
    ensures o % 2 == 1 && r == o * Pow(2, c)
  {
    if c == 0 {
      o := r;
      if r % 2 == 0 { EvenProduct(f, r); }
    } else {
      HalfOut(f, r, odd, Pow(2, c - 1));
      o := FivesOut(r / 2, f, odd, c - 1);
      DoubleFactor(o, Pow(2, c - 1));
    }
  }

  lemma EvenProduct(f: nat, r: nat)
    requires r % 2 == 0
    ensures (f * r) % 2 == 0
  {
    MulReorder(2, r / 2, f);
    MulAssoc(2, f, r / 2);
    assert f * r == 2 * (f * (r / 2));
  }

  lemma OddProduct(f: nat, r: nat)
    requires f % 2 == 1 && r % 2 == 1
    ensures (f * r) % 2 == 1
  {
    EvenProduct(f, r - 1);
    Distribute(r - 1, 1, f);
  }

  lemma FiveTimes(n: nat, a: nat, b: nat, s: nat, k: nat)
    requires n == a * Pow(5, s) && a == Pow(5, k) * b
    ensures n == b * Pow(5, s + k)
  {
    PowAdd(5, s, k);
    MulReorder(Pow(5, k), b, Pow(5, s));
    MulReorder(Pow(5, s), Pow(5, k), b);
  }

  /** After the fives are out, shifting out as many twos leaves a number without trailing zeros. */
  lemma TensOut(n: nat, rest: nat, s: nat, m: nat)
    requires n == rest * Pow(5, s) && rest == m * Pow(2, s)
    ensures n == m * Pow(10, s) && ShiftRight(rest, s) == m
  {
    DivUnique(rest, Pow(2, s), m, 0);
    MulAssoc(m, Pow(2, s), Pow(5, s));
    PowMulBase(2, 5, s);
  }

  lemma Finish(n: nat, rest: nat, s: nat, odd: nat, c: nat, cap: nat)
    requires n == rest * Pow(5, s) && rest == odd * Pow(2, c) && odd % 2 == 1
    requires s <= c && s <= cap
    requires s == c || s == cap || rest % 5 != 0
    ensures Stripped(n, ShiftRight(rest, s), s, cap)
  {
    hide ShiftRight;
    var m := odd * Pow(2, c - s);
    PowAdd(2, c - s, s);
    MulAssoc(odd, Pow(2, c - s), Pow(2, s));
    TensOut(n, rest, s, m);
    if s == c {
      assert Pow(2, 0) == 1;
      assert m == odd;
    } else {
      FiveDivides(m, Pow(2, s));
    }
  }

  lemma FiveDivides(m: nat, p: nat)
    ensures m % 10 == 0 ==> (m * p) % 5 == 0
  {
    if m % 10 == 0 {
      MulReorder(5, m / 5, p);
      assert m * p == 5 * (m / 5 * p);
    }
  }

  lemma NotTwentyFive(m: nat, fifth: nat)
    requires m == 5 * fifth
    ensures m % 25 == 0 <==> fifth % 5 == 0
  {
    DivUnique(m, 25, fifth / 5, 5 * (fifth % 5));
  }

  /** n is m after s fives have been divided out; the twos are still in m. */
  ghost predicate FivesRemoved(n: nat, m: nat, s: nat, odd: nat, c: nat) {
    n == m * Pow(5, s) && m == odd * Pow(2, c) && odd % 2 == 1
  }

  lemma RemoveTwoFives(n: nat, m: Bigit, s: nat, odd: nat, c: nat) returns (o: nat)
    requires FivesRemoved(n, m, s, odd, c) && Times32(m, MOD_INV2) <= MAX_QUOTIENT2
    ensures FivesRemoved(n, Times32(m, MOD_INV2), s + 2, o, c)
  {
    TwoFives(m);
    FivePowers();
    FiveTimes(n, m, Times32(m, MOD_INV2), s, 2);
    o := FivesOut(Times32(m, MOD_INV2), 25, odd, c);
  }

  lemma RemoveOneFive(n: nat, m: Bigit, s: nat, odd: nat, c: nat) returns (o: nat)
    requires FivesRemoved(n, m, s, odd, c) && Times32(m, MOD_INV1) <= MAX_QUOTIENT1
    ensures FivesRemoved(n, Times32(m, MOD_INV1), s + 1, o, c)
    ensures Times32(m, MOD_INV2) > MAX_QUOTIENT2 ==> Times32(m, MOD_INV1) % 5 != 0
  {
    OneFive(m);
    TwoFives(m);
    FivePowers();
    FiveTimes(n, m, Times32(m, MOD_INV1), s, 1);
    o := FivesOut(Times32(m, MOD_INV1), 5, odd, c);
    NotTwentyFive(m, Times32(m, MOD_INV1));
  }

  /** Removes trailing decimal zeros from a nonzero 32-bit number, at most 7. */
  method RemoveTrailingZerosNarrow(n: Bigit) returns (m: Bigit, s: nat)
    requires n != 0
    ensures Stripped(n, m, s, 7)
  {
    var t := Ctz(n);
    ghost var c := t;
    ghost var odd := CtzFactor(n);
    if t > 7 { t := 7; }
    s := 0;
    m := n;
    assert Pow(5, 0) == 1;
    while s < (t as int) - 1
      invariant s <= t && FivesRemoved(n, m, s, odd, c)
    {
      if Times32(m, MOD_INV2) > MAX_QUOTIENT2 { break; }
      odd := RemoveTwoFives(n, m, s, odd, c);
      m := Times32(m, MOD_INV2);
      s := s + 2;
    }
    OneFive(m);
    if s < t && Times32(m, MOD_INV1) <= MAX_QUOTIENT1 {
      odd := RemoveOneFive(n, m, s, odd, c);
      m := Times32(m, MOD_INV1);
      s := s + 1;
    }
    Finish(n, m, s, odd, c, 7);
    m := ShiftRight(m, s);
  }

  /** n / 5^k while the low eight decimal digits are divided separately. */
  function Rest(quotient: nat, remainder: nat, k: nat): nat
    requires k <= 8
  {
    quotient * (256 * Pow(5, 8 - k)) + remainder
  }

  function Recombined(quotient: nat, remainder: nat, k: nat): nat
    requires k <= 8
  {
    ShiftRight(remainder, k) + quotient * Pow(10, 8 - k)
  }

  /** The state of the remainder chain after k divisions by five. */
  ghost predicate Chain(n: nat, quotient: nat, remainder: nat, k: nat, odd: nat, c: nat) {
    && k <= 7 && odd % 2 == 1 && k <= c
    && n == Rest(quotient, remainder, k) * Pow(5, k)
    && Rest(quotient, remainder, k) == odd * Pow(2, c)
  }

  lemma FivesInRest(quotient: nat, remainder: nat, k: nat)
    requires k <= 7
    ensures Rest(quotient, remainder, k) % 5 == 0 <==> remainder % 5 == 0
    ensures remainder % 5 == 0 ==> Rest(quotient, remainder, k) == 5 * Rest(quotient, remainder / 5, k + 1)
  {
    var x := quotient * (256 * Pow(5, 7 - k));
    assert quotient * (256 * Pow(5, 8 - k)) == 5 * x by {
      MulReorder(5, 256 * Pow(5, 7 - k), quotient);
      MulAssoc(5, quotient, 256 * Pow(5, 7 - k));
    }
  }

  /** One more factor of five out of the remainder. */
  lemma ChainStep(n: nat, quotient: nat, remainder: Bigit, k: nat, odd: nat, c: nat) returns (o: nat)
    requires Chain(n, quotient, remainder, k, odd, c)
    requires Times32(remainder, MOD_INV1) <= MAX_QUOTIENT1 && k < 7 && k < c
    ensures Chain(n, quotient, Times32(remainder, MOD_INV1), k + 1, o, c)
  {
    OneFive(remainder);
    FivesInRest(quotient, remainder, k);
    assert Pow(5, 1) == 5;
    var r := Rest(quotient, remainder / 5, k + 1);
    FiveTimes(n, Rest(quotient, remainder, k), r, k, 1);
    o := FivesOut(r, 5, odd, c);
  }

  /** Where the chain stops, quotient and remainder recombine to the stripped number. */
  lemma TensOfQuotient(quotient: nat, k: nat)
    requires k <= 8
    ensures quotient * (256 * Pow(5, 8 - k)) == (quotient * Pow(10, 8 - k)) * Pow(2, k)
  {
    var p := Pow(2, k);
    EightTwos(k);
    PowMulBase(2, 5, 8 - k);
    MulReorder(Pow(2, 8 - k), p, Pow(5, 8 - k));
    MulAssoc(quotient, Pow(10, 8 - k), p);
  }

  lemma ChainStop(n: nat, quotient: nat, remainder: Bigit, k: nat, odd: nat, c: nat)
    requires Chain(n, quotient, remainder, k, odd, c)
    requires k == c || Rest(quotient, remainder, k) % 5 != 0
    ensures Stripped(n, Recombined(quotient, remainder, k), k, 16)
  {
    hide Stripped, Pow;
    var rest := Rest(quotient, remainder, k);
    Finish(n, rest, k, odd, c, 16);
    TensOfQuotient(quotient, k);
    SplitQuotient(rest, quotient * Pow(10, 8 - k), remainder, Pow(2, k));
  }

  lemma SplitQuotient(n: nat, a: nat, r: nat, p: nat)
    requires p > 0 && n == a * p + r
    ensures n / p == a + r / p
  {
    var q := r / p;
    assert r == q * p + r % p;
    Distribute(a, q, p);
    DivUnique(n, p, a + q, r % p);
  }

  lemma EightTwos(k: nat)
    requires k <= 8
    ensures Pow(2, 8 - k) * Pow(2, k) == 256
  {
    PowAdd(2, 8 - k, k);
    assert Pow(2, 4) == 16;
    PowAdd(2, 4, 4);
  }

  lemma FailedTest(n: nat, quotient: nat, remainder: Bigit, k: nat, odd: nat, c: nat, t: nat)
    requires Chain(n, quotient, remainder, k, odd, c) && t == (if c > 16 then 16 else c)
    requires t == k || Times32(remainder, MOD_INV1) > MAX_QUOTIENT1
    ensures Stripped(n, Recombined(quotient, remainder, k), k, 16)
  {
    OneFive(remainder);
    FivesInRest(quotient, remainder, k);
    ChainStop(n, quotient, remainder, k, odd, c);
  }

  /** The 32-bit product in n - 100000000 * quotient wraps, but the low 32 bits of the difference do not change. */
  lemma WrappedRemainder(n: Word, quotient: Bigit)
    requires quotient == n / 100000000
    ensures ((n - (100000000 * (quotient as int)) % 0x1_0000_0000) % 0x1_0000_0000_0000_0000) % 0x1_0000_0000
         == n % 100000000
  {
    var x: int := 100000000 * (quotient as int);
    DivUnique(n - x % 0x1_0000_0000, 0x1_0000_0000, x / 0x1_0000_0000, n - x);
  }

  /** Removes trailing decimal zeros from a nonzero significand, at most 16. */
  method RemoveTrailingZeros(n: Word) returns (m: Word, s: nat)
    requires 0 < n <= 0xffff_ffff_ffff_ffff / 1000
    ensures Stripped(n, m, s, 16)
  {
    hide Stripped, Ctz;
    var t := Ctz(n);
    ghost var c := t;
    ghost var odd := CtzFactor(n);
    hide Pow;
    if t > 16 { t := 16; }
    FivePowers();
    EightTwos(0);
    InverseDecides(n, 390625, MOD_INV8, MAX_QUOTIENT8, 0x1_0000_0000_0000_0000);
    if t >= 8 {
      var candidate := ((n as int) * MOD_INV8) % 0x1_0000_0000_0000_0000;
      if candidate <= MAX_QUOTIENT8 {
        odd := FivesOut(candidate, 390625, odd, c);
        m, s := StripQuotient(n, candidate, t, odd, c);
        return;
      }
    }
    var quotient: Bigit := n / 100000000;
    WrappedRemainder(n, quotient);
    var remainder: Bigit :=
      ((n - (100000000 * (quotient as int)) % 0x1_0000_0000) % 0x1_0000_0000_0000_0000) % 0x1_0000_0000;
    m, s := StripRemainder(n, quotient, remainder, t, odd, c);
  }

  /** The branch for multiples of 10^8. */
  method StripQuotient(n: Word, candidate: Word, t: nat, ghost odd: nat, ghost c: nat) returns (m: Word, s: nat)
    requires 0 < n <= 0xffff_ffff_ffff_ffff / 1000
    requires n == 390625 * candidate && candidate == odd * Pow(2, c) && odd % 2 == 1
    requires 8 <= t == (if c > 16 then 16 else c)
    ensures Stripped(n, m, s, 16)
  {
    ghost var o := odd;
    FivePowers();
    EightTwos(0);
    EightTwosOut(candidate, odd, c);
    var quotient: Bigit := (candidate / 256) % 0x1_0000_0000;
    s := 8;
    while s < t
      invariant 8 <= s <= t && o % 2 == 1
      invariant n == (256 * quotient) * Pow(5, s) && 256 * quotient == o * Pow(2, c)
    {
      OneFive(quotient);
      if Times32(quotient, MOD_INV1) > MAX_QUOTIENT1 { break; }
      FiveTimes(n, 256 * quotient, 256 * Times32(quotient, MOD_INV1), s, 1);
      o := FivesOut(256 * Times32(quotient, MOD_INV1), 5, o, c);
      quotient := Times32(quotient, MOD_INV1);
      s := s + 1;
    }
    OneFive(quotient);
    FiveIn256(quotient);
    Finish(n, 256 * quotient, s, o, c, 16);
    HalveTwice(quotient, s);
    m := ShiftRight(quotient, s - 8);
  }

  lemma EightTwosOut(candidate: nat, odd: nat, c: nat)
    requires candidate == odd * Pow(2, c) && c >= 8
    ensures candidate == 256 * (candidate / 256)
  {
    EightTwos(0);
    PowAdd(2, c - 8, 8);
    MulAssoc(odd, Pow(2, c - 8), 256);
    DivUnique(candidate, 256, odd * Pow(2, c - 8), 0);
  }

  lemma FiveIn256(q: nat)
    ensures (256 * q) % 5 == 0 <==> q % 5 == 0
  {
    DivUnique(256 * q, 5, 51 * q + q / 5, q % 5);
  }

  lemma HalveTwice(q: nat, s: nat)
    requires s >= 8
    ensures ShiftRight(256 * q, s) == ShiftRight(q, s - 8)
  {
    PowAdd(2, 8, s - 8);
    EightTwos(0);
    var p := Pow(2, s - 8);
    MulReorder(256, q / p, p);
    DivUnique(256 * q, 256 * p, q / p, 256 * (q % p));
  }

  lemma ChainStart(n: nat, quotient: nat, low: nat, odd: nat, c: nat)
    requires n == quotient * 100000000 + low && n == odd * Pow(2, c) && odd % 2 == 1
    ensures Chain(n, quotient, low, 0, odd, c)
  {
    SmallPowers();
  }

  /** The quotient and remainder put together again after k divisions, with each constant written out. */
  lemma RecombinedIs(quotient: nat, remainder: nat, k: nat)
    requires k <= 7
    ensures k == 0 ==> Recombined(quotient, remainder, k) == remainder + quotient * 100000000
    ensures k == 1 ==> Recombined(quotient, remainder, k) == remainder / 2 + quotient * 10000000
    ensures k == 2 ==> Recombined(quotient, remainder, k) == remainder / 4 + quotient * 1000000
    ensures k == 3 ==> Recombined(quotient, remainder, k) == remainder / 8 + quotient * 100000
    ensures k == 4 ==> Recombined(quotient, remainder, k) == remainder / 16 + quotient * 10000
    ensures k == 5 ==> Recombined(quotient, remainder, k) == remainder / 32 + quotient * 1000
    ensures k == 6 ==> Recombined(quotient, remainder, k) == remainder / 64 + quotient * 100
    ensures k == 7 ==> Recombined(quotient, remainder, k) == remainder / 128 + quotient * 10
  {
    SmallPowers();
  }

  /** The branch that works on the low eight digits; each test is written out, as is each constant. */
  method StripRemainder(n: Word, quotient: Bigit, low: Bigit, t: nat, ghost odd: nat, ghost c: nat)
    returns (m: Word, s: nat)
    requires n == quotient * 100000000 + low && low < 100000000 && n <= 0xffff_ffff_ffff_ffff / 1000
    requires n == odd * Pow(2, c) && odd % 2 == 1 && t == (if c > 16 then 16 else c)
    requires t >= 8 ==> n % 390625 != 0
    ensures Stripped(n, m, s, 16)
  {
    hide Chain, Stripped, Times32, Recombined, Rest, Pow;
    var remainder := low;
    ghost var o := odd;
    ChainStart(n, quotient, low, odd, c);
    if t == 0 || Times32(remainder, MOD_INV1) > MAX_QUOTIENT1 {
      FailedTest(n, quotient, remainder, 0, o, c, t);
      RecombinedIs(quotient, remainder, 0);
      return n, 0;
    }
    o := ChainStep(n, quotient, remainder, 0, o, c);
    remainder := Times32(remainder, MOD_INV1);
    if t == 1 || Times32(remainder, MOD_INV1) > MAX_QUOTIENT1 {
      FailedTest(n, quotient, remainder, 1, o, c, t);
      RecombinedIs(quotient, remainder, 1);
      return remainder / 2 + quotient * 10000000, 1;
    }
    o := ChainStep(n, quotient, remainder, 1, o, c);
    remainder := Times32(remainder, MOD_INV1);
    if t == 2 || Times32(remainder, MOD_INV1) > MAX_QUOTIENT1 {
      FailedTest(n, quotient, remainder, 2, o, c, t);
      RecombinedIs(quotient, remainder, 2);
      return remainder / 4 + quotient * 1000000, 2;
    }
    o := ChainStep(n, quotient, remainder, 2, o, c);
    remainder := Times32(remainder, MOD_INV1);
    if t == 3 || Times32(remainder, MOD_INV1) > MAX_QUOTIENT1 {
      FailedTest(n, quotient, remainder, 3, o, c, t);
      RecombinedIs(quotient, remainder, 3);
      return remainder / 8 + quotient * 100000, 3;
    }
    o := ChainStep(n, quotient, remainder, 3, o, c);
    remainder := Times32(remainder, MOD_INV1);
    if t == 4 || Times32(remainder, MOD_INV1) > MAX_QUOTIENT1 {
      FailedTest(n, quotient, remainder, 4, o, c, t);
      RecombinedIs(quotient, remainder, 4);
      return remainder / 16 + quotient * 10000, 4;
    }
    o := ChainStep(n, quotient, remainder, 4, o, c);
    remainder := Times32(remainder, MOD_INV1);
    if t == 5 || Times32(remainder, MOD_INV1) > MAX_QUOTIENT1 {
      FailedTest(n, quotient, remainder, 5, o, c, t);
      RecombinedIs(quotient, remainder, 5);
      return remainder / 32 + quotient * 1000, 5;
    }
    o := ChainStep(n, quotient, remainder, 5, o, c);
    remainder := Times32(remainder, MOD_INV1);
    if t == 6 || Times32(remainder, MOD_INV1) > MAX_QUOTIENT1 {
      FailedTest(n, quotient, remainder, 6, o, c, t);
      RecombinedIs(quotient, remainder, 6);
      return remainder / 64 + quotient * 100, 6;
    }
    o := ChainStep(n, quotient, remainder, 6, o, c);
    remainder := Times32(remainder, MOD_INV1);
    LastFive(n, quotient, remainder, o, c, t);
    ChainStop(n, quotient, remainder, 7, o, c);
    RecombinedIs(quotient, remainder, 7);
    return remainder / 128 + quotient * 10, 7;
  }

  /** An eighth factor of five would have sent the number into the other branch. */
  lemma LastFive(n: nat, quotient: nat, remainder: nat, odd: nat, c: nat, t: nat)
    requires Chain(n, quotient, remainder, 7, odd, c)
    requires t == (if c > 16 then 16 else c) && (t >= 8 ==> n % 390625 != 0)
    ensures c == 7 || Rest(quotient, remainder, 7) % 5 != 0
  {
    var r := Rest(quotient, remainder, 7);
    FivePowers();
    if r % 5 == 0 { DivUnique(n, 390625, r / 5, 0); }
  }

  lemma SmallPowers()
    ensures Pow(2, 0) == 1 && Pow(2, 1) == 2 && Pow(2, 2) == 4 && Pow(2, 3) == 8
    ensures Pow(2, 4) == 16 && Pow(2, 5) == 32 && Pow(2, 6) == 64 && Pow(2, 7) == 128
    ensures Pow(10, 1) == 10 && Pow(10, 2) == 100 && Pow(10, 3) == 1000 && Pow(10, 4) == 10000
    ensures Pow(10, 5) == 100000 && Pow(10, 6) == 1000000 && Pow(10, 7) == 10000000 && Pow(10, 8) == 100000000
    ensures Pow(5, 0) == 1 && 256 * Pow(5, 8) == 100000000
  {
    FivePowers();
    assert Pow(2, 2) == 2 * Pow(2, 1);
    assert Pow(2, 5) == 2 * Pow(2, 4);
    assert Pow(10, 2) == 10 * Pow(10, 1);
    assert Pow(10, 5) == 10 * Pow(10, 4);
  }
}
