/**
 The two digit generators of the bundled fmt's `fallback_format` on plain integers: a number is the
 fraction n/d scaled by a power of ten. What the generated digits mean is stated and proved here;
 FallbackFormat.dfy ties the limb arithmetic to it.
 */
module DigitGeneration {
  import opened Words

  /** The number a string of decimal digits stands for; ':' is a digit 10 awaiting its carry. */
  function Decimal(s: string): nat {
    if s == [] then 0 else 10 * Decimal(s[..|s| - 1]) + DigitOf(s[|s| - 1])
  }

  function DigitOf(c: char): nat {
    if c < '0' then 0 else c as int - '0' as int
  }

  ghost predicate AllDigits(s: string) {
    forall i :: 0 <= i < |s| ==> '0' <= s[i] <= '9'
  }

  lemma {:induction false} DecimalConcat(s: string, t: string)
    ensures Decimal(s + t) == Decimal(s) * Pow(10, |t|) + Decimal(t)
  {
    if t == [] {
      assert s + t == s;
    } else {
      var t' := t[..|t| - 1];
      assert (s + t)[..|s + t| - 1] == s + t';
      DecimalConcat(s, t');
      var a, b, c := Decimal(s), Pow(10, |t'|), Decimal(t');
      assert 10 * (a * b + c) == a * (10 * b) + 10 * c by { MulReorder(10, a, b); MulAssoc(10, a, b); }
    }
  }

  /** Handing a carry on to the digit before leaves the number unchanged. */
  lemma CarryUp(s: string, i: nat)
    requires 0 < i < |s| && s[i] == ':' && '0' <= s[i - 1] <= '9'
    ensures Decimal(s[i := '0'][i - 1 := s[i - 1] + 1 as char]) == Decimal(s)
  {
    var a, t := s[..i - 1], s[i + 1..];
    var p, q := [s[i - 1], ':'], [s[i - 1] + 1 as char, '0'];
    assert p[..1] == [s[i - 1]] && q[..1] == [s[i - 1] + 1 as char];
    assert p[..1][..0] == [] && q[..1][..0] == [];
    assert Decimal(p[..1]) == DigitOf(s[i - 1]) && Decimal(q[..1]) == DigitOf(s[i - 1]) + 1;
    assert Decimal(p) == Decimal(q);
    assert s == (a + p) + t;
    assert s[i := '0'][i - 1 := s[i - 1] + 1 as char] == (a + q) + t;
    DecimalConcat(a + p, t);
    DecimalConcat(a + q, t);
    DecimalConcat(a, p);
    DecimalConcat(a, q);
  }

  // ---- rounding ----

  /** q is the integer nearest to n/d, the even one of two equally near. */
  ghost predicate RoundsHalfEven(q: int, n: int, d: int) {
    && -d <= 2 * (q * d - n) <= d
    && (2 * (q * d - n) == d || 2 * (q * d - n) == -d ==> q % 2 == 0)
  }

  lemma RoundsHalfEvenUnique(q: int, p: int, n: int, d: int)
    requires d > 0 && RoundsHalfEven(q, n, d) && RoundsHalfEven(p, n, d)
    ensures q == p
  {
    Distribute(q, p, d);
    Distribute(p, q, d);
    if q > p { OneApart(q, p, n, d); } else if p > q { OneApart(p, q, n, d); }
  }

  lemma OneApart(q: int, p: int, n: int, d: int)
    requires d > 0 && q > p && RoundsHalfEven(q, n, d)
    ensures !RoundsHalfEven(p, n, d)
  {
    if !RoundsHalfEven(p, n, d) { return; }
    Distribute(q, p, d);
    MulMono(1, q - p, d);
    Halves(q * d, p * d, n, d);
    MulMono(2, q - p, d);
  }

  lemma Halves(x: int, y: int, n: int, d: int)
    requires d > 0 && x - y >= d
    requires 2 * (x - n) <= d && -d <= 2 * (y - n)
    ensures x - y == d && 2 * (x - n) == d && 2 * (y - n) == -d
  {
  }

  /** Remainder form: rounding q up or not by comparing twice the remainder with the divisor. */
  lemma RoundingStep(q: nat, r: nat, n: nat, d: nat, up: bool)
    requires n == q * d + r && r < d
    requires up <==> 2 * r > d || (2 * r == d && q % 2 != 0)
    ensures RoundsHalfEven(if up then q + 1 else q, n, d)
  {
    Distribute(q, 1, d);
  }

  // ---- shortest digits ----

  /** The remainder is within the lower half-gap, as far as the comparison can tell. */
  predicate MeetsLow(r: nat, l: nat, even: bool, blind: bool) {
    r < l || (r == l && even && !blind)
  }

  predicate MeetsHigh(r: nat, u: nat, d: nat, even: bool) {
    if even then r + u >= d else r + u > d
  }

  /** The final digit: up when only the upper test holds, to the nearest when both do. */
  function LastOf(digit: nat, r: nat, d: nat, low: bool, high: bool): nat {
    if !low || (high && (2 * r > d || (2 * r == d && digit % 2 != 0))) then digit + 1 else digit
  }

  /**
   The digits generated for n/d with half-gaps l/d below and u/d above. `blind` says that the
   comparison with the lower half-gap cannot see equality.
   */
  function Shortest(n: nat, d: nat, l: nat, u: nat, even: bool, blind: bool): seq<nat>
    requires d > 0 && l > 0
    decreases if l < d then d - l else 0
  {
    var digit, r := n / d, n % d;
    var low, high := MeetsLow(r, l, even, blind), MeetsHigh(r, u, d, even);
    if low || high then
      [LastOf(digit, r, d, low, high)]
    else
      [digit] + Shortest(10 * r, d, 10 * l, 10 * u, even, blind)
  }

  function Number(s: seq<nat>): nat {
    if s == [] then 0 else s[0] * Pow(10, |s| - 1) + Number(s[1..])
  }

  /** y / 10^m lies in the rounding interval of n/d, endpoints included for even significands only. */
  ghost predicate Within(y: int, m: nat, n: nat, d: nat, l: nat, u: nat, even: bool) {
    var p := Pow(10, m);
    if even then (n - l) * p <= y * d <= (n + u) * p else (n - l) * p < y * d < (n + u) * p
  }

  ghost predicate Fits(n: nat, d: nat, u: nat, even: bool) {
    if even then n + u < 10 * d else n + u <= 10 * d
  }

  lemma NumberLast(digit: nat)
    ensures Number([digit]) == digit && Pow(10, 0) == 1
  {
  }

  lemma NumberFirst(digit: nat, t: seq<nat>)
    requires |t| > 0
    ensures Number([digit] + t) == digit * Pow(10, |t|) + Number(t) && Pow(10, |t|) == 10 * Pow(10, |t| - 1)
  {
    assert ([digit] + t)[1..] == t;
  }

  lemma QuotientRemainder(n: nat, d: nat)
    requires d > 0
    ensures n == (n / d) * d + n % d && n / d >= 0
    ensures n < 10 * d ==> n / d <= 9
  {
    if n / d >= 10 { MulMono(10, n / d, d); }
  }

  lemma {:induction false} ShortestStep(n: nat, d: nat, l: nat, u: nat, even: bool, blind: bool, low: bool, high: bool)
    requires d > 0 && l > 0
    requires low == MeetsLow(n % d, l, even, blind) && high == MeetsHigh(n % d, u, d, even)
    ensures var s, digit, r := Shortest(n, d, l, u, even, blind), n / d, n % d;
            s == if low || high then [LastOf(digit, r, d, low, high)]
                 else [digit] + Shortest(10 * r, d, 10 * l, 10 * u, even, blind)
  {
  }

  /** A digit that is not the last leaves room for the rest; and the generation ends. */
  lemma KeepsGoing(n: nat, d: nat, l: nat, u: nat, even: bool, blind: bool)
    requires d > 0 && l > 0 && Fits(n, d, u, even)
    requires !MeetsLow(n % d, l, even, blind) && !MeetsHigh(n % d, u, d, even)
    ensures Fits(10 * (n % d), d, 10 * u, even) && l < d
  {
  }

  /** Every generated digit is a decimal digit: the final increment never meets a 9. */
  lemma {:induction false} ShortestDigits(n: nat, d: nat, l: nat, u: nat, even: bool, blind: bool)
    requires d > 0 && l > 0 && u > 0 && Fits(n, d, u, even)
    ensures forall i :: 0 <= i < |Shortest(n, d, l, u, even, blind)| ==> Shortest(n, d, l, u, even, blind)[i] <= 9
    decreases if l < d then d - l else 0
  {
    QuotientRemainder(n, d);
    var digit, r := n / d, n % d;
    if !(MeetsLow(r, l, even, blind) || MeetsHigh(r, u, d, even)) {
      ShortestDigits(10 * r, d, 10 * l, 10 * u, even, blind);
    }
  }

  lemma DropCandidate(y: int, digit: nat, d: nat, p: nat)
    ensures (y - digit * p) * d == y * d - (digit * d) * p
  {
    Distribute(y, digit * p, d);
    MulReorder(digit, p, d);
  }

  lemma DropBound(n: nat, k: nat, r: nat, x: int, p: nat, q: nat)
    requires n == k + r && p == 10 * q
    ensures (n + x) * p == k * p + (10 * r + 10 * x) * q
  {
    Distribute(k, r + x, p);
    MulReorder(10, r + x, q);
  }

  /** Dropping the leading digit from a candidate and from the number moves the interval along. */
  lemma WithinStep(y: int, m: nat, n: nat, d: nat, l: nat, u: nat, even: bool, digit: nat, r: nat)
    requires m > 0 && n == digit * d + r
    ensures Within(y, m, n, d, l, u, even)
      <==> Within(y - digit * Pow(10, m), m - 1, 10 * r, d, 10 * l, 10 * u, even)
  {
    var p, q := Pow(10, m), Pow(10, m - 1);
    var k := digit * d;
    DropCandidate(y, digit, d, p);
    DropBound(n, k, r, -(l as int), p, q);
    DropBound(n, k, r, u, p, q);
  }

  lemma WithinLast(n: nat, d: nat, l: nat, u: nat, even: bool, blind: bool, digit: nat, r: nat, low: bool, high: bool)
    requires n == digit * d + r && r < d && l > 0 && u > 0
    requires low == MeetsLow(r, l, even, blind) && high == MeetsHigh(r, u, d, even) && (low || high)
    ensures Within(LastOf(digit, r, d, low, high), 0, n, d, l, u, even)
  {
    Distribute(digit, 1, d);
    assert Pow(10, 0) == 1;
  }

  /** The emitted decimal lies in the rounding interval. */
  lemma {:induction false} ShortestWithin(n: nat, d: nat, l: nat, u: nat, even: bool, blind: bool)
    requires d > 0 && l > 0 && u > 0 && Fits(n, d, u, even)
    ensures var s := Shortest(n, d, l, u, even, blind);
            |s| > 0 && Within(Number(s), |s| - 1, n, d, l, u, even)
    decreases if l < d then d - l else 0
  {
    hide Shortest, MeetsLow, MeetsHigh, Fits, Number, Within, LastOf, Pow;
    QuotientRemainder(n, d);
    var digit, r := n / d, n % d;
    var low, high := MeetsLow(r, l, even, blind), MeetsHigh(r, u, d, even);
    ShortestStep(n, d, l, u, even, blind, low, high);
    if low || high {
      NumberLast(LastOf(digit, r, d, low, high));
      WithinLast(n, d, l, u, even, blind, digit, r, low, high);
    } else {
      KeepsGoing(n, d, l, u, even, blind);
      ShortestWithin(10 * r, d, 10 * l, 10 * u, even, blind);
      var t := Shortest(10 * r, d, 10 * l, 10 * u, even, blind);
      NumberFirst(digit, t);
      WithinStep(Number([digit] + t), |t|, n, d, l, u, even, digit, r);
    }
  }

  /** Among decimals that end before the last but one emitted digit, only the lower end can be in the interval. */
  lemma {:induction false} EarlierExistsIff(n: nat, d: nat, l: nat, u: nat, even: bool, blind: bool, m: nat)
    requires d > 0 && l > 0 && u > 0 && l <= n
    requires m + 1 < |Shortest(n, d, l, u, even, blind)|
    ensures (exists y :: Within(y, m, n, d, l, u, even))
      <==> even && blind && ((n - l) * Pow(10, m)) % d == 0
    decreases m
  {
    QuotientRemainder(n, d);
    var digit, r := n / d, n % d;
    assert !(MeetsLow(r, l, even, blind) || MeetsHigh(r, u, d, even));
    if m == 0 {
      NoIntegerBetween(n, d, l, u, even, digit, r);
      assert Pow(10, 0) == 1;
      DivUnique(n - l, d, digit, r - l);
      if r == l { assert Within(digit, 0, n, d, l, u, even) <==> even; }
    } else {
      var m', n', l', u' := m - 1, 10 * r, 10 * l, 10 * u;
      EarlierExistsIff(n', d, l', u', even, blind, m');
      var p := digit * Pow(10, m);
      if y :| Within(y, m, n, d, l, u, even) {
        WithinStep(y, m, n, d, l, u, even, digit, r);
        assert Within(y - p, m', n', d, l', u', even);
      }
      if z :| Within(z, m', n', d, l', u', even) {
        assert z + p - p == z;
        WithinStep(z + p, m, n, d, l, u, even, digit, r);
        assert Within(z + p, m, n, d, l, u, even);
      }
      RemainderStep(n, d, l, digit, r, m);
    }
  }

  lemma NoIntegerBetween(n: nat, d: nat, l: nat, u: nat, even: bool, digit: nat, r: nat)
    requires n == digit * d + r && l <= r && r + u <= d && d > 0 && (even ==> r + u < d)
    ensures forall y :: Within(y, 0, n, d, l, u, even) ==> y == digit && r == l && even
  {
    assert Pow(10, 0) == 1;
    forall y | Within(y, 0, n, d, l, u, even)
      ensures y == digit && r == l && even
    {
      Distribute(digit, 1, d);
      if y > digit { MulMono(digit + 1, y, d); }
      if y < digit { MulMono(y + 1, digit, d); Distribute(y, 1, d); }
    }
  }

  lemma RemainderStep(n: nat, d: nat, l: nat, digit: nat, r: nat, m: nat)
    requires d > 0 && m > 0 && n == digit * d + r && l <= r
    ensures ((n - l) * Pow(10, m)) % d == 0 <==> ((10 * r - 10 * l) * Pow(10, m - 1)) % d == 0
  {
    var p, q := Pow(10, m), Pow(10, m - 1);
    var x: int := (10 * r - 10 * l) * q;
    assert (n - l) * p == (digit * p) * d + x by {
      Distribute(digit * d, r - l, p);
      MulReorder(digit, d, p);
      MulReorder(10, r - l, q);
    }
    SameRemainder((n - l) * p, digit * p, x, d);
  }

  lemma SameRemainder(n: int, k: int, x: int, d: int)
    requires d > 0 && n == k * d + x
    ensures n % d == x % d
  {
    Distribute(k, x / d, d);
    DivUnique(n, d, k + x / d, x % d);
  }

  lemma NotBelow(r: nat, d: nat, l: nat, u: nat, p: nat)
    requires r < l && p > 0 && (l + u) * p < d
    ensures ((r - l) * p) % d != 0
  {
    var x: int := (l - r) * p;
    MulMono(1, l - r, p);
    MulMono(l - r, l + u, p);
    assert (r - l) * p == -x by { Distribute(r, l, p); Distribute(l, r, p); }
    DivUnique(-x, d, -1, d - x);
  }

  lemma NotAbove(r: nat, d: nat, l: nat, u: nat, p: nat)
    requires r < d && r + u >= d && l > 0 && p > 0 && (l + u) * p < d
    ensures ((r - l) * p) % d != 0
  {
    var y: int := (d - r + l) * p;
    MulMono(1, d - r + l, p);
    MulMono(d - r + l, l + u, p);
    assert (r - l) * p == d * p - y by { Distribute(d, d - r + l, p); }
    Distribute(p, 1, d);
    DivUnique((r - l) * p, d, p - 1, d - y);
  }

  /** Before a decimal at the lower end is reached no digit meets a half-gap. */
  lemma {:induction false} NoStop(n: nat, d: nat, l: nat, u: nat, p: nat)
    requires d > 0 && l > 0 && u > 0 && l <= n && p > 0
    requires ((n - l) * p) % d == 0 && (l + u) * p < d
    ensures l <= n % d && n % d + u < d
  {
    QuotientRemainder(n, d);
    var digit, r := n / d, n % d;
    assert (n - l) * p == (digit * p) * d + (r - l) * p by {
      Distribute(digit * d, r - l, p);
      MulReorder(digit, d, p);
    }
    SameRemainder((n - l) * p, digit * p, (r - l) * p, d);
    if r < l { NotBelow(r, d, l, u, p); } else if r + u >= d { NotAbove(r, d, l, u, p); }
  }

  /** A digit that is not the last meets no half-gap. */
  lemma {:induction false} GoesOn(n: nat, d: nat, l: nat, u: nat, even: bool, blind: bool)
    requires d > 0 && l > 0 && |Shortest(n, d, l, u, even, blind)| > 1
    ensures l <= n % d && n % d + u <= d && (even ==> n % d + u < d)
    ensures Shortest(n, d, l, u, even, blind) == [n / d] + Shortest(10 * (n % d), d, 10 * l, 10 * u, even, blind)
  {
  }

  /** Clear of both half-gaps a digit is not the last. */
  lemma {:induction false} OneMore(n: nat, d: nat, l: nat, u: nat, even: bool, blind: bool)
    requires d > 0 && l > 0 && l <= n % d && n % d + u < d && blind
    ensures var t := Shortest(10 * (n % d), d, 10 * l, 10 * u, even, blind);
            |t| >= 1 && |Shortest(n, d, l, u, even, blind)| == 1 + |t|
  {
  }

  lemma {:induction false} LongEnough(n: nat, d: nat, l: nat, u: nat, even: bool, m: nat)
    requires d > 0 && l > 0 && u > 0 && l <= n && even
    requires ((n - l) * Pow(10, m)) % d == 0 && (l + u) * Pow(10, m) < d
    ensures m + 1 < |Shortest(n, d, l, u, even, true)|
    decreases m
  {
    hide Shortest;
    NoStop(n, d, l, u, Pow(10, m));
    OneMore(n, d, l, u, even, true);
    var r := n % d;
    if m > 0 {
      QuotientRemainder(n, d);
      RemainderStep(n, d, l, n / d, r, m);
      MulReorder(10, l + u, Pow(10, m - 1));
      LongEnough(10 * r, d, 10 * l, 10 * u, even, m - 1);
    }
  }

  lemma {:induction false} NarrowGap(n: nat, d: nat, l: nat, u: nat, even: bool, blind: bool, m: nat)
    requires d > 0 && l > 0 && u > 0 && l <= n && even
    requires m + 1 < |Shortest(n, d, l, u, even, blind)| && ((n - l) * Pow(10, m)) % d == 0
    ensures (l + u) * Pow(10, m) < d
    decreases m
  {
    hide Shortest;
    GoesOn(n, d, l, u, even, blind);
    QuotientRemainder(n, d);
    var digit, r := n / d, n % d;
    if m == 0 {
      assert Pow(10, 0) == 1;
      DivUnique(n - l, d, digit, r - l);
    } else {
      RemainderStep(n, d, l, digit, r, m);
      NarrowGap(10 * r, d, 10 * l, 10 * u, even, blind, m - 1);
      MulReorder(10, l + u, Pow(10, m - 1));
    }
  }

  /**
   A decimal with m places lies in the interval although more than m + 1 digits are emitted, if and
   only if the significand is even, the comparison is blind to equality, the lower end of the
   interval is itself such a decimal, and the interval is narrower than one unit of its last place.
   */
  lemma {:induction false} ShorterExistsIff(n: nat, d: nat, l: nat, u: nat, even: bool, blind: bool, m: nat)
    requires d > 0 && l > 0 && u > 0 && l <= n
    ensures m + 1 < |Shortest(n, d, l, u, even, blind)| && (exists y :: Within(y, m, n, d, l, u, even))
      <==> even && blind && ((n - l) * Pow(10, m)) % d == 0 && (l + u) * Pow(10, m) < d
  {
    hide Shortest, Within;
    if m + 1 < |Shortest(n, d, l, u, even, blind)| {
      EarlierExistsIff(n, d, l, u, even, blind, m);
      if even && ((n - l) * Pow(10, m)) % d == 0 { NarrowGap(n, d, l, u, even, blind, m); }
    } else if even && blind && ((n - l) * Pow(10, m)) % d == 0 && (l + u) * Pow(10, m) < d {
      LongEnough(n, d, l, u, even, m);
    }
  }

  /** No shorter decimal lies in the interval. */
  ghost predicate IsShortest(s: seq<nat>, n: nat, d: nat, l: nat, u: nat, even: bool) {
    forall m: nat, y: int :: m + 1 < |s| ==> !Within(y, m, n, d, l, u, even)
  }

  /** The lower end of the interval is a decimal with m places and the interval is narrower than one of them. */
  ghost predicate EndsOnDecimal(m: nat, n: nat, d: nat, l: nat, u: nat)
    requires d > 0
  {
    ((n - l) * Pow(10, m)) % d == 0 && (l + u) * Pow(10, m) < d
  }

  /** Exactly when the output is the shortest decimal of its interval. */
  lemma {:induction false} ShortestIff(n: nat, d: nat, l: nat, u: nat, even: bool, blind: bool)
    requires d > 0 && l > 0 && u > 0 && l <= n
    ensures IsShortest(Shortest(n, d, l, u, even, blind), n, d, l, u, even)
      <==> !(even && blind && exists m: nat :: EndsOnDecimal(m, n, d, l, u))
  {
    hide Shortest, Within;
    var s := Shortest(n, d, l, u, even, blind);
    if even && blind && exists m: nat :: EndsOnDecimal(m, n, d, l, u) {
      var m: nat :| EndsOnDecimal(m, n, d, l, u);
      ShorterExistsIff(n, d, l, u, even, blind, m);
      var y :| Within(y, m, n, d, l, u, even);
      assert !IsShortest(s, n, d, l, u, even);
    } else {
      forall m: nat, y: int | m + 1 < |s|
        ensures !Within(y, m, n, d, l, u, even)
      {
        ShorterExistsIff(n, d, l, u, even, blind, m);
        assert !(even && blind && EndsOnDecimal(m, n, d, l, u));
      }
    }
  }

  /** y / 10^m is at most half a unit of its last place away from n/d. */
  ghost predicate Nearest(y: int, m: nat, n: nat, d: nat) {
    -(d as int) <= 2 * (y * d - n * Pow(10, m)) <= d
  }

  /** With equal half-gaps the last digit leaves at most half a unit. */
  lemma {:induction false} NearestLast(n: nat, digit: nat, r: nat, d: nat, l: nat, even: bool, blind: bool,
                                       low: bool, high: bool)
    requires low == MeetsLow(r, l, even, blind) && high == MeetsHigh(r, l, d, even)
    requires n == digit * d + r && r < d && (low || high)
    ensures Nearest(LastOf(digit, r, d, low, high), 0, n, d)
  {
    Distribute(digit, 1, d);
    assert Pow(10, 0) == 1;
  }

  lemma {:induction false} NearestStep(n: nat, d: nat, digit: nat, r: nat, m: nat, y: nat)
    requires n == digit * d + r && m > 0 && Nearest(y, m - 1, 10 * r, d)
    ensures Nearest(digit * Pow(10, m) + y, m, n, d)
  {
    var p, q := Pow(10, m), Pow(10, m - 1);
    Distribute(digit * p, y, d);
    MulReorder(digit, p, d);
    Distribute(digit * d, r, p);
    MulReorder(10, r, q);
  }

  /** With equal half-gaps the emitted decimal is also the nearest one of its length. */
  lemma {:induction false} ShortestNearest(n: nat, d: nat, l: nat, even: bool, blind: bool)
    requires d > 0 && l > 0 && Fits(n, d, l, even)
    ensures var s := Shortest(n, d, l, l, even, blind); |s| > 0 && Nearest(Number(s), |s| - 1, n, d)
    decreases if l < d then d - l else 0
  {
    hide Shortest, MeetsLow, MeetsHigh, Fits, Number, Nearest, LastOf, Pow;
    QuotientRemainder(n, d);
    var digit, r := n / d, n % d;
    var low, high := MeetsLow(r, l, even, blind), MeetsHigh(r, l, d, even);
    ShortestStep(n, d, l, l, even, blind, low, high);
    if low || high {
      NumberLast(LastOf(digit, r, d, low, high));
      NearestLast(n, digit, r, d, l, even, blind, low, high);
    } else {
      KeepsGoing(n, d, l, l, even, blind);
      ShortestNearest(10 * r, d, 10 * l, even, blind);
      var t := Shortest(10 * r, d, 10 * l, 10 * l, even, blind);
      NumberFirst(digit, t);
      NearestStep(n, d, digit, r, |t|, Number(t));
    }
  }

  /** y / 10^m minus n/d, times d * 10^m. */
  function Off(y: int, m: nat, n: nat, d: nat): int { y * d - n * Pow(10, m) }

  function Abs(x: int): nat { if x < 0 then -x else x }

  /** The lower end of the interval, when the comparison is blind to it. */
  ghost predicate Unseen(z: int, m: nat, n: nat, d: nat, l: nat, even: bool, blind: bool) {
    even && blind && Off(z, m, n, d) + l * Pow(10, m) == 0
  }

  /** z is further away than y, or just as far and y is even. */
  ghost predicate Beats(y: int, z: int, m: nat, n: nat, d: nat) {
    Abs(Off(y, m, n, d)) < Abs(Off(z, m, n, d)) || (Abs(Off(y, m, n, d)) == Abs(Off(z, m, n, d)) && y % 2 == 0)
  }

  /** Of all decimals with m places in the interval y is the closest to n/d, and the even one of two. */
  ghost predicate Closest(y: int, m: nat, n: nat, d: nat, l: nat, u: nat, even: bool, blind: bool) {
    forall z: int {:trigger Within(z, m, n, d, l, u, even)} ::
      Within(z, m, n, d, l, u, even) && z != y && !Unseen(z, m, n, d, l, even, blind) ==> Beats(y, z, m, n, d)
  }

  /** How far integers other than the two around n/d are from it. */
  lemma OffInteger(z: int, n: nat, d: nat, digit: nat, r: nat)
    requires n == digit * d + r && r < d
    ensures z < digit ==> Off(z, 0, n, d) + r + d <= 0
    ensures z == digit ==> Off(z, 0, n, d) + r == 0
    ensures z == digit + 1 ==> Off(z, 0, n, d) + r == d
    ensures z > digit + 1 ==> Off(z, 0, n, d) + r >= 2 * d
  {
    assert Pow(10, 0) == 1;
    if z < digit {
      MulMono(z, digit - 1, d);
      Distribute(digit, -1, d);
    } else {
      if z > digit + 1 { MulMono(digit + 2, z, d); }
      Distribute(digit, 2, d);
      Distribute(digit, 1, d);
    }
  }

  lemma WithinOff(z: int, n: nat, d: nat, l: nat, u: nat, even: bool)
    requires Within(z, 0, n, d, l, u, even)
    ensures Off(z, 0, n, d) + l >= 0 && Off(z, 0, n, d) <= u
    ensures !even ==> Off(z, 0, n, d) + l > 0 && Off(z, 0, n, d) < u
  {
    assert Pow(10, 0) == 1;
  }

  lemma {:induction false} ClosestLast(n: nat, d: nat, l: nat, u: nat, even: bool, blind: bool, digit: nat, r: nat,
                                       low: bool, high: bool)
    requires n == digit * d + r && r < d && l > 0 && u > 0 && (low || high)
    requires low == MeetsLow(r, l, even, blind) && high == MeetsHigh(r, u, d, even)
    ensures Closest(LastOf(digit, r, d, low, high), 0, n, d, l, u, even, blind)
  {
    hide Within, Off;
    var y := LastOf(digit, r, d, low, high);
    assert Pow(10, 0) == 1;
    OffInteger(y, n, d, digit, r);
    forall z | Within(z, 0, n, d, l, u, even) && z != y && !Unseen(z, 0, n, d, l, even, blind)
      ensures Beats(y, z, 0, n, d)
    {
      OffInteger(z, n, d, digit, r);
      WithinOff(z, n, d, l, u, even);
    }
  }

  /** Dropping the leading digit keeps distances, parity and the lower end. */
  lemma OffStep(y: int, m: nat, n: nat, d: nat, digit: nat, r: nat, l: nat)
    requires m > 0 && n == digit * d + r
    ensures Off(y, m, n, d) == Off(y - digit * Pow(10, m), m - 1, 10 * r, d)
    ensures l * Pow(10, m) == (10 * l) * Pow(10, m - 1)
    ensures (digit * Pow(10, m)) % 2 == 0
  {
    var p, q := Pow(10, m), Pow(10, m - 1);
    DropCandidate(y, digit, d, p);
    DropBound(n, digit * d, r, 0, p, q);
    MulReorder(10, l, q);
    EvenTimes(digit, p, 5 * q);
  }

  lemma EvenTimes(digit: nat, p: nat, half: nat)
    requires p == 2 * half
    ensures (digit * p) % 2 == 0
  {
    MulReorder(2, digit, half);
    DivUnique(digit * p, 2, digit * half, 0);
  }

  lemma {:induction false} ClosestStep(y: nat, m: nat, n: nat, d: nat, l: nat, u: nat, even: bool, blind: bool,
                                       digit: nat, r: nat)
    requires m > 0 && n == digit * d + r
    requires Closest(y, m - 1, 10 * r, d, 10 * l, 10 * u, even, blind)
    ensures Closest(digit * Pow(10, m) + y, m, n, d, l, u, even, blind)
  {
    hide Within, Off, Pow;
    var p := digit * Pow(10, m);
    OffStep(p + y, m, n, d, digit, r, l);
    forall z | Within(z, m, n, d, l, u, even) && z != p + y && !Unseen(z, m, n, d, l, even, blind)
      ensures Beats(p + y, z, m, n, d)
    {
      WithinStep(z, m, n, d, l, u, even, digit, r);
      OffStep(z, m, n, d, digit, r, l);
      assert Beats(y, z - p, m - 1, 10 * r, d);
    }
  }

  /**
   The emitted decimal is the closest one of its length inside the interval, whatever the two
   half-gaps, except that a blind comparison may pass over the lower end.
   */
  lemma {:induction false} ShortestClosest(n: nat, d: nat, l: nat, u: nat, even: bool, blind: bool)
    requires d > 0 && l > 0 && u > 0 && Fits(n, d, u, even)
    ensures var s := Shortest(n, d, l, u, even, blind);
            |s| > 0 && Closest(Number(s), |s| - 1, n, d, l, u, even, blind)
    decreases if l < d then d - l else 0
  {
    hide Shortest, MeetsLow, MeetsHigh, Fits, Number, Closest, LastOf, Pow;
    QuotientRemainder(n, d);
    var digit, r := n / d, n % d;
    var low, high := MeetsLow(r, l, even, blind), MeetsHigh(r, u, d, even);
    ShortestStep(n, d, l, u, even, blind, low, high);
    if low || high {
      NumberLast(LastOf(digit, r, d, low, high));
      ClosestLast(n, d, l, u, even, blind, digit, r, low, high);
    } else {
      KeepsGoing(n, d, l, u, even, blind);
      ShortestClosest(10 * r, d, 10 * l, 10 * u, even, blind);
      var t := Shortest(10 * r, d, 10 * l, 10 * u, even, blind);
      NumberFirst(digit, t);
      ClosestStep(Number(t), |t|, n, d, l, u, even, blind, digit, r);
    }
  }

  /** A fraction whose interval starts at the four-digit 7168; the blind comparison goes on past it. */
  lemma BlindWitness()
    ensures var n, d, h := 8344650268554688 * 2 * 0x2_0000_0000, 2 * 10_000_000_000_000_000_000_000_000, 0x2_0000_0000;
            && Fits(n, d, h, true)
            && Within(7168, 3, n, d, h, h, true)
            && |Shortest(n, d, h, h, true, true)| > 4
  {
    var n, d, h := 8344650268554688 * 2 * 0x2_0000_0000, 2 * 10_000_000_000_000_000_000_000_000, 0x2_0000_0000;
    assert Pow(10, 3) == 1000;
    var r0 := n - 7 * d;
    var r1 := 10 * r0 - 1 * d;
    var r2 := 10 * r1 - 6 * d;
    var r3 := 10 * r2 - 8 * d;
    DivUnique(n, d, 7, r0);
    DivUnique(10 * r0, d, 1, r1);
    DivUnique(10 * r1, d, 6, r2);
    DivUnique(10 * r2, d, 8, r3);
    assert r3 == 1000 * h;
    var s3 := Shortest(10 * r2, d, 1000 * h, 1000 * h, true, true);
    assert |s3| == 1 + |Shortest(10 * r3, d, 10000 * h, 10000 * h, true, true)|;
    assert |Shortest(10 * r3, d, 10000 * h, 10000 * h, true, true)| >= 1;
    assert |Shortest(10 * r1, d, 100 * h, 100 * h, true, true)| == 1 + |s3|;
    assert |Shortest(10 * r0, d, 10 * h, 10 * h, true, true)| == 2 + |s3|;
  }
}
