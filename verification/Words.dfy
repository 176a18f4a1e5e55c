/**
 Machine words, powers, and the value of a little-endian sequence of 32-bit limbs.
 The literals 0x1_0000_0000 and 0x1_0000_0000_0000_0000 are 2^32 and 2^64.
 */
module Words {
  /** uint32_t */
  type Bigit = x: int | 0 <= x < 0x1_0000_0000
  /** uint64_t; a variable of this type is proved never to wrap */
  type Word = x: int | 0 <= x < 0x1_0000_0000_0000_0000

  function Min(a: int, b: int): int { if b < a then b else a }

  function Pow(b: nat, e: nat): (r: nat)
    ensures b > 0 ==> r > 0
  {
    if e == 0 then 1 else b * Pow(b, e - 1)
  }

  /** 2^(32e), the weight of limb e. */
  function Weight(e: nat): (r: nat)
    ensures r > 0
  {
    if e == 0 then 1 else 0x1_0000_0000 * Weight(e - 1)
  }

  lemma {:induction false} PowAdd(b: nat, m: nat, n: nat)
    ensures Pow(b, m + n) == Pow(b, m) * Pow(b, n)
  {
    if m == 0 {
    } else {
      PowAdd(b, m - 1, n);
      MulAssoc(b, Pow(b, m - 1), Pow(b, n));
    }
  }

  lemma {:induction false} WeightAdd(m: nat, n: nat)
    ensures Weight(m + n) == Weight(m) * Weight(n)
  {
    if m == 0 {
    } else {
      WeightAdd(m - 1, n);
      MulAssoc(0x1_0000_0000, Weight(m - 1), Weight(n));
    }
  }

  lemma {:induction false} WeightMonotone(m: nat, n: nat)
    requires m <= n
    ensures Weight(m) <= Weight(n)
  {
    if m < n { WeightMonotone(m, n - 1); }
  }

  lemma {:induction false} WeightIsPow(e: nat)
    ensures Weight(e) == Pow(2, 32 * e)
  {
    if e > 0 {
      WeightIsPow(e - 1);
      PowTwo32();
      PowAdd(2, 32, 32 * (e - 1));
    }
  }

  lemma PowTwo32()
    ensures Pow(2, 32) == 0x1_0000_0000
  {
    assert Pow(2, 4) == 16;
    PowAdd(2, 4, 4);
    PowAdd(2, 8, 8);
    PowAdd(2, 16, 16);
  }

  lemma {:induction false} PowMulBase(a: nat, b: nat, e: nat)
    ensures Pow(a * b, e) == Pow(a, e) * Pow(b, e)
  {
    if e > 0 {
      PowMulBase(a, b, e - 1);
      var p, q := Pow(a, e - 1), Pow(b, e - 1);
      calc {
        (a * b) * (p * q);
        { MulAssoc(a, b, p * q); MulAssoc(b, p, q); MulAssoc(p, b, q); MulAssoc(a, p, b * q); }
        (a * p) * (b * q);
      }
    }
  }

  lemma {:induction false} PowMonotone(b: nat, m: nat, n: nat)
    requires b > 0 && m <= n
    ensures Pow(b, m) <= Pow(b, n)
  {
    PowAdd(b, m, n - m);
    MulMono(1, Pow(b, n - m), Pow(b, m));
  }

  lemma MulAssoc(a: int, b: int, c: int)
    ensures (a * b) * c == a * (b * c)
  {
  }

  lemma MulReorder(v: int, x: int, p: int)
    ensures (v * x) * p == (v * p) * x
  {
    assert x * p == p * x;
    MulAssoc(v, x, p);
    MulAssoc(v, p, x);
  }

  lemma MulMono(a: int, b: int, c: int)
    requires a <= b && 0 <= c
    ensures a * c <= b * c
    ensures c * a <= c * b
  {
  }

  lemma MulStrict(a: int, b: int, c: int)
    requires a < b && 0 < c
    ensures a * c < b * c
    ensures c * a < c * b
  {
  }

  lemma Distribute(a: int, b: int, c: int)
    ensures (a + b) * c == a * c + b * c
    ensures (a - b) * c == a * c - b * c
    ensures c * (a + b) == c * a + c * b
  {
  }

  /** A quotient and remainder within bounds are the quotient and remainder. */
  lemma DivUnique(n: int, d: int, q: int, r: int)
    requires 0 <= r < d && n == q * d + r
    ensures n / d == q && n % d == r
  {
    var q', r' := n / d, n % d;
    assert (q - q') * d == r' - r by { Distribute(q, q', d); }
    if q > q' { MulMono(1, q - q', d); } else if q < q' { MulMono(1, q' - q, d); Distribute(q', q, d); }
  }

  lemma Append<T>(s: seq<T>, x: T, t: seq<T>)
    ensures (s + [x]) + t == s + ([x] + t)
  {
  }

  /** The number a limb sequence stands for, least significant limb first. */
  function Val(s: seq<Bigit>): nat {
    if s == [] then 0 else s[0] + 0x1_0000_0000 * Val(s[1..])
  }

  lemma {:induction false} ValConcat(s: seq<Bigit>, t: seq<Bigit>)
    ensures Val(s + t) == Val(s) + Weight(|s|) * Val(t)
  {
    if s == [] {
      assert s + t == t;
    } else {
      assert (s + t)[1..] == s[1..] + t;
      ValConcat(s[1..], t);
      MulAssoc(0x1_0000_0000, Weight(|s| - 1), Val(t));
    }
  }

  lemma {:induction false} ValBound(s: seq<Bigit>)
    ensures Val(s) < Weight(|s|)
  {
    if s != [] { ValBound(s[1..]); }
  }

  lemma ValSplit(s: seq<Bigit>, i: nat)
    requires i <= |s|
    ensures Val(s) == Val(s[..i]) + Weight(i) * Val(s[i..])
  {
    assert s == s[..i] + s[i..];
    ValConcat(s[..i], s[i..]);
  }

  lemma ValSnoc(s: seq<Bigit>, i: nat)
    requires i < |s|
    ensures Val(s[..i + 1]) == Val(s[..i]) + Weight(i) * s[i]
  {
    assert s[..i + 1] == s[..i] + [s[i]];
    ValConcat(s[..i], [s[i]]);
    assert Val([s[i]]) == s[i];
  }

  /** The top limb of a sequence is nonzero exactly when the value reaches the top limb's weight. */
  lemma {:induction false} TopNonzero(s: seq<Bigit>)
    requires |s| > 0
    ensures s[|s| - 1] != 0 <==> Val(s) >= Weight(|s| - 1)
  {
    if |s| == 1 { assert s[1..] == []; } else { TopNonzero(s[1..]); }
  }
}
