/**
 Limb-by-limb arithmetic of the bundled fmt's `bigint` on sequences. Each function mirrors one of
 the class's loops; the lemma beside it says which number the limbs stand for.
 A pair (s, e) of limbs and limb exponent stands for Scaled(s, e).
 */
module Limbs {
  import opened Words

  ghost function Scaled(s: seq<Bigit>, e: nat): nat {
    if e == 0 then Val(s) else 0x1_0000_0000 * Scaled(s, e - 1)
  }

  lemma {:induction false} ScaledIsProduct(s: seq<Bigit>, e: nat)
    ensures Scaled(s, e) == Val(s) * Weight(e)
  {
    if e > 0 {
      ScaledIsProduct(s, e - 1);
      MulReorder(0x1_0000_0000, Val(s), Weight(e - 1));
    }
  }

  lemma {:induction false} ScaledOfVal(s: seq<Bigit>, r: seq<Bigit>, e: nat)
    requires Val(s) == Val(r)
    ensures Scaled(s, e) == Scaled(r, e)
  {
    if e > 0 { ScaledOfVal(s, r, e - 1); }
  }

  /** A nonzero top limb, or a single limb. */
  ghost predicate NormalLimbs(s: seq<Bigit>) {
    |s| == 1 || (|s| > 1 && s[|s| - 1] != 0)
  }

  lemma ZeroIffTop(s: seq<Bigit>)
    requires NormalLimbs(s)
    ensures s[|s| - 1] != 0 <==> Val(s) > 0
  {
    TopNonzero(s);
    if |s| == 1 { assert s[1..] == []; }
  }

  /** A number whose top limb is nonzero lies between the weights of its limb count. */
  lemma Magnitude(s: seq<Bigit>, e: nat)
    requires |s| > 0
    ensures Scaled(s, e) < Weight(|s| + e)
    ensures s[|s| - 1] != 0 ==> Scaled(s, e) >= Weight(|s| + e - 1)
    ensures Scaled(s, e) == 0 <==> Val(s) == 0
  {
    ScaledIsProduct(s, e);
    TopNonzero(s);
    ValBound(s);
    WeightAdd(|s|, e);
    WeightAdd(|s| - 1, e);
    MulStrict(Val(s), Weight(|s|), Weight(e));
    if s[|s| - 1] != 0 { MulMono(Weight(|s| - 1), Val(s), Weight(e)); }
    if Val(s) != 0 { MulMono(1, Val(s), Weight(e)); }
  }

  /** More limbs, larger number. */
  lemma LimbCountOrder(s: seq<Bigit>, e: nat, t: seq<Bigit>, f: nat)
    requires |s| > 0 && |t| > 0 && t[|t| - 1] != 0
    requires |s| + e < |t| + f
    ensures Scaled(s, e) < Scaled(t, f)
  {
    Magnitude(s, e);
    Magnitude(t, f);
    WeightMonotone(|s| + e, |t| + f - 1);
  }

  // ---- multiplication by a machine word ----

  function TimesDigit(a: Bigit, value: Word, carry: Word): Bigit {
    (a * (value % 0x1_0000_0000) + carry % 0x1_0000_0000) % 0x1_0000_0000
  }

  function TimesCarry(a: Bigit, value: Word, carry: Word): int {
    a * (value / 0x1_0000_0000)
      + (a * (value % 0x1_0000_0000) + carry % 0x1_0000_0000) / 0x1_0000_0000
      + carry / 0x1_0000_0000
  }

  lemma WideFactor(a: int, lo: int, hi: int)
    ensures a * (lo + 0x1_0000_0000 * hi) == a * lo + 0x1_0000_0000 * (a * hi)
  {
    Distribute(lo, 0x1_0000_0000 * hi, a);
    MulReorder(0x1_0000_0000, hi, a);
  }

  /** One limb of a product: nothing leaves 64 bits and nothing is lost. */
  lemma TimesLimb(a: Bigit, value: Word, carry: Word)
    ensures 0 <= a * (value % 0x1_0000_0000) + carry % 0x1_0000_0000 < 0x1_0000_0000_0000_0000
    ensures 0 <= TimesCarry(a, value, carry) < 0x1_0000_0000_0000_0000
    ensures TimesDigit(a, value, carry) + 0x1_0000_0000 * TimesCarry(a, value, carry) == a * value + carry
  {
    var lo, hi := value % 0x1_0000_0000, value / 0x1_0000_0000;
    ProductFits(a, lo);
    ProductFits(a, hi);
    WideFactor(a, lo, hi);
  }

  function CarryLimbs(carry: nat): seq<Bigit> {
    if carry == 0 then [] else [carry % 0x1_0000_0000] + CarryLimbs(carry / 0x1_0000_0000)
  }

  lemma {:induction false} CarryLimbsValue(carry: nat)
    ensures Val(CarryLimbs(carry)) == carry
    ensures carry != 0 ==> CarryLimbs(carry) != [] && CarryLimbs(carry)[|CarryLimbs(carry)| - 1] != 0
  {
    if carry != 0 { CarryLimbsValue(carry / 0x1_0000_0000); }
  }

  function Times(s: seq<Bigit>, value: Word, carry: Word): seq<Bigit> {
    if s == [] then CarryLimbs(carry)
    else
      TimesLimb(s[0], value, carry);
      [TimesDigit(s[0], value, carry)] + Times(s[1..], value, TimesCarry(s[0], value, carry))
  }

  lemma TimesStep(s: seq<Bigit>, value: Word, carry: Word)
    requires s != []
    ensures 0 <= TimesCarry(s[0], value, carry) < 0x1_0000_0000_0000_0000
    ensures Times(s, value, carry)
         == [TimesDigit(s[0], value, carry)] + Times(s[1..], value, TimesCarry(s[0], value, carry))
  {
    TimesLimb(s[0], value, carry);
  }

  lemma TimesDone(value: Word, carry: Word)
    ensures Times([], value, carry) == CarryLimbs(carry)
  {
  }

  lemma {:induction false} TimesValue(s: seq<Bigit>, value: Word, carry: Word)
    ensures Val(Times(s, value, carry)) == Val(s) * value + carry
    ensures |Times(s, value, carry)| >= |s|
    ensures |Times(s, value, carry)| > |s| ==> Times(s, value, carry)[|Times(s, value, carry)| - 1] != 0
  {
    if s == [] {
      CarryLimbsValue(carry);
    } else {
      TimesLimb(s[0], value, carry);
      TimesValue(s[1..], value, TimesCarry(s[0], value, carry));
      Distribute(s[0], 0x1_0000_0000 * Val(s[1..]), value);
      MulAssoc(0x1_0000_0000, Val(s[1..]), value);
    }
  }

  /** A nonzero factor keeps a normal number normal. */
  lemma ProductNormal(s: seq<Bigit>, r: seq<Bigit>, v: nat)
    requires NormalLimbs(s) && v > 0 && |r| >= |s|
    requires Val(r) == Val(s) * v
    requires |r| > |s| ==> r[|r| - 1] != 0
    ensures NormalLimbs(r)
    ensures r[|r| - 1] != 0 <==> s[|s| - 1] != 0
  {
    ZeroIffTop(s);
    TopNonzero(s);
    TopNonzero(r);
    MulMono(1, v, Val(s));
  }

  // ---- shifts ----

  /** The bits of a limb that a left shift moves into the next limb. */
  function ShiftOut(a: Bigit, shift: nat): Bigit
    requires 0 < shift < 32
  {
    var hi := Pow(2, 32 - shift);
    ShiftLimb(a, Pow(2, shift), hi, shift);
    a / hi
  }

  /** The bits of a limb that a left shift keeps in it. */
  function ShiftKeep(a: Bigit, shift: nat): Bigit {
    (a * Pow(2, shift)) % 0x1_0000_0000
  }

  lemma ShiftLimb(a: Bigit, lo: nat, hi: nat, shift: nat)
    requires 0 < shift < 32 && lo == Pow(2, shift) && hi == Pow(2, 32 - shift)
    ensures 0 <= a / hi < lo <= 0x1_0000_0000
    ensures (a * lo) % 0x1_0000_0000 + 0x1_0000_0000 * (a / hi) == a * lo
    ensures (a * lo) % 0x1_0000_0000 <= 0x1_0000_0000 - lo
  {
    PowAdd(2, shift, 32 - shift);
    PowTwo32();
    LimbSplit(a, lo, hi);
  }

  lemma LimbSplit(a: Bigit, lo: nat, hi: nat)
    requires lo > 0 && hi > 0 && lo * hi == 0x1_0000_0000
    ensures 0 <= a / hi < lo <= 0x1_0000_0000
    ensures (a * lo) % 0x1_0000_0000 + 0x1_0000_0000 * (a / hi) == a * lo
    ensures (a * lo) % 0x1_0000_0000 <= 0x1_0000_0000 - lo
  {
    var q, r := a / hi, a % hi;
    MulReorder(hi, q, lo);
    Distribute(hi * q, r, lo);
    MulMono(r, hi - 1, lo);
    MulMono(1, hi, lo);
    Distribute(hi, 1, lo);
    DivUnique(a * lo, 0x1_0000_0000, q, r * lo);
    if q >= lo { MulMono(lo, q, hi); }
  }

  /** Nothing is lost in a limb shift, and the incoming bits fit below the kept ones. */
  lemma ShiftStep(a: Bigit, shift: nat)
    requires 0 < shift < 32
    ensures ShiftKeep(a, shift) + 0x1_0000_0000 * ShiftOut(a, shift) == a * Pow(2, shift)
    ensures ShiftOut(a, shift) < Pow(2, shift) <= 0x1_0000_0000
    ensures ShiftKeep(a, shift) <= 0x1_0000_0000 - Pow(2, shift)
  {
    ShiftLimb(a, Pow(2, shift), Pow(2, 32 - shift), shift);
  }

  function ShiftLimbs(s: seq<Bigit>, shift: nat, carry: Bigit): seq<Bigit>
    requires 0 < shift < 32 && carry < Pow(2, shift)
  {
    if s == [] then (if carry == 0 then [] else [carry])
    else
      ShiftStep(s[0], shift);
      [ShiftKeep(s[0], shift) + carry] + ShiftLimbs(s[1..], shift, ShiftOut(s[0], shift))
  }

  lemma {:induction false} ShiftValue(s: seq<Bigit>, shift: nat, carry: Bigit)
    requires 0 < shift < 32 && carry < Pow(2, shift)
    ensures var r := ShiftLimbs(s, shift, carry);
            && Val(r) == Val(s) * Pow(2, shift) + carry
            && |r| >= |s| && (|r| > |s| ==> r[|r| - 1] != 0)
  {
    if s == [] {
      if carry != 0 { assert ShiftLimbs(s, shift, carry)[1..] == []; }
    } else {
      ShiftStep(s[0], shift);
      ShiftValue(s[1..], shift, ShiftOut(s[0], shift));
      Distribute(s[0], 0x1_0000_0000 * Val(s[1..]), Pow(2, shift));
      MulAssoc(0x1_0000_0000, Val(s[1..]), Pow(2, shift));
    }
  }

  /** Shifting by n bits as a limb shift by n / 32 and a multiplication by 2^(n % 32). */
  lemma ShiftedValue(s: seq<Bigit>, r: seq<Bigit>, e: nat, n: nat)
    requires Val(r) == Val(s) * Pow(2, n % 32)
    ensures Scaled(r, e + n / 32) == Scaled(s, e) * Pow(2, n)
  {
    ScaledIsProduct(s, e);
    ScaledIsProduct(r, e + n / 32);
    var v, a, b, c := Val(s), Pow(2, n % 32), Weight(n / 32), Weight(e);
    WeightAdd(e, n / 32);
    WeightIsPow(n / 32);
    PowAdd(2, n % 32, 32 * (n / 32));
    MulAssoc(v * a, c, b);
    MulReorder(v, a, c);
    MulAssoc(v * c, a, b);
  }

  // ---- subtraction ----

  /**
   Limbwise difference of s and the shorter or equally long t. After the last limb of t a pending
   borrow is taken from the next limb of s, and only from that one: a zero there is decremented
   twice, from 2^32 on.
   */
  function Minus(s: seq<Bigit>, t: seq<Bigit>, borrow: nat): seq<Bigit>
    requires |t| <= |s| && borrow <= 1
  {
    if t != [] then
      var d := s[0] - t[0] - borrow;
      if d < 0 then [d + 0x1_0000_0000] + Minus(s[1..], t[1..], 1) else [d] + Minus(s[1..], t[1..], 0)
    else if borrow == 1 && s != [] then [if s[0] > 0 then s[0] - 1 else 0xffff_fffe] + s[1..]
    else s
  }

  /** The limbs of t leave a borrow and the next limb of s is zero. */
  ghost predicate Stuck(s: seq<Bigit>, t: seq<Bigit>, borrow: nat) {
    |t| < |s| && Val(s[..|t|]) < Val(t) + borrow && s[|t|] == 0
  }

  lemma MinusDone(s: seq<Bigit>)
    ensures Minus(s, [], 0) == s
  {
  }

  lemma MinusStep(s: seq<Bigit>, t: seq<Bigit>, borrow: nat)
    requires 0 < |t| <= |s| && borrow <= 1 && Val(s) >= Val(t) + borrow
    ensures var diff: int := s[0] - t[0] - borrow;
            && Minus(s, t, borrow) == [if diff < 0 then diff + 0x1_0000_0000 else diff]
                                        + Minus(s[1..], t[1..], if diff < 0 then 1 else 0)
            && Val(s[1..]) >= Val(t[1..]) + if diff < 0 then 1 else 0
  {
  }

  /** The difference is exact if and only if the borrow does not get stuck. */
  lemma {:induction false} MinusExactIff(s: seq<Bigit>, t: seq<Bigit>, borrow: nat)
    requires |t| <= |s| && borrow <= 1 && Val(s) >= Val(t) + borrow
    ensures |Minus(s, t, borrow)| == |s|
    ensures Val(Minus(s, t, borrow)) == Val(s) - Val(t) - borrow <==> !Stuck(s, t, borrow)
  {
    if t == [] {
      assert s[..0] == [];
    } else {
      MinusExactIff(s[1..], t[1..], if s[0] - t[0] - borrow < 0 then 1 else 0);
      assert s[..|t|][1..] == s[1..][..|t| - 1];
    }
  }

  /** With at most one spare limb the borrow never gets stuck. */
  lemma {:induction false} NeverStuck(s: seq<Bigit>, t: seq<Bigit>, borrow: nat)
    requires |t| <= |s| <= |t| + 1 && Val(s) >= Val(t) + borrow
    ensures !Stuck(s, t, borrow)
  {
    if |s| > |t| && s[|t|] == 0 {
      ValSnoc(s, |t|);
      assert s[..|t| + 1] == s;
    }
  }

  /** 2^64 - 1 from limbs: the second limb is zero when the borrow arrives, and the third keeps its 1. */
  lemma MinusGetsStuck()
    ensures Val([0, 0, 1]) - Val([1]) == 0xffff_ffff_ffff_ffff
    ensures Minus([0, 0, 1], [1], 0) == [0xffff_ffff, 0xffff_fffe, 1]
  {
    var s: seq<Bigit> := [0, 0, 1];
    assert s[1..] == [0, 1] && s[1..][1..] == [1] && [1 as Bigit][1..] == [];
  }

  /** A limb-aligned minuend that is not smaller covers every limb of the subtrahend. */
  lemma SubtractionFits(s: seq<Bigit>, e: nat, t: seq<Bigit>, f: nat)
    requires |s| > 0 && |t| > 0 && t[|t| - 1] != 0 && e <= f
    requires Scaled(s, e) >= Scaled(t, f)
    ensures f - e + |t| <= |s|
    ensures Val(s[f - e..]) >= Val(t)
  {
    if |s| + e < |t| + f { LimbCountOrder(s, e, t, f); }
    ScaledIsProduct(s, e);
    ScaledIsProduct(t, f);
    var k := f - e;
    var hi, wk := Val(s[k..]), Weight(k);
    WeightAdd(k, e);
    MulAssoc(Val(t), wk, Weight(e));
    if Val(s) < Val(t) * wk { MulStrict(Val(s), Val(t) * wk, Weight(e)); }
    ValSplit(s, k);
    ValBound(s[..k]);
    if hi < Val(t) {
      MulMono(hi + 1, Val(t), wk);
      Distribute(hi, 1, wk);
    }
  }

  lemma {:induction false} AlignedDifference(s: seq<Bigit>, r: seq<Bigit>, e: nat, t: seq<Bigit>, f: nat)
    requires e <= f && f - e <= |s| == |r|
    requires r[..f - e] == s[..f - e]
    ensures Scaled(r, e) == Scaled(s, e) - Scaled(t, f) <==> Val(r[f - e..]) + Val(t) == Val(s[f - e..])
  {
    hide Val, Scaled, Weight;
    var k := f - e;
    ValSplit(s, k);
    ValSplit(r, k);
    ScaledIsProduct(s, e);
    ScaledIsProduct(r, e);
    ScaledIsProduct(t, f);
    WeightAdd(k, e);
    LowPart(Val(s[..k]), Val(r[k..]), Val(t), Val(s[k..]), Weight(k));
    HighPart(Val(r), Val(t), Val(s), Weight(k), Weight(e));
  }

  lemma LowPart(low: int, a: int, b: int, c: int, w: int)
    requires w > 0
    ensures (low + w * a) + b * w == low + w * c <==> a + b == c
  {
    Distribute(a, b, w);
    CancelWeight(a + b, c, w);
  }

  lemma HighPart(x: int, b: int, y: int, v: int, w: int)
    requires w > 0
    ensures x * w == y * w - b * (v * w) <==> x + b * v == y
  {
    MulAssoc(b, v, w);
    Distribute(x, b * v, w);
    CancelWeight(x + b * v, y, w);
  }

  lemma CancelWeight(a: int, b: int, w: int)
    requires w > 0
    ensures a * w == b * w <==> a == b
  {
    if a < b { MulStrict(a, b, w); } else if b < a { MulStrict(b, a, w); }
  }

  lemma {:induction false} ZeroLimbsBelow(z: seq<Bigit>, s: seq<Bigit>)
    requires forall i :: 0 <= i < |z| ==> z[i] == 0
    ensures Val(z + s) == Scaled(s, |z|)
  {
    hide Val, Scaled, Weight;
    AllZero(z);
    ValConcat(z, s);
    ScaledIsProduct(s, |z|);
  }

  /** Leading zero limbs trade limb exponent for limbs. */
  lemma {:induction false} ZeroPrefix(z: seq<Bigit>, s: seq<Bigit>, e: nat)
    requires forall i :: 0 <= i < |z| ==> z[i] == 0
    ensures Scaled(z + s, e) == Scaled(s, e + |z|)
  {
    if e == 0 {
      ZeroLimbsBelow(z, s);
    } else {
      ZeroPrefix(z, s, e - 1);
    }
  }

  lemma {:induction false} AllZero(z: seq<Bigit>)
    requires forall i :: 0 <= i < |z| ==> z[i] == 0
    ensures Val(z) == 0
  {
    if z != [] { AllZero(z[1..]); }
  }

  // ---- comparison, scanning from the top limb ----

  /** The limb at absolute position p, zero outside the stored range. */
  function DigitAt(s: seq<Bigit>, e: nat, p: int): Bigit {
    if e <= p < |s| + e then s[p - e] else 0
  }

  /** d * 2^(32e), kept linear for the solver. */
  ghost function Place(d: int, e: nat): int {
    if e == 0 then d else 0x1_0000_0000 * Place(d, e - 1)
  }

  lemma {:induction false} PlaceSum(a: int, b: int, e: nat)
    ensures Place(a, e) + Place(b, e) == Place(a + b, e)
    ensures Place(a, e) - Place(b, e) == Place(a - b, e)
  {
    if e > 0 { PlaceSum(a, b, e - 1); }
  }

  lemma {:induction false} PlaceOrder(a: int, b: int, e: nat)
    requires a <= b
    ensures Place(a, e) <= Place(b, e)
    ensures Place(0, e) == 0 && Place(1, e) == Weight(e)
  {
    if e > 0 { PlaceOrder(a, b, e - 1); }
  }

  lemma {:induction false} PlaceUp(d: int, e: nat)
    ensures Place(0x1_0000_0000 * d, e) == Place(d, e + 1)
  {
    if e > 0 { PlaceUp(d, e - 1); }
  }

  /** The value of the limbs below absolute position p. */
  ghost function Low(s: seq<Bigit>, e: nat, p: nat): int {
    if p == 0 then 0 else Low(s, e, p - 1) + Place(DigitAt(s, e, p - 1), p - 1)
  }

  lemma {:induction false} ScaledSnoc(s: seq<Bigit>, e: nat, i: nat)
    requires i < |s|
    ensures Scaled(s[..i + 1], e) == Scaled(s[..i], e) + Place(s[i], i + e)
  {
    if e == 0 {
      ValSnoc(s, i);
      PlaceIsProduct(s[i], i);
    } else {
      ScaledSnoc(s, e - 1, i);
    }
  }

  lemma {:induction false} PlaceIsProduct(d: int, e: nat)
    ensures Place(d, e) == Weight(e) * d
  {
    if e > 0 {
      PlaceIsProduct(d, e - 1);
      MulAssoc(0x1_0000_0000, Weight(e - 1), d);
    }
  }

  lemma {:induction false} LowIsPrefix(s: seq<Bigit>, e: nat, p: nat)
    ensures p <= e ==> Low(s, e, p) == 0
    ensures e <= p <= |s| + e ==> Low(s, e, p) == Scaled(s[..p - e], e)
    ensures p >= |s| + e ==> Low(s, e, p) == Scaled(s, e)
  {
    if p > 0 {
      LowIsPrefix(s, e, p - 1);
      PlaceOrder(0, 0, p - 1);
      if e < p <= |s| + e {
        ScaledSnoc(s, e, p - 1 - e);
        assert s[..p - 1 - e + 1] == s[..p - e];
      }
    }
    if p == |s| + e { assert s[..p - e] == s; }
    if p == e { EmptyScaled(e); assert s[..0] == []; }
  }

  lemma {:induction false} EmptyScaled(e: nat)
    ensures Scaled([], e) == 0
  {
    if e > 0 { EmptyScaled(e - 1); }
  }

  lemma {:induction false} LowBound(s: seq<Bigit>, e: nat, p: nat)
    ensures 0 <= Low(s, e, p) < Place(1, p)
  {
    if p > 0 {
      LowBound(s, e, p - 1);
      var d: int := DigitAt(s, e, p - 1);
      PlaceOrder(0, d, p - 1);
      PlaceOrder(d + 1, 0x1_0000_0000, p - 1);
      PlaceSum(d, 1, p - 1);
      PlaceUp(1, p - 1);
    }
  }

  /** One step of `compare`: equal limbs change nothing, the first difference decides. */
  lemma CompareLimb(s: seq<Bigit>, e: nat, t: seq<Bigit>, f: nat, p: nat)
    ensures var a, b := DigitAt(s, e, p), DigitAt(t, f, p);
            var diff := Low(s, e, p + 1) - Low(t, f, p + 1);
            && (a == b ==> diff == Low(s, e, p) - Low(t, f, p))
            && (a > b ==> diff > 0) && (a < b ==> diff < 0)
  {
    var a: int, b: int := DigitAt(s, e, p), DigitAt(t, f, p);
    LowBound(s, e, p);
    LowBound(t, f, p);
    PlaceSum(a, b, p);
    if a > b {
      PlaceOrder(1, a - b, p);
    } else if a < b {
      PlaceOrder(a - b, -1, p);
      PlaceSum(0, 1, p);
      PlaceOrder(0, 0, p);
    }
  }

  /** (s, e) + (t, f) - (r, g), counting only the limbs below position p. */
  ghost function Gap(s: seq<Bigit>, e: nat, t: seq<Bigit>, f: nat, r: seq<Bigit>, g: nat, p: nat): int {
    Low(s, e, p) + Low(t, f, p) - Low(r, g, p)
  }

  lemma GapEnds(s: seq<Bigit>, e: nat, t: seq<Bigit>, f: nat, r: seq<Bigit>, g: nat, p: nat)
    ensures p <= e && p <= f && p <= g ==> Gap(s, e, t, f, r, g, p) == 0
    ensures p >= |s| + e && p >= |t| + f && p >= |r| + g ==>
              Gap(s, e, t, f, r, g, p) == Scaled(s, e) + Scaled(t, f) - Scaled(r, g)
    ensures Place(0, p) == 0 && Place(1, p) > 0
  {
    LowIsPrefix(s, e, p);
    LowIsPrefix(t, f, p);
    LowIsPrefix(r, g, p);
    PlaceOrder(0, 0, p);
  }

  /** One step of `add_compare`: either the sign is already decided or at most one unit is owed. */
  lemma AddCompareLimb(s: seq<Bigit>, e: nat, t: seq<Bigit>, f: nat, r: seq<Bigit>, g: nat, p: nat,
                       borrow: nat, rest: int, diff: int)
    requires rest == DigitAt(r, g, p) + 0x1_0000_0000 * borrow - DigitAt(s, e, p) - DigitAt(t, f, p)
    requires diff == Gap(s, e, t, f, r, g, p + 1) - Place(borrow, p + 1)
    ensures rest < 0 ==> diff > 0
    ensures rest > 1 ==> diff < 0
    ensures diff == Gap(s, e, t, f, r, g, p) - Place(rest, p)
  {
    hide Place, Weight, Val;
    var a: int, b: int, c: int := DigitAt(s, e, p), DigitAt(t, f, p), DigitAt(r, g, p);
    LowBound(s, e, p);
    LowBound(t, f, p);
    LowBound(r, g, p);
    var owed := 0x1_0000_0000 * borrow;
    PlaceUp(borrow, p);
    PlaceSum(c, owed, p);
    PlaceSum(c + owed, a, p);
    PlaceSum(c + owed - a, b, p);
    PlaceSum(0, 1, p);
    PlaceSum(1, 1, p);
    PlaceOrder(0, 0, p);
    if rest < 0 { PlaceOrder(rest, -1, p); } else if rest > 1 { PlaceOrder(2, rest, p); }
  }

  // ---- squaring ----

  function At(t: seq<Bigit>, d: int): Bigit {
    if 0 <= d < |t| then t[d] else 0
  }

  /** Column d of the schoolbook product of s and t: the sum of s[i] * t[d - i]. */
  ghost function Column(s: seq<Bigit>, t: seq<Bigit>, d: int): nat {
    if s == [] then 0 else s[0] * At(t, d) + Column(s[1..], t, d - 1)
  }

  lemma {:induction false} ColumnNegative(s: seq<Bigit>, t: seq<Bigit>, d: int)
    requires d < 0
    ensures Column(s, t, d) == 0
  {
    if s != [] { ColumnNegative(s[1..], t, d - 1); }
  }

  lemma ProductFits(a: Bigit, b: Bigit)
    ensures 0 <= a * b <= 0xffff_fffe_0000_0001
  {
    MulMono(a, 0xffff_ffff, b);
    MulMono(b, 0xffff_ffff, 0xffff_ffff);
  }

  lemma {:induction false} ColumnBound(s: seq<Bigit>, t: seq<Bigit>, d: int)
    ensures Column(s, t, d) <= |s| * 0xffff_fffe_0000_0001
  {
    if s != [] {
      ColumnBound(s[1..], t, d - 1);
      ProductFits(s[0], At(t, d));
    }
  }

  /** Terms whose second factor lies beyond t contribute nothing. */
  lemma {:induction false} ColumnSkip(s: seq<Bigit>, t: seq<Bigit>, d: int, k: nat)
    requires k <= |s| && d - k >= |t| - 1
    ensures Column(s, t, d) == Column(s[k..], t, d - k)
    decreases k
  {
    if k == 0 {
      assert s[0..] == s;
    } else {
      ColumnSkip(s[1..], t, d - 1, k - 1);
      assert s[1..][k - 1..] == s[k..];
    }
  }

  /** The result limbs of columns c to m - 1, entered with a carry. */
  ghost function ColumnLimbs(n: seq<Bigit>, c: nat, m: nat, carry: nat): seq<Bigit>
    requires c <= m
    decreases m - c
  {
    if c == m then []
    else
      var total := carry + Column(n, n, c);
      [total % 0x1_0000_0000] + ColumnLimbs(n, c + 1, m, total / 0x1_0000_0000)
  }

  lemma NoColumns(n: seq<Bigit>, m: nat, carry: nat)
    ensures ColumnLimbs(n, m, m, carry) == []
  {
  }

  lemma ColumnStep(n: seq<Bigit>, c: nat, m: nat, carry: nat)
    requires c < m && |n| > 0 && carry < |n| * 0x1_0000_0000
    ensures var total := carry + Column(n, n, c);
            && total / 0x1_0000_0000 < |n| * 0x1_0000_0000
            && ColumnLimbs(n, c, m, carry)
                 == [total % 0x1_0000_0000] + ColumnLimbs(n, c + 1, m, total / 0x1_0000_0000)
  {
    ColumnBound(n, n, c);
  }

  /** Columns c to m - 1 of the product of s and t, weighted relative to column c. */
  ghost function ColumnsValue(s: seq<Bigit>, t: seq<Bigit>, c: int, m: int): nat
    decreases m - c
  {
    if c >= m then 0 else Column(s, t, c) + 0x1_0000_0000 * ColumnsValue(s, t, c + 1, m)
  }

  lemma CarryOn(total: nat, v: nat, out: nat, w: nat, rest: nat)
    requires v + out * w == total / 0x1_0000_0000 + rest
    ensures total % 0x1_0000_0000 + 0x1_0000_0000 * v + out * (0x1_0000_0000 * w) == total + 0x1_0000_0000 * rest
  {
    MulReorder(0x1_0000_0000, w, out);
  }

  /** Emitting limbs loses nothing but what is carried out at the end. */
  lemma {:induction false} ColumnLimbsValue(n: seq<Bigit>, c: nat, m: nat, carry: nat) returns (out: nat)
    requires c <= m
    ensures |ColumnLimbs(n, c, m, carry)| == m - c
    ensures Val(ColumnLimbs(n, c, m, carry)) + out * Weight(m - c) == carry + ColumnsValue(n, n, c, m)
    decreases m - c
  {
    hide Column;
    if c == m {
      out := carry;
    } else {
      var total: int := carry + Column(n, n, c);
      out := ColumnLimbsValue(n, c + 1, m, total / 0x1_0000_0000);
      CarryOn(total, Val(ColumnLimbs(n, c + 1, m, total / 0x1_0000_0000)), out, Weight(m - c - 1),
              ColumnsValue(n, n, c + 1, m));
    }
  }

  lemma {:induction false} ColumnsUnfold(s: seq<Bigit>, t: seq<Bigit>, c: int, m: int)
    requires s != []
    ensures ColumnsValue(s, t, c, m) == RowValue(s[0], t, c, m) + ColumnsValue(s[1..], t, c - 1, m - 1)
    decreases m - c
  {
    if c < m { ColumnsUnfold(s, t, c + 1, m); }
  }

  /** Row a of the schoolbook product, columns c to m - 1. */
  ghost function RowValue(a: Bigit, t: seq<Bigit>, c: int, m: int): nat
    decreases m - c
  {
    if c >= m then 0 else a * At(t, c) + 0x1_0000_0000 * RowValue(a, t, c + 1, m)
  }

  lemma {:induction false} RowIsProduct(a: Bigit, t: seq<Bigit>, c: nat, m: nat)
    requires c <= |t| <= m
    ensures RowValue(a, t, c, m) == a * Val(t[c..])
    decreases m - c
  {
    if c == |t| {
      RowBeyond(a, t, c, m);
    } else {
      RowIsProduct(a, t, c + 1, m);
      assert t[c..][1..] == t[c + 1..];
      LimbTimes(a, t[c], Val(t[c + 1..]));
    }
  }

  lemma LimbTimes(a: nat, limb: nat, rest: nat)
    ensures a * (limb + 0x1_0000_0000 * rest) == a * limb + 0x1_0000_0000 * (a * rest)
  {
    Distribute(limb, 0x1_0000_0000 * rest, a);
    MulReorder(0x1_0000_0000, rest, a);
  }

  lemma {:induction false} RowBeyond(a: Bigit, t: seq<Bigit>, c: nat, m: nat)
    requires |t| <= c
    ensures RowValue(a, t, c, m) == 0
    decreases m - c
  {
    if c < m { RowBeyond(a, t, c + 1, m); }
  }

  /** The weighted columns of the schoolbook product add up to the product. */
  lemma {:induction false} CauchyProduct(s: seq<Bigit>, t: seq<Bigit>, m: nat)
    requires m >= |s| + |t|
    ensures ColumnsValue(s, t, 0, m) == Val(s) * Val(t)
    decreases |s|
  {
    if s == [] {
      EmptyColumns(t, 0, m);
    } else {
      ColumnsUnfold(s, t, 0, m);
      RowIsProduct(s[0], t, 0, m);
      assert t[0..] == t;
      CauchyProduct(s[1..], t, m - 1);
      ColumnNegative(s[1..], t, -1);
      assert ColumnsValue(s[1..], t, -1, m - 1) == 0x1_0000_0000 * ColumnsValue(s[1..], t, 0, m - 1);
      Distribute(s[0], 0x1_0000_0000 * Val(s[1..]), Val(t));
      MulAssoc(0x1_0000_0000, Val(s[1..]), Val(t));
    }
  }

  lemma {:induction false} EmptyColumns(t: seq<Bigit>, c: int, m: int)
    ensures ColumnsValue([], t, c, m) == 0
    decreases m - c
  {
    if c < m { EmptyColumns(t, c + 1, m); }
  }

  /** Twice as many limbs hold the square. */
  lemma SquareValue(n: seq<Bigit>)
    ensures |ColumnLimbs(n, 0, 2 * |n|, 0)| == 2 * |n|
    ensures Val(ColumnLimbs(n, 0, 2 * |n|, 0)) == Val(n) * Val(n)
  {
    var out := ColumnLimbsValue(n, 0, 2 * |n|, 0);
    CauchyProduct(n, n, 2 * |n|);
    var w := Weight(|n|);
    ValBound(n);
    WeightAdd(|n|, |n|);
    MulMono(Val(n), w, Val(n));
    MulStrict(Val(n), w, w);
    if out > 0 { MulMono(1, out, w * w); }
  }

  lemma SquareScaled(s: seq<Bigit>, r: seq<Bigit>, e: nat)
    requires Val(r) == Val(s) * Val(s)
    ensures Scaled(r, 2 * e) == Scaled(s, e) * Scaled(s, e)
  {
    ScaledIsProduct(s, e);
    ScaledIsProduct(r, 2 * e);
    var v, w := Val(s), Weight(e);
    WeightAdd(e, e);
    MulAssoc(v * w, v, w);
    MulReorder(v, w, v);
    MulAssoc(v * v, w, w);
  }

  // ---- the bits of an exponent ----

  /** n without its k lowest bits. */
  function Prefix(n: nat, k: nat): nat {
    if k == 0 then n else Prefix(n, k - 1) / 2
  }

  /** (n & bitmask) != 0 for a bitmask with a single bit. */
  predicate HasBit(n: nat, bitmask: nat)
    requires bitmask > 0
  {
    (n / bitmask) % 2 == 1
  }

  lemma {:induction false} PrefixIsQuotient(n: nat, k: nat)
    ensures Prefix(n, k) == n / Pow(2, k)
    ensures HasBit(n, Pow(2, k)) <==> Prefix(n, k) % 2 == 1
    ensures Prefix(n, k) <= n
  {
    if k > 0 {
      PrefixIsQuotient(n, k - 1);
      HalfQuotient(n, Pow(2, k - 1));
    }
  }

  lemma HalfQuotient(n: nat, p: nat)
    requires p > 0
    ensures n / (2 * p) == n / p / 2
  {
    var q, r := n / p, n % p;
    MulReorder(2, q / 2, p);
    Distribute(2 * (q / 2), q % 2, p);
    DivUnique(n, 2 * p, q / 2, (q % 2) * p + r);
  }

  lemma TopBit(n: nat, k: nat)
    requires Pow(2, k) <= n < Pow(2, k + 1)
    ensures Prefix(n, k) == 1
  {
    PrefixIsQuotient(n, k);
    DivUnique(n, Pow(2, k), 1, n - Pow(2, k));
  }
}
