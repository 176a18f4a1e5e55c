/**
 The bundled fmt's `bigint`: little-endian 32-bit limbs that the methods update in place,
 scaled by a limb exponent. Every operation is proved against the number it stands for.
 */
module Bigints {
  import opened Words
  import opened Limbs

  function Order(a: int, b: int): int {
    if a < b then -1 else if a > b then 1 else 0
  }

  /**
   What `compare` answers for the operands (s, e) and (t, f): the sign of the difference, except
   that equal nonzero numbers are told apart by their limb exponents and that a zero is judged by
   its limb count.
   */
  ghost function CompareAnswer(s: seq<Bigit>, e: nat, t: seq<Bigit>, f: nat): int
    requires |s| > 0 && |t| > 0
  {
    var zs, zt := s[|s| - 1] == 0, t[|t| - 1] == 0;
    if zs && zt then Order(e, f)
    else if zs then (if e >= |t| + f then 1 else -1)
    else if zt then (if f >= |s| + e then -1 else 1)
    else if Scaled(s, e) == Scaled(t, f) then Order(f, e)
    else Order(Scaled(s, e), Scaled(t, f))
  }

  /**
   `compare` is exact if and only if equal operands have equal limb exponents and a zero operand
   does not occupy more limb positions than a nonzero one.
   */
  lemma CompareExactIff(s: seq<Bigit>, e: nat, t: seq<Bigit>, f: nat)
    requires NormalLimbs(s) && NormalLimbs(t)
    ensures CompareAnswer(s, e, t, f) == Order(Scaled(s, e), Scaled(t, f))
      <==> ( (Scaled(s, e) == Scaled(t, f) ==> e == f)
          && (s == [0] && t != [0] ==> 1 + e <= |t| + f)
          && (t == [0] && s != [0] ==> 1 + f <= |s| + e) )
  {
    Magnitude(s, e);
    Magnitude(t, f);
    ZeroIffTop(s);
    ZeroIffTop(t);
  }

  /** The answer of add_compare: the numbers of limbs first, then the values. */
  ghost function AddCompareAnswer(s: seq<Bigit>, e: nat, t: seq<Bigit>, f: nat, u: seq<Bigit>, g: nat): int {
    var longest := if |s| + e < |t| + f then |t| + f else |s| + e;
    if longest + 1 < |u| + g then -1
    else if longest > |u| + g then 1
    else Order(Scaled(s, e) + Scaled(t, f), Scaled(u, g))
  }

  /** A nonzero operand with more limbs than the right-hand side. */
  ghost predicate Longer(s: seq<Bigit>, e: nat, u: seq<Bigit>, g: nat) { |s| + e > |u| + g && s != [0] }

  /**
   add_compare is exact unless a zero gets in the way: a right-hand zero with at least two limbs more
   than both operands, or a left-hand zero with more limbs than the right-hand side, which is then
   right only if the other operand alone is the greater.
   */
  lemma AddCompareExactIff(s: seq<Bigit>, e: nat, t: seq<Bigit>, f: nat, u: seq<Bigit>, g: nat)
    requires NormalLimbs(s) && NormalLimbs(t) && NormalLimbs(u)
    ensures AddCompareAnswer(s, e, t, f, u, g) == Order(Scaled(s, e) + Scaled(t, f), Scaled(u, g))
      <==> ( (u == [0] ==> 1 + g <= |s| + e + 1 || 1 + g <= |t| + f + 1)
          && (|s| + e > |u| + g || |t| + f > |u| + g ==>
                Longer(s, e, u, g) || Longer(t, f, u, g) || Scaled(s, e) + Scaled(t, f) > Scaled(u, g)) )
  {
    hide NormalLimbs;
    ZeroIffSingle(u, g);
    if Longer(s, e, u, g) { NonzeroTop(s); NonzeroLength(u); LongerThan(s, e, u, g); }
    if Longer(t, f, u, g) { NonzeroTop(t); NonzeroLength(u); LongerThan(t, f, u, g); }
    if u != [0] && |s| + e + 1 < |u| + g && |t| + f + 1 < |u| + g {
      NonzeroTop(u);
      NonzeroLength(s);
      NonzeroLength(t);
      SumTooShort(s, e, t, f, u, g);
    }
  }

  /** 0 with a large exponent, plus 1, against 2^32: the answer is 1. */
  lemma AddCompareMissesZero()
    ensures Scaled([0], 5) + Scaled([1], 0) < Scaled([1], 1)
    ensures AddCompareAnswer([0], 5, [1], 0, [1], 1) == 1
  {
    ZeroIffSingle([0], 5);
    assert Scaled([1], 0) == 1 && Scaled([1], 1) == 0x1_0000_0000 by {
      ScaledIsProduct([1], 0);
      ScaledIsProduct([1], 1);
    }
  }

  lemma NonzeroLength(s: seq<Bigit>)
    requires NormalLimbs(s)
    ensures |s| > 0
  {
  }

  lemma NonzeroTop(s: seq<Bigit>)
    requires NormalLimbs(s) && s != [0]
    ensures |s| > 0 && s[|s| - 1] != 0
  {
  }

  lemma ZeroIffSingle(u: seq<Bigit>, g: nat)
    requires NormalLimbs(u)
    ensures u == [0] ==> Scaled(u, g) == 0
  {
    Magnitude(u, g);
    ZeroIffTop(u);
  }

  /** Equal numbers that `compare` calls different: 2^32 stored with limb exponents 0 and 1. */
  lemma CompareMissesEquality()
    ensures Scaled([0, 1], 0) == Scaled([1], 1)
    ensures CompareAnswer([0, 1], 0, [1], 1) == 1
  {
    assert [0, 1][1..] == [1] && Val([1]) == 1 && Val([0, 1]) == 0x1_0000_0000;
    assert Weight(1) == 0x1_0000_0000 * Weight(0);
  }

  /** The two-word sum `square` keeps when no 128-bit integer is available. */
  /** The lower word of a sum holds its low limb. */
  lemma LowBigit(lower: nat, upper: nat)
    ensures lower % 0x1_0000_0000 == (upper * 0x1_0000_0000_0000_0000 + lower) % 0x1_0000_0000
  {
    DivUnique(upper * 0x1_0000_0000_0000_0000 + lower, 0x1_0000_0000,
              upper * 0x1_0000_0000 + lower / 0x1_0000_0000, lower % 0x1_0000_0000);
  }

  class Accumulator {
    var lower: Word
    var upper: Word

    ghost function Sum(): nat
      reads this
    {
      upper * 0x1_0000_0000_0000_0000 + lower
    }

    constructor ()
      ensures Sum() == 0
    {
      lower, upper := 0, 0;
    }

    method Add(n: Word)
      requires Sum() + n < 0x1_0000_0000_0000_0000_0000_0000_0000_0000
      modifies this
      ensures Sum() == old(Sum()) + n
    {
      lower := (lower + n) % 0x1_0000_0000_0000_0000;
      if lower < n { upper := upper + 1; }
    }

    /** Bits shifted out of the upper word by the left shift are kept by the right shift. */
    method ShiftRight32()
      modifies this
      ensures Sum() == old(Sum()) / 0x1_0000_0000
    {
      lower := (upper * 0x1_0000_0000) % 0x1_0000_0000_0000_0000 + lower / 0x1_0000_0000;
      upper := upper / 0x1_0000_0000;
    }
  }

  class Bigint {
    var bigits: seq<Bigit>
    var exp: nat

    /** The number this object stands for. */
    ghost function Value(): nat
      reads this
    {
      Scaled(bigits, exp)
    }

    ghost predicate Normal()
      reads this
    {
      NormalLimbs(bigits)
    }

    ghost predicate Nonzero()
      reads this
    {
      |bigits| > 0 && bigits[|bigits| - 1] != 0
    }

    function NumBigits(): nat
      reads this
    {
      |bigits| + exp
    }

    constructor ()
      ensures bigits == [] && exp == 0
    {
      bigits, exp := [], 0;
    }

    /** In 64-bit unsigned arithmetic; the borrow is the sign bit of the wrapped difference. */
    method SubtractBigits(index: nat, other: Bigit, borrow: Bigit) returns (newBorrow: Bigit)
      requires index < |bigits| && borrow <= 1
      modifies this`bigits
      ensures var d := old(bigits[index]) - other - borrow;
              && newBorrow == (if d < 0 then 1 else 0)
              && bigits == old(bigits)[index := if d < 0 then d + 0x1_0000_0000 else d]
    {
      var result := (bigits[index] - other - borrow) % 0x1_0000_0000_0000_0000;
      bigits := bigits[index := result % 0x1_0000_0000];
      newBorrow := result / 0x8000_0000_0000_0000;
    }

    method RemoveLeadingZeros()
      requires |bigits| > 0
      modifies this`bigits
      ensures Normal()
      ensures bigits <= old(bigits)
      ensures Val(bigits) == old(Val(bigits))
    {
      var n := |bigits| - 1;
      ghost var s := bigits;
      assert s[..n + 1] == s;
      while n > 0 && bigits[n] == 0
        invariant 0 <= n < |bigits| && bigits == s
        invariant Val(s[..n + 1]) == Val(s)
      {
        ValSnoc(s, n);
        n := n - 1;
      }
      bigits := bigits[..n + 1];
    }

    /**
     *this -= other, for limb-aligned operands. The difference is exact unless the limbs of other
     leave a borrow below a zero limb, which at most one spare limb in this rules out.
     */
    method SubtractAligned(other: Bigint)
      requires other != this && Normal() && other.Normal()
      requires exp <= other.exp && Value() >= other.Value()
      requires other.Nonzero() || other.NumBigits() <= NumBigits()
      modifies this`bigits
      ensures Normal() && |bigits| <= old(|bigits|) && other.exp - exp + |other.bigits| <= old(|bigits|)
      ensures Value() == old(Value()) - other.Value() <==> !Stuck(old(bigits)[other.exp - exp..], other.bigits, 0)
      ensures old(NumBigits()) <= other.NumBigits() + 1 ==> Value() == old(Value()) - other.Value()
    {
      hide Val, Scaled, Minus, Stuck, Weight;
      ghost var s, t := bigits, other.bigits;
      if other.Nonzero() { SubtractionFits(s, exp, t, other.exp); } else { ZeroIffTop(t); }
      DifferenceLength(s[other.exp - exp..], t);
      SubtractLimbs(other, other.exp - exp);
      ghost var d := bigits;
      RemoveLeadingZeros();
      SubtractedValue(s, exp, t, other.exp, d, bigits);
    }

    /** The borrow chain of SubtractAligned, from limb k on. */
    method SubtractLimbs(other: Bigint, k: nat)
      requires other != this && k + |other.bigits| <= |bigits|
      requires Val(bigits[k..]) >= Val(other.bigits)
      modifies this`bigits
      ensures bigits == old(bigits)[..k] + Minus(old(bigits)[k..], other.bigits, 0)
    {
      hide Minus, Val;
      var borrow: Bigit := 0;
      var i := k;
      ghost var s, t := bigits, other.bigits;
      ghost var d := s[..k] + Minus(s[k..], t, 0);
      var j := 0;
      assert t[0..] == t;
      while j != |other.bigits|
        invariant 0 <= j <= |t| && i == k + j && |s| == |bigits| && borrow <= 1
        invariant bigits[i..] == s[i..]
        invariant bigits[..i] + Minus(s[i..], t[j..], borrow) == d
        invariant Val(s[i..]) >= Val(t[j..]) + borrow
      {
        ghost var before := bigits;
        assert s[i..][0] == s[i] && s[i..][1..] == s[i + 1..];
        assert t[j..][0] == t[j] && t[j..][1..] == t[j + 1..];
        assert before[i] == s[i] by { assert before[i..][0] == s[i..][0]; }
        MinusStep(s[i..], t[j..], borrow);
        borrow := SubtractBigits(i, other.bigits[j], borrow);
        Append(before[..i], bigits[i], Minus(s[i + 1..], t[j + 1..], borrow));
        assert bigits[..i + 1] == before[..i] + [bigits[i]];
        i, j := i + 1, j + 1;
      }
      ghost var mid := bigits;
      if borrow > 0 {
        LastBorrow(mid, s, i, t[j..]);
      } else {
        MinusDone(s[i..]);
        assert mid[..i] + mid[i..] == mid;
      }
      while borrow > 0
        invariant borrow <= 1
        invariant borrow == 1 ==> i < |mid| && d == mid[i := if mid[i] > 0 then mid[i] - 1 else 0xffff_fffe]
        invariant borrow == 1 ==> bigits == mid || (mid[i] == 0 && bigits == mid[i := 0xffff_ffff])
        invariant borrow == 0 ==> bigits == d
        decreases borrow, if bigits == mid then 1 else 0
      {
        borrow := SubtractBigits(i, 0, borrow);
      }
    }

    method MultiplyBigit(value: Bigit)
      modifies this`bigits
      ensures bigits == Times(old(bigits), value, 0)
    {
      var wideValue: Word := value;
      var carry: Bigit := 0;
      ghost var s := bigits;
      var i, n := 0, |bigits|;
      assert s[0..] == s;
      while i < n
        invariant 0 <= i <= n == |bigits| == |s|
        invariant bigits[i..] == s[i..]
        invariant bigits[..i] + Times(s[i..], value, carry) == Times(s, value, 0)
      {
        ghost var before := bigits;
        assert bigits[i] == s[i] by { assert bigits[i..][0] == s[i..][0]; }
        assert s[i..][1..] == s[i + 1..];
        NarrowLimb(bigits[i], value, carry);
        var result: Word := bigits[i] * wideValue + carry;
        bigits := bigits[i := result % 0x1_0000_0000];
        carry := result / 0x1_0000_0000;
        LimbWritten(before, i, bigits[i], Times(s[i + 1..], value, carry));
        i := i + 1;
      }
      assert bigits[..i] == bigits && s[i..] == [];
      if carry != 0 {
        assert CarryLimbs(carry) == [carry];
        bigits := bigits + [carry];
      }
    }

    /** One limb of MultiplyWord: two half products, and the carry of both. */
    static method MultiplyLimb(a: Bigit, lower: Bigit, upper: Bigit, carry: Word) returns (digit: Bigit, next: Word)
      ensures digit == TimesDigit(a, lower + upper * 0x1_0000_0000, carry)
      ensures next == TimesCarry(a, lower + upper * 0x1_0000_0000, carry)
    {
      ghost var value: Word := lower + upper * 0x1_0000_0000;
      assert value % 0x1_0000_0000 == lower && value / 0x1_0000_0000 == upper;
      TimesLimb(a, value, carry);
      var result: Word := a * lower + carry % 0x1_0000_0000;
      digit := result % 0x1_0000_0000;
      next := a * upper + result / 0x1_0000_0000 + carry / 0x1_0000_0000;
    }

    /** The 64-bit factor is applied in halves; the two-limb carry never leaves 64 bits. */
    method MultiplyWord(value: Word)
      modifies this`bigits
      ensures bigits == Times(old(bigits), value, 0)
    {
      hide Times, TimesDigit, TimesCarry;
      var lower, upper := value % 0x1_0000_0000, value / 0x1_0000_0000;
      var carry: Word := 0;
      ghost var s := bigits;
      var i, n := 0, |bigits|;
      assert s[0..] == s;
      while i < n
        invariant 0 <= i <= n == |bigits| == |s|
        invariant bigits[i..] == s[i..]
        invariant bigits[..i] + Times(s[i..], value, carry) == Times(s, value, 0)
      {
        ghost var before := bigits;
        assert bigits[i] == s[i] by { assert bigits[i..][0] == s[i..][0]; }
        assert s[i..][1..] == s[i + 1..];
        TimesStep(s[i..], value, carry);
        var digit;
        digit, carry := MultiplyLimb(bigits[i], lower, upper, carry);
        bigits := bigits[i := digit];
        LimbWritten(before, i, digit, Times(s[i + 1..], value, carry));
        i := i + 1;
      }
      assert bigits[..i] == bigits && s[i..] == [];
      TimesDone(value, carry);
      PushCarry(carry);
    }

    /** What is left of the carry makes new limbs. */
    method PushCarry(carry: Word)
      modifies this`bigits
      ensures bigits == old(bigits) + CarryLimbs(carry)
    {
      var rest := carry;
      while rest != 0
        invariant bigits + CarryLimbs(rest) == old(bigits) + CarryLimbs(carry)
        decreases rest
      {
        bigits := bigits + [rest % 0x1_0000_0000];
        rest := rest / 0x1_0000_0000;
      }
    }

    /** operator*= for an int factor (the 32-bit path). */
    method TimesBigit(value: Bigit)
      requires value > 0 && Normal()
      modifies this`bigits
      ensures Normal() && (Nonzero() <==> old(Nonzero())) && |bigits| >= old(|bigits|)
      ensures Value() == old(Value()) * value
      ensures !Nonzero() ==> bigits == old(bigits)
    {
      ghost var s := bigits;
      MultiplyBigit(value);
      ScaledProduct(s, exp, value);
    }

    /** operator*= for a uint64_t factor. */
    method TimesWord(value: Word)
      requires value > 0 && Normal()
      modifies this`bigits
      ensures Normal() && (Nonzero() <==> old(Nonzero())) && |bigits| >= old(|bigits|)
      ensures Value() == old(Value()) * value
      ensures !Nonzero() ==> bigits == old(bigits)
    {
      ghost var s := bigits;
      MultiplyWord(value);
      ScaledProduct(s, exp, value);
    }

    method AssignFrom(other: Bigint)
      modifies this
      ensures bigits == old(other.bigits) && exp == old(other.exp)
    {
      bigits, exp := other.bigits, other.exp;
    }

    method AssignWord(n: Word)
      modifies this
      ensures exp == 0 && Value() == n && Val(bigits) == n
      ensures Normal() && (n != 0 ==> Nonzero())
    {
      var rest := n;
      var limbs: seq<Bigit> := [rest % 0x1_0000_0000];
      rest := rest / 0x1_0000_0000;
      while rest != 0
        invariant 0 <= rest
        invariant limbs + CarryLimbs(rest) == [n % 0x1_0000_0000] + CarryLimbs(n / 0x1_0000_0000)
        decreases rest
      {
        limbs := limbs + [rest % 0x1_0000_0000];
        rest := rest / 0x1_0000_0000;
      }
      assert limbs + CarryLimbs(rest) == limbs;
      bigits, exp := limbs, 0;
      CarryLimbsValue(n / 0x1_0000_0000);
      assert bigits[1..] == CarryLimbs(n / 0x1_0000_0000);
    }

    /** operator<<= */
    method ShiftLeft(shift: nat)
      requires Normal()
      modifies this
      ensures Normal() && (Nonzero() <==> old(Nonzero()))
      ensures exp == old(exp) + shift / 32
      ensures Value() == old(Value()) * Pow(2, shift)
      ensures Val(bigits) == old(Val(bigits)) * Pow(2, shift % 32)
    {
      ghost var s := bigits;
      ghost var e := exp;
      exp := exp + shift / 32;
      var rest := shift % 32;
      assert Pow(2, 0) == 1;
      if rest == 0 {
        ShiftedValue(s, s, e, shift);
        return;
      }
      ShiftBits(rest);
      ShiftValue(s, rest, 0);
      ProductNormal(s, bigits, Pow(2, rest));
      ShiftedValue(s, bigits, e, shift);
    }

    /** The in-limb part of ShiftLeft. */
    method ShiftBits(rest: nat)
      requires 0 < rest < 32
      modifies this`bigits
      ensures bigits == ShiftLimbs(old(bigits), rest, 0)
    {
      ghost var s := bigits;
      var carry: Bigit := 0;
      var i, n := 0, |bigits|;
      assert s[0..] == s;
      while i < n
        invariant 0 <= i <= n == |bigits| == |s|
        invariant bigits[i..] == s[i..]
        invariant carry < Pow(2, rest)
        invariant bigits[..i] + ShiftLimbs(s[i..], rest, carry) == ShiftLimbs(s, rest, 0)
      {
        ghost var before := bigits;
        assert bigits[i] == s[i] by { assert bigits[i..][0] == s[i..][0]; }
        assert s[i..][1..] == s[i + 1..];
        ShiftStep(s[i], rest);
        var c := ShiftOut(bigits[i], rest);
        bigits := bigits[i := ShiftKeep(bigits[i], rest) + carry];
        carry := c;
        Append(before[..i], bigits[i], ShiftLimbs(s[i + 1..], rest, carry));
        assert bigits[..i + 1] == before[..i] + [bigits[i]];
        i := i + 1;
      }
      assert bigits[..i] == bigits && s[i..] == [];
      ghost var mid := bigits;
      if carry != 0 { bigits := bigits + [carry]; }
      assert bigits == mid + ShiftLimbs([], rest, carry);
    }

    static method Compare(lhs: Bigint, rhs: Bigint) returns (r: int)
      requires lhs.Normal() && rhs.Normal()
      ensures r == CompareAnswer(lhs.bigits, lhs.exp, rhs.bigits, rhs.exp)
    {
      hide Scaled, Val, Low;
      ghost var s, e, t, f := lhs.bigits, lhs.exp, rhs.bigits, rhs.exp;
      var numLhs, numRhs := lhs.NumBigits(), rhs.NumBigits();
      if numLhs != numRhs {
        if s[|s| - 1] != 0 && t[|t| - 1] != 0 {
          if numLhs < numRhs { LimbCountOrder(s, e, t, f); } else { LimbCountOrder(t, f, s, e); }
        }
        return if numLhs > numRhs then 1 else -1;
      }
      var i, j := |lhs.bigits| - 1, |rhs.bigits| - 1;
      var end := if i - j < 0 then 0 else i - j;
      LowIsPrefix(s, e, numLhs);
      LowIsPrefix(t, f, numLhs);
      while i >= end
        invariant end - 1 <= i < |s| && i - j == |s| - |t|
        invariant Scaled(s, e) - Scaled(t, f) == Low(s, e, i + 1 + e) - Low(t, f, i + 1 + e)
        invariant i < |s| - 1 ==> s[|s| - 1] == t[|t| - 1]
      {
        var lhsBigit, rhsBigit := lhs.bigits[i], rhs.bigits[j];
        CompareLimb(s, e, t, f, i + e);
        if lhsBigit != rhsBigit {
          return if lhsBigit > rhsBigit then 1 else -1;
        }
        i, j := i - 1, j - 1;
      }
      LowIsPrefix(s, e, i + 1 + e);
      LowIsPrefix(t, f, i + 1 + e);
      if i != j { return if i > j then 1 else -1; }
      return 0;
    }

    static function GetBigit(n: Bigint, i: int): Bigit
      reads n
    {
      if i >= n.exp && i < n.NumBigits() then n.bigits[i - n.exp] else 0
    }

    /** The sign of lhs1 + lhs2 - rhs, for operands with arbitrary, differing exponents; a zero must not be too long. */
    static method AddCompare(lhs1: Bigint, lhs2: Bigint, rhs: Bigint) returns (r: int)
      requires lhs1.Normal() && lhs2.Normal() && rhs.Normal()
      ensures r == AddCompareAnswer(lhs1.bigits, lhs1.exp, lhs2.bigits, lhs2.exp, rhs.bigits, rhs.exp)
      ensures (rhs.Nonzero() || rhs.exp == 0)
              && (lhs1.Nonzero() || lhs1.NumBigits() <= rhs.NumBigits())
              && (lhs2.Nonzero() || lhs2.NumBigits() <= rhs.NumBigits())
              ==> r == Order(lhs1.Value() + lhs2.Value(), rhs.Value())
    {
      hide Scaled;
      ghost var s, e, t, f, u, g := lhs1.bigits, lhs1.exp, lhs2.bigits, lhs2.exp, rhs.bigits, rhs.exp;
      var maxLhs := if lhs1.NumBigits() < lhs2.NumBigits() then lhs2.NumBigits() else lhs1.NumBigits();
      var numRhs := rhs.NumBigits();
      if maxLhs + 1 < numRhs {
        if rhs.Nonzero() { SumTooShort(s, e, t, f, u, g); }
        return -1;
      }
      if maxLhs > numRhs {
        if lhs1.NumBigits() > numRhs && lhs1.Nonzero() { LongerThan(s, e, u, g); }
        if lhs2.NumBigits() > numRhs && lhs2.Nonzero() { LongerThan(t, f, u, g); }
        return 1;
      }
      r := AddCompareLimbs(lhs1, lhs2, rhs);
    }

    /** The scan of add_compare from the top limb, with a single limb's borrow and early exits. */
    static method AddCompareLimbs(lhs1: Bigint, lhs2: Bigint, rhs: Bigint) returns (r: int)
      requires lhs1.NumBigits() <= rhs.NumBigits() && lhs2.NumBigits() <= rhs.NumBigits()
      ensures r == Order(lhs1.Value() + lhs2.Value(), rhs.Value())
    {
      hide Gap, Scaled, Place;
      ghost var s, e, t, f, u, g := lhs1.bigits, lhs1.exp, lhs2.bigits, lhs2.exp, rhs.bigits, rhs.exp;
      var numRhs := rhs.NumBigits();
      var borrow := 0;
      var minExp := Min(Min(lhs1.exp, lhs2.exp), rhs.exp);
      var i := (numRhs as int) - 1;
      GapEnds(s, e, t, f, u, g, numRhs);
      ghost var b := 0;
      ghost var diff := Scaled(s, e) + Scaled(t, f) - Scaled(u, g);
      while i >= minExp
        invariant minExp - 1 <= i < numRhs
        invariant 0 <= b <= 1 && borrow == (if b == 0 then 0 else 0x1_0000_0000)
        invariant diff == Gap(s, e, t, f, u, g, i + 1) - Place(b, i + 1)
      {
        var sum: Word := GetBigit(lhs1, i) + GetBigit(lhs2, i);
        var rhsBigit := GetBigit(rhs, i);
        AddCompareLimb(s, e, t, f, u, g, i, b, rhsBigit + borrow - sum, diff);
        if sum > rhsBigit + borrow { return 1; }
        borrow := rhsBigit + borrow - sum;
        if borrow > 1 { return -1; }
        b := borrow;
        borrow := borrow * 0x1_0000_0000;
        i := i - 1;
      }
      GapEnds(s, e, t, f, u, g, i + 1);
      return if borrow != 0 then -1 else 0;
    }

    /** Column by column: each result limb is the low part of a running 128-bit sum. */
    method Square()
      requires Normal() && |bigits| < 0x4000_0000
      modifies this
      ensures Normal() && (Nonzero() <==> old(Nonzero())) && exp == 2 * old(exp)
      ensures Value() == old(Value()) * old(Value())
    {
      ghost var n := bigits;
      SquareColumns();
      SquareValue(n);
      RemoveLeadingZeros();
      assert Val(bigits) == Val(n) * Val(n);
      exp := exp * 2;
      SquareScaled(n, bigits, old(exp));
      SquareNormal(n, bigits);
    }

    /** The two column loops of Square. */
    method SquareColumns()
      requires 0 < |bigits| < 0x4000_0000
      modifies this`bigits
      ensures bigits == ColumnLimbs(old(bigits), 0, 2 * |old(bigits)|, 0)
    {
      hide Column, ColumnLimbs;
      var n := bigits;
      var numResultBigits := 2 * |n|;
      bigits := seq(numResultBigits, _ => 0);
      var sum := new Accumulator();
      LowColumns(n, numResultBigits, sum);
      HighColumns(n, numResultBigits, sum);
    }

    /** The lower half: the columns that end at the first limb of n. */
    method LowColumns(n: seq<Bigit>, numResultBigits: nat, sum: Accumulator)
      requires 0 < |n| < 0x4000_0000 && |bigits| == numResultBigits == 2 * |n| && sum.Sum() == 0
      modifies this`bigits, sum
      ensures |bigits| == numResultBigits && sum.Sum() < |n| * 0x1_0000_0000
      ensures bigits[..|n|] + ColumnLimbs(n, |n|, numResultBigits, sum.Sum()) == ColumnLimbs(n, 0, numResultBigits, 0)
    {
      hide Column, ColumnLimbs;
      var bigitIndex := 0;
      ghost var all := ColumnLimbs(n, 0, numResultBigits, 0);
      ghost var carry := 0;
      assert bigits[..0] + all == all;
      while bigitIndex < |n|
        invariant 0 <= bigitIndex <= |n| && |bigits| == numResultBigits
        invariant sum.Sum() == carry < |n| * 0x1_0000_0000
        invariant bigits[..bigitIndex] + ColumnLimbs(n, bigitIndex, numResultBigits, carry) == all
      {
        ColumnStep(n, bigitIndex, numResultBigits, carry);
        ghost var before, total := bigits, carry + Column(n, n, bigitIndex);
        SumLowColumn(n, bigitIndex, sum);
        EmitBigit(bigitIndex, sum, total);
        carry := total / 0x1_0000_0000;
        LimbWritten(before, bigitIndex, total % 0x1_0000_0000, ColumnLimbs(n, bigitIndex + 1, numResultBigits, carry));
        bigitIndex := bigitIndex + 1;
      }
    }

    /** The upper half: the columns that start at the last limb of n. */
    method HighColumns(n: seq<Bigit>, numResultBigits: nat, sum: Accumulator)
      requires 0 < |n| < 0x4000_0000 && |bigits| == numResultBigits == 2 * |n| && sum.Sum() < |n| * 0x1_0000_0000
      modifies this`bigits, sum
      ensures bigits == old(bigits)[..|n|] + ColumnLimbs(n, |n|, numResultBigits, old(sum.Sum()))
    {
      hide Column, ColumnLimbs;
      var bigitIndex := |n|;
      ghost var carry := sum.Sum();
      ghost var all := bigits[..|n|] + ColumnLimbs(n, |n|, numResultBigits, carry);
      while bigitIndex < numResultBigits
        invariant |n| <= bigitIndex <= numResultBigits && |bigits| == numResultBigits
        invariant sum.Sum() == carry < |n| * 0x1_0000_0000
        invariant bigits[..bigitIndex] + ColumnLimbs(n, bigitIndex, numResultBigits, carry) == all
      {
        ColumnStep(n, bigitIndex, numResultBigits, carry);
        ghost var before, total := bigits, carry + Column(n, n, bigitIndex);
        SumHighColumn(n, bigitIndex, sum);
        EmitBigit(bigitIndex, sum, total);
        carry := total / 0x1_0000_0000;
        LimbWritten(before, bigitIndex, total % 0x1_0000_0000, ColumnLimbs(n, bigitIndex + 1, numResultBigits, carry));
        bigitIndex := bigitIndex + 1;
      }
      NoColumns(n, numResultBigits, carry);
      assert bigits[..bigitIndex] + [] == bigits;
    }

    /** Adds the cross products n[i] * n[j] with i + j == c to the sum, for a column of the lower half. */
    static method SumLowColumn(n: seq<Bigit>, c: nat, sum: Accumulator)
      requires c < |n| < 0x4000_0000 && sum.Sum() < |n| * 0x1_0000_0000
      modifies sum
      ensures sum.Sum() == old(sum.Sum()) + Column(n, n, c)
    {
      ColumnBound(n, n, c);
      ghost var total := sum.Sum() + Column(n, n, c);
      var i, j := 0, c as int;
      assert n[0..] == n;
      while j >= 0
        invariant 0 <= i && -1 <= j < |n| && i + j == c
        invariant sum.Sum() + Column(n[i..], n, j) == total
        decreases j
      {
        assert n[i..][0] == n[i] && n[i..][1..] == n[i + 1..];
        ProductFits(n[i], n[j]);
        sum.Add(n[i] as int * n[j] as int);
        i, j := i + 1, j - 1;
      }
      ColumnNegative(n[i..], n, j);
    }

    /** The same for a column of the top half, which starts at the last limb. */
    static method SumHighColumn(n: seq<Bigit>, c: nat, sum: Accumulator)
      requires 0 < |n| <= c < 2 * |n| < 0x8000_0000 && sum.Sum() < |n| * 0x1_0000_0000
      modifies sum
      ensures sum.Sum() == old(sum.Sum()) + Column(n, n, c)
    {
      ColumnBound(n, n, c);
      ghost var total := sum.Sum() + Column(n, n, c);
      var j := |n| - 1;
      var i := c - j;
      ColumnSkip(n, n, c, i);
      while i < |n|
        invariant c - |n| < i <= |n| && i + j == c
        invariant sum.Sum() + Column(n[i..], n, j) == total
      {
        assert n[i..][0] == n[i] && n[i..][1..] == n[i + 1..];
        ProductFits(n[i], n[j]);
        sum.Add(n[i] as int * n[j] as int);
        i, j := i + 1, j - 1;
      }
    }

    /** Stores the low limb of a finished column and keeps the carry in the accumulator. */
    method EmitBigit(index: nat, sum: Accumulator, ghost total: nat)
      requires index < |bigits| && sum.Sum() == total
      modifies this`bigits, sum
      ensures bigits == old(bigits)[index := total % 0x1_0000_0000]
      ensures sum.Sum() == total / 0x1_0000_0000
    {
      LowBigit(sum.lower, sum.upper);
      bigits := bigits[index := sum.lower % 0x1_0000_0000];
      sum.ShiftRight32();
    }

    /** 10^n as 5^n, by repeated squaring along the bits of n, shifted left by n. */
    method AssignPow10(n: nat)
      requires n < 0x4000_0000
      modifies this
      ensures Value() == Pow(10, n)
      ensures Nonzero() && exp == n / 32
    {
      hide Pow, Scaled, Val;
      if n == 0 {
        AssignWord(1);
        SmallPowers();
        return;
      }
      var bitmask, k := TopBitmask(n);
      AssignWord(5);
      SmallPowers();
      HalfPower(k);
      bitmask := bitmask / 2;
      while bitmask != 0
        invariant bitmask == (if k == 0 then 0 else Pow(2, k - 1))
        invariant exp == 0 && Nonzero() && Value() == Pow(5, Prefix(n, k))
        decreases k
      {
        k := k - 1;
        PrefixIsQuotient(n, k);
        ghost var q := Prefix(n, k);
        FewLimbs(bigits, q / 2, n);
        PowAdd(5, q / 2, q / 2);
        Square();
        if HasBit(n, bitmask) {
          TimesBigit(5);
          FiveMore(q - 1);
        }
        HalfPower(k);
        bitmask := bitmask / 2;
      }
      PowMulBase(5, 2, n);
      ShiftLeft(n);
    }

    /** The top bit of n. */
    static method TopBitmask(n: nat) returns (bitmask: int, ghost k: nat)
      requires n > 0
      ensures bitmask == Pow(2, k) && Prefix(n, k) == 1
    {
      bitmask := 1;
      k := 0;
      while n >= bitmask
        invariant bitmask == Pow(2, k)
        invariant k > 0 ==> n >= bitmask / 2
        decreases n - bitmask
      {
        bitmask, k := bitmask * 2, k + 1;
      }
      bitmask, k := bitmask / 2, k - 1;
      TopBit(n, k);
    }

    /** Lowers the limb exponent to other's, if it is higher, by inserting zero limbs. */
    method Align(other: Bigint)
      requires other != this && Normal()
      modifies this
      ensures exp == Min(old(exp), other.exp) && NumBigits() == old(NumBigits())
      ensures Normal() || !old(Nonzero())
      ensures old(Nonzero()) ==> Nonzero()
      ensures Value() == old(Value())
    {
      var expDifference: int := exp - other.exp;
      if expDifference <= 0 { return; }
      ghost var s := bigits;
      var numBigits := |bigits|;
      bigits := bigits + seq(expDifference, _ => 0);
      var i := numBigits - 1;
      var j := i + expDifference;
      while i >= 0
        invariant exp == old(exp) && |bigits| == numBigits + expDifference
        invariant -1 <= i < numBigits && j == i + expDifference
        invariant forall m :: 0 <= m <= i ==> bigits[m] == s[m]
        invariant forall m :: i < m < numBigits ==> bigits[m + expDifference] == s[m]
      {
        bigits := bigits[j := bigits[i]];
        i, j := i - 1, j - 1;
      }
      assert bigits[expDifference..] == s;
      bigits := seq(expDifference, _ => 0) + bigits[expDifference..];
      exp := exp - expDifference;
      ZeroPrefix(seq(expDifference, _ => 0), s, exp);
    }

    /**
     Division by repeated subtraction. The one pair of operands it gets wrong is the pair its first
     comparison gets wrong: equal numbers whose dividend has the larger limb exponent.
     */
    method DivmodAssign(divisor: Bigint) returns (quotient: nat)
      requires divisor != this && Normal() && divisor.Nonzero()
      requires Nonzero() ==> Value() < 0x8000_0000 * divisor.Value()
      requires !Nonzero() ==> NumBigits() <= divisor.NumBigits()
      modifies this
      ensures var v, d := old(Value()), divisor.Value();
              var missed := old(exp) > divisor.exp && v == d;
              && d > 0
              && quotient == (if missed then 0 else v / d)
              && Value() == (if missed then v else v % d)
      ensures Normal() && (quotient > 0 ==> exp == Min(old(exp), divisor.exp))
      ensures quotient == 0 ==> exp == old(exp) && bigits == old(bigits)
      ensures NumBigits() <= divisor.NumBigits() + (if Nonzero() then 1 else 0)
    {
      hide Scaled, Val, Stuck, Multiple, Weight;
      if Nonzero() { IntQuotientLimbs(bigits, exp, divisor.bigits, divisor.exp); }
      Magnitude(bigits, exp);
      Magnitude(divisor.bigits, divisor.exp);
      ZeroIffTop(bigits);
      ZeroIffTop(divisor.bigits);
      ghost var v, d := Value(), divisor.Value();
      MultipleStep(0, d);
      var c := Compare(this, divisor);
      if c < 0 {
        if v < d { MultipleIsQuotient(v, d, 0, v); }
        return 0;
      }
      Align(divisor);
      quotient := Subtractions(divisor);
      ZeroIffTop(bigits);
    }

    /** The loop of DivmodAssign: subtractions until the rest is smaller than the divisor. */
    method Subtractions(divisor: Bigint) returns (quotient: nat)
      requires divisor != this && Normal() && Nonzero() && divisor.Nonzero()
      requires exp <= divisor.exp && NumBigits() <= divisor.NumBigits() + 1 && Value() >= divisor.Value() > 0
      modifies this`bigits
      ensures Normal() && quotient > 0
      ensures quotient == old(Value()) / divisor.Value() && Value() == old(Value()) % divisor.Value()
      ensures NumBigits() <= divisor.NumBigits() + (if Nonzero() then 1 else 0)
    {
      hide Scaled, Val, Stuck, Multiple, Weight;
      ghost var v, d := Value(), divisor.Value();
      ZeroIffTop(divisor.bigits);
      MultipleStep(0, d);
      quotient := 0;
      while true
        invariant Normal() && Nonzero()
        invariant NumBigits() <= divisor.NumBigits() + 1
        invariant v == Multiple(quotient, d) + Value() && Value() >= d
        decreases Value()
      {
        SubtractAligned(divisor);
        MultipleStep(quotient, d);
        quotient := quotient + 1;
        Magnitude(bigits, exp);
        ZeroIffTop(bigits);
        var c := Compare(this, divisor);
        if c < 0 { break; }
      }
      MultipleIsQuotient(v, d, quotient, Value());
    }
  }

  // ---- facts the methods above lean on ----

  /** A borrow pending after the last limb of the subtrahend comes out of the one limb left. */
  /** Writing limb i moves it from what is still to come to what is done. */
  lemma LimbWritten(before: seq<Bigit>, i: nat, x: Bigit, rest: seq<Bigit>)
    requires i < |before|
    ensures before[i := x][..i + 1] + rest == before[..i] + ([x] + rest)
  {
    assert before[i := x][..i + 1] == before[..i] + [x];
  }

  /** quotient times divisor, kept out of the solver's sight. */
  function Multiple(q: nat, d: nat): nat { q * d }

  lemma MultipleStep(q: nat, d: nat)
    ensures Multiple(0, d) == 0 && Multiple(q + 1, d) == Multiple(q, d) + d
  {
    Distribute(q, 1, d);
  }

  lemma MultipleIsQuotient(v: nat, d: nat, q: nat, r: nat)
    requires r < d && v == Multiple(q, d) + r
    ensures v / d == q && v % d == r
  {
    DivUnique(v, d, q, r);
  }

  lemma SmallPowers()
    ensures Pow(10, 0) == 1 && Pow(5, 1) == 5
  {
    assert Pow(5, 0) == 1;
  }

  lemma FiveMore(m: nat)
    ensures Pow(5, m + 1) == 5 * Pow(5, m)
  {
  }

  lemma HalfPower(k: nat)
    ensures Pow(2, k) / 2 == if k == 0 then 0 else Pow(2, k - 1)
  {
  }

  lemma DifferenceLength(s: seq<Bigit>, t: seq<Bigit>)
    requires |t| <= |s| && Val(s) >= Val(t)
    ensures |Minus(s, t, 0)| == |s|
  {
    MinusExactIff(s, t, 0);
  }

  /** The limbs d of the difference, stripped to r, have the difference of the values unless a borrow got stuck. */
  lemma SubtractedValue(s: seq<Bigit>, e: nat, t: seq<Bigit>, f: nat, d: seq<Bigit>, r: seq<Bigit>)
    requires e <= f && f - e + |t| <= |s| && Val(s[f - e..]) >= Val(t)
    requires d == s[..f - e] + Minus(s[f - e..], t, 0) && Val(r) == Val(d)
    ensures Scaled(r, e) == Scaled(s, e) - Scaled(t, f) <==> !Stuck(s[f - e..], t, 0)
    ensures |s| + e <= |t| + f + 1 ==> Scaled(r, e) == Scaled(s, e) - Scaled(t, f)
  {
    hide Val, Scaled, Minus, Stuck;
    var k := f - e;
    MinusExactIff(s[k..], t, 0);
    if |s| + e <= |t| + f + 1 { NeverStuck(s[k..], t, 0); }
    assert d[k..] == Minus(s[k..], t, 0) && d[..k] == s[..k];
    AlignedDifference(s, d, e, t, f);
    ScaledOfVal(d, r, e);
  }

  /** A quotient that fits an int needs at most one limb position more in the dividend. */
  lemma IntQuotientLimbs(s: seq<Bigit>, e: nat, t: seq<Bigit>, f: nat)
    requires |s| > 0 && |t| > 0 && s[|s| - 1] != 0
    requires Scaled(s, e) < 0x8000_0000 * Scaled(t, f)
    ensures |s| + e <= |t| + f + 1
  {
    Magnitude(s, e);
    Magnitude(t, f);
    if |s| + e > |t| + f + 1 { WeightMonotone(|t| + f + 1, |s| + e - 1); }
  }

  lemma LastBorrow(mid: seq<Bigit>, s: seq<Bigit>, i: nat, t: seq<Bigit>)
    requires i <= |s| == |mid| && mid[i..] == s[i..]
    requires t == [] && Val(s[i..]) >= 1
    ensures i < |mid|
    ensures mid[..i] + Minus(s[i..], t, 1) == mid[i := if mid[i] > 0 then mid[i] - 1 else 0xffff_fffe]
  {
    assert mid[i..][0] == s[i..][0];
  }

  lemma SquareNormal(n: seq<Bigit>, r: seq<Bigit>)
    requires NormalLimbs(n) && NormalLimbs(r) && Val(r) == Val(n) * Val(n)
    ensures r[|r| - 1] != 0 <==> n[|n| - 1] != 0
  {
    ZeroIffTop(n);
    ZeroIffTop(r);
    if Val(n) > 0 { MulMono(1, Val(n), Val(n)); }
  }

  lemma ScaledProduct(s: seq<Bigit>, e: nat, value: Word)
    requires value > 0 && NormalLimbs(s)
    ensures var r := Times(s, value, 0);
            && NormalLimbs(r) && |r| >= |s| && (r[|r| - 1] != 0 <==> s[|s| - 1] != 0)
            && Scaled(r, e) == Scaled(s, e) * value
            && (r[|r| - 1] == 0 ==> r == s)
  {
    TimesValue(s, value, 0);
    ProductNormal(s, Times(s, value, 0), value);
    ScaledTimes(s, Times(s, value, 0), e, value);
  }

  lemma {:induction false} ScaledTimes(s: seq<Bigit>, r: seq<Bigit>, e: nat, value: nat)
    requires Val(r) == Val(s) * value
    ensures Scaled(r, e) == Scaled(s, e) * value
  {
    if e > 0 {
      ScaledTimes(s, r, e - 1, value);
      MulAssoc(0x1_0000_0000, Scaled(s, e - 1), value);
    }
  }

  /** With a 32-bit factor and a 32-bit carry, one product already holds digit and carry. */
  lemma NarrowLimb(a: Bigit, value: Bigit, carry: Bigit)
    ensures 0 <= a * value + carry < 0x1_0000_0000_0000_0000
    ensures TimesDigit(a, value, carry) == (a * value + carry) % 0x1_0000_0000
    ensures TimesCarry(a, value, carry) == (a * value + carry) / 0x1_0000_0000
  {
    ProductFits(a, value);
    assert value % 0x1_0000_0000 == value && value / 0x1_0000_0000 == 0;
    assert carry % 0x1_0000_0000 == carry && carry / 0x1_0000_0000 == 0;
  }

  lemma WeightStep(m: nat)
    ensures Weight(m + 1) == 0x1_0000_0000 * Weight(m)
  {
  }

  lemma SumTooShort(s: seq<Bigit>, e: nat, t: seq<Bigit>, f: nat, u: seq<Bigit>, g: nat)
    requires |s| > 0 && |t| > 0 && |u| > 0 && u[|u| - 1] != 0
    requires |s| + e + 1 < |u| + g && |t| + f + 1 < |u| + g
    ensures Scaled(s, e) + Scaled(t, f) < Scaled(u, g)
  {
    hide Scaled, Val, Weight;
    Magnitude(s, e);
    Magnitude(t, f);
    Magnitude(u, g);
    var m := |u| + g - 2;
    WeightMonotone(|s| + e, m);
    WeightMonotone(|t| + f, m);
    WeightStep(m);
  }

  lemma LongerThan(s: seq<Bigit>, e: nat, u: seq<Bigit>, g: nat)
    requires |s| > 0 && |u| > 0 && s[|s| - 1] != 0
    requires |s| + e > |u| + g
    ensures Scaled(s, e) > Scaled(u, g)
  {
    LimbCountOrder(u, g, s, e);
  }

  /** 5^k needs fewer than k + 2 limbs. */
  lemma FewLimbs(s: seq<Bigit>, k: nat, n: nat)
    requires |s| > 0 && s[|s| - 1] != 0 && Scaled(s, 0) == Pow(5, k)
    requires 2 * k <= n
    ensures |s| <= n / 2 + 1
  {
    TopNonzero(s);
    FiveBelowLimb(k);
    if |s| - 1 > k { WeightMonotone(k + 1, |s| - 1); }
  }

  lemma {:induction false} FiveBelowLimb(k: nat)
    ensures Pow(5, k) <= Weight(k)
  {
    if k > 0 { FiveBelowLimb(k - 1); }
  }
}
