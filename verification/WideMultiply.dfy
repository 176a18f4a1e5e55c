/**
 The bundled fmt's portable 64x64 to 128 bit products, for compilers without a 128-bit integer.
 Results of type Word are proved not to wrap.
 */
module WideMultiply {
  import opened Words

  /** uint128_wrapper */
  datatype Wide = Wide(high: Word, low: Word) {
    function Value(): nat { high * 0x1_0000_0000_0000_0000 + low }
  }

  function Hi(x: Word): Bigit { x / 0x1_0000_0000 }

  function Lo(x: Word): Bigit { x % 0x1_0000_0000 }

  /** The product of two 32-bit halves fits a word with room for two more halves. */
  function HalfProduct(a: Bigit, b: Bigit): (r: Word)
    ensures r <= 0xffff_fffe_0000_0001
  {
    MulMono(a, 0xffff_ffff, b);
    MulMono(b, 0xffff_ffff, 0xffff_ffff);
    (a as int) * b
  }

  lemma FourProducts(x: Word, y: Word)
    ensures x * y == HalfProduct(Hi(x), Hi(y)) * 0x1_0000_0000_0000_0000
                     + (HalfProduct(Lo(x), Hi(y)) + HalfProduct(Hi(x), Lo(y)) as int) * 0x1_0000_0000
                     + HalfProduct(Lo(x), Lo(y))
  {
    var a, b, c, d := Hi(x) as int, Lo(x) as int, Hi(y) as int, Lo(y) as int;
    assert x == 0x1_0000_0000 * a + b && y == 0x1_0000_0000 * c + d;
    calc {
      x * y;
      { Distribute(0x1_0000_0000 * a, b, y); MulAssoc(0x1_0000_0000, a, y); }
      0x1_0000_0000 * (a * y) + b * y;
      { Distribute(0x1_0000_0000 * c, d, a); MulReorder(0x1_0000_0000, c, a); }
      0x1_0000_0000 * (0x1_0000_0000 * (a * c) + a * d) + b * y;
      { Distribute(0x1_0000_0000 * c, d, b); MulReorder(0x1_0000_0000, c, b); }
      0x1_0000_0000 * (0x1_0000_0000 * (a * c) + a * d) + 0x1_0000_0000 * (b * c) + b * d;
    }
  }

  /** The exact 128-bit product. */
  function Umul128(x: Word, y: Word): (r: Wide)
    ensures r.Value() == x * y
  {
    FourProducts(x, y);
    var ac, bc := HalfProduct(Hi(x), Hi(y)), HalfProduct(Lo(x), Hi(y));
    var ad, bd := HalfProduct(Hi(x), Lo(y)), HalfProduct(Lo(x), Lo(y));
    var intermediate: Word := Hi(bd) as int + Lo(ad) + Lo(bc);
    Assemble(ac, bc, ad, bd);
    var high: int := ac as int + Hi(intermediate) + Hi(ad) + Hi(bc);
    Wide(high, (intermediate * 0x1_0000_0000) % 0x1_0000_0000_0000_0000 + Lo(bd))
  }

  /** Adding up the four products column by column loses nothing and does not overflow. */
  lemma Assemble(ac: Word, bc: Word, ad: Word, bd: Word)
    requires ac <= 0xffff_fffe_0000_0001 && bc <= 0xffff_fffe_0000_0001
    requires ad <= 0xffff_fffe_0000_0001 && bd <= 0xffff_fffe_0000_0001
    ensures var mid: int := Hi(bd) as int + Lo(ad) + Lo(bc);
            var high: int := ac as int + Hi(mid) + Hi(ad) + Hi(bc);
            var low: int := (mid * 0x1_0000_0000) % 0x1_0000_0000_0000_0000 + Lo(bd);
            && high <= 0xffff_ffff_ffff_fffe && low <= 0xffff_ffff_ffff_ffff
            && high * 0x1_0000_0000_0000_0000 + low
               == ac * 0x1_0000_0000_0000_0000 + (bc + ad as int) * 0x1_0000_0000 + bd
  {
    var mid: int := Hi(bd) as int + Lo(ad) + Lo(bc);
    DivUnique(mid * 0x1_0000_0000, 0x1_0000_0000_0000_0000, mid / 0x1_0000_0000, (mid % 0x1_0000_0000) * 0x1_0000_0000);
  }

  function Umul128Upper64(x: Word, y: Word): (r: Word)
    ensures r == (x * y) / 0x1_0000_0000_0000_0000
  {
    Umul128(x, y).high
  }

  /** Adds a word, modulo 2^128: the low sum carries when it comes out smaller than it went in. */
  function PlusWord(w: Wide, n: Word): (r: Wide)
    ensures r.Value() == (w.Value() + n) % 0x1_0000_0000_0000_0000_0000_0000_0000_0000
  {
    var sum: Word := (w.low + n) % 0x1_0000_0000_0000_0000;
    var high: Word := (w.high + if sum < w.low then 1 else 0) % 0x1_0000_0000_0000_0000;
    WrappedSum(w, n, sum, high);
    Wide(high, sum)
  }

  lemma WrappedSum(w: Wide, n: Word, sum: Word, high: Word)
    requires sum == (w.low + n) % 0x1_0000_0000_0000_0000
    requires high == (w.high + if sum < w.low then 1 else 0) % 0x1_0000_0000_0000_0000
    ensures high * 0x1_0000_0000_0000_0000 + sum
         == (w.Value() + n) % 0x1_0000_0000_0000_0000_0000_0000_0000_0000
  {
    var t, m: int := w.Value() + n, 0x1_0000_0000_0000_0000_0000_0000_0000_0000;
    var r: int := high * 0x1_0000_0000_0000_0000 + sum;
    DivUnique(t, m, if t < m then 0 else 1, r);
  }

  lemma ProductBelow(x: Word, y: Word)
    ensures 0 <= x * y <= 0xffff_ffff_ffff_fffe_0000_0000_0000_0001
  {
    MulMono(x, 0xffff_ffff_ffff_ffff, y);
    MulMono(y, 0xffff_ffff_ffff_ffff, 0xffff_ffff_ffff_ffff);
  }

  lemma ProductOfWide(x: Word, y: Wide)
    ensures x * y.Value() == (x * y.high) * 0x1_0000_0000_0000_0000 + x * y.low
  {
    Distribute(y.high * 0x1_0000_0000_0000_0000, y.low, x);
    MulReorder(y.high, 0x1_0000_0000_0000_0000, x);
  }

  /** With the low word's product cut off, the upper two words still fit 128 bits. */
  lemma UpperSum(x: Word, y: Wide)
    ensures var p, t: int := Umul128(x, y.high).Value() + Umul128Upper64(x, y.low), x * y.Value();
            p % 0x1_0000_0000_0000_0000_0000_0000_0000_0000 == t / 0x1_0000_0000_0000_0000 && t >= 0
  {
    hide Umul128, Umul128Upper64, Wide.Value;
    ProductOfWide(x, y);
    ProductBelow(x, y.high);
    ProductBelow(x, y.low);
    TwoParts(x * y.high, x * y.low, x * y.Value());
  }

  lemma TwoParts(a: int, b: int, t: int)
    requires 0 <= a <= 0xffff_ffff_ffff_fffe_0000_0000_0000_0001
    requires 0 <= b <= 0xffff_ffff_ffff_fffe_0000_0000_0000_0001
    requires t == a * 0x1_0000_0000_0000_0000 + b
    ensures (a + b / 0x1_0000_0000_0000_0000) % 0x1_0000_0000_0000_0000_0000_0000_0000_0000
         == t / 0x1_0000_0000_0000_0000
    ensures t >= 0
  {
    DivUnique(t, 0x1_0000_0000_0000_0000, a + b / 0x1_0000_0000_0000_0000, b % 0x1_0000_0000_0000_0000);
  }

  lemma HighWord(w: Wide, t: int)
    requires t >= 0 && w.Value() == t / 0x1_0000_0000_0000_0000
    ensures w.high == t / 0x1_0000_0000_0000_0000_0000_0000_0000_0000
  {
  }

  lemma UpperWord(x: Word, y: Wide)
    ensures PlusWord(Umul128(x, y.high), Umul128Upper64(x, y.low)).high
         == (x * y.Value()) / 0x1_0000_0000_0000_0000_0000_0000_0000_0000
  {
    hide Umul128, Umul128Upper64, PlusWord, Wide.Value;
    UpperSum(x, y);
    HighWord(PlusWord(Umul128(x, y.high), Umul128Upper64(x, y.low)), x * y.Value());
  }

  /** The top word of the 192-bit product. */
  function Umul192Upper64(x: Word, y: Wide): (r: Word)
    ensures r == (x * y.Value()) / 0x1_0000_0000_0000_0000_0000_0000_0000_0000
  {
    UpperWord(x, y);
    PlusWord(Umul128(x, y.high), Umul128Upper64(x, y.low)).high
  }

  lemma MiddleWord(p: int, q: int)
    ensures (p * 0x1_0000_0000_0000_0000 + q) / 0x1_0000_0000_0000_0000 % 0x1_0000_0000_0000_0000
         == (p % 0x1_0000_0000_0000_0000 + q / 0x1_0000_0000_0000_0000) % 0x1_0000_0000_0000_0000
  {
    var m, n := 0x1_0000_0000_0000_0000, q / 0x1_0000_0000_0000_0000;
    DivUnique(p * m + q, m, p + n, q % m);
    var k := (p % m + n) / m;
    DivUnique(p + n, m, p / m + k, (p % m + n) % m);
  }

  /** The middle word of the 192-bit product, computed modulo 2^64. */
  function Umul192Middle64(x: Word, y: Wide): (r: Word)
    ensures r == (x * y.Value()) / 0x1_0000_0000_0000_0000 % 0x1_0000_0000_0000_0000
  {
    ProductOfWide(x, y);
    ProductBelow(x, y.high);
    ProductBelow(x, y.low);
    MiddleWord(x * y.high, x * y.low);
    var g01 := ((x as int) * y.high) % 0x1_0000_0000_0000_0000;
    var g10 := Umul128Upper64(x, y.low);
    (g01 + g10) % 0x1_0000_0000_0000_0000
  }

  lemma NarrowProduct(x: Bigit, y: Word)
    ensures var h := Umul128Upper64(x, y);
            h < 0x1_0000_0000 && h % 0x1_0000_0000 == h && h == (x * y) / 0x1_0000_0000_0000_0000
  {
    hide Umul128;
    MulMono(x, 0xffff_ffff, y);
    MulMono(0, x, y);
    var p: int := x * y;
    assert 0 <= p <= 0xffff_ffff * 0xffff_ffff_ffff_ffff;
  }

  /** The top 32 bits of a 96-bit product; the narrowing cast drops nothing. */
  function Umul96Upper32(x: Bigit, y: Word): (r: Bigit)
    ensures r == (x * y) / 0x1_0000_0000_0000_0000
  {
    NarrowProduct(x, y);
    Umul128Upper64(x, y) % 0x1_0000_0000
  }

  /** lhs * rhs / 2^64 rounded to nearest, ties up, from 32-bit parts. */
  function Multiply(lhs: Word, rhs: Word): (r: Word)
    ensures r == (lhs * rhs + 0x8000_0000_0000_0000) / 0x1_0000_0000_0000_0000
  {
    FourProducts(lhs, rhs);
    ProductBelow(lhs, rhs);
    var ac, bc := HalfProduct(Hi(lhs), Hi(rhs)), HalfProduct(Lo(lhs), Hi(rhs));
    var ad, bd := HalfProduct(Hi(lhs), Lo(rhs)), HalfProduct(Lo(lhs), Lo(rhs));
    var mid: Word := Hi(bd) as int + Lo(ad) + Lo(bc) + 0x8000_0000;
    ac as int + Hi(ad) + Hi(bc) + Hi(mid)
  }

  /** The variant for compilers with a 128-bit integer: the upper word, plus one if bit 63 is set. */
  function MultiplyInt128(lhs: Word, rhs: Word): int {
    var product := (lhs as int) * rhs;
    var f := product / 0x1_0000_0000_0000_0000;
    if (product % 0x1_0000_0000_0000_0000) / 0x8000_0000_0000_0000 % 2 != 0 then f + 1 else f
  }

  /** Both variants round alike. */
  lemma VariantsAgree(lhs: Word, rhs: Word)
    ensures Multiply(lhs, rhs) == MultiplyInt128(lhs, rhs)
  {
    var p: int := (lhs as int) * rhs;
    var f, m := p / 0x1_0000_0000_0000_0000, p % 0x1_0000_0000_0000_0000;
    if m >= 0x8000_0000_0000_0000 {
      DivUnique(p + 0x8000_0000_0000_0000, 0x1_0000_0000_0000_0000, f + 1, m - 0x8000_0000_0000_0000);
    } else {
      DivUnique(p + 0x8000_0000_0000_0000, 0x1_0000_0000_0000_0000, f, m + 0x8000_0000_0000_0000);
    }
  }
}
