/** 64-bit words as integers below W, with the wrap-around of the machine written out,
    and the portable forms of the two wide primitives. */
module Words {
  import opened Arith

  const W: nat := 0x1_0000_0000_0000_0000
  const HALF: nat := 0x8000_0000_0000_0000
  const ONES: word := 0xFFFF_FFFF_FFFF_FFFF

  type word = x: nat | x < W

  function AddW(a: word, b: word): (r: word)
    ensures r == (a + b) % W
  {
    if a + b < W then a + b else a + b - W
  }

  function SubW(a: word, b: word): (r: word)
    ensures r == (a - b) % W
  {
    if a >= b then a - b else a - b + W
  }

  /** The number in two words, high first. */
  function Pair(hi: nat, lo: nat): nat { hi * W + lo }

  lemma PairOrder(h1: nat, l1: word, h2: nat, l2: word)
    ensures Pair(h1, l1) > Pair(h2, l2) <==> h1 > h2 || (h1 == h2 && l1 > l2)
  {
    if h1 > h2 { MulGap(h2, h1, W); } else if h1 < h2 { MulGap(h1, h2, W); }
  }

  lemma PairSum(a: nat, b: nat, lo: nat)
    ensures Pair(a + b, lo) == Pair(a, 0) + Pair(b, lo)
  {
  }

  lemma PairTimes(q: nat, hi: nat, lo: nat)
    ensures q * Pair(hi, lo) == Pair(q * hi, 0) + q * lo
  {
    assert q * (hi * W) == q * hi * W;
  }

  function NotW(a: word): word { W - 1 - a }

  function Bit(b: bool): word { if b then 1 else 0 }

  /** x >> i. */
  function Shr(x: nat, i: nat): (r: nat)
    ensures r <= x
  {
    QuotRem(x, Pow2(i));
    MulMono(1, Pow2(i), Quot(x, Pow2(i)));
    Quot(x, Pow2(i))
  }

  /** x << b inside one word. */
  function ShlW(x: word, b: nat): word { x * Pow2(b) % W }

  /** A shifted word and the bits shifted out of it are together the product. */
  lemma ShiftParts(x: word, b: nat)
    requires b < 64
    ensures Shr(x, 64 - b) * W + ShlW(x, b) == x * Pow2(b)
    ensures Shr(x, 64 - b) < Pow2(b) && Rem(ShlW(x, b), Pow2(b)) == 0
  {
    var s, t := Pow2(b), Pow2(64 - b);
    WordSplit(b);
    hide Pow2, Quot, Rem;
    var h, l := Quot(x, t), Rem(x, t);
    QuotRem(x, t);
    QuotLess(x, t, s);
    ShiftSplit(x, h, l, s, t);
    MulStrict(l, t, s);
    DivModUnique(x * s, W, h, l * s);
    QuotUnique(l * s, s, l, 0);
  }

  lemma ShiftSplit(x: int, h: int, l: int, s: int, t: int)
    requires x == h * t + l
    ensures x * s == h * (s * t) + l * s
  {
    assert (h * t + l) * s == h * (s * t) + l * s;
  }

  /** May high | low be computed as a sum? high is clear below bit b, low only has bits below b. */
  predicate OrFits(high: word, low: nat, b: nat) {
    b <= 64 && Rem(high, Pow2(b)) == 0 && low < Pow2(b)
  }

  function OrBits(high: word, low: nat, b: nat): (r: word)
    requires OrFits(high, low, b)
    ensures r == high + low
  {
    OrBound(high, low, b);
    high + low
  }

  lemma OrBound(high: word, low: nat, b: nat)
    requires OrFits(high, low, b)
    ensures high + low < W
  {
    var s, t := Pow2(b), Pow2(64 - b);
    WordSplit(b);
    hide *;
    QuotRem(high, s);
    QuotLess(high, s, t);
    MulGap(Quot(high, s), t, s);
  }

  lemma WordSplit(b: nat)
    requires b <= 64
    ensures Pow2(b) * Pow2(64 - b) == W
  {
    Pow2Words();
    PowAdd(2, b, 64 - b);
  }

  /** Number of leading zero bits of a nonzero word. */
  function CountlZero(x: nat): (k: nat)
    requires 0 < x < W
    ensures k < 64 && HALF <= x * Pow2(k) < W
    decreases W - x
  {
    if x >= HALF then 0
    else
      var k := CountlZero(2 * x);
      assert x * (2 * Pow2(k)) == 2 * x * Pow2(k);
      assert k < 63 by { if k >= 63 { Pow2Words(); PowMono(2, 63, k); MulMono(2, 2 * x, Pow2(k)); MulMono(HALF, Pow2(k), 2); } }
      k + 1
  }

  /** mul64x64 without a wider type: four 32-bit products, no intermediate wraps. */
  method Mul64x64(u: word, v: word) returns (hi: word, lo: word)
    ensures hi * W + lo == u * v
  {
    var u0: half, u1: half, v0: half, v1: half := u % HALF_WORD, u / HALF_WORD, v % HALF_WORD, v / HALF_WORD;
    LongMultiplication(u, v);
    hide HalfMul;
    var w0: word := HalfMul(u0, v0);
    var t: word := HalfMul(u1, v0) + w0 / HALF_WORD;
    var w1: word := t % HALF_WORD;
    var w2: word := t / HALF_WORD;
    w1 := w1 + HalfMul(u0, v1);
    w2 := w2 + w1 / HALF_WORD;
    w1 := w1 % HALF_WORD;
    hi := HalfMul(u1, v1) + w2;
    lo := w1 * HALF_WORD + w0 % HALF_WORD;
  }

  const HALF_WORD := 0x1_0000_0000

  type half = x: int | 0 <= x < HALF_WORD

  /** The product of two half words leaves room for two more of them. */
  function HalfMul(a: half, b: half): (p: word)
    ensures p <= (HALF_WORD - 1) * (HALF_WORD - 1)
  {
    MulBound(a, HALF_WORD - 1, b, HALF_WORD - 1);
    a * b
  }

  lemma LongMultiplication(u: word, v: word)
    ensures u * v == HalfMul(u / HALF_WORD, v / HALF_WORD) * W
                     + (HalfMul(u / HALF_WORD, v % HALF_WORD) + HalfMul(u % HALF_WORD, v / HALF_WORD)) * HALF_WORD
                     + HalfMul(u % HALF_WORD, v % HALF_WORD)
  {
    var u0, u1, v0, v1 := u % HALF_WORD, u / HALF_WORD, v % HALF_WORD, v / HALF_WORD;
    CrossProducts(u1, u0, v1, v0, HALF_WORD);
    assert u == u1 * HALF_WORD + u0 && v == v1 * HALF_WORD + v0;
  }

  lemma CrossProducts(a1: int, a0: int, b1: int, b0: int, radix: int)
    ensures (a1 * radix + a0) * (b1 * radix + b0) ==
            (a1 * b1) * (radix * radix) + (a1 * b0 + a0 * b1) * radix + a0 * b0
  {
    var x := b1 * radix + b0;
    assert (a1 * radix + a0) * x == a1 * radix * x + a0 * x;
    assert a1 * radix * x == (a1 * b1) * (radix * radix) + (a1 * b0) * radix;
    assert a0 * x == (a0 * b1) * radix + a0 * b0;
  }

  /** Portable div128by64: 64 shift-and-subtract steps; the shifted-out bit of the
      remainder is carried separately, so a divisor above 2^63 is handled too. */
  method Div128By64(high: word, low: word, divisor: word) returns (q: word, rem: word)
    requires high < divisor
    ensures q * divisor + rem == high * W + low && rem < divisor
  {
    q, rem := 0, high;
    ghost var taken: nat, digits: nat := high, 0;  // the numerator bits consumed, and their quotient
    DivideStart(high, low, divisor);
    hide *;
    var i := 64;
    while i > 0
      invariant 0 <= i <= 64 && Dividing(high, low, divisor, i, q, rem, digits, taken)
    {
      i := i - 1;
      DivideBit(high, low, divisor, i, q, rem, digits, taken);
      var bit := Shr(low, i) % 2;
      var carry := rem / HALF % 2 == 1;
      var shifted: word := rem * 2 % W + bit;
      taken := 2 * taken + bit;
      if carry || shifted >= divisor {
        rem := SubW(shifted, divisor);
        q := q + Pow2(i);
        digits := 2 * digits + 1;
      } else {
        rem := shifted;
        digits := 2 * digits;
      }
    }
    DivideEnd(high, low, divisor, q, rem, digits, taken);
  }

  /** After the bits above i: their quotient and remainder, and q holds the quotient shifted back. */
  ghost predicate Dividing(high: word, low: word, divisor: word, i: nat, q: nat, rem: nat, digits: nat, taken: nat) {
    && rem < divisor && taken == digits * divisor + rem
    && taken * Pow2(i) + Rem(low, Pow2(i)) == high * W + low
    && q == digits * Pow2(i) && digits * Pow2(i) + Pow2(i) <= W
  }

  lemma DivideStart(high: word, low: word, divisor: word)
    requires high < divisor
    ensures Dividing(high, low, divisor, 64, 0, high, 0, high)
  {
    Pow2Words();
    QuotUnique(low, W, 0, low);
  }

  lemma DivideBit(high: word, low: word, divisor: word, i: nat, q: nat, rem: word, digits: nat, taken: nat)
    requires Dividing(high, low, divisor, i + 1, q, rem, digits, taken)
    ensures var bit := Shr(low, i) % 2; var shifted := rem * 2 % W + bit;
            shifted < W &&
            if rem / HALF % 2 == 1 || shifted >= divisor
            then q + Pow2(i) < W && Dividing(high, low, divisor, i, q + Pow2(i), SubW(shifted, divisor), 2 * digits + 1, 2 * taken + bit)
            else Dividing(high, low, divisor, i, q, shifted, 2 * digits, 2 * taken + bit)
  {
    var p, bit := Pow2(i), Shr(low, i) % 2;
    assert Pow2(i + 1) == 2 * p;
    TakeBit(taken, digits, divisor, low, p);
    ShiftSubtract(rem, bit, divisor);
    hide Pow, Rem, Quot, Shr, SubW;
    Double(digits, p);
    Double(digits, divisor);
  }

  lemma DivideEnd(high: word, low: word, divisor: word, q: nat, rem: nat, digits: nat, taken: nat)
    requires Dividing(high, low, divisor, 0, q, rem, digits, taken)
    ensures q * divisor + rem == high * W + low && rem < divisor
  {
    assert Pow2(0) == 1;
    QuotRem(low, 1);
  }

  lemma TakeBit(taken: nat, digits: nat, divisor: nat, low: nat, p: pos)
    ensures Rem(low, 2 * p) == (Quot(low, p) % 2) * p + Rem(low, p)
    ensures (2 * taken + Quot(low, p) % 2) * p == taken * (2 * p) + (Quot(low, p) % 2) * p
    ensures digits * (2 * p) == (2 * digits) * p && (2 * digits + 1) * p == digits * (2 * p) + p
    ensures (2 * digits) * divisor == 2 * (digits * divisor)
    ensures (2 * digits + 1) * divisor == 2 * (digits * divisor) + divisor
  {
    QuotRem(low, p);
    var q := Quot(low, p);
    Halve(q / 2, q % 2, p);
    Halve(taken, q % 2, p);
    Halve(digits, 0, p);
    Halve(digits, 1, p);
    Double(digits, divisor);
    QuotUnique(low, 2 * p, q / 2, (q % 2) * p + Rem(low, p));
  }

  lemma Halve(h: nat, bit: nat, p: nat)
    ensures (2 * h + bit) * p == h * (2 * p) + bit * p
  {
  }

  lemma Double(x: nat, d: nat)
    ensures (2 * x) * d == 2 * (x * d) && (2 * x + 1) * d == 2 * (x * d) + d
  {
  }

  lemma ShiftSubtract(rem: word, bit: nat, divisor: word)
    requires rem < divisor && bit < 2
    ensures rem * 2 % W + bit < W
    ensures var shifted: word := rem * 2 % W + bit;
            if rem / HALF % 2 == 1 || shifted >= divisor
            then SubW(shifted, divisor) == 2 * rem + bit - divisor < divisor
            else shifted == 2 * rem + bit < divisor
  {
    assert rem * 2 % W == if rem >= HALF then rem * 2 - W else rem * 2;
  }
}
