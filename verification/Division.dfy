/** 128-bit products and quotients: the native forms, and the portable ones with their
    carry arguments. A 128-bit word is a dword; Pair names its two limbs. */
module Division {
  import opened Arith
  import opened Words
  import opened Rounding
  import opened Knuth

  const W2: nat := 0x1_0000_0000_0000_0000_0000_0000_0000_0000

  type dword = x: nat | x < W2

  datatype Quotient = Quotient(quotient: dword, remainder: dword)

  lemma PairBound(hi: word, lo: word)
    ensures Pair(hi, lo) < W2
  {
  }

  lemma Split(x: dword)
    ensures x / W < W && x % W < W && x == Pair(x / W, x % W)
  {
  }

  // ----- products -----

  /** The widening product of two words. */
  function MulW(a: word, b: word): dword {
    SmallProduct(a, b);
    a * b
  }

  lemma SmallProduct(a: word, b: word)
    ensures a * b < W2
  {
    MulBound(a, W - 1, b, W - 1);
  }

  /** nat::multiply128: four word products, formed once. */
  method Multiply128(a: dword, b: dword) returns (lo: dword, hi: dword)
    ensures hi * W2 + lo == a * b
  {
    hide MulW;
    if a / W == 0 && b / W == 0 {
      lo, hi := MulW(a, b), 0;
      OneProduct(a, b);
    } else {
      var a0: word, a1: word, b0: word, b1: word := a % W, a / W, b % W, b / W;
      FourProducts(a, b);
      var p00, p01, p10, p11 := MulW(a0, b0), MulW(a0, b1), MulW(a1, b0), MulW(a1, b1);
      var middle := p00 / W + p01 % W + p10 % W;
      lo := middle % W * W + p00 % W;
      hi := p11 + p01 / W + p10 / W + middle / W;
    }
  }

  lemma OneProduct(a: word, b: word)
    ensures MulW(a, b) == a * b
  {
  }

  lemma FourProducts(a: dword, b: dword)
    ensures a / W < W && b / W < W
    ensures var a0: word, a1: word, b0: word, b1: word := a % W, a / W, b % W, b / W;
            var p00, p01, p10, p11 := MulW(a0, b0), MulW(a0, b1), MulW(a1, b0), MulW(a1, b1);
            var middle := p00 / W + p01 % W + p10 % W;
            middle % W * W + p00 % W < W2 && p11 + p01 / W + p10 / W + middle / W < W2 &&
            (p11 + p01 / W + p10 / W + middle / W) * W2 + (middle % W * W + p00 % W) == a * b
  {
    var a0: word, a1: word, b0: word, b1: word := a % W, a / W, b % W, b / W;
    MulBound(a0, W - 1, b0, W - 1);
    MulBound(a0, W - 1, b1, W - 1);
    MulBound(a1, W - 1, b0, W - 1);
    MulBound(a1, W - 1, b1, W - 1);
    CrossProducts(a1, a0, b1, b0, W);
    assert a == a1 * W + a0 && b == b1 * W + b0;
  }

  /** The portable multiply128. Its test for the second carry looks at one combined sum;
      the case it would miss needs a high word W - 2 and two carries at once. */
  method MultiplyLimbs(aLow: word, aHigh: word, bLow: word, bHigh: word)
    returns (l0: word, l1: word, l2: word, l3: word)
    ensures Pair(Pair(Pair(l3, l2), l1), l0) == Pair(aHigh, aLow) * Pair(bHigh, bLow)
  {
    hide *;
    var llh: word, lll: word := Mul64x64(aLow, bLow);
    var lhh: word, lhl: word := Mul64x64(aLow, bHigh);
    var hlh: word, hll: word := Mul64x64(aHigh, bLow);
    var hhh: word, hhl: word := Mul64x64(aHigh, bHigh);
    l0 := lll;
    var carry: word := 0;
    l1 := AddW(llh, lhl);
    if l1 < llh { carry := carry + 1; }
    l1 := AddW(l1, hll);
    if l1 < hll { carry := carry + 1; }
    ghost var first := carry;
    FirstCarries(llh, lhl, hll);
    SecondCarryReachable(aLow, bLow, aHigh, bHigh, llh, lll, lhh, lhl, hll);
    SecondCarries(hhl, lhh, first, hlh);
    l2 := AddW(AddW(hhl, lhh), carry);
    carry := 0;
    if l2 < hhl || AddW(hhl, lhh) < hhl { carry := carry + 1; }
    l2 := AddW(l2, hlh);
    if l2 < hlh { carry := carry + 1; }
    TopLimbFits(aLow, bLow, aHigh, bHigh, llh, lll, lhh, lhl, hlh, hll, hhh, hhl, l1, first, l2, carry);
    l3 := hhh + carry;
  }

  /** Carries of x + y + z, counted by the two wrap tests. */
  function CarryOf(x: word, y: word, z: word): nat {
    var s := AddW(x, y);
    (if s < x then 1 else 0) + if AddW(s, z) < z then 1 else 0
  }

  lemma FirstCarries(x: word, y: word, z: word)
    ensures CarryOf(x, y, z) <= 2 && AddW(AddW(x, y), z) + CarryOf(x, y, z) * W == x + y + z
    ensures CarryOf(x, y, z) == (if AddW(x, y) < x then 1 else 0) + if AddW(AddW(x, y), z) < z then 1 else 0
  {
  }

  /** A high word is at most W - 2, and W - 2 only for two all-ones factors. */
  lemma HighWord(a: word, b: word, hi: word, lo: word)
    requires hi * W + lo == a * b
    ensures hi <= W - 2 && (hi == W - 2 ==> lo == 1 && a == W - 1 && b == W - 1)
  {
    MulBound(a, W - 1, b, W - 1);
    if a <= W - 2 { MulBound(a, W - 2, b, W - 1); }
    if b <= W - 2 { MulBound(a, W - 1, b, W - 2); }
  }

  lemma SecondCarryReachable(aLow: word, bLow: word, aHigh: word, bHigh: word,
                             llh: word, lll: word, lhh: word, lhl: word, hll: word)
    requires llh * W + lll == aLow * bLow && lhh * W + lhl == aLow * bHigh
    ensures lhh <= W - 2 && !(lhh == W - 2 && CarryOf(llh, lhl, hll) == 2)
  {
    HighWord(aLow, bLow, llh, lll);
    HighWord(aLow, bHigh, lhh, lhl);
  }

  lemma SecondCarries(x: word, y: word, c: nat, z: word)
    requires c <= 2 && y <= W - 2 && !(y == W - 2 && c == 2)
    ensures var s := AddW(AddW(x, y), c); var r := AddW(s, z);
            r + ((if s < x || AddW(x, y) < x then 1 else 0) + if r < z then 1 else 0) * W == x + y + c + z
  {
  }

  lemma TopLimbFits(aLow: word, bLow: word, aHigh: word, bHigh: word, llh: word, lll: word, lhh: word, lhl: word,
                    hlh: word, hll: word, hhh: word, hhl: word, l1: word, first: word, l2: word, carry: word)
    requires llh * W + lll == aLow * bLow && lhh * W + lhl == aLow * bHigh
    requires hlh * W + hll == aHigh * bLow && hhh * W + hhl == aHigh * bHigh
    requires l1 + first * W == llh + lhl + hll && l2 + carry * W == hhl + lhh + first + hlh && carry <= 2
    ensures hhh + carry < W && Pair(Pair(Pair(hhh + carry, l2), l1), lll) == Pair(aHigh, aLow) * Pair(bHigh, bLow)
  {
    CrossProducts(aHigh, aLow, bHigh, bLow, W);
    PairBound(aHigh, aLow);
    PairBound(bHigh, bLow);
    MulBound(Pair(aHigh, aLow), W2 - 1, Pair(bHigh, bLow), W2 - 1);
    Assemble(Pair(aHigh, aLow) * Pair(bHigh, bLow), hhh, hhl, lhh, lhl, hlh, hll, llh, lll, l1, first, l2, carry);
  }

  lemma Assemble(product: nat, hhh: word, hhl: word, lhh: word, lhl: word, hlh: word, hll: word, llh: word, lll: word,
                 l1: word, first: word, l2: word, carry: word)
    requires product < W2 * W2
    requires product == (hhh * W + hhl) * (W * W) + ((hlh * W + hll) + (lhh * W + lhl)) * W + (llh * W + lll)
    requires l1 + first * W == llh + lhl + hll && l2 + carry * W == hhl + lhh + first + hlh
    ensures hhh + carry < W && Pair(Pair(Pair(hhh + carry, l2), l1), lll) == product
  {
  }

  // ----- one quotient digit under a two-limb divisor -----

  /** Subtraction modulo 2^128. */
  function SubD(a: dword, b: dword): dword {
    if a >= b then a - b else a - b + W2
  }

  /** One step of long division by v: (remainder, next) = quotient * v + rest. */
  ghost predicate IsQuotientDigit(quotient: nat, rest: nat, remainder: nat, next: nat, v: nat) {
    quotient * v + rest == Pair(remainder, next) && rest < v
  }

  /** divide_digit: no add-back is needed, because the correction compares the whole two-limb
      product; when rhat carried, the wrapped subtraction is still the true remainder. */
  method DivideDigit(remainder: dword, next: word, v0: word, v1: word) returns (quotient: word, rest: dword)
    requires HALF <= v1 && remainder < Pair(v1, v0)
    ensures IsQuotientDigit(quotient, rest, remainder, next, Pair(v1, v0))
  {
    hide Candidate, Estimate, IsProduct, Pair, MulW, IsQuotientDigit;
    Split(remainder);
    var high: word, low: word := remainder / W, remainder % W;
    HighLimb(high, low, v1, v0);
    var rhat: word, carry: bool;
    quotient, rhat, carry := FirstEstimate(high, low, next, v1, v0);
    PairBound(rhat, next);
    while !carry && MulW(quotient, v0) > Pair(rhat, next)
      invariant Candidate(quotient, rhat + Carried(carry), remainder, next, v1, v0)
      invariant Pair(rhat, next) < W2
      decreases quotient
    {
      DigitProduct(quotient, v0);
      NextCandidate(quotient, rhat, remainder, next, v1, v0, MulW(quotient, v0));
      quotient := quotient - 1;
      var previous := rhat;
      rhat := AddW(rhat, v1);
      carry := rhat < previous;
      PairBound(rhat, next);
    }
    ExactDigit(quotient, rhat, carry, remainder, next, v1, v0);
    rest := SubD(Pair(rhat, next), MulW(quotient, v0));
  }

  lemma HighLimb(high: word, low: word, v1: word, v0: word)
    requires Pair(high, low) < Pair(v1, v0)
    ensures high <= v1
  {
    PairOrder(high, low, v1, v0);
  }

  lemma DigitProduct(quotient: word, v0: word)
    ensures IsProduct(MulW(quotient, v0), quotient, v0)
  {
  }

  lemma ExactDigit(q: word, rhat: word, carry: bool, remainder: dword, next: word, v1: word, v0: word)
    requires HALF <= v1 && remainder < Pair(v1, v0) && Pair(rhat, next) < W2
    requires Candidate(q, rhat + Carried(carry), remainder, next, v1, v0)
    requires carry || MulW(q, v0) <= Pair(rhat, next)
    ensures var rest := SubD(Pair(rhat, next), MulW(q, v0));
            IsQuotientDigit(q, rest, remainder, next, Pair(v1, v0))
  {
    DigitProduct(q, v0);
    FinalCandidate(q, rhat + Carried(carry), remainder, next, v1, v0, MulW(q, v0));
    PairBound(v1, v0);
    PairTimes(q, v1, v0);
    PairSum(q * v1, rhat + Carried(carry), next);
    EstimatedRest(q, Pair(v1, v0), remainder, next);
    WrappedRest(rhat, carry, next, MulW(q, v0), Pair(v1, v0));
    hide *;
  }

  lemma EstimatedRest(q: word, v: nat, remainder: nat, next: word)
    requires remainder < v && q * v <= Pair(remainder, next)
    requires q == W - 1 || Pair(remainder, next) < (q + 1) * v
    ensures Pair(remainder, next) - q * v < v
  {
    assert (q + 1) * v == q * v + v;
  }

  /** Subtracting in two words what the carry makes positive. */
  lemma WrappedRest(rhat: word, carry: bool, next: word, product: dword, v: dword)
    requires 0 <= Pair(rhat + Carried(carry), next) - product < v && Pair(rhat, next) < W2
    ensures SubD(Pair(rhat, next), product) == Pair(rhat + Carried(carry), next) - product
  {
  }

  // ----- 128-bit shifts -----

  function ShlD(x: dword, b: nat): dword { x * Pow2(b) % W2 }

  function ShrD(x: nat, b: nat): (r: nat)
    ensures r <= x
  {
    Shr(x, b)
  }

  lemma DoubleSplit(b: nat)
    requires b <= 128
    ensures Pow2(b) * Pow2(128 - b) == W2
  {
    Pow2Doubles();
    PowAdd(2, b, 128 - b);
  }

  lemma DoubleShiftParts(x: dword, b: nat)
    requires b < 128
    ensures ShrD(x, 128 - b) * W2 + ShlD(x, b) == x * Pow2(b)
    ensures ShrD(x, 128 - b) < Pow2(b)
  {
    var s, t := Pow2(b), Pow2(128 - b);
    DoubleSplit(b);
    hide Pow2, Quot, Rem;
    var h, l := Quot(x, t), Rem(x, t);
    QuotRem(x, t);
    QuotLess(x, t, s);
    ShiftSplit(x, h, l, s, t);
    MulStrict(l, t, s);
    DivModUnique(x * s, W2, h, l * s);
  }

  /** `high | low` for a left-shifted high and a low below 2^b: no common bit, so the sum. */
  function OrD(high: dword, low: nat, b: nat): dword
    requires Rem(high, Pow2(b)) == 0 && low < Pow2(b) && high + low < W2
  {
    high + low
  }

  // ----- 128 / 64 and 128 / 128 -----

  method Divide128By64(n: dword, d: word) returns (r: Quotient)
    requires d != 0
    ensures r.quotient * d + r.remainder == n && r.remainder < d
  {
    Split(n);
    var high: word, low: word := n / W, n % W;
    if high == 0 {
      QuotRem(low, d);
      MulMono(1, d, Quot(low, d));
      r := Quotient(Quot(low, d), Rem(low, d));
    } else if high < d {
      var q: word, rem: word := Div128By64(high, low, d);
      r := Quotient(q, rem);
    } else {
      QuotRem(high, d);
      MulMono(1, d, Quot(high, d));
      var qhigh: word := Quot(high, d);
      var qlow: word, rem: word := Div128By64(Rem(high, d), low, d);
      PairBound(qhigh, qlow);
      r := Quotient(Pair(qhigh, qlow), rem);
      hide *;
      TwoDigits(qhigh, qlow, d, Rem(high, d), high, low, rem);
    }
  }

  lemma TwoDigits(qhigh: nat, qlow: nat, d: nat, partial: nat, high: nat, low: word, rem: nat)
    requires high == qhigh * d + partial && qlow * d + rem == partial * W + low
    ensures Pair(qhigh, qlow) * d + rem == Pair(high, low)
  {
    PairTimes(d, qhigh, qlow);
    PairSum(d * qhigh, partial, low);
  }

  /** nat::divide128: the machine quotient; the remainder only when asked for. */
  method Divide128(n: dword, d: dword, needRemainder: bool) returns (r: Quotient)
    requires d != 0
    ensures r.quotient == Quot(n, d) && (r.remainder == Rem(n, d) || (!needRemainder && r.remainder == 0))
  {
    QuotRem(n, d);
    if d / W == 0 {
      r := Divide128By64(n, d);
      QuotUnique(n, d, r.quotient, r.remainder);
    } else if n < d {
      r := Quotient(0, n);
    } else {
      MulMono(1, d, Quot(n, d));
      r := Quotient(Quot(n, d), if needRemainder then n - Quot(n, d) * d else 0);
    }
  }

  // ----- 256 / 128 -----

  /** The numerator hi * 2^128 + lo, shifted by b, as remainder, middle and low limb over v. */
  ghost predicate ShiftedNumerator(lo: dword, hi: dword, divisor: dword, b: nat, top: nat, middle: word, low: word, v: nat) {
    top < v == divisor * Pow2(b) && (hi * W2 + lo) * Pow2(b) == Pair(Pair(top, middle), low)
  }

  lemma ShiftNumerator(lo: dword, hi: dword, divisor: dword, b: nat)
    requires b < 64 && hi < divisor && divisor * Pow2(b) < W2
    ensures Rem(ShlD(hi, b), Pow2(b)) == 0 && ShrD(lo, 128 - b) < Pow2(b)
    ensures ShlD(hi, b) + ShrD(lo, 128 - b) < W2
    ensures b == 0 ==> ShlD(hi, b) == hi && ShrD(lo, 128 - b) == 0
    ensures ShlD(lo, b) / W < W
    ensures ShiftedNumerator(lo, hi, divisor, b, ShlD(hi, b) + ShrD(lo, 128 - b), ShlD(lo, b) / W, ShlD(lo, b) % W,
                             ShlD(divisor, b))
  {
    DoubleShiftParts(lo, b);
    Split(ShlD(lo, b));
    var s := Pow2(b);
    MulGap(hi, divisor, s);
    FitsShifted(hi, b);
    FitsShifted(divisor, b);
    if b == 0 { assert ShrD(lo, 128 - b) < 1; }
    hide Pow2, ShlD, ShrD, Rem;
    ShiftedSum(hi, lo, s, ShrD(lo, 128 - b), ShlD(lo, b));
  }

  lemma FitsShifted(x: dword, b: nat)
    requires x * Pow2(b) < W2
    ensures ShlD(x, b) == x * Pow2(b) && Rem(ShlD(x, b), Pow2(b)) == 0
    ensures b == 0 ==> ShlD(x, b) == x
  {
    var s := Pow2(b);
    DivModUnique(x * s, W2, 0, x * s);
    QuotUnique(x * s, s, x, 0);
  }

  lemma ShiftedSum(hi: nat, lo: nat, s: nat, up: nat, rest: dword)
    requires up * W2 + rest == lo * s
    ensures (hi * W2 + lo) * s == Pair(Pair(hi * s + up, rest / W), rest % W)
  {
    assert (hi * W2 + lo) * s == hi * s * W2 + lo * s;
  }

  /** The skipped leading digit is zero exactly when the top 192 bits are below the divisor. */
  lemma LeadingDigitZero(lo: dword, hi: dword, divisor: dword, b: nat, top: dword, middle: word, low: word, v: nat)
    requires hi * W + lo / W < divisor && ShiftedNumerator(lo, hi, divisor, b, top, middle, low, v)
    ensures IsQuotientDigit(0, Pair(top, middle), top, middle, v)
  {
    LeadingDigitBound(hi * W2 + lo, divisor, Pow2(b), Pair(top, middle));
  }

  lemma LeadingDigitBound(n: nat, divisor: nat, s: pos, t: nat)
    requires n < divisor * W && t * W <= n * s
    ensures t < divisor * s
  {
    MulStrict(n, divisor * W, s);
    assert divisor * W * s == divisor * s * W;
  }

  lemma DigitRest(q: nat, rest: nat, r: nat, next: nat, v: nat)
    requires IsQuotientDigit(q, rest, r, next, v)
    ensures rest < v
  {
  }

  lemma TopBelow(lo: dword, hi: dword, divisor: dword, b: nat, top: nat, middle: word, low: word, v: nat)
    requires ShiftedNumerator(lo, hi, divisor, b, top, middle, low, v)
    ensures top < v
  {
  }

  method DivideShifted(lo: dword, hi: dword, divisor: dword) returns (r: Quotient)
    requires hi < divisor && W <= divisor
    ensures r.quotient * divisor + r.remainder == hi * W2 + lo && r.remainder < divisor
  {
    hide Pow2, ShlD, ShrD, Pair, IsQuotientDigit, ShiftedNumerator;
    Split(divisor);
    var shift := CountlZero(divisor / W);
    NormalDivisor(divisor, shift);
    var normalized := ShlD(divisor, shift);
    var v0: word, v1: word := normalized % W, normalized / W;
    ShiftNumerator(lo, hi, divisor, shift);
    var remainder: dword := if shift == 0 then hi else OrD(ShlD(hi, shift), ShrD(lo, 128 - shift), shift);
    var normalizedLow := ShlD(lo, shift);
    var middle: word, low: word := normalizedLow / W, normalizedLow % W;
    ghost var top := remainder;
    TopBelow(lo, hi, divisor, shift, top, middle, low, normalized);
    var qhigh: word := 0;
    if hi / W == 0 && hi * W + lo / W < divisor {
      LeadingDigitZero(lo, hi, divisor, shift, top, middle, low, normalized);
      DigitRest(0, Pair(top, middle), top, middle, normalized);
      remainder := Pair(remainder, middle);
    } else {
      qhigh, remainder := DivideDigit(remainder, middle, v0, v1);
      DigitRest(qhigh, remainder, top, middle, normalized);
    }
    var qlow: word, rest: dword := DivideDigit(remainder, low, v0, v1);
    PairBound(qhigh, qlow);
    r := Quotient(Pair(qhigh, qlow), ShrD(rest, shift));
    BothDigits(lo, hi, divisor, shift, top, middle, low, normalized, qhigh, remainder, qlow, rest);
  }

  lemma BothDigits(lo: dword, hi: dword, divisor: dword, b: nat, top: dword, middle: word, low: word, v: nat,
                   qhigh: word, partial: dword, qlow: word, rest: dword)
    requires ShiftedNumerator(lo, hi, divisor, b, top, middle, low, v)
    requires IsQuotientDigit(qhigh, partial, top, middle, v) && IsQuotientDigit(qlow, rest, partial, low, v)
    ensures Pair(qhigh, qlow) * divisor + ShrD(rest, b) == hi * W2 + lo && ShrD(rest, b) < divisor
  {
    hide Pow2;
    BothDigitsPair(qhigh, partial, Pair(top, middle), qlow, rest, low, v);
    QuotRem(rest, Pow2(b));
    Unscale(hi * W2 + lo, divisor, Pair(qhigh, qlow), rest, ShrD(rest, b), Rem(rest, Pow2(b)), Pow2(b));
  }

  lemma BothDigitsPair(qhigh: nat, partial: nat, high: nat, qlow: nat, rest: nat, low: word, v: nat)
    requires qhigh * v + partial == high && qlow * v + rest == Pair(partial, low)
    ensures Pair(qhigh, qlow) * v + rest == Pair(high, low)
  {
    hide *;
    PairTimes(v, qhigh, qlow);
    PairSum(v * qhigh, partial, low);
  }

  lemma NormalDivisor(divisor: dword, b: nat)
    requires 0 < divisor / W < W && b == CountlZero(divisor / W)
    ensures divisor * Pow2(b) < W2 && ShlD(divisor, b) == divisor * Pow2(b)
    ensures HALF <= ShlD(divisor, b) / W < W
    ensures ShlD(divisor, b) == Pair(ShlD(divisor, b) / W, ShlD(divisor, b) % W)
  {
    var h, l, s := divisor / W, divisor % W, Pow2(b);
    TopBits(h, b);
    MulStrict(l, W, s);
    NormalDivisorBound(divisor, h, l, s);
    DivModUnique(divisor * s, W2, 0, divisor * s);
  }

  lemma NormalDivisorBound(divisor: nat, h: nat, l: nat, s: nat)
    requires divisor == h * W + l && HALF <= h * s && (h + 1) * s <= W && l * s < W * s
    ensures divisor * s < W2 && HALF <= divisor * s / W < W
  {
    assert divisor * s == h * s * W + l * s;
    assert (h + 1) * s == h * s + s;
  }

  /** divide_narrow: overflow exactly when the quotient needs more than 128 bits. */
  method DivideNarrow(lo: dword, hi: dword, divisor: dword) returns (r: Result<Quotient>)
    ensures divisor == 0 ==> r == Err(DivisionByZero)
    ensures divisor != 0 ==> (r == Err(Overflow) <==> hi * W2 + lo >= W2 * divisor) && (r.Ok? || r == Err(Overflow))
    ensures r.Ok? ==> r.value.quotient * divisor + r.value.remainder == hi * W2 + lo && r.value.remainder < divisor
  {
    if divisor == 0 { return Err(DivisionByZero); }
    if hi >= divisor { return Err(Overflow); }
    if hi == 0 {
      var q := Divide128(lo, divisor, true);
      QuotRem(lo, divisor);
      r := Ok(q);
    } else if divisor / W == 0 {
      Split(lo);
      var qhigh: word, rem: word := Div128By64(hi, lo / W, divisor);
      var qlow: word, rest: word := Div128By64(rem, lo % W, divisor);
      PairBound(qhigh, qlow);
      r := Ok(Quotient(Pair(qhigh, qlow), rest));
      TwoDigits(qhigh, qlow, divisor, rem, Pair(hi, lo / W), lo % W, rest);
    } else {
      var q := DivideShifted(lo, hi, divisor);
      r := Ok(q);
    }
  }
}
