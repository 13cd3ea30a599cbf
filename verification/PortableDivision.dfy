/** The portable 128 / 128 division. It tests the first product again instead of a
    refreshed one, and skips its correction when the estimate is all ones. */
module PortableDivision {
  import opened Arith
  import opened Words
  import opened Knuth
  import opened Division

  /** The operands on which the skipped correction matters. */
  predicate SkippedCorrection(n: dword, d: dword) {
    d == W + 1 && W2 - W <= n <= W2 - 2
  }

  /** u2, u1, u0 are n * 2^b and v1, v0 are d * 2^b. */
  ghost predicate ShiftedOperands(n: dword, d: dword, b: nat, u2: word, u1: word, u0: word, v1: word, v0: word) {
    b < 64 && HALF <= v1 && u2 < Pow2(b) && Pair(v1, v0) == d * Pow2(b) && Pair(Pair(u2, u1), u0) == n * Pow2(b) &&
    Rem(v0, Pow2(b)) == 0
  }

  lemma ShiftOperands(n: dword, d: dword, b: nat)
    requires W <= d && b == CountlZero(d / W)
    ensures ShlD(n, b) / W < W && ShlD(d, b) / W < W && Shr(n / W, 64 - b) < W
    ensures ShiftedOperands(n, d, b, Shr(n / W, 64 - b), ShlD(n, b) / W, ShlD(n, b) % W, ShlD(d, b) / W, ShlD(d, b) % W)
  {
    Split(n);
    Split(d);
    NormalDivisor(d, b);
    DoubleShiftParts(n, b);
    ShiftParts(n / W, b);
    TopShift(n, b);
    LowBitsClear(d, b);
  }

  /** The bits shifted out of a dword are those shifted out of its high limb. */
  lemma TopShift(n: dword, b: nat)
    requires b < 64
    ensures ShrD(n, 128 - b) == Shr(n / W, 64 - b)
  {
    var t := Pow2(64 - b);
    Pow2Words();
    PowAdd(2, 64, 64 - b);
    QuotRem(n / W, t);
    var h, l, q := n / W, n % W, Quot(n / W, t);
    hide *;
    NestedQuotient(n, h, l, q, Rem(h, t), t);
    QuotUnique(n, W * t, q, Rem(h, t) * W + l);
    QuotAsShift(n, b, t);
  }

  lemma QuotAsShift(n: nat, b: nat, t: nat)
    requires b < 64 && t == Pow2(64 - b)
    ensures 0 < W * t && ShrD(n, 128 - b) == Quot(n, W * t) && Shr(n / W, 64 - b) == Quot(n / W, t)
  {
    Pow2Words();
    PowAdd(2, 64, 64 - b);
  }

  lemma NestedQuotient(n: nat, h: nat, l: nat, q: nat, r: nat, t: nat)
    requires n == h * W + l && l < W && h == q * t + r && r < t
    ensures n == q * (W * t) + (r * W + l) && r * W + l < W * t
  {
    assert (q * t + r) * W == q * (W * t) + r * W;
    MulGap(r, t, W);
  }

  lemma LowBitsClear(d: dword, b: nat)
    requires b < 64 && d * Pow2(b) < W2
    ensures Rem(ShlD(d, b) % W, Pow2(b)) == 0
  {
    var s, t := Pow2(b), Pow2(64 - b);
    WordSplit(b);
    var x := d * s;
    DivModUnique(x, W2, 0, x);
    hide *;
    MultipleMod(d, s, t, x / W, x % W);
  }

  lemma MultipleMod(d: nat, s: pos, t: nat, q: nat, r: nat)
    requires s * t == W && d * s == q * W + r
    ensures Rem(r, s) == 0
  {
    assert q * (s * t) == q * t * s;
    assert r == (d - q * t) * s;
    if d - q * t < 0 { MulMono(d - q * t, -1, s); }
    QuotUnique(r, s, d - q * t, 0);
  }

  // ----- the estimate -----

  /** The estimate is all ones only for divisors 2^64 and 2^64 + 1 and the largest numerators. */
  lemma AllOnes(n: dword, d: dword, b: nat, u2: word, u1: word, u0: word, v1: word, v0: word, rhat: nat)
    requires W <= d && ShiftedOperands(n, d, b, u2, u1, u0, v1, v0) && (W - 1) * v1 + rhat == Pair(u2, u1)
    ensures d <= W + 1 && W2 - W <= n
  {
    if b < 63 {
      SmallEstimate(b, u2, u1, v1, W - 1);
    } else {
      Pow2Words();
      assert Pow2(b) == HALF;
      hide *;
    }
  }

  /** With fewer than 63 shifted bits the estimate is below 2^63. */
  lemma SmallEstimate(b: nat, u2: word, u1: word, v1: word, qhat: nat)
    requires b < 63 && u2 < Pow2(b) && HALF <= v1 && qhat * v1 <= Pair(u2, u1)
    ensures qhat < HALF
  {
    Pow2Words();
    PowMono(2, b, 62);
    assert Pow(2, 63) == 2 * Pow(2, 62);
    hide *;
    MulMono(HALF, v1, qhat);
  }

  /** So the first product never exceeds 2^127, which every later test compares it with. */
  lemma ProductBelowHalf(n: dword, d: dword, b: nat, u2: word, u1: word, u0: word, v1: word, v0: word, qhat: word)
    requires ShiftedOperands(n, d, b, u2, u1, u0, v1, v0) && qhat * v1 <= Pair(u2, u1) && qhat < W - 1
    ensures qhat * v0 <= HALF * W
  {
    if b < 63 {
      SmallEstimate(b, u2, u1, v1, qhat);
      MulBound(qhat, HALF, v0, W);
    } else {
      Pow2Words();
      QuotRem(v0, HALF);
      MulBound(qhat, W, v0, HALF);
    }
  }

  // ----- the two outcomes of the loop -----

  /** What the first estimate is: the two-by-one-limb quotient, or the capped one. */
  ghost predicate Estimated(qhat: word, rhat: word, capped: bool, u2: word, u1: word, v1: word) {
    if capped then qhat == ONES && u2 == v1 else qhat * v1 + rhat == Pair(u2, u1) && rhat < v1
  }

  lemma EstimateFits(n: dword, d: dword, b: nat, u2: word, u1: word, u0: word, v1: word, v0: word)
    requires ShiftedOperands(n, d, b, u2, u1, u0, v1, v0)
    ensures HALF <= v1 && u2 <= v1
  {
    ScaleBelowHalf(b);
  }

  lemma NeverCapped(n: dword, d: dword, b: nat, u2: word, u1: word, u0: word, v1: word, v0: word,
                    qhat: word, rhat: word, capped: bool)
    requires ShiftedOperands(n, d, b, u2, u1, u0, v1, v0) && Estimated(qhat, rhat, capped, u2, u1, v1)
    ensures qhat * v1 + rhat == Pair(u2, u1) && rhat < v1
  {
    ScaleBelowHalf(b);
  }

  /** A product that passes its test is at most 2^127, so after one decrement it passes. */
  lemma SecondTestPasses(n: dword, d: dword, b: nat, u2: word, u1: word, u0: word, v1: word, v0: word,
                         qhat: word, rhat: word, capped: bool, product: nat)
    requires ShiftedOperands(n, d, b, u2, u1, u0, v1, v0) && Estimated(qhat, rhat, capped, u2, u1, v1)
    requires IsProduct(product, qhat, v0) && qhat != ONES
    ensures product <= HALF * W && (product > Pair(rhat, u0) ==> qhat > 0)
    ensures rhat + v1 < W ==> product <= Pair(rhat + v1, u0)
  {
    NeverCapped(n, d, b, u2, u1, u0, v1, v0, qhat, rhat, capped);
    ProductBelowHalf(n, d, b, u2, u1, u0, v1, v0, qhat);
    assert qhat == 0 ==> product == 0;
    hide *;
  }

  lemma Settled(n: dword, d: dword, b: nat, u2: word, u1: word, u0: word, v1: word, v0: word,
                q0: word, rhat: word, capped: bool, product: nat, q: word)
    requires W <= d && ShiftedOperands(n, d, b, u2, u1, u0, v1, v0) && Estimated(q0, rhat, capped, u2, u1, v1)
    requires IsProduct(product, q0, v0) && q0 != ONES && q == (if product > Pair(rhat, u0) then q0 - 1 else q0)
    ensures q == Quot(n, d) && !SkippedCorrection(n, d)
  {
    NeverCapped(n, d, b, u2, u1, u0, v1, v0, q0, rhat, capped);
    SecondTestPasses(n, d, b, u2, u1, u0, v1, v0, q0, rhat, capped, product);
    if SkippedCorrection(n, d) { NotAllOnes(n, d, b, u2, u1, u0, v1, v0, q0, rhat); }
    ScaledIdentity(n, d, b, u2, u1, u0, v1, v0, q0, rhat, product);
    hide Quot, Pow2, Pair, ShiftedOperands, Estimated, IsProduct, SkippedCorrection;
    var v, s, rest := Pair(v1, v0), Pow2(b), Pair(rhat, u0) - product;
    if q == q0 {
      QuotientFromScaled(n, d, s, q, rest);
    } else {
      OneLess(q0, v, rest);
      QuotientFromScaled(n, d, s, q, rest + v);
    }
  }

  lemma OneLess(q: int, v: int, rest: int)
    ensures q * v + rest == (q - 1) * v + (rest + v)
  {
  }

  lemma ScaledIdentity(n: dword, d: dword, b: nat, u2: word, u1: word, u0: word, v1: word, v0: word,
                       q0: word, rhat: word, product: nat)
    requires ShiftedOperands(n, d, b, u2, u1, u0, v1, v0) && q0 * v1 + rhat == Pair(u2, u1) && IsProduct(product, q0, v0)
    ensures n * Pow2(b) == q0 * Pair(v1, v0) + (Pair(rhat, u0) - product) && Pair(v1, v0) == d * Pow2(b) && 0 < Pow2(b)
  {
    var p: nat := q0 * v0;
    assert product == p && Pair(Pair(u2, u1), u0) == n * Pow2(b) && Pair(v1, v0) == d * Pow2(b);
    hide *;
    PairTimes(q0, v1, v0);
    PairSum(q0 * v1, rhat, u0);
  }

  lemma QuotientFromScaled(n: nat, d: nat, s: pos, q: nat, rest: int)
    requires n * s == q * (d * s) + rest && 0 <= rest < d * s
    ensures 0 < d && q == Quot(n, d)
  {
    assert q * (d * s) == q * d * s;
    assert d == 0 ==> d * s == 0;
    var r := n - q * d;
    assert r * s == rest;
    if r < 0 { MulMono(r, -1, s); }
    QuotUnique(n, d, q, r);
  }

  lemma NotAllOnes(n: dword, d: dword, b: nat, u2: word, u1: word, u0: word, v1: word, v0: word, q0: word, rhat: word)
    requires d == W + 1 && W2 - W <= n && ShiftedOperands(n, d, b, u2, u1, u0, v1, v0)
    requires q0 * v1 + rhat == Pair(u2, u1) && rhat < v1
    ensures q0 == ONES
  {
    Pow2Words();
    PowMono(2, if b < 63 then b else 62, 62);
    assert Pow(2, 63) == 2 * Pow(2, 62);
    SmallShift(Pow2(b), v1, v0);
    assert Pow2(b) == HALF;
    hide *;
    OnesAt63(n, u2, u1, u0, v1, v0, q0, rhat);
  }

  lemma SmallShift(s: nat, v1: word, v0: word)
    requires HALF <= v1
    ensures 2 * s <= HALF ==> Pair(v1, v0) != (W + 1) * s
  {
  }

  lemma OnesAt63(n: dword, u2: word, u1: word, u0: word, v1: word, v0: word, q0: word, rhat: word)
    requires W2 - W <= n && Pair(v1, v0) == (W + 1) * HALF && Pair(Pair(u2, u1), u0) == n * HALF
    requires q0 * v1 + rhat == Pair(u2, u1) && rhat < v1
    ensures q0 == ONES
  {
    assert v1 == HALF;
    assert Pair(u2, u1) >= (W - 1) * HALF;
  }

  /** Main theorem: the portable division is exact if and only if the operands are not those
      of SkippedCorrection, where it returns one too much and a wrapped remainder. */
  method Divide128Portable(n: dword, d: dword) returns (r: Quotient)
    requires d != 0
    ensures r == Quotient(Quot(n, d), Rem(n, d)) <==> !SkippedCorrection(n, d)
    ensures SkippedCorrection(n, d) ==> r == Quotient(Quot(n, d) + 1, n + 1)
  {
    QuotRem(n, d);
    if d / W == 0 {
      r := Divide128By64(n, d);
      QuotUnique(n, d, r.quotient, r.remainder);
    } else if n < d {
      r := Quotient(0, n);
    } else {
      var qhat: word := EstimateLimb(n, d);
      LimbTimes(n, d);
      if SkippedCorrection(n, d) { SkippedQuotient(n, d); }
      r := Quotient(qhat, (n - d * qhat) % W2);
      RemainderOf(n, d, qhat);
    }
  }

  lemma LimbTimes(n: dword, d: dword)
    requires W <= d
    ensures Quot(n, d) < W
  {
    QuotLess(n, d, W);
    MulMono(W, d, W);
  }

  lemma SkippedQuotient(n: dword, d: dword)
    requires SkippedCorrection(n, d)
    ensures Quot(n, d) == W - 2
  {
    QuotUnique(n, d, W - 2, n - (W - 2) * (W + 1));
  }

  lemma RemainderOf(n: dword, d: dword, q: word)
    requires W <= d && Quot(n, d) < W && q == Quot(n, d) + if SkippedCorrection(n, d) then 1 else 0
    ensures (n - d * q) % W2 == if SkippedCorrection(n, d) then n + 1 else Rem(n, d)
  {
    QuotRem(n, d);
    if SkippedCorrection(n, d) {
      SkippedQuotient(n, d);
      DivModUnique(n - d * q, W2, -1, n + 1);
    } else {
      DivModUnique(n - d * q, W2, 0, Rem(n, d));
    }
  }

  /** The estimate and its correction loop, which never recomputes ph and pl. */
  method EstimateLimb(n: dword, d: dword) returns (qhat: word)
    requires W <= d
    ensures qhat == Quot(n, d) + if SkippedCorrection(n, d) then 1 else 0
  {
    hide Pow2, ShlD, Shr, Pair, Quot, ShiftedOperands, Estimated, IsProduct, SkippedCorrection;
    Split(d);
    Split(n);
    var shift := CountlZero(d / W);
    ShiftOperands(n, d, shift);
    var v1: word, v0: word := ShlD(d, shift) / W, ShlD(d, shift) % W;
    var u2: word := if shift == 0 then 0 else Shr(n / W, 64 - shift);
    var u1: word, u0: word := ShlD(n, shift) / W, ShlD(n, shift) % W;
    NoShift(n / W, shift);
    EstimateFits(n, d, shift, u2, u1, u0, v1, v0);
    var rhat: word;
    if u2 == v1 {
      qhat := ONES;
      rhat := AddW(u1, v1);
    } else {
      qhat, rhat := Div128By64(u2, u1, v1);
    }
    ghost var first, r0, capped := qhat, rhat, u2 == v1;
    assert Estimated(first, r0, capped, u2, u1, v1) by { MakeEstimated(first, r0, capped, u2, u1, v1); }
    var ph: word, pl: word := Mul64x64(qhat, v0);
    ghost var product := Pair(ph, pl);
    assert IsProduct(product, first, v0) by { MakeProduct(ph, pl, qhat, v0); }
    if first != ONES { SecondTestPasses(n, d, shift, u2, u1, u0, v1, v0, first, r0, capped, product); }
    PairOrder(ph, pl, rhat, u0);
    while qhat != ONES && (ph > rhat || (ph == rhat && pl > u0))
      invariant first == ONES ==> qhat == ONES
      invariant (qhat == first && rhat == r0) ||
                (first != ONES && product > Pair(r0, u0) && qhat == first - 1 && rhat == r0 + v1)
      decreases qhat
    {
      PairOrder(ph, pl, rhat, u0);
      assert first != ONES && qhat == first && rhat == r0;
      qhat := qhat - 1;
      if AddW(rhat, v1) < rhat { break; }
      rhat := AddW(rhat, v1);
      PairOrder(ph, pl, rhat, u0);
    }
    PairOrder(ph, pl, rhat, u0);
    if first == ONES {
      NeverCapped(n, d, shift, u2, u1, u0, v1, v0, first, r0, capped);
      AllOnes(n, d, shift, u2, u1, u0, v1, v0, r0);
      OnesQuotient(n, d);
    } else {
      Settled(n, d, shift, u2, u1, u0, v1, v0, first, r0, capped, product, qhat);
    }
  }

  lemma NoShift(h: word, b: nat)
    ensures b == 0 ==> Shr(h, 64 - b) == 0
  {
    if b == 0 {
      Pow2Words();
      QuotUnique(h, W, 0, h);
    }
  }

  lemma MakeEstimated(qhat: word, rhat: word, capped: bool, u2: word, u1: word, v1: word)
    requires if capped then qhat == ONES && u2 == v1 else qhat * v1 + rhat == u2 * W + u1 && rhat < v1
    ensures Estimated(qhat, rhat, capped, u2, u1, v1)
  {
  }

  lemma MakeProduct(ph: word, pl: word, qhat: word, v0: word)
    requires ph * W + pl == qhat * v0
    ensures IsProduct(Pair(ph, pl), qhat, v0)
  {
  }

  lemma OnesQuotient(n: dword, d: dword)
    requires W <= d <= W + 1 && W2 - W <= n
    ensures W - 1 == Quot(n, d) + if SkippedCorrection(n, d) then 1 else 0
  {
    if SkippedCorrection(n, d) { SkippedQuotient(n, d); } else { QuotUnique(n, d, W - 1, n - (W - 1) * d); }
  }
}
