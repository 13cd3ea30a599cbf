/** The 64-bit kernels: a signed-division fast window, the general path behind it, and the
    inline paths of the public header. */
module Kernels64 {
  import opened Arith
  import opened Words
  import opened Rounding
  import opened Operations
  import opened Signs
  import opened Division

  /** The 128-bit numerator in a signed high and an unsigned low word. */
  function Wide(high: int64, low: word): int { high * W + low }

  function SignOf(num: int, den: int): bool { (num < 0) != (den < 0) }

  /** imul64x64 through magnitudes: the signed product in two words. */
  method Imul64x64(u: int64, v: int64) returns (hi: int64, lo: word)
    ensures Wide(hi, lo) == u * v
  {
    var neg := (u < 0) != (v < 0);
    var h: word, l: word := Mul64x64(MagnitudeW(u), MagnitudeW(v));
    ProductParts(u, v);
    SignedProductBound(u, v);
    if neg {
      l := AddW(NotW(l), 1);
      h := AddW(NotW(h), Bit(l == 0));
    }
    hi, lo := FromWord(h), l;
  }

  lemma SignedProductBound(u: int64, v: int64)
    ensures Abs(u) * Abs(v) <= HALF * HALF
  {
    MulBound(Abs(u), HALF, Abs(v), HALF);
  }

  /** The 128-bit magnitude of the numerator, negated limb by limb. */
  method MagnitudeLimbs(high: int64, low: word) returns (uhi: word, ulo: word)
    ensures Pair(uhi, ulo) == Abs(Wide(high, low))
  {
    uhi, ulo := ToWord(high), low;
    if high < 0 {
      ulo := AddW(NotW(ulo), 1);
      uhi := AddW(NotW(uhi), Bit(ulo == 0));
    }
  }

  /** quotient64_general: unsigned division with an overflow guard, then one rounding. */
  method QuotientGeneral(high: int64, low: word, divisor: int64, mode: Mode) returns (r: Result<int>)
    requires divisor != 0
    ensures r == Divide(Wide(high, low), divisor, mode, 64)
  {
    Limits();
    var negNum, negDen := high < 0, divisor < 0;
    var negative := negNum != negDen;
    var uhi: word, ulo: word := MagnitudeLimbs(high, low);
    var udiv := MagnitudeW(divisor);
    ghost var n := Abs(Wide(high, low));
    WideSign(high, low, divisor);
    if uhi >= udiv {
      OverflowIsEvaluate(n, udiv, W, negative, mode, 64);
      return Err(Overflow);
    }
    var q: word, rem: word := Div128By64(uhi, ulo, udiv);
    RoundedIsEvaluate(n, udiv, q, rem, negative, mode, 64);
    r := FinishW(q, rem, udiv, negative, mode);
  }

  lemma WideSign(high: int64, low: word, divisor: int64)
    ensures Wide(high, low) < 0 <==> high < 0
    ensures Signed(Abs(Wide(high, low)), (high < 0) != (divisor < 0))
            == if divisor < 0 then -Wide(high, low) else Wide(high, low)
  {
  }

  /** Round a magnitude and put the sign back, INT64_MIN included. */
  method FinishW(q: word, rem: word, d: word, negative: bool, mode: Mode) returns (r: Result<int>)
    requires rem < d
    ensures r == Rounded(q, rem, d, negative, mode, 64)
  {
    Limits();
    var limit: word := HALF - 1 + Bit(negative);
    var rounded := RoundMagnitude(q, rem, d, negative, mode, limit);
    match rounded
    case Err(e) => r := Err(e);
    case Ok(m) =>
      SignedWord(m, negative);
      r := Ok(ApplySignW(m, negative));
  }

  // ----- the signed window -----

  /** quotient_fits_signed64: -h <= high < h for h = |divisor| / 2, the lowest slab excluded
      for a negative divisor. */
  predicate FitsSigned(high: int64, divisor: int64) {
    var half := MagnitudeW(divisor) / 2;
    AddW(ToWord(high), half) < 2 * half && !(divisor < 0 && AddW(ToWord(high), half) == 0)
  }

  /** The window implies that the truncated quotient is a signed 64-bit integer. */
  lemma WindowFits(high: int64, low: word, divisor: int64)
    requires divisor != 0 && FitsSigned(high, divisor)
    ensures var m := MagnitudeW(divisor); var n := Abs(Wide(high, low)); var negative := SignOf(high, divisor);
            n < W * m && Quot(n, m) <= HALF - 1 + Bit(negative)
  {
    var m, n, negative := MagnitudeW(divisor), Abs(Wide(high, low)), SignOf(high, divisor);
    var half := m / 2;
    assert -half <= high < half;
    assert n <= half * W;
    assert !negative ==> n < half * W;
    QuotLess(n, m, HALF + 1);
    QuotLess(n, m, HALF);
    assert HALF * m >= HALF * (2 * half) == half * W by { MulMono(2 * half, m, HALF); }
    assert (HALF + 1) * m == HALF * m + m;
  }

  /** idivq: the truncated quotient and the remainder with the numerator's sign. */
  method DivSigned64(high: int64, low: word, divisor: int64) returns (quotient: int64, remainder: int64)
    requires divisor != 0
    requires Abs(Wide(high, low)) < W * MagnitudeW(divisor)
    requires Quot(Abs(Wide(high, low)), MagnitudeW(divisor)) <= HALF - 1 + Bit(SignOf(high, divisor))
    ensures quotient == Signed(Quot(Abs(Wide(high, low)), MagnitudeW(divisor)), SignOf(high, divisor))
    ensures remainder == Signed(Rem(Abs(Wide(high, low)), MagnitudeW(divisor)), high < 0)
  {
    var uhi: word, ulo: word := MagnitudeLimbs(high, low);
    var udiv := MagnitudeW(divisor);
    var uq: word, urem: word := Div128By64(uhi, ulo, udiv);
    QuotUnique(Pair(uhi, ulo), udiv, uq, urem);
    SignedWord(uq, SignOf(high, divisor));
    quotient := ApplySignW(uq, SignOf(high, divisor));
    remainder := ApplySignW(urem, high < 0);
  }

  /** nearest_adjustment: the step away from zero, as a signed word. */
  function NearestAdjustment(quotient: int64, remainder: int64, divisor: int64, negative: bool): (r: int)
    requires divisor != 0 && Abs(remainder) < Abs(divisor)
  {
    if NearestEvenIncrement(ToWord(quotient), MagnitudeW(remainder), MagnitudeW(divisor))
    then (if negative then -1 else 1) else 0
  }

  /** The adjusted quotient is the rounded one, before any range check. */
  lemma Adjusted(q: nat, rem: nat, d: nat, negative: bool, quotient: int64, remainder: int64, divisor: int64, bits: nat)
    requires 64 <= bits && rem < d && MagnitudeW(divisor) == d && MagnitudeW(remainder) == rem
    requires quotient == Signed(q, negative) && q <= HALF - 1 + Bit(negative)
    ensures var v := quotient + (if rem == 0 then 0 else NearestAdjustment(quotient, remainder, divisor, negative));
            Rounded(q, rem, d, negative, NearestEven, bits) == if Fits(v, bits) then Ok(v) else Err(Overflow)
    ensures Rounded(q, rem, d, negative, TowardZero, bits) == Ok(quotient)
  {
    SteppedIsRounded(q, rem, d, negative, bits);
    hide Rounded, Fits;
    assert ToWord(quotient) % 2 == q % 2;
    if rem != 0 { NearestEvenIncrementMeaning(q, rem, d); }
  }

  /** The nearest rounding of a magnitude that fits is one step away from zero, or none. */
  lemma SteppedIsRounded(q: nat, rem: nat, d: nat, negative: bool, bits: nat)
    requires 64 <= bits && rem < d && q <= HALF - 1 + Bit(negative)
    ensures var step := rem != 0 && AwayFromZero(q, PartOf(rem, d), false, NearestEven);
            var v := Signed(q + Bit(step), negative);
            Rounded(q, rem, d, negative, NearestEven, bits) == if Fits(v, bits) then Ok(v) else Err(Overflow)
    ensures Rounded(q, rem, d, negative, TowardZero, bits) == Ok(Signed(q, negative))
  {
    Pow2Words();
    PowMono(2, 63, bits - 1);
    hide Pow, PartOf;
  }

  /** What a signed division inside the window means once it is rounded. */
  lemma WindowRounded(high: int64, low: word, divisor: int64, quotient: int64, remainder: int64, mode: Mode, bits: nat)
    requires 64 <= bits && divisor != 0 && CommonRounding(mode) && FitsSigned(high, divisor)
    requires quotient == Signed(Quot(Abs(Wide(high, low)), MagnitudeW(divisor)), SignOf(high, divisor))
    requires remainder == Signed(Rem(Abs(Wide(high, low)), MagnitudeW(divisor)), high < 0)
    ensures var v := quotient + if mode.NearestEven? && remainder != 0
                                then NearestAdjustment(quotient, remainder, divisor, SignOf(high, divisor)) else 0;
            Divide(Wide(high, low), divisor, mode, bits) == if Fits(v, bits) then Ok(v) else Err(Overflow)
  {
    var n, d, negative := Abs(Wide(high, low)), MagnitudeW(divisor), SignOf(high, divisor);
    WindowFits(high, low, divisor);
    QuotRem(n, d);
    WideSign(high, low, divisor);
    hide Quot, Rem, Rounded, Evaluate, Wide, NearestAdjustment, Fits, FitsSigned;
    RoundedIsEvaluate(n, d, Quot(n, d), Rem(n, d), negative, mode, bits);
    Adjusted(Quot(n, d), Rem(n, d), d, negative, quotient, remainder, divisor, bits);
    FitsWord(quotient, bits);
  }

  lemma FitsWord(x: int64, bits: nat)
    requires 64 <= bits
    ensures Fits(x, bits)
  {
    Limits();
    FitsWider(x, 64, bits);
  }

  predicate CommonRounding(mode: Mode) { mode.TowardZero? || mode.NearestEven? }

  /** quotient64_signed. */
  method QuotientSigned(high: int64, low: word, divisor: int64, mode: Mode) returns (r: Result<int>)
    ensures r == Divide(Wide(high, low), divisor, mode, 64)
  {
    if divisor == 0 { return Err(DivisionByZero); }
    if CommonRounding(mode) && FitsSigned(high, divisor) {
      Limits();
      WindowFits(high, low, divisor);
      hide Divide, Quot, Rem, FitsSigned, Wide, NearestEvenIncrement, Pow, ToWord;
      var quotient: int64, remainder: int64 := DivSigned64(high, low, divisor);
      WindowRounded(high, low, divisor, quotient, remainder, mode, 64);
      if mode.NearestEven? && remainder != 0 {
        var sum := quotient + NearestAdjustment(quotient, remainder, divisor, (high < 0) != (divisor < 0));
        if !(-0x8000_0000_0000_0000 <= sum < 0x8000_0000_0000_0000) {
          r := QuotientGeneral(high, low, divisor, mode);
          return;
        }
        return Ok(sum);
      }
      return Ok(quotient);
    }
    r := QuotientGeneral(high, low, divisor, mode);
  }

  // ----- the kernels -----

  lemma ScaleFits(decimals: nat)
    requires decimals <= 18
    ensures 0 < Pow10(decimals) <= 1_000_000_000_000_000_000
    ensures decimals == 0 ==> Pow10(decimals) == 1
    ensures decimals > 0 ==> Pow10(decimals) >= 10 && Pow10(decimals) % 2 == 0
  {
    PowMono(10, decimals, 18);
    assert Pow(10, 9) == 1_000_000_000;
    PowAdd(10, 9, 9);
    assert decimals > 0 ==> Pow10(decimals) == 10 * Pow(10, decimals - 1);
    assert Pow10(0) == 1;
    hide Pow;
  }

  method Mul64(a: int64, b: int64, scale: int64, mode: Mode) returns (r: Result<int>)
    requires 0 < scale
    ensures r == Evaluate(a * b, scale, mode, 64)
  {
    var hi: int64, lo: word := Imul64x64(a, b);
    r := QuotientSigned(hi, lo, scale, mode);
  }

  method Div64(a: int64, b: int64, scale: int64, mode: Mode) returns (r: Result<int>)
    ensures r == Divide(a * scale, b, mode, 64)
  {
    if b == 0 { return Err(DivisionByZero); }
    var hi: int64, lo: word := Imul64x64(a, scale);
    r := QuotientSigned(hi, lo, b, mode);
  }

  method MulDiv64(a: int64, b: int64, c: int64, mode: Mode) returns (r: Result<int>)
    ensures r == Operations.MulDiv(a, b, c, mode, 64)
  {
    if c == 0 { return Err(DivisionByZero); }
    var hi: int64, lo: word := Imul64x64(a, b);
    r := QuotientSigned(hi, lo, c, mode);
  }

  /** quantize64_kernel: round, then rescale with an overflow-checked product. */
  method Quantize64(a: int64, current: nat, target: nat, mode: Mode) returns (r: Result<int>)
    requires current <= 18
    ensures r == Operations.Quantize(a, current, target, mode, 64)
  {
    if target > current { return Err(InvalidPrecision); }
    if target == current { return Ok(a); }
    ScaleFits(current - target);
    var divisor: word := Pow10(current - target);
    var neg := a < 0;
    var mag := MagnitudeW(a);
    QuotRem(mag, divisor);
    var q, rem := Quot(mag, divisor), Rem(mag, divisor);
    RoundedIsEvaluate(mag, divisor, q, rem, neg, mode, 64);
    Limits();
    hide Evaluate, Quot, Rem, OnGrid, Pow, RoundMagnitude;
    var limit: word := HALF - 1 + Bit(neg);
    var rounded := RoundMagnitude(q, rem, divisor, neg, mode, limit);
    if rounded.Err? { return Err(rounded.error); }
    r := Rescale(rounded.value, divisor, limit, neg);
  }

  /** The product with the grid is checked in 128 bits. */
  method Rescale(q: word, d: word, limit: word, negative: bool) returns (r: Result<int>)
    requires d != 0 && q <= limit == HALF - 1 + Bit(negative)
    ensures r == OnGrid(Ok(Signed(q, negative)), d, 64)
  {
    Limits();
    SignedGrid(q, negative, d, 64);
    var product := q * d;
    if product >= W || product > limit { return Err(Overflow); }
    SignedWord(product, negative);
    r := Ok(ApplySignW(product, negative));
  }

  // ----- the public operations of 64 bits and below -----

  /** nearest_scaled_adj: two signed comparisons against the half-way boundaries. */
  function NearestScaledAdjustment(q: int64, rem: int64, d: word): int
    requires 0 < d
  {
    var tie := if ToWord(q) % 2 == 1 && d % 2 == 0 then 1 else 0;
    var threshold := d / 2 - tie;
    (if rem > threshold then 1 else 0) - if rem < -threshold then 1 else 0
  }

  lemma ScaledAdjustment(q: nat, rem: nat, d: word, negative: bool, quotient: int64, remainder: int64, bits: nat)
    requires 64 <= bits && 0 < rem < d && remainder == Signed(rem, negative)
    requires quotient == Signed(q, negative) && q <= HALF - 1
    ensures var v := quotient + NearestScaledAdjustment(quotient, remainder, d);
            Rounded(q, rem, d, negative, NearestEven, bits) == if Fits(v, bits) then Ok(v) else Err(Overflow)
  {
    SteppedIsRounded(q, rem, d, negative, bits);
    hide Rounded, Fits;
    assert ToWord(quotient) % 2 == q % 2;
  }

  /** The window of `mul` keeps one unit of headroom on both sides of the quotient. */
  lemma MulWindow(high: int64, low: word, scale: int64)
    requires 10 <= scale <= 1_000_000_000_000_000_000 && scale % 2 == 0
    requires AddW(ToWord(high), scale / 2) < scale - 1
    ensures var n, q, rem := Abs(Wide(high, low)), Quot(Abs(Wide(high, low)), scale), Rem(Abs(Wide(high, low)), scale);
            n < W * scale && q <= HALF - 1 + Bit(high < 0) && (rem != 0 ==> q <= HALF - 1) &&
            (high >= 0 && rem != 0 ==> q < HALF - 1)
  {
    var n := Abs(Wide(high, low));
    var half := scale / 2;
    assert -half <= high <= half - 2;
    assert n <= half * W;
    QuotRem(n, scale);
    QuotLess(n, scale, HALF + 1);
    QuotLess(n, scale, HALF);
    QuotLess(n, scale, HALF - 1);
    assert HALF * scale == half * W;
    if Quot(n, scale) == HALF { assert Rem(n, scale) == 0; }
  }

  /** `mul` of Fixed64: the inline window, else the compiled kernel. */
  method Fixed64Mul(a: int64, b: int64, decimals: nat, mode: Mode) returns (r: Result<int>)
    requires decimals <= 18
    ensures r == Operations.Mul(a, b, decimals, mode, 64)
  {
    ScaleFits(decimals);
    var scale: int64 := Pow10(decimals);
    if CommonRounding(mode) {
      var hi: int64, lo: word := Imul64x64(a, b);
      if AddW(ToWord(hi), scale / 2) < scale - 1 {
        r := WindowQuotient(hi, lo, scale, mode);
        return;
      }
    }
    r := Mul64(a, b, scale, mode);
  }

  /** The inline division inside the window: the adjusted quotient always fits. */
  method WindowQuotient(hi: int64, lo: word, scale: int64, mode: Mode) returns (r: Result<int>)
    requires 10 <= scale <= 1_000_000_000_000_000_000 && scale % 2 == 0 && CommonRounding(mode)
    requires AddW(ToWord(hi), scale / 2) < scale - 1
    ensures r == Divide(Wide(hi, lo), scale, mode, 64)
  {
    MulWindow(hi, lo, scale);
    hide *;
    var q: int64, rem: int64 := DivSigned64(hi, lo, scale);
    WindowOutcome(hi, lo, scale, q, rem);
    if mode.NearestEven? && rem != 0 {
      q := q + NearestScaledAdjustment(q, rem, scale);
    }
    r := Ok(q);
  }

  lemma WindowOutcome(hi: int64, lo: word, scale: int64, q: int64, rem: int64)
    requires 10 <= scale <= 1_000_000_000_000_000_000
    requires q == Signed(Quot(Abs(Wide(hi, lo)), scale), hi < 0) && rem == Signed(Rem(Abs(Wide(hi, lo)), scale), hi < 0)
    requires var uq := Quot(Abs(Wide(hi, lo)), scale); rem != 0 ==> uq <= HALF - 1 && (hi >= 0 ==> uq < HALF - 1)
    ensures var v := q + NearestScaledAdjustment(q, rem, scale);
            rem != 0 ==> 0 - HALF <= v < HALF && Divide(Wide(hi, lo), scale, NearestEven, 64) == Ok(v)
    ensures rem == 0 ==> Divide(Wide(hi, lo), scale, NearestEven, 64) == Ok(q)
    ensures Divide(Wide(hi, lo), scale, TowardZero, 64) == Ok(q)
  {
    var n := Abs(Wide(hi, lo));
    var uq, urem := Quot(n, scale), Rem(n, scale);
    QuotRem(n, scale);
    WideSign(hi, lo, scale);
    RoundedIsEvaluate(n, scale, uq, urem, hi < 0, NearestEven, 64);
    RoundedIsEvaluate(n, scale, uq, urem, hi < 0, TowardZero, 64);
    hide Quot, Rem, Evaluate, Rounded, Wide, Fits;
    Adjusted(uq, urem, scale, hi < 0, q, rem, scale, 64);
    FitsWord(q, 64);
    if rem != 0 {
      ScaledAdjustment(uq, urem, scale, hi < 0, q, rem, 64);
      FitsWord(q + NearestScaledAdjustment(q, rem, scale), 64);
    }
  }

  /** nearest_even_inc doubles the remainder: it cannot wrap below a signed divisor. */
  predicate NearestEvenDoubled(q: word, r: word, d: word)
    requires r < d <= HALF
  {
    AddW(2 * r, q % 2) > d
  }

  function NearestDoubledAdjustment(quotient: int64, remainder: int64, divisor: int64, negative: bool): int
    requires divisor != 0 && Abs(remainder) < Abs(divisor)
  {
    if NearestEvenDoubled(ToWord(quotient), MagnitudeW(remainder), MagnitudeW(divisor))
    then (if negative then -1 else 1) else 0
  }

  lemma DoubledIsNearest(quotient: int64, remainder: int64, divisor: int64, negative: bool)
    requires divisor != 0 && 0 < Abs(remainder) < Abs(divisor)
    ensures NearestDoubledAdjustment(quotient, remainder, divisor, negative)
            == NearestAdjustment(quotient, remainder, divisor, negative)
  {
  }

  /** `div` and `mul_div` of Fixed64: the inline window reports an overflowing adjustment at once. */
  method InlineQuotient(a: int64, b: int64, divisor: int64, mode: Mode) returns (r: Result<int>)
    requires divisor != 0
    ensures r == Divide(a * b, divisor, mode, 64)
  {
    var hi: int64, lo: word := Imul64x64(a, b);
    hide Divide, Quot, Rem;
    if CommonRounding(mode) && FitsSigned(hi, divisor) {
      Limits();
      WindowFits(hi, lo, divisor);
      var q: int64, rem: int64 := DivSigned64(hi, lo, divisor);
      WindowRounded(hi, lo, divisor, q, rem, mode, 64);
      if mode.NearestEven? && rem != 0 {
        DoubledIsNearest(q, rem, divisor, SignOf(hi, divisor));
        var sum := q + NearestDoubledAdjustment(q, rem, divisor, (hi < 0) != (divisor < 0));
        if !(-0x8000_0000_0000_0000 <= sum < 0x8000_0000_0000_0000) { return Err(Overflow); }
        return Ok(sum);
      }
      return Ok(q);
    }
    r := QuotientSigned(hi, lo, divisor, mode);
  }

  method Fixed64Div(a: int64, b: int64, decimals: nat, mode: Mode) returns (r: Result<int>)
    requires decimals <= 18
    ensures r == Operations.Div(a, b, decimals, mode, 64)
  {
    ScaleFits(decimals);
    if b == 0 { return Err(DivisionByZero); }
    r := InlineQuotient(a, Pow10(decimals), b, mode);
  }

  method Fixed64MulDiv(a: int64, b: int64, c: int64, mode: Mode) returns (r: Result<int>)
    ensures r == Operations.MulDiv(a, b, c, mode, 64)
  {
    if c == 0 { return Err(DivisionByZero); }
    r := InlineQuotient(a, b, c, mode);
  }

  type int32 = x: int | -0x8000_0000 <= x < 0x8000_0000

  lemma NarrowProduct(a: int32, b: int)
    requires -0x8000_0000 <= b <= 0x8000_0000
    ensures -0x8000_0000_0000_0000 <= a * b < 0x8000_0000_0000_0000
  {
    ProductParts(a, b);
    MulBound(Abs(a), 0x8000_0000, Abs(b), 0x8000_0000);
  }

  /** 8-, 16- and 32-bit mul, div and mul_div: one 64-bit quotient, then narrow_checked, which
      runs the truncating quotient only after `inexact`. */
  method NarrowQuotient(a: int32, b: int, divisor: int32, mode: Mode, bits: nat) returns (r: Result<int>)
    requires 0 < bits <= 32 && -0x8000_0000 <= b <= 0x8000_0000
    ensures r == Divide(a * b, divisor, mode, bits)
  {
    if divisor == 0 { return Err(DivisionByZero); }
    NarrowProduct(a, b);
    NarrowDivide(a * b, divisor, mode, 64, bits);
    var wide := MulDiv64(a * b, 1, divisor, mode);
    if wide == Err(Inexact) {
      var truncated := MulDiv64(a * b, 1, divisor, TowardZero);
      if truncated.Ok? && !Fits(truncated.value, bits) { return Err(Overflow); }
      return wide;
    }
    if wide.Ok? && !Fits(wide.value, bits) { return Err(Overflow); }
    return wide;
  }

  method NarrowQuantizeKernel(a: int32, current: nat, target: nat, mode: Mode, bits: nat) returns (r: Result<int>)
    requires 0 < bits <= 32 && current <= 9 && Fits(a, bits)
    ensures r == Operations.Quantize(a, current, target, mode, bits)
  {
    NarrowQuantize(a, current, target, mode, 64, bits);
    var wide := Quantize64(a, current, target, mode);
    if wide == Err(Inexact) {
      var truncated := Quantize64(a, current, target, TowardZero);
      if truncated.Ok? && !Fits(truncated.value, bits) { return Err(Overflow); }
      return wide;
    }
    if wide.Ok? && !Fits(wide.value, bits) { return Err(Overflow); }
    return wide;
  }
}
