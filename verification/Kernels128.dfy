/** The 128-bit kernels over the native double word: one wide tail, and narrow paths that
    divide in signed arithmetic when a cheap test proves it safe. */
module Kernels128 {
  import opened Arith
  import opened Words
  import opened Rounding
  import opened Operations
  import opened Signs
  import opened Division
  import opened Kernels64

  // ----- the wide tail -----

  /** nat::finish: round the magnitude and negate it in unsigned arithmetic. */
  method FinishD(value: Quotient, d: dword, negative: bool, mode: Mode) returns (r: Result<int>)
    requires value.remainder < d
    ensures r == Rounded(value.quotient, value.remainder, d, negative, mode, 128)
  {
    Limits();
    var limit: dword := HALF2 - 1 + Bit(negative);
    var rounded := RoundMagnitude(value.quotient, value.remainder, d, negative, mode, limit);
    match rounded
    case Err(e) => r := Err(e);
    case Ok(m) =>
      SignedDword(m, negative);
      r := Ok(ApplySignD(m, negative));
  }

  /** finish_wide: a 256-bit magnitude over a 128-bit divisor, rounded once. */
  method FinishWide(lo: dword, hi: dword, d: dword, negative: bool, mode: Mode) returns (r: Result<int>)
    requires d != 0
    ensures r == Evaluate(Signed(hi * W2 + lo, negative), d, mode, 128)
  {
    if hi == 0 {
      var value := Divide128(lo, d, !mode.TowardZero?);
      QuotRem(lo, d);
      RoundedIsEvaluate(lo, d, Quot(lo, d), Rem(lo, d), negative, mode, 128);
      r := FinishD(value, d, negative, mode);
      return;
    }
    var quotient := DivideNarrow(lo, hi, d);
    match quotient
    case Err(e) =>
      Limits();
      OverflowIsEvaluate(hi * W2 + lo, d, W2, negative, mode, 128);
      r := Err(e);
    case Ok(value) =>
      RoundedIsEvaluate(hi * W2 + lo, d, value.quotient, value.remainder, negative, mode, 128);
      r := FinishD(value, d, negative, mode);
  }

  lemma Scale128(decimals: nat)
    requires decimals <= 38
    ensures 0 < Pow10(decimals) < HALF2
    ensures decimals <= 19 ==> Pow10(decimals) < W
  {
    assert Pow(10, 9) == 1_000_000_000 && Pow(10, 10) == 10_000_000_000;
    PowAdd(10, 9, 10);
    PowAdd(10, 19, 19);
    PowMono(10, decimals, 38);
    if decimals <= 19 { PowMono(10, decimals, 19); }
  }

  method Mul128(a: int128, b: int128, decimals: nat, mode: Mode) returns (r: Result<int>)
    requires decimals <= 38
    ensures r == Operations.Mul(a, b, decimals, mode, 128)
  {
    Scale128(decimals);
    var lo: dword, hi: dword := Multiply128(MagnitudeD(a), MagnitudeD(b));
    ProductParts(a, b);
    r := FinishWide(lo, hi, Pow10(decimals), (a < 0) != (b < 0), mode);
  }

  method Div128(a: int128, b: int128, decimals: nat, mode: Mode) returns (r: Result<int>)
    requires decimals <= 38
    ensures r == Operations.Div(a, b, decimals, mode, 128)
  {
    if b == 0 { return Err(DivisionByZero); }
    Scale128(decimals);
    var lo: dword, hi: dword := Multiply128(MagnitudeD(a), Pow10(decimals));
    DivideParts(a, Pow10(decimals), b, mode, 128);
    r := FinishWide(lo, hi, MagnitudeD(b), (a < 0) != (b < 0), mode);
  }

  method MulDivGeneral(a: int128, b: int128, c: int128, mode: Mode) returns (r: Result<int>)
    requires c != 0
    ensures r == Operations.MulDiv(a, b, c, mode, 128)
  {
    var lo: dword, hi: dword := Multiply128(MagnitudeD(a), MagnitudeD(b));
    DivideParts(a, b, c, mode, 128);
    r := FinishWide(lo, hi, MagnitudeD(c), (a < 0) != ((b < 0) != (c < 0)), mode);
  }

  // ----- signed division in registers -----

  function HighOf(n: int128): int64
  {
    Split(ToDword(n));
    FromWord(ToDword(n) / W)
  }

  function LowOf(n: int128): word { ToDword(n) % W }

  predicate Fits64(x: int128) { -0x8000_0000_0000_0000 <= x < 0x8000_0000_0000_0000 }

  /** `a / b` of the native signed type: it truncates, and only signed_min / -1 overflows. */
  function Truncate(n: int128, d: int128): int128
    requires d != 0 && n != 0 - HALF2
  {
    Signed(Quot(Abs(n), Abs(d)), (n < 0) != (d < 0))
  }

  /** The value every register path returns: the truncated quotient moved one step at a
      nearest-even increment. It is the rounded quotient, and it fits. */
  lemma RegisterQuotient(n: int128, d: int128, q: nat, rem: nat, mode: Mode, increment: bool)
    requires d != 0 && n != 0 - HALF2 && CommonRounding(mode)
    requires q == Quot(Abs(n), Abs(d)) && rem == Rem(Abs(n), Abs(d))
    requires increment <==> mode.NearestEven? && rem != 0 && NearestEvenIncrement(q, rem, Abs(d))
    ensures q + Bit(increment) < HALF2
    ensures Divide(n, d, mode, 128) == Ok(Signed(q + Bit(increment), (n < 0) != (d < 0)))
  {
    QuotRem(Abs(n), Abs(d));
    RoundedIsEvaluate(Abs(n), Abs(d), q, rem, (n < 0) != (d < 0), mode, 128);
    hide Quot, Rem, Evaluate, Rounded, NearestEvenIncrement;
    QuotientRoom(Abs(n), Abs(d), q, rem);
    SteppedRegister(q, rem, Abs(d), (n < 0) != (d < 0), mode, increment);
  }

  /** A division with a remainder at least halves, so one more still fits. */
  lemma QuotientRoom(n: nat, d: nat, q: nat, rem: nat)
    requires n == q * d + rem && rem < d && n < HALF2
    ensures q < HALF2 && (rem != 0 ==> q + 1 < HALF2)
  {
    MulMono(1, d, q);
    if rem != 0 { MulMono(2, d, q); }
  }

  lemma SteppedRegister(q: nat, rem: nat, d: nat, negative: bool, mode: Mode, increment: bool)
    requires rem < d && CommonRounding(mode) && q + Bit(increment) < HALF2
    requires increment <==> mode.NearestEven? && rem != 0 && NearestEvenIncrement(q, rem, d)
    ensures Rounded(q, rem, d, negative, mode, 128) == Ok(Signed(q + Bit(increment), negative))
  {
    Pow2Doubles();
    hide Pow, PartOf;
    if rem != 0 { NearestEvenIncrementMeaning(q, rem, d); }
  }

  /** divide_native_general_n. */
  method DivideNativeGeneral(n: int128, d: int128, mode: Mode) returns (r: int128)
    requires d != 0 && n != 0 - HALF2 && CommonRounding(mode)
    ensures Divide(n, d, mode, 128) == Ok(r)
  {
    TruncatedRest(n, d);
    hide Quot, Rem, NearestEvenIncrement, Divide, Truncate;
    ghost var q, rem := Quot(Abs(n), Abs(d)), Rem(Abs(n), Abs(d));
    var quotient := Truncate(n, d);
    if mode.TowardZero? {
      RegisterQuotient(n, d, q, rem, TowardZero, false);
      return quotient;
    }
    assert mode == NearestEven;
    RegisterQuotient(n, d, q, rem, NearestEven, rem != 0 && NearestEvenIncrement(q, rem, Abs(d)));
    r := Nudged(n, d, quotient, q, rem);
  }

  /** The step on the register's quotient, decided on its wrapped bits. */
  method Nudged(n: int128, d: int128, quotient: int128, ghost q: nat, ghost rem: nat) returns (r: int128)
    requires d != 0 && rem < Abs(d) && quotient == Signed(q, (n < 0) != (d < 0)) && n - quotient * d == Signed(rem, n < 0)
    requires var step := Bit(rem != 0 && NearestEvenIncrement(q, rem, Abs(d)));
             q + step < HALF2 && Divide(n, d, NearestEven, 128) == Ok(Signed(q + step, (n < 0) != (d < 0)))
    ensures Divide(n, d, NearestEven, 128) == Ok(r)
  {
    var remainder := MagnitudeD(n - quotient * d);
    if remainder == 0 { return quotient; }
    SameIncrement(quotient, q, remainder, MagnitudeD(d));
    hide NearestEvenIncrement, ToDword, Divide;
    var increment := NearestEvenIncrement(ToDword(quotient), remainder, MagnitudeD(d));
    r := quotient + if (n < 0) != (d < 0) then 0 - Bit(increment) else Bit(increment);
  }

  /** q * d lies between zero and the numerator: the product and the difference both fit. */
  lemma TruncatedRest(n: int128, d: int128)
    requires d != 0 && n != 0 - HALF2
    ensures n - Truncate(n, d) * d == Signed(Rem(Abs(n), Abs(d)), n < 0)
    ensures Abs(Truncate(n, d) * d) <= Abs(n)
    ensures Truncate(n, d) == Signed(Quot(Abs(n), Abs(d)), (n < 0) != (d < 0)) && Rem(Abs(n), Abs(d)) < Abs(d)
  {
    QuotRem(Abs(n), Abs(d));
    ProductParts(Truncate(n, d), d);
    if Quot(Abs(n), Abs(d)) == 0 { assert Truncate(n, d) * d == 0; }
  }

  /** The parity of a signed quotient's bits is that of its magnitude. */
  lemma SameIncrement(quotient: int128, q: nat, rem: nat, d: nat)
    requires Abs(quotient) == q && rem < d
    ensures NearestEvenIncrement(ToDword(quotient), rem, d) <==> NearestEvenIncrement(q, rem, d)
  {
    assert ToDword(quotient) % 2 == q % 2;
  }

  /** divide_native_n: the signed window, widened before the rounding step. */
  method DivideNative(n: int128, d: int128, mode: Mode) returns (r: int128)
    requires d != 0 && n != 0 - HALF2 && CommonRounding(mode)
    ensures Divide(n, d, mode, 128) == Ok(r)
  {
    if Fits64(d) && FitsSigned(HighOf(n), d) {
      r := DivideWindow(HighOf(n), LowOf(n), d, mode);
      return;
    }
    r := DivideNativeGeneral(n, d, mode);
  }

  method DivideWindow(high: int64, low: word, d: int64, mode: Mode) returns (r: int128)
    requires d != 0 && CommonRounding(mode) && FitsSigned(high, d)
    ensures Divide(Wide(high, low), d, mode, 128) == Ok(r)
  {
    WindowFits(high, low, d);
    Limits();
    var quotient: int64, remainder: int64 := DivSigned64(high, low, d);
    WindowRounded(high, low, d, quotient, remainder, mode, 128);
    hide Divide, Quot, Rem;
    if mode.TowardZero? || remainder == 0 { return quotient; }
    r := quotient + NearestAdjustment(quotient, remainder, d, (high < 0) != (d < 0));
  }

  /** divide_scale_general_n: unsigned division of a product by the scale. */
  method DivideScaleGeneral(n: int128, scale: dword, mode: Mode) returns (r: int128)
    requires 0 < scale < HALF2 && n != 0 - HALF2 && CommonRounding(mode)
    ensures Divide(n, scale, mode, 128) == Ok(r)
  {
    var value := ScaleQuotient(MagnitudeD(n), scale);
    hide Quot, Rem, Divide, NearestEvenIncrement;
    var increment := mode.NearestEven? && NearestEvenIncrement(value.quotient, value.remainder, scale);
    RegisterQuotient(n, scale, value.quotient, value.remainder, mode, increment && value.remainder != 0);
    SignedDword(value.quotient + Bit(increment), n < 0);
    r := ApplySignD(value.quotient + Bit(increment), n < 0);
  }

  /** A scale of one word is divided by in two steps. */
  method ScaleQuotient(n: dword, scale: dword) returns (value: Quotient)
    requires scale != 0
    ensures value.quotient == Quot(n, scale) && value.remainder == Rem(n, scale) < scale
  {
    QuotRem(n, scale);
    if scale / W == 0 {
      value := Divide128By64(n, scale);
      QuotUnique(n, scale, value.quotient, value.remainder);
    } else {
      value := Divide128(n, scale, true);
    }
  }

  /** divide_product_by_scale_n. A scale of 10^19 reads as a negative signed word, which costs
      only the window. */
  method DivideProductByScale(product: int128, scale: dword, mode: Mode) returns (r: int128)
    requires 0 < scale < HALF2 && product != 0 - HALF2 && CommonRounding(mode)
    ensures Divide(product, scale, mode, 128) == Ok(r)
  {
    if scale / W == 0 && FitsSigned(HighOf(product), FromWord(scale)) {
      r := DivideNative(product, scale, mode);
    } else {
      r := DivideScaleGeneral(product, scale, mode);
    }
  }

  lemma WordProduct(a: int64, b: int64)
    ensures Abs(a * b) <= 0x4000_0000_0000_0000_0000_0000_0000_0000
  {
    ProductParts(a, b);
    MulBound(Abs(a), HALF, Abs(b), HALF);
  }

  /** mul128_scaled. */
  method Mul128Scaled(a: int128, b: int128, decimals: nat, mode: Mode) returns (r: Result<int>)
    requires decimals <= 19
    ensures r == Operations.Mul(a, b, decimals, mode, 128)
  {
    Scale128(decimals);
    if CommonRounding(mode) && Fits64(a) && Fits64(b) {
      WordProduct(a, b);
      var q := DivideProductByScale(a * b, Pow10(decimals), mode);
      return Ok(q);
    }
    r := Mul128(a, b, decimals, mode);
  }

  /** One unsigned comparison for -bound <= a <= bound. */
  predicate WithinBound(a: int128, bound: dword)
    requires 2 * bound < W2
  {
    (ToDword(a) + bound) % W2 <= 2 * bound
  }

  lemma BoundedNumerator(a: int128, scale: dword)
    requires 0 < scale < HALF2
    ensures Quot(HALF2 - 1, scale) < HALF2
    ensures WithinBound(a, Quot(HALF2 - 1, scale)) ==> Abs(a * scale) < HALF2
  {
    if WithinBound(a, Quot(HALF2 - 1, scale)) {
      BoundMeans(a, Quot(HALF2 - 1, scale));
      QuotRem(HALF2 - 1, scale);
      hide *;
      BoundedProduct(a, Quot(HALF2 - 1, scale), scale);
    }
  }

  lemma BoundMeans(a: int128, bound: dword)
    requires 2 * bound < W2
    ensures WithinBound(a, bound) <==> Abs(a) <= bound
  {
  }

  lemma BoundedProduct(a: int, bound: nat, scale: pos)
    requires Abs(a) <= bound
    ensures Abs(a * scale) <= bound * scale
  {
    AbsScale(a, scale);
    MulMono(Abs(a), bound, scale);
  }

  /** div128_scaled. */
  method Div128Scaled(a: int128, b: int128, decimals: nat, mode: Mode) returns (r: Result<int>)
    requires decimals <= 19
    ensures r == Operations.Div(a, b, decimals, mode, 128)
  {
    Scale128(decimals);
    var scale: dword := Pow10(decimals);
    var bound: dword := Quot(HALF2 - 1, scale);
    if b == 0 { return Err(DivisionByZero); }
    BoundedNumerator(a, scale);
    if CommonRounding(mode) && WithinBound(a, bound) {
      var numerator: int128 := a * scale;
      if mode.TowardZero? {
        RegisterQuotient(numerator, b, Quot(Abs(numerator), Abs(b)), Rem(Abs(numerator), Abs(b)), mode, false);
        return Ok(Truncate(numerator, b));
      }
      var q := DivideNative(numerator, b, mode);
      return Ok(q);
    }
    r := Div128(a, b, decimals, mode);
  }

  /** mul_div128_kernel. */
  method MulDiv128(a: int128, b: int128, c: int128, mode: Mode) returns (r: Result<int>)
    ensures r == Operations.MulDiv(a, b, c, mode, 128)
  {
    if c == 0 { return Err(DivisionByZero); }
    if CommonRounding(mode) && Fits64(a) && Fits64(b) {
      WordProduct(a, b);
      var q := DivideNative(a * b, c, mode);
      return Ok(q);
    }
    r := MulDivGeneral(a, b, c, mode);
  }

  method Quantize128(a: int128, current: nat, target: nat, mode: Mode) returns (r: Result<int>)
    requires current <= 38
    ensures r == Operations.Quantize(a, current, target, mode, 128)
  {
    if target > current { return Err(InvalidPrecision); }
    if target == current { return Ok(a); }
    Scale128(current - target);
    Limits();
    hide Pow;
    var d: dword := Pow10(current - target);
    var negative, m := a < 0, MagnitudeD(a);
    var value := Divide128(m, d, !mode.TowardZero?);
    QuotRem(m, d);
    RoundedIsEvaluate(m, d, Quot(m, d), Rem(m, d), negative, mode, 128);
    var limit: dword := HALF2 - 1 + Bit(negative);
    hide Evaluate, Quot, Rem, OnGrid;
    var rounded := RoundMagnitude(value.quotient, value.remainder, d, negative, mode, limit);
    if rounded.Err? {
      return Err(rounded.error);
    }
    r := Rescale(rounded.value, d, limit, negative);
  }

  /** The product with the grid needs no second division to detect overflow. */
  method Rescale(q: dword, d: dword, limit: dword, negative: bool) returns (r: Result<int>)
    requires q <= limit == HALF2 - 1 + Bit(negative)
    ensures r == OnGrid(Ok(Signed(q, negative)), d, 128)
  {
    Limits();
    var lo: dword, hi: dword := Multiply128(q, d);
    SignedScale(q, negative, d);
    if hi != 0 || lo > limit { return Err(Overflow); }
    SignedDword(lo, negative);
    r := Ok(ApplySignD(lo, negative));
  }

  /** remainder128_kernel: the sign of the dividend, and zero at once for a divisor of -1. */
  method Remainder128(a: int128, b: int128) returns (r: Result<int>)
    ensures r == Operations.Remainder(a, b)
  {
    if b == 0 { return Err(DivisionByZero); }
    assert Rem(MagnitudeD(a), MagnitudeD(b)) < MagnitudeD(b) by { QuotRem(MagnitudeD(a), MagnitudeD(b)); }
    hide Quot, Rem;
    if b == -1 { return Ok(0); }
    var value := Divide128(MagnitudeD(a), MagnitudeD(b), true);
    SignedDword(value.remainder, a < 0);
    r := Ok(ApplySignD(value.remainder, a < 0));
  }

  // ----- the inline paths of the public header -----

  /** fits64: the high limb is the sign extension of the low one. */
  predicate Fits64Limbs(low: word, high: word) { AddW(high, Shr(low, 63)) == 0 }

  lemma Fits64LimbsMeaning(x: int128)
    ensures ToDword(x) / W < W
    ensures Fits64Limbs(LowOf(x), ToDword(x) / W) <==> Fits64(x)
    ensures Fits64(x) ==> FromWord(LowOf(x)) == x
  {
    Split(ToDword(x));
    TopBit(LowOf(x));
  }

  lemma TopBit(w: word)
    ensures Shr(w, 63) == if w < HALF then 0 else 1
  {
    Pow2Words();
    QuotUnique(w, HALF, if w < HALF then 0 else 1, if w < HALF then w else w - HALF);
  }

  /** round_wide_quotient: the high limb comes from the signs before the addition. */
  function RoundWideQuotient(q: int64, adjustment: int): int128
    requires -1 <= adjustment <= 1
  {
    var sign := q < 0 || adjustment < 0;
    var low := AddW(ToWord(q), ToWord(adjustment));
    PairBound(if sign then ONES else 0, low);
    FromDword(Pair(if sign then ONES else 0, low))
  }

  /** It needs no carry chain because the step never opposes the quotient's sign. */
  lemma RoundWideExact(q: int64, adjustment: int)
    requires -1 <= adjustment <= 1 && (adjustment > 0 ==> q >= 0) && (adjustment < 0 ==> q <= 0)
    ensures RoundWideQuotient(q, adjustment) == q + adjustment
  {
  }

  /** Inline `mul` of Fixed128: the window of Fixed64, else a two-step unsigned division. */
  method InlineMul128(a: int64, b: int64, decimals: nat, mode: Mode) returns (r: int128)
    requires decimals <= 18 && CommonRounding(mode)
    ensures Operations.Mul(a, b, decimals, mode, 128) == Ok(r)
  {
    ScaleFits(decimals);
    var scale: int64 := Pow10(decimals);
    var hi: int64, lo: word := Imul64x64(a, b);
    WordProduct(a, b);
    if AddW(ToWord(hi), scale / 2) < scale - 1 {
      r := WindowScale(hi, lo, scale, mode);
      return;
    }
    r := WideScale(hi, lo, scale, mode);
  }

  /** The excluded slab: divide in two steps and round the unsigned quotient. */
  method WideScale(hi: int64, lo: word, scale: int64, mode: Mode) returns (r: int128)
    requires 0 < scale && CommonRounding(mode) && Abs(Wide(hi, lo)) < HALF2
    ensures Divide(Wide(hi, lo), scale, mode, 128) == Ok(r)
  {
    var negative := hi < 0;
    WideSign(hi, lo, scale);
    var uhi: word, ulo: word := MagnitudeLimbs(hi, lo);
    var qhi: word, qlo: word, rem: word := TwoDigitQuotient(uhi, ulo, scale);
    hide Divide, Quot, Rem, Pair, Wide, NearestEvenIncrement, NearestEvenDoubled;
    var increment := rem != 0 && mode.NearestEven? && NearestEvenDoubled(qlo, rem, scale);
    DoubledParity(qhi, qlo, rem, scale);
    RegisterQuotient(Wide(hi, lo), scale, Pair(qhi, qlo), rem, mode, increment);
    SignedDword(Pair(qhi, qlo) + Bit(increment), negative);
    r := ApplySignD(Pair(qhi, qlo) + Bit(increment), negative);
  }

  method TwoDigitQuotient(uhi: word, ulo: word, d: word) returns (qhi: word, qlo: word, rem: word)
    requires d != 0
    ensures Pair(qhi, qlo) == Quot(Pair(uhi, ulo), d) && rem == Rem(Pair(uhi, ulo), d) && rem < d
  {
    QuotRem(uhi, d);
    MulMono(1, d, Quot(uhi, d));
    ghost var partial := Rem(uhi, d);
    qhi := Quot(uhi, d);
    qlo, rem := Div128By64(Rem(uhi, d), ulo, d);
    TwoDigits(qhi, qlo, d, partial, uhi, ulo, rem);
    hide *;
    QuotUnique(Pair(uhi, ulo), d, Pair(qhi, qlo), rem);
  }

  lemma DoubledParity(qhi: nat, qlo: word, rem: nat, d: nat)
    requires rem < d <= HALF
    ensures rem != 0 ==> (NearestEvenDoubled(qlo, rem, d) <==> NearestEvenIncrement(Pair(qhi, qlo), rem, d))
  {
    assert Pair(qhi, qlo) % 2 == qlo % 2;
  }

  method WindowScale(hi: int64, lo: word, scale: int64, mode: Mode) returns (r: int128)
    requires 1 <= scale <= 1_000_000_000_000_000_000 && (scale == 1 || (10 <= scale && scale % 2 == 0))
    requires CommonRounding(mode) && AddW(ToWord(hi), scale / 2) < scale - 1
    ensures Divide(Wide(hi, lo), scale, mode, 128) == Ok(r)
  {
    MulWindow(hi, lo, scale);
    Limits();
    ghost var n := Abs(Wide(hi, lo));
    var q: int64, rem: int64 := DivSigned64(hi, lo, scale);
    QuotRem(n, scale);
    WideSign(hi, lo, scale);
    RoundedIsEvaluate(n, scale, Quot(n, scale), Rem(n, scale), hi < 0, mode, 128);
    if mode.NearestEven? && rem != 0 {
      ScaledAdjustment(Quot(n, scale), Rem(n, scale), scale, hi < 0, q, rem, 128);
      r := q + NearestScaledAdjustment(q, rem, scale);
    } else {
      Adjusted(Quot(n, scale), Rem(n, scale), scale, hi < 0, q, rem, scale, 128);
      r := q;
    }
  }

  /** Inline `mul_div` of Fixed128 for three words. */
  method InlineMulDiv128(a: int64, b: int64, c: int64, mode: Mode) returns (r: Result<int>)
    requires c != 0 && CommonRounding(mode)
    ensures r == Operations.MulDiv(a, b, c, mode, 128)
  {
    hide Divide;
    var hi: int64, lo: word := Imul64x64(a, b);
    if FitsSigned(hi, c) {
      var q := RoundWide(hi, lo, c, mode);
      return Ok(q);
    }
    r := MulDiv128(a, b, c, mode);
  }

  method RoundWide(hi: int64, lo: word, c: int64, mode: Mode) returns (r: int128)
    requires c != 0 && CommonRounding(mode) && FitsSigned(hi, c)
    ensures Divide(Wide(hi, lo), c, mode, 128) == Ok(r)
  {
    WindowFits(hi, lo, c);
    var q: int64, rem: int64 := DivSigned64(hi, lo, c);
    RoundWideOutcome(hi, lo, c, q, rem);
    hide *;
    if mode.NearestEven? && rem != 0 {
      return RoundWideQuotient(q, NearestDoubledAdjustment(q, rem, c, SignOf(hi, c)));
    }
    r := q;
  }

  lemma RoundWideOutcome(hi: int64, lo: word, c: int64, q: int64, rem: int64)
    requires c != 0 && FitsSigned(hi, c) && Abs(rem) < Abs(c)
    requires q == Signed(Quot(Abs(Wide(hi, lo)), MagnitudeW(c)), SignOf(hi, c))
    requires rem == Signed(Rem(Abs(Wide(hi, lo)), MagnitudeW(c)), hi < 0)
    ensures Divide(Wide(hi, lo), c, TowardZero, 128) == Ok(q)
    ensures rem == 0 ==> Divide(Wide(hi, lo), c, NearestEven, 128) == Ok(q)
    ensures rem != 0 ==>
              var adjustment := NearestDoubledAdjustment(q, rem, c, SignOf(hi, c));
              -1 <= adjustment <= 1 && Divide(Wide(hi, lo), c, NearestEven, 128) == Ok(RoundWideQuotient(q, adjustment))
  {
    hide Divide, Quot, Rem, FitsSigned, Wide, RoundWideQuotient;
    WindowRounded(hi, lo, c, q, rem, NearestEven, 128);
    WindowRounded(hi, lo, c, q, rem, TowardZero, 128);
    NearWord(q);
    hide Fits;
    if rem != 0 {
      DoubledIsNearest(q, rem, c, SignOf(hi, c));
      RoundWideExact(q, NearestDoubledAdjustment(q, rem, c, SignOf(hi, c)));
    }
  }

  lemma NearWord(q: int64)
    ensures Fits(q, 128) && Fits(q + 1, 128) && Fits(q - 1, 128)
  {
    Limits();
  }
}
