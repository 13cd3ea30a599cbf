/** The portable 128-bit kernels: what the skipped correction of the portable division does to
    the operations built on it. */
module PortableKernels {
  import opened Arith
  import opened Words
  import opened Rounding
  import opened Operations
  import opened Signs
  import opened Division
  import opened PortableDivision
  import K = Kernels128

  /** multiply128 on limbs, as two double words. */
  method Product(a: dword, b: dword) returns (lo: dword, hi: dword)
    ensures hi * W2 + lo == a * b
  {
    Split(a);
    Split(b);
    var l0: word, l1: word, l2: word, l3: word := MultiplyLimbs(a % W, a / W, b % W, b / W);
    PairBound(l1, l0);
    PairBound(l3, l2);
    lo, hi := Pair(l1, l0), Pair(l3, l2);
  }

  /** round_magnitude in 128-bit arithmetic, also for the wrapped remainder of a missed correction. */
  function RoundWrapped(q: dword, r: dword, d: dword, negative: bool, mode: Mode, limit: dword): (res: Result<nat>)
    requires 0 < d
    ensures r < d ==> res == RoundMagnitude(q, r, d, negative, mode, limit)
  {
    if q > limit then Err(Overflow)
    else if r == 0 then Ok(q)
    else if mode.Exact? then Err(Inexact)
    else
      var increment := match mode
        case TowardZero => false
        case Floor => negative
        case Ceil => !negative
        case NearestEven => NearestEvenIncrement(q, r, d)
        case NearestAway => r >= SubD(d, r)
        case Exact => false;
      if increment && q == limit then Err(Overflow) else Ok(if increment then q + 1 else q)
  }

  /** A magnitude over a divisor that the portable tail gets wrong. */
  predicate Misses(n: nat, d: nat, mode: Mode) {
    n < W2 && d < W2 && SkippedCorrection(n, d) && !mode.Exact?
  }

  /** What it returns for them: a quotient one too large is rounded by a remainder of n + 1. */
  function Missed(n: nat, d: nat, negative: bool, mode: Mode): Result<int>
    requires Misses(n, d, mode)
  {
    SkippedQuotient(n, d);
    SignedResult(RoundWrapped(Quot(n, d) + 1, n + 1, d, negative, mode, HALF2 - 1 + Bit(negative)), negative)
  }

  /** The tail of the portable kernels is right exactly when the operands are not those. */
  method Finish(lo: dword, hi: dword, d: dword, negative: bool, mode: Mode) returns (r: Result<int>)
    requires d != 0
    ensures r == Evaluate(Signed(hi * W2 + lo, negative), d, mode, 128) <==> !Misses(hi * W2 + lo, d, mode)
    ensures Misses(hi * W2 + lo, d, mode) ==> r == Missed(hi * W2 + lo, d, negative, mode)
  {
    if hi == 0 {
      hide Evaluate, Misses, Missed;
      r := FinishPortable(lo, d, negative, mode);
    } else {
      hide Evaluate, Missed;
      r := FinishNarrow(lo, hi, d, negative, mode);
    }
  }

  /** A numerator of two words goes through the portable division. */
  method FinishPortable(n: dword, d: dword, negative: bool, mode: Mode) returns (r: Result<int>)
    requires d != 0
    ensures r == Evaluate(Signed(n, negative), d, mode, 128) <==> !Misses(n, d, mode)
    ensures Misses(n, d, mode) ==> r == Missed(n, d, negative, mode)
  {
    Limits();
    var limit: dword := HALF2 - 1 + Bit(negative);
    hide Evaluate, Quot, Rem, RoundWrapped;
    var value := Divide128Portable(n, d);
    RoundedOrMissed(n, d, value, negative, mode, limit);
    r := Restore(value, d, negative, mode, limit);
  }

  /** A wider one through the narrowing division, which is exact. */
  method FinishNarrow(lo: dword, hi: dword, d: dword, negative: bool, mode: Mode) returns (r: Result<int>)
    requires d != 0
    ensures r == Evaluate(Signed(hi * W2 + lo, negative), d, mode, 128)
  {
    Limits();
    var limit: dword := HALF2 - 1 + Bit(negative);
    hide Evaluate, Quot, Rem, Pow, Fits;
    var narrow := DivideNarrow(lo, hi, d);
    if narrow.Err? {
      OverflowIsEvaluate(hi * W2 + lo, d, W2, negative, mode, 128);
      return Err(Overflow);
    }
    RoundedIsEvaluate(hi * W2 + lo, d, narrow.value.quotient, narrow.value.remainder, negative, mode, 128);
    r := Restore(narrow.value, d, negative, mode, limit);
  }

  method Restore(value: Quotient, d: dword, negative: bool, mode: Mode, limit: dword) returns (r: Result<int>)
    requires d != 0 && limit == HALF2 - 1 + Bit(negative)
    ensures r == SignedResult(RoundWrapped(value.quotient, value.remainder, d, negative, mode, limit), negative)
  {
    var rounded := RoundWrapped(value.quotient, value.remainder, d, negative, mode, limit);
    if rounded.Err? { return Err(rounded.error); }
    SignedDword(rounded.value, negative);
    r := Ok(ApplySignD(rounded.value, negative));
  }

  /** One too much in the quotient moves the result in every mode that rounds at all. */
  lemma RoundedOrMissed(n: dword, d: dword, value: Quotient, negative: bool, mode: Mode, limit: dword)
    requires d != 0 && limit == HALF2 - 1 + Bit(negative)
    requires value == Quotient(Quot(n, d), Rem(n, d)) <==> !SkippedCorrection(n, d)
    requires SkippedCorrection(n, d) ==> value == Quotient(Quot(n, d) + 1, n + 1)
    ensures (SignedResult(RoundWrapped(value.quotient, value.remainder, d, negative, mode, limit), negative)
             == Evaluate(Signed(n, negative), d, mode, 128)) <==> !Misses(n, d, mode)
  {
    Limits();
    QuotRem(n, d);
    RoundedIsEvaluate(n, d, Quot(n, d), Rem(n, d), negative, mode, 128);
    if SkippedCorrection(n, d) { SkippedQuotient(n, d); }
    hide Evaluate, Quot;
  }

  /** Multiplication by the portable backend is right for all operands. */
  method Mul128(a: int128, b: int128, decimals: nat, mode: Mode) returns (r: Result<int>)
    requires decimals <= 38
    ensures r == Operations.Mul(a, b, decimals, mode, 128)
  {
    K.Scale128(decimals);
    var lo: dword, hi: dword := Product(MagnitudeD(a), MagnitudeD(b));
    ProductParts(a, b);
    r := Finish(lo, hi, Pow10(decimals), (a < 0) != (b < 0), mode);
  }

  /** Division is right if and only if the scaled magnitude and the divisor are not the missed ones. */
  method Div128(a: int128, b: int128, decimals: nat, mode: Mode) returns (r: Result<int>)
    requires decimals <= 38
    ensures r == Operations.Div(a, b, decimals, mode, 128) <==> !Misses(Abs(a) * Pow10(decimals), Abs(b), mode)
    ensures Misses(Abs(a) * Pow10(decimals), Abs(b), mode) ==>
              r == Missed(Abs(a) * Pow10(decimals), Abs(b), (a < 0) != (b < 0), mode)
  {
    if b == 0 { return Err(DivisionByZero); }
    K.Scale128(decimals);
    var lo: dword, hi: dword := Product(MagnitudeD(a), Pow10(decimals));
    DivideParts(a, Pow10(decimals), b, mode, 128);
    r := Finish(lo, hi, MagnitudeD(b), (a < 0) != (b < 0), mode);
  }

  method MulDiv128(a: int128, b: int128, c: int128, mode: Mode) returns (r: Result<int>)
    ensures r == Operations.MulDiv(a, b, c, mode, 128) <==> !Misses(Abs(a) * Abs(b), Abs(c), mode)
    ensures Misses(Abs(a) * Abs(b), Abs(c), mode) ==>
              r == Missed(Abs(a) * Abs(b), Abs(c), (a < 0) != ((b < 0) != (c < 0)), mode)
  {
    if c == 0 { return Err(DivisionByZero); }
    var lo: dword, hi: dword := Product(MagnitudeD(a), MagnitudeD(b));
    DivideParts(a, b, c, mode, 128);
    r := Finish(lo, hi, MagnitudeD(c), (a < 0) != ((b < 0) != (c < 0)), mode);
  }

  /** The missed dividends lie above every signed magnitude, so remainders are always right. */
  method Remainder128(a: int128, b: int128) returns (r: Result<int>)
    ensures r == Operations.Remainder(a, b)
  {
    if b == 0 { return Err(DivisionByZero); }
    if b == -1 {
      QuotUnique(Abs(a), 1, Abs(a), 0);
      return Ok(0);
    }
    var value := Divide128Portable(MagnitudeD(a), MagnitudeD(b));
    SignedDword(value.remainder, a < 0);
    r := Ok(ApplySignD(value.remainder, a < 0));
  }

  /** Operands of one decimal that the portable division gets wrong: it returns 2^64 - 1 where
      the truncated quotient is 2^64 - 2. */
  method DivisionMisses() returns (r: Result<int>)
    ensures r == Ok(0xffff_ffff_ffff_ffff)
    ensures Operations.Div(34028236692093846346337460743176821145, 0x1_0000_0000_0000_0001, 1, TowardZero, 128)
            == Ok(0xffff_ffff_ffff_fffe)
  {
    var a: int128, b: int128 := 34028236692093846346337460743176821145, 0x1_0000_0000_0000_0001;
    assert Pow10(1) == 10 * Pow(10, 0) == 10;
    MissedQuotient(a * 10, b);
    hide Pow, Quot, Rem, Evaluate, Missed;
    r := Div128(a, b, 1, TowardZero);
  }

  lemma MissedQuotient(n: nat, d: nat)
    requires n == 0xffff_ffff_ffff_ffff_ffff_ffff_ffff_fffa && d == 0x1_0000_0000_0000_0001
    ensures Misses(n, d, TowardZero) && Missed(n, d, false, TowardZero) == Ok(0xffff_ffff_ffff_ffff)
    ensures Evaluate(n, d, TowardZero, 128) == Ok(0xffff_ffff_ffff_fffe)
  {
    Limits();
    QuotUnique(n, d, 0xffff_ffff_ffff_fffe, 0xffff_ffff_ffff_fffc);
    hide Pow, Quot, Rem;
  }
}
