/** A multiply prepared for one shared factor: reciprocal division by an invariant divisor,
    a reduced fraction, and the split product a * f = (q * d + r) * f. */
module BatchMultiply {
  import opened Arith
  import opened Words
  import opened Division
  import opened Rounding
  import opened Operations
  import opened Signs
  import opened Kernels128
  import Mixed
  import Lanes

  // ----- the prepared divisor -----

  /** floor(2^64 / d) for d >= 2; a divisor of one needs no reciprocal. */
  datatype Prepared = Prepared(divisor: word, reciprocal: word)

  predicate IsPrepared(p: Prepared) {
    p.divisor != 0 && (p.divisor != 1 ==> p.reciprocal == Quot(W, p.divisor))
  }

  method PrepareDivisor(d: word) returns (p: Prepared)
    requires d != 0
    ensures IsPrepared(p) && p.divisor == d
  {
    var reciprocal: word := 0;
    if d != 1 {
      QuotRem(W, d);
      MulMono(2, d, Quot(W, d));
      reciprocal := Quot(W, d);
    }
    p := Prepared(d, reciprocal);
  }

  /** The estimate from the reciprocal is the quotient or one below. */
  lemma ReciprocalEstimate(v: word, d: word, reciprocal: word, estimate: nat)
    requires 2 <= d && reciprocal == Quot(W, d) && estimate == v * reciprocal / W
    ensures estimate * d <= v < (estimate + 2) * d
  {
    var e := Rem(W, d);
    QuotRem(W, d);
    var low := v * reciprocal % W;
    EstimateBounds(v, d, reciprocal, e, estimate, low);
  }

  lemma EstimateBounds(v: int, d: int, reciprocal: int, e: int, q: int, low: int)
    requires 0 <= v < W && 0 <= e < d && W == reciprocal * d + e && v * reciprocal == q * W + low && 0 <= low < W
    ensures q * d <= v < (q + 2) * d
  {
    assert v * W == v * reciprocal * d + v * e by { assert v * (reciprocal * d + e) == v * reciprocal * d + v * e; }
    assert v * reciprocal * d == q * d * W + low * d by { assert (q * W + low) * d == q * d * W + low * d; }
    MulMono(0, low, d);
    MulMono(0, v, e);
    MulMono(low, W - 1, d);
    MulBound(v, W, e, d);
    assert W * d + (W - 1) * d < 2 * d * W;
  }

  /** divide_limb: one multiply-high and one correction. */
  method DivideLimb(p: Prepared, v: word) returns (q: word, r: word)
    requires IsPrepared(p) && p.divisor != 1
    ensures q == Quot(v, p.divisor) && r == Rem(v, p.divisor)
  {
    var hi: word, lo: word := Mul64x64(v, p.reciprocal);
    var d := p.divisor;
    DivModUnique(v * p.reciprocal, W, hi, lo);
    ReciprocalEstimate(v, d, p.reciprocal, hi);
    assert (hi + 2) * d == hi * d + 2 * d && (hi + 1) * d == hi * d + d;
    var remainder := v - hi * d;
    if remainder >= d {
      QuotUnique(v, d, hi + 1, remainder - d);
      MulMono(1, d, hi + 1);
      q, r := hi + 1, remainder - d;
    } else {
      QuotUnique(v, d, hi, remainder);
      q, r := hi, remainder;
    }
  }

  /** operator(): the high limb is reduced first only when it needs reducing. */
  method DividePrepared(p: Prepared, value: dword) returns (r: Quotient)
    requires IsPrepared(p)
    ensures r == Quotient(Quot(value, p.divisor), Rem(value, p.divisor))
  {
    var d := p.divisor;
    if d == 1 {
      QuotUnique(value, 1, value, 0);
      return Quotient(value, 0);
    }
    Split(value);
    var high: word, low: word := value / W, value % W;
    if high == 0 {
      var q: word, rem: word := DivideLimb(p, low);
      return Quotient(q, rem);
    }
    var qhigh: word, rhigh: word := 0, high;
    if high >= d { qhigh, rhigh := DivideLimb(p, high); }
    QuotRem(high, d);
    assert high == qhigh * d + rhigh;
    var qlow: word, rem: word := Div128By64(rhigh, low, d);
    TwoDigits(qhigh, qlow, d, rhigh, high, low, rem);
    PairBound(qhigh, qlow);
    QuotUnique(value, d, Pair(qhigh, qlow), rem);
    r := Quotient(Pair(qhigh, qlow), rem);
  }

  // ----- the reduced fraction -----

  function Gcd(a: nat, b: nat): nat
    decreases b
  {
    if b == 0 then a else Gcd(b, Rem(a, b))
  }

  ghost predicate DividesNat(g: nat, n: nat) { exists k: nat :: n == g * k }

  lemma {:induction false} GcdDivides(a: nat, b: nat)
    ensures DividesNat(Gcd(a, b), a) && DividesNat(Gcd(a, b), b)
    ensures 0 < a || 0 < b ==> 0 < Gcd(a, b)
    decreases b
  {
    if b == 0 {
      assert a == a * 1 && 0 == a * 0;
    } else {
      GcdDivides(b, Rem(a, b));
      QuotRem(a, b);
      var g := Gcd(a, b);
      var x: nat :| b == g * x;
      var y: nat :| Rem(a, b) == g * y;
      SumOfMultiples(g, Quot(a, b), x, y);
      assert a == g * (Quot(a, b) * x + y);
    }
  }

  lemma SumOfMultiples(g: int, q: int, x: int, y: int)
    ensures q * (g * x) + g * y == g * (q * x + y)
  {
  }

  /** Every common divisor divides it. */
  lemma {:induction false} GcdGreatest(a: nat, b: nat, c: nat)
    requires DividesNat(c, a) && DividesNat(c, b)
    ensures DividesNat(c, Gcd(a, b))
    decreases b
  {
    if b != 0 {
      QuotRem(a, b);
      var x: nat :| a == c * x;
      var y: nat :| b == c * y;
      var z := x - Quot(a, b) * y;
      DifferenceOfMultiples(c, Quot(a, b), x, y);
      if z < 0 { MulMono(z, -1, c); }
      if c == 0 {
        assert Rem(a, b) == c * 0;
      } else {
        assert Rem(a, b) == c * z;
      }
      GcdGreatest(b, Rem(a, b), c);
    }
  }

  lemma DifferenceOfMultiples(g: int, q: int, x: int, y: int)
    ensures g * x - q * (g * y) == g * (x - q * y)
  {
  }

  method ComputeGcd(a: word, b: word) returns (g: word)
    ensures g == Gcd(a, b)
  {
    var x: word, y: word := a, b;
    while y != 0
      invariant Gcd(x, y) == Gcd(a, b)
      decreases y
    {
      x, y := y, Rem(x, y);
    }
    g := x;
  }

  // ----- the split product -----

  /** multiply_limb: false exactly when the product needs more than 128 bits. */
  method MultiplyLimb(q: dword, factor: word) returns (ok: bool, product: dword)
    requires q <= HALF2
    ensures ok <==> q * factor < W2
    ensures ok ==> product == q * factor
  {
    Split(q);
    var high: word, lowPart: word := q / W, q % W;
    OneProduct(lowPart, factor);
    OneProduct(high, factor);
    var low: dword := MulW(lowPart, factor);
    Split(low);
    UpperFits(q, high, lowPart, factor);
    var upper: dword := MulW(high, factor) + low / W;
    Split(upper);
    if upper / W != 0 { return false, 0; }
    PairBound(upper, low % W);
    return true, Pair(upper, low % W);
  }

  lemma UpperFits(q: dword, high: word, low: word, factor: word)
    requires q == Pair(high, low) && q <= HALF2
    ensures q * factor == Pair(high * factor, 0) + low * factor
    ensures high * factor + low * factor / W < W2
    ensures (high * factor + low * factor / W) / W == 0 <==> q * factor < W2
    ensures Pair(high * factor + low * factor / W, low * factor % W) == q * factor
  {
    PairTimes(factor, high, low);
    MulBound(high, HALF, factor, W);
    MulBound(low, W - 1, factor, W - 1);
    var x, y: nat := high * factor, low * factor;
    assert factor * high == x && factor * low == y && factor * q == q * factor;
    hide *;
  }

  predicate DoubledIncrement(quotient: dword, remainder: word, d: word, negative: bool, mode: Mode) {
    match mode
    case TowardZero => false
    case Floor => negative
    case Ceil => !negative
    case NearestEven => remainder * 2 > d || (remainder * 2 == d && quotient % 2 == 1)
    case NearestAway => remainder * 2 >= d
    case Exact => false
  }

  lemma DoubledDecides(quotient: dword, remainder: word, d: word, negative: bool, mode: Mode)
    requires 0 < remainder < d
    ensures DoubledIncrement(quotient, remainder, d, negative, mode)
            <==> AwayFromZero(quotient, PartOf(remainder, d), negative, mode)
  {
  }

  /** batch::finish: the doubled remainder cannot wrap below a one-limb denominator. */
  method FinishBatch(quotient: dword, remainder: word, d: word, negative: bool, mode: Mode, bits: nat) returns (r: Result<int>)
    requires remainder < d && 0 < bits <= 128
    ensures r == Rounded(quotient, remainder, d, negative, mode, bits)
  {
    LimitBelow(bits, negative);
    hide Limit, Pow;
    var limit := Limit(bits, negative);
    if quotient > limit { return Err(Overflow); }
    var q := quotient;
    if remainder != 0 {
      if mode.Exact? { return Err(Inexact); }
      DoubledDecides(quotient, remainder, d, negative, mode);
      hide DoubledIncrement, AwayFromZero;
      var increment := DoubledIncrement(quotient, remainder, d, negative, mode);
      if increment && quotient == limit { return Err(Overflow); }
      q := quotient + Bit(increment);
    }
    SignedDword(q, negative);
    r := Ok(ApplySignD(q, negative));
  }

  /** multiply_split: no carry is lost and no overflow is false, whatever the order of the steps. */
  method MultiplySplit(a: dword, b: word, negative: bool, mode: Mode, p: Prepared, bits: nat) returns (r: Result<int>)
    requires a <= HALF2 && IsPrepared(p) && 0 < bits <= 128
    ensures r == Evaluate(Signed(a * b, negative), p.divisor, mode, bits)
  {
    hide Evaluate, Rounded, Quot, Rem;
    if !mode.Exact? && a / W == 0 {
      SmallProduct(a, b);
      var divided := DividePrepared(p, a * b);
      QuotRem(a * b, p.divisor);
      RoundedIsEvaluate(a * b, p.divisor, divided.quotient, divided.remainder, negative, mode, bits);
      r := FinishBatch(divided.quotient, divided.remainder, p.divisor, negative, mode, bits);
    } else {
      r := DivideFirst(a, b, negative, mode, p, bits);
    }
  }

  method DivideFirst(a: dword, b: word, negative: bool, mode: Mode, p: Prepared, bits: nat) returns (r: Result<int>)
    requires a <= HALF2 && IsPrepared(p) && 0 < bits <= 128
    ensures r == Evaluate(Signed(a * b, negative), p.divisor, mode, bits)
  {
    hide Evaluate, Rounded, Quot, Rem;
    var d := p.divisor;
    ghost var n := NatProduct(a, b);
    var divided := DividePrepared(p, a);
    QuotRem(a, d);
    MulMono(1, d, divided.quotient);
    var limit := Limit(bits, negative);
    LimitBelow(bits, negative);
    var ok, quotient := MultiplyLimb(divided.quotient, b);
    SplitSum(a, b, d, divided.quotient, divided.remainder);
    if !ok || quotient > limit {
      MulMono(0, divided.remainder, b);
      OverflowIsEvaluate(n, d, NatProduct(divided.quotient, b), negative, mode, bits);
      return Err(Overflow);
    }
    if divided.remainder == 0 {
      RoundedIsEvaluate(n, d, quotient, 0, negative, mode, bits);
      r := FinishBatch(quotient, 0, d, negative, mode, bits);
    } else {
      r := FinishTail(n, quotient, divided.remainder, b, negative, mode, p, bits);
    }
  }

  /** The remainder's share of the product, divided and added on. */
  method FinishTail(ghost n: nat, quotient: dword, remainder: word, b: word, negative: bool, mode: Mode, p: Prepared, bits: nat)
    returns (r: Result<int>)
    requires IsPrepared(p) && 0 < bits <= 128 && quotient <= Limit(bits, negative)
    requires SplitProduct(n, quotient, remainder, b, p.divisor)
    ensures r == Evaluate(Signed(n, negative), p.divisor, mode, bits)
  {
    LimitBelow(bits, negative);
    PreparedNonzero(p);
    hide *;
    var d, limit := p.divisor, Limit(bits, negative);
    var tail := DividePrepared(p, MulW(remainder, b));
    TailOutcome(n, quotient, remainder, b, tail, d, negative, mode, bits);
    if tail.quotient > limit - quotient { return Err(Overflow); }
    r := FinishBatch(quotient + tail.quotient, tail.remainder, d, negative, mode, bits);
  }

  /** The product as the divided part and the remainder's share. */
  ghost predicate SplitProduct(n: nat, quotient: nat, remainder: nat, b: nat, d: nat) {
    n == quotient * d + remainder * b
  }

  lemma TailOutcome(n: nat, quotient: nat, remainder: word, b: word, tail: Quotient, d: pos, negative: bool, mode: Mode, bits: pos)
    requires SplitProduct(n, quotient, remainder, b, d)
    requires tail.quotient == Quot(MulW(remainder, b), d) && tail.remainder == Rem(MulW(remainder, b), d)
    ensures tail.remainder < d
    ensures tail.quotient > Limit(bits, negative) - quotient ==> Evaluate(Signed(n, negative), d, mode, bits) == Err(Overflow)
    ensures Rounded(quotient + tail.quotient, tail.remainder, d, negative, mode, bits)
            == Evaluate(Signed(n, negative), d, mode, bits)
  {
    QuotRem(MulW(remainder, b), d);
    hide Quot, Rem, Evaluate, Rounded, Limit;
    AddQuotients(n, quotient, tail.quotient, tail.remainder, d);
    RoundedIsEvaluate(n, d, quotient + tail.quotient, tail.remainder, negative, mode, bits);
    if tail.quotient > Limit(bits, negative) - quotient {
      OverflowIsEvaluate(n, d, quotient + tail.quotient, negative, mode, bits);
    }
  }

  lemma PreparedNonzero(p: Prepared)
    requires IsPrepared(p)
    ensures p.divisor != 0
  {
  }

  lemma AddQuotients(n: int, q: int, t: int, s: int, d: int)
    requires n == q * d + (t * d + s)
    ensures n == (q + t) * d + s
  {
  }

  /** (q * d + r) * b = (q * b) * d + r * b. */
  lemma SplitSum(a: int, b: int, d: int, q: int, r: int)
    requires a == q * d + r
    ensures a * b == q * b * d + r * b
  {
    assert (q * d + r) * b == q * b * d + r * b;
  }

  ghost function NatProduct(a: nat, b: nat): (n: nat)
    ensures n == a * b
  {
    MulMono(0, a, b);
    a * b
  }

  lemma LimitBelow(bits: nat, negative: bool)
    requires 0 < bits <= 128
    ensures Limit(bits, negative) <= HALF2 - 1 + Bit(negative) < W2
  {
    Limits();
    PowMono(2, bits - 1, 127);
    assert Limit(128, true) == Pow2(127);
  }

  // ----- the exact product -----

  /** A raw of a stored width at a legal scale. */
  predicate Operand(x: int, decimals: nat, bits: nat) {
    Width(bits) && Fits(x, bits) && decimals <= 76
  }

  lemma OperandRange(x: int, decimals: nat, bits: nat)
    requires Operand(x, decimals, bits)
    ensures bits <= 64 ==> -0x8000_0000_0000_0000 <= x < 0x8000_0000_0000_0000
    ensures bits <= 128 ==> -0x8000_0000_0000_0000_0000_0000_0000_0000 <= x < 0x8000_0000_0000_0000_0000_0000_0000_0000
    ensures Fits(x, 256)
  {
    Limits();
    FitsWider(x, bits, 256);
    if bits <= 128 { FitsWider(x, bits, 128); }
    if bits <= 64 { FitsWider(x, bits, 64); }
  }

  /** try_exact_product: when the wide operand is a signed word times 10^gap, the product needs
      no division. A failed certificate decides nothing. */
  method TryExactProduct(a: int, aDecimals: nat, aBits: nat, b: int, bDecimals: nat, bBits: nat,
                         dest: nat, mode: Mode, bits: nat) returns (exact: bool, product: int128)
    requires Operand(a, aDecimals, aBits) && Operand(b, bDecimals, bBits) && Width(bits)
    ensures exact ==> bits <= 128 && Mixed.MulTo(a, aDecimals, b, bDecimals, dest, mode, bits) == InRange(product, bits)
  {
    exact, product := false, 0;
    var scale := aDecimals + bDecimals;
    if 64 < aBits <= 128 && bBits <= 64 && bits <= 128 && dest < scale && scale - dest <= 19 && mode.Exact? {
      OperandRange(a, aDecimals, aBits);
      OperandRange(b, bDecimals, bBits);
      hide *;
      var coefficient;
      exact, coefficient := Lanes.ExactQuotient64(a, scale - dest);
      if exact {
        CertifiedProduct(a, aDecimals, b, bDecimals, coefficient, dest, mode, bits);
        product := coefficient * b;
      }
    }
  }

  lemma CertifiedProduct(a: int, aDecimals: nat, b: int64, bDecimals: nat, coefficient: int64, dest: nat, mode: Mode, bits: pos)
    requires dest <= aDecimals + bDecimals && a == coefficient * Pow10(aDecimals + bDecimals - dest)
    ensures 0 - HALF2 <= coefficient * b < HALF2
    ensures Mixed.MulTo(a, aDecimals, b, bDecimals, dest, mode, bits) == InRange(coefficient * b, bits)
  {
    WordProduct(coefficient, b);
    AtGap(a, aDecimals, b, bDecimals, dest, mode, bits);
    ExactProduct(coefficient, b, Pow10(aDecimals + bDecimals - dest), a, mode, bits);
  }

  /** check_range. */
  function InRange(x: int, bits: pos): Result<int> {
    if Fits(x, bits) then Ok(x) else Err(Overflow)
  }

  lemma ExactProduct(q: int, f: int, d: pos, a: int, mode: Mode, bits: pos)
    requires a == q * d
    ensures Evaluate(a * f, d, mode, bits) == InRange(q * f, bits)
  {
    SwapFactors(q, d, f);
    EvaluateScale(q * f, 1, d, mode, bits);
    WholeNumber(q * f, mode, bits);
    hide *;
  }

  lemma WholeNumber(n: int, mode: Mode, bits: pos)
    ensures Evaluate(n, 1, mode, bits) == InRange(n, bits)
  {
    QuotUnique(Abs(n), 1, Abs(n), 0);
    hide Quot, Rem, Pow;
  }

  /** A product that has digits to lose is divided by the power of ten between the scales. */
  lemma AtGap(a: int, aDecimals: nat, b: int, bDecimals: nat, dest: nat, mode: Mode, bits: pos)
    requires dest <= aDecimals + bDecimals
    ensures Mixed.MulTo(a, aDecimals, b, bDecimals, dest, mode, bits)
            == Evaluate(a * b, Pow10(aDecimals + bDecimals - dest), mode, bits)
  {
    Mixed.Reduce(a * b, 1, dest, aDecimals + bDecimals, mode, bits);
    assert Pow10(0) == 1;
    hide Pow, Evaluate;
  }

  lemma MulCommutes(a: int, aDecimals: nat, b: int, bDecimals: nat, dest: nat, mode: Mode, bits: pos)
    ensures Mixed.MulTo(a, aDecimals, b, bDecimals, dest, mode, bits)
            == Mixed.MulTo(b, bDecimals, a, aDecimals, dest, mode, bits)
  {
    assert a * b == b * a;
  }

  /** multiply_to: a certified operand, a factor that fits a word, or the general kernel. */
  method MultiplyTo(a: int, aDecimals: nat, aBits: nat, b: int, bDecimals: nat, bBits: nat,
                    dest: nat, mode: Mode, bits: nat) returns (r: Result<int>)
    requires Operand(a, aDecimals, aBits) && Operand(b, bDecimals, bBits) && dest <= 76 && Width(bits)
    ensures r == Mixed.MulTo(a, aDecimals, b, bDecimals, dest, mode, bits)
  {
    hide Pow, Evaluate, Fits;
    MulCommutes(a, aDecimals, b, bDecimals, dest, mode, bits);
    hide Mixed.MulTo, InRange, Operand;
    var exact, product := TryExactProduct(a, aDecimals, aBits, b, bDecimals, bBits, dest, mode, bits);
    if !exact {
      exact, product := TryExactProduct(b, bDecimals, bBits, a, aDecimals, aBits, dest, mode, bits);
    }
    if exact { return InRange(product, bits); }
    OperandRange(a, aDecimals, aBits);
    OperandRange(b, bDecimals, bBits);
    var scale := aDecimals + bDecimals;
    if aBits <= 128 && bBits <= 128 && bits <= 128 && dest <= scale && scale - dest <= 19 {
      AtGap(a, aDecimals, b, bDecimals, dest, mode, bits);
      var lhs, rhs := MagnitudeD(a), MagnitudeD(b);
      if rhs / W == 0 {
        r := SplitAtGap(a, b, scale - dest, mode, bits);
        return;
      }
      if lhs / W == 0 {
        assert a * b == b * a;
        r := SplitAtGap(b, a, scale - dest, mode, bits);
        return;
      }
    }
    r := General(a, aDecimals, b, bDecimals, dest, mode, bits);
  }

  /** The split with constant_divisor of the gap. */
  method SplitAtGap(a: int128, b: int128, gap: nat, mode: Mode, bits: nat) returns (r: Result<int>)
    requires gap <= 19 && 0 < bits <= 128 && MagnitudeD(b) / W == 0
    ensures r == Evaluate(a * b, Pow10(gap), mode, bits)
  {
    Scale128(gap);
    ProductParts(a, b);
    Split(MagnitudeD(b));
    hide Evaluate, Pow;
    var p := PrepareDivisor(Pow10(gap));
    r := MultiplySplit(MagnitudeD(a), MagnitudeD(b), (a < 0) != (b < 0), mode, p, bits);
  }

  method General(a: int, aDecimals: nat, b: int, bDecimals: nat, dest: nat, mode: Mode, bits: nat) returns (r: Result<int>)
    requires Fits(a, 256) && Fits(b, 256) && Width(bits) && aDecimals <= 76 && bDecimals <= 76 && dest <= 76
    ensures r == Mixed.MulTo(a, aDecimals, b, bDecimals, dest, mode, bits)
  {
    r := Mixed.Mul(a, aDecimals, b, bDecimals, dest, mode, bits);
  }

  // ----- the broadcast plan -----

  datatype Broadcast = Broadcast(factor: int, decimals: nat, bits: nat, mode: Mode, divisor: Prepared, reduced: dword, negative: bool)

  /** The constructor prepares a reduced fraction for factors and results of up to 128 bits. */
  predicate Prepares(factorBits: nat, decimals: nat, bits: nat) {
    factorBits <= 128 && decimals <= 19 && bits <= 128
  }

  /** The plan keeps factor / 10^decimals in lowest terms of their common divisor. */
  ghost predicate IsPlan(p: Broadcast, bits: nat) {
    && Operand(p.factor, p.decimals, p.bits)
    && (Prepares(p.bits, p.decimals, bits) ==> IsReduced(p))
  }

  ghost predicate IsReduced(p: Broadcast) {
    && IsPrepared(p.divisor) && p.negative == (p.factor < 0) && p.reduced <= HALF2
    && exists common: pos :: Abs(p.factor) == p.reduced * common && Pow10(p.decimals) == p.divisor.divisor * common
  }

  method PrepareBroadcast(factor: int, decimals: nat, factorBits: nat, mode: Mode, bits: nat) returns (p: Broadcast)
    requires Operand(factor, decimals, factorBits)
    ensures IsPlan(p, bits) && p.factor == factor && p.decimals == decimals && p.bits == factorBits && p.mode == mode
  {
    p := Broadcast(factor, decimals, factorBits, mode, Prepared(1, 0), 0, false);
    if Prepares(factorBits, decimals, bits) {
      OperandRange(factor, decimals, factorBits);
      var divisor, reduced := ReduceFactor(factor, decimals);
      p := p.(divisor := divisor, reduced := reduced, negative := factor < 0);
    }
  }

  method ReduceFactor(factor: int128, decimals: nat) returns (divisor: Prepared, reduced: dword)
    requires decimals <= 19
    ensures IsPrepared(divisor) && reduced <= HALF2
    ensures exists common: pos :: Abs(factor) == reduced * common && Pow10(decimals) == divisor.divisor * common
  {
    Scale128(decimals);
    hide Pow, Gcd;
    var denominator: word := Pow10(decimals);
    var m := MagnitudeD(factor);
    var divided := Divide128By64(m, denominator);
    var common := ComputeGcd(divided.remainder, denominator);
    CommonDivides(m, denominator, divided.quotient, divided.remainder);
    var quotient := Divide128By64(m, common);
    QuotUnique(m, common, quotient.quotient, quotient.remainder);
    divisor := PrepareDivisor(Quot(denominator, common));
    reduced := quotient.quotient;
    MulMono(1, common, reduced);
    assert Abs(factor) == reduced * common && Pow10(decimals) == divisor.divisor * common;
  }

  /** The common divisor of the remainder and the denominator divides the whole factor. */
  lemma CommonDivides(m: nat, denominator: pos, q: nat, r: nat)
    requires m == q * denominator + r
    ensures var g := Gcd(r, denominator);
            0 < g && m == Quot(m, g) * g && denominator == Quot(denominator, g) * g && 0 < Quot(denominator, g)
  {
    var g := Gcd(r, denominator);
    GcdDivides(r, denominator);
    var x: nat :| r == g * x;
    var y: nat :| denominator == g * y;
    hide Gcd, Quot;
    CommonOfSum(m, q, denominator, r, g, x, y);
    MulMono(0, q, y);
    QuotUnique(m, g, q * y + x, 0);
    QuotUnique(denominator, g, y, 0);
  }

  lemma CommonOfSum(m: int, q: int, d: int, r: int, g: int, x: int, y: int)
    requires m == q * d + r && r == g * x && d == g * y
    ensures m == (q * y + x) * g
  {
    assert q * (g * y) == q * y * g;
  }

  /** Reducing the fraction changes neither the value nor the rounding decision. */
  lemma ReducedIsExact(p: Broadcast, a: int, mode: Mode, bits: pos)
    requires IsReduced(p)
    ensures Evaluate(Signed(Abs(a) * p.reduced, (a < 0) != p.negative), p.divisor.divisor, mode, bits)
            == Evaluate(a * p.factor, Pow10(p.decimals), mode, bits)
  {
    var common: pos :| Abs(p.factor) == p.reduced * common && Pow10(p.decimals) == p.divisor.divisor * common;
    hide Evaluate, Pow;
    var n := Signed(NatProduct(Abs(a), p.reduced), (a < 0) != p.negative);
    EvaluateScale(n, p.divisor.divisor, common, mode, bits);
    ProductParts(a, p.factor);
    SignedScale(Abs(a) * p.reduced, (a < 0) != p.negative, common);
    assert Abs(a) * p.reduced * common == Abs(a) * (p.reduced * common) by { Regroup(Abs(a), p.reduced, common); }
  }

  /** broadcast_multiplier::operator(): the certificate, the reduced split, or the general product. */
  method ApplyBroadcast(p: Broadcast, a: int, aDecimals: nat, aBits: nat, dest: nat, bits: nat) returns (r: Result<int>)
    requires IsPlan(p, bits) && Operand(a, aDecimals, aBits) && dest <= 76 && Width(bits)
    ensures r == Mixed.MulTo(a, aDecimals, p.factor, p.decimals, dest, p.mode, bits)
  {
    if aBits <= 128 && Prepares(p.bits, p.decimals, bits) && aDecimals == dest {
      OperandRange(a, aDecimals, aBits);
      hide Pow, Evaluate, Fits, Mixed.MulTo, InRange, IsReduced, Operand;
      var exact, product := TryExactProduct(a, aDecimals, aBits, p.factor, p.decimals, p.bits, dest, p.mode, bits);
      if exact { return InRange(product, bits); }
      if p.bits <= 64 || p.reduced / W == 0 {
        r := ApplyReduced(p, a, aDecimals, bits);
        return;
      }
    }
    r := MultiplyTo(a, aDecimals, aBits, p.factor, p.decimals, p.bits, dest, p.mode, bits);
  }

  /** A word-sized factor stays word-sized when reduced. */
  lemma ReducedIsWord(p: Broadcast)
    requires IsReduced(p) && Operand(p.factor, p.decimals, p.bits) && (p.bits <= 64 || p.reduced / W == 0)
    ensures p.reduced < W
  {
    var common: pos :| Abs(p.factor) == p.reduced * common && Pow10(p.decimals) == p.divisor.divisor * common;
    if p.bits <= 64 { OperandRange(p.factor, p.decimals, p.bits); }
    hide *;
    MulMono(1, common, p.reduced);
    if p.reduced / W == 0 { Split(p.reduced); }
  }

  method ApplyReduced(p: Broadcast, a: int128, aDecimals: nat, bits: nat) returns (r: Result<int>)
    requires IsReduced(p) && Operand(p.factor, p.decimals, p.bits) && 0 < bits <= 128
    requires p.bits <= 64 || p.reduced / W == 0
    ensures r == Mixed.MulTo(a, aDecimals, p.factor, p.decimals, aDecimals, p.mode, bits)
  {
    ReducedIsWord(p);
    ReducedIsExact(p, a, p.mode, bits);
    AtGap(a, aDecimals, p.factor, p.decimals, aDecimals, p.mode, bits);
    hide Evaluate, Mixed.MulTo, Pow;
    r := MultiplySplit(MagnitudeD(a), p.reduced, (a < 0) != p.negative, p.mode, p.divisor, bits);
  }
}
