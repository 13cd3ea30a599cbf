/** The constant-expression reference: schoolbook arithmetic on eight limbs with a bitwise
    long division, for any width up to 256 bits. */
module Reference {
  import opened Arith
  import opened Words
  import opened Rounding
  import opened Operations
  import opened Limbs
  import opened Signs
  import opened Kernels256

  type limbs = s: seq<word> | |s| == 8 witness Zeros(8)

  function FromU64(v: word): limbs { [v] + Zeros(7) }

  lemma FromU64Value(v: word)
    ensures Val(FromU64(v)) == v
  {
    ValWiden([v], 7);
    Val1([v]);
  }

  // ----- single bits -----

  /** Limb i / 64 carries bit i: the buffer above bit i is that limb's upper part and the limbs above. */
  lemma LimbOfBit(a: seq<word>, i: nat)
    requires i / 64 < |a|
    ensures Val(a) == Val(a[..i / 64]) + PowW(i / 64) * Val(a[i / 64..])
    ensures Val(a[i / 64..]) == a[i / 64] + W * Val(a[i / 64 + 1..])
    ensures Val(a[..i / 64]) < PowW(i / 64) && Pow2(i) == PowW(i / 64) * Pow2(i % 64)
  {
    var k := i / 64;
    hide *;
    ValSplit(a, k);
    ValHead(a[k..]);
    assert a[k..][1..] == a[k + 1..];
    ValBound(a[..k]);
    TwoToLimbs(k, i % 64);
  }

  /** test_bit. */
  predicate TestBit(a: seq<word>, i: nat)
    requires i / 64 < |a|
  {
    Shr(a[i / 64], i % 64) % 2 == 1
  }

  lemma TestBitMeaning(a: seq<word>, i: nat)
    requires i / 64 < |a|
    ensures Quot(Val(a), Pow2(i)) % 2 == if TestBit(a, i) then 1 else 0
  {
    var k, b := i / 64, i % 64;
    LimbOfBit(a, i);
    WordSplit(b);
    assert Pow2(64 - b) == 2 * Pow2(63 - b);
    assert TestBit(a, i) <==> Quot(a[k], Pow2(b)) % 2 == 1;
    hide *;
    BitOf(Val(a), Val(a[..k]), PowW(k), a[k], Val(a[k + 1..]), Pow2(b), Pow2(63 - b));
  }

  lemma BitOf(v: nat, low: nat, p: nat, x: nat, high: nat, s: pos, half: nat)
    requires v == low + p * (x + W * high) && low < p && s * (2 * half) == W && 0 < p * s
    ensures Quot(v, p * s) % 2 == Quot(x, s) % 2
  {
    QuotRem(x, s);
    hide *;
    BitArithmetic(v, low, p, x, high, Quot(x, s), Rem(x, s), s, half);
    ParityOfQuotient(v, p * s, Quot(x, s), half * high, low + p * Rem(x, s));
  }

  lemma ParityOfQuotient(v: nat, d: pos, q: nat, t: int, r: int)
    requires v == (q + 2 * t) * d + r && 0 <= r < d
    ensures Quot(v, d) % 2 == q % 2
  {
    QuotUnique(v, d, q + 2 * t, r);
  }

  lemma BitArithmetic(v: int, low: int, p: int, x: int, high: int, q: int, r: int, s: int, half: int)
    requires v == low + p * (x + W * high) && 0 <= low < p && x == q * s + r && 0 <= r < s && s * (2 * half) == W
    ensures v == (q + 2 * (half * high)) * (p * s) + (low + p * r) && 0 <= low + p * r < p * s
  {
    MulMono(r, s - 1, p);
    MulMono(0, r, p);
    assert p * (s - 1) == p * s - p;
    var t := q + 2 * (half * high);
    assert p * (s * t + r) == p * (s * t) + p * r;
    assert p * (s * t) == t * (p * s);
  }

  /** A multiple of 2^(i+1) has bit i and everything below it clear. */
  lemma ClearBit(a: seq<word>, i: nat, q: nat)
    requires i / 64 < |a| && Val(a) == q * Pow2(i + 1)
    ensures Rem(a[i / 64], Pow2(i % 64 + 1)) == 0
  {
    hide Val, Quot, Rem;
    var k, b := i / 64, i % 64;
    LimbOfBit(a, i);
    WordSplit(b + 1);
    var s, t := Pow2(b + 1), Pow2(63 - b);
    assert Pow2(i + 1) == 2 * Pow2(i) && s == 2 * Pow2(b);
    hide *;
    MoveFactor(2, PowW(k), Pow2(b));
    MultipleOfPower(Val(a[..k]), PowW(k), a[k], Val(a[k + 1..]), q, s, t, Pow2(i + 1), Val(a));
  }

  lemma MultipleOfPower(low: nat, p: nat, x: nat, high: nat, q: nat, s: pos, t: nat, ps: nat, v: nat)
    requires low < p && s * t == W && v == low + p * (x + W * high) == q * ps && ps == p * s
    ensures Rem(x, s) == 0
  {
    assert q * (p * s) == (q * s) * p;
    assert p * (x + W * high) == (x + W * high) * p;
    DivModUnique(q * s * p, p, x + W * high, low);
    DivModUnique(q * s * p, p, q * s, 0);
    assert (q - t * high) * s == q * s - s * t * high;
    QuotUnique(x, s, q - t * high, 0);
  }

  /** `limb |= 1 << bit` on a clear bit. */
  method SetBit(a: seq<word>, i: nat, ghost q: nat) returns (r: seq<word>)
    requires i / 64 < |a| && Val(a) == q * Pow2(i + 1)
    ensures |r| == |a| && Val(r) == Val(a) + Pow2(i)
  {
    var k, b := i / 64, i % 64;
    ClearBit(a, i, q);
    PowStrict(2, b, b + 1);
    hide Pow, Val, Rem;
    LimbOfBit(a, i);
    r := a[k := OrBits(a[k], Pow2(b), b + 1)];
    LimbOfBit(r, i);
    assert r[..k] == a[..k] && r[k + 1..] == a[k + 1..];
    hide *;
    AddInLimb(PowW(k), a[k], Pow2(b), W * Val(a[k + 1..]));
  }

  lemma AddInLimb(p: int, x: int, y: int, rest: int)
    ensures p * (x + y + rest) == p * (x + rest) + p * y
  {
  }

  /** bit_width: no bit at or above it. */
  method BitWidth(a: limbs) returns (width: nat)
    ensures width <= 512 && Val(a) < Pow2(width)
  {
    var n := ActiveLimbs(a);
    if n == 0 { return 0; }
    var bits := 0;
    var v: nat := a[n - 1];
    assert Pow2(0) == 1;
    while v != 0
      invariant a[n - 1] < (v + 1) * Pow2(bits)
      invariant v < W && (v == 0 || v * Pow2(bits) < W)
      invariant bits <= 64 && (v != 0 ==> bits < 64)
      decreases v
    {
      WidthStep(a[n - 1], v, bits);
      v, bits := v / 2, bits + 1;
    }
    width := (n - 1) * 64 + bits;
    ValBound(a[..n - 1]);
    TopLimbWidth(a, n, bits);
  }

  lemma WidthStep(x: nat, v: pos, bits: nat)
    requires x < (v + 1) * Pow2(bits) && v * Pow2(bits) < W && bits < 64
    ensures x < (v / 2 + 1) * Pow2(bits + 1) && (v / 2) * Pow2(bits + 1) < W
    ensures v / 2 != 0 ==> bits + 1 < 64
  {
    var p := Pow2(bits);
    assert Pow2(bits + 1) == 2 * p;
    Pow2Words();
    hide Pow;
    hide *;
    var h, bit := v / 2, v % 2;
    Halve(h, bit, p);
    Halve(h + 1, 0, p);
    MulMono(v + 1, 2 * (h + 1), p);
    MulMono(0, bit, p);
    if h != 0 { MulMono(2, v, p); }
  }

  lemma TopLimbWidth(a: limbs, n: nat, bits: nat)
    requires 0 < n <= 8 && Val(a) == Val(a[..n]) && a[n - 1] < Pow2(bits) && Val(a[..n - 1]) < PowW(n - 1)
    ensures Val(a) < Pow2(64 * (n - 1) + bits)
  {
    ValStep(a, n - 1);
    TwoToLimbs(n - 1, bits);
    hide *;
    BelowProduct(Val(a), Val(a[..n - 1]), a[n - 1], PowW(n - 1), Pow2(bits));
  }

  lemma BelowProduct(v: int, low: int, x: int, p: int, b: int)
    requires v == low + x * p && 0 <= low < p && x < b
    ensures v < p * b
  {
    MulGap(x, b, p);
  }

  /** shift_left_one: exact below the top bit. */
  method ShiftLeftOne(a: limbs) returns (r: limbs)
    ensures 2 * Val(a) < PowW(8) ==> Val(r) == 2 * Val(a)
  {
    r := Shl(a, 1);
    assert Pow2(1) == 2 * Pow2(0);
    if 2 * Val(a) < PowW(8) { DivModUnique(Val(a) * 2, PowW(8), 0, 2 * Val(a)); }
  }

  /** Set the lowest bit of an even number. */
  method SetLowest(a: limbs, bit: bool, ghost half: nat) returns (r: limbs)
    requires Val(a) == 2 * half
    ensures Val(r) == 2 * half + if bit then 1 else 0
  {
    assert Pow2(1) == 2 * Pow2(0) == 2;
    if bit { r := SetBit(a, 0, half); } else { r := a; }
  }

  // ----- long division -----

  ghost predicate DivisionState(n: nat, d: nat, rem: nat, quo: nat, q: nat, i: nat) {
    (d != 0 ==> rem < d) && Quot(n, Pow2(i)) == q * d + rem && quo == q * Pow2(i)
  }

  lemma DivisionStart(n: nat, d: nat, i: nat)
    requires n < Pow2(i)
    ensures DivisionState(n, d, 0, 0, 0, i)
  {
    QuotUnique(n, Pow2(i), 0, n);
  }

  lemma DivisionStep(n: nat, d: nat, rem: nat, quo: nat, q: nat, i: nat)
    requires DivisionState(n, d, rem, quo, q, i + 1)
    ensures var next := 2 * rem + Quot(n, Pow2(i)) % 2;
            if next >= d then DivisionState(n, d, next - d, quo + Pow2(i), 2 * q + 1, i)
            else DivisionState(n, d, next, quo, 2 * q, i)
  {
    var p := Pow2(i);
    assert Pow2(i + 1) == 2 * p;
    var t := Quot(n, p);
    QuotRem(n, p);
    hide Pow, Quot, Rem, Pow2;
    Halve(t / 2, t % 2, p);
    MulMono(t % 2, 1, p);
    QuotUnique(n, 2 * p, t / 2, t % 2 * p + Rem(n, p));
    Double(q, d);
    Double(q, p);
    MoveFactor(2, q, p);
  }

  /** divmod: one quotient bit per step, most significant first. The shifted remainder never
      leaves its limbs, because it is at most the leading bits of the numerator. A zero divisor
      leaves the numerator as the remainder. */
  method Divmod(numerator: limbs, divisor: limbs) returns (quotient: limbs, remainder: limbs)
    ensures Val(numerator) == Val(quotient) * Val(divisor) + Val(remainder)
    ensures Val(divisor) != 0 ==> Val(remainder) < Val(divisor)
  {
    hide *;
    ghost var n, d := Val(numerator), Val(divisor);
    var width := BitWidth(numerator);
    quotient, remainder := Zeros(8), Zeros(8);
    ValZeros(Zeros(8));
    ghost var q: nat := 0;
    DivisionStart(n, d, width);
    var i := width;
    while i != 0
      invariant 0 <= i <= 512 && DivisionState(n, d, Val(remainder), Val(quotient), q, i)
    {
      i := i - 1;
      StateBound(n, d, Val(remainder), Val(quotient), q, i + 1);
      ShiftedFits(numerator, Val(remainder), i);
      DivisionStep(n, d, Val(remainder), Val(quotient), q, i);
      TestBitMeaning(numerator, i);
      var shifted := ShiftLeftOne(remainder);
      shifted := SetLowest(shifted, TestBit(numerator, i), Val(remainder));
      remainder := shifted;
      var order := Compare(remainder, divisor);
      ghost var half := q;
      if order >= 0 {
        ValBound(remainder);
        remainder := SubtractExact(remainder, divisor);
        quotient := SetBit(quotient, i, half);
        q := 2 * half + 1;
      } else {
        q := 2 * half;
      }
    }
    DivisionEnd(n, d, Val(remainder), Val(quotient), q);
  }

  lemma StateBound(n: nat, d: nat, rem: nat, quo: nat, q: nat, i: nat)
    requires DivisionState(n, d, rem, quo, q, i)
    ensures rem <= Quot(n, Pow2(i)) && quo == q * Pow2(i)
  {
    MulMono(0, q, d);
  }

  /** Doubling a remainder of the leading bits gives at most the numerator. */
  lemma ShiftedFits(a: limbs, rem: nat, i: nat)
    requires rem <= Quot(Val(a), Pow2(i + 1))
    ensures 2 * rem < PowW(8)
  {
    ValBound(a);
    QuotRem(Val(a), Pow2(i + 1));
    assert Pow2(i + 1) == 2 * Pow2(i);
    hide *;
    MulMono(rem, Quot(Val(a), Pow2(i + 1)), Pow2(i + 1));
    MulMono(2, Pow2(i + 1), rem);
  }

  lemma DivisionEnd(n: nat, d: nat, rem: nat, quo: nat, q: nat)
    requires DivisionState(n, d, rem, quo, q, 0)
    ensures n == quo * d + rem && (d != 0 ==> rem < d)
  {
    assert Pow2(0) == 1;
    QuotRem(n, 1);
  }

  method SubtractExact(a: limbs, b: limbs) returns (r: limbs)
    requires Val(b) <= Val(a)
    ensures Val(r) == Val(a) - Val(b)
  {
    r := Sub(a, b);
    ValBound(a);
    DivModUnique(Val(a) - Val(b), PowW(8), 0, Val(a) - Val(b));
  }

  // ----- rounding -----

  /** round_magnitude on limbs: twice the remainder against the divisor. */
  method RoundLimbs(quotient: limbs, remainder: limbs, divisor: limbs, negative: bool, mode: Mode, limit: limbs)
    returns (r: Result<limbs>)
    requires Val(remainder) < Val(divisor) && 2 * Val(divisor) <= PowW(8) && Val(limit) < PowW(8) - 1
    ensures var d := Decide(Val(quotient), PartOf(Val(remainder), Val(divisor)), negative, mode, Val(limit));
            if d.Ok? then r.Ok? && Val(r.value) == d.value else r == Err(d.error)
  {
    hide Val, Pow, PowW;
    var order := Compare(quotient, limit);
    if order > 0 { return Err(Overflow); }
    var active := ActiveLimbs(remainder);
    if active == 0 { return Ok(quotient); }
    if mode.Exact? { return Err(Inexact); }
    var increment := false;
    match mode {
      case TowardZero =>
      case Floor => increment := negative;
      case Ceil => increment := !negative;
      case NearestEven =>
        var twice := ShiftLeftOne(remainder);
        var cmp := Compare(twice, divisor);
        LowestBit(quotient);
        increment := cmp > 0 || (cmp == 0 && quotient[0] % 2 == 1);
      case NearestAway =>
        var twice := ShiftLeftOne(remainder);
        var cmp := Compare(twice, divisor);
        increment := cmp >= 0;
      case Exact =>
    }
    if !increment { return Ok(quotient); }
    if order == 0 { return Err(Overflow); }
    FromU64Value(1);
    var sum := Add(quotient, FromU64(1));
    DivModUnique(Val(quotient) + 1, PowW(8), 0, Val(quotient) + 1);
    r := Ok(sum);
  }

  lemma LowestBit(a: limbs)
    ensures a[0] % 2 == Val(a) % 2
  {
    ValHead(a);
  }

  /** magnitude_limit. */
  method MagnitudeLimit(bits: nat, negative: bool) returns (limit: limbs)
    requires 0 < bits <= 256
    ensures Val(limit) == Limit(bits, negative)
  {
    ValZeros(Zeros(8));
    limit := SetBit(Zeros(8), bits - 1, 0);
    if !negative {
      FromU64Value(1);
      limit := SubtractExact(limit, FromU64(1));
    }
  }

  /** The powers of two that bound every intermediate of a 256-bit operation. */
  lemma Room()
    ensures PowW(8) == Pow2(512) == 2 * Pow2(511) && Pow2(510) == Pow2(255) * Pow2(255)
    ensures 2 * Pow2(256) <= PowW(8) && 4 * Pow2(510) == PowW(8)
  {
    LimbBits(8);
    PowAdd(2, 255, 255);
    PowMono(2, 257, 512);
    assert Pow(2, 257) == 2 * Pow(2, 256);
    assert Pow(2, 512) == 2 * Pow(2, 511) && Pow(2, 511) == 2 * Pow(2, 510);
  }

  lemma LimitBound(bits: nat, negative: bool)
    requires 0 < bits <= 256
    ensures Limit(bits, negative) <= Pow2(255)
  {
    PowMono(2, bits - 1, 255);
  }

  // ----- raw values -----

  /** The storage of every width: one, two or four limbs. */
  predicate Stored(bits: nat, k: nat) { 0 < bits <= 64 * k && 0 < k <= 4 }

  lemma StorageBits(bits: nat, k: nat, x: int)
    requires Stored(bits, k) && Fits(x, bits)
    ensures Fits(x, 64 * k) && Abs(x) <= Limit(64 * k, x < 0) && Abs(x) <= Pow2(255)
  {
    FitsWider(x, bits, 64 * k);
    FitsWider(x, bits, 256);
  }

  /** to_limbs: the sign-extended pattern, subtracted from zero and cut back to its limbs. */
  method ToMagnitude(x: int, k: nat) returns (m: limbs)
    requires 0 < k <= 4 && Fits(x, 64 * k)
    ensures Val(m) == Abs(x)
  {
    LimbBits(k);
    PatternMagnitude(x, 64 * k);
    hide Pow;
    var pattern := Pattern(x, 64 * k);
    ToLimbsValue(pattern, k);
    ValWiden(ToLimbs(pattern, k), 8 - k);
    m := ToLimbs(pattern, k) + Zeros(8 - k);
    if x < 0 { m := NegateCut(m, pattern, k); }
  }

  method NegateCut(m: limbs, ghost pattern: nat, k: nat) returns (r: limbs)
    requires 0 < k <= 4 && Val(m) == pattern < PowW(k)
    ensures Val(r) == Negated(pattern, 64 * k)
  {
    hide Pow;
    ValZeros(Zeros(8));
    var negated := Sub(Zeros(8), m);
    CutNegated(negated, pattern, k);
    ValWiden(negated[..k], 8 - k);
    r := negated[..k] + Zeros(8 - k);
  }

  /** A magnitude within the limit, or its negation, is the pattern of the signed value. */
  lemma PatternOfMagnitude(m: nat, negative: bool, bits: nat, k: nat)
    requires Stored(bits, k) && m <= Limit(bits, negative)
    ensures 0 < k <= 4 && m < PowW(k)
    ensures FromPattern(if negative then Negated(m, 64 * k) else m, 64 * k) == Signed(m, negative)
  {
    LimbBits(k);
    PowMono(2, bits - 1, 64 * k - 1);
    assert Pow2(64 * k) == 2 * Pow2(64 * k - 1);
    hide Pow;
  }

  /** The low k limbs of 0 - p are 2^(64k) - p. */
  lemma CutNegated(r: limbs, p: nat, k: nat)
    requires 0 < k <= 8 && p < PowW(k) && Val(r) == (0 - p) % PowW(8)
    ensures Val(r[..k]) == Negated(p, 64 * k)
  {
    LimbBits(k);
    PowWAdd(k, 8 - k);
    ValSplit(r, k);
    ValBound(r[..k]);
    hide Pow, Val, PowW, Pow2;
    LowOfNegated(Val(r[..k]), Val(r[k..]), p, PowW(k), PowW(8 - k));
  }

  lemma LowOfNegated(low: nat, high: nat, p: nat, small: nat, rest: pos)
    requires p < small && low < small && low + small * high == (0 - p) % (small * rest)
    ensures low == if p == 0 then 0 else small - p
  {
    MulMono(1, rest, small);
    if p == 0 {
      DivModUnique(0, small * rest, 0, 0);
      DivModUnique(0, small, high, low);
      DivModUnique(0, small, 0, 0);
    } else {
      DivModUnique(0 - p, small * rest, -1, small * rest - p);
      assert small * rest - p == small * (rest - 1) + (small - p);
      DivModUnique(small * rest - p, small, high, low);
      DivModUnique(small * rest - p, small, rest - 1, small - p);
    }
  }

  /** from_limbs: the caller has checked that the magnitude fits. */
  method FromMagnitude(m: limbs, negative: bool, bits: nat, k: nat) returns (x: int)
    requires Stored(bits, k) && Val(m) <= Limit(bits, negative)
    ensures x == Signed(Val(m), negative)
  {
    PatternOfMagnitude(Val(m), negative, bits, k);
    hide *;
    var value := m;
    if negative {
      ValZeros(Zeros(8));
      value := Sub(Zeros(8), m);
      CutNegated(value, Val(m), k);
    } else {
      KeepLow(m, k);
    }
    x := FromPattern(Val(value[..k]), 64 * k);
  }

  lemma KeepLow(m: limbs, k: nat)
    requires 0 < k <= 4 && Val(m) < PowW(k)
    ensures Val(m[..k]) == Val(m)
  {
    ValSplit(m, k);
    ValBound(m[..k]);
    hide *;
    NoHighPart(Val(m), PowW(k), Val(m[k..]), Val(m[..k]));
  }

  lemma NoHighPart(n: nat, p: pos, high: nat, low: nat)
    requires n == low + p * high && n < p
    ensures low == n
  {
    if high != 0 { MulMono(1, high, p); }
  }

  // ----- the operations -----

  /** pow10 by repeated multiplication. */
  method Pow10Limbs(exponent: nat) returns (s: limbs)
    requires exponent <= 76
    ensures Val(s) == Pow10(exponent) < Pow2(255)
  {
    hide Val, PowW;
    FromU64Value(1);
    FromU64Value(10);
    s := FromU64(1);
    for i := 0 to exponent
      invariant Val(s) == Pow10(i)
    {
      TenTimes(i);
      s := MulTrunc(s, FromU64(10));
    }
    ScaleBits256(exponent);
  }

  lemma TenTimes(i: nat)
    requires i < 76
    ensures Pow10(i) * 10 % PowW(8) == Pow10(i + 1)
  {
    Room();
    ScaleBits256(i + 1);
    PowMono(2, 255, 512);
    assert Pow10(i + 1) == 10 * Pow10(i);
    DivModUnique(Pow10(i) * 10, PowW(8), 0, Pow10(i + 1));
  }

  /** A product of two 255-bit magnitudes is not truncated. */
  method MultiplyExact(a: limbs, b: limbs) returns (r: limbs)
    requires Val(a) <= Pow2(255) && Val(b) <= Pow2(255)
    ensures Val(r) == Val(a) * Val(b)
  {
    hide Val, Pow;
    r := MulTrunc(a, b);
    Room();
    MulBound(Val(a), Pow2(255), Val(b), Pow2(255));
    DivModUnique(Val(a) * Val(b), PowW(8), 0, Val(a) * Val(b));
  }

  /** The common tail: divide, round against the limit, rebuild. */
  method FinishLimbs(num: limbs, den: limbs, negative: bool, mode: Mode, bits: nat, k: nat) returns (r: Result<int>)
    requires Stored(bits, k) && 0 < Val(den) <= Pow2(255)
    ensures r == Evaluate(Signed(Val(num), negative), Val(den), mode, bits)
  {
    hide Val, Pow, PowW, Decide;
    var rounded := RoundedQuotient(num, den, negative, mode, bits);
    match rounded
    case Err(e) => r := Err(e);
    case Ok(m) =>
      DecideBound(Val(num), Val(den), negative, mode, bits, Val(m));
      var x := FromMagnitude(m, negative, bits, k);
      r := Ok(x);
  }

  lemma DecideBound(n: nat, d: pos, negative: bool, mode: Mode, bits: pos, m: nat)
    requires Evaluate(Signed(n, negative), d, mode, bits) == Ok(Signed(m, negative))
    ensures m <= Limit(bits, negative)
  {
    EvaluateFlag(n, d, negative, mode, bits);
  }

  method RoundedQuotient(num: limbs, den: limbs, negative: bool, mode: Mode, bits: nat) returns (r: Result<limbs>)
    requires 0 < bits <= 256 && 0 < Val(den) <= Pow2(255)
    ensures var e := Evaluate(Signed(Val(num), negative), Val(den), mode, bits);
            if r.Ok? then e == Ok(Signed(Val(r.value), negative)) else e == Err(r.error)
  {
    hide Val, Pow, PowW, Decide, Quot, Rem, PartOf;
    Room();
    LimitRoom(bits, negative);
    var quotient, remainder := Divmod(num, den);
    QuotUnique(Val(num), Val(den), Val(quotient), Val(remainder));
    EvaluateFlag(Val(num), Val(den), negative, mode, bits);
    var limit := MagnitudeLimit(bits, negative);
    r := RoundLimbs(quotient, remainder, den, negative, mode, limit);
  }

  lemma LimitRoom(bits: nat, negative: bool)
    requires 0 < bits <= 256
    ensures Limit(bits, negative) < PowW(8) - 1 && 2 * Pow2(255) <= PowW(8)
  {
    LimitBound(bits, negative);
    Room();
    assert Pow2(256) == 2 * Pow(2, 255);
  }

  method Mul(a: int, b: int, decimals: nat, mode: Mode, bits: nat, k: nat) returns (r: Result<int>)
    requires Stored(bits, k) && Fits(a, bits) && Fits(b, bits) && decimals <= 76
    ensures r == Operations.Mul(a, b, decimals, mode, bits)
  {
    hide Val, Pow, PowW, Evaluate;
    StorageBits(bits, k, a);
    StorageBits(bits, k, b);
    var ma := ToMagnitude(a, k);
    var mb := ToMagnitude(b, k);
    var product := MultiplyExact(ma, mb);
    var scale := Pow10Limbs(decimals);
    ProductParts(a, b);
    r := FinishLimbs(product, scale, (a < 0) != (b < 0), mode, bits, k);
  }

  method Div(a: int, b: int, decimals: nat, mode: Mode, bits: nat, k: nat) returns (r: Result<int>)
    requires Stored(bits, k) && Fits(a, bits) && Fits(b, bits) && decimals <= 76
    ensures r == Operations.Div(a, b, decimals, mode, bits)
  {
    hide Val, Pow, PowW, Evaluate;
    StorageBits(bits, k, a);
    StorageBits(bits, k, b);
    var ma := ToMagnitude(a, k);
    var mb := ToMagnitude(b, k);
    var active := ActiveLimbs(mb);
    if active == 0 { return Err(DivisionByZero); }
    var scale := Pow10Limbs(decimals);
    var num := MultiplyExact(ma, scale);
    DivideParts(a, Pow10(decimals), b, mode, bits);
    r := FinishLimbs(num, mb, (a < 0) != (b < 0), mode, bits, k);
  }

  method MulDiv(a: int, b: int, c: int, mode: Mode, bits: nat, k: nat) returns (r: Result<int>)
    requires Stored(bits, k) && Fits(a, bits) && Fits(b, bits) && Fits(c, bits)
    ensures r == Operations.MulDiv(a, b, c, mode, bits)
  {
    hide Val, Pow, PowW, Evaluate;
    StorageBits(bits, k, a);
    StorageBits(bits, k, b);
    StorageBits(bits, k, c);
    var ma := ToMagnitude(a, k);
    var mb := ToMagnitude(b, k);
    var mc := ToMagnitude(c, k);
    var active := ActiveLimbs(mc);
    if active == 0 { return Err(DivisionByZero); }
    var product := MultiplyExact(ma, mb);
    DivideParts(a, b, c, mode, bits);
    r := FinishLimbs(product, mc, (a < 0) != ((b < 0) != (c < 0)), mode, bits, k);
  }

  method Quantize(a: int, decimals: nat, digits: nat, mode: Mode, bits: nat, k: nat) returns (r: Result<int>)
    requires Stored(bits, k) && Fits(a, bits) && decimals <= 76
    ensures r == Operations.Quantize(a, decimals, digits, mode, bits)
  {
    hide Val, Pow, PowW, Evaluate;
    StorageBits(bits, k, a);
    var m := ToMagnitude(a, k);
    if digits > decimals { return Err(InvalidPrecision); }
    if digits == decimals {
      var x := FromMagnitude(m, a < 0, 64 * k, k);
      return Ok(x);
    }
    var divisor := Pow10Limbs(decimals - digits);
    var rounded := RoundedQuotient(m, divisor, a < 0, mode, bits);
    if rounded.Err? { return Err(rounded.error); }
    DecideBound(Val(m), Val(divisor), a < 0, mode, bits, Val(rounded.value));
    LimitBound(bits, a < 0);
    var rescaled := MultiplyExact(rounded.value, divisor);
    SignedGrid(Val(rounded.value), a < 0, Val(divisor), bits);
    var limit := MagnitudeLimit(bits, a < 0);
    var order := Compare(rescaled, limit);
    if order > 0 { return Err(Overflow); }
    var x := FromMagnitude(rescaled, a < 0, bits, k);
    r := Ok(x);
  }

  method Remainder(a: int, b: int, bits: nat, k: nat) returns (r: Result<int>)
    requires Stored(bits, k) && Fits(a, bits) && Fits(b, bits)
    ensures r == Operations.Remainder(a, b)
  {
    hide Val, Pow, PowW;
    StorageBits(bits, k, a);
    StorageBits(bits, k, b);
    var denominator := ToMagnitude(b, k);
    var active := ActiveLimbs(denominator);
    if active == 0 { return Err(DivisionByZero); }
    var numerator := ToMagnitude(a, k);
    LimitRoom(256, true);
    var quotient, remainder := Divmod(numerator, denominator);
    QuotUnique(Val(numerator), Val(denominator), Val(quotient), Val(remainder));
    var x := FromMagnitude(remainder, a < 0, bits, k);
    r := Ok(x);
  }
}
