/** The divisibility certificates: a small quotient is recovered modulo a power of two and
    certified by reconstructing the whole 128-bit operand. Lanes are words. */
module Lanes {
  import opened Arith
  import opened Words
  import opened Division
  import opened Rounding
  import opened Operations
  import opened Signs
  import K = Kernels128
  import Kernels64

  // ----- inverses modulo a power of two -----

  const TWO32: nat := 0x1_0000_0000

  /** One Newton step squares the modulus up to which v * x is one. */
  lemma NewtonStep(v: int, x: int, e: int, p: int, t: int, m: int, a: int, b: int, q: int)
    requires v * x == 1 + e * p && p * p == a * q && m == b * q
    ensures v * (x * (2 - v * x) - t * m) == 1 + (0 - e * e * a - v * t * b) * q
  {
    SquaredError(v, x, e * p);
    assert (e * p) * (e * p) == e * e * (p * p);
    hide *;
    assert v * (x * (2 - v * x) - t * m) == v * (x * (2 - v * x)) - v * (t * m);
    FactorOut(e * e, a, v, t, b, q);
  }

  lemma FactorOut(s: int, a: int, v: int, t: int, b: int, q: int)
    ensures 1 - s * (a * q) - v * (t * (b * q)) == 1 + (0 - s * a - v * t * b) * q
  {
    assert s * (a * q) == s * a * q && v * (t * (b * q)) == v * t * b * q;
    assert (0 - s * a - v * t * b) * q == 0 - s * a * q - v * t * b * q;
  }

  lemma SquaredError(v: int, x: int, d: int)
    requires v * x == 1 + d
    ensures v * (x * (2 - v * x)) == 1 - d * d
  {
    assert v * (x * (1 - d)) == v * x * (1 - d);
  }

  /** inverse_odd: five steps from one correct bit. */
  method InverseOdd(value: nat) returns (inverse: nat)
    requires value < TWO32 && value % 2 == 1
    ensures inverse < TWO32 && value * inverse % TWO32 == 1
  {
    inverse := 1;
    ghost var moduli := [2, 4, 16, 256, 0x1_0000, TWO32];
    ghost var e: int := value / 2;
    for i := 0 to 5
      invariant inverse < TWO32 && value * inverse == 1 + e * moduli[i]
    {
      var next := inverse * (2 - value * inverse) % TWO32;
      ghost var t := inverse * (2 - value * inverse) / TWO32;
      ghost var q := moduli[i + 1];
      NewtonStep(value, inverse, e, moduli[i], t, TWO32, 1, TWO32 / q, q);
      e := 0 - e * e * 1 - value * t * (TWO32 / q);
      inverse := next;
    }
    ModAddMultiple(1, e, TWO32);
  }

  /** The 64-bit inverse of exact_quotient_i64: an odd number inverts itself modulo eight. */
  method InverseOdd64(odd: word) returns (inverse: word)
    requires odd % 2 == 1
    ensures odd * inverse % W == 1
  {
    inverse := odd;
    ghost var moduli := [8, 64, 0x1000, 0x100_0000, 0x1_0000_0000_0000, W];
    ghost var e: int := SquareOfOdd(odd);
    for i := 0 to 5
      invariant odd * inverse == 1 + e * moduli[i]
    {
      var next: word := inverse * (2 - odd * inverse) % W;
      ghost var t := inverse * (2 - odd * inverse) / W;
      ghost var p, q := moduli[i], moduli[i + 1];
      NewtonStep(odd, inverse, e, p, t, W, p * p / q, W / q, q);
      e := 0 - e * e * (p * p / q) - odd * t * (W / q);
      inverse := next;
    }
    ModAddMultiple(1, e, W);
  }

  lemma SquareOfOdd(odd: nat) returns (e: int)
    requires odd % 2 == 1
    ensures odd * odd == 1 + e * 8
  {
    var h := odd / 4;
    if odd % 4 == 1 {
      e := 2 * (h * h) + h;
      assert odd == 4 * h + 1;
    } else {
      e := 2 * (h * h) + 3 * h + 1;
      assert odd == 4 * h + 3;
    }
  }

  /** An odd cofactor is undone by its inverse, whatever was cut off above the modulus. */
  lemma Recover(x: int, q: int, odd: int, inverse: int, m: pos, j: int, k: int)
    requires x == q * odd - j * m && odd * inverse == k * m + 1
    ensures x * inverse % m == q % m
  {
    RecoverArithmetic(q, odd, inverse, m, j, k);
    ModAddMultiple(q, q * k - j * inverse, m);
  }

  lemma RecoverArithmetic(q: int, odd: int, inverse: int, m: int, j: int, k: int)
    requires odd * inverse == k * m + 1
    ensures (q * odd - j * m) * inverse == q + (q * k - j * inverse) * m
  {
    assert (q * odd - j * m) * inverse == q * (odd * inverse) - j * m * inverse;
    assert q * (k * m + 1) == q * k * m + q;
    assert (q * k - j * inverse) * m == q * k * m - j * inverse * m;
  }

  /** 10^gap is 2^gap times an odd number. */
  function Odd(gap: nat): nat { Pow(5, gap) }

  lemma TenIsTwoFive(gap: nat)
    ensures Pow10(gap) == Pow2(gap) * Odd(gap)
  {
    PowProduct(2, 5, gap);
  }

  lemma {:induction false} OddIsOdd(gap: nat)
    ensures Odd(gap) % 2 == 1
  {
    if gap != 0 {
      OddIsOdd(gap - 1);
      var x := Odd(gap - 1);
      assert Odd(gap) == 5 * x;
      hide Pow;
      assert 5 * x == 2 * (5 * (x / 2) + 2) + 1;
    }
  }

  /** Shifting q * 10^gap, cut to 2^bits, right by gap leaves q * 5^gap, cut to 2^(bits - gap). */
  lemma ShiftedMultiple(q: int, gap: nat, bits: nat, low: nat)
    requires gap <= bits && low == q * Pow10(gap) % Pow2(bits)
    ensures Shr(low, gap) == q * Odd(gap) - (q * Pow10(gap) / Pow2(bits)) * Pow2(bits - gap)
  {
    TenIsTwoFive(gap);
    PowAdd(2, gap, bits - gap);
    ShiftedParts(q, Pow10(gap), Pow2(bits), Pow2(gap), Odd(gap), Pow2(bits - gap), low);
  }

  lemma ShiftedParts(q: int, p: int, b: pos, s: pos, o: int, u: int, low: nat)
    requires p == s * o && b == s * u && low == q * p % b
    ensures Quot(low, s) == q * o - (q * p / b) * u
  {
    var h := q * p / b;
    ShiftOut(q, s, o, u, h, low);
    hide *;
    QuotExact(low, s, q * o - h * u);
  }

  lemma ShiftOut(q: int, s: int, o: int, u: int, h: int, low: int)
    requires low == q * (s * o) - h * (s * u)
    ensures low == (q * o - h * u) * s
  {
    assert q * (s * o) == q * o * s && h * (s * u) == h * u * s;
  }

  lemma QuotExact(n: nat, d: pos, q: int)
    requires n == q * d
    ensures Quot(n, d) == q
  {
    QuotUnique(n, d, q, 0);
  }

  // ----- exact_quotient_i64 -----

  /** True exactly when value is a signed word times 10^gap, and then with that word. */
  method ExactQuotient64(value: int128, gap: nat) returns (exact: bool, quotient: int64)
    requires 1 <= gap <= 19
    ensures exact <==> exists q: int64 :: value == q * Pow10(gap)
    ensures exact ==> value == quotient * Pow10(gap)
  {
    K.Scale128(gap);
    OddIsOdd(gap);
    TenIsTwoFive(gap);
    OddBound(gap);
    var inverse: word := InverseOdd64(Odd(gap));
    hide Pow;
    var shifted := FloorShift(value, gap);
    var candidate: word := shifted % W * inverse % W;
    quotient := FromWord(candidate);
    exact := quotient * Pow10(gap) == value;
    forall q: int64 | value == q * Pow10(gap) ensures q == quotient {
      FloorExact(value, gap, q);
      Recover64(q, Odd(gap), inverse, shifted, candidate);
    }
  }

  lemma OddBound(gap: nat)
    requires gap <= 19
    ensures 0 < Odd(gap) < W
  {
    PowMono(5, gap, 19);
    assert Pow(5, 4) == 625;
    PowAdd(5, 4, 4);
    PowAdd(5, 8, 4);
    PowAdd(5, 12, 4);
    PowAdd(5, 16, 3);
    assert Pow(5, 3) == 125;
  }

  /** Arithmetic shift right. */
  function FloorShift(x: int, k: nat): int { x / Pow2(k) }

  lemma FloorExact(value: int, gap: nat, q: int)
    requires value == q * Pow10(gap)
    ensures FloorShift(value, gap) == q * Odd(gap)
  {
    TenIsTwoFive(gap);
    var s, o := Pow2(gap), Odd(gap);
    assert q * (s * o) == q * o * s by { hide *; Regroup(q, s, o); SwapFactors(q, s, o); }
    DivModUnique(value, s, q * o, 0);
  }

  lemma Recover64(q: int64, odd: nat, inverse: word, shifted: int, candidate: word)
    requires odd * inverse % W == 1 && shifted == q * odd && candidate == shifted % W * inverse % W
    ensures FromWord(candidate) == q
  {
    Recover(shifted % W, q, odd, inverse, W, shifted / W, odd * inverse / W);
  }

  // ----- lane operations -----

  /** The two words of a 128-bit lane. */
  datatype Lane = Lane(low: word, high: word)

  function Value(x: Lane): dword
  {
    PairBound(x.high, x.low);
    Pair(x.high, x.low)
  }

  function LaneOf(x: int128): Lane
  {
    Split(ToDword(x));
    Lane(ToDword(x) % W, ToDword(x) / W)
  }

  function SignedLane(x: Lane): int128 { FromDword(Value(x)) }

  lemma LaneRoundTrip(x: int128)
    ensures Value(LaneOf(x)) == ToDword(x) && SignedLane(LaneOf(x)) == x
  {
    Split(ToDword(x));
  }

  function Mask(b: bool): word { if b then ONES else 0 }

  function XorMask(x: word, mask: bool): word { if mask then NotW(x) else x }

  /** mul_epu32: the product of the low halves. */
  function MulLow(a: word, b: word): (r: word)
    ensures r == (a % TWO32) * (b % TWO32)
  {
    var x, y := a % TWO32, b % TWO32;
    MulBound(x, TWO32 - 1, y, TWO32 - 1);
    x * y
  }

  function Signed32(x: word): int { if x % TWO32 < 0x8000_0000 then x % TWO32 else x % TWO32 - TWO32 }

  /** apply_sign on a lane: complement both words and carry a one through a zero low word. */
  function SignLane(x: Lane, negative: bool): Lane {
    var carry := negative && x.low == 0;
    Lane(SubW(XorMask(x.low, negative), Mask(negative)), SubW(XorMask(x.high, negative), Mask(carry)))
  }

  lemma SignLaneIsNegation(x: Lane, negative: bool)
    ensures Value(SignLane(x, negative)) == if negative then SubD(0, Value(x)) else Value(x)
  {
  }

  /** carry_mask: an unsigned comparison made of a signed one on flipped sign bits. */
  predicate Carried(sum: word, addend: word) { FromWord(AddW(addend, HALF)) > FromWord(AddW(sum, HALF)) }

  lemma CarriedMeaning(sum: word, addend: word)
    ensures Carried(sum, addend) <==> addend > sum
  {
  }

  /** multiply32x64. */
  function Multiply32x64(a: word, b: word): Lane {
    var low := MulLow(a, b);
    var high := MulLow(a, b / TWO32);
    var sum := AddW(low, high * TWO32 % W);
    Lane(sum, SubW(high / TWO32, Mask(Carried(sum, low))))
  }

  lemma Multiply32x64Exact(a: word, b: word)
    requires a < TWO32
    ensures Value(Multiply32x64(a, b)) == a * b
  {
    var low, high := MulLow(a, b), MulLow(a, b / TWO32);
    assert a % TWO32 == a && b / TWO32 % TWO32 == b / TWO32;
    HalvesProduct(a, b);
    hide MulLow;
    CarriedMeaning(AddW(low, high * TWO32 % W), low);
    HighHalf(low, high);
  }

  lemma HalvesProduct(a: nat, b: word)
    requires a < TWO32
    ensures a * b == a * (b % TWO32) + a * (b / TWO32) * TWO32
    ensures a * (b / TWO32) <= (TWO32 - 1) * (TWO32 - 1)
  {
    assert b == b / TWO32 * TWO32 + b % TWO32;
    assert a * (b / TWO32 * TWO32) == a * (b / TWO32) * TWO32;
    MulBound(a, TWO32 - 1, b / TWO32, TWO32 - 1);
  }

  lemma HighHalf(low: word, high: word)
    requires high <= (TWO32 - 1) * (TWO32 - 1)
    ensures var sum := AddW(low, high * TWO32 % W);
            Pair(high / TWO32 + (if low > sum then 1 else 0), sum) == low + high * TWO32 && high / TWO32 < W - 1
  {
  }

  // ----- the unsigned lanes -----

  /** The candidate quotient: low word shifted, times the inverse of 5^gap modulo 2^32. */
  function Candidate(low: word, gap: nat, inverse: word): word {
    MulLow(Shr(low, gap), inverse) % TWO32
  }

  predicate IsInverse(inverse: nat, gap: nat) { inverse < TWO32 && Odd(gap) % TWO32 * inverse % TWO32 == 1 }

  /** A true small quotient is always found. */
  lemma CandidateFinds(q: int, gap: nat, inverse: word, low: word)
    requires gap <= 32 && IsInverse(inverse, gap) && low == q * Pow10(gap) % W
    ensures Candidate(low, gap, inverse) == q % TWO32
  {
    Pow2Words();
    Pow2Halves();
    ShiftedMultiple(q, gap, 64, low);
    PowAdd(2, 32, 32 - gap);
    var h := q * Pow10(gap) / W;
    var u := Pow2(32 - gap);
    var x := Shr(low, gap);
    hide Pow, Shr, Odd;
    assert x == q * Odd(gap) - h * (TWO32 * u);
    FindArithmetic(q, Odd(gap), inverse, h, u, x);
  }

  lemma FindArithmetic(q: int, odd: nat, inverse: nat, h: int, u: int, x: nat)
    requires odd % TWO32 * inverse % TWO32 == 1 && inverse < TWO32 && x == q * odd - h * (TWO32 * u)
    ensures x % TWO32 * (inverse % TWO32) % TWO32 == q % TWO32
  {
    var o, c, y, z := odd % TWO32, odd / TWO32, x / TWO32, x % TWO32;
    var k := o * inverse / TWO32;
    assert o * inverse == k * TWO32 + 1 && inverse % TWO32 == inverse;
    CutDown(q, odd, o, c, h, u, x, y, z, TWO32);
    Recover(z, q, o, inverse, TWO32, h * u - q * c + y, k);
  }

  lemma CutDown(q: int, odd: int, o: int, c: int, h: int, u: int, x: int, y: int, z: int, m: int)
    requires odd == c * m + o && x == q * odd - h * (m * u) && x == y * m + z
    ensures z == q * o - (h * u - q * c + y) * m
  {
    assert q * (c * m + o) == q * c * m + q * o;
    assert h * (m * u) == h * u * m;
    assert (h * u - q * c + y) * m == h * u * m - q * c * m + y * m;
  }

  datatype Certified = Certified(value: Lane, accepted: bool)

  /** evaluate for the unsigned methods; a factor below 2^32 takes one product. */
  function UnsignedLane(raw: Lane, gap: nat, inverse: word, magnitude: word, factorNegative: bool): Certified
    requires gap <= 19
  {
    K.Scale128(gap);
    var negative := raw.high >= HALF;
    var m := SignLane(raw, negative);
    var q := Candidate(m.low, gap, inverse);
    var product := if magnitude < TWO32 then Lane(MulLow(q, magnitude), 0) else Multiply32x64(q, magnitude);
    Certified(SignLane(product, negative != factorNegative), Multiply32x64(q, Pow10(gap)) == m)
  }

  /** Accepted if and only if the magnitude is a 32-bit quotient times 10^gap; the accepted
      words are exactly raw * factor / 10^gap. */
  lemma UnsignedLaneExact(raw: int128, gap: nat, inverse: word, factor: int64)
    requires gap <= 19 && IsInverse(inverse, gap)
    ensures var c := UnsignedLane(LaneOf(raw), gap, inverse, MagnitudeW(factor), factor < 0);
            (c.accepted <==> exists q: nat :: q < TWO32 && Abs(raw) == q * Pow10(gap)) &&
            (c.accepted ==> SignedLane(c.value) * Pow10(gap) == raw * factor && 0 - HALF2 < SignedLane(c.value))
  {
    K.Scale128(gap);
    var lane, negative := LaneOf(raw), raw < 0;
    MagnitudeLane(raw);
    var m := SignLane(lane, negative);
    var q := Candidate(m.low, gap, inverse);
    Multiply32x64Exact(q, Pow10(gap));
    SameLane(Multiply32x64(q, Pow10(gap)), m);
    forall p: nat | p < TWO32 && Abs(raw) == p * Pow10(gap) ensures p == q {
      OneCandidate(p, gap, inverse, m.low);
    }
    var magnitude := MagnitudeW(factor);
    var product := if magnitude < TWO32 then Lane(MulLow(q, magnitude), 0) else Multiply32x64(q, magnitude);
    assert UnsignedLane(lane, gap, inverse, magnitude, factor < 0)
        == Certified(SignLane(product, negative != (factor < 0)), q * Pow10(gap) == Abs(raw));
    hide *;
    if q * Pow10(gap) == Abs(raw) { UnsignedProduct(raw, q, gap, factor, negative); }
  }

  lemma OneCandidate(p: nat, gap: nat, inverse: word, low: word)
    requires gap <= 32 && p < TWO32 && IsInverse(inverse, gap) && low == p * Pow10(gap) % W
    ensures p == Candidate(low, gap, inverse)
  {
    hide Candidate, Pow10, IsInverse;
    CandidateFinds(p, gap, inverse, low);
  }

  /** The magnitude of a lane, two to the 127 included. */
  lemma MagnitudeLane(raw: int128)
    ensures var lane := LaneOf(raw); var m := SignLane(lane, raw < 0);
            (lane.high >= HALF <==> raw < 0) && Value(m) == Abs(raw) && m.low == Abs(raw) % W
  {
    LaneRoundTrip(raw);
    Split(ToDword(raw));
    SignLaneIsNegation(LaneOf(raw), raw < 0);
  }

  lemma SameLane(x: Lane, y: Lane)
    ensures x == y <==> Value(x) == Value(y)
  {
  }

  lemma UnsignedProduct(raw: int128, q: word, gap: nat, factor: int64, negative: bool)
    requires q < TWO32 && Abs(raw) == q * Pow10(gap) && (negative <==> raw < 0)
    ensures var magnitude := MagnitudeW(factor);
            var product := if magnitude < TWO32 then Lane(MulLow(q, magnitude), 0) else Multiply32x64(q, magnitude);
            var v := SignedLane(SignLane(product, negative != (factor < 0)));
            v * Pow10(gap) == raw * factor && 0 - HALF2 < v
  {
    var magnitude := MagnitudeW(factor);
    MulBound(q, TWO32, magnitude, HALF);
    var m: nat := q * magnitude;
    LaneProduct(q, magnitude, m, negative != (factor < 0));
    hide Value, SignLane, SignedLane, MulLow, Multiply32x64, Pow;
    ScaledBack(raw, q, Pow10(gap), factor, Signed(m, negative != (factor < 0)));
  }

  /** A product of a 32-bit quotient and a magnitude, with a sign, in two words. */
  lemma LaneProduct(q: word, magnitude: word, m: nat, negative: bool)
    requires q < TWO32 && m == q * magnitude < HALF2
    ensures var product := if magnitude < TWO32 then Lane(MulLow(q, magnitude), 0) else Multiply32x64(q, magnitude);
            SignedLane(SignLane(product, negative)) == Signed(m, negative)
    ensures 0 - HALF2 < Signed(m, negative)
  {
    if magnitude < TWO32 {
      LowProduct(q, magnitude, m);
      LaneSigned(Lane(MulLow(q, magnitude), 0), m, negative);
    } else {
      Multiply32x64Exact(q, magnitude);
      LaneSigned(Multiply32x64(q, magnitude), m, negative);
    }
  }

  lemma LowProduct(q: word, magnitude: word, m: nat)
    requires q < TWO32 && magnitude < TWO32 && m == q * magnitude
    ensures Value(Lane(MulLow(q, magnitude), 0)) == m
  {
  }

  lemma LaneSigned(x: Lane, m: nat, negative: bool)
    requires Value(x) == m < HALF2
    ensures SignedLane(SignLane(x, negative)) == Signed(m, negative) && 0 - HALF2 < Signed(m, negative)
  {
    SignLaneIsNegation(x, negative);
    SignedDword(m, negative);
  }

  lemma ScaledBack(raw: int, q: nat, d: nat, factor: int, v: int)
    requires Abs(raw) == q * d && v == Signed(q * Abs(factor), (raw < 0) != (factor < 0))
    ensures v * d == raw * factor
  {
    ProductParts(raw, factor);
    assert q * Abs(factor) * d == q * d * Abs(factor) by { SwapFactors(q, Abs(factor), d); }
    if v != q * Abs(factor) { assert (0 - q * Abs(factor)) * d == -(q * Abs(factor) * d); }
  }

  // ----- the signed lane of gap ten -----

  const TEN10: int := 10_000_000_000

  /** evaluate for a signed 32-bit factor: 10^10 is 1410065408 + 2 * 2^32, so two signed
      partial products, their sign extensions and one carry rebuild the operand. */
  function SignedLane32(raw: Lane, inverse: word, factor: word): Certified {
    var q := MulLow(Shr(raw.low, 10), inverse);
    var partial := Signed32(q) * 1410065408;
    var low := AddW(ToWord(partial), q * 0x2_0000_0000 % W);
    var high := SubW(Mask(partial < 0) * 2 % W, Mask(Carried(low, ToWord(partial))));
    var product := SignedProduct32(q, factor);
    Certified(Lane(ToWord(product), Mask(product < 0)), low == raw.low && high == raw.high)
  }

  /** mul_epi32. */
  function SignedProduct32(a: word, b: word): (r: int64)
    ensures r == Signed32(a) * Signed32(b)
  {
    ProductParts(Signed32(a), Signed32(b));
    MulBound(Abs(Signed32(a)), 0x8000_0000, Abs(Signed32(b)), 0x8000_0000);
    Signed32(a) * Signed32(b)
  }

  /** The rebuilt words are the quotient times ten to the tenth. */
  lemma Rebuilt(q: word)
    ensures var s := Signed32(q); var partial := s * 1410065408;
            var low := AddW(ToWord(partial), q * 0x2_0000_0000 % W);
            var high := SubW(Mask(partial < 0) * 2 % W, Mask(Carried(low, ToWord(partial))));
            Value(Lane(low, high)) == ToDword(s * TEN10)
  {
    var s := Signed32(q);
    var partial := ToWord(s * 1410065408);
    var shifted := q % 0x8000_0000 * 0x2_0000_0000;
    DivModUnique(q * 0x2_0000_0000, W, q / 0x8000_0000, shifted);
    CarriedMeaning(AddW(partial, shifted), partial);
    Low31(q);
    RebuiltWords(s, partial, shifted);
  }

  lemma Low31(q: word)
    ensures q % 0x8000_0000 == if Signed32(q) < 0 then Signed32(q) + 0x8000_0000 else Signed32(q)
  {
    var x, h := q % TWO32, q / TWO32;
    if x < 0x8000_0000 {
      DivModUnique(q, 0x8000_0000, 2 * h, x);
    } else {
      DivModUnique(q, 0x8000_0000, 2 * h + 1, x - 0x8000_0000);
    }
  }

  lemma Signed32OfWord(f: int64)
    requires -0x8000_0000 <= f < 0x8000_0000
    ensures Signed32(ToWord(f)) == f
  {
    if f < 0 { DivModUnique(f + W, TWO32, TWO32 - 1, f + TWO32); }
  }

  lemma RebuiltWords(s: int, p: word, t: word)
    requires -0x8000_0000 <= s < 0x8000_0000
    requires p == (if s < 0 then s * 1410065408 + W else s * 1410065408)
    requires t == (if s < 0 then s + 0x8000_0000 else s) * 0x2_0000_0000
    ensures var low := AddW(p, t);
            Pair(SubW(if s < 0 then W - 2 else 0, Mask(p > low)), low) == ToDword(s * TEN10)
  {
    if s < 0 {
      assert p + t == 2 * W + s * TEN10;
    } else {
      assert p + t == s * TEN10;
    }
  }

  /** A word sign-extended into a lane. */
  lemma SignExtended(x: int64)
    ensures SignedLane(Lane(ToWord(x), Mask(x < 0))) == x
  {
  }

  /** Accepted if and only if raw is a signed 32-bit quotient times 10^10; the accepted words
      are exactly raw * factor / 10^10. */
  lemma SignedLane32Exact(raw: int128, inverse: word, factor: int64)
    requires IsInverse(inverse, 10) && -0x8000_0000 <= factor < 0x8000_0000
    ensures var c := SignedLane32(LaneOf(raw), inverse, ToWord(factor));
            (c.accepted <==> exists q: int :: -0x8000_0000 <= q < 0x8000_0000 && raw == q * TEN10) &&
            (c.accepted ==> SignedLane(c.value) * TEN10 == raw * factor)
  {
    LaneRoundTrip(raw);
    var lane := LaneOf(raw);
    var q := MulLow(Shr(lane.low, 10), inverse);
    var s, product := Signed32(q), SignedProduct32(q, ToWord(factor));
    Rebuilt(q);
    SignExtended(product);
    Signed32OfWord(factor);
    assert product == s * factor;
    RebuiltMeans(lane, inverse, ToWord(factor), q, raw);
    forall p: int | -0x8000_0000 <= p < 0x8000_0000 && raw == p * TEN10 ensures p == s {
      SignedCandidate(p, raw, inverse);
    }
    hide MulLow, Shr, IsInverse, Pow, SignedLane32, SignedLane, Mask, ToWord;
    if raw == s * TEN10 { RebuiltProduct(raw, s, factor); }
  }

  lemma RebuiltMeans(lane: Lane, inverse: word, factor: word, q: word, raw: int128)
    requires q == MulLow(Shr(lane.low, 10), inverse) && Value(lane) == ToDword(raw)
    ensures var c := SignedLane32(lane, inverse, factor); var product := SignedProduct32(q, factor);
            c == Certified(Lane(ToWord(product), Mask(product < 0)), raw == Signed32(q) * TEN10)
  {
    Rebuilt(q);
    var s := Signed32(q);
    var partial := s * 1410065408;
    var low := AddW(ToWord(partial), q * 0x2_0000_0000 % W);
    var high := SubW(Mask(partial < 0) * 2 % W, Mask(Carried(low, ToWord(partial))));
    SameLane(Lane(low, high), lane);
    hide MulLow, Shr, Value, Mask, Carried, AddW, SubW;
  }

  lemma RebuiltProduct(raw: int, s: int, factor: int)
    requires raw == s * TEN10
    ensures s * factor * TEN10 == raw * factor
  {
  }

  lemma TenDigitsGap()
    ensures Pow10(10) == TEN10
  {
    assert Pow(10, 5) == 100000;
    PowAdd(10, 5, 5);
  }

  lemma SignedCandidate(p: int, raw: int128, inverse: word)
    requires -0x8000_0000 <= p < 0x8000_0000 && raw == p * TEN10 && IsInverse(inverse, 10)
    ensures Signed32(MulLow(Shr(LaneOf(raw).low, 10), inverse)) == p
  {
    TenDigitsGap();
    LowWordOf(raw);
    hide LaneOf, IsInverse, Pow10, Shr;
    CandidateFinds(p, 10, inverse, LaneOf(raw).low);
    assert Signed32(MulLow(Shr(LaneOf(raw).low, 10), inverse)) == if p % TWO32 < 0x8000_0000 then p % TWO32 else p % TWO32 - TWO32;
  }

  lemma LowWordOf(raw: int128)
    ensures LaneOf(raw).low == raw % W
  {
    Split(ToDword(raw));
    DivModUnique(raw, W, if raw < 0 then ToDword(raw) / W - W else ToDword(raw) / W, LaneOf(raw).low);
  }
}
