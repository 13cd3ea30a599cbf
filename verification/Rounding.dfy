/** What every operation promises: the exact rational, rounded once, with the
    error precedence of the library. Part is all that rounding needs to know about
    what lies below the last kept digit. */
module Rounding {
  import opened Arith

  datatype Mode = TowardZero | Floor | Ceil | NearestEven | NearestAway | Exact

  /** The arithmetic, parse and format error codes. */
  datatype Error = Overflow | DivisionByZero | Inexact | InvalidPrecision | InvalidValue
    | Empty | Invalid | TooPrecise | BufferTooSmall

  datatype Result<+T> = Ok(value: T) | Err(error: Error)

  /** The discarded fraction of a magnitude: nothing, less than a half, a half, more. */
  datatype Part = Nothing | Below | Half | Above

  function PartOf(r: nat, d: nat): Part {
    if r == 0 then Nothing else if 2 * r < d then Below else if 2 * r == d then Half else Above
  }

  /** Does rounding move magnitude q away from zero? */
  predicate AwayFromZero(q: nat, part: Part, negative: bool, mode: Mode) {
    match mode
    case TowardZero => false
    case Floor => negative
    case Ceil => !negative
    case NearestEven => part.Above? || (part.Half? && q % 2 == 1)
    case NearestAway => part.Half? || part.Above?
    case Exact => false
  }

  function Decide(q: nat, part: Part, negative: bool, mode: Mode, limit: nat): Result<nat> {
    if q > limit then Err(Overflow)
    else if part.Nothing? then Ok(q)
    else if mode.Exact? then Err(Inexact)
    else if !AwayFromZero(q, part, negative, mode) then Ok(q)
    else if q == limit then Err(Overflow)
    else Ok(q + 1)
  }

  /** Largest magnitude a signed `bits`-bit integer holds on one side of zero. */
  function Limit(bits: pos, negative: bool): (r: nat)
  {
    if negative then Pow2(bits - 1) else Pow2(bits - 1) - 1
  }

  predicate Fits(x: int, bits: pos)
  {
    0 - Pow2(bits - 1) <= x < Pow2(bits - 1)
  }

  /** The storage widths. */
  predicate Width(bits: nat) {
    bits == 8 || bits == 16 || bits == 32 || bits == 64 || bits == 128 || bits == 256
  }

  lemma FitsWider(x: int, bits: nat, wide: nat)
    requires 0 < bits <= wide && Fits(x, bits)
    ensures Fits(x, wide)
  {
    PowMono(2, bits - 1, wide - 1);
  }

  function Signed(magnitude: nat, negative: bool): int {
    if negative then 0 - magnitude else magnitude
  }

  lemma SignedScale(m: nat, negative: bool, k: nat)
    ensures Signed(m * k, negative) == Signed(m, negative) * k
  {
    if negative { assert (0 - m) * k == -(m * k); }
  }

  /** A scaled magnitude is held exactly up to the limit of its sign. */
  lemma SignedGrid(m: nat, negative: bool, k: nat, bits: pos)
    ensures Signed(m, negative) * k == Signed(m * k, negative)
    ensures Fits(Signed(m, negative) * k, bits) <==> m * k <= Limit(bits, negative)
  {
    SignedScale(m, negative, k);
  }

  function SignedResult(r: Result<nat>, negative: bool): Result<int> {
    match r
    case Ok(m) => Ok(Signed(m, negative))
    case Err(e) => Err(e)
  }

  /** num / den rounded once into a signed `bits`-bit integer. */
  function Evaluate(num: int, den: pos, mode: Mode, bits: pos): Result<int>
  {
    var n := Abs(num);
    SignedResult(Decide(Quot(n, den), PartOf(Rem(n, den), den), num < 0, mode, Limit(bits, num < 0)), num < 0)
  }

  // ----- the independent definition of rounding -----

  /** r is the value that `mode` names for num / den. */
  predicate IsRounded(num: int, den: pos, mode: Mode, r: int)
  {
    var error := r * den - num;
    match mode
    case TowardZero => Abs(error) < den && Abs(r) * den <= Abs(num)
    case Floor => 0 - den < error <= 0
    case Ceil => 0 <= error < den
    case NearestEven => 2 * Abs(error) < den || (2 * Abs(error) == den && r % 2 == 0)
    case NearestAway => 2 * Abs(error) < den || (2 * Abs(error) == den && Abs(r) * den > Abs(num))
    case Exact => error == 0
  }

  function Truncated(num: int, den: pos): int
  {
    Signed(Quot(Abs(num), den), num < 0)
  }

  function RoundedMagnitude(q: nat, part: Part, negative: bool, mode: Mode): nat {
    if !part.Nothing? && AwayFromZero(q, part, negative, mode) then q + 1 else q
  }

  /** For |num| = q * den + rem, the value at offset k from the truncated magnitude is the
      rounded one exactly when k is the step that AwayFromZero takes. */
  lemma RoundedByOffset(num: int, den: nat, q: nat, rem: nat, mode: Mode, k: int)
    requires rem < den && Abs(num) == q * den + rem
    ensures IsRounded(num, den, mode, if num < 0 then -(q + k) else q + k) <==>
              k == RoundedMagnitude(q, PartOf(rem, den), num < 0, mode) - q && !(mode.Exact? && rem != 0)
  {
    var r := if num < 0 then -(q + k) else q + k;
    ByProducts(num, den, mode, r);
    OffsetError(num, den, q, rem, k, r);
    OffsetDecides(num < 0, den, q, rem, mode, k, k * den, q * den);
    hide *;
  }

  /** IsRounded, given the error and the products. */
  predicate RoundedBy(mode: Mode, den: nat, r: int, error: int, ad: int, an: int) {
    match mode
    case TowardZero => Abs(error) < den && ad <= an
    case Floor => 0 - den < error <= 0
    case Ceil => 0 <= error < den
    case NearestEven => 2 * Abs(error) < den || (2 * Abs(error) == den && r % 2 == 0)
    case NearestAway => 2 * Abs(error) < den || (2 * Abs(error) == den && ad > an)
    case Exact => error == 0
  }

  lemma ByProducts(num: int, den: pos, mode: Mode, r: int)
    ensures IsRounded(num, den, mode, r) <==> RoundedBy(mode, den, r, r * den - num, Abs(r) * den, Abs(num))
  {
  }

  /** kd is the product of the offset, qd that of the truncated magnitude. */
  lemma OffsetDecides(negative: bool, den: nat, q: nat, rem: nat, mode: Mode, k: int, kd: int, qd: nat)
    requires rem < den && (k >= 2 ==> kd >= 2 * den) && (k <= -1 ==> kd <= 0 - den)
    requires (k == 0 ==> kd == 0) && (k == 1 ==> kd == den)
    ensures RoundedBy(mode, den, if negative then -(q + k) else q + k, if negative then rem - kd else kd - rem, Abs(qd + kd), qd + rem)
            <==> k == RoundedMagnitude(q, PartOf(rem, den), negative, mode) - q && !(mode.Exact? && rem != 0)
  {
  }

  /** The error of the value at offset k, from below and from above. */
  lemma OffsetError(num: int, den: nat, q: nat, rem: nat, k: int, r: int)
    requires rem < den && Abs(num) == q * den + rem && r == if num < 0 then -(q + k) else q + k
    ensures r * den - num == if num < 0 then rem - k * den else k * den - rem
    ensures Abs(r) * den == Abs(q * den + k * den)
    ensures (k >= 2 ==> k * den >= 2 * den) && (k <= -1 ==> k * den <= 0 - den)
    ensures (k == 0 ==> k * den == 0) && (k == 1 ==> k * den == den) && 0 <= q * den
  {
    OffsetProducts(q, den, k);
    SignedProduct(q + k, den);
    hide *;
    if num < 0 {
      assert r == -(q + k);
    } else {
      assert r == q + k;
    }
  }

  lemma OffsetProducts(q: nat, den: pos, k: int)
    ensures (q + k) * den == q * den + k * den && 0 <= q * den
    ensures (k >= 2 ==> k * den >= 2 * den) && (k <= -1 ==> k * den <= 0 - den)
    ensures (k == 0 ==> k * den == 0) && (k == 1 ==> k * den == den)
  {
    if k >= 2 { MulMono(2, k, den); } else if k <= -1 { MulMono(k, -1, den); }
    MulMono(0, q, den);
  }

  lemma SignedProduct(x: int, den: pos)
    ensures (-x) * den == -(x * den) && Abs(x) * den == Abs(x * den) && Abs(-x) * den == Abs(x * den)
  {
    AbsScale(x, den);
  }

  /** Main contract: a value is returned exactly when it is the rounded quotient and fits;
      `inexact` exactly when Exact refused a quotient whose truncation fits. */
  lemma EvaluateContract(num: int, den: pos, mode: Mode, bits: pos, r: int)
    ensures Evaluate(num, den, mode, bits) == Ok(r) <==> IsRounded(num, den, mode, r) && Fits(r, bits)
    ensures Evaluate(num, den, mode, bits) == Err(Inexact) <==>
              mode.Exact? && !Divides(num, den) && Fits(Truncated(num, den), bits)
  {
    var q, rem := Quot(Abs(num), den), Rem(Abs(num), den);
    QuotRem(Abs(num), den);
    ContractFor(num, den, q, rem, mode, bits);
    RoundedByOffset(num, den, q, rem, mode, (if num < 0 then -r else r) - q);
  }

  /** 127.5 in eight bits: its truncation fits, so Exact reports `inexact`, while rounding to
      nearest overflows. */
  lemma HalfAboveLargest()
    ensures Evaluate(1275, 10, Exact, 8) == Err(Inexact)
    ensures Evaluate(1275, 10, NearestEven, 8) == Err(Overflow) && Evaluate(1275, 10, TowardZero, 8) == Ok(127)
  {
    assert Pow(2, 7) == 128;
    QuotUnique(1275, 10, 127, 5);
  }

  /** `overflow` exactly when no rounded value fits and Exact did not merely refuse. */
  lemma OverflowContract(num: int, den: pos, mode: Mode, bits: pos)
    ensures Evaluate(num, den, mode, bits) == Err(Overflow) <==>
              Evaluate(num, den, mode, bits) != Err(Inexact) &&
              forall r :: Fits(r, bits) ==> !IsRounded(num, den, mode, r)
  {
    var e := Evaluate(num, den, mode, bits);
    forall r ensures IsRounded(num, den, mode, r) && Fits(r, bits) <==> e == Ok(r) {
      EvaluateContract(num, den, mode, bits, r);
    }
    if e.Ok? { assert IsRounded(num, den, mode, e.value); }
  }

  lemma ContractFor(num: int, den: nat, q: nat, rem: nat, mode: Mode, bits: nat)
    requires rem < den && 0 < bits && (num == 0 ==> q == 0 && rem == 0)
    ensures var v := Signed(RoundedMagnitude(q, PartOf(rem, den), num < 0, mode), num < 0);
            SignedResult(Decide(q, PartOf(rem, den), num < 0, mode, Limit(bits, num < 0)), num < 0) ==
              if !Fits(Signed(q, num < 0), bits) then Err(Overflow)
              else if mode.Exact? && rem != 0 then Err(Inexact)
              else if Fits(v, bits) then Ok(v) else Err(Overflow)
    ensures !Fits(Signed(q, num < 0), bits) ==>
              !Fits(Signed(RoundedMagnitude(q, PartOf(rem, den), num < 0, mode), num < 0), bits)
  {
  }

  predicate Divides(num: int, den: pos)
  {
    Rem(Abs(num), den) == 0
  }

  /** The precedence rule: under Exact, `inexact` invites a retry that succeeds, and
      `overflow` one that cannot. */
  lemma RetryRule(num: int, den: pos, mode: Mode, bits: pos)
    ensures Evaluate(num, den, Exact, bits) == Err(Inexact) ==> Evaluate(num, den, TowardZero, bits).Ok?
    ensures Evaluate(num, den, Exact, bits) == Err(Overflow) ==> Evaluate(num, den, mode, bits) == Err(Overflow)
    ensures Evaluate(num, den, Exact, bits).Ok? ==> Evaluate(num, den, mode, bits) == Evaluate(num, den, Exact, bits)
  {
  }

  // ----- facts the kernels use -----

  /** Numerator and denominator may be scaled together. */
  lemma EvaluateScale(num: int, den: pos, k: pos, mode: Mode, bits: pos)
    ensures 0 < den * k && Evaluate(num * k, den * k, mode, bits) == Evaluate(num, den, mode, bits)
  {
    MulMono(1, den, k);
    AbsScale(num, k);
    QuotScale(Abs(num), den, k);
    PartScale(Rem(Abs(num), den), den, k);
  }

  lemma AbsScale(num: int, k: pos)
    ensures Abs(num * k) == Abs(num) * k && (num * k < 0 <==> num < 0)
  {
    if num < 0 { MulMono(num, -1, k); } else { MulMono(0, num, k); }
  }

  lemma QuotScale(n: nat, den: pos, k: pos)
    ensures 0 < den * k && Quot(n * k, den * k) == Quot(n, den) && Rem(n * k, den * k) == Rem(n, den) * k
  {
    QuotRem(n, den);
    MulMono(1, den, k);
    MulStrict(Rem(n, den), den, k);
    MulMono(0, Rem(n, den), k);
    ScaledDivision(n, Quot(n, den), den, Rem(n, den), k);
    hide *;
    QuotUnique(n * k, den * k, Quot(n, den), Rem(n, den) * k);
  }

  lemma ScaledDivision(n: int, q: int, den: int, r: int, k: int)
    requires n == q * den + r
    ensures n * k == q * (den * k) + r * k
  {
    assert (q * den + r) * k == q * (den * k) + r * k;
  }

  lemma PartScale(r: nat, d: nat, k: pos)
    ensures PartOf(r * k, d * k) == PartOf(r, d)
  {
    if 2 * r < d { MulStrict(2 * r, d, k); } else { MulMono(d, 2 * r, k); }
    if 2 * r > d { MulStrict(d, 2 * r, k); }
    assert (2 * r) * k == 2 * (r * k);
    if r != 0 { MulMono(1, r, k); }
  }

  /** A sign flag carried beside a zero magnitude changes nothing. */
  lemma EvaluateFlag(n: nat, den: pos, negative: bool, mode: Mode, bits: pos)
    ensures SignedResult(Decide(Quot(n, den), PartOf(Rem(n, den), den), negative, mode, Limit(bits, negative)), negative)
            == Evaluate(Signed(n, negative), den, mode, bits)
  {
    assert n == 0 ==> Quot(n, den) == 0 && Rem(n, den) == 0;
    hide Quot, Rem, Limit, AwayFromZero;
    if n == 0 {
      ZeroDecided(den, negative, mode, Limit(bits, negative));
      ZeroDecided(den, false, mode, Limit(bits, false));
      hide Decide, PartOf;
    } else {
      hide Decide, PartOf, SignedResult;
      assert Abs(Signed(n, negative)) == n && (Signed(n, negative) < 0 <==> negative);
    }
  }

  lemma ZeroDecided(den: pos, negative: bool, mode: Mode, limit: nat)
    ensures SignedResult(Decide(0, PartOf(0, den), negative, mode, limit), negative) == Ok(0)
  {
  }

  // ----- the shared implementation -----

  /** The branchless tie test: r > (d >> 1) - (q & ~d & 1). */
  predicate NearestEvenIncrement(q: nat, r: nat, d: pos)
  {
    var tie := if q % 2 == 1 && d % 2 == 0 then 1 else 0;
    r > d / 2 - tie
  }

  lemma NearestEvenIncrementMeaning(q: nat, r: nat, d: pos)
    requires 0 < r < d
    ensures NearestEvenIncrement(q, r, d) <==> AwayFromZero(q, PartOf(r, d), false, NearestEven)
  {
  }

  /** round_magnitude: same branches as the source, including its order of tests. */
  function RoundMagnitude(q: nat, r: nat, d: pos, negative: bool, mode: Mode, limit: nat): (res: Result<nat>)
    requires r < d
    ensures res == Decide(q, PartOf(r, d), negative, mode, limit)
  {
    if q > limit then Err(Overflow)
    else if r == 0 then Ok(q)
    else if mode.Exact? then Err(Inexact)
    else
      var increment := match mode
        case TowardZero => false
        case Floor => negative
        case Ceil => !negative
        case NearestEven => NearestEvenIncrement(q, r, d)
        case NearestAway => r >= d - r
        case Exact => false;
      if increment && q == limit then Err(Overflow) else Ok(if increment then q + 1 else q)
  }
}
