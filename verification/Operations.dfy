/** The public operations on raw values: every kernel of every width, and the constexpr
    reference, is proved to return exactly these results. */
module Operations {
  import opened Arith
  import opened Rounding

  /** num / den with a signed divisor. */
  function Divide(num: int, den: int, mode: Mode, bits: pos): Result<int>
  {
    if den == 0 then Err(DivisionByZero) else Evaluate(if den < 0 then -num else num, Abs(den), mode, bits)
  }

  function Mul(a: int, b: int, decimals: nat, mode: Mode, bits: pos): Result<int>
  {
    Evaluate(a * b, Pow10(decimals), mode, bits)
  }

  function Div(a: int, b: int, decimals: nat, mode: Mode, bits: pos): Result<int>
  {
    Divide(a * Pow10(decimals), b, mode, bits)
  }

  function MulDiv(a: int, b: int, c: int, mode: Mode, bits: pos): Result<int>
  {
    Divide(a * b, c, mode, bits)
  }

  /** a rounded onto the grid of `target` decimals, kept at `current` decimals. */
  function Quantize(a: int, current: nat, target: nat, mode: Mode, bits: pos): Result<int>
  {
    if target > current then Err(InvalidPrecision)
    else if target == current then Ok(a)
    else OnGrid(Evaluate(a, Pow10(current - target), mode, bits), Pow10(current - target), bits)
  }

  function OnGrid(q: Result<int>, grid: nat, bits: pos): Result<int>
  {
    match q
    case Err(e) => Err(e)
    case Ok(v) => if Fits(v * grid, bits) then Ok(v * grid) else Err(Overflow)
  }

  /** Truncating remainder: the sign of a. */
  function Remainder(a: int, b: int): Result<int> {
    if b == 0 then Err(DivisionByZero) else Ok(Signed(Rem(Abs(a), Abs(b)), a < 0))
  }

  /** What is left of a is a minus a whole number of b, smaller than b, with the sign of a. */
  lemma RemainderContract(a: int, b: int) returns (q: int)
    requires b != 0
    ensures var r := Remainder(a, b); r.Ok? && a == q * b + r.value && Abs(r.value) < Abs(b)
    ensures var r := Remainder(a, b).value; r != 0 ==> (r < 0 <==> a < 0)
  {
    QuotRem(Abs(a), Abs(b));
    q := Signed(Quot(Abs(a), Abs(b)), (a < 0) != (b < 0));
    hide Quot, Rem;
    SignedProducts(Quot(Abs(a), Abs(b)), b);
  }

  lemma SignedProducts(q: nat, b: int)
    ensures (0 - q) * b == -(q * b) && q * Abs(b) == if b < 0 then -(q * b) else q * b
  {
  }

  // ----- from quotient and remainder to the operation -----

  function Rounded(q: nat, r: nat, d: pos, negative: bool, mode: Mode, bits: pos): Result<int>
    requires r < d
  {
    SignedResult(RoundMagnitude(q, r, d, negative, mode, Limit(bits, negative)), negative)
  }

  /** Rounding an exact quotient and remainder is the operation. */
  lemma RoundedIsEvaluate(n: nat, d: nat, q: nat, r: nat, negative: bool, mode: Mode, bits: pos)
    requires n == q * d + r && r < d
    ensures Rounded(q, r, d, negative, mode, bits) == Evaluate(Signed(n, negative), d, mode, bits)
  {
    QuotUnique(n, d, q, r);
    EvaluateFlag(n, d, negative, mode, bits);
  }

  /** A quotient beyond the limit is an overflow, whatever the mode. */
  lemma OverflowIsEvaluate(n: nat, d: pos, limit: nat, negative: bool, mode: Mode, bits: pos)
    requires Limit(bits, negative) < limit && limit * d <= n
    ensures Evaluate(Signed(n, negative), d, mode, bits) == Err(Overflow)
  {
    QuotLess(n, d, limit);
    EvaluateFlag(n, d, negative, mode, bits);
  }

  lemma ProductParts(a: int, b: int)
    ensures a * b == Signed(Abs(a) * Abs(b), (a < 0) != (b < 0))
  {
    if a < 0 && b >= 0 { assert a * b == -((-a) * b); }
    if a >= 0 && b < 0 { assert a * b == -(a * (-b)); }
    if a < 0 && b < 0 { assert a * b == (-a) * (-b); }
  }

  /** The sign that div and mul_div compute for a product over a divisor. */
  lemma DivideParts(a: int, b: int, c: int, mode: Mode, bits: pos)
    requires c != 0
    ensures Divide(a * b, c, mode, bits)
            == Evaluate(Signed(Abs(a) * Abs(b), ((a < 0) != (b < 0)) != (c < 0)), Abs(c), mode, bits)
  {
    ProductParts(a, b);
  }

  // ----- narrowing a 64-bit result -----

  /** narrow_checked: on `inexact` the truncating operation decides whether it was an overflow. */
  function Narrow(result: Result<int>, truncating: Result<int>, bits: pos): Result<int>
  {
    match result
    case Err(e) =>
      if e.Inexact? && truncating.Ok? && !Fits(truncating.value, bits) then Err(Overflow) else result
    case Ok(v) => if Fits(v, bits) then result else Err(Overflow)
  }

  /** An 8-, 16- or 32-bit operation is the 64-bit one, narrowed: overflow stays ahead of inexact. */
  lemma NarrowIsEvaluate(num: int, den: pos, mode: Mode, wide: nat, bits: nat)
    requires 0 < bits <= wide
    ensures Narrow(Evaluate(num, den, mode, wide), Evaluate(num, den, TowardZero, wide), bits)
            == Evaluate(num, den, mode, bits)
  {
    NarrowDecides(Quot(Abs(num), den), PartOf(Rem(Abs(num), den), den), num < 0, mode, wide, bits);
    hide Narrow, Decide, SignedResult, Quot, Rem, PartOf, Limit;
  }

  lemma NarrowDecides(q: nat, part: Part, negative: bool, mode: Mode, wide: nat, bits: nat)
    requires 0 < bits <= wide
    ensures Narrow(SignedResult(Decide(q, part, negative, mode, Limit(wide, negative)), negative),
                   SignedResult(Decide(q, part, negative, TowardZero, Limit(wide, negative)), negative), bits)
            == SignedResult(Decide(q, part, negative, mode, Limit(bits, negative)), negative)
  {
    PowMono(2, bits - 1, wide - 1);
    FitsToLimit(q, negative, bits);
    FitsToLimit(q + 1, negative, bits);
    assert Limit(bits, negative) <= Limit(wide, negative);
    NarrowCases(q, part, negative, mode, Limit(bits, negative), Limit(wide, negative), bits);
    hide *;
  }

  /** The limits as numbers: low for the narrow width, high for the wide one. */
  lemma NarrowCases(q: nat, part: Part, negative: bool, mode: Mode, low: nat, high: nat, bits: pos)
    requires low <= high && (Fits(Signed(q, negative), bits) <==> q <= low)
    requires Fits(Signed(q + 1, negative), bits) <==> q + 1 <= low
    ensures Narrow(SignedResult(Decide(q, part, negative, mode, high), negative),
                   SignedResult(Decide(q, part, negative, TowardZero, high), negative), bits)
            == SignedResult(Decide(q, part, negative, mode, low), negative)
  {
    hide Fits, Signed;
  }

  lemma FitsToLimit(m: nat, negative: bool, bits: pos)
    ensures Fits(Signed(m, negative), bits) <==> m <= Limit(bits, negative)
  {
  }

  lemma NarrowDivide(num: int, den: int, mode: Mode, wide: nat, bits: nat)
    requires 0 < bits <= wide
    ensures Narrow(Divide(num, den, mode, wide), Divide(num, den, TowardZero, wide), bits) == Divide(num, den, mode, bits)
  {
    if den != 0 { NarrowIsEvaluate(if den < 0 then -num else num, Abs(den), mode, wide, bits); }
  }

  lemma NarrowQuantize(a: int, current: nat, target: nat, mode: Mode, wide: nat, bits: nat)
    requires 0 < bits <= wide && Fits(a, bits)
    ensures Narrow(Quantize(a, current, target, mode, wide), Quantize(a, current, target, TowardZero, wide), bits)
            == Quantize(a, current, target, mode, bits)
  {
    PowMono(2, bits - 1, wide - 1);
    if target < current {
      var g := Pow10(current - target);
      QuotRem(Abs(a), g);
      var q := Quot(Abs(a), g);
      MulMono(1, g, q);
      assert q <= q * g <= Abs(a);
      GridNarrow(q, PartOf(Rem(Abs(a), g), g), a < 0, g, mode, wide, bits);
    }
  }

  lemma GridNarrow(q: nat, part: Part, negative: bool, g: pos, mode: Mode, wide: nat, bits: nat)
    requires 0 < bits <= wide && q <= q * g <= Limit(bits, negative) <= Limit(wide, negative)
    ensures Narrow(OnGrid(SignedResult(Decide(q, part, negative, mode, Limit(wide, negative)), negative), g, wide),
                   OnGrid(SignedResult(Decide(q, part, negative, TowardZero, Limit(wide, negative)), negative), g, wide), bits)
            == OnGrid(SignedResult(Decide(q, part, negative, mode, Limit(bits, negative)), negative), g, bits)
  {
    MulMono(1, g, q + 1);
    SignedGrid(q, negative, g, bits);
    SignedGrid(q, negative, g, wide);
    SignedGrid(q + 1, negative, g, bits);
    SignedGrid(q + 1, negative, g, wide);
    hide Fits, Limit, Signed, AwayFromZero;
  }

}
