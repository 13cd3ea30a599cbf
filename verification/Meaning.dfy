/** What every operation means in real numbers: the exact result, rounded once. */
module Meaning {
  import opened Arith
  import opened Rounding

  // ----- real numbers -----

  /** One unit in the first place, in units of the last of `decimals` places. */
  function Scale(decimals: nat): (s: real)
    ensures s > 0.0
  {
    Pow10(decimals) as real
  }

  /** The number a raw stands for. */
  function Value(raw: int, decimals: nat): real { raw as real / Scale(decimals) }

  /** base^exponent, for a negative exponent too. */
  function Power(base: pos, exponent: int): (p: real)
    ensures p > 0.0
  {
    if exponent >= 0 then Pow(base, exponent) as real else 1.0 / Pow(base, -exponent) as real
  }

  lemma PowerStep(base: pos, exponent: int)
    ensures Power(base, 0) == 1.0 && Power(base, exponent + 1) == base as real * Power(base, exponent)
  {
    if exponent >= 0 {
      RealProduct(base, Pow(base, exponent));
    } else {
      var below: pos := Pow(base, -exponent - 1);
      RealProduct(base, below);
      hide Pow;
      Reciprocal(base as real, below as real);
    }
  }

  lemma Reciprocal(b: real, p: real)
    requires b > 0.0 && p > 0.0
    ensures b * p > 0.0 && b * (1.0 / (b * p)) == 1.0 / p
  {
    var r := 1.0 / (b * p);
    assert (b * r) * p == 1.0;
  }

  function Magnitude(x: real): real { if x < 0.0 then -x else x }

  predicate IsWhole(x: real) { x == x.Floor as real }

  /** v is the integer that `mode` names for x. */
  predicate RoundsTo(x: real, mode: Mode, v: int) {
    var error := v as real - x;
    match mode
    case TowardZero => if x < 0.0 then 0.0 <= error < 1.0 else -1.0 < error <= 0.0
    case Floor => -1.0 < error <= 0.0
    case Ceil => 0.0 <= error < 1.0
    case NearestEven => Magnitude(error) < 0.5 || (Magnitude(error) == 0.5 && v % 2 == 0)
    case NearestAway => Magnitude(error) < 0.5 || (Magnitude(error) == 0.5 && Magnitude(v as real) > Magnitude(x))
    case Exact => error == 0.0
  }

  /** The integer part of x is a signed `bits`-bit integer. */
  predicate PartFits(x: real, bits: pos) {
    0.0 - Pow2(bits - 1) as real - 1.0 < x < Pow2(bits - 1) as real
  }

  /** r is x rounded once into a signed `bits`-bit integer: the value if it fits, `inexact` if
      Exact refuses a number whose integer part fits, and `overflow` otherwise. */
  ghost predicate Correct(x: real, mode: Mode, bits: pos, r: Result<int>) {
    match r
    case Ok(v) => RoundsTo(x, mode, v) && Fits(v, bits)
    case Err(e) =>
      if mode.Exact? && PartFits(x, bits) then e == Inexact && !IsWhole(x)
      else e == Overflow && forall v :: RoundsTo(x, mode, v) ==> !Fits(v, bits)
  }

  /** Nothing else is correct: the exact number, the mode and the width determine the result. */
  lemma OneCorrect(x: real, mode: Mode, bits: pos, r: Result<int>, s: Result<int>)
    requires Correct(x, mode, bits, r) && Correct(x, mode, bits, s)
    ensures r == s
  {
    if r.Ok? && s.Ok? { OneRounding(x, mode, r.value, s.value); }
  }

  lemma OneRounding(x: real, mode: Mode, v: int, w: int)
    requires RoundsTo(x, mode, v) && RoundsTo(x, mode, w)
    ensures v == w
  {
    var d := v - w;
    assert d as real == (v as real - x) - (w as real - x);
  }

  // ----- products of reals -----

  lemma RealOrder(a: real, b: real, c: real)
    requires 0.0 < c
    ensures a < b <==> a * c < b * c
    ensures a == b <==> a * c == b * c
  {
    assert (b - a) * c == b * c - a * c;
    if a < b { assert (b - a) * c > 0.0; } else if b < a { assert (a - b) * c > 0.0; }
  }

  lemma {:induction false} RealProduct(a: int, b: nat)
    ensures (a * b) as real == a as real * b as real
  {
    if b != 0 {
      RealProduct(a, b - 1);
      assert a * b == a * (b - 1) + a;
    }
  }

  lemma ScaleAdd(x: nat, y: nat)
    ensures Scale(x + y) == Scale(x) * Scale(y)
  {
    PowAdd(10, x, y);
    RealProduct(Pow10(x), Pow10(y));
  }

  lemma ValueTimes(raw: int, decimals: nat)
    ensures Value(raw, decimals) * Scale(decimals) == raw as real
  {
  }

  // ----- the rational and the real rounding are the same -----

  /** For x = num / den. */
  lemma SameRounding(num: int, den: pos, x: real, mode: Mode, v: int)
    requires x * den as real == num as real
    ensures RoundsTo(x, mode, v) <==> IsRounded(num, den, mode, v)
  {
    var y, e := v as real - x, v * den - num;
    RealProduct(v, den);
    RealMinus(v as real, x, den as real);
    Compared(x, den, num);
    Compared(y, den, e);
    match mode {
      case TowardZero => TowardZeroError(num, den, v);
      case NearestAway =>
        Farther(num, den, x, v);
        HalfStep(y, den, e);
      case NearestEven => HalfStep(y, den, e);
      case _ =>
    }
  }

  lemma RealMinus(a: real, b: real, c: real)
    ensures (a - b) * c == a * c - b * c
  {
  }

  lemma HalfStep(y: real, den: pos, e: int)
    requires (y < 0.5 <==> 2 * e < den) && (y == 0.5 <==> 2 * e == den)
    requires (-0.5 < y <==> 0 - den < 2 * e) && (y == -0.5 <==> 2 * e == 0 - den)
    ensures (Magnitude(y) < 0.5 <==> 2 * Abs(e) < den) && (Magnitude(y) == 0.5 <==> 2 * Abs(e) == den)
  {
  }

  /** Where y lies among the steps a rounding looks at, for y * d = e. */
  lemma Compared(y: real, den: pos, e: int)
    requires y * den as real == e as real
    ensures (y < 0.0 <==> e < 0) && (y == 0.0 <==> e == 0)
    ensures (y < 1.0 <==> e < den) && (-1.0 < y <==> 0 - den < e)
    ensures (y < 0.5 <==> 2 * e < den) && (y == 0.5 <==> 2 * e == den)
    ensures (-0.5 < y <==> 0 - den < 2 * e) && (y == -0.5 <==> 2 * e == 0 - den)
  {
    OrderAt(y, den as real, e, 0.0);
    OrderAt(y, den as real, e, 1.0);
    OrderAt(y, den as real, e, -1.0);
    OrderAt(y, den as real, e, 0.5);
    OrderAt(y, den as real, e, -0.5);
    Doubled(e, den);
    Doubled(-e, den);
  }

  lemma OrderAt(y: real, d: real, e: int, c: real)
    requires 0.0 < d && y * d == e as real
    ensures (y < c <==> e as real < c * d) && (c < y <==> c * d < e as real)
  {
    RealOrder(y, c, d);
    RealOrder(c, y, d);
  }

  lemma Doubled(e: int, den: int)
    ensures e as real < 0.5 * den as real <==> 2 * e < den
  {
    assert (2 * e) as real == 2.0 * e as real;
  }

  lemma TowardZeroError(num: int, den: pos, v: int)
    ensures IsRounded(num, den, TowardZero, v) <==>
              if num < 0 then 0 <= v * den - num < den else 0 - den < v * den - num <= 0
  {
    AbsScale(v, den);
    if v <= -1 { MulMono(v, -1, den); } else if v >= 1 { MulMono(1, v, den); }
  }

  lemma Farther(num: int, den: pos, x: real, v: int)
    requires x * den as real == num as real
    ensures Magnitude(v as real) > Magnitude(x) <==> Abs(v) * den > Abs(num)
  {
    MagnitudeTimes(x, den, num);
    RealBelow(Magnitude(x), den, Abs(num), Abs(v));
    assert Magnitude(v as real) == Abs(v) as real;
  }

  lemma MagnitudeTimes(x: real, den: pos, num: int)
    requires x * den as real == num as real
    ensures Magnitude(x) * den as real == Abs(num) as real
  {
    RealOrder(x, 0.0, den as real);
    RealMinus(0.0, x, den as real);
  }

  /** So a rational, too, has one rounded value. */
  lemma OneInteger(num: int, den: pos, mode: Mode, m: int, n: int)
    requires IsRounded(num, den, mode, m) && IsRounded(num, den, mode, n)
    ensures m == n
  {
    hide IsRounded, RoundsTo;
    Fraction(num as real, den as real);
    SameRounding(num, den, num as real / den as real, mode, m);
    SameRounding(num, den, num as real / den as real, mode, n);
    OneRounding(num as real / den as real, mode, m, n);
  }

  lemma Fraction(n: real, d: real)
    requires d != 0.0
    ensures (n / d) * d == n
  {
  }

  lemma PartOfQuotient(num: int, den: pos, x: real, bits: pos)
    requires x * den as real == num as real
    ensures PartFits(x, bits) <==> Fits(Truncated(num, den), bits)
    ensures IsWhole(x) <==> Divides(num, den)
  {
    var q, rem, p := Quot(Abs(num), den), Rem(Abs(num), den), Pow2(bits - 1);
    QuotRem(Abs(num), den);
    hide Pow, Quot, Rem;
    Bounded(num, den, x, q, rem, p);
    WholeQuotient(num, den, x, q, rem);
  }

  lemma Bounded(num: int, den: pos, x: real, q: nat, rem: nat, p: pos)
    requires x * den as real == num as real && Abs(num) == q * den + rem && rem < den
    ensures 0.0 - p as real - 1.0 < x < p as real <==> 0 - p <= Signed(q, num < 0) < p
  {
    RealBelow(x, den, num, p);
    RealBelow(-x, den, -num, p + 1);
    SameStep(q, den, rem, p);
    SameStep(q, den, rem, p + 1);
  }

  lemma RealBelow(x: real, den: pos, num: int, p: nat)
    requires x * den as real == num as real
    ensures x < p as real <==> num < p * den
  {
    RealProduct(p, den);
    RealOrder(x, p as real, den as real);
  }

  lemma SameStep(q: nat, den: pos, rem: nat, p: nat)
    requires rem < den
    ensures q < p <==> q * den + rem < p * den
  {
    if q < p { MulMono(q + 1, p, den); } else { MulMono(p, q, den); }
  }

  lemma WholeQuotient(num: int, den: pos, x: real, q: nat, rem: nat)
    requires x * den as real == num as real && Abs(num) == q * den + rem && rem < den
    ensures IsWhole(x) <==> rem == 0
  {
    if rem == 0 {
      var v := Signed(q, num < 0);
      SignedScale(q, num < 0, den);
      SameRounding(num, den, x, Exact, v);
    } else if IsWhole(x) {
      var v := x.Floor;
      SameRounding(num, den, x, Exact, v);
      AbsScale(v, den);
      NoMultiple(Abs(v), q, den, rem);
    }
  }

  lemma NoMultiple(v: nat, q: nat, den: pos, rem: nat)
    requires 0 < rem < den
    ensures v * den != q * den + rem
  {
    if v <= q { MulMono(v, q, den); } else { MulMono(q + 1, v, den); }
  }

  /** Evaluating a rational is rounding the real number once. */
  lemma EvaluateIsCorrect(num: int, den: pos, mode: Mode, bits: pos, x: real)
    requires x * den as real == num as real
    ensures Correct(x, mode, bits, Evaluate(num, den, mode, bits))
  {
    var r := Evaluate(num, den, mode, bits);
    OnlyTwoErrors(num, den, mode, bits);
    PartOfQuotient(num, den, x, bits);
    hide Evaluate, Fits, Divides, Truncated, PartFits, IsWhole, RoundsTo, IsRounded;
    EvaluateContract(num, den, mode, bits, if r.Ok? then r.value else 0);
    if r.Ok? { SameRounding(num, den, x, mode, r.value); }
    if r == Err(Overflow) {
      OverflowContract(num, den, mode, bits);
      forall v ensures RoundsTo(x, mode, v) ==> !Fits(v, bits) { SameRounding(num, den, x, mode, v); }
      if mode.Exact? { ExactOverflow(num, den, bits); }
    }
  }

  lemma OnlyTwoErrors(num: int, den: pos, mode: Mode, bits: pos)
    ensures var r := Evaluate(num, den, mode, bits); r.Err? ==> r.error == Overflow || (r.error == Inexact && mode.Exact?)
  {
  }

  /** Exact reports `overflow` only when the integer part does not fit. */
  lemma ExactOverflow(num: int, den: pos, bits: pos)
    requires Evaluate(num, den, Exact, bits) == Err(Overflow)
    ensures !Fits(Truncated(num, den), bits)
  {
    EvaluateContract(num, den, Exact, bits, Truncated(num, den));
  }

  // ----- rounding onto a grid -----

  /** r is grid times the rounded x, with the same precedence; the range limits the product. */
  ghost predicate CorrectOnGrid(x: real, grid: pos, mode: Mode, bits: pos, r: Result<int>) {
    match r
    case Ok(v) => Fits(v, bits) && exists m :: RoundsTo(x, mode, m) && v == m * grid
    case Err(e) =>
      if mode.Exact? && PartFits(x, bits) && !IsWhole(x) then e == Inexact
      else e == Overflow && forall m :: RoundsTo(x, mode, m) ==> !Fits(m * grid, bits)
  }

  lemma OneOnGrid(x: real, grid: pos, mode: Mode, bits: pos, r: Result<int>, s: Result<int>)
    requires CorrectOnGrid(x, grid, mode, bits, r) && CorrectOnGrid(x, grid, mode, bits, s)
    ensures r == s
  {
    if r.Ok? {
      hide *;
      ValueOnGrid(x, grid, mode, bits, r, s);
    } else if s.Ok? {
      hide *;
      ValueOnGrid(x, grid, mode, bits, s, r);
    }
  }

  lemma ValueOnGrid(x: real, grid: pos, mode: Mode, bits: pos, r: Result<int>, s: Result<int>)
    requires r.Ok? && CorrectOnGrid(x, grid, mode, bits, r) && CorrectOnGrid(x, grid, mode, bits, s)
    ensures r == s
  {
    var m :| RoundsTo(x, mode, m) && r.value == m * grid;
    assert Fits(r.value, bits);
    hide *;
    SameOnGrid(x, grid, mode, bits, r.value, m, s);
  }

  lemma SameOnGrid(x: real, grid: pos, mode: Mode, bits: pos, v: int, m: int, s: Result<int>)
    requires Fits(v, bits) && RoundsTo(x, mode, m) && v == m * grid && CorrectOnGrid(x, grid, mode, bits, s)
    ensures s == Ok(v)
  {
    hide Fits, PartFits;
    if s.Ok? {
      var n :| RoundsTo(x, mode, n) && s.value == n * grid;
      OneRounding(x, mode, m, n);
    }
  }
}
