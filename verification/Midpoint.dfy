/** Midpoints without a widened sum: the bitwise identity for the floor, and one rounding onto
    a coarser decimal grid. */
module Midpoint {
  import opened Arith
  import opened Rounding
  import opened Operations
  import Public
  import Meaning

  // ----- bitwise operators on two's complement -----

  /** a & b for integers of n + 1 bits; the quotient by two drops the lowest bit. */
  function And(a: int, b: int, n: nat): int
    decreases n
  {
    if n == 0 then (if a < 0 && b < 0 then -1 else 0) else 2 * And(a / 2, b / 2, n - 1) + (a % 2) * (b % 2)
  }

  /** a ^ b. */
  function Xor(a: int, b: int, n: nat): int
    decreases n
  {
    if n == 0 then (if (a < 0) != (b < 0) then -1 else 0)
    else 2 * Xor(a / 2, b / 2, n - 1) + if a % 2 == b % 2 then 0 else 1
  }

  /** A sum is twice the common bits plus the differing ones. */
  lemma {:induction false} SumOfBits(a: int, b: int, n: nat)
    requires 0 - Pow2(n) <= a < Pow2(n) && 0 - Pow2(n) <= b < Pow2(n)
    ensures a + b == 2 * And(a, b, n) + Xor(a, b, n)
    decreases n
  {
    if n != 0 {
      assert Pow2(n) == 2 * Pow2(n - 1);
      SumOfBits(a / 2, b / 2, n - 1);
      assert a == 2 * (a / 2) + a % 2 && b == 2 * (b / 2) + b % 2;
      assert (a % 2) * (b % 2) == if a % 2 == 1 && b % 2 == 1 then 1 else 0;
    }
  }

  // ----- the midpoint of two raws -----

  /** What the switch on the rounding mode does to the floor of an odd sum's half. */
  predicate StepsUp(lower: int, mode: Mode) {
    match mode
    case TowardZero => lower < 0
    case Floor => false
    case Ceil => true
    case NearestEven => lower % 2 != 0
    case NearestAway => lower >= 0
    case Exact => false
  }

  /** (a + b) / 2 rounded once. */
  method Middle(a: int, b: int, mode: Mode, bits: pos) returns (r: Result<int>)
    requires Fits(a, bits) && Fits(b, bits)
    ensures r == Evaluate(a + b, 2, mode, bits)
    ensures r.Ok? ==> Fits(r.value, bits)
    ensures r.Err? <==> mode.Exact? && (a + b) % 2 != 0
  {
    SumOfBits(a, b, bits - 1);
    SumRange(a, b, bits);
    hide *;
    var differing := Xor(a, b, bits - 1);
    var lower := And(a, b, bits - 1) + differing / 2;
    var odd := differing % 2 != 0;
    FloorFits(a + b, lower, odd, bits);
    FloorIsLower(a + b, lower, odd, mode, bits);
    if mode.Exact? && odd { return Err(Inexact); }
    r := Ok(lower + if odd && StepsUp(lower, mode) then 1 else 0);
  }

  /** Twice the range of a raw. */
  predicate SumFits(s: int, bits: pos) {
    0 - 2 * Pow2(bits - 1) <= s <= 2 * (Pow2(bits - 1) - 1)
  }

  lemma SumRange(a: int, b: int, bits: pos)
    requires Fits(a, bits) && Fits(b, bits)
    ensures SumFits(a + b, bits)
  {
  }

  /** The floor is a stored value, and so is the next one when the sum is odd. */
  lemma FloorFits(s: int, lower: int, odd: bool, bits: pos)
    requires SumFits(s, bits) && s == 2 * lower + if odd then 1 else 0
    ensures Fits(lower, bits) && (odd ==> Fits(lower + 1, bits)) && (s % 2 != 0 <==> odd)
  {
  }

  /** The adjusted floor is the rounded half. */
  lemma FloorIsLower(s: int, lower: int, odd: bool, mode: Mode, bits: pos)
    requires s == 2 * lower + (if odd then 1 else 0) && Fits(lower, bits) && (odd ==> Fits(lower + 1, bits))
    ensures Evaluate(s, 2, mode, bits) ==
            if mode.Exact? && odd then Err(Inexact) else Ok(lower + if odd && StepsUp(lower, mode) then 1 else 0)
  {
    var n := Abs(s);
    QuotUnique(n, 2, n / 2, n % 2);
    assert Limit(bits, s < 0) == Pow2(bits - 1) - if s < 0 then 0 else 1;
    hide Pow, Quot, Rem, Limit;
    if odd {
      assert PartOf(1, 2) == Half;
      if s < 0 { assert n / 2 == -lower - 1; } else { assert n / 2 == lower; }
    } else {
      assert PartOf(0, 2) == Nothing && n / 2 == Abs(lower);
    }
  }

  // ----- onto a coarser grid -----

  /** (a + b) / 2 rounded once onto the grid of `target` decimals. */
  function MidpointTo(a: int, b: int, current: nat, target: nat, mode: Mode, bits: pos): Result<int>
  {
    if target > current then Err(InvalidPrecision)
    else if target == current then Evaluate(a + b, 2, mode, bits)
    else OnGrid(Evaluate(a + b, 2 * Pow10(current - target), mode, bits), Pow10(current - target), bits)
  }

  /** r is half of s rounded once to a multiple of the grid: the multiple if it fits, `inexact`
      exactly when Exact meets a half between the multiples, `overflow` exactly when the rounded
      multiple does not fit. */
  ghost predicate HalfOnGrid(s: int, grid: pos, mode: Mode, bits: pos, r: Result<int>) {
    && (forall v: int :: r == Ok(v) <==> Fits(v, bits) && exists m: int :: IsRounded(s, 2 * grid, mode, m) && v == m * grid)
    && (r == Err(Inexact) <==> mode.Exact? && !Divides(s, 2 * grid))
    && (r == Err(Overflow) <==> exists m: int :: IsRounded(s, 2 * grid, mode, m) && !Fits(m * grid, bits))
  }

  lemma MidpointIsHalf(a: int, b: int, current: nat, target: nat, mode: Mode, bits: nat)
    requires 8 <= bits && Fits(a, bits) && Fits(b, bits)
    ensures target > current <==> MidpointTo(a, b, current, target, mode, bits) == Err(InvalidPrecision)
    ensures target <= current ==>
              HalfOnGrid(a + b, Pow10(current - target), mode, bits, MidpointTo(a, b, current, target, mode, bits))
  {
    SumRange(a, b, bits);
    OnlyRoundingErrors(a + b, 2, mode, bits);
    if target <= current {
      MidpointUnfolds(a, b, current, target, mode, bits);
      if target < current { GridIsEven(current - target); } else { assert Pow10(0) == 1; }
      hide *;
      NeverTooLarge(a + b, Pow10(current - target), mode, bits);
      HalfOf(a + b, Pow10(current - target), mode, bits);
      if target < current { OnlyRoundingErrors(a + b, 2 * Pow10(current - target), mode, bits); }
    }
  }

  lemma OnlyRoundingErrors(s: int, den: pos, mode: Mode, bits: pos)
    ensures Evaluate(s, den, mode, bits) != Err(InvalidPrecision)
    ensures forall grid: nat :: OnGrid(Evaluate(s, den, mode, bits), grid, bits) != Err(InvalidPrecision)
  {
  }

  lemma MidpointUnfolds(a: int, b: int, current: nat, target: nat, mode: Mode, bits: pos)
    requires target <= current
    ensures MidpointTo(a, b, current, target, mode, bits)
            == OnGrid(Evaluate(a + b, 2 * Pow10(current - target), mode, bits), Pow10(current - target), bits)
  {
    assert Pow10(0) == 1;
    var r := Evaluate(a + b, 2, mode, bits);
    if r.Ok? { EvaluateContract(a + b, 2, mode, bits, r.value); }
    hide Evaluate;
  }

  /** Half of a sum of stored values is far enough inside the range. */
  lemma NeverTooLarge(s: int, grid: pos, mode: Mode, bits: nat)
    requires 8 <= bits && SumFits(s, bits) && (grid == 1 || 10 <= grid)
    ensures var e := Evaluate(s, 2 * grid, mode, bits); e.Ok? || (mode.Exact? && e == Err(Inexact))
  {
    if grid == 1 {
      FloorFits(s, s / 2, s % 2 != 0, bits);
      FloorIsLower(s, s / 2, s % 2 != 0, mode, bits);
    } else {
      HalfFits(s, grid, mode, bits);
      hide Quot, Rem, Limit;
    }
  }

  lemma HalfOf(s: int, grid: pos, mode: Mode, bits: pos)
    requires var e := Evaluate(s, 2 * grid, mode, bits); e.Ok? || (mode.Exact? && e == Err(Inexact))
    ensures HalfOnGrid(s, grid, mode, bits, OnGrid(Evaluate(s, 2 * grid, mode, bits), grid, bits))
  {
    var e, den := Evaluate(s, 2 * grid, mode, bits), 2 * grid;
    EvaluateContract(s, den, mode, bits, if e.Ok? then e.value else 0);
    hide Evaluate, Fits, Divides, IsRounded;
    if e.Ok? {
      forall m | IsRounded(s, den, mode, m) ensures m == e.value { Meaning.OneInteger(s, den, mode, m, e.value); }
      if mode.Exact? { ExactDivides(s, den, e.value); }
    } else {
      forall m ensures !IsRounded(s, den, mode, m) { if IsRounded(s, den, mode, m) { ExactDivides(s, den, m); } }
    }
  }

  lemma ExactDivides(s: int, den: pos, m: int)
    requires IsRounded(s, den, Exact, m)
    ensures Divides(s, den)
  {
    AbsScale(m, den);
    QuotUnique(Abs(s), den, Abs(m), 0);
  }

  /** The second midpoint: floor first, then shift or switch the mode so that quantize rounds
      the true half exactly once. */
  method MiddleTo(a: int, b: int, current: nat, target: nat, mode: Mode, bits: nat) returns (r: Result<int>)
    requires Public.Operand(a, bits) && Public.Operand(b, bits) && current <= Public.MaxDecimals(bits)
    ensures r == MidpointTo(a, b, current, target, mode, bits)
    ensures target > current <==> r == Err(InvalidPrecision)
    ensures target <= current ==> HalfOnGrid(a + b, Pow10(current - target), mode, bits, r)
  {
    MidpointIsHalf(a, b, current, target, mode, bits);
    if target > current { return Err(InvalidPrecision); }
    if target == current {
      r := Middle(a, b, mode, bits);
      return;
    }
    var floor := Middle(a, b, Floor, bits);
    FloorOfSum(a, b, floor.value, bits);
    hide *;
    var odd := Xor(a, b, bits - 1) % 2 != 0;
    r := QuantizeHalf(floor.value, a + b, odd, current, target, mode, bits);
  }

  /** The true half is the floor, or half a unit above it. */
  method QuantizeHalf(floor: int, ghost s: int, odd: bool, current: nat, target: nat, mode: Mode, bits: nat) returns (r: Result<int>)
    requires Public.Operand(floor, bits) && SumFits(s, bits) && target < current <= Public.MaxDecimals(bits)
    requires s == 2 * floor + if odd then 1 else 0
    ensures r == OnGrid(Evaluate(s, 2 * Pow10(current - target), mode, bits), Pow10(current - target), bits)
  {
    GridIsEven(current - target);
    GridIsStored(current - target, bits);
    FloorFits(s, floor, odd, bits);
    hide *;
    var grid := Pow10(current - target);
    if odd {
      if mode.Exact? {
        OddIsInexact(s, grid, bits);
        return Err(Inexact);
      }
      var lower, rounding := Hand(floor, s, grid, mode, bits);
      RoundsTheHalf(s, grid, lower, mode, rounding, bits);
      QuantizeOnGrid(lower, current, target, rounding, bits);
      r := Public.Quantize(lower, current, target, rounding, bits);
    } else {
      EvenHalf(s, floor, grid, mode, bits);
      QuantizeOnGrid(floor, current, target, mode, bits);
      r := Public.Quantize(floor, current, target, mode, bits);
    }
  }

  lemma EvenHalf(s: int, floor: int, grid: pos, mode: Mode, bits: pos)
    requires s == 2 * floor
    ensures Evaluate(s, 2 * grid, mode, bits) == Evaluate(floor, grid, mode, bits)
  {
    EvaluateScale(floor, grid, 2, mode, bits);
  }

  lemma QuantizeOnGrid(a: int, current: nat, target: nat, mode: Mode, bits: pos)
    requires target < current
    ensures Operations.Quantize(a, current, target, mode, bits)
            == OnGrid(Evaluate(a, Pow10(current - target), mode, bits), Pow10(current - target), bits)
  {
  }

  /** Step up, or round a coarse tie upwards, because the true half lies just above the floor. */
  method Hand(floor: int, ghost s: int, grid: nat, mode: Mode, bits: nat) returns (lower: int, rounding: Mode)
    requires Public.Operand(floor, bits) && Fits(floor + 1, bits) && Public.Operand(grid, bits)
    requires s == 2 * floor + 1 && 10 <= grid && grid % 2 == 0 && !mode.Exact?
    ensures Handed(s, grid, lower, mode, rounding) && Fits(lower, bits)
  {
    lower, rounding := floor, mode;
    if mode.Ceil? || (mode.TowardZero? && lower < 0) {
      lower := lower + 1;
    } else if mode.NearestEven? || mode.NearestAway? {
      var rem := Public.Remainder(lower, grid, bits);
      if rem.value == grid / 2 || rem.value == 0 - grid / 2 { rounding := Ceil; }
    }
  }

  /** A power of ten up to the scale of the type is a stored value. */
  lemma GridIsStored(k: nat, bits: nat)
    requires Width(bits) && k <= Public.MaxDecimals(bits)
    ensures Fits(Pow10(k), bits)
  {
    Pow10BitsBound(k);
    PowMono(2, Pow10Bits(k), bits - 1);
  }

  lemma FloorOfSum(a: int, b: int, floor: int, bits: pos)
    requires Fits(a, bits) && Fits(b, bits) && Evaluate(a + b, 2, Floor, bits) == Ok(floor)
    ensures a + b == 2 * floor + (if Xor(a, b, bits - 1) % 2 != 0 then 1 else 0) && SumFits(a + b, bits)
  {
    SumOfBits(a, b, bits - 1);
    SumRange(a, b, bits);
    hide And, Xor, Evaluate, Pow;
    FloorValue(a + b, floor, bits);
    ParityOfSum(a + b, And(a, b, bits - 1), Xor(a, b, bits - 1));
  }

  lemma ParityOfSum(s: int, x: int, y: int)
    requires s == 2 * x + y
    ensures s % 2 == y % 2
  {
  }

  lemma FloorValue(s: int, lower: int, bits: pos)
    requires Evaluate(s, 2, Floor, bits) == Ok(lower)
    ensures s == 2 * lower + s % 2
  {
    EvaluateContract(s, 2, Floor, bits, lower);
  }

  lemma GridIsEven(k: pos)
    ensures Pow10(k) >= 10 && Pow10(k) % 2 == 0
  {
    assert Pow10(k) == 10 * Pow(10, k - 1);
  }

  /** No grid point or truncation is anywhere near the limits. */
  lemma HalfFits(s: int, grid: nat, mode: Mode, bits: nat)
    requires 8 <= bits && 10 <= grid && SumFits(s, bits)
    ensures Quot(Abs(s), 2 * grid) < Limit(bits, s < 0)
    ensures !mode.Exact? ==> Evaluate(s, 2 * grid, mode, bits).Ok?
  {
    var q := Quot(Abs(s), 2 * grid);
    QuotRem(Abs(s), 2 * grid);
    MulMono(20, 2 * grid, q);
    assert Pow(2, 7) == 128;
    PowMono(2, 7, bits - 1);
    hide Pow, Quot, Rem;
  }

  lemma OddIsInexact(s: int, grid: nat, bits: nat)
    requires 8 <= bits && 10 <= grid && s % 2 != 0 && SumFits(s, bits)
    ensures OnGrid(Evaluate(s, 2 * grid, Exact, bits), grid, bits) == Err(Inexact)
  {
    HalfFits(s, grid, Exact, bits);
    NotDivided(s, grid);
    hide Pow, Quot, Rem, Evaluate, IsRounded, Divides;
    EvaluateContract(s, 2 * grid, Exact, bits, 0);
  }

  lemma NotDivided(s: int, grid: pos)
    requires s % 2 != 0
    ensures !Divides(s, 2 * grid)
  {
    QuotRem(Abs(s), 2 * grid);
    MoveFactor(2, Quot(Abs(s), 2 * grid), grid);
    hide Quot, Rem;
    OddIsNoMultiple(s, Quot(Abs(s), 2 * grid) * grid, Rem(Abs(s), 2 * grid));
  }

  lemma OddIsNoMultiple(s: int, half: int, rem: int)
    requires s % 2 != 0 && Abs(s) == 2 * half + rem
    ensures rem != 0
  {
  }

  /** How the odd sum's half is handed to quantize. */
  predicate Handed(s: int, grid: pos, lower: int, mode: Mode, rounding: Mode)
  {
    var floor := s / 2;
    match mode
    case TowardZero => rounding == mode && lower == if floor < 0 then floor + 1 else floor
    case Floor => rounding == mode && lower == floor
    case Ceil => rounding == mode && lower == floor + 1
    case NearestEven => lower == floor && rounding == if 2 * Rem(Abs(floor), grid) == grid then Ceil else mode
    case NearestAway => lower == floor && rounding == if 2 * Rem(Abs(floor), grid) == grid then Ceil else mode
    case Exact => false
  }

  lemma RoundsTheHalf(s: int, grid: nat, lower: int, mode: Mode, rounding: Mode, bits: nat)
    requires 8 <= bits && 10 <= grid && grid % 2 == 0 && s % 2 != 0
    requires SumFits(s, bits)
    requires Handed(s, grid, lower, mode, rounding)
    ensures Evaluate(lower, grid, rounding, bits) == Evaluate(s, 2 * grid, mode, bits)
  {
    HalfFits(s, grid, mode, bits);
    hide Evaluate, Pow, IsRounded;
    var r := Evaluate(s, 2 * grid, mode, bits).value;
    EvaluateContract(s, 2 * grid, mode, bits, r);
    SameRounding(s, grid, lower, mode, rounding, r);
    EvaluateContract(lower, grid, rounding, bits, r);
  }

  /** Rounding the half is rounding what quantize is given. */
  lemma SameRounding(s: int, grid: nat, lower: int, mode: Mode, rounding: Mode, r: int)
    requires 10 <= grid && grid % 2 == 0 && s % 2 != 0 && Handed(s, grid, lower, mode, rounding)
    requires IsRounded(s, 2 * grid, mode, r)
    ensures IsRounded(lower, grid, rounding, r)
  {
    MoveFactor(2, r, grid);
    MoveFactor(2, Abs(r), grid);
    AbsScale(r, grid);
    ByProducts(s, 2 * grid, mode, r);
    ByProducts(lower, grid, rounding, r);
    var p := r * grid;
    if mode.NearestEven? || mode.NearestAway? {
      assert 2 * Abs(2 * p - s) <= 2 * grid;
      NearestHalf(s, grid, r, p);
    }
    hide IsRounded, Rem;
    HalfProducts(s, grid, lower, mode, rounding, r, p);
  }

  /** The same on the product of the rounded value with the grid. */
  lemma HalfProducts(s: int, grid: nat, lower: int, mode: Mode, rounding: Mode, r: int, p: int)
    requires 10 <= grid && grid % 2 == 0 && s % 2 != 0 && Handed(s, grid, lower, mode, rounding)
    requires RoundedBy(mode, 2 * grid, r, 2 * p - s, 2 * Abs(p), Abs(s))
    requires mode.NearestEven? || mode.NearestAway? ==>
               if 2 * Rem(Abs(s / 2), grid) == grid then 0 <= p - s / 2 < grid else 2 * Abs(p - s / 2) < grid
    ensures RoundedBy(rounding, grid, r, p - lower, Abs(p), Abs(lower))
  {
    hide Rem;
  }

  lemma NearestHalf(s: int, grid: nat, r: int, p: int)
    requires 10 <= grid && grid % 2 == 0 && s % 2 != 0 && p == r * grid && 2 * Abs(2 * p - s) <= 2 * grid
    ensures if 2 * Rem(Abs(s / 2), grid) == grid then 0 <= p - s / 2 < grid else 2 * Abs(p - s / 2) < grid
  {
    TieOfFloor(s / 2, grid, r, p - s / 2);
  }

  /** The floor sits on a coarse tie exactly when the error is half a grid step. */
  lemma TieOfFloor(floor: int, grid: nat, r: int, e: int)
    requires 10 <= grid && grid % 2 == 0 && e == r * grid - floor && 0 - grid < 2 * e - 1 < grid
    ensures 2 * Rem(Abs(floor), grid) == grid <==> 2 * e == grid
  {
    var q: int, rem: int := Quot(Abs(floor), grid), Rem(Abs(floor), grid);
    QuotRem(Abs(floor), grid);
    var k: int := if floor < 0 then -q else q;
    assert floor < 0 ==> (-q) * grid == -(q * grid);
    var d: int := if floor < 0 then -rem else rem;
    assert floor == k * grid + d;
    hide *;
    TieArithmetic(r - k, grid, e, d, r, k);
  }

  lemma TieArithmetic(x: int, grid: int, e: int, d: int, r: int, k: int)
    requires grid % 2 == 0 && x == r - k && e == r * grid - (k * grid + d) && 0 - grid < d < grid && 0 - grid < 2 * e - 1 < grid
    ensures 2 * (if d < 0 then 0 - d else d) == grid <==> 2 * e == grid
  {
    assert x * grid == r * grid - k * grid;
    if x >= 2 { MulMono(2, x, grid); } else if x <= -2 { MulMono(x, -2, grid); }
    var m := x * grid;
    assert e == m - d;
    assert x == 1 ==> m == grid;
    assert x == 0 ==> m == 0;
    assert x == -1 ==> m == -grid;
  }
}
