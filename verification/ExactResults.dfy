/** Each operation's promise on the numbers its raws stand for: the real result, rounded once.
    Whatever returns the operation's function therefore returns the one correct result. */
module ExactResults {
  import opened Arith
  import opened Rounding
  import opened Meaning
  import Operations
  import Mixed
  import Midpoint
  import Decimal
  import FromFloat

  // ----- real arithmetic -----

  /** A signed division is the division by the magnitude. */
  lemma DivideIsCorrect(num: int, den: int, mode: Mode, bits: pos, x: real)
    requires den != 0 && x * den as real == num as real
    ensures Correct(x, mode, bits, Operations.Divide(num, den, mode, bits))
  {
    RealMinus(0.0, den as real, x);
    if den < 0 { assert x * (-den) as real == (-num) as real; }
    EvaluateIsCorrect(if den < 0 then -num else num, Abs(den), mode, bits, x);
    hide Evaluate, Correct;
  }

  lemma RealTimes(a: int, b: int)
    ensures (a * b) as real == a as real * b as real
  {
    if b >= 0 { RealProduct(a, b); } else { RealProduct(-a, -b); assert (-a) * (-b) == a * b; }
  }

  /** v, u and w are a, b and c divided by s, t and r. */
  lemma ProductUnits(v: real, s: real, a: real, u: real, t: real, b: real, g: real)
    requires v * s == a && u * t == b
    ensures (v * u * g) * (s * t) == a * b * g
  {
    assert (v * u * g) * (s * t) == v * u * (s * t) * g;
    assert v * u * (s * t) == (v * s) * (u * t);
  }

  lemma QuotientUnits(v: real, s: real, a: real, u: real, t: real, b: real, g: real)
    requires v * s == a && u * t == b && b != 0.0
    ensures u != 0.0 && (v / u * g) * (b * s) == a * t * g
  {
    var q := v / u;
    assert q * u == v;
    assert (q * g) * (u * t * s) == (q * u) * s * t * g;
  }

  lemma ProductQuotientUnits(v: real, s: real, a: real, u: real, t: real, b: real, w: real, r: real, c: real, g: real)
    requires v * s == a && u * t == b && w * r == c && c != 0.0
    ensures w != 0.0 && (v * u / w * g) * (c * (s * t)) == a * b * r * g
  {
    var p := v * u;
    ProductUnits(v, s, a, u, t, b, 1.0);
    QuotientUnits(p, s * t, a * b, w, r, c, g);
  }

  lemma ScaleIs(decimals: nat)
    ensures Scale(decimals) == Pow10(decimals) as real
  {
  }

  // ----- operations on one scale -----

  /** mul: the product of the numbers, in units of the last place. */
  lemma Mul(a: int, b: int, decimals: nat, mode: Mode, bits: pos)
    ensures Correct(Value(a, decimals) * Value(b, decimals) * Scale(decimals), mode, bits,
                    Operations.Mul(a, b, decimals, mode, bits))
  {
    hide Value, Scale, Pow, Evaluate, Correct;
    ScaleIs(decimals);
    assert Operations.Mul(a, b, decimals, mode, bits) == Evaluate(a * b, Pow10(decimals), mode, bits);
    ValueTimes(a, decimals);
    ValueTimes(b, decimals);
    RealTimes(a, b);
    ProductUnits(Value(a, decimals), Scale(decimals), a as real, Value(b, decimals), Scale(decimals), b as real, Scale(decimals));
    OneScaleLess(Value(a, decimals) * Value(b, decimals) * Scale(decimals), Scale(decimals), a as real * b as real);
    hide *;
    EvaluateIsCorrect(a * b, Pow10(decimals), mode, bits, Value(a, decimals) * Value(b, decimals) * Scale(decimals));
  }

  lemma OneScaleLess(x: real, s: real, y: real)
    requires 0.0 < s && x * (s * s) == y * s
    ensures x * s == y
  {
    RealOrder(x * s, y, s);
    assert x * (s * s) == x * s * s;
  }

  /** div: the quotient of the numbers. */
  lemma Div(a: int, b: int, decimals: nat, mode: Mode, bits: pos)
    requires b != 0
    ensures Value(b, decimals) != 0.0
    ensures Correct(Value(a, decimals) / Value(b, decimals) * Scale(decimals), mode, bits,
                    Operations.Div(a, b, decimals, mode, bits))
  {
    hide Value, Scale, Pow, Evaluate, Correct;
    ScaleIs(decimals);
    assert Operations.Div(a, b, decimals, mode, bits) == Operations.Divide(a * Pow10(decimals), b, mode, bits);
    ValueTimes(a, decimals);
    ValueTimes(b, decimals);
    RealProduct(a, Pow10(decimals));
    QuotientUnits(Value(a, decimals), Scale(decimals), a as real, Value(b, decimals), Scale(decimals), b as real,
                  Scale(decimals));
    hide *;
    Regrouped(Value(a, decimals) / Value(b, decimals) * Scale(decimals), b as real, Scale(decimals), a as real * Scale(decimals));
    DivideIsCorrect(a * Pow10(decimals), b, mode, bits, Value(a, decimals) / Value(b, decimals) * Scale(decimals));
  }

  lemma Regrouped(x: real, b: real, s: real, y: real)
    requires 0.0 < s && x * (b * s) == y * s
    ensures x * b == y
  {
    RealOrder(x * b, y, s);
    assert x * (b * s) == x * b * s;
  }

  /** mul_div, at whatever scale the operands share. */
  lemma MulDiv(a: int, b: int, c: int, decimals: nat, mode: Mode, bits: pos)
    requires c != 0
    ensures Value(c, decimals) != 0.0
    ensures Correct(Value(a, decimals) * Value(b, decimals) / Value(c, decimals) * Scale(decimals), mode, bits,
                    Operations.MulDiv(a, b, c, mode, bits))
  {
    hide Value, Scale, Pow, Evaluate, Correct;
    assert Operations.MulDiv(a, b, c, mode, bits) == Operations.Divide(a * b, c, mode, bits);
    ValueTimes(a, decimals);
    ValueTimes(b, decimals);
    ValueTimes(c, decimals);
    RealTimes(a, b);
    ProductQuotientUnits(Value(a, decimals), Scale(decimals), a as real, Value(b, decimals), Scale(decimals), b as real,
                         Value(c, decimals), Scale(decimals), c as real, Scale(decimals));
    hide *;
    RegroupedTwice(Value(a, decimals) * Value(b, decimals) / Value(c, decimals) * Scale(decimals), c as real,
                   Scale(decimals), a as real * b as real);
    DivideIsCorrect(a * b, c, mode, bits,
                    Value(a, decimals) * Value(b, decimals) / Value(c, decimals) * Scale(decimals));
  }

  lemma RegroupedTwice(x: real, c: real, s: real, y: real)
    requires 0.0 < s && x * (c * (s * s)) == y * s * s
    ensures x * c == y
  {
    assert x * (c * (s * s)) == x * (c * s) * s;
    RealOrder(x * (c * s), y * s, s);
    Regrouped(x, c, s, y);
  }

  /** A zero divisor is the one other error. */
  lemma ZeroDivisor(a: int, decimals: nat, b: int, db: nat, dc: nat, dd: nat, mode: Mode, bits: pos)
    ensures Operations.Div(a, 0, decimals, mode, bits) == Err(DivisionByZero)
    ensures Operations.MulDiv(a, b, 0, mode, bits) == Err(DivisionByZero)
    ensures Mixed.DivTo(a, decimals, 0, db, dd, mode, bits) == Err(DivisionByZero)
    ensures Mixed.MulDivTo(a, decimals, b, db, 0, dc, dd, mode, bits) == Err(DivisionByZero)
  {
  }

  // ----- operations across scales -----

  lemma RealScaled(a: int, decimals: nat)
    ensures (a * Pow10(decimals)) as real == a as real * Scale(decimals)
  {
    RealProduct(a, Pow10(decimals));
  }

  lemma SumUnits(v: real, s: real, a: real, u: real, t: real, b: real, g: real)
    requires v * s == a && u * t == b
    ensures ((v + u) * g) * (s * t) == (a * t + b * s) * g
  {
    assert ((v + u) * g) * (s * t) == (v * s * t + u * t * s) * g;
  }

  lemma ScaledUnits(v: real, s: real, a: real, g: real)
    requires v * s == a
    ensures (v * g) * s == a * g
  {
  }

  /** fixed_cast: the same number at the destination's scale. */
  lemma CastTo(a: int, da: nat, dd: nat, mode: Mode, bits: pos)
    ensures Correct(Value(a, da) * Scale(dd), mode, bits, Mixed.CastTo(a, da, dd, mode, bits))
  {
    hide Value, Scale, Pow, Evaluate, Correct;
    ScaleIs(da);
    ValueTimes(a, da);
    RealScaled(a, dd);
    ScaledUnits(Value(a, da), Scale(da), a as real, Scale(dd));
    EvaluateIsCorrect(a * Pow10(dd), Pow10(da), mode, bits, Value(a, da) * Scale(dd));
  }

  /** add_to: the sum of the numbers. */
  lemma AddTo(a: int, da: nat, b: int, db: nat, dd: nat, mode: Mode, bits: pos)
    ensures Correct((Value(a, da) + Value(b, db)) * Scale(dd), mode, bits, Mixed.AddTo(a, da, b, db, dd, mode, bits))
  {
    hide Value, Scale, Pow, Evaluate, Correct;
    var num := (a * Pow10(db) + b * Pow10(da)) * Pow10(dd);
    assert Mixed.AddTo(a, da, b, db, dd, mode, bits) == Evaluate(num, Pow10(da + db), mode, bits);
    ValueTimes(a, da);
    ValueTimes(b, db);
    SumUnits(Value(a, da), Scale(da), a as real, Value(b, db), Scale(db), b as real, Scale(dd));
    RealSum(a, da, b, db, dd);
    ScaleIs(da + db);
    ScaleAdd(da, db);
    hide *;
    EvaluateIsCorrect(num, Pow10(da + db), mode, bits, (Value(a, da) + Value(b, db)) * Scale(dd));
  }

  lemma RealSum(a: int, da: nat, b: int, db: nat, dd: nat)
    ensures ((a * Pow10(db) + b * Pow10(da)) * Pow10(dd)) as real
            == (a as real * Scale(db) + b as real * Scale(da)) * Scale(dd)
  {
    hide Pow, Scale;
    RealScaled(a, db);
    RealScaled(b, da);
    RealScaled(a * Pow10(db) + b * Pow10(da), dd);
  }

  /** mul_to: the product of the numbers. */
  lemma MulTo(a: int, da: nat, b: int, db: nat, dd: nat, mode: Mode, bits: pos)
    ensures Correct(Value(a, da) * Value(b, db) * Scale(dd), mode, bits, Mixed.MulTo(a, da, b, db, dd, mode, bits))
  {
    hide Value, Scale, Pow, Evaluate, Correct;
    assert Mixed.MulTo(a, da, b, db, dd, mode, bits) == Evaluate(a * b * Pow10(dd), Pow10(da + db), mode, bits);
    ValueTimes(a, da);
    ValueTimes(b, db);
    RealTimes(a, b);
    RealScaled(a * b, dd);
    ScaleIs(da + db);
    ScaleAdd(da, db);
    ProductUnits(Value(a, da), Scale(da), a as real, Value(b, db), Scale(db), b as real, Scale(dd));
    hide *;
    EvaluateIsCorrect(a * b * Pow10(dd), Pow10(da + db), mode, bits, Value(a, da) * Value(b, db) * Scale(dd));
  }

  /** div_to: the quotient of the numbers. */
  lemma DivTo(a: int, da: nat, b: int, db: nat, dd: nat, mode: Mode, bits: pos)
    requires b != 0
    ensures Value(b, db) != 0.0
    ensures Correct(Value(a, da) / Value(b, db) * Scale(dd), mode, bits, Mixed.DivTo(a, da, b, db, dd, mode, bits))
  {
    hide Value, Scale, Pow, Evaluate, Correct;
    assert Mixed.DivTo(a, da, b, db, dd, mode, bits) == Operations.Divide(a * Pow10(db + dd), b * Pow10(da), mode, bits);
    ValueTimes(a, da);
    ValueTimes(b, db);
    RealScaled(a, db + dd);
    RealScaled(b, da);
    ScaleAdd(db, dd);
    Mixed.NonzeroProduct(b, Pow10(da));
    QuotientUnits(Value(a, da), Scale(da), a as real, Value(b, db), Scale(db), b as real, Scale(dd));
    hide *;
    DivideIsCorrect(a * Pow10(db + dd), b * Pow10(da), mode, bits, Value(a, da) / Value(b, db) * Scale(dd));
  }

  /** mul_div_to: the product of two numbers over a third. */
  lemma MulDivTo(a: int, da: nat, b: int, db: nat, c: int, dc: nat, dd: nat, mode: Mode, bits: pos)
    requires c != 0
    ensures Value(c, dc) != 0.0
    ensures Correct(Value(a, da) * Value(b, db) / Value(c, dc) * Scale(dd), mode, bits,
                    Mixed.MulDivTo(a, da, b, db, c, dc, dd, mode, bits))
  {
    hide Value, Scale, Pow, Evaluate, Correct;
    var num, den := a * b * Pow10(dd + dc), c * Pow10(da + db);
    assert Mixed.MulDivTo(a, da, b, db, c, dc, dd, mode, bits) == Operations.Divide(num, den, mode, bits);
    Mixed.NonzeroProduct(c, Pow10(da + db));
    MulDivUnits(a, da, b, db, c, dc, dd, num, den);
    hide *;
    DivideIsCorrect(num, den, mode, bits, Value(a, da) * Value(b, db) / Value(c, dc) * Scale(dd));
  }

  lemma MulDivUnits(a: int, da: nat, b: int, db: nat, c: int, dc: nat, dd: nat, num: int, den: int)
    requires c != 0 && num == a * b * Pow10(dd + dc) && den == c * Pow10(da + db)
    ensures Value(c, dc) != 0.0
    ensures (Value(a, da) * Value(b, db) / Value(c, dc) * Scale(dd)) * den as real == num as real
  {
    hide Value, Scale, Pow;
    ValueTimes(a, da);
    ValueTimes(b, db);
    ValueTimes(c, dc);
    ProductQuotientUnits(Value(a, da), Scale(da), a as real, Value(b, db), Scale(db), b as real,
                         Value(c, dc), Scale(dc), c as real, Scale(dd));
    RealTimes(a, b);
    RealScaled(a * b, dd + dc);
    RealScaled(c, da + db);
    ScaleAdd(da, db);
    ScaleAdd(dd, dc);
    hide *;
    Commuted(a as real * b as real, Scale(dc), Scale(dd));
  }

  lemma Commuted(y: real, r: real, g: real)
    ensures y * r * g == y * (g * r)
  {
  }

  // ----- results on a coarser grid -----

  lemma OnGridIsCorrect(x: real, grid: pos, mode: Mode, bits: pos, r: Result<int>)
    requires Correct(x, mode, bits, r)
    ensures CorrectOnGrid(x, grid, mode, bits, Operations.OnGrid(r, grid, bits))
  {
    hide PartFits;
    match r
    case Ok(m) =>
      forall n | RoundsTo(x, mode, n) ensures n == m { OneRounding(x, mode, m, n); }
    case Err(e) =>
      forall n ensures Fits(n * grid, bits) ==> Fits(n, bits) { GridGrows(n, grid, bits); }
  }

  lemma GridGrows(n: int, grid: pos, bits: pos)
    ensures Fits(n * grid, bits) ==> Fits(n, bits)
  {
    hide Pow;
    if n >= 0 { MulMono(1, grid, n); } else { MulMono(1, grid, -n); }
    assert (-n) * grid == -(n * grid);
  }

  /** quantize: the number rounded to `target` places, in units of `current` places. */
  lemma Quantize(a: int, current: nat, target: nat, mode: Mode, bits: pos)
    requires Fits(a, bits)
    ensures target > current ==> Operations.Quantize(a, current, target, mode, bits) == Err(InvalidPrecision)
    ensures target <= current ==> CorrectOnGrid(Value(a, current) * Scale(target), Pow10(current - target), mode, bits,
                                                Operations.Quantize(a, current, target, mode, bits))
  {
    if target == current {
      ValueTimes(a, current);
      assert Pow10(0) == 1 && a == a * Pow10(0);
      WholeIsRounded(Value(a, current) * Scale(target), a, mode);
      hide Value, Scale, Pow, Fits, PartFits, RoundsTo;
    } else if target < current {
      hide Value, Scale, Pow, Evaluate, Correct, CorrectOnGrid, Operations.OnGrid;
      GridUnits(a, current, target);
      EvaluateIsCorrect(a, Pow10(current - target), mode, bits, Value(a, current) * Scale(target));
      OnGridIsCorrect(Value(a, current) * Scale(target), Pow10(current - target), mode, bits,
                      Evaluate(a, Pow10(current - target), mode, bits));
    }
  }

  lemma WholeIsRounded(x: real, n: int, mode: Mode)
    requires x == n as real
    ensures RoundsTo(x, mode, n)
  {
  }

  lemma GridUnits(a: int, current: nat, target: nat)
    requires target <= current
    ensures (Value(a, current) * Scale(target)) * Pow10(current - target) as real == a as real
  {
    hide Value, Pow, Scale;
    ScaleAdd(target, current - target);
    ScaleIs(current - target);
    ValueTimes(a, current);
  }

  /** midpoint onto a grid: half the sum of the numbers. */
  lemma MidpointTo(a: int, b: int, current: nat, target: nat, mode: Mode, bits: pos)
    requires target <= current
    ensures CorrectOnGrid((Value(a, current) + Value(b, current)) / 2.0 * Scale(target), Pow10(current - target), mode, bits,
                          Midpoint.MidpointTo(a, b, current, target, mode, bits))
  {
    hide Value, Scale, Evaluate, Correct, CorrectOnGrid, Operations.OnGrid, Fits;
    var grid := Pow10(current - target);
    HalfUnits(a, b, current, target);
    assert Pow10(0) == 1;
    hide Pow;
    EvaluateIsCorrect(a + b, 2 * grid, mode, bits, (Value(a, current) + Value(b, current)) / 2.0 * Scale(target));
    OnGridIsCorrect((Value(a, current) + Value(b, current)) / 2.0 * Scale(target), grid, mode, bits,
                    Evaluate(a + b, 2 * grid, mode, bits));
    if target == current { UnitGrid(a + b, mode, bits); }
  }

  lemma HalfUnits(a: int, b: int, current: nat, target: nat)
    requires target <= current
    ensures ((Value(a, current) + Value(b, current)) / 2.0 * Scale(target)) * (2 * Pow10(current - target)) as real
            == (a + b) as real
  {
    hide Value, Pow, Scale;
    GridUnits(a, current, target);
    GridUnits(b, current, target);
    assert (2 * Pow10(current - target)) as real == 2.0 * Pow10(current - target) as real;
  }

  /** A result already in range stays so on the grid of one. */
  lemma UnitGrid(s: int, mode: Mode, bits: pos)
    ensures Operations.OnGrid(Evaluate(s, 2, mode, bits), 1, bits) == Evaluate(s, 2, mode, bits)
  {
    var r := Evaluate(s, 2, mode, bits);
    if r.Ok? { EvaluateContract(s, 2, mode, bits, r.value); }
  }

  // ----- numbers with an exponent -----

  lemma PowerFraction(base: pos, shift: int)
    ensures Power(base, shift) * Pow(base, Positive(0 - shift)) as real == Pow(base, Positive(shift)) as real
  {
    assert Pow(base, 0) == 1;
    hide Pow;
    if shift < 0 { Fraction(1.0, Pow(base, -shift) as real); }
  }

  /** The number a decimal text writes: its digits times a power of ten. */
  lemma AtScale(m: nat, shift: int, negative: bool, mode: Mode, bits: pos)
    ensures Correct(Signed(m, negative) as real * Power(10, shift), mode, bits, Decimal.AtScale(m, shift, negative, mode, bits))
  {
    hide Power, Pow, Evaluate, Correct, Signed;
    PowerFraction(10, shift);
    RealProduct(Signed(m, negative), Pow10(Positive(shift)));
    PowerUnits(Signed(m, negative) as real, Power(10, shift), Pow10(Positive(0 - shift)) as real, Pow10(Positive(shift)) as real);
    EvaluateIsCorrect(Signed(m, negative) * Pow10(Positive(shift)), Pow10(Positive(0 - shift)), mode, bits,
                      Signed(m, negative) as real * Power(10, shift));
  }

  lemma PowerUnits(n: real, p: real, d: real, u: real)
    requires p * d == u
    ensures (n * p) * d == n * u
  {
  }

  /** The number a decoded binary float stands for. */
  function FloatValue(d: FromFloat.Decoded): real {
    Signed(d.significand, d.negative) as real * Power(2, d.power)
  }

  /** from_float: that number at the scale, or the refusal of what is no number. */
  lemma FloatTo(d: FromFloat.Decoded, decimals: nat, mode: Mode, bits: pos)
    ensures d.invalid ==> FromFloat.FloatTo(d, decimals, mode, bits) == Err(InvalidValue)
    ensures !d.invalid ==> Correct(FloatValue(d) * Scale(decimals), mode, bits, FromFloat.FloatTo(d, decimals, mode, bits))
  {
    hide FloatValue, Scale, Power, Pow, Evaluate, Correct, Signed;
    if !d.invalid {
      FloatNumber(d, decimals);
      EvaluateIsCorrect(Signed(d.significand, d.negative) * Pow10(decimals) * Pow2(Positive(d.power)),
                        Pow2(Positive(0 - d.power)), mode, bits, FloatValue(d) * Scale(decimals));
    }
  }

  lemma FloatNumber(d: FromFloat.Decoded, decimals: nat)
    ensures (FloatValue(d) * Scale(decimals)) * Pow2(Positive(0 - d.power)) as real
            == (Signed(d.significand, d.negative) * Pow10(decimals) * Pow2(Positive(d.power))) as real
  {
    hide Scale, Power, Pow, Signed;
    PowerFraction(2, d.power);
    RealProducts(Signed(d.significand, d.negative), Pow10(decimals), Pow2(Positive(d.power)));
    ScaleIs(decimals);
    FloatUnits(Signed(d.significand, d.negative) as real, Power(2, d.power), Pow2(Positive(0 - d.power)) as real,
               Pow2(Positive(d.power)) as real, Scale(decimals));
  }

  lemma RealProducts(a: int, b: nat, c: nat)
    ensures (a * b * c) as real == a as real * b as real * c as real
  {
    RealProduct(a, b);
    RealProduct(a * b, c);
  }

  lemma FloatUnits(n: real, p: real, d: real, u: real, s: real)
    requires p * d == u
    ensures (n * p * s) * d == n * s * u
  {
    assert (n * p * s) * d == n * s * (p * d);
  }

  // ----- consequences -----

  lemma TenTimes(raw: int, decimals: nat)
    ensures Value(10 * raw, decimals + 1) == Value(raw, decimals)
  {
    assert Scale(decimals + 1) == 10.0 * Scale(decimals);
    assert (10 * raw) as real == 10.0 * raw as real;
    hide Scale;
    CancelTen(raw as real, Scale(decimals));
  }

  lemma CancelTen(x: real, s: real)
    requires s > 0.0
    ensures (10.0 * x) / (10.0 * s) == x / s
  {
    var q := x / s;
    assert q * s == x;
    assert q * (10.0 * s) == 10.0 * x;
  }

  function NumberAt(p: real, dd: nat): real {
    p * Scale(dd)
  }

  lemma CastIsAt(a: int, da: nat, dd: nat, mode: Mode, bits: pos)
    ensures Correct(NumberAt(Value(a, da), dd), mode, bits, Mixed.CastTo(a, da, dd, mode, bits))
  {
    hide Value, Scale, Correct, Mixed.CastTo;
    CastTo(a, da, dd, mode, bits);
  }

  lemma FloatIsAt(d: FromFloat.Decoded, decimals: nat, mode: Mode, bits: pos)
    requires !d.invalid
    ensures Correct(NumberAt(FloatValue(d), decimals), mode, bits, FromFloat.FloatTo(d, decimals, mode, bits))
  {
    hide FloatValue, Scale, Correct, FromFloat.FloatTo;
    FloatTo(d, decimals, mode, bits);
  }

  /** How an operand is written does not matter: a number at one more decimal is the same number. */
  lemma CastScaleFree(a: int, da: nat, dd: nat, mode: Mode, bits: pos)
    ensures Mixed.CastTo(10 * a, da + 1, dd, mode, bits) == Mixed.CastTo(a, da, dd, mode, bits)
  {
    hide *;
    TenTimes(a, da);
    CastIsAt(a, da, dd, mode, bits);
    CastIsAt(10 * a, da + 1, dd, mode, bits);
    OneCorrect(NumberAt(Value(a, da), dd), mode, bits, Mixed.CastTo(10 * a, da + 1, dd, mode, bits),
               Mixed.CastTo(a, da, dd, mode, bits));
  }

  function SumAt(p: real, q: real, dd: nat): real
  {
    (p + q) * Scale(dd)
  }

  lemma AddIsAt(a: int, da: nat, b: int, db: nat, dd: nat, mode: Mode, bits: pos)
    ensures Correct(SumAt(Value(a, da), Value(b, db), dd), mode, bits, Mixed.AddTo(a, da, b, db, dd, mode, bits))
  {
    hide Value, Scale, Correct, Mixed.AddTo;
    AddTo(a, da, b, db, dd, mode, bits);
  }

  lemma AddScaleFree(a: int, da: nat, b: int, db: nat, dd: nat, mode: Mode, bits: pos)
    ensures Mixed.AddTo(10 * a, da + 1, b, db, dd, mode, bits) == Mixed.AddTo(a, da, b, db, dd, mode, bits)
    ensures Mixed.AddTo(a, da, 10 * b, db + 1, dd, mode, bits) == Mixed.AddTo(a, da, b, db, dd, mode, bits)
  {
    hide *;
    TenTimes(a, da);
    TenTimes(b, db);
    AddIsAt(a, da, b, db, dd, mode, bits);
    var x, r := SumAt(Value(a, da), Value(b, db), dd), Mixed.AddTo(a, da, b, db, dd, mode, bits);
    AddIsAt(10 * a, da + 1, b, db, dd, mode, bits);
    OneCorrect(x, mode, bits, Mixed.AddTo(10 * a, da + 1, b, db, dd, mode, bits), r);
    AddIsAt(a, da, 10 * b, db + 1, dd, mode, bits);
    OneCorrect(x, mode, bits, Mixed.AddTo(a, da, 10 * b, db + 1, dd, mode, bits), r);
  }

  function ProductAt(p: real, q: real, dd: nat): real
  {
    p * q * Scale(dd)
  }

  lemma MulIsAt(a: int, da: nat, b: int, db: nat, dd: nat, mode: Mode, bits: pos)
    ensures Correct(ProductAt(Value(a, da), Value(b, db), dd), mode, bits, Mixed.MulTo(a, da, b, db, dd, mode, bits))
  {
    hide Value, Scale, Correct, Mixed.MulTo;
    MulTo(a, da, b, db, dd, mode, bits);
  }

  lemma MulScaleFree(a: int, da: nat, b: int, db: nat, dd: nat, mode: Mode, bits: pos)
    ensures Mixed.MulTo(10 * a, da + 1, b, db, dd, mode, bits) == Mixed.MulTo(a, da, b, db, dd, mode, bits)
    ensures Mixed.MulTo(a, da, 10 * b, db + 1, dd, mode, bits) == Mixed.MulTo(a, da, b, db, dd, mode, bits)
  {
    hide *;
    TenTimes(a, da);
    TenTimes(b, db);
    MulIsAt(a, da, b, db, dd, mode, bits);
    var x, r := ProductAt(Value(a, da), Value(b, db), dd), Mixed.MulTo(a, da, b, db, dd, mode, bits);
    MulIsAt(10 * a, da + 1, b, db, dd, mode, bits);
    OneCorrect(x, mode, bits, Mixed.MulTo(10 * a, da + 1, b, db, dd, mode, bits), r);
    MulIsAt(a, da, 10 * b, db + 1, dd, mode, bits);
    OneCorrect(x, mode, bits, Mixed.MulTo(a, da, 10 * b, db + 1, dd, mode, bits), r);
  }

  function QuotientAt(p: real, q: real, dd: nat): real
    requires q != 0.0
  {
    p / q * Scale(dd)
  }

  lemma DivIsAt(a: int, da: nat, b: int, db: nat, dd: nat, mode: Mode, bits: pos)
    requires b != 0
    ensures Value(b, db) != 0.0
    ensures Correct(QuotientAt(Value(a, da), Value(b, db), dd), mode, bits, Mixed.DivTo(a, da, b, db, dd, mode, bits))
  {
    hide Value, Scale, Correct, Mixed.DivTo;
    DivTo(a, da, b, db, dd, mode, bits);
  }

  lemma DivScaleFree(a: int, da: nat, b: int, db: nat, dd: nat, mode: Mode, bits: pos)
    ensures Mixed.DivTo(10 * a, da + 1, b, db, dd, mode, bits) == Mixed.DivTo(a, da, b, db, dd, mode, bits)
    ensures Mixed.DivTo(a, da, 10 * b, db + 1, dd, mode, bits) == Mixed.DivTo(a, da, b, db, dd, mode, bits)
  {
    if b != 0 {
      hide *;
      TenTimes(a, da);
      TenTimes(b, db);
      DivIsAt(a, da, b, db, dd, mode, bits);
      var x, r := QuotientAt(Value(a, da), Value(b, db), dd), Mixed.DivTo(a, da, b, db, dd, mode, bits);
      DivIsAt(10 * a, da + 1, b, db, dd, mode, bits);
      OneCorrect(x, mode, bits, Mixed.DivTo(10 * a, da + 1, b, db, dd, mode, bits), r);
      DivIsAt(a, da, 10 * b, db + 1, dd, mode, bits);
      OneCorrect(x, mode, bits, Mixed.DivTo(a, da, 10 * b, db + 1, dd, mode, bits), r);
    }
  }

  function ProductQuotientAt(p: real, q: real, w: real, dd: nat): real
    requires w != 0.0
  {
    p * q / w * Scale(dd)
  }

  lemma MulDivIsAt(a: int, da: nat, b: int, db: nat, c: int, dc: nat, dd: nat, mode: Mode, bits: pos)
    requires c != 0
    ensures Value(c, dc) != 0.0
    ensures Correct(ProductQuotientAt(Value(a, da), Value(b, db), Value(c, dc), dd), mode, bits,
                    Mixed.MulDivTo(a, da, b, db, c, dc, dd, mode, bits))
  {
    hide Value, Scale, Correct, Mixed.MulDivTo;
    MulDivTo(a, da, b, db, c, dc, dd, mode, bits);
  }

  lemma MulDivScaleFree(a: int, da: nat, b: int, db: nat, c: int, dc: nat, dd: nat, mode: Mode, bits: pos)
    ensures Mixed.MulDivTo(10 * a, da + 1, b, db, c, dc, dd, mode, bits) == Mixed.MulDivTo(a, da, b, db, c, dc, dd, mode, bits)
    ensures Mixed.MulDivTo(a, da, 10 * b, db + 1, c, dc, dd, mode, bits) == Mixed.MulDivTo(a, da, b, db, c, dc, dd, mode, bits)
    ensures Mixed.MulDivTo(a, da, b, db, 10 * c, dc + 1, dd, mode, bits) == Mixed.MulDivTo(a, da, b, db, c, dc, dd, mode, bits)
  {
    if c != 0 {
      hide *;
      TenTimes(a, da);
      TenTimes(b, db);
      TenTimes(c, dc);
      MulDivIsAt(a, da, b, db, c, dc, dd, mode, bits);
      var x := ProductQuotientAt(Value(a, da), Value(b, db), Value(c, dc), dd);
      var r := Mixed.MulDivTo(a, da, b, db, c, dc, dd, mode, bits);
      MulDivIsAt(10 * a, da + 1, b, db, c, dc, dd, mode, bits);
      OneCorrect(x, mode, bits, Mixed.MulDivTo(10 * a, da + 1, b, db, c, dc, dd, mode, bits), r);
      MulDivIsAt(a, da, 10 * b, db + 1, c, dc, dd, mode, bits);
      OneCorrect(x, mode, bits, Mixed.MulDivTo(a, da, 10 * b, db + 1, c, dc, dd, mode, bits), r);
      MulDivIsAt(a, da, b, db, 10 * c, dc + 1, dd, mode, bits);
      OneCorrect(x, mode, bits, Mixed.MulDivTo(a, da, b, db, 10 * c, dc + 1, dd, mode, bits), r);
    }
  }

  /** An exact number that fits is the result in every mode. */
  lemma ExactNumber(x: real, mode: Mode, bits: pos, r: Result<int>, v: int)
    requires Correct(x, mode, bits, r) && x == v as real && Fits(v, bits)
    ensures r == Ok(v)
  {
    OneCorrect(x, mode, bits, r, Ok(v));
  }

  /** Otherwise it is out of range in every mode. */
  lemma WholeNumber(x: real, n: int, mode: Mode, bits: pos, r: Result<int>)
    requires Correct(x, mode, bits, r) && x == n as real
    ensures r == if Fits(n, bits) then Ok(n) else Err(Overflow)
  {
    if !Fits(n, bits) {
      WholePart(x, n, bits);
      WholeIsRounded(x, n, mode);
      forall v | RoundsTo(x, mode, v) ensures v == n { OneRounding(x, mode, v, n); }
      hide Fits, RoundsTo, PartFits;
      OneCorrect(x, mode, bits, r, Err(Overflow));
    } else {
      WholeIsRounded(x, n, mode);
      ExactNumber(x, mode, bits, r, n);
    }
  }

  lemma WholePart(x: real, n: int, bits: pos)
    requires x == n as real && !Fits(n, bits)
    ensures !PartFits(x, bits)
  {
  }

  /** div_to on an exact quotient: v at dd decimals times b is a. */
  lemma DivExactly(a: int, da: nat, b: int, db: nat, dd: nat, v: int, mode: Mode, bits: pos)
    requires b != 0 && Value(v, dd) * Value(b, db) == Value(a, da) && Fits(v, bits)
    ensures Mixed.DivTo(a, da, b, db, dd, mode, bits) == Ok(v)
  {
    hide *;
    DivTo(a, da, b, db, dd, mode, bits);
    ValueTimes(v, dd);
    assert Value(a, da) / Value(b, db) == Value(v, dd);
    ExactNumber(Value(a, da) / Value(b, db) * Scale(dd), mode, bits, Mixed.DivTo(a, da, b, db, dd, mode, bits), v);
  }

  lemma MulExactly(a: int, da: nat, b: int, db: nat, dd: nat, v: int, mode: Mode, bits: pos)
    requires Value(v, dd) == Value(a, da) * Value(b, db) && Fits(v, bits)
    ensures Mixed.MulTo(a, da, b, db, dd, mode, bits) == Ok(v)
  {
    hide *;
    MulTo(a, da, b, db, dd, mode, bits);
    ValueTimes(v, dd);
    ExactNumber(Value(a, da) * Value(b, db) * Scale(dd), mode, bits, Mixed.MulTo(a, da, b, db, dd, mode, bits), v);
  }

  lemma AddExactly(a: int, da: nat, b: int, db: nat, dd: nat, v: int, mode: Mode, bits: pos)
    requires Value(v, dd) == Value(a, da) + Value(b, db) && Fits(v, bits)
    ensures Mixed.AddTo(a, da, b, db, dd, mode, bits) == Ok(v)
  {
    hide *;
    AddTo(a, da, b, db, dd, mode, bits);
    ValueTimes(v, dd);
    ExactNumber((Value(a, da) + Value(b, db)) * Scale(dd), mode, bits, Mixed.AddTo(a, da, b, db, dd, mode, bits), v);
  }

  lemma CastExactly(a: int, da: nat, dd: nat, v: int, mode: Mode, bits: pos)
    requires Value(v, dd) == Value(a, da) && Fits(v, bits)
    ensures Mixed.CastTo(a, da, dd, mode, bits) == Ok(v)
  {
    hide *;
    CastTo(a, da, dd, mode, bits);
    ValueTimes(v, dd);
    ExactNumber(Value(a, da) * Scale(dd), mode, bits, Mixed.CastTo(a, da, dd, mode, bits), v);
  }

  lemma MulDivExactly(a: int, da: nat, b: int, db: nat, c: int, dc: nat, dd: nat, v: int, mode: Mode, bits: pos)
    requires c != 0 && Value(v, dd) * Value(c, dc) == Value(a, da) * Value(b, db) && Fits(v, bits)
    ensures Mixed.MulDivTo(a, da, b, db, c, dc, dd, mode, bits) == Ok(v)
  {
    hide *;
    MulDivTo(a, da, b, db, c, dc, dd, mode, bits);
    ValueTimes(v, dd);
    assert Value(a, da) * Value(b, db) / Value(c, dc) == Value(v, dd);
    ExactNumber(Value(a, da) * Value(b, db) / Value(c, dc) * Scale(dd), mode, bits,
                Mixed.MulDivTo(a, da, b, db, c, dc, dd, mode, bits), v);
  }

  /** On whole numbers div_to is the division itself. */
  lemma DivOfWholes(a: int, b: int, mode: Mode, bits: pos)
    ensures Mixed.DivTo(a, 0, b, 0, 0, mode, bits) == Operations.Divide(a, b, mode, bits)
    ensures Mixed.DivTo(10, 1, 2, 0, 2, NearestEven, 64) == Ok(50)
  {
    assert Pow10(0) == 1 && Pow10(1) == 10 && Pow10(2) == 100;
    QuotUnique(1000, 20, 50, 0);
    Half64();
  }

  lemma Half64()
    ensures Pow2(63) == 0x8000_0000_0000_0000
  {
    Pow2Words();
  }
}
