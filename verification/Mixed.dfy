/** Mixed widths and scales: an exact rational formed in the smallest limb tier that a bit
    bound proves sufficient, then rounded once into the destination. */
module Mixed {
  import opened Arith
  import opened Words
  import opened Rounding
  import opened Operations
  import opened Limbs
  import opened Signs
  import opened Kernels256
  import Knuth

  // ----- what each operation means -----

  /** a * 10^-da at dd decimals. */
  function CastTo(a: int, da: nat, dd: nat, mode: Mode, bits: pos): Result<int>
  {
    Evaluate(a * Pow10(dd), Pow10(da), mode, bits)
  }

  function AddTo(a: int, da: nat, b: int, db: nat, dd: nat, mode: Mode, bits: pos): Result<int>
  {
    Evaluate((a * Pow10(db) + b * Pow10(da)) * Pow10(dd), Pow10(da + db), mode, bits)
  }

  function MulTo(a: int, da: nat, b: int, db: nat, dd: nat, mode: Mode, bits: pos): Result<int>
  {
    Evaluate(a * b * Pow10(dd), Pow10(da + db), mode, bits)
  }

  function DivTo(a: int, da: nat, b: int, db: nat, dd: nat, mode: Mode, bits: pos): Result<int>
  {
    Divide(a * Pow10(db + dd), b * Pow10(da), mode, bits)
  }

  function MulDivTo(a: int, da: nat, b: int, db: nat, c: int, dc: nat, dd: nat, mode: Mode, bits: pos): Result<int>
  {
    Divide(a * b * Pow10(dd + dc), c * Pow10(da + db), mode, bits)
  }

  // ----- the common power of ten -----

  function Up(x: nat, y: nat): nat { Positive(x - y) }

  /** Only the difference of the two exponents matters. */
  lemma Reduce(n: int, d: pos, x: nat, y: nat, mode: Mode, bits: pos)
    ensures 0 < d * Pow10(y) && 0 < d * Pow10(Up(y, x))
    ensures Evaluate(n * Pow10(x), d * Pow10(y), mode, bits)
            == Evaluate(n * Pow10(Up(x, y)), d * Pow10(Up(y, x)), mode, bits)
  {
    var m := if x < y then x else y;
    PowAdd(10, Up(x, y), m);
    PowAdd(10, Up(y, x), m);
    hide *;
    MulMono(1, d, Pow10(Up(y, x)));
    Regroup(n, Pow10(Up(x, y)), Pow10(m));
    Regroup(d, Pow10(Up(y, x)), Pow10(m));
    EvaluateScale(n * Pow10(Up(x, y)), d * Pow10(Up(y, x)), Pow10(m), mode, bits);
    UpOf(x, y, m);
  }

  lemma UpOf(x: nat, y: nat, m: nat)
    requires m == if x < y then x else y
    ensures Up(x, y) + m == x && Up(y, x) + m == y
  {
  }

  /** The same with a signed divisor. */
  lemma ReduceDivide(n: int, d: int, x: nat, y: nat, mode: Mode, bits: pos)
    requires d != 0
    ensures 0 < Abs(d) * Pow10(Up(y, x))
    ensures Divide(n * Pow10(x), d * Pow10(y), mode, bits)
            == Evaluate(Signed(Abs(n) * Pow10(Up(x, y)), (n < 0) != (d < 0)), Abs(d) * Pow10(Up(y, x)), mode, bits)
  {
    var s := if d < 0 then -n else n;
    hide Pow, Evaluate, Up;
    Reduce(s, Abs(d), x, y, mode, bits);
    AbsScale(d, Pow10(y));
    SignedScale(Abs(n), (n < 0) != (d < 0), Pow10(Up(x, y)));
    if d < 0 { assert -(n * Pow10(x)) == s * Pow10(x); }
    if n == 0 { assert s * Pow10(Up(x, y)) == 0; }
  }

  // ----- bit bounds -----

  lemma BitsProduct(a: nat, x: nat, b: nat, y: nat)
    requires a < Pow2(x) && b < Pow2(y)
    ensures a * b < Pow2(x + y)
  {
    PowAdd(2, x, y);
    var p: int, q: int := Pow2(x), Pow2(y);
    hide *;
    MulMono(b, q, a);
    MulStrict(a, p, q);
  }

  lemma FitsWidth(n: nat, bits: nat, width: nat)
    requires n < Pow2(bits) && bits <= 64 * width
    ensures n < PowW(width)
  {
    LimbBits(width);
    PowMono(2, bits, 64 * width);
  }

  /** with_width: the 128-, 256-, 512- or 1024-bit tier. */
  function WidthFor(bits: nat): (width: nat)
    ensures width in {2, 4, 8, 16} && (bits <= 1024 ==> bits <= 64 * width)
    ensures width == 2 || 32 * width < bits
  {
    if bits <= 128 then 2 else if bits <= 256 then 4 else if bits <= 512 then 8 else 16
  }

  /** bit_width of a magnitude: the position of its highest set bit. */
  method MagnitudeBits(m: seq<word>) returns (bits: nat)
    requires |m| == 4
    ensures bits <= 256 && Val(m) < Pow2(bits) && (bits > 0 ==> Pow2(bits - 1) <= Val(m))
  {
    var n := ActiveLimbs(m);
    if n == 0 { return 0; }
    var top := m[n - 1];
    bits := n * 64 - CountlZero(top);
    TopBits(top);
    ValBound(m[..n - 1]);
    ValStep(m, n - 1);
    TwoToLimbs(n - 1, 64 - CountlZero(top));
    TwoToLimbs(n - 1, 63 - CountlZero(top));
    hide *;
    TopLimb(Val(m), Val(m[..n - 1]), top, PowW(n - 1), Pow2(64 - CountlZero(top)), Pow2(63 - CountlZero(top)));
  }

  lemma TopBits(x: word)
    requires 0 < x
    ensures Pow2(63 - CountlZero(x)) <= x < Pow2(64 - CountlZero(x))
  {
    var k := CountlZero(x);
    WordSplit(k);
    var s, t := Pow2(k), Pow2(63 - k);
    assert Pow2(64 - k) == 2 * t;
    hide *;
    TopBitRange(x, s, t);
  }

  lemma TopBitRange(x: nat, s: pos, t: nat)
    requires s * (2 * t) == W && HALF <= x * s < W
    ensures t <= x < 2 * t
  {
    assert t * s + t * s == W;
    if x < t { MulGap(x, t, s); }
    if x >= 2 * t { MulMono(2 * t, x, s); }
  }

  lemma TopLimb(v: nat, low: nat, x: nat, p: nat, above: nat, below: nat)
    requires v == low + x * p && low < p && below <= x < above
    ensures p * below <= v < p * above
  {
    MulGap(x, above, p);
    MulMono(below, x, p);
  }

  // ----- limb operations that lose nothing -----

  /** widen: the low limbs, or zero-extended. */
  method Widen(m: seq<word>, width: nat) returns (r: seq<word>)
    requires |m| == 4 && Val(m) < PowW(width)
    ensures |r| == width && Val(r) == Val(m)
  {
    if width < 4 {
      r := m[..width];
      ValSplit(m, width);
      ValBound(r);
      DivModUnique(Val(m), PowW(width), Val(m[width..]), Val(r));
      DivModUnique(Val(m), PowW(width), 0, Val(m));
    } else {
      r := m + Zeros(width - 4);
      ValWiden(m, width - 4);
    }
  }

  /** pow10_at: (v << 3) + (v << 1). */
  method Pow10At(exponent: nat, width: pos) returns (v: seq<word>)
    requires Pow10(exponent) < PowW(width)
    ensures |v| == width && Val(v) == Pow10(exponent)
  {
    v := [1] + Zeros(width - 1);
    ValWiden([1], width - 1);
    Val1([1]);
    for i := 0 to exponent
      invariant |v| == width && Val(v) == Pow10(i)
    {
      TenfoldFits(i, exponent, width);
      var eight := Shl(v, 3);
      var two := Shl(v, 1);
      v := Add(eight, two);
    }
  }

  lemma TenfoldFits(i: nat, exponent: nat, width: nat)
    requires i < exponent && Pow10(exponent) < PowW(width)
    ensures (Pow10(i) * Pow2(3) % PowW(width) + Pow10(i) * Pow2(1) % PowW(width)) % PowW(width) == Pow10(i + 1)
  {
    PowMono(10, i + 1, exponent);
    assert Pow(2, 3) == 8 && Pow(2, 1) == 2 && Pow(10, i + 1) == 10 * Pow(10, i);
    var x, p := Pow10(i), PowW(width);
    hide *;
    DivModUnique(x * 8, p, 0, x * 8);
    DivModUnique(x * 2, p, 0, x * 2);
    DivModUnique(x * 10, p, 0, x * 10);
  }

  method Times(a: seq<word>, b: seq<word>) returns (r: seq<word>)
    requires |a| == |b| && Val(a) * Val(b) < PowW(|a|)
    ensures |r| == |a| && Val(r) == Val(a) * Val(b)
  {
    r := MulTrunc(a, b);
    hide *;
    DivModUnique(Val(a) * Val(b), PowW(|a|), 0, Val(a) * Val(b));
  }

  /** |raw| * 10^exponent at a width that holds it. */
  method Scaled(m: seq<word>, ghost bits: nat, exponent: nat, width: nat) returns (r: seq<word>)
    requires |m| == 4 && Val(m) < Pow2(bits) && bits + Pow10Bits(exponent) <= 64 * width
    ensures |r| == width && Val(r) == Val(m) * Pow10(exponent) < Pow2(bits + Pow10Bits(exponent))
  {
    Pow10BitsBound(exponent);
    BitsProduct(Val(m), bits, Pow10(exponent), Pow10Bits(exponent));
    FitsWidth(Val(m), bits, width);
    FitsWidth(Pow10(exponent), Pow10Bits(exponent), width);
    FitsWidth(Val(m) * Pow10(exponent), bits + Pow10Bits(exponent), width);
    hide Pow, Val, PowW;
    var wide := Widen(m, width);
    var power := Pow10At(exponent, width);
    r := Times(wide, power);
  }

  /** |a| * |b| * 10^exponent. */
  method ScaledProduct(a: seq<word>, ghost x: nat, b: seq<word>, ghost y: nat, exponent: nat, width: nat) returns (r: seq<word>)
    requires |a| == 4 && |b| == 4 && Val(a) < Pow2(x) && Val(b) < Pow2(y) && x + y + Pow10Bits(exponent) <= 64 * width
    ensures |r| == width && Val(r) == Val(a) * Val(b) * Pow10(exponent)
  {
    ScaledProductFits(Val(a), x, Val(b), y, exponent, width);
    hide *;
    var wa := Widen(a, width);
    var wb := Widen(b, width);
    var product := Times(wa, wb);
    var power := Pow10At(exponent, width);
    r := Times(product, power);
  }

  /** Every factor and partial product stays inside the tier. */
  lemma ScaledProductFits(a: nat, x: nat, b: nat, y: nat, exponent: nat, width: nat)
    requires a < Pow2(x) && b < Pow2(y) && x + y + Pow10Bits(exponent) <= 64 * width
    ensures a < PowW(width) && b < PowW(width) && 0 <= a * b < PowW(width)
    ensures Pow10(exponent) < PowW(width) && a * b * Pow10(exponent) < PowW(width)
  {
    Pow10BitsBound(exponent);
    var bits := Pow10Bits(exponent);
    hide *;
    MulMono(0, a, b);
    BitsProduct(a, x, b, y);
    BitsProduct(a * b, x + y, Pow10(exponent), bits);
    FitsWidth(a, x, width);
    FitsWidth(b, y, width);
    FitsWidth(a * b, x + y, width);
    FitsWidth(Pow10(exponent), bits, width);
    MulMono(0, a * b, Pow10(exponent));
    FitsWidth(a * b * Pow10(exponent), x + y + bits, width);
  }

  method PowerFor(exponent: nat, width: nat) returns (r: seq<word>)
    requires Pow10Bits(exponent) <= 64 * width
    ensures |r| == width && Val(r) == Pow10(exponent)
  {
    Pow10BitsBound(exponent);
    FitsWidth(Pow10(exponent), Pow10Bits(exponent), width);
    r := Pow10At(exponent, width);
  }

  /** evaluate_rational: num / den rounded once; the limit is compared at the working width. */
  method EvaluateRational(negative: bool, num: seq<word>, den: seq<word>, mode: Mode, bits: nat) returns (r: Result<int>)
    requires |num| == |den| > 0 && 0 < bits <= 256 && bits <= 64 * |num|
    ensures Val(den) == 0 ==> r == Err(DivisionByZero)
    ensures Val(den) != 0 ==> r == Evaluate(Signed(Val(num), negative), Val(den), mode, bits)
  {
    hide Val, Pow, PowW, Evaluate;
    var active := ActiveLimbs(den);
    if active == 0 { return Err(DivisionByZero); }
    LimitWidth(bits, negative, |num|);
    var quotient, remainder := Knuth.DivMod(num, den);
    var limit := Limit(bits, negative);
    RoundedIsEvaluate(Val(num), Val(den), Val(quotient), Val(remainder), negative, mode, bits);
    var rounded := RoundMagnitude(Val(quotient), Val(remainder), Val(den), negative, mode, limit);
    assert Evaluate(Signed(Val(num), negative), Val(den), mode, bits) == SignedResult(rounded, negative);
    match rounded
    case Err(e) => r := Err(e);
    case Ok(m) =>
      ToLimbsValue(m, 4);
      var x := Store256(ToLimbs(m, 4), negative);
      r := Ok(x);
  }

  /** The destination limit is held by the working width and by the returned 256 bits. */
  lemma LimitWidth(bits: nat, negative: bool, width: nat)
    requires 0 < bits <= 256 && bits <= 64 * width
    ensures Limit(bits, negative) < PowW(width) && Limit(bits, negative) <= Limit(256, negative) && Limit(256, negative) < PowW(4)
  {
    LimitStep(bits, 256, negative);
    LimitBelow(bits, negative, width);
    LimitBelow(256, negative, 4);
  }

  lemma LimitBelow(bits: pos, negative: bool, width: nat)
    requires bits <= 64 * width
    ensures Limit(bits, negative) < PowW(width)
  {
    PowStrict(2, bits - 1, 64 * width);
    LimbBits(width);
    hide Pow;
  }

  lemma LimitStep(bits: pos, wide: pos, negative: bool)
    requires bits <= wide
    ensures Limit(bits, negative) <= Limit(wide, negative)
  {
    PowMono(2, bits - 1, wide - 1);
    hide Pow;
  }

  /** The chosen tier holds whatever it was chosen for. */
  lemma TierHolds(p: nat, q: nat, dest: nat)
    requires p <= 1024 && q <= 1024 && dest <= 1024
    ensures var width := WidthFor(Max(Max(p, q), dest));
            0 < width && p <= 64 * width && q <= 64 * width && dest <= 64 * width
    ensures 0 <= Max(Max(p, q), dest)
  {
  }

  lemma UpBits(x: nat, y: nat)
    requires x <= 152
    ensures Pow10Bits(Up(x, y)) <= if x <= 76 then 254 else 507
  {
  }

  // ----- the kernels -----

  predicate Scales(a: nat, b: nat, dest: nat, bits: nat) { a <= 76 && b <= 76 && dest <= 76 && 0 < bits <= 256 }

  method Cast(src: int256, srcDecimals: nat, destDecimals: nat, mode: Mode, destBits: nat) returns (r: Result<int>)
    requires Scales(srcDecimals, 0, destDecimals, destBits)
    ensures r == CastTo(src, srcDecimals, destDecimals, mode, destBits)
  {
    CastIsReduced(src, srcDecimals, destDecimals, mode, destBits);
    UpBits(destDecimals, srcDecimals);
    UpBits(srcDecimals, destDecimals);
    hide *;
    var up, down := Up(destDecimals, srcDecimals), Up(srcDecimals, destDecimals);
    var m := Magnitude256(src);
    var mBits := MagnitudeBits(m);
    TierHolds(mBits + Pow10Bits(up), Pow10Bits(down), destBits);
    var width := WidthFor(Max(Max(mBits + Pow10Bits(up), Pow10Bits(down)), destBits));
    var num := Scaled(m, mBits, up, width);
    var den := PowerFor(down, width);
    r := EvaluateRational(src < 0, num, den, mode, destBits);
  }

  lemma CastIsReduced(a: int, da: nat, dd: nat, mode: Mode, bits: pos)
    ensures CastTo(a, da, dd, mode, bits) == Evaluate(Signed(Abs(a) * Pow10(Up(dd, da)), a < 0), Pow10(Up(da, dd)), mode, bits)
  {
    Reduce(a, 1, dd, da, mode, bits);
    SignedScale(Abs(a), a < 0, Pow10(Up(dd, da)));
  }

  method Mul(a: int256, aDecimals: nat, b: int256, bDecimals: nat, destDecimals: nat, mode: Mode, destBits: nat)
    returns (r: Result<int>)
    requires Scales(aDecimals, bDecimals, destDecimals, destBits)
    ensures r == MulTo(a, aDecimals, b, bDecimals, destDecimals, mode, destBits)
  {
    var productScale := aDecimals + bDecimals;
    UpBits(destDecimals, productScale);
    UpBits(productScale, destDecimals);
    hide *;
    var up, down := Up(destDecimals, productScale), Up(productScale, destDecimals);
    var ma := Magnitude256(a);
    var mb := Magnitude256(b);
    var aBits := MagnitudeBits(ma);
    var bBits := MagnitudeBits(mb);
    TierHolds(aBits + bBits + Pow10Bits(up), Pow10Bits(down), destBits);
    var width := WidthFor(Max(Max(aBits + bBits + Pow10Bits(up), Pow10Bits(down)), destBits));
    var num := ScaledProduct(ma, aBits, mb, bBits, up, width);
    var den := PowerFor(down, width);
    MulIsReduced(a, aDecimals, b, bDecimals, destDecimals, Val(num), Val(den), mode, destBits);
    r := EvaluateRational((a < 0) != (b < 0), num, den, mode, destBits);
  }

  lemma MulIsReduced(a: int, da: nat, b: int, db: nat, dd: nat, num: nat, den: pos, mode: Mode, bits: pos)
    requires num == Abs(a) * Abs(b) * Pow10(Up(dd, da + db)) && den == Pow10(Up(da + db, dd))
    ensures MulTo(a, da, b, db, dd, mode, bits) == Evaluate(Signed(num, (a < 0) != (b < 0)), den, mode, bits)
  {
    hide Pow, Evaluate, Up;
    Reduce(a * b, 1, dd, da + db, mode, bits);
    ProductParts(a, b);
    MulMono(0, Abs(a), Abs(b));
    SignedScale(Abs(a) * Abs(b), (a < 0) != (b < 0), Pow10(Up(dd, da + db)));
  }

  method Div(a: int256, aDecimals: nat, b: int256, bDecimals: nat, destDecimals: nat, mode: Mode, destBits: nat)
    returns (r: Result<int>)
    requires Scales(aDecimals, bDecimals, destDecimals, destBits)
    ensures r == DivTo(a, aDecimals, b, bDecimals, destDecimals, mode, destBits)
  {
    hide Pow, Val, PowW, Evaluate;
    if b == 0 { return Err(DivisionByZero); }
    var up, down := Up(bDecimals + destDecimals, aDecimals), Up(aDecimals, bDecimals + destDecimals);
    var ma := Magnitude256(a);
    var mb := Magnitude256(b);
    var aBits := MagnitudeBits(ma);
    var bBits := MagnitudeBits(mb);
    var width := WidthFor(Max(Max(aBits + Pow10Bits(up), bBits + Pow10Bits(down)), destBits));
    var num := Scaled(ma, aBits, up, width);
    var den := Scaled(mb, bBits, down, width);
    ReduceDivide(a, b, bDecimals + destDecimals, aDecimals, mode, destBits);
    NonzeroProduct(b, Pow10(aDecimals));
    r := EvaluateRational((a < 0) != (b < 0), num, den, mode, destBits);
  }

  lemma NonzeroProduct(d: int, k: pos)
    requires d != 0
    ensures d * k != 0
  {
    AbsScale(d, k);
    MulMono(1, Abs(d), k);
  }

  method MulDiv(a: int256, aDecimals: nat, b: int256, bDecimals: nat, c: int256, cDecimals: nat,
                destDecimals: nat, mode: Mode, destBits: nat)
    returns (r: Result<int>)
    requires Scales(aDecimals, bDecimals, destDecimals, destBits) && cDecimals <= 76
    ensures r == MulDivTo(a, aDecimals, b, bDecimals, c, cDecimals, destDecimals, mode, destBits)
  {
    if c == 0 { return Err(DivisionByZero); }
    var productScale, target := aDecimals + bDecimals, destDecimals + cDecimals;
    UpBits(target, productScale);
    UpBits(productScale, target);
    hide *;
    var up, down := Up(target, productScale), Up(productScale, target);
    var ma := Magnitude256(a);
    var mb := Magnitude256(b);
    var mc := Magnitude256(c);
    var aBits := MagnitudeBits(ma);
    var bBits := MagnitudeBits(mb);
    var cBits := MagnitudeBits(mc);
    TierHolds(aBits + bBits + Pow10Bits(up), cBits + Pow10Bits(down), destBits);
    var width := WidthFor(Max(Max(aBits + bBits + Pow10Bits(up), cBits + Pow10Bits(down)), destBits));
    var num := ScaledProduct(ma, aBits, mb, bBits, up, width);
    var den := Scaled(mc, cBits, down, width);
    MulDivIsReduced(a, aDecimals, b, bDecimals, c, cDecimals, destDecimals, Val(num), Val(den), mode, destBits);
    r := EvaluateRational(((a < 0) != (b < 0)) != (c < 0), num, den, mode, destBits);
  }

  lemma MulDivIsReduced(a: int, da: nat, b: int, db: nat, c: int, dc: nat, dd: nat, num: nat, den: nat, mode: Mode, bits: pos)
    requires c != 0
    requires num == Abs(a) * Abs(b) * Pow10(Up(dd + dc, da + db)) && den == Abs(c) * Pow10(Up(da + db, dd + dc))
    ensures 0 < den
    ensures MulDivTo(a, da, b, db, c, dc, dd, mode, bits)
            == Evaluate(Signed(num, ((a < 0) != (b < 0)) != (c < 0)), den, mode, bits)
  {
    hide Pow, Evaluate, Up;
    ReduceDivide(a * b, c, dd + dc, da + db, mode, bits);
    ProductParts(a, b);
    NonzeroProduct(c, Pow10(da + db));
    if a * b == 0 { assert num == 0 * Pow10(Up(dd + dc, da + db)); }
    SignOfProduct(a, b, num, c < 0, den, mode, bits);
  }

  /** The sign of a zero product does not matter. */
  lemma SignOfProduct(a: int, b: int, n: nat, cNegative: bool, d: nat, mode: Mode, bits: nat)
    requires 0 < bits && 0 < d && (a * b == 0 ==> n == 0)
    ensures Abs(a * b) == Abs(a) * Abs(b)
    ensures Evaluate(Signed(n, ((a < 0) != (b < 0)) != cNegative), d, mode, bits)
            == Evaluate(Signed(n, (a * b < 0) != cNegative), d, mode, bits)
  {
    hide Evaluate;
    ProductParts(a, b);
  }

  // ----- addition and subtraction -----

  /** Two signed magnitudes at one scale: add like signs, subtract the smaller from the larger. */
  method SumMagnitudes(a: seq<word>, aNegative: bool, b: seq<word>, bNegative: bool) returns (s: seq<word>, negative: bool)
    requires |a| == |b| && Val(a) + Val(b) < PowW(|a|)
    ensures |s| == |a| && Signed(Val(s), negative) == Signed(Val(a), aNegative) + Signed(Val(b), bNegative)
    ensures Val(s) <= Val(a) + Val(b)
  {
    hide Val, PowW, Pow;
    if aNegative == bNegative {
      s := Add(a, b);
      DivModUnique(Val(a) + Val(b), PowW(|a|), 0, Val(a) + Val(b));
      negative := aNegative;
      return;
    }
    var order := Compare(a, b);
    if order >= 0 {
      s := Sub(a, b);
      DivModUnique(Val(a) - Val(b), PowW(|a|), 0, Val(a) - Val(b));
      negative := aNegative;
    } else {
      s := Sub(b, a);
      DivModUnique(Val(b) - Val(a), PowW(|a|), 0, Val(b) - Val(a));
      negative := bNegative;
    }
  }

  /** A signed magnitude moved up by a number of decimals. */
  function Term(n: nat, exponent: nat, negative: bool): int {
    Signed(n * Pow10(exponent), negative)
  }

  /** The two terms at the larger scale, and their sum. */
  method AlignedSum(ma: seq<word>, ghost aBits: nat, aNegative: bool, expA: nat,
                    mb: seq<word>, ghost bBits: nat, bNegative: bool, expB: nat, width: nat)
    returns (sum: seq<word>, negative: bool)
    requires |ma| == 4 && |mb| == 4 && Val(ma) < Pow2(aBits) && Val(mb) < Pow2(bBits)
    requires Max(aBits + Pow10Bits(expA), bBits + Pow10Bits(expB)) + 1 <= 64 * width
    ensures |sum| == width && Val(sum) < Pow2(Max(aBits + Pow10Bits(expA), bBits + Pow10Bits(expB)) + 1)
    ensures Signed(Val(sum), negative) == Term(Val(ma), expA, aNegative) + Term(Val(mb), expB, bNegative)
  {
    hide Pow, Val, PowW;
    var termA := Scaled(ma, aBits, expA, width);
    var termB := Scaled(mb, bBits, expB, width);
    AlignedFits(Val(termA), aBits + Pow10Bits(expA), Val(termB), bBits + Pow10Bits(expB),
                Max(aBits + Pow10Bits(expA), bBits + Pow10Bits(expB)) + 1, width);
    sum, negative := SumMagnitudes(termA, aNegative, termB, bNegative);
  }

  method AddSub(a: int256, aDecimals: nat, b: int256, bDecimals: nat, subtract: bool,
                destDecimals: nat, mode: Mode, destBits: nat)
    returns (r: Result<int>)
    requires Scales(aDecimals, bDecimals, destDecimals, destBits)
    ensures r == AddTo(a, aDecimals, if subtract then 0 - b else b, bDecimals, destDecimals, mode, destBits)
  {
    assert 0 < destBits;
    hide *;
    var ma := Magnitude256(a);
    var mb := Magnitude256(b);
    var bNegative := if subtract then !(b < 0) else b < 0;
    ghost var s, negative;
    r, s, negative := AddMagnitudes(ma, a < 0, aDecimals, mb, bNegative, bDecimals, destDecimals, mode, destBits);
    AddIsReduced(a, aDecimals, b, bDecimals, subtract, s, negative, destDecimals, mode, destBits);
  }

  /** Both terms at the larger scale, their sum at the destination's. */
  method AddMagnitudes(ma: seq<word>, aNegative: bool, aDecimals: nat, mb: seq<word>, bNegative: bool, bDecimals: nat,
                       destDecimals: nat, mode: Mode, destBits: nat)
    returns (r: Result<int>, ghost s: nat, ghost negative: bool)
    requires |ma| == 4 && |mb| == 4 && Scales(aDecimals, bDecimals, destDecimals, destBits)
    ensures Signed(s, negative) == Term(Val(ma), Up(bDecimals, aDecimals), aNegative)
                                   + Term(Val(mb), Up(aDecimals, bDecimals), bNegative)
    ensures r == Evaluate(Term(s, Up(destDecimals, Max(aDecimals, bDecimals)), negative),
                          Pow10(Up(Max(aDecimals, bDecimals), destDecimals)), mode, destBits)
  {
    AddBits(aDecimals, bDecimals, destDecimals, destBits);
    hide *;
    var baseScale := Max(aDecimals, bDecimals);
    var expA, expB := Up(bDecimals, aDecimals), Up(aDecimals, bDecimals);
    var up, down := Up(destDecimals, baseScale), Up(baseScale, destDecimals);
    var aBits := MagnitudeBits(ma);
    var bBits := MagnitudeBits(mb);
    var aligned, width := AddTier(aBits + Pow10Bits(expA), bBits + Pow10Bits(expB), Pow10Bits(up), Pow10Bits(down), destBits);
    var sum, sumNegative := AlignedSum(ma, aBits, aNegative, expA, mb, bBits, bNegative, expB, width);
    s, negative := Val(sum), sumNegative;
    r := RescaledSum(sum, aligned, sumNegative, up, down, mode, destBits);
  }

  /** The sum needs one bit more than its terms, and the tier must hold it rescaled. */
  method AddTier(aBits: nat, bBits: nat, upBits: nat, downBits: nat, destBits: nat) returns (aligned: nat, width: nat)
    requires aBits <= 510 && bBits <= 510 && upBits <= 254 && downBits <= 254 && destBits <= 256
    ensures aligned == Max(aBits, bBits) + 1 && aligned + upBits <= 64 * width && downBits <= 64 * width
    ensures destBits <= 64 * width && 0 < width
  {
    MaxBound(aBits, bBits, 510);
    hide *;
    aligned := Max(aBits, bBits) + 1;
    TierHolds(aligned + upBits, downBits, destBits);
    width := WidthFor(Max(Max(aligned + upBits, downBits), destBits));
  }

  lemma AddBits(a: nat, b: nat, dest: nat, bits: nat)
    requires Scales(a, b, dest, bits)
    ensures 0 <= Max(a, b) && 0 < bits <= 256
    ensures Pow10Bits(Up(b, a)) <= 254 && Pow10Bits(Up(a, b)) <= 254
    ensures Pow10Bits(Up(dest, Max(a, b))) <= 254 && Pow10Bits(Up(Max(a, b), dest)) <= 254
  {
  }

  lemma MaxBound(a: nat, b: nat, bound: nat)
    requires a <= bound && b <= bound
    ensures 0 <= Max(a, b) <= bound
  {
  }

  /** The aligned sum at the destination's scale, rounded. */
  method RescaledSum(sum: seq<word>, ghost aligned: nat, negative: bool, up: nat, down: nat, mode: Mode, bits: nat)
    returns (r: Result<int>)
    requires 0 < |sum| && Val(sum) < Pow2(aligned) && aligned + Pow10Bits(up) <= 64 * |sum| && Pow10Bits(down) <= 64 * |sum|
    requires 0 < bits <= 256 && bits <= 64 * |sum|
    ensures r == Evaluate(Term(Val(sum), up, negative), Pow10(down), mode, bits)
  {
    assert Term(Val(sum), up, negative) == Signed(Val(sum) * Pow10(up), negative);
    hide *;
    var power := PowerFor(up, |sum|);
    ScaledSumFits(Val(sum), aligned, up, |sum|);
    var num := Times(sum, power);
    var den := PowerFor(down, |sum|);
    r := EvaluateRational(negative, num, den, mode, bits);
  }

  lemma AddIsReduced(a: int, da: nat, b: int, db: nat, subtract: bool, s: nat, negative: bool, dd: nat, mode: Mode, bits: pos)
    requires Signed(s, negative) == Term(Abs(a), Up(db, da), a < 0)
                                    + Term(Abs(b), Up(da, db), if subtract then !(b < 0) else b < 0)
    ensures AddTo(a, da, if subtract then 0 - b else b, db, dd, mode, bits)
            == Evaluate(Term(s, Up(dd, Max(da, db)), negative), Pow10(Up(Max(da, db), dd)), mode, bits)
  {
    hide Pow, Evaluate;
    var sum := Signed(s, negative);
    SumIsExact(a, da, b, db, subtract, sum);
    Reduce(sum, 1, dd, Max(da, db), mode, bits);
    SignedScale(s, negative, Pow10(Up(dd, Max(da, db))));
    AlignReduce(sum, da, db, dd, mode, bits);
  }

  /** The sum of two aligned terms needs one more bit. */
  lemma AlignedFits(a: nat, x: nat, b: nat, y: nat, aligned: nat, width: nat)
    requires a < Pow2(x) && b < Pow2(y) && aligned == Max(x, y) + 1 <= 64 * width
    ensures a + b < Pow2(aligned) && a + b < PowW(width)
  {
    PowMono(2, x, aligned - 1);
    PowMono(2, y, aligned - 1);
    assert Pow2(aligned) == 2 * Pow2(aligned - 1);
    FitsWidth(a + b, aligned, width);
  }

  lemma ScaledSumFits(s: nat, aligned: nat, up: nat, width: nat)
    requires s < Pow2(aligned) && aligned + Pow10Bits(up) <= 64 * width
    ensures s * Pow10(up) < PowW(width)
  {
    Pow10BitsBound(up);
    BitsProduct(s, aligned, Pow10(up), Pow10Bits(up));
    FitsWidth(s * Pow10(up), aligned + Pow10Bits(up), width);
  }

  /** The aligned sum is the exact one over the larger scale. */
  lemma SumIsExact(a: int, da: nat, b: int, db: nat, subtract: bool, sum: int)
    requires sum == Term(Abs(a), Up(db, da), a < 0) + Term(Abs(b), Up(da, db), if subtract then !(b < 0) else b < 0)
    ensures var sb := if subtract then 0 - b else b; var common := if da < db then da else db;
            a * Pow10(db) + sb * Pow10(da) == sum * Pow10(common)
  {
    var sb, common := if subtract then 0 - b else b, if da < db then da else db;
    var p, q, c := Pow10(Up(db, da)), Pow10(Up(da, db)), Pow10(common);
    PowAdd(10, Up(db, da), common);
    PowAdd(10, Up(da, db), common);
    hide Pow;
    SignedScale(Abs(a), a < 0, p);
    SignedScale(Abs(b), if subtract then !(b < 0) else b < 0, q);
    assert sum == a * p + sb * q by { if b == 0 { assert Abs(b) * q == 0; } }
    hide *;
    SumTimesPower(a, p, sb, q, c);
  }

  lemma SumTimesPower(a: int, p: int, b: int, q: int, c: int)
    ensures (a * p + b * q) * c == a * (p * c) + b * (q * c)
  {
    assert (a * p + b * q) * c == a * p * c + b * q * c;
  }

  lemma AlignReduce(sum: int, da: nat, db: nat, dd: nat, mode: Mode, bits: pos)
    ensures var common := if da < db then da else db;
            Evaluate(sum * Pow10(common) * Pow10(dd), Pow10(da + db), mode, bits)
            == Evaluate(sum * Pow10(dd), Pow10(Max(da, db)), mode, bits)
  {
    var common := if da < db then da else db;
    PowAdd(10, Max(da, db), common);
    var c, p := Pow10(common), Pow10(dd);
    hide Pow, Evaluate;
    assert sum * c * p == sum * p * c by { hide *; SwapFactors(sum, c, p); }
    EvaluateScale(sum * p, Pow10(Max(da, db)), c, mode, bits);
  }

}
