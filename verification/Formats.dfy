/** The binary formats by their numbers: what each bit pattern is worth, and what it converts to. */
module Formats {
  import opened Arith
  import opened Words
  import opened Rounding
  import opened FromFloat
  import opened Meaning
  import ExactResults

  // ----- the formats -----

  /** Precision and exponent width of the interchange formats; the bias follows from the width. */
  predicate Layout(f: Format, precision: nat, exponentBits: nat) {
    || (f == BINARY32 && precision == 24 && exponentBits == 8)
    || (f == BINARY64 && precision == 53 && exponentBits == 11)
    || (f == BINARY128 && precision == 113 && exponentBits == 15)
  }

  lemma Parameters(f: Format, precision: nat, exponentBits: nat)
    requires Layout(f, precision, exponentBits)
    ensures f == Format(precision, exponentBits, Pow2(exponentBits - 1) - 1)
    ensures 1 + exponentBits + (precision - 1) in {32, 64, 128}
  {
    assert Pow2(7) == 128 && Pow2(10) == 1024;
    PowAdd(2, 7, 7);
  }

  // ----- the value of the fields -----

  /** The significand of the standard: one point something, or zero point something. */
  function Significand(precision: pos, exponent: nat, trailing: nat): real {
    Mixture(if exponent == 0 then 0 else 1, trailing, Pow2(precision - 1))
  }

  function Mixture(whole: nat, part: nat, unit: pos): real { whole as real + part as real / unit as real }

  /** The number of the standard: a sign, a power of two and a significand. */
  function FieldsValue(precision: pos, exponentBits: pos, negative: bool, exponent: nat, trailing: nat): real {
    var power := Power(2, (if exponent == 0 then 1 else exponent) - (Pow2(exponentBits - 1) - 1));
    var x := Product(power, Significand(precision, exponent, trailing));
    if negative then -x else x
  }

  function Product(a: real, b: real): real { a * b }

  lemma FieldsMean(f: Format, precision: pos, exponentBits: pos, negative: bool, exponent: nat, trailing: nat)
    requires Layout(f, precision, exponentBits) && exponent < Pow2(exponentBits) - 1
    ensures var d := FromFields(f, negative, exponent, trailing);
            !d.invalid && ExactResults.FloatValue(d) == FieldsValue(precision, exponentBits, negative, exponent, trailing)
  {
    Parameters(f, precision, exponentBits);
    hide Pow, Power, Product;
    var e := (if exponent == 0 then 1 else exponent) - f.bias;
    var lead := if exponent == 0 then 0 else 1;
    var m := lead * Pow2(precision - 1) + trailing;
    assert FromFields(f, negative, exponent, trailing) == Decoded(m, e - (precision - 1), negative, false);
    MixtureValue(lead, trailing, precision - 1, e, m);
    ValueOf(FromFields(f, negative, exponent, trailing));
    hide FromFields, Pow2, Mixture, ExactResults.FloatValue;
  }

  /** The largest exponent is no number, whatever its significand. */
  lemma NotNumbers(f: Format, precision: pos, exponentBits: pos, negative: bool, trailing: nat)
    requires Layout(f, precision, exponentBits)
    ensures FromFields(f, negative, Pow2(exponentBits) - 1, trailing).invalid
  {
    hide Pow;
  }

  lemma ValueOf(d: Decoded)
    ensures var x := Product(d.significand as real, Power(2, d.power));
            ExactResults.FloatValue(d) == if d.negative then -x else x
  {
    hide Power;
  }

  /** (L * 2^n + T) * 2^(e - n) = 2^e * (L + T / 2^n). */
  lemma MixtureValue(lead: nat, trailing: nat, n: nat, e: int, m: nat)
    requires m == lead * Pow2(n) + trailing
    ensures Product(m as real, Power(2, e - n)) == Product(Power(2, e), Mixture(lead, trailing, Pow2(n)))
  {
    hide Power, Pow, Scaled;
    RealProduct(lead, Pow2(n));
    PowerDown(e, n);
    ScaledIs(Power(2, e - n), n);
    hide Pow2;
    MixtureTimes(m as real, lead as real, trailing as real, Pow2(n) as real, Power(2, e - n), Power(2, e));
  }

  lemma MixtureTimes(m: real, lead: real, trailing: real, unit: real, below: real, power: real)
    requires 0.0 < unit && below * unit == power && m == lead * unit + trailing
    ensures m * below == power * (lead + trailing / unit)
  {
    var t := trailing / unit;
    assert t * unit == trailing;
    assert (lead * unit + t * unit) * below == (lead + t) * (below * unit);
  }

  /** p * 2^n. */
  function Scaled(p: real, n: nat): real { p * Pow2(n) as real }

  lemma ScaledIs(p: real, n: nat)
    ensures Scaled(p, n) == p * Pow2(n) as real && Scaled(p, 0) == p && (0 < n ==> Scaled(p, n) == 2.0 * Scaled(p, n - 1))
  {
    assert Pow2(0) == 1;
    if 0 < n { assert Pow2(n) as real == 2.0 * Pow2(n - 1) as real; }
  }

  /** 2^(e - n) * 2^n = 2^e. */
  lemma {:induction false} PowerDown(e: int, n: nat)
    ensures Scaled(Power(2, e - n), n) == Power(2, e)
    decreases n
  {
    hide *;
    ScaledIs(Power(2, e - n), n);
    if n != 0 {
      PowerDown(e - 1, n - 1);
      PowerStep(2, e - 1);
      assert e - 1 - (n - 1) == e - n;
    }
  }

  // ----- integers -----

  /** The normalised pattern of an integer: the leading one is hidden, the exponent counts the
      places below it. */
  function IntegerPattern(precision: pos, exponentBits: pos, negative: bool, m: pos): nat
    requires m < Pow2(precision)
  {
    LeadingOne(m, precision);
    Pack(Format(precision, exponentBits, 0), negative, Places(m) + Pow2(exponentBits - 1) - 1,
         ToTop(m, precision) - Pow2(precision - 1))
  }

  /** The place of the leading one. */
  function Places(m: pos): nat {
    BitLength(m) - 1
  }

  /** m moved up until its leading one is the first of `precision` places. */
  function ToTop(m: pos, precision: pos): nat
    requires Places(m) < precision
  {
    m * Pow2(precision - 1 - Places(m))
  }

  lemma LeadingOne(m: pos, precision: pos)
    requires m < Pow2(precision)
    ensures Places(m) < precision && Pow2(precision - 1) <= ToTop(m, precision) < 2 * Pow2(precision - 1)
  {
    var k := BitLength(m);
    PowMono(2, if precision < k then precision else k - 1, k - 1);
    assert Pow2(k) == 2 * Pow2(k - 1);
    PowAdd(2, k - 1, precision - k);
    hide Pow, BitLength;
    MulMono(Pow2(k - 1), m, Pow2(precision - k));
    MulStrict(m, Pow2(k), Pow2(precision - k));
    Regroup(2, Pow2(k - 1), Pow2(precision - k));
    assert precision - 1 - Places(m) == precision - k;
  }

  /** Every integer a format holds exactly converts to itself at any scale, in every mode. */
  lemma IntegersConvert(f: Format, precision: pos, exponentBits: pos, negative: bool, m: pos,
                        decimals: nat, mode: Mode, bits: pos)
    requires Layout(f, precision, exponentBits) && m < Pow2(precision)
    ensures var n := Signed(m, negative) * Pow10(decimals);
            FloatTo(DecodePacked(f, IntegerPattern(precision, exponentBits, negative, m)), decimals, mode, bits)
            == if Fits(n, bits) then Ok(n) else Err(Overflow)
  {
    hide *;
    LeadingOne(m, precision);
    IntegerFields(f, precision, exponentBits, negative, m);
    DecodedInteger(m, precision - 1 - Places(m), negative, decimals, mode, bits);
  }

  /** m scaled up and down again. */
  function ScaledUp(m: nat, j: nat, negative: bool): Decoded { Decoded(m * Pow2(j), 0 - j, negative, false) }

  lemma DecodedInteger(m: pos, j: nat, negative: bool, decimals: nat, mode: Mode, bits: pos)
    ensures var n := Signed(m, negative) * Pow10(decimals);
            FloatTo(ScaledUp(m, j, negative), decimals, mode, bits) == if Fits(n, bits) then Ok(n) else Err(Overflow)
  {
    assert !ScaledUp(m, j, negative).invalid;
    hide *;
    IntegerUnits(m, j, negative, decimals);
    ExactResults.FloatIsAt(ScaledUp(m, j, negative), decimals, mode, bits);
    ExactResults.WholeNumber(ExactResults.NumberAt(ExactResults.FloatValue(ScaledUp(m, j, negative)), decimals),
                             Signed(m, negative) * Pow10(decimals), mode, bits,
                             FloatTo(ScaledUp(m, j, negative), decimals, mode, bits));
  }

  lemma IntegerUnits(m: pos, j: nat, negative: bool, decimals: nat)
    ensures ExactResults.NumberAt(ExactResults.FloatValue(ScaledUp(m, j, negative)), decimals)
            == (Signed(m, negative) * Pow10(decimals)) as real
  {
    hide Scale, Pow, ExactResults.FloatValue, ScaledUp, Signed;
    IntegerValue(m, j, negative);
    RealProduct(Signed(m, negative), Pow10(decimals));
    ExactResults.ScaleIs(decimals);
    SameProduct(ExactResults.FloatValue(ScaledUp(m, j, negative)), Signed(m, negative) as real,
                Scale(decimals), Pow10(decimals) as real);
  }

  lemma SameProduct(x: real, y: real, u: real, v: real)
    requires x == y && u == v
    ensures x * u == y * v
  {
  }

  lemma IntegerFields(f: Format, precision: pos, exponentBits: pos, negative: bool, m: pos)
    requires Layout(f, precision, exponentBits) && m < Pow2(precision) && Places(m) < precision
    ensures DecodePacked(f, IntegerPattern(precision, exponentBits, negative, m))
            == ScaledUp(m, precision - 1 - Places(m), negative)
  {
    hide Pow, BitLength, DecodePacked, Places, ToTop, Layout, Pack, Pow2;
    LeadingOne(m, precision);
    PatternFields(f, precision, exponentBits, negative, Places(m), ToTop(m, precision));
    ToTopIs(m, precision);
  }

  lemma ToTopIs(m: pos, precision: pos)
    requires Places(m) < precision
    ensures ToTop(m, precision) == m * Pow2(precision - 1 - Places(m))
  {
  }

  lemma PatternFields(f: Format, precision: pos, exponentBits: pos, negative: bool, places: nat, scaled: nat)
    requires Layout(f, precision, exponentBits) && places < precision && Pow2(precision - 1) <= scaled < 2 * Pow2(precision - 1)
    ensures 0 < Pow2(exponentBits - 1)
    ensures DecodePacked(f, Pack(Format(precision, exponentBits, 0), negative, places + Pow2(exponentBits - 1) - 1,
                                 scaled - Pow2(precision - 1)))
            == Decoded(scaled, places - (precision - 1), negative, false)
  {
    Parameters(f, precision, exponentBits);
    RoomForExponent(precision, exponentBits);
    assert Pow2(exponentBits) == 2 * Pow2(exponentBits - 1);
    hide Pow, DecodePacked;
    DecodeInvertsPack(f, negative, places + f.bias, scaled - Pow2(precision - 1));
    SamePack(f, Format(precision, exponentBits, 0), negative, places + f.bias, scaled - Pow2(precision - 1));
    hide Pack;
  }

  /** The layout does not depend on the bias. */
  lemma SamePack(f: Format, g: Format, negative: bool, exponent: nat, trailing: nat)
    requires 0 < f.precision == g.precision && f.exponentBits == g.exponentBits
    ensures Pack(f, negative, exponent, trailing) == Pack(g, negative, exponent, trailing)
  {
  }

  lemma RoomForExponent(precision: pos, exponentBits: pos)
    requires (precision == 24 && exponentBits == 8) || (precision == 53 && exponentBits == 11)
             || (precision == 113 && exponentBits == 15)
    ensures precision < Pow2(exponentBits - 1)
  {
    assert Pow2(7) == 128;
    PowMono(2, 7, exponentBits - 1);
  }

  lemma IntegerValue(m: pos, j: nat, negative: bool)
    ensures ExactResults.FloatValue(ScaledUp(m, j, negative)) == Signed(m, negative) as real
  {
    ValueOf(ScaledUp(m, j, negative));
    PowerDown(0, j);
    PowerStep(2, 0);
    ScaledIs(Power(2, 0 - j), j);
    RealProduct(m, Pow2(j));
    hide Power, Pow, Scaled, ExactResults.FloatValue;
    Cancelled((m * Pow2(j)) as real, m as real, Pow2(j) as real, Power(2, 0 - j));
  }

  lemma Cancelled(x: real, m: real, p: real, q: real)
    requires x == m * p && q * p == 1.0
    ensures Product(x, q) == m
  {
    assert m * p * q == m * (q * p);
  }

  // ----- patterns written out -----

  lemma FormatPowers()
    ensures Pow2(7) == 128 && Pow2(8) == 256 && Pow2(10) == 1024 && Pow2(11) == 2048
    ensures Pow2(23) == 0x80_0000 && Pow2(52) == 0x10_0000_0000_0000
    ensures Pow2(14) == 0x4000 && Pow2(15) == 0x8000 && Pow2(112) == 0x1_0000_0000_0000 * 0x1_0000_0000_0000_0000
  {
    QuadPowers();
    assert Pow2(7) == 128 && Pow2(8) == 256;
    PowAdd(2, 8, 3);
    PowAdd(2, 8, 2);
    PowAdd(2, 15, 8);
    PowAdd(2, 48, 4);
    assert Pow2(15) == 2 * Pow2(14) && Pow2(2) == 4 && Pow2(3) == 8 && Pow2(4) == 16;
    hide Pow;
  }

  lemma PatternOfOne(precision: pos, exponentBits: pos, negative: bool)
    requires 1 < precision
    ensures 1 < Pow2(precision) && 0 < Pow2(exponentBits - 1)
    ensures IntegerPattern(precision, exponentBits, negative, 1)
            == ((if negative then Pow2(exponentBits) else 0) + Pow2(exponentBits - 1) - 1) * Pow2(precision - 1)
  {
    PowMono(2, 1, precision);
    assert Pow2(1) == 2 * Pow2(0) == 2;
    LeadingOne(1, precision);
    OneAtTop();
    assert ToTop(1, precision) == Pow2(precision - 1);
    hide Pow;
  }

  lemma OneAtTop()
    ensures Places(1) == 0
  {
    assert BitLength(1) == BitLength(0) + 1;
  }

  /** One and minus one in each format, binary128 as its two words, in every mode. */
  lemma OnesConvert(mode: Mode)
    ensures FloatTo(DecodePacked(BINARY32, 0x3F80_0000), 0, mode, 64) == Ok(1)
    ensures FloatTo(DecodePacked(BINARY32, 0xBF80_0000), 0, mode, 64) == Ok(-1)
    ensures FloatTo(DecodePacked(BINARY64, 0x3FF0_0000_0000_0000), 0, mode, 64) == Ok(1)
    ensures FloatTo(DecodePacked(BINARY64, 0xBFF0_0000_0000_0000), 0, mode, 64) == Ok(-1)
    ensures FloatTo(DecodePacked(BINARY128, Pair(0x3FFF_0000_0000_0000, 0)), 0, mode, 64) == Ok(1)
    ensures FloatTo(DecodePacked(BINARY128, Pair(0xBFFF_0000_0000_0000, 0)), 0, mode, 64) == Ok(-1)
  {
    hide FloatTo, DecodePacked, Pow, IntegerPattern;
    FormatPowers();
    PatternOfOne(24, 8, false);
    PatternOfOne(24, 8, true);
    PatternOfOne(53, 11, false);
    PatternOfOne(53, 11, true);
    PatternOfOne(113, 15, false);
    PatternOfOne(113, 15, true);
    hide Pow2;
    OneConverts(BINARY32, 24, 8, 0x3F80_0000, 0xBF80_0000, mode);
    OneConverts(BINARY64, 53, 11, 0x3FF0_0000_0000_0000, 0xBFF0_0000_0000_0000, mode);
    OneConverts(BINARY128, 113, 15, Pair(0x3FFF_0000_0000_0000, 0), Pair(0xBFFF_0000_0000_0000, 0), mode);
  }

  lemma OneConverts(f: Format, precision: pos, exponentBits: pos, one: nat, minusOne: nat, mode: Mode)
    requires Layout(f, precision, exponentBits) && 1 < Pow2(precision)
    requires one == IntegerPattern(precision, exponentBits, false, 1)
    requires minusOne == IntegerPattern(precision, exponentBits, true, 1)
    ensures FloatTo(DecodePacked(f, one), 0, mode, 64) == Ok(1) && FloatTo(DecodePacked(f, minusOne), 0, mode, 64) == Ok(-1)
  {
    OneFits();
    hide *;
    IntegersConvert(f, precision, exponentBits, false, 1, 0, mode, 64);
    IntegersConvert(f, precision, exponentBits, true, 1, 0, mode, 64);
  }

  lemma OneFits()
    ensures Signed(1, false) * Pow10(0) == 1 && Signed(1, true) * Pow10(0) == -1 && Fits(1, 64) && Fits(-1, 64)
  {
    Pow2Words();
    assert Pow10(0) == 1;
  }

  /** The smallest denormal and the first pattern that is no number, in each format. */
  lemma ExtremePatterns()
    ensures DecodePacked(BINARY32, 1) == Decoded(1, -149, false, false)
    ensures DecodePacked(BINARY64, 1) == Decoded(1, -1074, false, false)
    ensures DecodePacked(BINARY128, 1) == Decoded(1, -16494, false, false)
    ensures DecodePacked(BINARY32, 0x7F80_0000).invalid && DecodePacked(BINARY64, 0x7FF0_0000_0000_0000).invalid
    ensures DecodePacked(BINARY128, 0x7FFF_0000_0000_0000 * 0x1_0000_0000_0000_0000).invalid
  {
    FormatPowers();
    FirstAndLast(BINARY32, 24, 8);
    FirstAndLast(BINARY64, 53, 11);
    FirstAndLast(BINARY128, 113, 15);
    hide DecodePacked, Pow;
  }

  lemma FirstAndLast(f: Format, precision: pos, exponentBits: pos)
    requires Layout(f, precision, exponentBits)
    ensures DecodePacked(f, 1) == Decoded(1, 1 - (Pow2(exponentBits - 1) - 1) - (precision - 1), false, false)
    ensures DecodePacked(f, (Pow2(exponentBits) - 1) * Pow2(precision - 1)).invalid
  {
    hide DecodePacked, Pack;
    Parameters(f, precision, exponentBits);
    PowMono(2, 1, precision - 1);
    PowMono(2, 1, exponentBits);
    assert Pow2(1) == 2;
    hide Pow;
    DecodeInvertsPack(f, false, 0, 1);
    DecodeInvertsPack(f, false, Pow2(exponentBits) - 1, 0);
    PackUnsigned(f, 0, 1);
    PackUnsigned(f, Pow2(exponentBits) - 1, 0);
  }

  lemma PackUnsigned(f: Format, exponent: nat, trailing: nat)
    requires 0 < f.precision
    ensures Pack(f, false, exponent, trailing) == exponent * Pow2(f.precision - 1) + trailing
  {
  }

  /** The same for the x87 encoding, whose leading one is written. */
  lemma ExtendedPatterns(mode: Mode)
    ensures FloatTo(DecodeX87(0x8000_0000_0000_0000, 0x3FFF), 0, mode, 64) == Ok(1)
    ensures FloatTo(DecodeX87(0x8000_0000_0000_0000, 0xBFFF), 0, mode, 64) == Ok(-1)
    ensures DecodeX87(1, 0) == Decoded(1, -16445, false, false) && DecodeX87(1, 1).invalid
    ensures DecodeX87(0x8000_0000_0000_0000, 0x7FFF).invalid
  {
    OneFits();
    Pow2Words();
    assert DecodeX87(0x8000_0000_0000_0000, 0x3FFF) == ScaledUp(1, 63, false);
    assert DecodeX87(0x8000_0000_0000_0000, 0xBFFF) == ScaledUp(1, 63, true);
    DecodedInteger(1, 63, false, 0, mode, 64);
    DecodedInteger(1, 63, true, 0, mode, 64);
    hide FloatTo, Pow;
  }
}
