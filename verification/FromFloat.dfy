/** Binary floating point into decimal fixed point: the decoded formats of section 3.4 of IEEE
    754-2019 and of the x87, and a single rounding with shift-width limits. */
module FromFloat {
  import opened Arith
  import opened Words
  import opened Rounding
  import opened Signs
  import opened Division
  import Kernels64
  import Mixed

  // ----- decoding -----

  /** (-1)^negative * significand * 2^power, or no number at all. */
  datatype Decoded = Decoded(significand: nat, power: int, negative: bool, invalid: bool)

  /** precision p, exponent field width w, bias. */
  datatype Format = Format(precision: nat, exponentBits: nat, bias: nat)

  const BINARY32 := Format(24, 8, 127)
  const BINARY64 := Format(53, 11, 1023)
  const BINARY128 := Format(113, 15, 16383)

  /** The value of sign, biased exponent and trailing significand fields. */
  function FromFields(f: Format, negative: bool, exponent: nat, trailing: nat): Decoded
    requires 0 < f.precision
  {
    if exponent == Pow2(f.exponentBits) - 1 then Decoded(trailing + Pow2(f.precision - 1), 0, negative, true)
    else if exponent == 0 then Decoded(trailing, 1 - f.bias - (f.precision - 1), negative, false)
    else Decoded(trailing + Pow2(f.precision - 1), exponent - f.bias - (f.precision - 1), negative, false)
  }

  /** The three fields packed into one integer. */
  function Pack(f: Format, negative: bool, exponent: nat, trailing: nat): nat
    requires 0 < f.precision
  {
    ((if negative then Pow2(f.exponentBits) else 0) + exponent) * Pow2(f.precision - 1) + trailing
  }

  /** decode_float for the packed formats: shifts, masks and the hidden bit. */
  function DecodePacked(f: Format, pattern: nat): Decoded
    requires 0 < f.precision
  {
    var fraction := Pow2(f.precision - 1);
    var upper := Quot(pattern, fraction);
    var exponent := Rem(upper, Pow2(f.exponentBits));
    var significand := Rem(pattern, fraction) + if exponent == 0 then 0 else fraction;
    Decoded(significand, (if exponent == 0 then 1 else exponent) - f.bias - (f.precision - 1),
            Quot(upper, Pow2(f.exponentBits)) % 2 != 0, exponent == Pow2(f.exponentBits) - 1)
  }

  ghost predicate SameNumber(a: Decoded, b: Decoded) {
    a.invalid == b.invalid && (!a.invalid ==> a == b)
  }

  /** Decoding a packed number gives the fields' value. */
  lemma DecodeInvertsPack(f: Format, negative: bool, exponent: nat, trailing: nat)
    requires 0 < f.precision && 0 < f.exponentBits && exponent < Pow2(f.exponentBits) && trailing < Pow2(f.precision - 1)
    ensures SameNumber(DecodePacked(f, Pack(f, negative, exponent, trailing)), FromFields(f, negative, exponent, trailing))
  {
    var fraction, top := Pow2(f.precision - 1), Pow2(f.exponentBits);
    var upper := (if negative then top else 0) + exponent;
    assert 2 <= top by { assert top == 2 * Pow2(f.exponentBits - 1); }
    QuotUnique(Pack(f, negative, exponent, trailing), fraction, upper, trailing);
    QuotUnique(upper, top, if negative then 1 else 0, exponent);
    hide Pow, Quot, Rem;
  }

  /** binary128 arrives as two words; only the high one carries fields. */
  function DecodeQuad(low: word, high: word): Decoded {
    var exponent := high / 0x1_0000_0000_0000 % 0x8000;
    var upper := high % 0x1_0000_0000_0000 + if exponent == 0 then 0 else 0x1_0000_0000_0000;
    Decoded(Pair(upper, low), (if exponent == 0 then 1 else exponent) - 16383 - 112, high / HALF != 0, exponent == 0x7fff)
  }

  lemma QuadPowers()
    ensures Pow2(48) == 0x1_0000_0000_0000 && Pow2(15) == 0x8000 && Pow2(112) == 0x1_0000_0000_0000 * W
  {
    Pow2Halves();
    Pow2Words();
    PowAdd(2, 32, 16);
    PowAdd(2, 48, 64);
    assert Pow2(16) == 2 * Pow2(15);
  }

  lemma DecodeQuadIsPacked(low: word, high: word)
    ensures DecodeQuad(low, high) == DecodePacked(BINARY128, Pair(high, low))
  {
    QuadPowers();
    QuadFields(low, high);
    hide Quot, Rem, Pow;
  }

  /** Sign, exponent and fraction of the two words are those of the pattern. */
  lemma QuadFields(low: word, high: word)
    ensures var n, fraction, upper := Pair(high, low), 0x1_0000_0000_0000 * W, high / 0x1_0000_0000_0000;
            Quot(n, fraction) == upper && Rem(n, fraction) == Pair(high % 0x1_0000_0000_0000, low)
            && Quot(upper, 0x8000) == high / HALF <= 1 && Rem(upper, 0x8000) == upper % 0x8000
  {
    var upper, rest := high / 0x1_0000_0000_0000, high % 0x1_0000_0000_0000;
    QuotUnique(Pair(high, low), 0x1_0000_0000_0000 * W, upper, Pair(rest, low));
    QuotUnique(upper, 0x8000, upper / 0x8000, upper % 0x8000);
    DivModUnique(high, HALF, upper / 0x8000, upper % 0x8000 * 0x1_0000_0000_0000 + rest);
  }

  /** x87: an explicit integer bit, which a nonzero exponent requires. */
  function DecodeX87(significand: word, signExponent: nat): Decoded
    requires signExponent < 0x1_0000
  {
    var exponent := signExponent % 0x8000;
    Decoded(significand, (if exponent == 0 then 1 else exponent) - 16383 - 63, signExponent / 0x8000 != 0,
            exponent == 0x7fff || (exponent != 0 && significand < HALF))
  }

  const EXTENDED := Format(64, 15, 16383)

  /** The significand with its integer bit set exactly for a nonzero exponent. */
  ghost predicate Encodes(significand: word, exponent: nat, trailing: nat) {
    trailing < HALF && significand == trailing + if exponent == 0 then 0 else HALF
  }

  /** Normal and denormal x87 numbers are the interchange numbers of the same fields. */
  lemma DecodeX87IsFields(significand: word, negative: bool, exponent: nat, trailing: nat)
    requires exponent < 0x8000 && Encodes(significand, exponent, trailing)
    ensures SameNumber(DecodeX87(significand, (if negative then 0x8000 else 0) + exponent),
                       FromFields(EXTENDED, negative, exponent, trailing))
  {
    QuadPowers();
    Pow2Words();
  }

  /** Every accepted encoding has the value of some interchange fields: its own, or those of
      exponent one for an integer bit without an exponent. What encodes no fields is refused. */
  lemma PseudoNumbers(significand: word, exponent: nat)
    requires exponent < 0x7fff
    ensures DecodeX87(significand, exponent).invalid <==>
              !exists e: nat, trailing: nat :: (e == exponent || (exponent == 0 && e == 1)) && Encodes(significand, e, trailing)
    ensures exponent == 0 && HALF <= significand ==>
              DecodeX87(significand, exponent) == FromFields(EXTENDED, false, 1, significand - HALF)
  {
    QuadPowers();
    Pow2Words();
    hide Pow;
    if exponent == 0 {
      assert Encodes(significand, if significand < HALF then 0 else 1, significand % HALF);
    } else if HALF <= significand {
      assert Encodes(significand, exponent, significand - HALF);
    }
  }

  // ----- the promise -----

  /** The binary value at `decimals` places, rounded once. */
  function FloatTo(d: Decoded, decimals: nat, mode: Mode, bits: pos): Result<int>
  {
    if d.invalid then Err(InvalidValue)
    else Evaluate(Signed(d.significand, d.negative) * Pow10(decimals) * Pow2(Positive(d.power)),
                  Pow2(Positive(0 - d.power)), mode, bits)
  }

  // ----- the intermediate width -----

  function BitLength(n: nat): (k: nat)
    ensures n < Pow2(k) && (n != 0 ==> 0 < k && Pow2(k - 1) <= n)
  {
    if n == 0 then 0
    else
      var k := BitLength(n / 2) + 1;
      assert Pow2(k) == 2 * Pow2(k - 1);
      assert k > 1 ==> Pow2(k - 1) == 2 * Pow2(k - 2);
      k
  }

  /** float_intermediate_bits_v: the smallest of three widths for the product and the target. */
  function WidthFor(digits: nat, decimals: nat, bits: nat): nat {
    var product := digits + if decimals == 0 then 0 else BitLength(Pow(5, decimals));
    if bits <= 64 && product <= 64 then 64 else if product <= 128 then 128 else 256
  }

  /** Five cubed is below two to the seventh. */
  lemma {:induction false} FiveBits(d: nat)
    ensures Pow(5, d) < Pow2(d / 3 * 7 + d % 3 * 3 + 1)
  {
    if d < 3 {
      assert Pow(5, 2) == 25 && Pow(2, 4) == 16 && Pow(2, 7) == 128;
    } else {
      FiveBits(d - 3);
      PowAdd(5, 3, d - 3);
      PowAdd(2, 7, (d - 3) / 3 * 7 + d % 3 * 3 + 1);
      assert Pow(5, 3) == 125 && Pow(2, 7) == 128;
    }
  }

  lemma LengthWithin(n: nat, k: nat)
    requires n < Pow2(k)
    ensures BitLength(n) <= k
  {
    if BitLength(n) > k { PowMono(2, k, BitLength(n) - 1); }
  }

  lemma FiveLength(decimals: nat)
    requires decimals <= 38
    ensures decimals == 0 ==> BitLength(Pow(5, decimals)) <= 1
    ensures BitLength(Pow(5, decimals)) <= 92 && Pow(5, decimals) < Pow2(BitLength(Pow(5, decimals)))
  {
    FiveBits(decimals);
    LengthWithin(Pow(5, decimals), decimals / 3 * 7 + decimals % 3 * 3 + 1);
  }

  /** The product never overflows the width, and the width holds the target's limit. */
  lemma ProductFits(significand: nat, digits: nat, decimals: nat, bits: nat)
    requires significand < Pow2(digits) && digits <= 113 && decimals <= 38 && 0 < bits <= 128
    ensures var width := WidthFor(digits, decimals, bits);
            bits <= width && significand * Pow(5, decimals) < Pow2(width) && Pow(5, decimals) < Pow2(width)
  {
    FiveLength(decimals);
    WidthHolds(digits, decimals, bits);
    assert Pow(5, 0) == 1;
    hide *;
    var width, five: nat, length: nat := WidthFor(digits, decimals, bits), Pow(5, decimals), BitLength(Pow(5, decimals));
    PowMono(2, length, width);
    PowMono(2, digits, width);
    if decimals != 0 {
      PowMono(2, digits + length, width);
      Mixed.BitsProduct(significand, digits, five, length);
    }
  }

  lemma WidthHolds(digits: nat, decimals: nat, bits: nat)
    requires digits <= 113 && decimals <= 38 && 0 < bits <= 128
    ensures var width, length := WidthFor(digits, decimals, bits), BitLength(Pow(5, decimals));
            bits <= width && digits <= width && length <= width && (decimals != 0 ==> digits + length <= width)
  {
    FiveLength(decimals);
    hide BitLength, Pow;
  }

  /** float_pow5_v. */
  method PowerOfFive(decimals: nat, width: nat) returns (five: nat)
    requires Pow(5, decimals) < Pow2(width)
    ensures five == Pow(5, decimals)
  {
    five := 1;
    for i := 0 to decimals
      invariant five == Pow(5, i)
    {
      PowMono(5, i + 1, decimals);
      DivModUnique(five * 5, Pow2(width), 0, five * 5);
      five := five * 5 % Pow2(width);
    }
  }

  // ----- shifting and rounding -----

  /** product * 2^(-shift): what the code's flags say about the part shifted out. */
  function PartFlags(inexact: bool, above: bool, half: bool): Part {
    if !inexact then Nothing else if above then Above else if half then Half else Below
  }

  method ShiftDown(product: nat, shift: pos, width: pos) returns (quotient: nat, inexact: bool, above: bool, half: bool)
    requires 0 < product < Pow2(width)
    ensures quotient == Quot(product, Pow2(shift))
    ensures PartFlags(inexact, above, half) == PartOf(Rem(product, Pow2(shift)), Pow2(shift))
    ensures (above ==> inexact) && (half ==> inexact) && !(above && half)
  {
    assert Pow2(shift) == 2 * Pow2(shift - 1);
    QuotRem(product, Pow2(shift));
    if shift < width {
      quotient := Quot(product, Pow2(shift));
      var remainder := product - quotient * Pow2(shift);
      var middle := Pow2(shift - 1);
      inexact, above, half := remainder != 0, remainder > middle, remainder == middle;
    } else {
      quotient, inexact, above, half := 0, true, false, false;
      PowMono(2, width, shift);
      QuotUnique(product, Pow2(shift), 0, product);
      if shift == width {
        var middle := Pow2(width - 1);
        above, half := product > middle, product == middle;
      } else {
        PowMono(2, width, shift - 1);
      }
    }
  }

  /** Shifting up: refused exactly when the result would exceed the limit, and never formed then. */
  method ShiftUp(product: nat, shift: nat, width: nat, limit: nat) returns (r: Result<nat>)
    requires 0 < product < Pow2(width) && limit < Pow2(width)
    ensures product * Pow2(shift) > limit ==> r == Err(Overflow)
    ensures product * Pow2(shift) <= limit ==> r == Ok(product * Pow2(shift))
  {
    QuotRem(limit, Pow2(shift));
    if shift >= width {
      PowMono(2, width, shift);
      MulMono(1, product, Pow2(shift));
      return Err(Overflow);
    }
    QuotLess(limit, Pow2(shift), product);
    QuotLess(limit, Pow2(shift), product + 1);
    if product > Quot(limit, Pow2(shift)) { return Err(Overflow); }
    MulMono(product, Quot(limit, Pow2(shift)), Pow2(shift));
    r := Ok(product * Pow2(shift));
  }

  /** The rounding switch on the flags, overflow ahead of inexact. */
  method RoundFlags(quotient: nat, inexact: bool, above: bool, half: bool, negative: bool, mode: Mode, limit: nat)
    returns (r: Result<nat>)
    requires (above ==> inexact) && (half ==> inexact) && !(above && half)
    ensures r == Decide(quotient, PartFlags(inexact, above, half), negative, mode, limit)
  {
    if quotient > limit { return Err(Overflow); }
    if !inexact { return Ok(quotient); }
    if mode.Exact? { return Err(Inexact); }
    var increment := match mode
      case TowardZero => false
      case Floor => negative
      case Ceil => !negative
      case NearestEven => above || (half && quotient % 2 == 1)
      case NearestAway => above || half
      case Exact => false;
    if increment && quotient == limit { return Err(Overflow); }
    r := Ok(quotient + if increment then 1 else 0);
  }

  /** Signs in unsigned arithmetic of the storage width. */
  method StoreSigned(m: nat, negative: bool, bits: nat) returns (x: int)
    requires 0 < bits <= 128 && m <= Limit(bits, negative)
    ensures x == Signed(m, negative)
  {
    Limits();
    PowMono(2, bits - 1, if bits <= 64 then 63 else 127);
    assert Limit(64, negative) == HALF - 1 + Bit(negative) && Limit(128, negative) == HALF2 - 1 + Bit(negative);
    if bits <= 64 {
      SignedWord(m, negative);
      x := ApplySignW(m, negative);
    } else {
      SignedDword(m, negative);
      x := ApplySignD(m, negative);
    }
  }

  /** Ten to the d is five to the d, shifted: the powers of two cancel. */
  lemma FloatIsShifted(d: Decoded, decimals: nat, mode: Mode, bits: pos)
    requires !d.invalid
    ensures var shift := d.power + decimals; var product := d.significand * Pow(5, decimals);
            FloatTo(d, decimals, mode, bits)
            == Evaluate(Signed(product * Pow2(Positive(shift)), d.negative), Pow2(Positive(0 - shift)), mode, bits)
  {
    var shift := d.power + decimals;
    var common := TwosCancel(d.power, decimals);
    hide Pow, Evaluate, Signed;
    CancelCommon(d.significand, d.negative, Pow10(decimals), Pow(5, decimals), Pow2(decimals), Pow2(Positive(d.power)),
                 Pow2(Positive(shift)), Pow2(common), Pow2(Positive(0 - shift)), Pow2(Positive(0 - d.power)), mode, bits);
  }

  lemma CancelCommon(m: nat, negative: bool, ten: nat, five: nat, two: nat, up: nat, shift: nat, common: pos,
                     low: pos, den: pos, mode: Mode, bits: pos)
    requires ten == five * two && two * up == shift * common && den == low * common
    ensures Evaluate(Signed(m, negative) * ten * up, den, mode, bits)
            == Evaluate(Signed(m * five * shift, negative), low, mode, bits)
  {
    hide *;
    ShiftedNumerator(m, negative, ten, five, two, up, shift, common);
    EvaluateScale(Signed(m * five * shift, negative), low, common, mode, bits);
  }

  lemma TwosCancel(power: int, decimals: nat) returns (common: nat)
    ensures Pow10(decimals) == Pow(5, decimals) * Pow2(decimals)
    ensures Pow2(decimals) * Pow2(Positive(power)) == Pow2(Positive(power + decimals)) * Pow2(common)
    ensures Pow2(Positive(0 - power)) == Pow2(Positive(0 - (power + decimals))) * Pow2(common)
  {
    common := Positive(power) + decimals - Positive(power + decimals);
    PowProduct(5, 2, decimals);
    PowAdd(2, decimals, Positive(power));
    PowAdd(2, Positive(power + decimals), common);
    PowAdd(2, Positive(0 - (power + decimals)), common);
    hide Pow;
    assert Positive(0 - power) == Positive(0 - (power + decimals)) + common;
  }

  lemma ShiftedNumerator(m: nat, negative: bool, ten: nat, five: nat, two: nat, up: nat, shift: nat, common: nat)
    requires ten == five * two && two * up == shift * common
    ensures Signed(m, negative) * ten * up == Signed(m * five * shift, negative) * common
  {
    hide *;
    SignedScale(m * five * shift, negative, common);
    SignedScale(m, negative, ten * up);
    RegroupFloat(m, five, two, up, shift, common);
    Regroup(Signed(m, negative), ten, up);
  }

  lemma RegroupFloat(m: int, five: int, two: int, up: int, shift: int, common: int)
    requires two * up == shift * common
    ensures m * ((five * two) * up) == m * five * shift * common
  {
    assert (five * two) * up == five * (two * up);
    assert m * (five * (shift * common)) == m * five * (shift * common);
    assert m * five * (shift * common) == m * five * shift * common;
  }

  /** from_float_fast. */
  method Convert(d: Decoded, digits: nat, decimals: nat, mode: Mode, bits: nat) returns (r: Result<int>)
    requires d.significand < Pow2(digits) && digits <= 113 && decimals <= 38 && 0 < bits <= 128
    ensures r == FloatTo(d, decimals, mode, bits)
  {
    if d.invalid { return Err(InvalidValue); }
    FloatIsShifted(d, decimals, mode, bits);
    if d.significand == 0 {
      ZeroFloat(d, decimals, mode, bits);
      return Ok(0);
    }
    hide *;
    r := ConvertFinite(d.significand, d.power + decimals, d.negative, digits, decimals, mode, bits);
  }

  /** A nonzero significand times the power of five, in the chosen width, shifted and rounded. */
  method ConvertFinite(significand: pos, shift: int, negative: bool, digits: nat, decimals: nat, mode: Mode, bits: nat)
    returns (r: Result<int>)
    requires significand < Pow2(digits) && digits <= 113 && decimals <= 38 && 0 < bits <= 128
    ensures r == Evaluate(Signed(significand * Pow(5, decimals) * Pow2(Positive(shift)), negative),
                          Pow2(Positive(0 - shift)), mode, bits)
  {
    ProductFits(significand, digits, decimals, bits);
    hide *;
    var width := WidthFor(digits, decimals, bits);
    var product := Product(significand, decimals, width);
    r := ConvertProduct(product, shift, negative, mode, bits, width);
  }

  /** The product in the chosen width; nothing is cut off. */
  method Product(significand: pos, decimals: nat, width: nat) returns (product: nat)
    requires significand * Pow(5, decimals) < Pow2(width) && Pow(5, decimals) < Pow2(width)
    ensures product == significand * Pow(5, decimals) && 0 < product
  {
    hide Pow;
    var five := PowerOfFive(decimals, width);
    DivModUnique(significand * five, Pow2(width), 0, significand * five);
    MulMono(1, significand, five);
    product := significand * five % Pow2(width);
  }

  lemma ZeroFloat(d: Decoded, decimals: nat, mode: Mode, bits: pos)
    requires !d.invalid && d.significand == 0
    ensures FloatTo(d, decimals, mode, bits) == Ok(0)
  {
    QuotUnique(0, Pow2(Positive(0 - d.power)), 0, 0);
  }

  method ConvertProduct(product: nat, power: int, negative: bool, mode: Mode, bits: nat, width: nat) returns (r: Result<int>)
    requires 0 < product < Pow2(width) && 0 < bits <= 128 && bits <= width
    ensures r == Evaluate(Signed(product * Pow2(Positive(power)), negative), Pow2(Positive(0 - power)), mode, bits)
  {
    PowStrict(2, bits - 1, width);
    assert Pow2(0) == 1;
    var limit := Limit(bits, negative);
    var rounded: Result<nat>;
    if power >= 0 {
      WholeShift(product, power, negative, mode, bits);
      hide Pow, Evaluate, Decide;
      rounded := ShiftUp(product, power, width, limit);
    } else {
      EvaluateFlag(product, Pow2(0 - power), negative, mode, bits);
      UnitNumerator(product);
      hide Pow, Evaluate, Quot, Rem;
      var quotient, inexact, above, half := ShiftDown(product, 0 - power, width);
      rounded := RoundFlags(quotient, inexact, above, half, negative, mode, limit);
    }
    match rounded
    case Err(e) => r := Err(e);
    case Ok(m) =>
      var x := StoreSigned(m, negative, bits);
      r := Ok(x);
  }

  lemma UnitNumerator(product: nat)
    ensures product * Pow2(0) == product
  {
    assert Pow2(0) == 1;
  }

  lemma WholeShift(product: nat, power: nat, negative: bool, mode: Mode, bits: pos)
    ensures var n := product * Pow2(power);
            Evaluate(Signed(n, negative), Pow2(0), mode, bits)
            == if n > Limit(bits, negative) then Err(Overflow) else Ok(Signed(n, negative))
  {
    var n := product * Pow2(power);
    assert Pow2(0) == 1;
    QuotUnique(n, 1, n, 0);
    hide Pow;
    EvaluateFlag(n, 1, negative, mode, bits);
  }

  lemma SignificandBound(f: Format, pattern: nat)
    requires 0 < f.precision
    ensures DecodePacked(f, pattern).significand < Pow2(f.precision)
  {
    assert Pow2(f.precision) == 2 * Pow2(f.precision - 1);
  }

  /** Any packed format of at most 113 digits, decoded and converted. */
  method ConvertPacked(f: Format, pattern: nat, decimals: nat, mode: Mode, bits: nat) returns (r: Result<int>)
    requires 0 < f.precision <= 113 && decimals <= 38 && 0 < bits <= 128
    ensures r == FloatTo(DecodePacked(f, pattern), decimals, mode, bits)
  {
    SignificandBound(f, pattern);
    hide FloatTo;
    r := Convert(DecodePacked(f, pattern), f.precision, decimals, mode, bits);
  }

  /** The IEEE formats as they arrive: one word, or two for binary128. */
  method ConvertInterchange(f: Format, low: word, high: word, decimals: nat, mode: Mode, bits: nat) returns (r: Result<int>)
    requires f in {BINARY32, BINARY64, BINARY128} && (f == BINARY128 || high == 0)
    requires decimals <= 38 && 0 < bits <= 128
    ensures r == FloatTo(DecodePacked(f, Pair(high, low)), decimals, mode, bits)
  {
    hide FloatTo, Pow;
    if f == BINARY128 {
      DecodeQuadIsPacked(low, high);
      SignificandBound(f, Pair(high, low));
      r := Convert(DecodeQuad(low, high), 113, decimals, mode, bits);
    } else {
      r := ConvertPacked(f, low, decimals, mode, bits);
    }
  }

  method ConvertX87(significand: word, signExponent: nat, decimals: nat, mode: Mode, bits: nat) returns (r: Result<int>)
    requires signExponent < 0x1_0000 && decimals <= 38 && 0 < bits <= 128
    ensures r == FloatTo(DecodeX87(significand, signExponent), decimals, mode, bits)
  {
    Pow2Words();
    hide FloatTo, Pow;
    r := Convert(DecodeX87(significand, signExponent), 64, decimals, mode, bits);
  }
}
