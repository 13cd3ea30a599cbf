/** Printing and parsing are inverse: a printed text parses to the quantized value. */
module RoundTrip {
  import opened Arith
  import opened Rounding
  import opened Operations
  import opened Decimal
  import opened Printer

  predicate AllDigits(s: string) { forall i :: 0 <= i < |s| ==> IsDigit(s[i]) }

  // ----- digits of composed strings -----

  lemma {:induction false} DigitsAppend(a: string, b: string)
    ensures DigitsOf(a + b) == DigitsOf(a) + DigitsOf(b)
  {
    if b == "" {
      assert a + b == a;
    } else {
      var init := b[..|b| - 1];
      DigitsAppend(a, init);
      assert (a + b)[..|a + b| - 1] == a + init;
    }
  }

  lemma {:induction false} DigitsLength(s: string)
    requires AllDigits(s)
    ensures |DigitsOf(s)| == |s| && FractionDigits(s) == 0
  {
    if s != "" { DigitsLength(s[..|s| - 1]); }
  }

  lemma {:induction false} TextNumber(n: nat)
    ensures Number(DigitsOf(DecimalText(n))) == n
  {
    if n < 10 {
      assert DigitsOf(DecimalText(n)) == [n];
    } else {
      TextNumber(n / 10);
      var d := DigitChar(n % 10);
      assert (DecimalText(n / 10) + [d])[..|DecimalText(n / 10)|] == DecimalText(n / 10);
      NumberStep(DigitsOf(DecimalText(n / 10)), n % 10);
    }
  }

  lemma {:induction false} ZerosDigits(j: nat)
    ensures |DigitsOf(ZeroChars(j))| == j && Number(DigitsOf(ZeroChars(j))) == 0
  {
    if j != 0 {
      ZerosDigits(j - 1);
      ZerosStep(j - 1);
      hide *;
    }
  }

  lemma ZerosStep(j: nat)
    ensures |DigitsOf(ZeroChars(j + 1))| == |DigitsOf(ZeroChars(j))| + 1
    ensures Number(DigitsOf(ZeroChars(j + 1))) == 10 * Number(DigitsOf(ZeroChars(j)))
  {
    assert ZeroChars(j + 1) == ZeroChars(j) + ['0'];
    LastDigit(ZeroChars(j), '0');
    hide DigitsOf, Number, ZeroChars;
    NumberStep(DigitsOf(ZeroChars(j)), 0);
  }

  /** Digits of two strings side by side, as numbers. */
  lemma SideBySide(a: string, b: string)
    requires AllDigits(b)
    ensures Number(DigitsOf(a + b)) == Number(DigitsOf(a)) * Pow10(|b|) + Number(DigitsOf(b))
  {
    DigitsAppend(a, b);
    DigitsLength(b);
    hide *;
    NumberConcat(DigitsOf(a), DigitsOf(b));
  }

  lemma NumberConcat(x: seq<digit>, y: seq<digit>)
    ensures Number(x + y) == Number(x) * Pow10(|y|) + Number(y)
  {
    hide *;
    assert (x + y)[..|x|] == x && (x + y)[|x|..] == y && |x + y| - |x| == |y|;
    NumberSplit(x + y, |x|);
  }

  lemma {:induction false} FractionLength(whole: string, frac: string)
    requires AllDigits(whole) && AllDigits(frac)
    ensures FractionDigits(whole + "." + frac) == |frac| && DigitsOf(whole + "." + frac) == DigitsOf(whole + frac)
    ensures PlainDecimal(whole + "." + frac)
  {
    PlainPoint(whole, frac);
    if frac == "" {
      PointAtEnd(whole);
      assert whole + frac == whole && whole + "." + frac == whole + ".";
    } else {
      var init, c := frac[..|frac| - 1], frac[|frac| - 1];
      FractionLength(whole, init);
      LastOfFraction(whole, frac, init, c);
      assert IsDigit(c);
      hide *;
      LastDigit(whole + "." + init, c);
      LastDigit(whole + init, c);
    }
  }

  lemma LastOfFraction(whole: string, frac: string, init: string, c: char)
    requires frac == init + [c]
    ensures whole + "." + frac == whole + "." + init + [c] && whole + frac == whole + init + [c]
    ensures '.' in whole + "." + init
  {
    assert (whole + "." + init)[|whole|] == '.';
  }

  lemma PointAtEnd(whole: string)
    requires AllDigits(whole)
    ensures FractionDigits(whole + ".") == 0 && DigitsOf(whole + ".") == DigitsOf(whole)
  {
    var t := whole + ".";
    assert t[..|t| - 1] == whole;
    DigitsLength(whole);
  }

  lemma LastDigit(s: string, c: char)
    requires IsDigit(c)
    ensures DigitsOf(s + [c]) == DigitsOf(s) + [DigitValue(c)]
    ensures FractionDigits(s + [c]) == FractionDigits(s) + if '.' in s then 1 else 0
  {
    assert (s + [c])[..|s|] == s;
  }

  lemma NextDigit(s: string, c: char, t: string)
    requires IsDigit(c) && t == s + [c]
    ensures Number(DigitsOf(t)) == 10 * Number(DigitsOf(s)) + DigitValue(c)
  {
    LastDigit(s, c);
    hide DigitsOf, Number;
    NumberStep(DigitsOf(s), DigitValue(c));
  }

  lemma PlainPoint(whole: string, frac: string)
    requires AllDigits(whole) && AllDigits(frac)
    ensures PlainDecimal(whole + "." + frac)
  {
  }

  /** The two parts of a rendering spell its number. */
  lemma Parts(n: nat, k: nat)
    ensures var w, f := WholePart(DecimalText(n), k), FractionPart(DecimalText(n), k);
            w != "" && AllDigits(w) && AllDigits(f) && |f| == k && Number(DigitsOf(w + f)) == n
  {
    var d := DecimalText(n);
    var w, f := WholePart(d, k), FractionPart(d, k);
    TextNumber(n);
    hide Number, DigitsOf, DecimalText, Pow;
    if |d| > k {
      assert w + f == d;
    } else {
      var z := 1 + (k - |d|);
      assert w + f == ZeroChars(z) + d by { assert ZeroChars(z) == "0" + ZeroChars(z - 1); }
      SideBySide(ZeroChars(z), d);
      ZerosDigits(z);
      assert 0 * Pow10(|d|) == 0;
    }
  }

  // ----- trimming -----

  lemma {:induction false} TrimIs(s: string) returns (j: nat)
    ensures j <= |s| && TrimZeros(s) == s[..|s| - j]
    ensures forall i :: |s| - j <= i < |s| ==> s[i] == '0'
    ensures j < |s| ==> s[|s| - j - 1] != '0'
  {
    if s != "" && s[|s| - 1] == '0' {
      var before := s[..|s| - 1];
      var i := TrimIs(before);
      j := i + 1;
      assert before[..|before| - i] == s[..|s| - j];
    } else {
      j := 0;
    }
  }

  /** Trimming removes exactly the trailing zeros of the fraction, then a bare point. */
  lemma TrimPoint(whole: string, frac: string) returns (j: nat)
    requires AllDigits(frac)
    ensures j <= |frac| && frac == frac[..|frac| - j] + ZeroChars(j)
    ensures Trimmed(whole + "." + frac) == if j == |frac| then whole else whole + "." + frac[..|frac| - j]
    ensures j < |frac| ==> frac[|frac| - j - 1] != '0'
  {
    var t := whole + "." + frac;
    hide TrimZeros;
    j := TrimIs(t);
    assert t[|whole|] == '.' && forall i :: 0 <= i < |frac| ==> t[|whole| + 1 + i] == frac[i];
    var kept := t[..|t| - j];
    assert kept == whole + "." + frac[..|frac| - j];
    assert frac == frac[..|frac| - j] + ZeroChars(j);
    if j == |frac| {
      assert kept[..|kept| - 1] == whole;
    }
  }

  // ----- the printed text -----

  /** What a text without exponent says: m * 10^-f with a sign. */
  ghost predicate Says(t: string, m: nat, f: nat, negative: bool) {
    && WellFormed(t) && Exponent(t) == 0 && Minus(t) == negative
    && Number(DigitsOf(MantissaOf(t))) == m && FractionDigits(MantissaOf(t)) == f
  }

  lemma PlainText(sign: string, core: string)
    requires sign in {"", "-"} && 0 < |core| <= 4000 && PlainDecimal(core) && IsDigit(core[0])
    ensures Says(sign + core, Number(DigitsOf(core)), FractionDigits(core), sign == "-")
  {
    hide DigitsOf, Number, FractionDigits, MarkAt, MantissaOf, HasExponent, Minus, Unsigned, PlainDecimal;
    MantissaIs(sign, core);
    SomeDigit(core);
  }

  lemma SomeDigit(core: string)
    requires core != "" && IsDigit(core[0])
    ensures DigitsOf(core) != []
  {
    DigitsAppend(core[..1], core[1..]);
    assert core[..1] + core[1..] == core && core[..1][..0] == "";
    assert DigitsOf(core[..1]) == [DigitValue(core[0])];
  }

  lemma MantissaIs(sign: string, core: string)
    requires sign in {"", "-"} && core != "" && PlainDecimal(core) && IsDigit(core[0])
    ensures MantissaOf(sign + core) == core && !HasExponent(sign + core) && Minus(sign + core) == (sign == "-")
  {
    NoMark(core);
    hide MarkAt, PlainDecimal;
    assert Unsigned(sign + core) == core;
    assert core[..|core|] == core;
  }

  lemma NoMark(core: string)
    requires PlainDecimal(core)
    ensures MarkAt(core) == |core|
  {
    if MarkAt(core) < |core| { assert IsMark(core[MarkAt(core)]); }
  }

  /** A rendering says n * 10^-k: trimming j zeros divides both sides by 10^j. */
  lemma RenderSays(n: nat, k: nat, negative: bool, trim: bool) returns (j: nat, m: nat)
    requires |DecimalText(n)| <= 78 && k <= 76
    ensures j <= k && m * Pow10(j) == n && Says(Render(n, k, negative, trim), m, k - j, negative && n != 0)
  {
    var sign := if negative && n != 0 then "-" else "";
    var w, f := WholePart(DecimalText(n), k), FractionPart(DecimalText(n), k);
    RenderShape(n, k, negative, trim);
    ShortWhole(n, k);
    hide *;
    Parts(n, k);
    if k == 0 {
      assert w + f == w;
      WholeSays(sign, w);
      j, m := 0, n;
    } else if !trim {
      PointSays(sign, w, f);
      j, m := 0, n;
    } else {
      j, m := TrimmedSays(sign, w, f);
    }
  }

  lemma RenderShape(n: nat, k: nat, negative: bool, trim: bool)
    ensures var sign := if negative && n != 0 then "-" else "";
            var w, f := WholePart(DecimalText(n), k), FractionPart(DecimalText(n), k);
            var full := sign + w + "." + f;
            Render(n, k, negative, trim) == if k == 0 then sign + w else if trim then Trimmed(full) else full
  {
    var sign := if negative && n != 0 then "-" else "";
    var w, f := WholePart(DecimalText(n), k), FractionPart(DecimalText(n), k);
    hide DecimalText, Trimmed, ZeroChars, WholePart, FractionPart;
    assert w + "" == w && sign + (w + ("." + f)) == sign + w + "." + f;
  }

  lemma ShortWhole(n: nat, k: nat)
    ensures |DecimalText(n)| <= 78 ==> |WholePart(DecimalText(n), k)| <= 78
    ensures Pow10(0) == 1
  {
    hide DecimalText;
  }

  lemma PointSays(sign: string, w: string, f: string)
    requires sign in {"", "-"} && 0 < |w| <= 78 && |f| <= 76 && AllDigits(w) && AllDigits(f)
    ensures Says(sign + w + "." + f, Number(DigitsOf(w + f)), |f|, sign == "-")
  {
    FractionLength(w, f);
    hide DigitsOf, Number, FractionDigits, PlainDecimal, Says;
    assert sign + w + "." + f == sign + (w + "." + f);
    PlainText(sign, w + "." + f);
  }

  lemma TrimmedSays(sign: string, w: string, f: string) returns (j: nat, m: nat)
    requires sign in {"", "-"} && 0 < |w| <= 78 && |f| <= 76 && AllDigits(w) && AllDigits(f)
    ensures j <= |f| && m * Pow10(j) == Number(DigitsOf(w + f)) && Says(Trimmed(sign + w + "." + f), m, |f| - j, sign == "-")
  {
    hide DigitsOf, Number, FractionDigits, PlainDecimal, Says, Trimmed, TrimZeros, Pow;
    j := TrimPoint(sign + w, f);
    var kept := f[..|f| - j];
    m := Number(DigitsOf(w + kept));
    assert w + f == (w + kept) + ZeroChars(j);
    SideBySide(w + kept, ZeroChars(j));
    ZerosDigits(j);
    if j == |f| {
      assert w + kept == w;
      WholeSays(sign, w);
    } else {
      PointSays(sign, w, kept);
    }
  }

  lemma WholeSays(sign: string, w: string)
    requires sign in {"", "-"} && 0 < |w| <= 4000 && AllDigits(w)
    ensures Says(sign + w, Number(DigitsOf(w)), 0, sign == "-")
  {
    DigitsLength(w);
    PlainText(sign, w);
  }

  // ----- the theorem -----

  /** An integer at a finer grid, checked for range. */
  lemma WholeAtScale(m: nat, shift: nat, negative: bool, mode: Mode, bits: pos)
    ensures AtScale(m, shift, negative, mode, bits)
            == if Fits(Signed(m * Pow10(shift), negative), bits) then Ok(Signed(m * Pow10(shift), negative)) else Err(Overflow)
  {
    assert Pow(10, 0) == 1;
    SignedScale(m, negative, Pow10(shift));
    var n := m * Pow10(shift);
    QuotUnique(n, 1, n, 0);
    hide Pow, Quot, Rem;
    EvaluateFlag(n, 1, negative, mode, bits);
  }

  /** Quantizing never overflows before it rescales: a tenth of the range is far from its end. */
  lemma QuantizeIsReduced(raw: int, decimals: nat, k: nat, mode: Mode, bits: pos)
    requires 8 <= bits && Fits(raw, bits) && k <= decimals
    ensures var r := Reduced(raw, decimals - k, mode); var g := Pow10(decimals - k);
            Quantize(raw, decimals, k, mode, bits)
            == if r.Err? then Err(Inexact)
               else if Fits(Signed(r.value, raw < 0) * g, bits) then Ok(Signed(r.value, raw < 0) * g) else Err(Overflow)
  {
    var g := Pow10(decimals - k);
    if k == decimals {
      assert g == 1;
      QuotUnique(Abs(raw), 1, Abs(raw), 0);
    } else {
      hide Pow, Quot, Rem, Fits, AwayFromZero;
    }
  }

  /** Main theorem: printing at k decimals and parsing back, in any mode and with or without
      trimming, is `quantize` to k, in value, overflow and inexactness. */
  lemma ParsePrinted(raw: int, decimals: nat, k: nat, trim: bool, mode: Mode, parseMode: Mode, bits: nat)
    requires Width(bits) && Fits(raw, bits) && k <= decimals <= 76
    ensures Print(raw, decimals, k, trim, mode) == Err(Inexact) <==> Quantize(raw, decimals, k, mode, bits) == Err(Inexact)
    ensures var text := Print(raw, decimals, k, trim, mode);
            text.Ok? ==> Parse(text.value, decimals, parseMode, bits) == Quantize(raw, decimals, k, mode, bits)
  {
    QuantizeIsReduced(raw, decimals, k, mode, bits);
    var r := Reduced(raw, decimals - k, mode);
    OnlyInexact(raw, decimals - k, mode);
    hide Quantize, Reduced;
    if r.Ok? {
      ReducedText(raw, decimals - k, mode, bits);
      RenderParses(r.value, decimals, k, raw < 0, trim, parseMode, bits);
    }
  }

  /** A rendering of n at k decimals parses to n * 10^(decimals - k), if that fits. */
  lemma RenderParses(n: nat, decimals: nat, k: nat, negative: bool, trim: bool, mode: Mode, bits: pos)
    requires |DecimalText(n)| <= 78 && k <= 76 && k <= decimals
    ensures var x := Signed(n, negative) * Pow10(decimals - k);
            Parse(Render(n, k, negative, trim), decimals, mode, bits) == if Fits(x, bits) then Ok(x) else Err(Overflow)
  {
    hide Pow, Render, DecimalText, Says, Parse, AtScale, Fits;
    var j, m := RenderSays(n, k, negative, trim);
    var shift := decimals - (k - j);
    SaysParses(Render(n, k, negative, trim), m, k - j, negative && n != 0, decimals, mode, bits);
    WholeAtScale(m, shift, negative && n != 0, mode, bits);
    PowAdd(10, j, decimals - k);
    Regroup(m, Pow10(j), Pow10(decimals - k));
    SignedScale(n, negative, Pow10(decimals - k));
    assert n == 0 ==> m * Pow10(shift) == 0;
  }

  lemma SaysParses(t: string, m: nat, f: nat, negative: bool, decimals: nat, mode: Mode, bits: pos)
    requires Says(t, m, f, negative)
    ensures Parse(t, decimals, mode, bits) == ParseOutcome(AtScale(m, decimals - f, negative, mode, bits))
  {
    hide DigitsOf, Number, FractionDigits, AtScale, MantissaOf, Exponent;
  }

  lemma ReducedText(raw: int, reduce: nat, mode: Mode, bits: nat)
    requires Width(bits) && Fits(raw, bits)
    ensures Reduced(raw, reduce, mode).Ok? ==> |DecimalText(Reduced(raw, reduce, mode).value)| <= 78
  {
    PowMono(2, bits - 1, 255);
    LargePowers();
    ReducedBound(raw, reduce, mode);
    hide Pow, Reduced, Quot, Rem, DecimalText;
    if Reduced(raw, reduce, mode).Ok? { TextLength(Reduced(raw, reduce, mode).value, 78); }
  }

  lemma ReducedBound(raw: int, reduce: nat, mode: Mode)
    ensures Reduced(raw, reduce, mode).Ok? ==> Reduced(raw, reduce, mode).value <= Abs(raw) + 1
  {
    var g := Pow10(reduce);
    QuotRem(Abs(raw), g);
    hide Pow, Quot, Rem, PartOf, AwayFromZero;
    MulMono(1, g, Quot(Abs(raw), g));
  }

  /** Full-precision text is inverted by the parser for every raw value. */
  lemma ParseFullText(raw: int, decimals: nat, trim: bool, mode: Mode, bits: nat)
    requires Width(bits) && Fits(raw, bits) && decimals <= 76
    ensures Print(raw, decimals, decimals, trim, mode).Ok?
    ensures Parse(Print(raw, decimals, decimals, trim, mode).value, decimals, Exact, bits) == Ok(raw)
  {
    ParsePrinted(raw, decimals, decimals, trim, mode, Exact, bits);
    QuotUnique(Abs(raw), 1, Abs(raw), 0);
  }
}
