/** Decimal texts put together from their parts: which texts the parser accepts, and which number
    each of them writes. */
module Spelling {
  import opened Arith
  import opened Rounding
  import opened Meaning
  import opened Decimal
  import Printer
  import RoundTrip
  import ExactResults

  // ----- the parts of a text -----

  datatype Tail = Plain | Exponent(mark: char, sign: string, digits: string)

  datatype Spelling = Spelling(sign: string, whole: string, point: bool, fraction: string, tail: Tail)

  predicate IsSign(s: string) { s == "" || s == "+" || s == "-" }

  /** An optional sign, digits with at most one point among them, and optionally a mark with an
      optionally signed exponent. */
  predicate IsSpelling(p: Spelling) {
    && IsSign(p.sign) && RoundTrip.AllDigits(p.whole) && RoundTrip.AllDigits(p.fraction) && p.whole + p.fraction != ""
    && (!p.point ==> p.fraction == "")
    && (p.tail.Exponent? ==> (p.tail.mark == 'e' || p.tail.mark == 'E') && IsSign(p.tail.sign)
                             && p.tail.digits != "" && RoundTrip.AllDigits(p.tail.digits))
  }

  function Core(p: Spelling): string {
    if p.point then p.whole + "." + p.fraction else p.whole
  }

  function TailText(t: Tail): string {
    if t.Plain? then "" else [t.mark] + (t.sign + t.digits)
  }

  function Spell(p: Spelling): string { p.sign + (Core(p) + TailText(p.tail)) }

  // ----- the number it writes -----

  function NumberOf(digits: string): nat { Number(DigitsOf(digits)) }

  function ExponentOf(t: Tail): int {
    if t.Plain? then 0 else if t.sign == "-" then 0 - NumberOf(t.digits) else NumberOf(t.digits)
  }

  /** The digits, moved by the exponent and by the digits after the point, with the sign. */
  function Written(p: Spelling): real {
    var n := NumberOf(p.whole + p.fraction) as real * Power(10, ExponentOf(p.tail) - |p.fraction|);
    if p.sign == "-" then -n else n
  }

  // ----- every spelling is accepted -----

  lemma MarkStands(s: string, k: nat)
    requires k <= |s| && (forall i :: 0 <= i < k ==> !IsMark(s[i])) && (k < |s| ==> IsMark(s[k]))
    ensures MarkAt(s) == k
  {
    var m := MarkAt(s);
    assert m < |s| ==> IsMark(s[m]);
  }

  lemma SignComesOff(sign: string, rest: string)
    requires IsSign(sign) && rest != "" && rest[0] != '-' && rest[0] != '+'
    ensures Unsigned(sign + rest) == rest && (Minus(sign + rest) <==> sign == "-")
  {
    if sign == "" { assert sign + rest == rest; }
  }

  lemma SplitText(sign: string, core: string, tail: string)
    requires IsSign(sign) && core != "" && (forall i :: 0 <= i < |core| ==> IsDigit(core[i]) || core[i] == '.')
    requires tail != "" ==> IsMark(tail[0])
    ensures var t := sign + (core + tail);
            Unsigned(t) == core + tail && (Minus(t) <==> sign == "-") && MantissaOf(t) == core
            && (HasExponent(t) <==> tail != "") && (tail != "" ==> ExponentText(t) == tail[1..])
  {
    SignComesOff(sign, core + tail);
    MarkStands(core + tail, |core|);
    hide MarkAt, Unsigned, Minus, IsSign, IsMark, IsDigit;
    Pieces(core, tail);
  }

  lemma Pieces(core: string, tail: string)
    ensures var u := core + tail; u[..|core|] == core && (tail != "" ==> u[|core| + 1..] == tail[1..])
  {
  }

  lemma CoreShape(p: Spelling)
    requires IsSpelling(p)
    ensures Core(p) != "" && (forall i :: 0 <= i < |Core(p)| ==> IsDigit(Core(p)[i]) || Core(p)[i] == '.')
    ensures (TailText(p.tail) != "" <==> p.tail.Exponent?) && IsSign(p.sign)
    ensures p.tail.Exponent? ==> IsMark(TailText(p.tail)[0]) && TailText(p.tail)[1..] == p.tail.sign + p.tail.digits
  {
  }

  lemma PartsOfText(p: Spelling)
    requires IsSpelling(p)
    ensures (Minus(Spell(p)) <==> p.sign == "-") && MantissaOf(Spell(p)) == Core(p)
    ensures (HasExponent(Spell(p)) <==> p.tail.Exponent?) && Spell(p) != ""
    ensures p.tail.Exponent? ==> ExponentText(Spell(p)) == p.tail.sign + p.tail.digits
  {
    CoreShape(p);
    hide IsSpelling, Core, TailText, MarkAt, Unsigned, Minus, MantissaOf, HasExponent, ExponentText;
    SplitText(p.sign, Core(p), TailText(p.tail));
  }

  lemma CoreDigits(p: Spelling)
    requires IsSpelling(p)
    ensures PlainDecimal(Core(p)) && DigitsOf(Core(p)) == DigitsOf(p.whole + p.fraction) != []
    ensures FractionDigits(Core(p)) == |p.fraction|
  {
    RoundTrip.DigitsLength(p.whole + p.fraction);
    if p.point {
      RoundTrip.FractionLength(p.whole, p.fraction);
    } else {
      assert p.whole + p.fraction == p.whole;
    }
    hide DigitsOf, FractionDigits;
  }

  lemma Accepted(p: Spelling)
    requires IsSpelling(p) && |Spell(p)| <= 4096
    ensures WellFormed(Spell(p)) && Decimal.Exponent(Spell(p)) == ExponentOf(p.tail)
  {
    hide Spell, Core, MarkAt, Unsigned, Minus, MantissaOf, HasExponent, ExponentText, DigitsOf, Number, PlainDecimal;
    PartsOfText(p);
    CoreDigits(p);
    if p.tail.Exponent? { SignComesOff(p.tail.sign, p.tail.digits); }
  }

  /** Main theorem: a composed text parses to the number it writes, rounded once. */
  lemma ParseSpelled(p: Spelling, decimals: nat, mode: Mode, bits: pos)
    requires IsSpelling(p) && |Spell(p)| <= 4096
    ensures Parse(Spell(p), decimals, mode, bits)
            == ParseOutcome(AtScale(NumberOf(p.whole + p.fraction), decimals + ExponentOf(p.tail) - |p.fraction|,
                                    p.sign == "-", mode, bits))
  {
    hide *;
    Accepted(p);
    PartsOfText(p);
    CoreDigits(p);
    NumberIs(p);
    ParseUnfolds(Spell(p), decimals, mode, bits);
  }

  lemma NumberIs(p: Spelling)
    ensures NumberOf(p.whole + p.fraction) == Number(DigitsOf(p.whole + p.fraction))
  {
  }

  lemma ParseUnfolds(text: string, decimals: nat, mode: Mode, bits: pos)
    requires WellFormed(text)
    ensures Parse(text, decimals, mode, bits)
            == ParseOutcome(AtScale(Number(DigitsOf(MantissaOf(text))),
                                    decimals + Decimal.Exponent(text) - FractionDigits(MantissaOf(text)),
                                    Minus(text), mode, bits))
  {
  }

  /** r is x rounded once, with the parser's name for a number Exact cannot hold. */
  ghost predicate ParsedAs(x: real, mode: Mode, bits: pos, r: Result<int>) {
    exists s :: Correct(x, mode, bits, s) && r == if s == Err(Inexact) then Err(TooPrecise) else s
  }

  /** The same in real numbers. */
  lemma ParseMeans(p: Spelling, decimals: nat, mode: Mode, bits: pos)
    requires IsSpelling(p) && |Spell(p)| <= 4096
    ensures ParsedAs(Written(p) * Scale(decimals), mode, bits, Parse(Spell(p), decimals, mode, bits))
  {
    hide *;
    ParseSpelled(p, decimals, mode, bits);
    WrittenUnits(p, decimals);
    UnitsCorrect(NumberOf(p.whole + p.fraction), decimals + ExponentOf(p.tail) - |p.fraction|, p.sign == "-", mode, bits);
  }

  /** A signed number moved by a power of ten. */
  function Units(n: nat, shift: int, negative: bool): real { Signed(n, negative) as real * Power(10, shift) }

  lemma UnitsCorrect(n: nat, shift: int, negative: bool, mode: Mode, bits: pos)
    ensures ParsedAs(Units(n, shift, negative), mode, bits, ParseOutcome(AtScale(n, shift, negative, mode, bits)))
  {
    hide AtScale, Signed, Power, Correct;
    ExactResults.AtScale(n, shift, negative, mode, bits);
  }

  lemma WrittenUnits(p: Spelling, decimals: nat)
    ensures Written(p) * Scale(decimals)
            == Units(NumberOf(p.whole + p.fraction), decimals + ExponentOf(p.tail) - |p.fraction|, p.sign == "-")
  {
    hide Power, Scale, NumberOf, ExponentOf;
    PowerUp(ExponentOf(p.tail) - |p.fraction|, decimals);
    MovedIs(Power(10, ExponentOf(p.tail) - |p.fraction|), decimals);
    assert ExponentOf(p.tail) - |p.fraction| + decimals == decimals + ExponentOf(p.tail) - |p.fraction|;
    SignedUnits(NumberOf(p.whole + p.fraction), p.sign == "-", Power(10, ExponentOf(p.tail) - |p.fraction|),
                Scale(decimals), Power(10, decimals + ExponentOf(p.tail) - |p.fraction|));
  }

  lemma SignedUnits(n: nat, negative: bool, p: real, s: real, q: real)
    requires p * s == q
    ensures (if negative then -(n as real * p) else n as real * p) * s == Signed(n, negative) as real * q
  {
    var x := n as real;
    assert (x * p) * s == x * (p * s) && (-(x * p)) * s == (-x) * (p * s);
  }

  /** p * 10^n. */
  function Moved(p: real, n: nat): real { p * Scale(n) }

  lemma MovedIs(p: real, n: nat)
    ensures Moved(p, n) == p * Scale(n) && Moved(p, 0) == p && (0 < n ==> Moved(p, n) == 10.0 * Moved(p, n - 1))
  {
    assert Scale(0) == 1.0;
    if 0 < n { assert Scale(n) == 10.0 * Scale(n - 1); }
  }

  /** 10^e * 10^n = 10^(e + n). */
  lemma {:induction false} PowerUp(e: int, n: nat)
    ensures Moved(Power(10, e), n) == Power(10, e + n)
  {
    hide *;
    MovedIs(Power(10, e), n);
    if n != 0 {
      PowerUp(e, n - 1);
      PowerStep(10, e + n - 1);
      assert e + (n - 1) == e + n - 1;
    }
  }

  /** An exponent written as a number. */
  lemma ExponentWritten(mark: char, sign: string, n: nat)
    ensures ExponentOf(Exponent(mark, sign, Printer.DecimalText(n))) == if sign == "-" then 0 - n else n
    ensures RoundTrip.AllDigits(Printer.DecimalText(n)) && Printer.DecimalText(n) != ""
  {
    RoundTrip.TextNumber(n);
  }

  /** So an exponent n moves the point n places, up or down. */
  lemma ParseScientific(p: Spelling, n: nat, decimals: nat, mode: Mode, bits: pos)
    requires IsSpelling(p) && |Spell(p)| <= 4096 && p.tail.Exponent? && p.tail.digits == Printer.DecimalText(n)
    ensures Parse(Spell(p), decimals, mode, bits)
            == ParseOutcome(AtScale(NumberOf(p.whole + p.fraction),
                                    decimals + (if p.tail.sign == "-" then 0 - n else n) - |p.fraction|,
                                    p.sign == "-", mode, bits))
  {
    hide *;
    ExponentWritten(p.tail.mark, p.tail.sign, n);
    ParseSpelled(p, decimals, mode, bits);
  }

  // ----- every accepted text is a spelling -----

  lemma PartsOfSigned(s: string) returns (sign: string)
    ensures IsSign(sign) && sign + Unsigned(s) == s
  {
    sign := s[..|s| - |Unsigned(s)|];
  }

  lemma PartsOfCore(core: string) returns (whole: string, point: bool, fraction: string)
    requires IsMantissa(core)
    ensures RoundTrip.AllDigits(whole) && RoundTrip.AllDigits(fraction) && whole + fraction != "" && (!point ==> fraction == "")
    ensures core == if point then whole + "." + fraction else whole
  {
    if i :| 0 <= i < |core| && core[i] == '.' {
      whole, point, fraction := core[..i], true, core[i + 1..];
      NoDigit();
    } else {
      whole, point, fraction := core, false, "";
    }
  }

  lemma NoDigit()
    ensures DigitsOf(".") == []
  {
    assert "."[..0] == "";
  }

  /** What follows the mantissa. */
  function TailOf(text: string): string
  {
    Unsigned(text)[MarkAt(Unsigned(text))..]
  }

  lemma PartsOfTail(text: string) returns (t: Tail)
    requires WellFormed(text)
    ensures TailText(t) == TailOf(text)
    ensures t.Exponent? ==> IsMark(t.mark) && IsSign(t.sign) && t.digits != "" && RoundTrip.AllDigits(t.digits)
  {
    if HasExponent(text) {
      var sign := PartsOfSigned(ExponentText(text));
      assert IsMark(TailOf(text)[0]) && ExponentText(text) == TailOf(text)[1..];
      hide IsMark, MarkAt, TailOf, ExponentText, HasExponent, IsMantissa, MantissaOf, Unsigned, IsSign;
      t := Exponent(TailOf(text)[0], sign, Unsigned(ExponentText(text)));
    } else {
      t := Plain;
    }
  }

  lemma Decompose(text: string) returns (p: Spelling)
    requires WellFormed(text)
    ensures IsSpelling(p) && text == Spell(p)
  {
    MantissaAndTail(text);
    assert IsMantissa(MantissaOf(text));
    hide WellFormed, IsMantissa, MantissaOf, TailOf, Unsigned;
    var sign := PartsOfSigned(text);
    var whole, point, fraction := PartsOfCore(MantissaOf(text));
    var tail := PartsOfTail(text);
    p := Spelling(sign, whole, point, fraction, tail);
    hide TailText, RoundTrip.AllDigits, IsSign;
  }

  lemma MantissaAndTail(text: string)
    ensures Unsigned(text) == MantissaOf(text) + TailOf(text)
  {
    hide Unsigned, MarkAt;
  }

  lemma WellFormedIsSpelled(text: string)
    ensures WellFormed(text) <==> |text| <= 4096 && exists p :: IsSpelling(p) && text == Spell(p)
  {
    if WellFormed(text) {
      var p := Decompose(text);
    }
    hide *;
    if |text| <= 4096 && exists p :: IsSpelling(p) && text == Spell(p) {
      var p :| IsSpelling(p) && text == Spell(p);
      Accepted(p);
    }
  }

  lemma RefusedTexts(text: string, decimals: nat, mode: Mode, bits: pos)
    ensures Parse(text, decimals, mode, bits) == Err(Empty) <==> text == ""
    ensures Parse(text, decimals, mode, bits) == Err(Invalid) <==> text != "" && !WellFormed(text)
  {
    hide WellFormed, MantissaOf, Decimal.Exponent, Minus, FractionDigits, Evaluate;
    var shift := decimals + Decimal.Exponent(text) - FractionDigits(MantissaOf(text));
    OnlyTwoErrors(Signed(Number(DigitsOf(MantissaOf(text))), Minus(text)) * Pow10(Positive(shift)), Pow10(Positive(0 - shift)),
                  mode, bits);
  }

  /** Main theorem: the spellings of at most 4096 characters are exactly what is accepted. */
  lemma Grammar(text: string, decimals: nat, mode: Mode, bits: pos)
    ensures Parse(text, decimals, mode, bits) == Err(Empty) <==> text == ""
    ensures Parse(text, decimals, mode, bits) == Err(Invalid)
            <==> text != "" && !(|text| <= 4096 && exists p :: IsSpelling(p) && text == Spell(p))
  {
    hide *;
    RefusedTexts(text, decimals, mode, bits);
    WellFormedIsSpelled(text);
  }

  // ----- texts written out -----

  /** A text that writes a whole number of units parses to it in every mode, if it fits. */
  lemma ParseWhole(p: Spelling, decimals: nat, mode: Mode, bits: pos, shift: nat, n: nat)
    requires IsSpelling(p) && |Spell(p)| <= 4096
    requires shift == decimals + ExponentOf(p.tail) - |p.fraction| && n == NumberOf(p.whole + p.fraction) * Pow10(shift)
    ensures var v := Signed(n, p.sign == "-");
            Parse(Spell(p), decimals, mode, bits) == if Fits(v, bits) then Ok(v) else Err(Overflow)
  {
    hide *;
    ParseSpelled(p, decimals, mode, bits);
    RoundTrip.WholeAtScale(NumberOf(p.whole + p.fraction), shift, p.sign == "-", mode, bits);
    NamesError(Signed(n, p.sign == "-"), bits);
  }

  lemma NamesError(v: int, bits: pos)
    ensures var r := if Fits(v, bits) then Ok(v) else Err(Overflow); ParseOutcome(r) == r
  {
  }

  lemma Grown(s: string, c: char, t: string)
    requires IsDigit(c) && t == s + [c]
    ensures NumberOf(t) == 10 * NumberOf(s) + DigitValue(c)
  {
    RoundTrip.NextDigit(s, c, t);
  }

  lemma Numerals()
    ensures NumberOf("1") == 1 && NumberOf("2") == 2 && NumberOf("5") == 5
    ensures NumberOf("125") == 125 && NumberOf("1234567890") == 1234567890
  {
    assert NumberOf("") == 0;
    hide NumberOf;
    Grown("", '5', "5");
    Grown("", '2', "2");
    Grown("", '1', "1");
    Grown("1", '2', "12");
    Grown("12", '5', "125");
    Grown("12", '3', "123");
    Grown("123", '4', "1234");
    Grown("1234", '5', "12345");
    Grown("12345", '6', "123456");
    Grown("123456", '7', "1234567");
    Grown("1234567", '8', "12345678");
    Grown("12345678", '9', "123456789");
    Grown("123456789", '0', "1234567890");
  }

  lemma ShortNumbers()
    ensures forall v :: Abs(v) < 10_000_000_000 ==> Fits(v, 64)
    ensures Pow10(0) == 1 && Pow10(4) == 10000
  {
    Pow2Words();
    assert Pow2(64) == 2 * Pow2(63);
    hide Pow2;
  }

  const TENTHS := Spelling("-", "12", true, "5", Exponent('E', "-", "1"))
  const HUNDRED := Spelling("", "1", false, "", Exponent('e', "", "2"))
  const SIGNED_HUNDRED := Spelling("", "1", false, "", Exponent('E', "+", "2"))
  const HALF := Spelling("+", "", true, "5", Plain)
  const ALL_DIGITS := Spelling("", "1234567890", true, "", Plain)

  ghost predicate Composes(p: Spelling, text: string, digits: string) {
    IsSpelling(p) && Spell(p) == text && p.whole + p.fraction == digits
  }

  lemma TenthsText()
    ensures Composes(TENTHS, "-12.5E-1", "125") && |TENTHS.fraction| == 1 && ExponentOf(TENTHS.tail) == -1
  {
    Numerals();
    hide NumberOf;
  }

  lemma HundredText()
    ensures Composes(HUNDRED, "1e2", "1") && |HUNDRED.fraction| == 0 && ExponentOf(HUNDRED.tail) == 2
  {
    Numerals();
    hide NumberOf;
  }

  lemma SignedHundredText()
    ensures Composes(SIGNED_HUNDRED, "1E+2", "1") && |SIGNED_HUNDRED.fraction| == 0 && ExponentOf(SIGNED_HUNDRED.tail) == 2
  {
    Numerals();
    hide NumberOf;
  }

  lemma HalfText()
    ensures Composes(HALF, "+.5", "5") && |HALF.fraction| == 1 && ExponentOf(HALF.tail) == 0
  {
    hide NumberOf;
  }

  lemma AllDigitsText()
    ensures Composes(ALL_DIGITS, "1234567890.", "1234567890") && |ALL_DIGITS.fraction| == 0 && ExponentOf(ALL_DIGITS.tail) == 0
  {
    hide NumberOf;
  }

  /** A composed text of a short number. */
  lemma Literal(p: Spelling, text: string, digits: string, decimals: nat, mode: Mode, shift: nat, n: nat)
    requires Composes(p, text, digits) && |text| <= 4096
    requires shift == decimals + ExponentOf(p.tail) - |p.fraction| && n == NumberOf(digits) * Pow10(shift) < 10_000_000_000
    ensures Parse(text, decimals, mode, 64) == Ok(Signed(n, p.sign == "-"))
  {
    hide IsSpelling, Spell, NumberOf, ExponentOf, Parse, Fits, Pow;
    ShortNumbers();
    ParseWhole(p, decimals, mode, 64, shift, n);
  }

  lemma Literals(mode: Mode)
    ensures Parse("-12.5E-1", 2, mode, 64) == Ok(-125)
    ensures Parse("1e2", 2, mode, 64) == Ok(10000) && Parse("1E+2", 2, mode, 64) == Ok(10000)
    ensures Parse("+.5", 1, mode, 64) == Ok(5) && Parse("1234567890.", 0, mode, 64) == Ok(1234567890)
  {
    hide Composes, NumberOf, ExponentOf, Parse, Pow;
    Numerals();
    ShortNumbers();
    TenthsText();
    HundredText();
    SignedHundredText();
    HalfText();
    AllDigitsText();
    Literal(TENTHS, "-12.5E-1", "125", 2, mode, 0, 125);
    Literal(HUNDRED, "1e2", "1", 2, mode, 4, 10000);
    Literal(SIGNED_HUNDRED, "1E+2", "1", 2, mode, 4, 10000);
    Literal(HALF, "+.5", "5", 1, mode, 0, 5);
    Literal(ALL_DIGITS, "1234567890.", "1234567890", 0, mode, 0, 1234567890);
  }
}
