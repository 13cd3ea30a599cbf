/** Decimal text: the grammar, the number a text denotes, and what a digit sequence cut at
    some place rounds to. */
module Decimal {
  import opened Arith
  import opened Rounding

  type digit = x: nat | x < 10

  predicate IsDigit(c: char) { '0' <= c <= '9' }

  function DigitValue(c: char): digit
    requires IsDigit(c)
  {
    c as int - '0' as int
  }

  // ----- the grammar -----

  function DigitsOf(s: string): seq<digit> {
    if s == "" then []
    else
      var c := s[|s| - 1];
      DigitsOf(s[..|s| - 1]) + if IsDigit(c) then [DigitValue(c)] else []
  }

  /** Digits written after the decimal point. */
  function FractionDigits(s: string): nat {
    if s == "" then 0
    else
      var before := s[..|s| - 1];
      FractionDigits(before) + if IsDigit(s[|s| - 1]) && '.' in before then 1 else 0
  }

  predicate PlainDecimal(s: string) {
    && (forall i :: 0 <= i < |s| ==> IsDigit(s[i]) || s[i] == '.')
    && (forall i, j :: 0 <= i < j < |s| && s[i] == '.' ==> s[j] != '.')
  }

  /** Digits with at most one point among them, and at least one digit. */
  predicate IsMantissa(s: string) { PlainDecimal(s) && DigitsOf(s) != [] }

  predicate IsInteger(s: string) { s != "" && forall i :: 0 <= i < |s| ==> IsDigit(s[i]) }

  predicate Minus(s: string) { s != "" && s[0] == '-' }

  function Unsigned(s: string): string { if s != "" && (s[0] == '-' || s[0] == '+') then s[1..] else s }

  predicate IsMark(c: char) { c == 'e' || c == 'E' }

  /** Where the exponent mark stands, or the length. */
  function MarkAt(s: string): (k: nat)
    ensures k <= |s| && (forall i :: 0 <= i < k ==> !IsMark(s[i])) && (k < |s| ==> IsMark(s[k]))
  {
    if s == "" then 0 else if IsMark(s[0]) then 0
    else
      var k := MarkAt(s[1..]);
      assert forall i :: 0 <= i < |s| - 1 ==> s[1..][i] == s[i + 1];
      k + 1
  }

  function MantissaOf(text: string): string { Unsigned(text)[..MarkAt(Unsigned(text))] }

  predicate HasExponent(text: string) { MarkAt(Unsigned(text)) < |Unsigned(text)| }

  function ExponentText(text: string): string
    requires HasExponent(text)
  {
    Unsigned(text)[MarkAt(Unsigned(text)) + 1..]
  }

  predicate WellFormed(text: string) {
    && 0 < |text| <= 4096
    && IsMantissa(MantissaOf(text))
    && (HasExponent(text) ==> IsInteger(Unsigned(ExponentText(text))))
  }

  // ----- the number -----

  function Number(d: seq<digit>): nat {
    if d == [] then 0 else 10 * Number(d[..|d| - 1]) + d[|d| - 1]
  }

  /** The exponent as written, however long. */
  function Exponent(text: string): int {
    if !HasExponent(text) then 0
    else Signed(Number(DigitsOf(Unsigned(ExponentText(text)))), Minus(ExponentText(text)))
  }

  /** (-1)^negative * m * 10^shift, rounded once. */
  function AtScale(m: nat, shift: int, negative: bool, mode: Mode, bits: pos): Result<int>
  {
    Evaluate(Signed(m, negative) * Pow10(Positive(shift)), Pow10(Positive(0 - shift)), mode, bits)
  }

  function Denoted(text: string, decimals: nat, mode: Mode, bits: pos): Result<int>
  {
    AtScale(Number(DigitsOf(MantissaOf(text))), decimals + Exponent(text) - FractionDigits(MantissaOf(text)),
            Minus(text), mode, bits)
  }

  function ParseOutcome(r: Result<int>): Result<int> {
    if r == Err(Inexact) then Err(TooPrecise) else r
  }

  /** What parsing promises: the written decimal at `decimals` places, rounded once. */
  function Parse(text: string, decimals: nat, mode: Mode, bits: pos): Result<int>
  {
    if text == "" then Err(Empty)
    else if !WellFormed(text) then Err(Invalid)
    else ParseOutcome(Denoted(text, decimals, mode, bits))
  }

  // ----- digit sequences -----

  function Significant(d: seq<digit>): seq<digit> {
    if d == [] then []
    else
      var before := Significant(d[..|d| - 1]);
      if before == [] && d[|d| - 1] == 0 then [] else before + [d[|d| - 1]]
  }

  lemma {:induction false} SignificantNumber(d: seq<digit>)
    ensures Number(Significant(d)) == Number(d)
    ensures |Significant(d)| <= |d| && (Significant(d) != [] ==> Significant(d)[0] != 0)
  {
    if d != [] {
      var n := |d| - 1;
      SignificantNumber(d[..n]);
      var before := Significant(d[..n]);
      assert Significant(d) == if before == [] && d[n] == 0 then [] else before + [d[n]];
      assert Number(d) == 10 * Number(d[..n]) + d[n];
      assert Number([]) == 0;
      hide Significant, Number;
      NumberStep(before, d[n]);
    }
  }

  lemma NumberStep(d: seq<digit>, x: digit)
    ensures Number(d + [x]) == 10 * Number(d) + x
  {
    assert (d + [x])[..|d|] == d;
  }

  lemma {:induction false} NumberSplit(d: seq<digit>, i: nat)
    requires i <= |d|
    ensures Number(d) == Number(d[..i]) * Pow10(|d| - i) + Number(d[i..])
    decreases |d|
  {
    if i == |d| {
      assert d[..i] == d;
    } else {
      var n := |d| - 1;
      NumberSplit(d[..n], i);
      assert d[..n][..i] == d[..i] && d[..n][i..] == d[i..][..n - i];
      var a, p := Number(d[..i]), Pow10(n - i);
      assert Pow10(|d| - i) == 10 * p;
      assert 10 * (a * p) == a * (10 * p) by { hide *; MoveFactor(10, a, p); }
    }
  }

  lemma {:induction false} NumberBound(d: seq<digit>)
    ensures Number(d) < Pow10(|d|)
  {
    if d != [] { NumberBound(d[..|d| - 1]); }
  }

  lemma NumberLeading(d: seq<digit>)
    requires d != [] && d[0] != 0
    ensures Pow10(|d| - 1) <= Number(d)
  {
    NumberSplit(d, 1);
    assert d[..1][..0] == [] && Number(d[..1]) == d[0];
    MulMono(1, d[0], Pow10(|d| - 1));
  }

  // ----- cutting a number at a digit -----

  /** The digits kept of 0.s * 10^keep, and what the rest amounts to. */
  function KeptNumber(s: seq<digit>, keep: int): nat {
    if keep < 0 then 0
    else if |s| <= keep then Number(s) * Pow10(keep - |s|)
    else Number(s[..keep])
  }

  function TailPart(s: seq<digit>, keep: int): Part {
    if |s| <= keep then Nothing
    else if keep < 0 then Below
    else PartOf(Number(s[keep..]), Pow10(|s| - keep))
  }

  function Cut(s: seq<digit>, keep: int, negative: bool, mode: Mode, bits: pos): Result<int>
  {
    SignedResult(Decide(KeptNumber(s, keep), TailPart(s, keep), negative, mode, Limit(bits, negative)), negative)
  }

  /** Cutting the significant digits at `keep` places is rounding the number once. */
  lemma CutIsRounded(s: seq<digit>, keep: int, negative: bool, mode: Mode, bits: pos)
    requires s != [] && s[0] != 0
    ensures Cut(s, keep, negative, mode, bits) == AtScale(Number(s), keep - |s|, negative, mode, bits)
  {
    var k := keep - |s|;
    var n, d := Number(s) * Pow10(Positive(k)), Pow10(Positive(0 - k));
    assert Pow10(0) == 1;
    QuotientAtCut(s, keep);
    hide Evaluate, Pow, Number, KeptNumber, TailPart;
    SignedScale(Number(s), negative, Pow10(Positive(k)));
    EvaluateFlag(n, d, negative, mode, bits);
  }

  lemma QuotientAtCut(s: seq<digit>, keep: int)
    requires s != [] && s[0] != 0
    ensures var n, d := Number(s) * Pow10(Positive(keep - |s|)), Pow10(Positive(|s| - keep));
            Quot(n, d) == KeptNumber(s, keep) && PartOf(Rem(n, d), d) == TailPart(s, keep)
  {
    var n, d := Number(s) * Pow10(Positive(keep - |s|)), Pow10(Positive(|s| - keep));
    TimesPow0(Number(s));
    if keep >= |s| {
      assert d == 1 && n == KeptNumber(s, keep) && TailPart(s, keep) == Nothing;
      hide *;
      WholeQuotient(n);
    } else {
      assert n == Number(s) && d == Pow10(|s| - keep);
      if keep < 0 { TinyPart(s, keep); } else { NumberSplit(s, keep); NumberBound(s[keep..]); }
      hide Number, Pow, Quot, Rem;
      QuotUnique(n, d, KeptNumber(s, keep), if keep < 0 then n else Number(s[keep..]));
    }
  }

  lemma TimesPow0(n: nat)
    ensures Pow10(0) == 1 && n * Pow10(0) == n
  {
  }

  lemma WholeQuotient(n: nat)
    ensures Quot(n, 1) == n && PartOf(Rem(n, 1), 1) == Nothing
  {
    QuotUnique(n, 1, n, 0);
  }

  lemma TinyPart(s: seq<digit>, keep: int)
    requires s != [] && s[0] != 0 && keep < 0
    ensures 0 < Number(s) && 2 * Number(s) < Pow10(|s| - keep)
  {
    NumberBound(s);
    NumberLeading(s);
    PowMono(10, |s| + 1, |s| - keep);
    assert Pow10(|s| + 1) == 10 * Pow10(|s|);
  }

  /** The stand-in remainder over ten for a discarded tail: 0, 1, 5 or 6. */
  function StandIn(nonzero: bool, first: digit, rest: bool): digit {
    if !nonzero then 0 else if first < 5 then 1 else if first > 5 || rest then 6 else 5
  }

  /** It decides every mode as the tail itself does. */
  lemma StandInDecides(tail: seq<digit>)
    requires tail != []
    ensures PartOf(StandIn(Number(tail) != 0, tail[0], Number(tail[1..]) != 0), 10) == PartOf(Number(tail), Pow10(|tail|))
  {
    NumberSplit(tail, 1);
    NumberBound(tail[1..]);
    assert tail[..1][..0] == [] && Number(tail[..1]) == tail[0];
    assert Pow10(|tail|) == 10 * Pow10(|tail| - 1);
    hide *;
    StandInParts(tail[0], Number(tail[1..]), Pow10(|tail| - 1));
  }

  lemma StandInParts(first: digit, rest: nat, p: nat)
    requires rest < p
    ensures PartOf(StandIn(first * p + rest != 0, first, rest != 0), 10) == PartOf(first * p + rest, 10 * p)
  {
    if first < 5 { MulMono(first, 4, p); } else { MulMono(if first == 5 then 5 else 6, first, p); }
    if 0 < first { MulMono(1, first, p); }
  }

  /** More kept digits never make the number smaller. */
  lemma {:induction false} KeptGrows(s: seq<digit>, i: nat, keep: nat)
    requires i <= |s| && i <= keep
    ensures Number(s[..i]) * Pow10(if |s| <= keep then keep - |s| else 0) <= KeptNumber(s, keep)
    ensures Number(s[..i]) <= KeptNumber(s, keep)
  {
    var j := if |s| <= keep then |s| else keep;
    NumberSplit(s[..j], i);
    assert s[..j][..i] == s[..i] && s[..|s|] == s;
    var scale := Pow10(if |s| <= keep then keep - |s| else 0);
    MulMono(1, Pow10(j - i), Number(s[..i]));
    MulMono(Number(s[..i]), Number(s[..j]), scale);
    MulMono(1, scale, Number(s[..i]));
    assert Pow10(0) == 1;
  }

  // ----- the size test -----

  /** max_digits_for_bits. */
  function MaxDigits(bits: nat): nat {
    if bits == 8 then 3 else if bits == 16 then 5 else if bits == 32 then 10
    else if bits == 64 then 19 else if bits == 128 then 39 else 78
  }

  /** A number with more integer digits than that is out of range. */
  lemma DigitsExceedLimit(bits: nat, negative: bool)
    requires Width(bits)
    ensures Limit(bits, negative) < Pow10(MaxDigits(bits))
  {
    if bits <= 16 {
      assert Pow(2, 7) == 128 && Pow(10, 3) == 1000 && Pow(10, 5) == 100000;
      PowAdd(2, 7, 8);
    } else if bits == 32 {
      Pow2Halves();
    } else {
      LargePowers();
    }
  }

  lemma LargePowers()
    ensures Pow10(19) == 10_000_000_000_000_000_000 > Pow2(63)
    ensures Pow10(39) > Pow2(127) && Pow10(39) > Pow2(128) && Pow10(78) > Pow2(256) > Pow2(255)
  {
    TwentyDigits();
    Pow2Doubles();
    Pow2Words();
    PowAdd(10, 19, 20);
    hide *;
    ProductIs(Pow10(39), Pow10(19), Pow10(20));
    SquareOf39();
  }

  lemma ProductIs(z: nat, x: nat, y: nat)
    requires z == x * y && x == 10_000_000_000_000_000_000 && y == 100_000_000_000_000_000_000
    ensures z == 10_000_000_000_000_000_000 * 100_000_000_000_000_000_000
  {
  }

  lemma SquareOf39()
    requires Pow10(39) > Pow2(128)
    ensures Pow10(78) > Pow2(256) > Pow2(255)
  {
    PowAdd(10, 39, 39);
    PowAdd(2, 128, 128);
    PowStrict(2, 255, 256);
    hide *;
    SquareBound(Pow2(128), Pow2(128), Pow10(39));
  }

  lemma SquareBound(x: nat, y: nat, z: nat)
    requires x < z && y < z
    ensures x * y < z * z
  {
    MulBound(x, z - 1, y, z);
    MulStrict(z - 1, z, z);
  }

  lemma TwentyDigits()
    ensures Pow10(19) == 10_000_000_000_000_000_000 && Pow10(20) == 100_000_000_000_000_000_000
  {
    PowAdd(10, 9, 10);
    PowAdd(10, 10, 10);
  }
}
