/** The printed text by its characters: what it looks like, which number it shows, and that
    nothing else looks like that. */
module Printed {
  import opened Arith
  import opened Rounding
  import opened Meaning
  import opened Decimal
  import opened Printer
  import opened RoundTrip

  // ----- the text of an integer at k decimals -----

  function SignText(negative: bool): string { if negative then "-" else "" }

  /** A point only before digits. */
  function Joined(negative: bool, w: string, f: string): string {
    SignText(negative) + w + (if f == "" then "" else "." + f)
  }

  /** Digits before and after the point, with no leading zero but a lone one, and their number. */
  ghost predicate Spells(w: string, f: string, n: nat) {
    w != "" && AllDigits(w) && AllDigits(f) && (w[0] == '0' ==> w == "0") && Number(DigitsOf(w + f)) == n
  }

  /** All k decimals, or those up to the last one that is not zero. */
  predicate Decimals(f: string, k: nat, trim: bool) {
    |f| <= k && if trim then f != "" ==> f[|f| - 1] != '0' else |f| == k
  }

  /** The text shows v * 10^-k. */
  ghost predicate Shows(text: string, v: int, k: nat, trim: bool) {
    exists w, f, n: nat :: Spells(w, f, n) && Decimals(f, k, trim) && n * Pow10(k - |f|) == Abs(v) && text == Joined(v < 0, w, f)
  }

  lemma {:induction false} NoLeadingZero(n: nat)
    ensures DecimalText(n)[0] == '0' ==> n == 0 && DecimalText(n) == "0"
  {
    if n >= 10 { NoLeadingZero(n / 10); }
  }

  lemma WholeLeads(n: nat, k: nat)
    ensures WholePart(DecimalText(n), k)[0] == '0' ==> WholePart(DecimalText(n), k) == "0"
  {
    NoLeadingZero(n);
    hide DecimalText;
  }

  lemma JoinedIs(negative: bool, w: string, f: string)
    ensures Joined(negative, w, f) == if f == "" then SignText(negative) + w else SignText(negative) + w + "." + f
  {
  }

  lemma PartsShow(w: string, f: string, n: nat, negative: bool, k: nat, trim: bool, unit: nat)
    requires Spells(w, f, n) && Decimals(f, k, trim) && |f| <= k && unit == n * Pow10(k - |f|) && (negative ==> 0 < unit)
    ensures Shows(Joined(negative, w, f), Signed(unit, negative), k, trim)
  {
    hide Spells, Decimals, Joined, Pow;
  }

  /** Every rendering shows its number. */
  lemma RenderShows(n: nat, k: nat, negative: bool, trim: bool)
    ensures Shows(Render(n, k, negative, trim), Signed(n, negative), k, trim)
  {
    var w, f := WholePart(DecimalText(n), k), FractionPart(DecimalText(n), k);
    var minus := negative && n != 0;
    RenderIs(n, k, negative, trim, w, f);
    PartsSpell(n, k);
    JoinedIs(minus, w, f);
    assert Signed(n, negative) == Signed(n, minus) && Pow10(0) == 1;
    hide *;
    if k == 0 || !trim {
      assert Decimals(f, k, trim) by { NoDecimals(f, k, trim); }
      PartsShow(w, f, n, minus, k, trim, n);
    } else {
      TrimmedShows(w, f, n, minus, k);
    }
  }

  lemma NoDecimals(f: string, k: nat, trim: bool)
    requires |f| == k && (k == 0 || !trim)
    ensures Decimals(f, k, trim)
  {
  }

  lemma PartsSpell(n: nat, k: nat)
    ensures Spells(WholePart(DecimalText(n), k), FractionPart(DecimalText(n), k), n) && |FractionPart(DecimalText(n), k)| == k
  {
    WholeLeads(n, k);
    Parts(n, k);
    hide DecimalText, WholePart, FractionPart, DigitsOf, Number;
  }

  lemma RenderIs(n: nat, k: nat, negative: bool, trim: bool, w: string, f: string)
    requires w == WholePart(DecimalText(n), k) && f == FractionPart(DecimalText(n), k)
    ensures var full := SignText(negative && n != 0) + w + "." + f;
            Render(n, k, negative, trim)
            == if k == 0 then SignText(negative && n != 0) + w else if trim then Trimmed(full) else full
  {
    RenderShape(n, k, negative, trim);
    hide DecimalText, WholePart, FractionPart, Trimmed, Render;
  }

  lemma TrimmedShows(w: string, f: string, n: nat, negative: bool, k: pos)
    requires Spells(w, f, n) && |f| == k && (negative ==> 0 < n)
    ensures Shows(Trimmed(SignText(negative) + w + "." + f), Signed(n, negative), k, true)
  {
    hide Trimmed, DigitsOf, Number, Pow, ZeroChars, Shows, SignText, Joined;
    var j := TrimPoint(SignText(negative) + w, f);
    JoinedIs(negative, w, f[..k - j]);
    TrimmedSpells(w, f, n, j);
    assert Decimals(f[..k - j], k, true);
    PartsShow(w, f[..k - j], Number(DigitsOf(w + f[..k - j])), negative, k, true, n);
  }

  /** Zeros at the end count for nothing but a power of ten. */
  lemma TrimmedSpells(w: string, f: string, n: nat, j: nat)
    requires Spells(w, f, n) && j <= |f| && f == f[..|f| - j] + ZeroChars(j)
    ensures var m := Number(DigitsOf(w + f[..|f| - j])); Spells(w, f[..|f| - j], m) && n == m * Pow10(j)
  {
    hide DigitsOf, Number, Pow, ZeroChars;
    var kept := f[..|f| - j];
    assert w + f == (w + kept) + ZeroChars(j);
    SideBySide(w + kept, ZeroChars(j));
    ZerosDigits(j);
  }

  // ----- the theorem -----

  lemma ReducedIsRounded(raw: int, reduce: nat, mode: Mode)
    ensures var r := Reduced(raw, reduce, mode);
            if r.Ok? then IsRounded(raw, Pow10(reduce), mode, Signed(r.value, raw < 0))
            else r == Err(Inexact) && mode.Exact? && !Divides(raw, Pow10(reduce))
  {
    var q, rem := Quot(Abs(raw), Pow10(reduce)), Rem(Abs(raw), Pow10(reduce));
    QuotRem(Abs(raw), Pow10(reduce));
    RoundedByOffset(raw, Pow10(reduce), q, rem, mode, RoundedMagnitude(q, PartOf(rem, Pow10(reduce)), raw < 0, mode) - q);
    hide Pow, Quot, Rem, IsRounded, RoundedMagnitude;
  }

  lemma ExactOnly(raw: int, reduce: nat)
    ensures Reduced(raw, reduce, Exact).Ok? <==> Divides(raw, Pow10(reduce))
  {
    hide Pow, Quot, Rem;
  }

  /** The value in units of the last of k decimals. */
  function InUnits(raw: int, decimals: nat, k: nat): real { Value(raw, decimals) * Scale(k) }

  lemma UnitsAt(raw: int, decimals: nat, k: nat)
    requires k <= decimals
    ensures InUnits(raw, decimals, k) * Pow10(decimals - k) as real == raw as real
  {
    hide Pow, Value, Scale;
    ScaleAdd(k, decimals - k);
    ValueTimes(raw, decimals);
    Regrouped(Value(raw, decimals), Scale(k), Scale(decimals - k), Scale(decimals));
    assert Scale(decimals - k) == Pow10(decimals - k) as real by { ScaleIs(decimals - k); }
  }

  lemma ScaleIs(n: nat)
    ensures Scale(n) == Pow10(n) as real
  {
    hide Pow;
  }

  lemma Regrouped(v: real, s: real, g: real, t: real)
    requires t == s * g
    ensures (v * s) * g == v * t
  {
  }

  ghost predicate ShowsRounded(text: string, x: real, k: nat, trim: bool, mode: Mode) {
    exists v :: RoundsTo(x, mode, v) && Shows(text, v, k, trim)
  }

  /** Main theorem: the text shows the value rounded to k decimals; there is none exactly when
      more decimals are asked for than are held, or Exact would have to round. */
  lemma PrintShows(raw: int, decimals: nat, k: nat, trim: bool, mode: Mode)
    ensures var r, x := Print(raw, decimals, k, trim, mode), InUnits(raw, decimals, k);
            if decimals < k then r == Err(InvalidPrecision)
            else if mode.Exact? && !IsWhole(x) then r == Err(Inexact)
            else r.Ok? && ShowsRounded(r.value, x, k, trim, mode)
  {
    PrintIs(raw, decimals, k, trim, mode);
    hide *;
    if k <= decimals {
      UnitsAt(raw, decimals, k);
      ReducedShows(raw, decimals - k, k, trim, mode, InUnits(raw, decimals, k));
    }
  }

  lemma PrintIs(raw: int, decimals: nat, k: nat, trim: bool, mode: Mode)
    ensures decimals < k ==> Print(raw, decimals, k, trim, mode) == Err(InvalidPrecision)
    ensures k <= decimals ==>
              var reduced := Reduced(raw, decimals - k, mode);
              Print(raw, decimals, k, trim, mode)
              == if reduced.Ok? then Ok(Render(reduced.value, k, raw < 0, trim)) else Err(Inexact)
  {
  }

  lemma ReducedShows(raw: int, reduce: nat, k: nat, trim: bool, mode: Mode, x: real)
    requires x * Pow10(reduce) as real == raw as real
    ensures var r := Reduced(raw, reduce, mode);
            if mode.Exact? && !IsWhole(x) then r.Err?
            else r.Ok? && ShowsRounded(Render(r.value, k, raw < 0, trim), x, k, trim, mode)
  {
    var r := Reduced(raw, reduce, mode);
    hide IsWhole, Pow, Reduced, IsRounded, RoundsTo, Divides, PartFits, Shows, Render, Fits, Truncated;
    ReducedIsRounded(raw, reduce, mode);
    PartOfQuotient(raw, Pow10(reduce), x, 1);
    ExactOnly(raw, reduce);
    if r.Ok? {
      SameRounding(raw, Pow10(reduce), x, mode, Signed(r.value, raw < 0));
      RenderShows(r.value, k, raw < 0, trim);
    }
  }

  // ----- nothing else shows it -----

  lemma {:induction false} NumberFixes(a: string, b: string)
    requires AllDigits(a) && AllDigits(b) && |a| == |b| && Number(DigitsOf(a)) == Number(DigitsOf(b))
    ensures a == b
  {
    if a != "" {
      LastNumber(a);
      LastNumber(b);
      hide DigitsOf, Number;
      NumberFixes(a[..|a| - 1], b[..|a| - 1]);
      SameEnds(a, b);
    }
  }

  lemma SameEnds(a: string, b: string)
    requires 0 < |a| == |b| && a[..|a| - 1] == b[..|b| - 1] && a[|a| - 1] == b[|b| - 1]
    ensures a == b
  {
    assert a == a[..|a| - 1] + [a[|a| - 1]] && b == b[..|b| - 1] + [b[|b| - 1]];
  }

  lemma LastNumber(s: string)
    requires AllDigits(s) && s != ""
    ensures var n := |s| - 1; Number(DigitsOf(s)) == 10 * Number(DigitsOf(s[..n])) + DigitValue(s[n])
  {
    hide DigitsOf, Number;
    NextDigit(s[..|s| - 1], s[|s| - 1], s);
  }

  /** Two parts of which the second has a known length. */
  lemma PartsFixed(w: string, f: string, x: string, g: string)
    requires AllDigits(w) && AllDigits(f) && AllDigits(x) && AllDigits(g) && |f| == |g|
    requires Number(DigitsOf(w + f)) == Number(DigitsOf(x + g))
    ensures Number(DigitsOf(w)) == Number(DigitsOf(x)) && f == g
  {
    hide DigitsOf, Number, Pow;
    SideBySide(w, f);
    SideBySide(x, g);
    DigitsBound(f);
    DigitsBound(g);
    QuotUnique(Number(DigitsOf(w + f)), Pow10(|f|), Number(DigitsOf(w)), Number(DigitsOf(f)));
    QuotUnique(Number(DigitsOf(w + f)), Pow10(|f|), Number(DigitsOf(x)), Number(DigitsOf(g)));
    NumberFixes(f, g);
  }

  lemma DigitsBound(s: string)
    requires AllDigits(s)
    ensures Number(DigitsOf(s)) < Pow10(|s|)
  {
    DigitsLength(s);
    NumberBound(DigitsOf(s));
  }

  lemma Leading(w: string)
    requires AllDigits(w) && w != "" && w[0] != '0'
    ensures Pow10(|w| - 1) <= Number(DigitsOf(w))
  {
    DigitsLength(w);
    FirstDigit(w);
    hide *;
    NumberLeading(DigitsOf(w));
  }

  lemma FirstDigit(w: string)
    requires AllDigits(w) && w != "" && w[0] != '0'
    ensures DigitsOf(w) != [] && DigitsOf(w)[0] != 0
  {
    DigitsAppend(w[..1], w[1..]);
    assert w == w[..1] + w[1..] && w[..1] == [w[0]] && w[..1][..0] == "";
    assert DigitsOf(w[..1]) == [DigitValue(w[0])];
  }

  /** A whole part is determined by its number. */
  lemma WholeFixed(w: string, x: string)
    requires AllDigits(w) && w != "" && (w[0] == '0' ==> w == "0")
    requires AllDigits(x) && x != "" && (x[0] == '0' ==> x == "0")
    requires Number(DigitsOf(w)) == Number(DigitsOf(x))
    ensures w == x
  {
    hide DigitsOf, Number, Pow;
    if |w| < |x| { Longer(w, x); } else if |x| < |w| { Longer(x, w); }
    NumberFixes(w, x);
  }

  lemma Longer(w: string, x: string)
    requires AllDigits(w) && AllDigits(x) && |w| < |x| && x[0] != '0'
    ensures Number(DigitsOf(w)) < Number(DigitsOf(x))
  {
    hide DigitsOf, Number, Pow;
    DigitsBound(w);
    Leading(x);
    PowMono(10, |w|, |x| - 1);
  }

  /** Zeros up to k decimals. */
  function Filled(f: string, k: nat): (s: string)
    requires |f| <= k
    ensures |s| == k
  {
    f + ZeroChars(k - |f|)
  }

  lemma FilledNumber(w: string, f: string, k: nat)
    requires |f| <= k && AllDigits(w) && AllDigits(f)
    ensures Number(DigitsOf(w + Filled(f, k))) == Number(DigitsOf(w + f)) * Pow10(k - |f|) && AllDigits(Filled(f, k))
  {
    hide DigitsOf, Number, Pow;
    assert w + (f + ZeroChars(k - |f|)) == (w + f) + ZeroChars(k - |f|);
    SideBySide(w + f, ZeroChars(k - |f|));
    ZerosDigits(k - |f|);
  }

  lemma FilledEnd(f: string, g: string, k: nat)
    requires |f| < |g| <= k && Filled(f, k) == Filled(g, k)
    ensures g[|g| - 1] == '0'
  {
    assert Filled(g, k)[|g| - 1] == g[|g| - 1] && Filled(f, k)[|g| - 1] == ZeroChars(k - |f|)[|g| - 1 - |f|];
  }

  lemma UnfilledFixed(f: string, g: string, k: nat, trim: bool)
    requires Decimals(f, k, trim) && Decimals(g, k, trim) && Filled(f, k) == Filled(g, k)
    ensures f == g
  {
    assert Filled(f, k)[..|f|] == f && Filled(g, k)[..|g|] == g;
    hide Filled;
    if |f| < |g| { FilledEnd(f, g, k); } else if |g| < |f| { FilledEnd(g, f, k); }
  }

  /** Main theorem: the number, the decimals and the trimming determine the text. */
  lemma OneText(s: string, t: string, v: int, k: nat, trim: bool)
    requires Shows(s, v, k, trim) && Shows(t, v, k, trim)
    ensures s == t
  {
    var w, f, m: nat :| Spells(w, f, m) && Decimals(f, k, trim) && m * Pow10(k - |f|) == Abs(v) && s == Joined(v < 0, w, f);
    var x, g, n: nat :| Spells(x, g, n) && Decimals(g, k, trim) && n * Pow10(k - |g|) == Abs(v) && t == Joined(v < 0, x, g);
    hide DigitsOf, Number, Pow, Filled, Joined, Shows;
    FilledNumber(w, f, k);
    FilledNumber(x, g, k);
    PartsFixed(w, Filled(f, k), x, Filled(g, k));
    UnfilledFixed(f, g, k, trim);
    WholeFixed(w, x);
  }

  // ----- texts written out -----

  lemma Spelled150()
    ensures DecimalText(150) == "150" && Pow10(0) == 1
  {
    assert DecimalText(15) == DecimalText(1) + "5" && DecimalText(1) == "1";
    assert DecimalText(150) == DecimalText(15) + "0";
  }

  lemma Held(raw: int, mode: Mode)
    ensures Reduced(raw, 0, mode) == Ok(Abs(raw))
  {
    assert Pow10(0) == 1;
    QuotUnique(Abs(raw), 1, Abs(raw), 0);
    hide Pow, Quot, Rem;
  }

  lemma TrimmedLiteral()
    ensures Trimmed("-1.50") == "-1.5"
  {
    var t := "-1.50";
    assert t[..4] == "-1.5";
    assert TrimZeros("-1.5") == "-1.5";
    assert TrimZeros(t) == TrimZeros(t[..4]);
  }

  lemma Literals(mode: Mode)
    ensures Print(-150, 2, 2, false, mode) == Ok("-1.50") && Print(-150, 2, 2, true, mode) == Ok("-1.5")
  {
    Spelled150();
    Held(-150, mode);
    TrimmedLiteral();
    hide DecimalText, Reduced, Trimmed, Pow;
    assert WholePart("150", 2) == "1" && FractionPart("150", 2) == "50";
    assert "-" + ("1" + ("." + "50")) == "-1.50";
  }
}
