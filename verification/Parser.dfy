/** The scanner, the runtime parser with its three accumulators, and the compile-time
    literal parser. */
module Parser {
  import opened Arith
  import opened Words
  import opened Rounding
  import opened Limbs
  import opened Division
  import opened Signs
  import opened Kernels256
  import opened Decimal

  // ----- scanning -----

  datatype Scan = Scan(negative: bool, significant: int, fractional: int, exponent: int, end: nat)

  function Saturated(e: int, cap: nat): int { if e > cap then cap else if e < 0 - cap then 0 - cap else e }

  function SignificantOf(s: string): seq<digit> { Significant(DigitsOf(s)) }

  ghost predicate Scanned(s: Scan, text: string) {
    && s.negative == Minus(text)
    && s.significant == |SignificantOf(MantissaOf(text))|
    && s.fractional == FractionDigits(MantissaOf(text))
    && s.exponent == Saturated(Exponent(text), |Unsigned(text)| + 256)
    && s.end == MarkAt(Unsigned(text))
  }

  /** What has been read of the mantissa. */
  ghost predicate Reading(u: string, end: nat, digits: int, fractional: int, significant: int, dot: bool) {
    && end <= |u| && PlainDecimal(u[..end])
    && digits == |DigitsOf(u[..end])| && fractional == FractionDigits(u[..end])
    && significant == |SignificantOf(u[..end])| && (dot <==> '.' in u[..end])
  }

  lemma ReadDigit(u: string, end: nat, digits: int, fractional: int, significant: int, dot: bool)
    requires Reading(u, end, digits, fractional, significant, dot) && end < |u| && IsDigit(u[end])
    ensures Reading(u, end + 1, digits + 1, fractional + (if dot then 1 else 0),
                    significant + (if significant != 0 || u[end] != '0' then 1 else 0), dot)
  {
    AppendChar(u, end);
  }

  lemma ReadPoint(u: string, end: nat, digits: int, fractional: int, significant: int)
    requires Reading(u, end, digits, fractional, significant, false) && end < |u| && u[end] == '.'
    ensures Reading(u, end + 1, digits, fractional, significant, true)
  {
    hide DigitsOf, Significant, FractionDigits;
    AppendChar(u, end);
    PlainFirstPoint(u[..end]);
    assert u[..end + 1] == u[..end] + ".";
  }

  lemma PlainFirstPoint(s: string)
    requires PlainDecimal(s) && '.' !in s
    ensures PlainDecimal(s + ".") && '.' in s + "."
  {
    assert (s + ".")[|s|] == '.';
  }

  lemma AppendChar(u: string, k: nat)
    requires k < |u|
    ensures !IsDigit(u[k]) ==> DigitsOf(u[..k + 1]) == DigitsOf(u[..k]) && SignificantOf(u[..k + 1]) == SignificantOf(u[..k])
    ensures IsDigit(u[k]) ==> DigitsOf(u[..k + 1]) == DigitsOf(u[..k]) + [DigitValue(u[k])]
    ensures IsDigit(u[k]) && SignificantOf(u[..k]) == [] && u[k] == '0' ==> SignificantOf(u[..k + 1]) == []
    ensures IsDigit(u[k]) && !(SignificantOf(u[..k]) == [] && u[k] == '0') ==>
              SignificantOf(u[..k + 1]) == SignificantOf(u[..k]) + [DigitValue(u[k])]
    ensures FractionDigits(u[..k + 1]) == FractionDigits(u[..k]) + if IsDigit(u[k]) && '.' in u[..k] then 1 else 0
  {
    assert u[..k + 1][..k] == u[..k];
    if IsDigit(u[k]) {
      var d := DigitsOf(u[..k]);
      assert (d + [DigitValue(u[k])])[..|d|] == d;
    }
  }

  /** A character that is no digit, no first point and no mark refuses the text. */
  lemma Refused(text: string, u: string, end: nat, digits: int, fractional: int, significant: int, dot: bool)
    requires u == Unsigned(text) && Reading(u, end, digits, fractional, significant, dot) && end < |u|
    requires !IsDigit(u[end]) && !(u[end] == '.' && !dot) && !IsMark(u[end])
    requires forall i :: 0 <= i < end ==> !IsMark(u[i])
    ensures !WellFormed(text)
  {
    var m := MantissaOf(text);
    assert end < MarkAt(u) && m[end] == u[end];
    if u[end] == '.' {
      var i :| 0 <= i < end && u[..end][i] == '.';
      assert m[i] == '.' && m[end] == '.';
    }
  }

  /** scan_decimal: one grammar for the runtime and for source constants. */
  method ScanDecimal(text: string) returns (r: Result<Scan>, u: string)
    ensures text == "" ==> r == Err(Empty)
    ensures text != "" && !WellFormed(text) ==> r == Err(Invalid)
    ensures WellFormed(text) ==> r.Ok? && Scanned(r.value, text) && u == Unsigned(text)
  {
    u := text;
    if text == "" { return Err(Empty), u; }
    if |text| > 4096 { return Err(Invalid), u; }
    var negative := text[0] == '-';
    if negative || text[0] == '+' { u := text[1..]; }
    if u == "" { return Err(Invalid), u; }
    var good, digits, fractional, significant, end := ScanMantissa(text, u);
    if !good { return Err(Invalid), u; }
    hide *;
    if digits == 0 { return Err(Invalid), u; }
    var exponent := 0;
    if end != |u| {
      var parsed := ScanExponent(u[end + 1..], |u| + 256);
      if parsed.Err? { return Err(Invalid), u; }
      exponent := parsed.value;
    }
    r := Ok(Scan(negative, significant, fractional, exponent, end));
  }

  method ScanMantissa(ghost text: string, u: string) returns (good: bool, digits: int, fractional: int, significant: int, end: nat)
    requires 0 < |text| <= 4096 && u == Unsigned(text)
    ensures !good ==> !WellFormed(text)
    ensures good ==> end <= |u| && MantissaRead(text, u, end, digits, fractional, significant)
  {
    var dot := false;
    digits, fractional, significant, end := 0, 0, 0, 0;
    hide Reading, WellFormed, Unsigned, MantissaRead;
    while end < |u|
      invariant end <= |u| && Reading(u, end, digits, fractional, significant, dot)
      invariant forall i :: 0 <= i < end ==> !IsMark(u[i])
    {
      var c := u[end];
      if IsDigit(c) {
        ReadDigit(u, end, digits, fractional, significant, dot);
        digits := digits + 1;
        fractional := fractional + if dot then 1 else 0;
        if significant != 0 || c != '0' { significant := significant + 1; }
      } else if c == '.' && !dot {
        ReadPoint(u, end, digits, fractional, significant);
        dot := true;
      } else if c == 'e' || c == 'E' {
        break;
      } else {
        Refused(text, u, end, digits, fractional, significant, dot);
        return false, 0, 0, 0, 0;
      }
      end := end + 1;
    }
    ReadEnd(text, u, end, digits, fractional, significant, dot);
    good := true;
  }

  /** What the rest of the scan needs to know. */
  ghost predicate MantissaRead(text: string, u: string, end: nat, digits: int, fractional: int, significant: int)
    requires end <= |u|
  {
    && (digits == 0 ==> !WellFormed(text))
    && (digits != 0 && end == |u| ==> WellFormed(text) && Scanned(Scan(Minus(text), significant, fractional, 0, end), text))
    && (digits != 0 && end < |u| ==> (WellFormed(text) <==> IsInteger(Unsigned(u[end + 1..]))))
    && (digits != 0 && end < |u| ==>
          var x := u[end + 1..];
          var e := Saturated(Signed(Number(DigitsOf(Unsigned(x))), Minus(x)), |u| + 256);
          Scanned(Scan(Minus(text), significant, fractional, e, end), text))
  }

  lemma ReadEnd(text: string, u: string, end: nat, digits: int, fractional: int, significant: int, dot: bool)
    requires 0 < |text| <= 4096 && u == Unsigned(text) && Reading(u, end, digits, fractional, significant, dot)
    requires (end < |u| ==> IsMark(u[end])) && forall i :: 0 <= i < end ==> !IsMark(u[i])
    ensures MantissaRead(text, u, end, digits, fractional, significant)
  {
  }

  /** The exponent digits, saturating at the cap instead of overflowing. */
  method ScanExponent(x: string, cap: nat) returns (r: Result<int>)
    requires 9 <= cap
    ensures IsInteger(Unsigned(x)) ==> r == Ok(Saturated(Signed(Number(DigitsOf(Unsigned(x))), Minus(x)), cap))
    ensures !IsInteger(Unsigned(x)) ==> r == Err(Invalid)
  {
    var w, negative := x, false;
    if x != "" && (x[0] == '+' || x[0] == '-') { negative, w := x[0] == '-', x[1..]; }
    assert w == Unsigned(x) && negative == Minus(x);
    if w == "" { return Err(Invalid); }
    hide *;
    var n := ScanDigits(w, cap);
    if n.Err? { return n; }
    r := Ok(if negative then 0 - n.value else n.value);
  }

  method ScanDigits(w: string, cap: nat) returns (r: Result<int>)
    requires 9 <= cap && w != ""
    ensures IsInteger(w) ==> r == Ok(Saturated(Number(DigitsOf(w)), cap))
    ensures !IsInteger(w) ==> r == Err(Invalid)
  {
    var exponent: int := 0;
    NoDigits(w, cap);
    hide Saturated, Number, DigitsOf, IsInteger;
    for pos := 0 to |w|
      invariant Exponents(w, pos, exponent, cap)
    {
      var c := w[pos];
      if c < '0' || c > '9' {
        NotInteger(w, pos);
        return Err(Invalid);
      }
      var digit := DigitValue(c);
      TakeExponent(w, pos, exponent, cap);
      exponent := if exponent > (cap - digit) / 10 then cap else exponent * 10 + digit;
    }
    AllExponents(w, exponent, cap);
    r := Ok(exponent);
  }

  ghost predicate Exponents(w: string, pos: nat, exponent: int, cap: nat) {
    && pos <= |w| && (forall i :: 0 <= i < pos ==> IsDigit(w[i]))
    && exponent == Saturated(Number(DigitsOf(w[..pos])), cap)
  }

  lemma NoDigits(w: string, cap: nat)
    ensures Exponents(w, 0, 0, cap)
  {
  }

  lemma NotInteger(w: string, pos: nat)
    requires pos < |w| && !IsDigit(w[pos])
    ensures !IsInteger(w)
  {
  }

  lemma TakeExponent(w: string, pos: nat, exponent: int, cap: nat)
    requires 9 <= cap && pos < |w| && Exponents(w, pos, exponent, cap) && IsDigit(w[pos])
    ensures var d := DigitValue(w[pos]);
            Exponents(w, pos + 1, if exponent > (cap - d) / 10 then cap else exponent * 10 + d, cap)
  {
    AppendChar(w, pos);
    hide DigitsOf, Number, Saturated;
    NumberStep(DigitsOf(w[..pos]), DigitValue(w[pos]));
  }

  lemma AllExponents(w: string, exponent: int, cap: nat)
    requires w != "" && Exponents(w, |w|, exponent, cap)
    ensures IsInteger(w) && exponent == Saturated(Number(DigitsOf(w)), cap)
  {
    assert w[..|w|] == w;
  }

  // ----- the discarded tail -----

  datatype Tail = Tail(nonzero: bool, first: digit, rest: bool)

  ghost predicate TailOf(t: Tail, s: seq<digit>, keep: int) {
    if |s| <= Positive(keep) then t == Tail(false, 0, false)
    else (t.nonzero <==> Number(s[Positive(keep)..]) != 0)
         && (keep >= 0 ==> t.first == s[keep] && (t.rest <==> Number(s[keep + 1..]) != 0))
  }

  function Discard(t: Tail, d: digit, index: nat, keep: int): (r: Tail)
    ensures r.nonzero <==> t.nonzero || d != 0
  {
    Tail(t.nonzero || d != 0, if index == keep then d else t.first, t.rest || (index != keep && d != 0))
  }

  lemma DiscardStep(t: Tail, s: seq<digit>, keep: int, d: digit)
    requires TailOf(t, s, keep) && Positive(keep) <= |s|
    ensures TailOf(Discard(t, d, |s|, keep), s + [d], keep)
  {
    var p := Positive(keep);
    assert (s + [d])[p..] == s[p..] + [d];
    NumberStep(s[p..], d);
    if keep >= 0 && keep + 1 <= |s| {
      assert (s + [d])[keep + 1..] == s[keep + 1..] + [d];
      NumberStep(s[keep + 1..], d);
    }
  }

  /** The stand-in remainder carries the tail's part of a unit. */
  lemma TailDecides(t: Tail, s: seq<digit>, keep: int)
    requires TailOf(t, s, keep) && s != [] && s[0] != 0
    ensures PartOf(TailRemainder(t, keep), 10) == TailPart(s, keep)
  {
    if |s| > Positive(keep) {
      if keep >= 0 {
        assert s[keep..][0] == s[keep] && s[keep..][1..] == s[keep + 1..];
        StandInDecides(s[keep..]);
      } else {
        assert s[0..] == s;
        NumberLeading(s);
      }
    }
  }

  function TailRemainder(t: Tail, keep: int): digit {
    StandIn(t.nonzero, if keep >= 0 then t.first else 0, t.rest)
  }

  // ----- accumulating digits -----

  /** After reading up to pos: the significant digits so far, the kept ones in value. */
  ghost predicate Consumed(u: string, pos: nat, keep: int, value: nat, index: nat, started: bool, t: Tail) {
    pos <= |u| && index == |SignificantOf(u[..pos])| && (started <==> index > 0)
    && value == KeptSoFar(SignificantOf(u[..pos]), keep) && TailOf(t, SignificantOf(u[..pos]), keep)
  }

  function KeptSoFar(s: seq<digit>, keep: int): nat {
    Number(s[..if |s| <= Positive(keep) then |s| else Positive(keep)])
  }

  lemma ConsumeSkip(u: string, pos: nat, keep: int, value: nat, index: nat, started: bool, t: Tail)
    requires Consumed(u, pos, keep, value, index, started, t) && pos < |u|
    requires (!IsDigit(u[pos])) || (!started && u[pos] == '0')
    ensures Consumed(u, pos + 1, keep, value, index, started, t)
  {
    AppendChar(u, pos);
  }

  lemma ConsumeDigit(u: string, pos: nat, keep: int, value: nat, index: nat, started: bool, t: Tail)
    requires Consumed(u, pos, keep, value, index, started, t) && pos < |u|
    requires IsDigit(u[pos]) && (started || u[pos] != '0')
    ensures index < keep ==> Consumed(u, pos + 1, keep, value * 10 + DigitValue(u[pos]), index + 1, true, t)
    ensures index >= keep ==>
              Consumed(u, pos + 1, keep, value, index + 1, true, Discard(t, DigitValue(u[pos]), index, keep))
  {
    hide DigitsOf, Significant, FractionDigits, KeptSoFar, TailOf, Discard, Number;
    AppendChar(u, pos);
    KeepOrDiscard(SignificantOf(u[..pos]), DigitValue(u[pos]), keep, t);
  }

  /** One more significant digit is kept, or it joins the tail. */
  lemma KeepOrDiscard(s: seq<digit>, d: digit, keep: int, t: Tail)
    requires TailOf(t, s, keep)
    ensures |s| < keep ==> KeptSoFar(s + [d], keep) == KeptSoFar(s, keep) * 10 + d && TailOf(t, s + [d], keep)
    ensures |s| >= keep ==> KeptSoFar(s + [d], keep) == KeptSoFar(s, keep) && TailOf(Discard(t, d, |s|, keep), s + [d], keep)
  {
    if |s| < keep {
      assert (s + [d])[..|s| + 1] == s + [d] && s[..|s|] == s;
      NumberStep(s, d);
      hide Number;
    } else {
      DiscardStep(t, s, keep, d);
      hide Number, TailOf, Discard;
      assert (s + [d])[..Positive(keep)] == s[..Positive(keep)];
    }
  }

  /** The digits read so far are a prefix, so what they keep is a lower bound. */
  lemma {:induction false} PrefixOf(u: string, pos: nat, end: nat)
    requires pos <= end <= |u|
    ensures SignificantOf(u[..pos]) <= SignificantOf(u[..end])
  {
    if pos < end {
      PrefixOf(u, pos, end - 1);
      AppendChar(u, end - 1);
    }
  }

  lemma KeptIsLowerBound(u: string, pos: nat, end: nat, keep: int, value: nat, index: nat, started: bool, t: Tail)
    requires Consumed(u, pos, keep, value, index, started, t) && pos <= end <= |u| && 0 <= keep && index <= keep
    ensures value <= KeptNumber(SignificantOf(u[..end]), keep)
  {
    PrefixOf(u, pos, end);
    var part, all := SignificantOf(u[..pos]), SignificantOf(u[..end]);
    assert part[..|part|] == part == all[..index];
    KeptGrows(all, index, keep);
  }

  /** Zeros still missing at the right. */
  ghost predicate Padded(s: seq<digit>, keep: int, value: nat, index: nat) {
    |s| <= index && value == if |s| <= keep then Number(s) * Pow10(index - |s|) else KeptNumber(s, keep)
  }

  lemma PadStart(u: string, end: nat, keep: int, value: nat, index: nat, started: bool, t: Tail)
    requires Consumed(u, end, keep, value, index, started, t)
    ensures Padded(SignificantOf(u[..end]), keep, value, index) && index == |SignificantOf(u[..end])|
    ensures TailOf(t, SignificantOf(u[..end]), keep)
  {
    var s := SignificantOf(u[..end]);
    assert s[..|s|] == s && Pow10(0) == 1;
    if keep < 0 { assert s[..0] == []; }
  }

  lemma PadStep(s: seq<digit>, keep: int, value: nat, index: nat)
    requires Padded(s, keep, value, index) && index < keep
    ensures Padded(s, keep, value * 10, index + 1) && value * 10 <= KeptNumber(s, keep)
  {
    var n, p := Number(s), Pow10(index - |s|);
    assert Pow10(index + 1 - |s|) == 10 * p;
    PowMono(10, index + 1 - |s|, keep - |s|);
    hide Pow, Number;
    MulMono(10 * p, Pow10(keep - |s|), n);
    assert n * p * 10 == n * (10 * p) by { hide *; MoveFactor(10, n, p); }
  }

  lemma PadEnd(s: seq<digit>, keep: int, value: nat, index: nat)
    requires Padded(s, keep, value, index) && keep <= index && (index == keep || index == |s|)
    ensures value == KeptNumber(s, keep)
  {
    assert Pow10(0) == 1;
  }

  lemma ReadNothing(u: string, keep: int)
    ensures Consumed(u, 0, keep, 0, 0, false, Tail(false, 0, false))
  {
  }

  /** The fast path: at most nineteen kept digits cannot overflow a word. */
  method AccumulateWord(u: string, end: nat, keep: int) returns (value: word, t: Tail)
    requires end <= |u| && PlainDecimal(u[..end]) && 0 <= keep <= 19
    ensures value == KeptNumber(SignificantOf(u[..end]), keep) && TailOf(t, SignificantOf(u[..end]), keep)
  {
    ReadNothing(u, keep);
    hide Consumed, TailOf, Padded, KeptNumber, Discard, Significant, DigitsOf, Pow;
    value, t := 0, Tail(false, 0, false);
    var index, started := 0, false;
    for pos := 0 to end
      invariant Consumed(u, pos, keep, value, index, started, t)
    {
      var c := u[pos];
      if c == '.' || (!started && c == '0') {
        ConsumeSkip(u, pos, keep, value, index, started, t);
        continue;
      }
      var digit := DigitValue(c);
      ConsumeDigit(u, pos, keep, value, index, started, t);
      started := true;
      if index < keep {
        WordHolds(u, pos + 1, keep, value * 10 + digit, index + 1, true, t);
        value := value * 10 + digit;
      } else {
        t := Discard(t, digit, index, keep);
      }
      index := index + 1;
    }
    PadStart(u, end, keep, value, index, started, t);
    if index < keep {
      ScaleUp(u, end, keep, value, index, started, t);
      value := value * Pow10(keep - index);
    } else {
      KeptWhole(u, end, keep, value, index, started, t);
    }
  }

  lemma WordHolds(u: string, pos: nat, keep: int, value: nat, index: nat, started: bool, t: Tail)
    requires Consumed(u, pos, keep, value, index, started, t) && keep <= 19
    ensures value < W
  {
    var s := SignificantOf(u[..pos]);
    var k := if |s| <= Positive(keep) then |s| else Positive(keep);
    NumberBound(s[..k]);
    PowMono(10, k, 19);
    LargePowers();
  }

  lemma ScaleUp(u: string, end: nat, keep: int, value: nat, index: nat, started: bool, t: Tail)
    requires Consumed(u, end, keep, value, index, started, t) && index < keep <= 19
    ensures value * Pow10(keep - index) == KeptNumber(SignificantOf(u[..end]), keep) < W
  {
    var s := SignificantOf(u[..end]);
    assert s[..|s|] == s;
    NumberBound(s);
    PowAdd(10, index, keep - index);
    assert Pow10(keep) < W by { PowMono(10, keep, 19); LargePowers(); }
    assert value == Number(s) && index == |s|;
    hide Pow, Number, Consumed;
    MulStrict(value, Pow10(index), Pow10(keep - index));
  }

  lemma KeptWhole(u: string, end: nat, keep: int, value: nat, index: nat, started: bool, t: Tail)
    requires Consumed(u, end, keep, value, index, started, t) && keep <= index
    ensures value == KeptNumber(SignificantOf(u[..end]), keep)
  {
    PadStart(u, end, keep, value, index, started, t);
  }

  /** The 128-bit path: every digit is checked against the limit's quotient and last digit. */
  method AccumulateDword(u: string, end: nat, keep: int, limit: dword) returns (r: Result<(dword, Tail)>)
    requires end <= |u| && PlainDecimal(u[..end])
    ensures r.Ok? ==> r.value.0 == KeptNumber(SignificantOf(u[..end]), keep) && TailOf(r.value.1, SignificantOf(u[..end]), keep)
    ensures r.Err? ==> r == Err(Overflow) && limit < KeptNumber(SignificantOf(u[..end]), keep)
  {
    ReadNothing(u, keep);
    hide Consumed, TailOf, Padded, KeptNumber, Discard, Significant, DigitsOf, Pow;
    var cutoff: dword, last := limit / 10, limit % 10;
    var value: dword, t := 0, Tail(false, 0, false);
    var index, started := 0, false;
    for pos := 0 to end
      invariant Consumed(u, pos, keep, value, index, started, t)
    {
      var c := u[pos];
      if c == '.' || (!started && c == '0') {
        ConsumeSkip(u, pos, keep, value, index, started, t);
        continue;
      }
      var digit := DigitValue(c);
      ConsumeDigit(u, pos, keep, value, index, started, t);
      started := true;
      if index < keep {
        if value > cutoff || (value == cutoff && digit > last) {
          KeptIsLowerBound(u, pos + 1, end, keep, value * 10 + digit, index + 1, true, t);
          return Err(Overflow);
        }
        value := value * 10 + digit;
      } else {
        t := Discard(t, digit, index, keep);
      }
      index := index + 1;
    }
    PadStart(u, end, keep, value, index, started, t);
    ghost var s := SignificantOf(u[..end]);
    while index < keep
      invariant Padded(s, keep, value, index) && (index <= keep || index == |s|)
    {
      PadStep(s, keep, value, index);
      if value > cutoff { return Err(Overflow); }
      value := value * 10;
      index := index + 1;
    }
    PadEnd(s, keep, value, index);
    r := Ok((value, t));
  }

  /** value * 10 + digit in four limbs: (v << 3) + (v << 1) + digit, kept below the limit. */
  method AppendDigit(value: seq<word>, digit: word, cutoff: seq<word>, last: word, ghost limit: nat) returns (r: Result<seq<word>>)
    requires |value| == 4 && |cutoff| == 4 && digit < 10
    requires limit == Val(cutoff) * 10 + last && last < 10 && limit < PowW(4)
    ensures r.Ok? ==> |r.value| == 4 && Val(r.value) == Val(value) * 10 + digit <= limit
    ensures r.Err? ==> r == Err(Overflow) && limit < Val(value) * 10 + digit
  {
    hide *;
    var order := Compare(value, cutoff);
    if order > 0 || (order == 0 && digit > last) { return Err(Overflow); }
    var ten := Tenfold(value);
    var one := FromDigit(digit);
    var sum := Add(ten, one);
    NoWrap(Val(value) * 10 + digit, PowW(4));
    r := Ok(sum);
  }

  /** (v << 3) + (v << 1), while it fits. */
  method Tenfold(value: seq<word>) returns (r: seq<word>)
    requires |value| == 4
    ensures |r| == 4 && (Val(value) * 10 < PowW(4) ==> Val(r) == Val(value) * 10)
  {
    ShiftAmounts();
    hide *;
    var eight := Shl(value, 3);
    var two := Shl(value, 1);
    r := Add(eight, two);
    if Val(value) * 10 < PowW(4) { TenfoldInLimbs(Val(value), PowW(4)); }
  }

  method FromDigit(digit: word) returns (r: seq<word>)
    ensures |r| == 4 && Val(r) == digit
  {
    ValWiden([digit], 3);
    Val1([digit]);
    r := [digit] + Zeros(3);
  }

  lemma ShiftAmounts()
    ensures Pow2(3) == 8 && Pow2(1) == 2
  {
    assert Pow(2, 3) == 8 && Pow(2, 1) == 2;
  }

  lemma NoWrap(n: nat, p: nat)
    requires n < p
    ensures n % p == n
  {
    DivModUnique(n, p, 0, n);
  }

  lemma TenfoldInLimbs(v: nat, p: nat)
    requires v * 10 < p
    ensures (v * 8 % p + v * 2 % p) % p == v * 10
  {
    NoWrap(v * 8, p);
    NoWrap(v * 2, p);
    NoWrap(v * 10, p);
  }

  method LimitDigits(limit: nat) returns (cutoff: seq<word>, last: word)
    requires limit < PowW(4)
    ensures |cutoff| == 4 && limit == Val(cutoff) * 10 + last && last < 10
  {
    ToLimbsValue(limit, 4);
    cutoff, last := DivMod64(ToLimbs(limit, 4), 10);
  }

  /** The limb path. */
  method AccumulateLimbs(u: string, end: nat, keep: int, limit: nat) returns (r: Result<(seq<word>, Tail)>)
    requires end <= |u| && PlainDecimal(u[..end]) && limit < PowW(4)
    ensures r.Ok? ==> |r.value.0| == 4 && Val(r.value.0) == KeptNumber(SignificantOf(u[..end]), keep) <= limit
    ensures r.Ok? ==> TailOf(r.value.1, SignificantOf(u[..end]), keep)
    ensures r.Err? ==> r == Err(Overflow) && limit < KeptNumber(SignificantOf(u[..end]), keep)
  {
    ReadNothing(u, keep);
    hide Consumed, TailOf, Padded, KeptNumber, Discard, Significant, DigitsOf, Pow, PowW, Val;
    var cutoff, last := LimitDigits(limit);
    var value, t := Zeros(4), Tail(false, 0, false);
    ValZeros(Zeros(4));
    var index, started := 0, false;
    for pos := 0 to end
      invariant |value| == 4 && Val(value) <= limit && Consumed(u, pos, keep, Val(value), index, started, t)
    {
      var c := u[pos];
      if c == '.' || (!started && c == '0') {
        ConsumeSkip(u, pos, keep, Val(value), index, started, t);
        continue;
      }
      var digit := DigitValue(c);
      ConsumeDigit(u, pos, keep, Val(value), index, started, t);
      started := true;
      if index < keep {
        var next := AppendDigit(value, digit, cutoff, last, limit);
        if next.Err? {
          KeptIsLowerBound(u, pos + 1, end, keep, Val(value) * 10 + digit, index + 1, true, t);
          return Err(Overflow);
        }
        value := next.value;
      } else {
        t := Discard(t, digit, index, keep);
      }
      index := index + 1;
    }
    PadStart(u, end, keep, Val(value), index, started, t);
    ghost var s := SignificantOf(u[..end]);
    while index < keep
      invariant |value| == 4 && Val(value) <= limit && Padded(s, keep, Val(value), index) && (index <= keep || index == |s|)
    {
      PadStep(s, keep, Val(value), index);
      var order := Compare(value, cutoff);
      if order > 0 { return Err(Overflow); }
      value := Tenfold(value);
      index := index + 1;
    }
    PadEnd(s, keep, Val(value), index);
    r := Ok((value, t));
  }

  // ----- from digits to the parse -----

  function Keep(s: Scan, decimals: nat): int { s.significant + decimals + s.exponent - s.fractional }

  /** Saturating the exponent never changes the outcome. */
  lemma SaturationIsHarmless(text: string, s: Scan, decimals: nat)
    requires WellFormed(text) && Scanned(s, text) && decimals <= 76 && s.significant != 0
    ensures var true_ := s.significant + decimals + Exponent(text) - s.fractional;
            Keep(s, decimals) == true_ || (Keep(s, decimals) > 256 && true_ > 256) || (Keep(s, decimals) < 0 && true_ < 0)
  {
    SignificantNumber(DigitsOf(MantissaOf(text)));
    DigitCount(MantissaOf(text));
  }

  lemma {:induction false} DigitCount(s: string)
    ensures |DigitsOf(s)| <= |s| && FractionDigits(s) <= |DigitsOf(s)|
  {
    if s != "" { DigitCount(s[..|s| - 1]); }
  }

  /** A well-formed text parses to its significant digits cut at `keep` places. */
  lemma ParseIsCut(text: string, s: Scan, decimals: nat, mode: Mode, bits: nat)
    requires WellFormed(text) && Scanned(s, text) && decimals <= 76 && Width(bits)
    ensures s.significant == 0 ==> Parse(text, decimals, mode, bits) == Ok(0)
    ensures s.significant != 0 && Keep(s, decimals) > MaxDigits(bits) ==> Parse(text, decimals, mode, bits) == Err(Overflow)
    ensures s.significant != 0 && Keep(s, decimals) <= MaxDigits(bits) ==>
              Parse(text, decimals, mode, bits) ==
              ParseOutcome(Cut(SignificantOf(MantissaOf(text)), Keep(s, decimals), Minus(text), mode, bits))
  {
    hide DigitsOf, Significant, FractionDigits, Exponent, MantissaOf, WellFormed, Scanned, Parse, Cut, AtScale, ParseOutcome, Minus, Number;
    var sig := SignificantOf(MantissaOf(text));
    var shift := decimals + Exponent(text) - FractionDigits(MantissaOf(text));
    ParseAtScale(text, decimals, mode, bits);
    KeptPlaces(text, s, decimals);
    OutcomeOf();
    if sig == [] {
      ZeroIsZero(shift, Minus(text), mode, bits);
    } else {
      CutIsRounded(sig, |sig| + shift, Minus(text), mode, bits);
      CutsAgree(sig, |sig| + shift, Keep(s, decimals), Minus(text), mode, bits);
    }
  }

  lemma OutcomeOf()
    ensures ParseOutcome(Ok(0)) == Ok(0) && ParseOutcome(Err(Overflow)) == Err(Overflow)
  {
  }

  /** What the scanner's counts say about the digits that are kept. */
  lemma KeptPlaces(text: string, s: Scan, decimals: nat)
    requires WellFormed(text) && Scanned(s, text) && decimals <= 76
    ensures var sig := SignificantOf(MantissaOf(text));
            var exact := |sig| + decimals + Exponent(text) - FractionDigits(MantissaOf(text));
            var keep := Keep(s, decimals);
            s.significant == |sig| && (sig == [] ==> Number(sig) == 0) &&
            (sig != [] ==> sig[0] != 0 && (keep == exact || (keep > 256 && exact > 256) || (keep < 0 && exact < 0)))
  {
    SignificantNumber(DigitsOf(MantissaOf(text)));
    if s.significant != 0 { SaturationIsHarmless(text, s, decimals); }
    hide DigitsOf, Significant, FractionDigits, Exponent, MantissaOf;
  }

  lemma ParseAtScale(text: string, decimals: nat, mode: Mode, bits: pos)
    requires WellFormed(text)
    ensures Parse(text, decimals, mode, bits) == ParseOutcome(
              AtScale(Number(SignificantOf(MantissaOf(text))), decimals + Exponent(text) - FractionDigits(MantissaOf(text)),
                      Minus(text), mode, bits))
  {
    SignificantNumber(DigitsOf(MantissaOf(text)));
    hide AtScale, ParseOutcome, DigitsOf, Number, Significant;
  }

  lemma CutsAgree(s: seq<digit>, exact: int, keep: int, negative: bool, mode: Mode, bits: nat)
    requires Width(bits) && s != [] && s[0] != 0
    requires keep == exact || (keep > 256 && exact > 256) || (keep < 0 && exact < 0)
    ensures Cut(s, exact, negative, mode, bits)
            == if keep > MaxDigits(bits) then Err(Overflow) else Cut(s, keep, negative, mode, bits)
  {
    if keep > MaxDigits(bits) { TooLarge(s, exact, bits, negative); }
  }

  lemma ZeroIsZero(shift: int, negative: bool, mode: Mode, bits: pos)
    ensures AtScale(0, shift, negative, mode, bits) == Ok(0)
  {
    QuotUnique(0, Pow10(Positive(0 - shift)), 0, 0);
  }

  lemma TooLarge(s: seq<digit>, keep: int, bits: nat, negative: bool)
    requires Width(bits) && s != [] && s[0] != 0 && keep > MaxDigits(bits)
    ensures Limit(bits, negative) < KeptNumber(s, keep)
  {
    DigitsExceedLimit(bits, negative);
    PowMono(10, MaxDigits(bits), keep - 1);
    if |s| <= keep {
      NumberLeading(s);
      PowAdd(10, |s| - 1, keep - |s|);
      MulMono(Pow10(|s| - 1), Number(s), Pow10(keep - |s|));
    } else {
      assert s[..keep][0] == s[0];
      NumberLeading(s[..keep]);
    }
  }

  /** Rounding kept digits with the stand-in remainder. */
  lemma RoundedCut(s: seq<digit>, keep: int, value: nat, t: Tail, negative: bool, mode: Mode, bits: pos)
    requires s != [] && s[0] != 0 && value == KeptNumber(s, keep) && TailOf(t, s, keep)
    ensures SignedResult(RoundMagnitude(value, TailRemainder(t, keep), 10, negative, mode, Limit(bits, negative)), negative)
            == Cut(s, keep, negative, mode, bits)
  {
    TailDecides(t, s, keep);
  }

  lemma LimitStorage(bits: nat, negative: bool)
    requires Width(bits)
    ensures bits <= 128 ==> Limit(bits, negative) <= HALF2 - 1 + Bit(negative)
    ensures Limit(bits, negative) <= Limit(256, negative) < PowW(4)
  {
    Width256();
    PowMono(2, bits - 1, 255);
    Limits();
    if bits <= 128 { PowMono(2, bits - 1, 127); }
    hide Pow;
  }

  /** Round, restore the sign in unsigned storage, translate the error. */
  method FinishParse(value: nat, t: Tail, keep: int, negative: bool, mode: Mode, bits: nat) returns (r: Result<int>)
    requires Width(bits)
    ensures r == ParseOutcome(SignedResult(
                   RoundMagnitude(value, TailRemainder(t, keep), 10, negative, mode, Limit(bits, negative)), negative))
  {
    LimitStorage(bits, negative);
    hide Pow, PowW;
    var rounded := RoundMagnitude(value, TailRemainder(t, keep), 10, negative, mode, Limit(bits, negative));
    if rounded.Err? { return Err(if rounded.error == Overflow then Overflow else TooPrecise); }
    if bits <= 128 {
      SignedDword(rounded.value, negative);
      r := Ok(ApplySignD(rounded.value, negative));
    } else {
      ToLimbsValue(rounded.value, 4);
      var x := Store256(ToLimbs(rounded.value, 4), negative);
      r := Ok(x);
    }
  }

  /** parse_fixed_kernel. */
  method ParseFixed(text: string, decimals: nat, mode: Mode, bits: nat) returns (r: Result<int>)
    requires Width(bits) && decimals <= 76
    ensures r == Parse(text, decimals, mode, bits)
  {
    var scanned, u := ScanDecimal(text);
    if scanned.Err? { return Err(scanned.error); }
    var s := scanned.value;
    ParseIsCut(text, s, decimals, mode, bits);
    if s.significant == 0 { return Ok(0); }
    var keep := Keep(s, decimals);
    if keep > MaxDigits(bits) { return Err(Overflow); }
    ghost var sig := SignificantOf(MantissaOf(text));
    SignificantNumber(DigitsOf(MantissaOf(text)));
    LimitStorage(bits, s.negative);
    hide KeptNumber, TailOf, PlainDecimal, Significant, DigitsOf, Parse, Cut, ParseOutcome, RoundMagnitude;
    if bits <= 128 && s.end == |u| && 0 <= keep <= 19 {
      var value, t := AccumulateWord(u, s.end, keep);
      RoundedCut(sig, keep, value, t, s.negative, mode, bits);
      r := FinishParse(value, t, keep, s.negative, mode, bits);
    } else if bits <= 128 {
      var digits := AccumulateDword(u, s.end, keep, Limit(bits, s.negative));
      if digits.Err? {
        return Err(Overflow);
      }
      RoundedCut(sig, keep, digits.value.0, digits.value.1, s.negative, mode, bits);
      r := FinishParse(digits.value.0, digits.value.1, keep, s.negative, mode, bits);
    } else {
      var digits := AccumulateLimbs(u, s.end, keep, Limit(bits, s.negative));
      if digits.Err? {
        return Err(Overflow);
      }
      RoundedCut(sig, keep, Val(digits.value.0), digits.value.1, s.negative, mode, bits);
      r := FinishParse(Val(digits.value.0), digits.value.1, keep, s.negative, mode, bits);
    }
  }

  lemma ExactCut(s: seq<digit>, keep: int, t: Tail, negative: bool, bits: pos)
    requires s != [] && s[0] != 0 && KeptNumber(s, keep) <= Limit(bits, negative) && TailOf(t, s, keep)
    ensures Cut(s, keep, negative, Exact, bits) == if t.nonzero then Err(Inexact) else Ok(Signed(KeptNumber(s, keep), negative))
  {
    TailDecides(t, s, keep);
  }

  // ----- constants in source -----

  /** LiteralLimits and the last digit: what ten times the cutoff leaves of the limit. */
  method LiteralLimits(limit: nat) returns (cutoff: seq<word>, last: word)
    requires limit < PowW(4)
    ensures |cutoff| == 4 && limit == Val(cutoff) * 10 + last && last < 10
  {
    hide Val, PowW, Pow;
    cutoff := ToLimbs(limit / 10, 4);
    ToLimbsValue(limit / 10, 4);
    ToLimbsValue(limit, 4);
    var ten := Tenfold(cutoff);
    var rest := Sub(ToLimbs(limit, 4), ten);
    DivModUnique(limit - limit / 10 * 10, PowW(4), 0, limit % 10);
    SmallLimbs(rest);
    last := rest[0];
  }

  lemma SmallLimbs(a: seq<word>)
    requires |a| == 4 && Val(a) < W
    ensures Val(a) == a[0]
  {
    ValHead(a);
    var high := Val(a[1..]);
    hide *;
    if high != 0 { MulMono(1, high, W); }
  }

  /** The literal parser keeps no digit of the discarded tail, only whether one was not zero. */
  method AccumulateLiteral(u: string, end: nat, keep: int, limit: nat)
    returns (r: Result<(seq<word>, bool)>, ghost t: Tail)
    requires end <= |u| && PlainDecimal(u[..end]) && limit < PowW(4)
    ensures r.Ok? ==> |r.value.0| == 4 && Val(r.value.0) == KeptNumber(SignificantOf(u[..end]), keep) <= limit
    ensures r.Ok? ==> TailOf(t, SignificantOf(u[..end]), keep) && r.value.1 == t.nonzero
    ensures r.Err? ==> r == Err(Overflow) && limit < KeptNumber(SignificantOf(u[..end]), keep)
  {
    ReadNothing(u, keep);
    hide PowW, Val, Consumed, TailOf, Padded, KeptNumber, Discard, Significant, DigitsOf, Pow;
    var cutoff, last := LiteralLimits(limit);
    var value, nonzero := Zeros(4), false;
    t := Tail(false, 0, false);
    ValZeros(Zeros(4));
    var index, started := 0, false;
    for pos := 0 to end
      invariant |value| == 4 && Val(value) <= limit && nonzero == t.nonzero
      invariant Consumed(u, pos, keep, Val(value), index, started, t)
    {
      var c := u[pos];
      if c == '.' || (!started && c == '0') {
        ConsumeSkip(u, pos, keep, Val(value), index, started, t);
        continue;
      }
      var digit := DigitValue(c);
      ConsumeDigit(u, pos, keep, Val(value), index, started, t);
      started := true;
      if index < keep {
        var next := AppendDigit(value, digit, cutoff, last, limit);
        if next.Err? {
          KeptIsLowerBound(u, pos + 1, end, keep, Val(value) * 10 + digit, index + 1, true, t);
          return Err(Overflow), t;
        }
        value := next.value;
      } else {
        t := Discard(t, digit, index, keep);
        nonzero := nonzero || digit != 0;
      }
      index := index + 1;
    }
    PadStart(u, end, keep, Val(value), index, started, t);
    ghost var s := SignificantOf(u[..end]);
    while index < keep
      invariant |value| == 4 && Val(value) <= limit && Padded(s, keep, Val(value), index) && (index <= keep || index == |s|)
    {
      PadStep(s, keep, Val(value), index);
      var next := AppendDigit(value, 0, cutoff, last, limit);
      if next.Err? { return Err(Overflow), t; }
      value := next.value;
      index := index + 1;
    }
    PadEnd(s, keep, Val(value), index);
    r := Ok((value, nonzero));
  }

  /** parse_literal_exact: the compile-time constant is the runtime parse in Exact mode. */
  method ParseLiteral(text: string, decimals: nat, bits: nat) returns (r: Result<int>)
    requires Width(bits) && decimals <= 76
    ensures r == Parse(text, decimals, Exact, bits)
  {
    var scanned, u := ScanDecimal(text);
    if scanned.Err? { return Err(scanned.error); }
    var s := scanned.value;
    ParseIsCut(text, s, decimals, Exact, bits);
    if s.significant == 0 { return Ok(0); }
    var keep := Keep(s, decimals);
    if keep > MaxDigits(bits) { return Err(Overflow); }
    ghost var sig := SignificantOf(MantissaOf(text));
    SignificantNumber(DigitsOf(MantissaOf(text)));
    LimitStorage(bits, s.negative);
    hide KeptNumber, TailOf, PlainDecimal, Significant, DigitsOf, Parse, Cut;
    var digits, t := AccumulateLiteral(u, s.end, keep, Limit(bits, s.negative));
    if digits.Err? {
      return Err(Overflow);
    }
    ExactCut(sig, keep, t, s.negative, bits);
    if digits.value.1 { return Err(TooPrecise); }
    var x := Store256(digits.value.0, s.negative);
    r := Ok(x);
  }
}
