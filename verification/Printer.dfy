/** Decimal printing: chunked integer digits, the three rounding heads, and the text itself;
    and what parsing the printed text gives back. */
module Printer {
  import opened Arith
  import opened Words
  import opened Rounding
  import opened Operations
  import opened Limbs
  import D = Division
  import opened Signs
  import opened Kernels256
  import opened Decimal
  import K = Kernels128
  import Parser
  import Knuth
  import Mixed

  // ----- integer digits -----

  function DigitChar(d: digit): (c: char)
    ensures IsDigit(c) && DigitValue(c) == d
  {
    ('0' as int + d) as char
  }

  /** A natural in decimal, as std::to_chars writes it. */
  function DecimalText(n: nat): (s: string)
    ensures IsInteger(s)
  {
    if n < 10 then [DigitChar(n)] else DecimalText(n / 10) + [DigitChar(n % 10)]
  }

  function ZeroChars(k: nat): (s: string)
    ensures |s| == k && forall i :: 0 <= i < k ==> s[i] == '0'
  {
    seq(k, _ => '0')
  }

  function Padded(n: nat, width: nat): string
    requires |DecimalText(n)| <= width
  {
    ZeroChars(width - |DecimalText(n)|) + DecimalText(n)
  }

  lemma {:induction false} TextLength(n: nat, k: pos)
    requires n < Pow10(k)
    ensures |DecimalText(n)| <= k
  {
    if n >= 10 {
      assert Pow(10, 0) == 1 && Pow10(k) == 10 * Pow10(k - 1);
      TextLength(n / 10, k - 1);
    }
  }

  /** Splitting off the low digits as one zero-padded chunk. */
  lemma {:induction false} ChunkText(n: nat, high: pos, low: nat, width: pos)
    requires n == high * Pow10(width) + low && low < Pow10(width)
    ensures |DecimalText(low)| <= width && DecimalText(n) == DecimalText(high) + Padded(low, width)
  {
    TextLength(low, width);
    assert Pow10(width) == 10 * Pow10(width - 1) && Pow10(0) == 1;
    DivideByTen(n, high, low, Pow10(width - 1));
    hide *;
    TextStep(n);
    PaddedStep(low, width);
    if width > 1 {
      ChunkText(n / 10, high, low / 10, width - 1);
      var h, m := DecimalText(high), Padded(low / 10, width - 1);
      assert (h + m) + [DigitChar(low % 10)] == h + (m + [DigitChar(low % 10)]);
    }
  }

  lemma TextStep(n: nat)
    requires 10 <= n
    ensures DecimalText(n) == DecimalText(n / 10) + [DigitChar(n % 10)]
  {
  }

  lemma PaddedStep(low: nat, width: pos)
    requires |DecimalText(low)| <= width && low < Pow10(width)
    ensures if width == 1 then Padded(low, 1) == [DigitChar(low % 10)]
            else |DecimalText(low / 10)| <= width - 1 && Padded(low, width) == Padded(low / 10, width - 1) + [DigitChar(low % 10)]
  {
    assert Pow10(1) == 10 by { assert Pow10(0) == 1; }
    assert DecimalText(low) == if low < 10 then [DigitChar(low)] else DecimalText(low / 10) + [DigitChar(low % 10)];
    assert low < 10 ==> DecimalText(low / 10) == [DigitChar(0)];
    hide Pow, DecimalText, DigitChar;
    if width > 1 && low < 10 { assert ZeroChars(width - 1) == ZeroChars(width - 2) + "0"; }
  }

  lemma DivideByTen(n: nat, high: pos, low: nat, p: pos)
    requires n == high * (10 * p) + low && low < 10 * p
    ensures n / 10 == high * p + low / 10 && n % 10 == low % 10 && low / 10 < p && 10 <= n
  {
    MulMono(1, high, p);
    assert high * (10 * p) == 10 * (high * p);
    DivModUnique(n, 10, high * p + low / 10, low % 10);
  }

  function Chunk(n: nat, pad: bool, width: nat): string
    requires pad ==> |DecimalText(n)| <= width
  {
    if pad then Padded(n, width) else DecimalText(n)
  }

  /** append_chunk_reverse: writes right to left in front of what stands there, returns the new end. */
  method AppendChunkReverse(buf: array<char>, end: nat, chunk: nat, pad: bool, padWidth: nat, ghost top: nat) returns (start: nat)
    requires end <= top <= buf.Length && |DecimalText(chunk)| <= end && (pad ==> |DecimalText(chunk)| <= padWidth <= end)
    modifies buf
    ensures start <= end && buf[start..top] == Chunk(chunk, pad, padWidth) + old(buf[end..top])
  {
    var digits := DecimalText(chunk);
    var zeros := (if pad then padWidth else |digits|) - |digits|;
    ghost var was := buf[end..top];
    ChunkIs(chunk, pad, padWidth, zeros, was);
    hide *;
    start := end - |digits|;
    Write(buf, start, digits, top);
    Write(buf, start - zeros, ZeroChars(zeros), top);
    start := start - zeros;
  }

  lemma ChunkIs(chunk: nat, pad: bool, width: nat, zeros: nat, was: string)
    requires (pad ==> |DecimalText(chunk)| <= width) && zeros == if pad then width - |DecimalText(chunk)| else 0
    ensures ZeroChars(zeros) + (DecimalText(chunk) + was) == Chunk(chunk, pad, width) + was
  {
    var digits := DecimalText(chunk);
    assert ZeroChars(zeros) + (digits + was) == (ZeroChars(zeros) + digits) + was;
    assert ZeroChars(0) + digits == digits;
  }

  /** memcpy in front of what stands there. */
  method Write(buf: array<char>, at: nat, s: string, ghost top: nat)
    requires at + |s| <= top <= buf.Length
    modifies buf
    ensures buf[at..top] == s + old(buf[at + |s|..top])
  {
    ghost var after := buf[at + |s|..top];
    forall i | 0 <= i < |s| { buf[at + i] := s[i]; }
    assert buf[at..top] == s + after;
  }

  /** What is still to be written stands left of what has been. */
  ghost predicate Written(whole: string, value: nat, first: bool, done: string) {
    whole == (if value == 0 && !first then "" else DecimalText(value)) + done
  }

  lemma WriteStart(value: nat)
    ensures Written(DecimalText(value), value, true, "") && (value != 0 ==> Written(DecimalText(value), value, false, ""))
  {
    assert DecimalText(value) + "" == DecimalText(value);
  }

  lemma WriteEnd(whole: string, done: string)
    requires Written(whole, 0, false, done)
    ensures whole == done
  {
  }

  lemma PaddedLength(n: nat, width: nat)
    requires |DecimalText(n)| <= width
    ensures |Padded(n, width)| == width
  {
  }

  lemma WriteChunk(whole: string, value: nat, first: bool, done: string, high: nat, low: nat, width: nat)
    requires 0 < width && Written(whole, value, first, done) && (first || value != 0)
    requires value == high * Pow10(width) + low && low < Pow10(width)
    ensures |DecimalText(low)| <= width
    ensures Written(whole, high, false, Chunk(low, high != 0, width) + done)
    ensures |done| + (if high != 0 then width else |DecimalText(low)|) <= |whole|
  {
    TextLength(low, width);
    hide Pow, Padded, DecimalText;
    if high != 0 { WriteMore(whole, value, done, high, low, width); }
  }

  lemma WriteMore(whole: string, value: nat, done: string, high: pos, low: nat, width: pos)
    requires whole == DecimalText(value) + done
    requires value == high * Pow10(width) + low && low < Pow10(width)
    ensures |DecimalText(low)| <= width
    ensures whole == DecimalText(high) + (Padded(low, width) + done) && |done| + width <= |whole|
  {
    hide *;
    ChunkText(value, high, low, width);
    PaddedLength(low, width);
    assert (DecimalText(high) + Padded(low, width)) + done == DecimalText(high) + (Padded(low, width) + done);
  }

  lemma ChunkBase()
    ensures Pow10(19) == 10_000_000_000_000_000_000 && Pow10(18) == 1_000_000_000_000_000_000
  {
    TwentyDigits();
    PowAdd(10, 9, 9);
  }

  lemma WriteWide(whole: string, rest: nat, done: string, q: nat, r: nat, base: nat)
    requires Written(whole, rest, false, done) && rest != 0 && base == 10_000_000_000_000_000_000
    requires q * base + r == rest && r < base
    ensures |DecimalText(r)| <= 19 && q < rest
    ensures Written(whole, q, false, Chunk(r, q != 0, 19) + done)
    ensures |done| + (if q != 0 then 19 else |DecimalText(r)|) <= |whole|
  {
    ChunkBase();
    hide *;
    WriteChunk(whole, rest, false, done, q, r, 19);
  }

  /** integer_digits of 128 bits: chunks of nineteen digits. */
  method IntegerDigits128(buf: array<char>, end: nat, value: D.dword) returns (start: nat)
    requires end <= buf.Length && |DecimalText(value)| <= end
    modifies buf
    ensures start <= end && buf[start..end] == DecimalText(value)
  {
    if value / W == 0 {
      start := AppendChunkReverse(buf, end, value, false, 19, end);
      assert buf[end..end] == "";
    } else {
      start := ChunkDigits(buf, end, value);
    }
  }

  method ChunkDigits(buf: array<char>, end: nat, value: D.dword) returns (start: nat)
    requires end <= buf.Length && |DecimalText(value)| <= end && value != 0
    modifies buf
    ensures start <= end && buf[start..end] == DecimalText(value)
  {
    var base: word := 10_000_000_000_000_000_000;
    hide *;
    ghost var whole := DecimalText(value);
    var rest: D.dword, cursor: nat := value, end;
    WriteStart(value);
    assert buf[end..end] == "";
    while rest != 0
      invariant cursor <= end && Written(whole, rest, false, buf[cursor..end])
      decreases rest
    {
      var chunk := D.Divide128By64(rest, base);
      WriteWide(whole, rest, buf[cursor..end], chunk.quotient, chunk.remainder, base);
      cursor := AppendChunkReverse(buf, cursor, chunk.remainder, chunk.quotient != 0, 19, end);
      rest := chunk.quotient;
    }
    start := cursor;
    WriteEnd(whole, buf[cursor..end]);
  }

  /** integer_digits of 256 bits: chunks of eighteen digits by single-limb division. */
  method IntegerDigits256(buf: array<char>, end: nat, value: seq<word>) returns (start: nat)
    requires end <= buf.Length && |DecimalText(Val(value))| <= end
    modifies buf
    ensures start <= end && buf[start..end] == DecimalText(Val(value))
  {
    hide Val;
    ghost var whole := DecimalText(Val(value));
    var rest, cursor: nat, first := value, end, true;
    hide DecimalText, Padded, Written;
    WriteStart(Val(value));
    assert buf[end..end] == "";
    while first || Val(rest) != 0
      invariant cursor <= end && Written(whole, Val(rest), first, buf[cursor..end])
      decreases Val(rest) + if first then 1 else 0
    {
      ChunkBase();
      var quotient, remainder := DivMod64(rest, 1_000_000_000_000_000_000);
      WriteChunk(whole, Val(rest), first, buf[cursor..end], Val(quotient), remainder, 18);
      var active := ActiveLimbs(quotient);
      cursor := AppendChunkReverse(buf, cursor, remainder, active != 0, 18, end);
      rest, first := quotient, false;
    }
    start := cursor;
    WriteEnd(whole, buf[cursor..end]);
  }

  // ----- the text -----

  /** The digits before and after the point for k decimals. */
  function WholePart(digits: string, k: nat): string {
    if |digits| > k then digits[..|digits| - k] else "0"
  }

  function FractionPart(digits: string, k: nat): string {
    if |digits| > k then digits[|digits| - k..] else ZeroChars(k - |digits|) + digits
  }

  function TrimZeros(s: string): string {
    if s != "" && s[|s| - 1] == '0' then TrimZeros(s[..|s| - 1]) else s
  }

  /** Trailing zeros go, and then a bare point. */
  function Trimmed(s: string): string {
    var t := TrimZeros(s);
    if t != "" && t[|t| - 1] == '.' then t[..|t| - 1] else t
  }

  /** The digits with a point before the last k of them, padded with zeros if there are too few. */
  function Body(digits: string, k: nat): string {
    WholePart(digits, k) + if k == 0 then "" else "." + FractionPart(digits, k)
  }

  /** n * 10^-k as text. A zero has no sign. */
  function Render(n: nat, k: nat, negative: bool, trim: bool): string {
    var full := (if negative && n != 0 then "-" else "") + Body(DecimalText(n), k);
    if trim && k != 0 then Trimmed(full) else full
  }

  /** A magnitude divided by 10^reduce and rounded, with no range limit. */
  function Reduced(raw: int, reduce: nat, mode: Mode): Result<nat> {
    var q, part := Quot(Abs(raw), Pow10(reduce)), PartOf(Rem(Abs(raw), Pow10(reduce)), Pow10(reduce));
    if part.Nothing? then Ok(q)
    else if mode.Exact? then Err(Inexact)
    else Ok(RoundedMagnitude(q, part, raw < 0, mode))
  }

  /** What printing promises: k decimals, rounded once. */
  function Print(raw: int, decimals: nat, k: nat, trim: bool, mode: Mode): Result<string> {
    if k > decimals then Err(InvalidPrecision)
    else match Reduced(raw, decimals - k, mode)
      case Err(e) => Err(e)
      case Ok(n) => Ok(Render(n, k, raw < 0, trim))
  }

  // ----- the three rounding heads -----

  /** A quotient can only reach the word's maximum when nothing is left over. */
  lemma NoOverflow(n: nat, d: pos, limit: nat, negative: bool, mode: Mode)
    requires n <= limit
    ensures var q, r := Quot(n, d), Rem(n, d);
            RoundMagnitude(q, r, d, negative, mode, limit)
            == if r == 0 then Ok(q) else if mode.Exact? then Err(Inexact)
               else Ok(RoundedMagnitude(q, PartOf(r, d), negative, mode))
  {
    QuotRem(n, d);
    if d == 1 { QuotUnique(n, 1, n, 0); } else if Quot(n, d) == limit { MulMono(2, d, limit); }
  }

  method Round64(raw: int64, reduce: nat, mode: Mode) returns (r: Result<nat>)
    requires reduce <= 18
    ensures r == Reduced(raw, reduce, mode) && (r.Ok? ==> r.value < W)
  {
    K.Scale128(reduce);
    hide Pow;
    var m, d: word := MagnitudeW(raw), Pow10(reduce);
    NoOverflow(m, d, W - 1, raw < 0, mode);
    r := RoundMagnitude(Quot(m, d), Rem(m, d), d, raw < 0, mode, W - 1);
  }

  /** 128 bits: in one word when the operands allow it, else two steps or a double division. */
  method Round128(raw: int128, reduce: nat, mode: Mode) returns (r: Result<nat>)
    requires reduce <= 38
    ensures r == Reduced(raw, reduce, mode) && (r.Ok? ==> r.value < D.W2)
  {
    K.Scale128(reduce);
    hide Pow;
    var m, d: D.dword := MagnitudeD(raw), Pow10(reduce);
    if d / W == 0 && m / W == 0 {
      NoOverflow(m, d, W - 1, raw < 0, mode);
      r := RoundMagnitude(Quot(m, d), Rem(m, d), d, raw < 0, mode, W - 1);
      return;
    }
    NoOverflow(m, d, D.W2 - 1, raw < 0, mode);
    var value: D.Quotient;
    if d / W == 0 { value := TwoStep(m, d); } else { value := D.Divide128(m, d, true); }
    r := RoundMagnitude(value.quotient, value.remainder, d, raw < 0, mode, D.W2 - 1);
  }

  method TwoStep(m: D.dword, d: word) returns (value: D.Quotient)
    requires d != 0
    ensures value == D.Quotient(Quot(m, d), Rem(m, d))
  {
    D.Split(m);
    var high: word, low: word := m / W, m % W;
    QuotRem(high, d);
    var qlo: word, rem: word := Div128By64(Rem(high, d), low, d);
    D.TwoDigits(Quot(high, d), qlo, d, Rem(high, d), high, low, rem);
    D.PairBound(Quot(high, d), qlo);
    QuotUnique(m, d, Pair(Quot(high, d), qlo), rem);
    value := D.Quotient(Pair(Quot(high, d), qlo), rem);
  }

  method Round256(raw: int256, reduce: nat, mode: Mode) returns (r: Result<nat>)
    requires reduce <= 76
    ensures r == Reduced(raw, reduce, mode) && (r.Ok? ==> r.value < PowW(4))
  {
    hide Pow, Val, PowW;
    var m := Magnitude256(raw);
    var d := Mixed.PowerFor(reduce, 4);
    ValBound(m);
    var quotient, remainder := Knuth.DivMod(m, d);
    QuotUnique(Val(m), Val(d), Val(quotient), Val(remainder));
    NoOverflow(Val(m), Val(d), PowW(4) - 1, raw < 0, mode);
    r := RoundMagnitude(Val(quotient), Val(remainder), Val(d), raw < 0, mode, PowW(4) - 1);
  }

  // ----- writing it -----

  const TEXT_CAPACITY: nat := 128

  /** memcpy to the cursor. */
  method Append(output: array<char>, cursor: nat, s: string) returns (next: nat)
    requires cursor + |s| <= output.Length
    modifies output
    ensures next == cursor + |s| && output[..next] == old(output[..cursor]) + s
  {
    ghost var before := output[..cursor];
    forall i | 0 <= i < |s| { output[cursor + i] := s[i]; }
    next := cursor + |s|;
    assert output[..cursor] == before && output[cursor..next] == s;
    assert output[..next] == output[..cursor] + output[cursor..next];
  }

  /** The text is copied whole or not at all. */
  predicate Emitted(r: Result<nat>, text: string, capacity: nat, was: string, now: string) {
    if capacity < |text| then r == Err(BufferTooSmall) && now == was
    else r == Ok(|text|) && |text| <= |was| && now == text + was[|text|..]
  }

  /** The shared tail of the three formatters: assemble, trim backwards, copy if it fits. */
  method Emit(buffer: array<char>, capacity: nat, n: nat, digits: string, k: nat, negative: bool, trim: bool)
    returns (r: Result<nat>)
    requires digits == DecimalText(n) && |digits| <= 78 && k <= 76 && capacity <= buffer.Length
    modifies buffer
    ensures Emitted(r, Render(n, k, negative, trim), capacity, old(buffer[..]), buffer[..])
  {
    NoDecimals(n, negative, trim);
    hide Render, DecimalText, Emitted;
    var output := new char[TEXT_CAPACITY];
    var cursor := Assemble(output, n, digits, k, negative);
    if trim && k != 0 {
      ghost var full := output[..cursor];
      ghost var point := PointInside(n, k, negative);
      TrimmedRender(n, k, negative);
      cursor := TrimBack(output[..cursor], point);
      assert full[..cursor] == output[..cursor];
    }
    r := Copy(buffer, capacity, output[..cursor]);
  }

  lemma NoDecimals(n: nat, negative: bool, trim: bool)
    ensures Render(n, 0, negative, trim) == Render(n, 0, negative, false)
  {
  }

  method Copy(buffer: array<char>, capacity: nat, text: string) returns (r: Result<nat>)
    requires capacity <= buffer.Length
    modifies buffer
    ensures Emitted(r, text, capacity, old(buffer[..]), buffer[..])
  {
    if capacity < |text| { return Err(BufferTooSmall); }
    ghost var was := buffer[..];
    forall i | 0 <= i < |text| { buffer[i] := text[i]; }
    assert buffer[..] == text + was[|text|..];
    r := Ok(|text|);
  }

  method Assemble(output: array<char>, n: nat, digits: string, k: nat, negative: bool) returns (cursor: nat)
    requires digits == DecimalText(n) && |digits| <= 78 && k <= 76 && output.Length == TEXT_CAPACITY
    modifies output
    ensures cursor <= output.Length && output[..cursor] == Render(n, k, negative, false)
  {
    hide DecimalText, Body;
    cursor := 0;
    if negative && n != 0 { cursor := Append(output, cursor, "-"); }
    if |digits| > k {
      cursor := AppendLong(output, cursor, digits, k);
    } else {
      cursor := AppendShort(output, cursor, digits, k);
    }
  }

  method AppendLong(output: array<char>, start: nat, digits: string, k: nat) returns (cursor: nat)
    requires start + |digits| + 1 <= output.Length && |digits| > k
    modifies output
    ensures start <= cursor <= output.Length && output[..cursor] == old(output[..start]) + Body(digits, k)
  {
    var whole, frac := digits[..|digits| - k], digits[|digits| - k..];
    BodyShape(digits, k);
    Join(output[..start], whole, ".", frac, "");
    hide *;
    cursor := Append(output, start, whole);
    if k != 0 {
      cursor := Append(output, cursor, ".");
      cursor := Append(output, cursor, frac);
    }
  }

  method AppendShort(output: array<char>, start: nat, digits: string, k: nat) returns (cursor: nat)
    requires start + k + 2 <= output.Length && |digits| <= k
    modifies output
    ensures start <= cursor <= output.Length && output[..cursor] == old(output[..start]) + Body(digits, k)
  {
    var zeros := ZeroChars(k - |digits|);
    BodyShape(digits, k);
    Join(output[..start], "0", ".", zeros, digits);
    hide *;
    cursor := Append(output, start, "0");
    if k != 0 {
      cursor := Append(output, cursor, ".");
      cursor := Append(output, cursor, zeros);
      cursor := Append(output, cursor, digits);
    }
  }

  /** What successive appends write, grouped as the text. */
  lemma Join(s: string, a: string, b: string, c: string, d: string)
    ensures s + a + b + c + d == s + (a + (b + (c + d)))
    ensures s + a + b + c == s + (a + (b + c))
  {
  }

  lemma BodyShape(digits: string, k: nat)
    ensures |digits| > k && k != 0 ==> Body(digits, k) == digits[..|digits| - k] + ("." + digits[|digits| - k..])
    ensures |digits| <= k && k != 0 ==> Body(digits, k) == "0" + ("." + (ZeroChars(k - |digits|) + digits))
    ensures k == 0 && |digits| > k ==> Body(digits, k) == digits[..|digits| - k]
    ensures k == 0 && |digits| <= k ==> Body(digits, k) == "0"
  {
  }

  /** `while (cursor[-1] == '0') --cursor`: the point stops it. */
  method TrimBack(text: string, ghost point: nat) returns (cursor: nat)
    requires point < |text| && text[point] == '.'
    ensures cursor <= |text| && text[..cursor] == Trimmed(text)
  {
    hide *;
    cursor := |text|;
    assert text[..cursor] == text;
    while text[cursor - 1] == '0'
      invariant point < cursor <= |text| && TrimZeros(text[..cursor]) == TrimZeros(text)
      decreases cursor
    {
      TrimStep(text, cursor);
      cursor := cursor - 1;
    }
    TrimEnd(text, cursor);
    if text[cursor - 1] == '.' { cursor := cursor - 1; }
  }

  lemma TrimStep(s: string, cursor: nat)
    requires 0 < cursor <= |s| && s[cursor - 1] == '0'
    ensures TrimZeros(s[..cursor]) == TrimZeros(s[..cursor - 1])
  {
    assert s[..cursor][..cursor - 1] == s[..cursor - 1];
  }

  lemma TrimEnd(s: string, cursor: nat)
    requires 0 < cursor <= |s| && s[cursor - 1] != '0' && TrimZeros(s) == TrimZeros(s[..cursor])
    ensures Trimmed(s) == if s[cursor - 1] == '.' then s[..cursor - 1] else s[..cursor]
  {
    assert s[..cursor][..cursor - 1] == s[..cursor - 1];
  }

  lemma PointInside(n: nat, k: nat, negative: bool) returns (point: nat)
    requires k != 0
    ensures point < |Render(n, k, negative, false)| && Render(n, k, negative, false)[point] == '.'
  {
    var sign := if negative && n != 0 then "-" else "";
    point := |sign| + |WholePart(DecimalText(n), k)|;
    var body := Body(DecimalText(n), k);
    assert body[|WholePart(DecimalText(n), k)|] == '.';
    assert (sign + body)[point] == body[point - |sign|];
  }

  lemma TrimmedRender(n: nat, k: nat, negative: bool)
    requires k != 0
    ensures Render(n, k, negative, true) == Trimmed(Render(n, k, negative, false))
  {
  }

  // ----- format_fixed_kernel -----

  method FormatDword(buffer: array<char>, capacity: nat, rounded: nat, k: nat, negative: bool, trim: bool)
    returns (r: Result<nat>)
    requires capacity <= buffer.Length && rounded < D.W2 && k <= 76
    modifies buffer
    ensures Emitted(r, Render(rounded, k, negative, trim), capacity, old(buffer[..]), buffer[..])
  {
    DwordText(rounded);
    hide Render, DecimalText, Emitted;
    var digits := new char[80];
    var start := IntegerDigits128(digits, 80, rounded);
    assert digits[start..80] == digits[start..];
    r := Emit(buffer, capacity, rounded, digits[start..], k, negative, trim);
  }

  method FormatQuad(buffer: array<char>, capacity: nat, rounded: nat, k: nat, negative: bool, trim: bool)
    returns (r: Result<nat>)
    requires capacity <= buffer.Length && rounded < PowW(4) && k <= 76
    modifies buffer
    ensures Emitted(r, Render(rounded, k, negative, trim), capacity, old(buffer[..]), buffer[..])
  {
    ToLimbsValue(rounded, 4);
    QuadText(rounded);
    hide Render, DecimalText, Emitted;
    var digits := new char[128];
    var start := IntegerDigits256(digits, 128, ToLimbs(rounded, 4));
    assert digits[start..128] == digits[start..];
    r := Emit(buffer, capacity, rounded, digits[start..], k, negative, trim);
  }

  lemma DwordText(n: nat)
    requires n < D.W2
    ensures |DecimalText(n)| <= 39
  {
    Pow2Doubles();
    LargePowers();
    TextLength(n, 39);
  }

  lemma QuadText(n: nat)
    requires n < PowW(4)
    ensures |DecimalText(n)| <= 78
  {
    Width256();
    LargePowers();
    hide *;
    TextLength(n, 78);
  }

  /** The formatter of every width: round, convert, assemble. */
  method Format(buffer: array<char>, capacity: nat, raw: int, decimals: nat, k: nat, trim: bool, mode: Mode, bits: nat)
    returns (r: Result<nat>)
    requires capacity <= buffer.Length && Width(bits) && Fits(raw, bits)
    requires decimals <= if bits <= 64 then 18 else if bits == 128 then 38 else 76
    modifies buffer
    ensures var text := Print(raw, decimals, k, trim, mode);
            if text.Err? then r == Err(text.error) && buffer[..] == old(buffer[..])
            else Emitted(r, text.value, capacity, old(buffer[..]), buffer[..])
  {
    hide Emitted, Render, Reduced, Pow;
    if k > decimals { return Err(InvalidPrecision); }
    NarrowFits(raw, bits);
    OnlyInexact(raw, decimals - k, mode);
    if bits <= 128 {
      var rounded: Result<nat>;
      if bits <= 64 { rounded := Round64(raw, decimals - k, mode); } else { rounded := Round128(raw, decimals - k, mode); }
      if rounded.Err? { return Err(Inexact); }
      r := FormatDword(buffer, capacity, rounded.value, k, raw < 0, trim);
    } else {
      var rounded := Round256(raw, decimals - k, mode);
      if rounded.Err? { return Err(Inexact); }
      r := FormatQuad(buffer, capacity, rounded.value, k, raw < 0, trim);
    }
  }

  lemma NarrowFits(raw: int, bits: nat)
    requires Width(bits) && Fits(raw, bits)
    ensures bits <= 64 ==> -0x8000_0000_0000_0000 <= raw < 0x8000_0000_0000_0000
    ensures bits == 128 ==> -0x8000_0000_0000_0000_0000_0000_0000_0000 <= raw < 0x8000_0000_0000_0000_0000_0000_0000_0000
  {
    Limits();
    if bits <= 64 { FitsWider(raw, bits, 64); }
  }

  lemma OnlyInexact(raw: int, reduce: nat, mode: Mode)
    ensures Reduced(raw, reduce, mode).Err? ==> Reduced(raw, reduce, mode) == Err(Inexact)
  {
  }
}
