/** Two's complement: how signed machine words carry a sign. */
module Signs {
  import opened Arith
  import opened Words
  import opened Division
  import opened Rounding

  type int64 = x: int | -0x8000_0000_0000_0000 <= x < 0x8000_0000_0000_0000
  const HALF2: nat := 0x8000_0000_0000_0000_0000_0000_0000_0000
  type int128 = x: int
    | -0x8000_0000_0000_0000_0000_0000_0000_0000 <= x < 0x8000_0000_0000_0000_0000_0000_0000_0000

  function ToWord(x: int64): word { if x < 0 then x + W else x }

  function FromWord(w: word): int64 { if w < HALF then w else w - W }

  function ToDword(x: int128): dword { if x < 0 then x + W2 else x }

  function FromDword(d: dword): int128 { if d < HALF2 then d else d - W2 }

  /** `negative ? 0 - (unsigned)x : (unsigned)x`: correct for the signed minimum too. */
  function MagnitudeW(x: int64): (r: word)
    ensures r == Abs(x)
  {
    if x < 0 then SubW(0, ToWord(x)) else ToWord(x)
  }

  function MagnitudeD(x: int128): (r: dword)
    ensures r == Abs(x)
  {
    if x < 0 then SubD(0, ToDword(x)) else ToDword(x)
  }

  /** Negation in unsigned arithmetic. */
  function ApplySignW(m: word, negative: bool): int64 { FromWord(if negative then SubW(0, m) else m) }

  function ApplySignD(m: dword, negative: bool): int128 { FromDword(if negative then SubD(0, m) else m) }

  lemma SignedWord(m: word, negative: bool)
    requires m <= HALF - 1 + Bit(negative)
    ensures ApplySignW(m, negative) == Signed(m, negative)
  {
  }

  lemma SignedDword(m: dword, negative: bool)
    requires m <= HALF2 - 1 + Bit(negative)
    ensures ApplySignD(m, negative) == Signed(m, negative)
  {
  }

  lemma Limits()
    ensures forall negative :: Limit(64, negative) == HALF - 1 + Bit(negative)
    ensures forall negative :: Limit(128, negative) == HALF2 - 1 + Bit(negative)
    ensures forall x: int :: Fits(x, 64) <==> -0x8000_0000_0000_0000 <= x < 0x8000_0000_0000_0000
    ensures forall x: int :: Fits(x, 128) <==>
              -0x8000_0000_0000_0000_0000_0000_0000_0000 <= x < 0x8000_0000_0000_0000_0000_0000_0000_0000
  {
    Pow2Words();
    Pow2Doubles();
  }

  /** Any width at once: the bit pattern of x, and the value of a pattern. */
  function Pattern(x: int, bits: pos): nat
    requires Fits(x, bits)
  {
    assert Pow2(bits) == 2 * Pow2(bits - 1);
    if x < 0 then x + Pow2(bits) else x
  }

  function FromPattern(p: nat, bits: pos): int
  {
    if p < Pow2(bits - 1) then p else p - Pow2(bits)
  }

  /** ~p + 1, or 0 - p. */
  function Negated(p: nat, bits: nat): nat { if p == 0 then 0 else if p <= Pow2(bits) then Pow2(bits) - p else 0 }

  lemma PatternMagnitude(x: int, bits: pos)
    requires Fits(x, bits)
    ensures (if x < 0 then Negated(Pattern(x, bits), bits) else Pattern(x, bits)) == Abs(x)
    ensures Abs(x) <= Limit(bits, x < 0)
  {
    assert Pow2(bits) == 2 * Pow2(bits - 1);
  }
}
