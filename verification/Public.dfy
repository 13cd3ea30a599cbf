/** The public checked operations of every width, dispatched as the header does, beside the
    constant-expression reference that must agree with them. */
module Public {
  import opened Arith
  import opened Rounding
  import opened Signs
  import Operations
  import K64 = Kernels64
  import K128 = Kernels128
  import K256 = Kernels256
  import Reference

  /** max_decimals_for_bits. */
  function MaxDecimals(bits: nat): nat {
    if bits == 8 then 2 else if bits == 16 then 4 else if bits == 32 then 9
    else if bits == 64 then 18 else if bits == 128 then 38 else 76
  }

  /** Storage limbs of the reference. */
  function StorageLimbs(bits: nat): nat { if bits == 256 then 4 else if bits == 128 then 2 else 1 }

  predicate Operand(x: int, bits: nat) { Width(bits) && Fits(x, bits) }

  lemma Narrow(x: int, bits: nat)
    requires Operand(x, bits)
    ensures bits <= 32 ==> -0x8000_0000 <= x < 0x8000_0000
    ensures bits <= 64 ==> -0x8000_0000_0000_0000 <= x < 0x8000_0000_0000_0000
    ensures bits <= 128 ==> -0x8000_0000_0000_0000_0000_0000_0000_0000 <= x < 0x8000_0000_0000_0000_0000_0000_0000_0000
  {
    Limits();
    if bits <= 128 { FitsWider(x, bits, 128); }
    if bits <= 64 { FitsWider(x, bits, 64); }
    if bits <= 32 { Fits32(x, bits); }
  }

  lemma Fits32(x: int, bits: nat)
    requires 0 < bits <= 32 && Fits(x, bits)
    ensures -0x8000_0000 <= x < 0x8000_0000
  {
    FitsWider(x, bits, 32);
    Pow2Halves();
  }

  lemma SmallScale(decimals: nat)
    requires decimals <= 9
    ensures 0 < Pow10(decimals) <= 1_000_000_000
  {
    PowMono(10, decimals, 9);
    assert Pow(10, 5) == 100000 && Pow(10, 4) == 10000;
    PowAdd(10, 5, 4);
  }

  /** mul. */
  method Mul(a: int, b: int, decimals: nat, mode: Mode, bits: nat) returns (r: Result<int>)
    requires Operand(a, bits) && Operand(b, bits) && decimals <= MaxDecimals(bits)
    ensures r == Operations.Mul(a, b, decimals, mode, bits)
  {
    Narrow(a, bits);
    Narrow(b, bits);
    hide Fits, Pow, Evaluate;
    if bits <= 32 {
      SmallScale(decimals);
      r := K64.NarrowQuotient(a, b, Pow10(decimals), mode, bits);
    } else if bits == 64 {
      r := K64.Fixed64Mul(a, b, decimals, mode);
    } else if bits == 128 {
      if K64.CommonRounding(mode) && K128.Fits64(a) && K128.Fits64(b) && decimals <= 18 {
        var x := K128.InlineMul128(a, b, decimals, mode);
        r := Ok(x);
      } else if decimals <= 19 {
        r := K128.Mul128Scaled(a, b, decimals, mode);
      } else {
        r := K128.Mul128(a, b, decimals, mode);
      }
    } else {
      r := K256.Mul256(a, b, decimals, mode);
    }
  }

  /** div. */
  method Div(a: int, b: int, decimals: nat, mode: Mode, bits: nat) returns (r: Result<int>)
    requires Operand(a, bits) && Operand(b, bits) && decimals <= MaxDecimals(bits)
    ensures r == Operations.Div(a, b, decimals, mode, bits)
  {
    Narrow(a, bits);
    Narrow(b, bits);
    hide Fits, Pow, Evaluate;
    if bits <= 32 {
      SmallScale(decimals);
      r := K64.NarrowQuotient(a, Pow10(decimals), b, mode, bits);
    } else if bits == 64 {
      r := K64.Fixed64Div(a, b, decimals, mode);
    } else if bits == 128 {
      if decimals <= 19 {
        r := K128.Div128Scaled(a, b, decimals, mode);
      } else {
        r := K128.Div128(a, b, decimals, mode);
      }
    } else {
      r := K256.Div256(a, b, decimals, mode);
    }
  }

  /** mul_div. */
  method MulDiv(a: int, b: int, c: int, mode: Mode, bits: nat) returns (r: Result<int>)
    requires Operand(a, bits) && Operand(b, bits) && Operand(c, bits)
    ensures r == Operations.MulDiv(a, b, c, mode, bits)
  {
    Narrow(a, bits);
    Narrow(b, bits);
    Narrow(c, bits);
    hide Fits, Pow, Evaluate;
    if c == 0 { return Err(DivisionByZero); }
    if bits <= 32 {
      r := K64.NarrowQuotient(a, b, c, mode, bits);
    } else if bits == 64 {
      r := K64.Fixed64MulDiv(a, b, c, mode);
    } else if bits == 128 {
      if K64.CommonRounding(mode) && K128.Fits64(a) && K128.Fits64(b) && K128.Fits64(c) {
        r := K128.InlineMulDiv128(a, b, c, mode);
      } else {
        r := K128.MulDiv128(a, b, c, mode);
      }
    } else {
      r := K256.MulDiv256(a, b, c, mode);
    }
  }

  /** quantize. */
  method Quantize(a: int, current: nat, target: nat, mode: Mode, bits: nat) returns (r: Result<int>)
    requires Operand(a, bits) && current <= MaxDecimals(bits)
    ensures r == Operations.Quantize(a, current, target, mode, bits)
  {
    Narrow(a, bits);
    if target > current { return Err(InvalidPrecision); }
    if target == current { return Ok(a); }
    hide Pow, Evaluate;
    if bits <= 32 {
      r := K64.NarrowQuantizeKernel(a, current, target, mode, bits);
    } else if bits == 64 {
      r := K64.Quantize64(a, current, target, mode);
    } else if bits == 128 {
      r := K128.Quantize128(a, current, target, mode);
    } else {
      r := K256.Quantize256(a, current, target, mode);
    }
  }

  /** remainder. */
  method Remainder(a: int, b: int, bits: nat) returns (r: Result<int>)
    requires Operand(a, bits) && Operand(b, bits)
    ensures r == Operations.Remainder(a, b)
  {
    Narrow(a, bits);
    Narrow(b, bits);
    if bits <= 64 {
      if b == 0 { return Err(DivisionByZero); }
      if b == -1 {
        QuotUnique(Abs(a), 1, Abs(a), 0);
        return Ok(0);
      }
      r := Ok(Signed(Rem(Abs(a), Abs(b)), a < 0));
    } else if bits == 128 {
      r := K128.Remainder128(a, b);
    } else {
      r := K256.Remainder256(a, b);
    }
  }

  // ----- at run time and in a constant expression -----

  /** The two implementations agree on every operand, scale, mode and width. */
  method MulBothWays(a: int, b: int, decimals: nat, mode: Mode, bits: nat) returns (runtime: Result<int>, constant: Result<int>)
    requires Operand(a, bits) && Operand(b, bits) && decimals <= MaxDecimals(bits)
    ensures runtime == constant
  {
    runtime := Mul(a, b, decimals, mode, bits);
    constant := Reference.Mul(a, b, decimals, mode, bits, StorageLimbs(bits));
  }

  method DivBothWays(a: int, b: int, decimals: nat, mode: Mode, bits: nat) returns (runtime: Result<int>, constant: Result<int>)
    requires Operand(a, bits) && Operand(b, bits) && decimals <= MaxDecimals(bits)
    ensures runtime == constant
  {
    runtime := Div(a, b, decimals, mode, bits);
    constant := Reference.Div(a, b, decimals, mode, bits, StorageLimbs(bits));
  }

  method MulDivBothWays(a: int, b: int, c: int, mode: Mode, bits: nat) returns (runtime: Result<int>, constant: Result<int>)
    requires Operand(a, bits) && Operand(b, bits) && Operand(c, bits)
    ensures runtime == constant
  {
    runtime := MulDiv(a, b, c, mode, bits);
    constant := Reference.MulDiv(a, b, c, mode, bits, StorageLimbs(bits));
  }

  method QuantizeBothWays(a: int, current: nat, target: nat, mode: Mode, bits: nat)
    returns (runtime: Result<int>, constant: Result<int>)
    requires Operand(a, bits) && current <= MaxDecimals(bits)
    ensures runtime == constant
  {
    runtime := Quantize(a, current, target, mode, bits);
    constant := Reference.Quantize(a, current, target, mode, bits, StorageLimbs(bits));
  }

  method RemainderBothWays(a: int, b: int, bits: nat) returns (runtime: Result<int>, constant: Result<int>)
    requires Operand(a, bits) && Operand(b, bits)
    ensures runtime == constant
  {
    runtime := Remainder(a, b, bits);
    constant := Reference.Remainder(a, b, bits, StorageLimbs(bits));
  }
}
