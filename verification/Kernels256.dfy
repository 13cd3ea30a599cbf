/** The 256-bit kernels: magnitudes in four limbs, products in eight, one limb division. */
module Kernels256 {
  import opened Arith
  import opened Words
  import opened Rounding
  import opened Operations
  import opened Limbs
  import opened Signs
  import Knuth

  type int256 = x: int | Fits(x, 256) witness 0

  // ----- naturals and limbs -----

  function ToLimbs(n: nat, k: nat): (s: seq<word>)
    ensures |s| == k
  {
    if k == 0 then [] else [n % W] + ToLimbs(n / W, k - 1)
  }

  lemma {:induction false} ToLimbsValue(n: nat, k: nat)
    requires n < PowW(k)
    ensures Val(ToLimbs(n, k)) == n
  {
    if k != 0 {
      PowWAdd(1, k - 1);
      assert PowW(1) == W;
      DivLess(n, W, PowW(k - 1));
      ToLimbsValue(n / W, k - 1);
      ValHead(ToLimbs(n, k));
    }
  }

  /** A limb count names a width: W^k is 2^(64k). */
  lemma LimbBits(k: nat)
    ensures PowW(k) == Pow2(64 * k)
  {
    Pow2Words();
    PowPow(2, 64, k);
  }

  /** The 2^256 patterns of the storage type. */
  lemma Width256()
    ensures PowW(4) == Pow2(256) == 2 * Pow2(255)
  {
    LimbBits(4);
    assert Pow2(256) == 2 * Pow(2, 255);
  }

  /** magnitude(int256): the pattern, negated limb by limb for a negative value. */
  method Magnitude256(x: int256) returns (m: seq<word>)
    ensures |m| == 4 && Val(m) == Abs(x) <= Limit(256, x < 0)
  {
    Width256();
    PatternMagnitude(x, 256);
    hide Pow;
    var pattern := Pattern(x, 256);
    ToLimbsValue(pattern, 4);
    m := ToLimbs(pattern, 4);
    if x < 0 {
      m := Sub(Zeros(4), m);
      ValZeros(Zeros(4));
      DivModUnique(Val(Zeros(4)) - pattern, Pow2(256), -1, Pow2(256) - pattern);
    }
  }

  /** The limbs reinterpreted as a signed value, after `-res` for a negative result. */
  method Store256(m: seq<word>, negative: bool) returns (x: int256)
    requires |m| == 4 && Val(m) <= Limit(256, negative)
    ensures x == Signed(Val(m), negative)
  {
    Width256();
    hide Pow;
    var limbs := m;
    if negative {
      limbs := Sub(Zeros(4), m);
      ValZeros(Zeros(4));
      DivModUnique(0 - Val(m), Pow2(256), if Val(m) == 0 then 0 else -1, Negated(Val(m), 256));
    }
    x := FromPattern(Val(limbs), 256);
  }

  /** divide_wide: one limb of divisor goes to the single-limb division. */
  method DivideWide(num: seq<word>, den: seq<word>) returns (quotient: seq<word>, remainder: seq<word>)
    requires Val(den) != 0
    ensures |quotient| == |num| && |remainder| == |den|
    ensures Val(num) == Val(quotient) * Val(den) + Val(remainder) && Val(remainder) < Val(den)
  {
    var active := ActiveLimbs(den);
    if active <= 1 {
      var q, rem := DivMod64(num, den[0]);
      Val1(den[..1]);
      assert den[..active] == den[..1];
      quotient, remainder := q, [rem] + Zeros(|den| - 1);
      ValWiden([rem], |den| - 1);
      Val1([rem]);
    } else {
      quotient, remainder := Knuth.DivMod(num, den);
    }
  }

  method LimitLimbs(negative: bool) returns (limit: nat)
    ensures limit == Limit(256, negative) < PowW(4)
  {
    Width256();
    limit := if negative then Pow2(255) else Pow2(255) - 1;
  }

  /** Nonzero limbs above the fourth mean a quotient of 2^256 or more. */
  lemma HighLimbs(q: seq<word>, i: nat)
    requires 4 <= i < |q| && q[i] != 0
    ensures PowW(4) <= Val(q)
  {
    ValSplit(q, 4);
    if Val(q[4..]) == 0 { ZeroValue(q[4..], i - 4); }
    MulMono(1, Val(q[4..]), PowW(4));
  }

  lemma ZeroValue(s: seq<word>, i: nat)
    requires i < |s| && Val(s) == 0
    ensures s[i] == 0
  {
    ValZeros(Zeros(|s|));
    ValInjective(s, Zeros(|s|));
  }

  method HasHighLimbs(q: seq<word>) returns (wide: bool)
    requires 4 <= |q|
    ensures wide ==> PowW(4) <= Val(q)
    ensures !wide ==> Val(q[..4]) == Val(q)
  {
    for i := 4 to |q|
      invariant forall k :: 4 <= k < i ==> q[k] == 0
    {
      if q[i] != 0 {
        HighLimbs(q, i);
        return true;
      }
    }
    ValTrim(q, 4);
    return false;
  }

  /** The shared tail of mul, div and mul_div: divide, check the width, round, restore the sign. */
  method Finish256(num: seq<word>, den: seq<word>, negative: bool, mode: Mode) returns (r: Result<int>)
    requires 4 <= |num| && |den| == 4 && Val(den) != 0
    ensures r == Evaluate(Signed(Val(num), negative), Val(den), mode, 256)
  {
    hide Pow, Val, Evaluate, Rounded;
    var quotient, remainder := DivideWide(num, den);
    var wide := HasHighLimbs(quotient);
    var limit := LimitLimbs(negative);
    if wide {
      QuotientTooWide256(Val(num), Val(den), Val(quotient), Val(remainder), negative, mode);
      return Err(Overflow);
    }
    RoundedIsEvaluate(Val(num), Val(den), Val(quotient), Val(remainder), negative, mode, 256);
    r := RoundStore(quotient[..4], Val(remainder), Val(den), limit, negative, mode);
  }

  lemma QuotientTooWide256(n: nat, d: pos, q: nat, r: nat, negative: bool, mode: Mode)
    requires n == q * d + r && PowW(4) <= q
    ensures Evaluate(Signed(n, negative), d, mode, 256) == Err(Overflow)
  {
    Width256();
    hide Pow, Evaluate;
    MulMono(PowW(4), q, d);
    OverflowIsEvaluate(n, d, PowW(4), negative, mode, 256);
  }

  method RoundStore(quotient: seq<word>, remainder: nat, d: nat, limit: nat, negative: bool, mode: Mode)
    returns (r: Result<int>)
    requires |quotient| == 4 && remainder < d && limit == Limit(256, negative) < PowW(4)
    ensures r == Rounded(Val(quotient), remainder, d, negative, mode, 256)
  {
    hide Pow, Val, PowW;
    var rounded := RoundMagnitude(Val(quotient), remainder, d, negative, mode, limit);
    match rounded
    case Err(e) => r := Err(e);
    case Ok(m) =>
      ToLimbsValue(m, 4);
      var x := Store256(ToLimbs(m, 4), negative);
      r := Ok(x);
  }

  /** 10^76 is the largest scale of the 256-bit type. */
  method Scale256(decimals: nat) returns (s: seq<word>)
    requires decimals <= 76
    ensures |s| == 4 && Val(s) == Pow10(decimals) < Pow2(255)
  {
    ScaleBits256(decimals);
    Width256();
    hide Pow;
    ToLimbsValue(Pow10(decimals), 4);
    s := ToLimbs(Pow10(decimals), 4);
  }

  lemma ScaleBits256(decimals: nat)
    requires decimals <= 76
    ensures Pow10(decimals) < Pow2(255)
  {
    Pow10BitsBound(decimals);
    PowMono(2, Pow10Bits(decimals), 255);
  }

  method Mul256(a: int256, b: int256, decimals: nat, mode: Mode) returns (r: Result<int>)
    requires decimals <= 76
    ensures r == Operations.Mul(a, b, decimals, mode, 256)
  {
    hide Evaluate, Val, Pow;
    var s := Scale256(decimals);
    var ma := Magnitude256(a);
    var mb := Magnitude256(b);
    var product := MulFull(ma, mb);
    ProductParts(a, b);
    r := Finish256(product, s, (a < 0) != (b < 0), mode);
  }

  method Div256(a: int256, b: int256, decimals: nat, mode: Mode) returns (r: Result<int>)
    requires decimals <= 76
    ensures r == Operations.Div(a, b, decimals, mode, 256)
  {
    hide Evaluate, Val, Pow;
    if b == 0 { return Err(DivisionByZero); }
    var s := Scale256(decimals);
    var ma := Magnitude256(a);
    var mb := Magnitude256(b);
    var num := MulFull(ma, s);
    DivideParts(a, Pow10(decimals), b, mode, 256);
    r := Finish256(num, mb, (a < 0) != (b < 0), mode);
  }

  method MulDiv256(a: int256, b: int256, c: int256, mode: Mode) returns (r: Result<int>)
    ensures r == Operations.MulDiv(a, b, c, mode, 256)
  {
    hide Evaluate, Val, Pow;
    if c == 0 { return Err(DivisionByZero); }
    var ma := Magnitude256(a);
    var mb := Magnitude256(b);
    var mc := Magnitude256(c);
    var product := MulFull(ma, mb);
    DivideParts(a, b, c, mode, 256);
    r := Finish256(product, mc, (a < 0) != ((b < 0) != (c < 0)), mode);
  }

  /** quantize256_kernel: the rescaled product is checked in eight limbs and against the limit. */
  method Quantize256(a: int256, current: nat, target: nat, mode: Mode) returns (r: Result<int>)
    requires current <= 76
    ensures r == Operations.Quantize(a, current, target, mode, 256)
  {
    hide Val, Pow, PowW, Evaluate;
    if target > current { return Err(InvalidPrecision); }
    if target == current { return Ok(a); }
    var d := Scale256(current - target);
    var m := Magnitude256(a);
    var negative := a < 0;
    var quotient, remainder := DivideWide(m, d);
    var limit := LimitLimbs(negative);
    RoundedIsEvaluate(Val(m), Val(d), Val(quotient), Val(remainder), negative, mode, 256);
    var rounded := RoundMagnitude(Val(quotient), Val(remainder), Val(d), negative, mode, limit);
    assert Evaluate(a, Val(d), mode, 256) == SignedResult(rounded, negative);
    if rounded.Err? { return Err(rounded.error); }
    r := Rescale(rounded.value, d, limit, negative);
  }

  method Rescale(q: nat, d: seq<word>, limit: nat, negative: bool) returns (r: Result<int>)
    requires |d| == 4 && q <= limit == Limit(256, negative) < PowW(4)
    ensures r == OnGrid(Ok(Signed(q, negative)), Val(d), 256)
  {
    hide Val, Pow, PowW;
    ToLimbsValue(q, 4);
    SignedGrid(q, negative, Val(d), 256);
    var product := MulFull(ToLimbs(q, 4), d);
    hide Limit, Fits;
    var wide := HasHighLimbs(product);
    if wide { return Err(Overflow); }
    if Val(product[..4]) > limit { return Err(Overflow); }
    var x := Store256(product[..4], negative);
    r := Ok(x);
  }

  method Remainder256(a: int256, b: int256) returns (r: Result<int>)
    ensures r == Operations.Remainder(a, b)
  {
    hide Val, Pow;
    if b == 0 { return Err(DivisionByZero); }
    if b == -1 {
      QuotUnique(Abs(a), 1, Abs(a), 0);
      return Ok(0);
    }
    var ma := Magnitude256(a);
    var mb := Magnitude256(b);
    var quotient, remainder := DivideWide(ma, mb);
    QuotUnique(Val(ma), Val(mb), Val(quotient), Val(remainder));
    var x := Store256(remainder, a < 0);
    r := Ok(x);
  }
}
