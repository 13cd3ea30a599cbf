/** Integer facts shared by every module: powers, monotone products and the
    uniqueness of quotient and remainder. */
module Arith {
  /** Denominators, bit widths and scales. */
  type pos = n: nat | 0 < n witness 1

  function Abs(x: int): nat {
    if x < 0 then -x else x
  }

  function Max(a: int, b: int): int {
    if a >= b then a else b
  }

  /** The positive part. */
  function Positive(k: int): nat {
    if k > 0 then k else 0
  }

  function Pow(b: nat, e: nat): (r: nat)
    ensures 0 < b ==> 0 < r
  {
    if e == 0 then 1 else b * Pow(b, e - 1)
  }

  function Pow2(e: nat): (r: nat)
    ensures 0 < r
  {
    Pow(2, e)
  }

  function Pow10(e: nat): (r: nat)
    ensures 0 < r
  {
    Pow(10, e)
  }

  lemma MulMono(a: int, b: int, c: int)
    requires a <= b && 0 <= c
    ensures a * c <= b * c && c * a <= c * b
  {
  }

  lemma SwapFactors(x: int, y: int, z: int)
    ensures x * y * z == x * z * y
  {
  }

  lemma Regroup(x: int, y: int, z: int)
    ensures x * (y * z) == x * y * z
  {
  }

  lemma MoveFactor(c: int, x: int, y: int)
    ensures c * (x * y) == x * (c * y)
  {
  }

  lemma MulStrict(a: int, b: int, c: int)
    requires a < b && 0 < c
    ensures a * c < b * c && c * a < c * b
  {
  }

  lemma MulGap(a: int, b: int, c: int)
    requires a < b && 0 <= c
    ensures a * c + c <= b * c
  {
    MulMono(a + 1, b, c);
  }

  lemma MulBound(a: int, x: int, b: int, y: int)
    requires 0 <= a <= x && 0 <= b <= y
    ensures 0 <= a * b <= x * y
  {
    MulMono(a, x, b);
    MulMono(b, y, x);
  }

  /** Quotient and remainder of naturals by repeated subtraction; QuotRem says they are
      the built-in ones. A variable divisor is kept out of the solver's arithmetic this way. */
  function Quot(n: nat, d: pos): (q: nat)
    ensures q <= n
  {
    if n < d then 0 else 1 + Quot(n - d, d)
  }

  function Rem(n: nat, d: pos): (r: nat)
    ensures r < d
  {
    if n < d then n else Rem(n - d, d)
  }

  lemma {:induction false} QuotRem(n: nat, d: pos)
    ensures n == Quot(n, d) * d + Rem(n, d)
  {
    if n >= d {
      QuotRem(n - d, d);
      assert (1 + Quot(n - d, d)) * d == d + Quot(n - d, d) * d;
    }
  }

  lemma QuotRemBuiltIn(n: nat, d: pos)
    ensures Quot(n, d) == n / d && Rem(n, d) == n % d
  {
    QuotRem(n, d);
    DivModUnique(n, d, Quot(n, d), Rem(n, d));
  }

  lemma QuotUnique(n: nat, d: pos, q: int, r: int)
    requires n == q * d + r && 0 <= r < d
    ensures q == Quot(n, d) && r == Rem(n, d)
  {
    QuotRem(n, d);
    var k := Quot(n, d);
    if q < k { MulGap(q, k, d); } else if k < q { MulGap(k, q, d); }
  }

  lemma QuotLess(n: nat, d: pos, k: int)
    ensures Quot(n, d) < k <==> n < k * d
  {
    QuotRem(n, d);
    if Quot(n, d) < k { MulGap(Quot(n, d), k, d); } else { MulMono(k, Quot(n, d), d); }
  }

  lemma DivModUnique(n: int, d: int, q: int, r: int)
    requires 0 < d && n == q * d + r && 0 <= r < d
    ensures q == n / d && r == n % d
  {
    var k := n / d;
    assert n == k * d + n % d;
    assert (q - k) * d == n % d - r;
    if q < k { MulMono(q - k, -1, d); } else if k < q { MulMono(1, q - k, d); }
  }

  lemma DivLess(n: int, d: int, k: int)
    requires 0 < d
    ensures n / d < k <==> n < k * d
  {
    var q := n / d;
    assert n == q * d + n % d;
    if q < k { MulMono(q + 1, k, d); } else { MulMono(k, q, d); }
  }

  lemma ModAddMultiple(n: int, k: int, d: int)
    requires 0 < d
    ensures (n + k * d) % d == n % d
  {
    assert n + k * d == (n / d + k) * d + n % d;
    DivModUnique(n + k * d, d, n / d + k, n % d);
  }

  lemma {:induction false} PowAdd(b: nat, e: nat, f: nat)
    ensures Pow(b, e + f) == Pow(b, e) * Pow(b, f)
  {
    if e != 0 {
      PowAdd(b, e - 1, f);
      assert b * (Pow(b, e - 1) * Pow(b, f)) == b * Pow(b, e - 1) * Pow(b, f);
    }
  }

  lemma {:induction false} PowMono(b: pos, e: nat, f: nat)
    requires e <= f
    ensures Pow(b, e) <= Pow(b, f)
  {
    PowAdd(b, e, f - e);
    MulMono(1, Pow(b, f - e), Pow(b, e));
  }

  lemma PowStrict(b: nat, e: nat, f: nat)
    requires 1 < b && e < f
    ensures Pow(b, e) < Pow(b, f)
  {
    PowMono(b, e + 1, f);
  }

  lemma {:induction false} PowProduct(a: nat, b: nat, e: nat)
    ensures Pow(a * b, e) == Pow(a, e) * Pow(b, e)
  {
    if e != 0 {
      PowProduct(a, b, e - 1);
      var x, y := Pow(a, e - 1), Pow(b, e - 1);
      assert (a * b) * (x * y) == (a * x) * (b * y);
    }
  }

  lemma {:induction false} PowPow(b: nat, e: nat, f: nat)
    ensures Pow(Pow(b, e), f) == Pow(b, e * f)
  {
    if f != 0 {
      PowPow(b, e, f - 1);
      PowAdd(b, e, e * (f - 1));
      assert e + e * (f - 1) == e * f;
    }
  }

  /** The powers of two that name machine word sizes. */
  lemma Pow2Halves()
    ensures Pow2(16) == 0x1_0000 && Pow2(31) == 0x8000_0000 && Pow2(32) == 0x1_0000_0000
  {
    assert Pow(2, 8) == 256;
    PowAdd(2, 8, 8);
    PowAdd(2, 16, 15);
    PowAdd(2, 16, 16);
  }

  lemma Pow2Words()
    ensures Pow2(63) == 0x8000_0000_0000_0000 && Pow2(64) == 0x1_0000_0000_0000_0000
  {
    Pow2Halves();
    PowAdd(2, 32, 31);
    PowAdd(2, 32, 32);
  }

  lemma Pow2Doubles()
    ensures Pow2(127) == 0x8000_0000_0000_0000 * 0x1_0000_0000_0000_0000
    ensures Pow2(128) == 0x1_0000_0000_0000_0000 * 0x1_0000_0000_0000_0000
  {
    Pow2Words();
    PowAdd(2, 64, 63);
    PowAdd(2, 64, 64);
  }

  /** pow10_bits: log2(10) < 10 / 3, so 10^e has at most 10e / 3 + 1 bits. */
  function Pow10Bits(e: nat): nat { e * 10 / 3 + 1 }

  lemma {:induction false} Pow10BitsBound(e: nat)
    ensures Pow10(e) < Pow2(Pow10Bits(e))
  {
    if e < 3 {
      assert Pow(2, 4) == 16 && Pow(2, 7) == 128 && Pow(10, 2) == 100;
    } else {
      Pow10BitsBound(e - 3);
      PowAdd(10, 3, e - 3);
      PowAdd(2, 10, Pow10Bits(e - 3));
      assert Pow(10, 3) == 1000 && Pow(2, 10) == 1024;
      assert Pow10Bits(e) == 10 + Pow10Bits(e - 3);
    }
  }
}
