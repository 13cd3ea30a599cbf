/** Little-endian limb buffers and the operators of uint_limbs. Buffers are values in
    the source, so methods take and return sequences and work on a local array. */
module Limbs {
  import opened Arith
  import opened Words

  function PowW(n: nat): (r: nat)
    ensures 0 < r
  {
    Pow(W, n)
  }

  lemma PowWAdd(i: nat, j: nat)
    ensures PowW(i + j) == PowW(i) * PowW(j)
  {
    PowAdd(W, i, j);
  }

  /** The number a limb sequence stands for. */
  function Val(s: seq<word>): nat {
    if s == [] then 0 else Val(s[..|s| - 1]) + s[|s| - 1] * PowW(|s| - 1)
  }

  function Zeros(n: nat): (s: seq<word>)
    ensures |s| == n && forall k :: 0 <= k < n ==> s[k] == 0
  {
    seq(n, _ => 0)
  }

  // ----- the value of a buffer -----

  lemma ValStep(s: seq<word>, i: nat)
    requires i < |s|
    ensures Val(s[..i + 1]) == Val(s[..i]) + s[i] * PowW(i)
  {
    assert s[..i + 1][..i] == s[..i];
  }

  lemma {:induction false} ValBound(s: seq<word>)
    ensures Val(s) < PowW(|s|)
  {
    if s != [] {
      var n := |s| - 1;
      ValBound(s[..n]);
      MulMono(s[n], W - 1, PowW(n));
    }
  }

  lemma {:induction false} ValSplit(s: seq<word>, i: nat)
    requires i <= |s|
    ensures Val(s) == Val(s[..i]) + PowW(i) * Val(s[i..])
    decreases |s|
  {
    if i == |s| {
      assert s[..i] == s;
    } else {
      var n := |s| - 1;
      var top := s[i..];
      ValSplit(s[..n], i);
      assert s[..n][..i] == s[..i] && s[..n][i..] == top[..|top| - 1];
      PowAdd(W, i, n - i);
      Distribute(PowW(i), Val(top[..|top| - 1]), s[n], PowW(n - i));
    }
  }

  lemma Distribute(x: int, a: int, d: int, y: int)
    ensures x * (a + d * y) == x * a + d * (x * y)
  {
    assert x * (d * y) == d * (x * y);
  }

  lemma {:induction false} ValZeros(s: seq<word>)
    requires forall k :: 0 <= k < |s| ==> s[k] == 0
    ensures Val(s) == 0
  {
    if s != [] { ValZeros(s[..|s| - 1]); }
  }

  /** Leading zero limbs do not count. */
  lemma ValTrim(s: seq<word>, n: nat)
    requires n <= |s| && forall k :: n <= k < |s| ==> s[k] == 0
    ensures Val(s) == Val(s[..n])
  {
    ValSplit(s, n);
    ValZeros(s[n..]);
  }

  lemma ValWiden(s: seq<word>, n: nat)
    ensures Val(s + Zeros(n)) == Val(s)
  {
    ValTrim(s + Zeros(n), |s|);
    assert (s + Zeros(n))[..|s|] == s;
  }

  lemma Val1(s: seq<word>)
    requires |s| == 1
    ensures Val(s) == s[0]
  {
    assert s[..0] == [];
  }

  lemma Val2(s: seq<word>)
    requires |s| == 2
    ensures Val(s) == Pair(s[1], s[0])
  {
    Val1(s[..1]);
    assert PowW(1) == W;
  }

  /** The number with a given value is unique. */
  lemma {:induction false} ValInjective(a: seq<word>, b: seq<word>)
    requires |a| == |b| && Val(a) == Val(b)
    ensures a == b
  {
    if a != [] {
      var n := |a| - 1;
      ValBound(a[..n]);
      ValBound(b[..n]);
      DivModUnique(Val(a), PowW(n), a[n], Val(a[..n]));
      DivModUnique(Val(b), PowW(n), b[n], Val(b[..n]));
      ValInjective(a[..n], b[..n]);
      assert a == a[..n] + [a[n]] && b == b[..n] + [b[n]];
    }
  }

  /** The top limb decides. */
  lemma ValTopLess(a: seq<word>, b: seq<word>, n: nat)
    requires n < |a| == |b| && a[n + 1..] == b[n + 1..] && a[n] < b[n]
    ensures Val(a) < Val(b)
  {
    ValSplit(a, n + 1);
    ValSplit(b, n + 1);
    ValStep(a, n);
    ValStep(b, n);
    ValBound(a[..n]);
    MulGap(a[n], b[n], PowW(n));
  }

  // ----- scans -----

  method ActiveLimbs(s: seq<word>) returns (n: nat)
    ensures n <= |s| && (n > 0 ==> s[n - 1] != 0)
    ensures forall k :: n <= k < |s| ==> s[k] == 0
    ensures Val(s) == Val(s[..n]) && (n == 0 <==> Val(s) == 0)
  {
    n := |s|;
    while n > 0 && s[n - 1] == 0
      invariant n <= |s| && forall k :: n <= k < |s| ==> s[k] == 0
    {
      n := n - 1;
    }
    ValTrim(s, n);
    if n > 0 {
      ValStep(s, n - 1);
      MulMono(1, s[n - 1], PowW(n - 1));
    }
  }

  /** operator<=>: -1, 0 or 1. */
  method Compare(a: seq<word>, b: seq<word>) returns (c: int)
    requires |a| == |b|
    ensures c == if Val(a) < Val(b) then -1 else if Val(a) == Val(b) then 0 else 1
  {
    var i := |a|;
    while i > 0
      invariant 0 <= i <= |a| && a[i..] == b[i..]
    {
      if a[i - 1] != b[i - 1] {
        if a[i - 1] < b[i - 1] {
          ValTopLess(a, b, i - 1);
          return -1;
        } else {
          ValTopLess(b, a, i - 1);
          return 1;
        }
      }
      i := i - 1;
    }
    return 0;
  }

  // ----- addition and subtraction, modulo the buffer -----

  method Add(a: seq<word>, b: seq<word>) returns (r: seq<word>)
    requires |a| == |b|
    ensures |r| == |a| && Val(r) == (Val(a) + Val(b)) % PowW(|a|)
  {
    var res := new word[|a|];
    var carry: word := 0;
    assert Carrying(res[..0], 0, a, b, 0);
    for i := 0 to |a|
      invariant Carrying(res[..i], carry, a, b, i)
    {
      ghost var before, done := carry, res[..i];
      var s := AddW(AddW(a[i], b[i]), carry);
      carry := Bit(s < a[i] || (carry == 1 && s == a[i]));
      res[i] := s;
      assert res[..i + 1] == done + [s];
      CarryNext(done, before, a, b, i);
    }
    r := res[..];
    assert res[..|a|] == r;
    CarryEnd(r, carry, a, b);
  }

  ghost predicate Carrying(done: seq<word>, carry: word, a: seq<word>, b: seq<word>, i: nat) {
    carry <= 1 && i == |done| <= |a| == |b| && Val(done) + carry * PowW(i) == Val(a[..i]) + Val(b[..i])
  }

  lemma CarryNext(done: seq<word>, before: word, a: seq<word>, b: seq<word>, i: nat)
    requires i < |a| && Carrying(done, before, a, b, i)
    ensures var s := AddW(AddW(a[i], b[i]), before);
            Carrying(done + [s], Bit(s < a[i] || (before == 1 && s == a[i])), a, b, i + 1)
  {
    var s := AddW(AddW(a[i], b[i]), before);
    var carry := Bit(s < a[i] || (before == 1 && s == a[i]));
    CarryLimb(a[i], b[i], before);
    ValStep(a, i);
    ValStep(b, i);
    ValStep(done + [s], i);
    assert (done + [s])[..i] == done && (done + [s])[..i + 1] == done + [s];
    assert PowW(i + 1) == W * PowW(i);
    hide Val, PowW, AddW;
    CarryStep(s, carry, a[i], b[i], before, PowW(i));
  }

  lemma CarryLimb(a: word, b: word, carry: word)
    requires carry <= 1
    ensures var s := AddW(AddW(a, b), carry); s + Bit(s < a || (carry == 1 && s == a)) * W == a + b + carry
  {
  }

  lemma CarryEnd(r: seq<word>, carry: word, a: seq<word>, b: seq<word>)
    requires |r| == |a| && Carrying(r, carry, a, b, |a|)
    ensures Val(r) == (Val(a) + Val(b)) % PowW(|a|)
  {
    hide Val, Pow, PowW;
    assert a[..|a|] == a && b[..|a|] == b;
    ValBound(r);
    assert Val(r) + carry * PowW(|a|) == Val(a) + Val(b) && Val(r) < PowW(|a|);
    hide *;
    WrappedSum(Val(r), carry, Val(a) + Val(b), PowW(|a|));
  }

  lemma WrappedSum(r: nat, carry: word, d: int, p: nat)
    requires r < p && r + carry * p == d
    ensures r == d % p
  {
    DivModUnique(d, p, carry, r);
  }

  lemma CarryStep(s: int, carry: int, x: int, y: int, before: int, p: int)
    requires s + carry * W == x + y + before
    ensures s * p + carry * (W * p) == x * p + y * p + before * p
  {
    assert (s + carry * W) * p == (x + y + before) * p;
  }

  lemma BorrowLimb(a: word, b: word, borrow: word)
    requires borrow <= 1
    ensures var x := AddW(b, borrow); SubW(a, x) - Bit(x < b || a < x) * W == a - b - borrow
  {
  }

  lemma BorrowStep(s: int, borrow: int, x: int, y: int, before: int, p: int)
    requires s - borrow * W == x - y - before
    ensures s * p - borrow * (W * p) == x * p - y * p - before * p
  {
    CarryStep(s, -borrow, x, -y, -before, p);
  }

  method Sub(a: seq<word>, b: seq<word>) returns (r: seq<word>)
    requires |a| == |b|
    ensures |r| == |a| && Val(r) == (Val(a) - Val(b)) % PowW(|a|)
  {
    var res := new word[|a|];
    var borrow: word := 0;
    assert Borrowed(res[..0], 0, a, b, 0);
    for i := 0 to |a|
      invariant Borrowed(res[..i], borrow, a, b, i)
    {
      ghost var before, done := borrow, res[..i];
      var x := AddW(b[i], borrow);
      borrow := Bit(x < b[i] || a[i] < x);
      res[i] := SubW(a[i], x);
      assert res[..i + 1] == done + [res[i]];
      BorrowNext(done, before, a, b, i);
    }
    r := res[..];
    assert res[..|a|] == r;
    BorrowEnd(r, borrow, a, b);
  }

  ghost predicate Borrowed(done: seq<word>, borrow: word, a: seq<word>, b: seq<word>, i: nat) {
    borrow <= 1 && i == |done| <= |a| == |b| && Val(done) - borrow * PowW(i) == Val(a[..i]) - Val(b[..i])
  }

  lemma BorrowNext(done: seq<word>, before: word, a: seq<word>, b: seq<word>, i: nat)
    requires i < |a| && Borrowed(done, before, a, b, i)
    ensures var x := AddW(b[i], before);
            Borrowed(done + [SubW(a[i], x)], Bit(x < b[i] || a[i] < x), a, b, i + 1)
  {
    var x := AddW(b[i], before);
    var limb, borrow := SubW(a[i], x), Bit(x < b[i] || a[i] < x);
    BorrowLimb(a[i], b[i], before);
    ValStep(a, i);
    ValStep(b, i);
    ValStep(done + [limb], i);
    assert (done + [limb])[..i] == done && (done + [limb])[..i + 1] == done + [limb];
    assert PowW(i + 1) == W * PowW(i);
    hide Val, PowW, AddW, SubW;
    BorrowStep(limb, borrow, a[i], b[i], before, PowW(i));
  }

  lemma BorrowEnd(r: seq<word>, borrow: word, a: seq<word>, b: seq<word>)
    requires |r| == |a| && Borrowed(r, borrow, a, b, |a|)
    ensures Val(r) == (Val(a) - Val(b)) % PowW(|a|)
  {
    hide Val, Pow, PowW;
    assert a[..|a|] == a && b[..|a|] == b;
    ValBound(r);
    assert borrow <= 1 && Val(r) - borrow * PowW(|a|) == Val(a) - Val(b);
    hide *;
    WrappedDifference(Val(r), borrow, Val(a) - Val(b), PowW(|a|));
  }

  lemma WrappedDifference(r: nat, borrow: word, d: int, p: nat)
    requires borrow <= 1 && r < p && r - borrow * p == d
    ensures r == d % p
  {
    DivModUnique(d, p, if borrow == 0 then 0 else -1, r);
  }

  // ----- multiplication -----

  /** One limb product added to one limb and a carry: the new carry is still one limb. */
  lemma MulAddStep(x: word, y: word, hi: word, lo: word, r: word, carry: word)
    requires hi * W + lo == x * y
    ensures var s1 := AddW(r, lo); var c1 := Bit(s1 < lo);
            var s2 := AddW(s1, carry); var c2 := Bit(s2 < s1);
            hi + c1 + c2 < W && s2 + (hi + c1 + c2) * W == r + x * y + carry
  {
    MulBound(x, W - 1, y, W - 1);
  }

  /** prefix and carry hold was[..i + j] + x * b[..j] * W^i. */
  ghost predicate RowSum(prefix: seq<word>, carry: word, was: seq<word>, x: word, b: seq<word>, i: nat, j: nat) {
    |prefix| == i + j <= |was| && j <= |b| &&
    Val(prefix) + carry * PowW(i + j) == Val(was[..i + j]) + x * Val(b[..j]) * PowW(i)
  }

  lemma AddRowStart(was: seq<word>, x: word, b: seq<word>, i: nat)
    requires i <= |was|
    ensures RowSum(was[..i], 0, was, x, b, i, 0)
  {
  }

  lemma AddRowStep(prefix: seq<word>, was: seq<word>, b: seq<word>, i: nat, j: nat, x: word,
                   carry: word, s: word, carry2: word)
    requires i + j < |was| && j < |b| && RowSum(prefix, carry, was, x, b, i, j)
    requires s + carry2 * W == was[i + j] + x * b[j] + carry
    ensures RowSum(prefix + [s], carry2, was, x, b, i, j + 1)
  {
    assert (prefix + [s])[..i + j] == prefix;
    ValStep(was, i + j);
    ValStep(b, j);
    PowAdd(W, i, j);
    RowStep(Val(prefix), Val(was[..i + j]), Val(b[..j]), was[i + j], x, b[j], carry, s, carry2, PowW(i), PowW(j));
  }

  lemma RowStep(prefix: int, was: int, low: int, r: int, x: int, y: int, carry: int, s: int, carry2: int,
                pi: int, pj: int)
    requires prefix + carry * (pi * pj) == was + x * low * pi
    requires s + carry2 * W == r + x * y + carry
    ensures prefix + s * (pi * pj) + carry2 * (W * (pi * pj)) == was + r * (pi * pj) + x * (low + y * pj) * pi
  {
    var p := pi * pj;
    assert x * (low + y * pj) * pi == x * low * pi + x * y * p by {
      assert x * (low + y * pj) == x * low + x * y * pj;
      assert (x * low + x * y * pj) * pi == x * low * pi + x * y * pj * pi;
      assert x * y * pj * pi == x * y * (pi * pj);
    }
  }

  /** The inner loop of both products: add x * b[..n], shifted by i limbs, into res. */
  method AddRow(res: array<word>, i: nat, x: word, b: seq<word>, n: nat) returns (carry: word)
    requires n <= |b| && i + n <= res.Length
    modifies res
    ensures forall k :: 0 <= k < res.Length && !(i <= k < i + n) ==> res[k] == old(res[k])
    ensures RowSum(res[..i + n], carry, old(res[..]), x, b, i, n)
  {
    hide RowSum;
    carry := 0;
    ghost var was := res[..];
    AddRowStart(was, x, b, i);
    for j := 0 to n
      invariant forall k :: 0 <= k < res.Length && !(i <= k < i + j) ==> res[k] == was[k]
      invariant RowSum(res[..i + j], carry, was, x, b, i, j)
    {
      var hi, lo := Mul64x64(x, b[j]);
      MulAddStep(x, b[j], hi, lo, res[i + j], carry);
      var s1 := AddW(res[i + j], lo);
      var c1 := Bit(s1 < lo);
      var s2 := AddW(s1, carry);
      var c2 := Bit(s2 < s1);
      ghost var prefix := res[..i + j];
      AddRowStep(prefix, was, b, i, j, x, carry, s2, hi + c1 + c2);
      res[i + j] := s2;
      carry := hi + c1 + c2;
      assert res[..i + j + 1] == prefix + [s2];
    }
  }

  /** The top limb is still zero, so the carry loop of the source runs at most once. */
  method PropagateCarry(res: array<word>, at: nat, carry: word)
    requires at < res.Length && forall k :: at <= k < res.Length ==> res[k] == 0
    modifies res
    ensures res[..] == old(res[..])[at := carry]
  {
    var c, k := carry, at;
    while c != 0 && k < res.Length
      invariant at <= k <= res.Length && (k > at ==> c == 0)
      invariant res[..] == if k == at then old(res[..]) else old(res[..])[at := carry]
      invariant k == at ==> c == carry
    {
      var sum := AddW(res[k], c);
      c := Bit(sum < c);
      res[k] := sum;
      k := k + 1;
    }
  }

  ghost predicate Product(s: seq<word>, a: seq<word>, b: seq<word>) {
    Val(s) == Val(a) * Val(b)
  }

  /** mul_full: the exact product of any two buffers. */
  method MulFull(a: seq<word>, b: seq<word>) returns (r: seq<word>)
    ensures |r| == |a| + |b| && Val(r) == Val(a) * Val(b)
  {
    r := MulRows(a, b);
  }

  method MulRows(a: seq<word>, b: seq<word>) returns (r: seq<word>)
    ensures |r| == |a| + |b| && Product(r, a, b)
  {
    hide Product, RowSum;
    var n := |a| + |b|;
    var res := new word[n](_ => 0);
    EmptyProduct(res[..|b|], b);
    for i := 0 to |a|
      invariant Product(res[..i + |b|], a[..i], b)
      invariant forall k :: i + |b| <= k < n ==> res[k] == 0
    {
      ghost var was := res[..];
      var carry := AddRow(res, i, a[i], b, |b|);
      ghost var prefix := res[..i + |b|];
      FullRow(prefix, carry, was, a, b, i);
      PropagateCarry(res, i + |b|, carry);
      assert res[..i + 1 + |b|] == prefix + [carry];
    }
    r := res[..];
    assert r[..n] == r && a[..|a|] == a;
  }

  lemma EmptyProduct(s: seq<word>, b: seq<word>)
    requires forall k :: 0 <= k < |s| ==> s[k] == 0
    ensures Product(s, [], b)
  {
    ValZeros(s);
  }

  lemma FullRow(prefix: seq<word>, carry: word, was: seq<word>, a: seq<word>, b: seq<word>, i: nat)
    requires i < |a| && i + |b| < |was|
    requires Product(was[..i + |b|], a[..i], b) && RowSum(prefix, carry, was, a[i], b, i, |b|)
    ensures Product(prefix + [carry], a[..i + 1], b)
  {
    assert (prefix + [carry])[..|prefix|] == prefix && b[..|b|] == b;
    ValStep(a, i);
    TruncatedRow(Val(a[..i]), a[i], Val(b), 0, PowW(i), 0);
  }

  /** operator*: the product modulo the buffer. */
  method MulTrunc(a: seq<word>, b: seq<word>) returns (r: seq<word>)
    requires |a| == |b|
    ensures |r| == |a| && Val(r) == Val(a) * Val(b) % PowW(|a|)
  {
    ghost var lost;
    r, lost := MulLowRows(a, b);
    ValBound(r);
    DivModUnique(Val(a) * Val(b), PowW(|a|), lost, Val(r));
  }

  ghost predicate LowProduct(s: seq<word>, lost: int, a: seq<word>, b: seq<word>) {
    Val(s) + lost * PowW(|s|) == Val(a) * Val(b)
  }

  /** `lost` is what the truncation drops, in units of W^n. */
  method MulLowRows(a: seq<word>, b: seq<word>) returns (r: seq<word>, ghost lost: int)
    requires |a| == |b|
    ensures |r| == |a| && LowProduct(r, lost, a, b)
  {
    hide LowProduct, RowSum;
    var n := |a|;
    var res := new word[n](_ => 0);
    lost := 0;
    EmptyLowProduct(res[..], b);
    for i := 0 to n
      invariant LowProduct(res[..], lost, a[..i], b)
    {
      ghost var was := res[..];
      var carry := AddRow(res, i, a[i], b, n - i);
      assert res[..n] == res[..];
      LowRow(res[..], carry, was, lost, a, b, i);
      lost := lost + carry + a[i] * Val(b[n - i..]);
    }
    r := res[..];
    assert a[..n] == a;
  }

  lemma EmptyLowProduct(s: seq<word>, b: seq<word>)
    requires forall k :: 0 <= k < |s| ==> s[k] == 0
    ensures LowProduct(s, 0, [], b)
  {
    ValZeros(s);
  }

  lemma LowRow(now: seq<word>, carry: word, was: seq<word>, lost: int, a: seq<word>, b: seq<word>, i: nat)
    requires i < |a| == |b| == |was|
    requires LowProduct(was, lost, a[..i], b) && RowSum(now, carry, was, a[i], b, i, |a| - i)
    ensures LowProduct(now, lost + carry + a[i] * Val(b[|a| - i..]), a[..i + 1], b)
  {
    var n := |a|;
    assert was[..n] == was;
    ValSplit(b, n - i);
    PowAdd(W, i, n - i);
    ValStep(a, i);
    TruncatedRow(Val(a[..i]), a[i], Val(b[..n - i]), Val(b[n - i..]), PowW(i), PowW(n - i));
    SumTimes(lost, carry, a[i] * Val(b[n - i..]), PowW(n));
  }

  lemma SumTimes(x: int, y: int, z: int, p: int)
    ensures (x + y + z) * p == x * p + y * p + z * p
  {
  }

  lemma TruncatedRow(sum: int, x: int, low: int, high: int, pi: int, pj: int)
    ensures (sum + x * pi) * (low + pj * high) == sum * (low + pj * high) + x * low * pi + x * high * (pi * pj)
  {
    var b := low + pj * high;
    assert (sum + x * pi) * b == sum * b + x * pi * b;
    assert x * pi * b == x * low * pi + x * high * (pi * pj);
  }

  // ----- shifts -----

  /** prefix and the pending high bits hold a[..i - ls] * 2^b * W^ls. */
  ghost predicate ShiftSum(prefix: seq<word>, pending: nat, a: seq<word>, b: nat, ls: nat, i: nat) {
    ls <= i <= ls + |a| && |prefix| == i && pending < Pow2(b) &&
    Val(prefix) + pending * PowW(i) == Val(a[..i - ls]) * (Pow2(b) * PowW(ls))
  }

  lemma ShiftStart(prefix: seq<word>, a: seq<word>, b: nat)
    requires forall k :: 0 <= k < |prefix| ==> prefix[k] == 0
    ensures ShiftSum(prefix, 0, a, b, |prefix|, |prefix|)
  {
    ValZeros(prefix);
  }

  lemma ShiftStep(prefix: seq<word>, pending: nat, a: seq<word>, b: nat, ls: nat, i: nat)
    requires b < 64 && ls <= i < ls + |a| && ShiftSum(prefix, pending, a, b, ls, i)
    ensures OrFits(ShlW(a[i - ls], b), pending, b)
    ensures ShiftSum(prefix + [OrBits(ShlW(a[i - ls], b), pending, b)], Shr(a[i - ls], 64 - b), a, b, ls, i + 1)
  {
    hide Pow2, Shr, ShlW;
    var x := a[i - ls];
    ShiftParts(x, b);
    ValStep(a, i - ls);
    PowAdd(W, i - ls, ls);
    var s := OrBits(ShlW(x, b), pending, b);
    assert (prefix + [s])[..i] == prefix;
    ShiftArithmetic(Val(prefix), pending, Val(a[..i - ls]), x, ShlW(x, b), Shr(x, 64 - b), Pow2(b), PowW(ls), PowW(i - ls));
  }

  lemma ShiftArithmetic(prefix: int, pending: int, low: int, x: int, xl: int, xh: int, s: int, pl: int, pi: int)
    requires prefix + pending * (pi * pl) == low * (s * pl) && xh * W + xl == x * s
    ensures prefix + (xl + pending) * (pi * pl) + xh * (W * (pi * pl)) == (low + x * pi) * (s * pl)
  {
    var p := pi * pl;
    CarryStep(xl + pending, xh, x * s, pending, 0, p);
    assert (x * pi) * (s * pl) == x * s * p;
    assert (low + x * pi) * (s * pl) == low * (s * pl) + (x * pi) * (s * pl);
  }

  /** operator<<: the product with 2^shift modulo the buffer. */
  method Shl(a: seq<word>, shift: nat) returns (r: seq<word>)
    ensures |r| == |a| && Val(r) == Val(a) * Pow2(shift) % PowW(|a|)
  {
    assert Pow2(0) == 1;
    hide Val, Pow, PowW;
    if shift >= |a| * 64 {
      r := Zeros(|a|);
      ValZeros(r);
      ShiftOut(Val(a), shift, |a|);
    } else if shift == 0 {
      ValBound(a);
      DivModUnique(Val(a), PowW(|a|), 0, Val(a));
      r := a;
    } else {
      hide ShiftSum;
      ghost var dropped;
      r, dropped := ShiftLimbs(a, shift / 64, shift % 64);
      ShiftDone(r, dropped, a, shift % 64, shift / 64);
    }
  }

  method ShiftLimbs(a: seq<word>, ls: nat, b: nat) returns (r: seq<word>, ghost dropped: nat)
    requires ls < |a| && b < 64
    ensures |r| == |a| && ShiftSum(r, dropped, a, b, ls, |a|)
  {
    hide ShiftSum, OrBits, OrFits, Shr, ShlW, Pow2;
    var n := |a|;
    var res := new word[n](_ => 0);
    dropped := 0;
    ShiftStart(res[..ls], a, b);
    for i := ls to n
      invariant ShiftSum(res[..i], dropped, a, b, ls, i)
      invariant i < n ==> res[i] == dropped
      invariant forall k :: i < k < n ==> res[k] == 0
    {
      ghost var prefix := res[..i];
      ShiftStep(prefix, dropped, a, b, ls, i);
      res[i] := OrBits(ShlW(a[i - ls], b), res[i], b);
      dropped := Shr(a[i - ls], 64 - b);
      if i + 1 < n { res[i + 1] := Shr(a[i - ls], 64 - b); }
      assert res[..i + 1] == prefix + [res[i]];
    }
    r := res[..];
    assert res[..n] == r;
  }

  lemma ShiftOut(v: nat, shift: nat, n: nat)
    requires shift >= n * 64
    ensures v * Pow2(shift) % PowW(n) == 0
  {
    TwoToLimbs(n, shift - 64 * n);
    var k := v * Pow2(shift - 64 * n);
    assert v * (PowW(n) * Pow2(shift - 64 * n)) == k * PowW(n);
    DivModUnique(v * Pow2(shift), PowW(n), k, 0);
  }

  lemma ShiftDone(r: seq<word>, pending: nat, a: seq<word>, b: nat, ls: nat)
    requires b < 64 && ls <= |a| == |r| && ShiftSum(r, pending, a, b, ls, |a|)
    ensures Val(r) == Val(a) * Pow2(64 * ls + b) % PowW(|a|)
  {
    var n := |a|;
    assert Val(r) + pending * PowW(n) == Val(a[..n - ls]) * (Pow2(b) * PowW(ls)) by { hide Val, PowW, Pow; }
    hide *;
    TwoToLimbs(ls, b);
    PowWAdd(ls, n - ls);
    ValSplit(a, n - ls);
    ValBound(r);
    ShiftedValue(Val(r), pending, Val(a[..n - ls]), Val(a[n - ls..]), PowW(n - ls), Pow2(b), PowW(ls),
                 Val(a), Pow2(64 * ls + b), PowW(n));
  }

  lemma TwoToLimbs(ls: nat, b: nat)
    ensures Pow2(64 * ls + b) == PowW(ls) * Pow2(b)
  {
    Pow2Words();
    PowPow(2, 64, ls);
    PowAdd(2, 64 * ls, b);
  }

  lemma ShiftedValue(r: nat, pending: int, x: int, high: int, pr: nat, s: int, pl: nat, value: int, shift: int, modulus: nat)
    requires value == x + pr * high && shift == pl * s && modulus == pl * pr
    requires r < modulus && r + pending * modulus == x * (s * pl)
    ensures r == value * shift % modulus
  {
    SumTimes(pending, high * s, 0, pl * pr);
    assert value * shift == (x + pr * high) * (pl * s);
    DivModUnique(value * shift, modulus, pending + high * s, r);
  }

  // ----- one-limb division -----

  lemma ValHead(s: seq<word>)
    requires s != []
    ensures Val(s) == s[0] + W * Val(s[1..])
  {
    ValSplit(s, 1);
    Val1(s[..1]);
    assert PowW(1) == W;
  }

  ghost predicate Divided(num: seq<word>, q: seq<word>, d: word, rem: word) {
    |q| == |num| && rem < d && Val(num) == Val(q) * d + rem
  }

  lemma DividedStep(num: seq<word>, q: seq<word>, d: word, rem: word, x: word, digit: word, rem2: word)
    requires Divided(num, q, d, rem) && digit * d + rem2 == rem * W + x && rem2 < d
    ensures Divided([x] + num, [digit] + q, d, rem2)
  {
    ValHead([x] + num);
    ValHead([digit] + q);
    assert ([x] + num)[1..] == num && ([digit] + q)[1..] == q;
    DigitTimes(digit, Val(q), d);
  }

  lemma DigitTimes(digit: int, q: int, d: int)
    ensures (digit + W * q) * d == digit * d + W * (q * d)
  {
    assert (W * q) * d == W * (q * d);
  }

  lemma DividedZeros(num: seq<word>, q: seq<word>, d: word)
    requires 0 < d && |q| == |num| && forall k :: 0 <= k < |num| ==> num[k] == 0 && q[k] == 0
    ensures Divided(num, q, d, 0)
  {
    ValZeros(num);
    ValZeros(q);
  }

  /** divmod64: skips the leading zero limbs, then one two-word division per limb. */
  method DivMod64(num: seq<word>, divisor: word) returns (quotient: seq<word>, remainder: word)
    requires 0 < divisor
    ensures |quotient| == |num| && Val(num) == Val(quotient) * divisor + remainder && remainder < divisor
  {
    quotient, remainder := DivModLimbs(num, divisor);
  }

  method DivModLimbs(num: seq<word>, divisor: word) returns (quotient: seq<word>, rem: word)
    requires 0 < divisor
    ensures Divided(num, quotient, divisor, rem)
  {
    hide Divided;
    var q := new word[|num|](_ => 0);
    rem := 0;
    var i := |num|;
    while i > 0 && num[i - 1] == 0
      invariant 0 <= i <= |num| && forall k :: i <= k < |num| ==> num[k] == 0
    {
      i := i - 1;
    }
    DividedZeros(num[i..], q[i..], divisor);
    while i > 0
      invariant 0 <= i <= |num| && Divided(num[i..], q[i..], divisor, rem)
    {
      ghost var suffix, before := q[i..], rem;
      RemainderBelow(num[i..], suffix, divisor, rem);
      var digit;
      digit, rem := Div128By64(rem, num[i - 1], divisor);
      DividedStep(num[i..], suffix, divisor, before, num[i - 1], digit, rem);
      q[i - 1] := digit;
      i := i - 1;
      assert num[i..] == [num[i]] + num[i + 1..] && q[i..] == [digit] + suffix;
    }
    quotient := q[..];
    assert num[0..] == num && q[0..] == q[..];
  }

  lemma RemainderBelow(num: seq<word>, q: seq<word>, d: word, rem: word)
    requires Divided(num, q, d, rem)
    ensures rem < d
  {
  }
}
