/** divmod_knuth: Algorithm D on 64-bit limbs, updating the normalised dividend in place. */
module Knuth {
  import opened Arith
  import opened Words
  import opened Limbs

  // ----- the quotient digit estimate -----

  /** qhat is the three-by-two-limb quotient, capped at one limb. */
  ghost predicate Estimate(qhat: nat, top: nat, next2: nat, v1: nat, v2: nat) {
    qhat < W && qhat * Pair(v1, v2) <= Pair(top, next2) &&
    (qhat == W - 1 || Pair(top, next2) < (qhat + 1) * Pair(v1, v2))
  }

  /** rho is the unwrapped rhat: what is left of the top two limbs under qhat * v1. */
  ghost predicate Candidate(qhat: nat, rho: nat, top: nat, next2: nat, v1: nat, v2: nat) {
    qhat < W && qhat * v1 + rho == top &&
    (qhat == W - 1 || Pair(top, next2) < (qhat + 1) * Pair(v1, v2))
  }

  lemma FirstCandidate(qhat: word, rho: nat, top: nat, next2: word, v1: word, v2: word)
    requires qhat * v1 + rho == top && (rho < v1 || qhat == W - 1)
    ensures Candidate(qhat, rho, top, next2, v1, v2)
  {
    if qhat != W - 1 {
      assert (qhat + 1) * v1 == qhat * v1 + v1;
      assert (qhat + 1) * Pair(v1, v2) == (qhat + 1) * v1 * W + (qhat + 1) * v2;
      MulMono(top + 1, (qhat + 1) * v1, W);
    }
  }

  ghost predicate IsProduct(product: nat, qhat: nat, v2: nat) {
    product == qhat * v2
  }

  lemma NextCandidate(qhat: word, rho: nat, top: nat, next2: word, v1: word, v2: word, product: nat)
    requires Candidate(qhat, rho, top, next2, v1, v2) && IsProduct(product, qhat, v2) && product > Pair(rho, next2)
    ensures 0 < qhat && v2 <= product && IsProduct(product - v2, qhat - 1, v2)
    ensures Candidate(qhat - 1, rho + v1, top, next2, v1, v2)
  {
    OneLess(qhat, v1);
    OneLess(qhat, v2);
    BelowEstimate(qhat, rho, top, next2, v1, v2, product);
    hide Pair;
  }

  lemma OneLess(q: nat, v: nat)
    ensures (q - 1) * v == q * v - v && (q == 0 ==> q * v == 0) && (0 < q ==> v <= q * v)
  {
    if 0 < q { MulMono(1, q, v); }
  }

  /** A product above the running remainder shows that the digit is too large. */
  lemma BelowEstimate(qhat: nat, rho: nat, top: nat, next2: nat, v1: nat, v2: nat, product: nat)
    requires qhat * v1 + rho == top && product == qhat * v2 && product > Pair(rho, next2)
    ensures Pair(top, next2) < qhat * Pair(v1, v2)
  {
    PairTimes(qhat, v1, v2);
    PairSum(qhat * v1, rho, next2);
  }

  lemma FinalCandidate(qhat: nat, rho: nat, top: nat, next2: word, v1: word, v2: word, product: nat)
    requires Candidate(qhat, rho, top, next2, v1, v2) && IsProduct(product, qhat, v2)
    requires rho >= W || product <= Pair(rho, next2)
    ensures Estimate(qhat, top, next2, v1, v2)
  {
    MulBound(qhat, W - 1, v2, W - 1);
    hide Pair;
    PairTimes(qhat, v1, v2);
    PairSum(qhat * v1, rho, next2);
  }

  lemma ProductOf(qhat: word, v2: word, hi: word, lo: word)
    requires hi * W + lo == qhat * v2
    ensures IsProduct(Pair(hi, lo), qhat, v2)
  {
  }

  /** Estimates one digit. `steps` counts the corrections: never more than two. */
  method EstimateDigit(uTop: word, uNext: word, uNext2: word, v1: word, v2: word)
    returns (qhat: word, ghost steps: nat)
    requires HALF <= v1 && uTop <= v1
    ensures Estimate(qhat, Pair(uTop, uNext), uNext2, v1, v2) && steps <= 2
  {
    hide Candidate, Estimate, IsProduct, Pair;
    ghost var top := Pair(uTop, uNext);
    var rhat: word, carry;
    qhat, rhat, carry := FirstEstimate(uTop, uNext, uNext2, v1, v2);
    var ph: word, pl: word := Mul64x64(qhat, v2);
    ProductOf(qhat, v2, ph, pl);
    steps := 0;
    while !carry && (ph > rhat || (ph == rhat && pl > uNext2))
      invariant Candidate(qhat, rhat + Carried(carry), top, uNext2, v1, v2)
      invariant IsProduct(Pair(ph, pl), qhat, v2)
      invariant steps <= 2 && steps * HALF <= rhat + Carried(carry)
      decreases 2 - steps
    {
      PairOrder(ph, pl, rhat, uNext2);
      NextCandidate(qhat, rhat, top, uNext2, v1, v2, Pair(ph, pl));
      qhat := qhat - 1;
      var previousLow := pl;
      PairMinus(ph, pl, v2);
      pl := SubW(pl, v2);
      ph := SubW(ph, Bit(previousLow < v2));
      var previous := rhat;
      rhat := AddW(rhat, v1);
      carry := rhat < previous;
      steps := steps + 1;
    }
    PairOrder(ph, pl, rhat, uNext2);
    FinalCandidate(qhat, rhat + Carried(carry), top, uNext2, v1, v2, Pair(ph, pl));
  }

  lemma PairMinus(hi: word, lo: word, x: word)
    requires x <= Pair(hi, lo)
    ensures Pair(SubW(hi, Bit(lo < x)), SubW(lo, x)) == Pair(hi, lo) - x
  {
  }

  function Carried(carry: bool): nat { if carry then W else 0 }

  method FirstEstimate(uTop: word, uNext: word, uNext2: word, v1: word, v2: word)
    returns (qhat: word, rhat: word, carry: bool)
    requires HALF <= v1 && uTop <= v1
    ensures Candidate(qhat, rhat + Carried(carry), Pair(uTop, uNext), uNext2, v1, v2)
  {
    hide Candidate;
    carry := false;
    if uTop == v1 {
      qhat := ONES;
      rhat := AddW(uNext, v1);
      carry := rhat < uNext;
      FirstCandidate(qhat, uNext + v1, Pair(uTop, uNext), uNext2, v1, v2);
    } else {
      qhat, rhat := Div128By64(uTop, uNext, v1);
      FirstCandidate(qhat, rhat, Pair(uTop, uNext), uNext2, v1, v2);
    }
  }

  /** The estimate is the true digit or one above it. */
  lemma DigitBounds(u: nat, v: nat, top: nat, next2: nat, v1: pos, v2: nat, p: nat, ulow: nat, vlow: nat, qhat: nat)
    requires u == Pair(top, next2) * p + ulow && ulow < p
    requires v == Pair(v1, v2) * p + vlow && vlow < p
    requires u < W * v && Estimate(qhat, top, next2, v1, v2)
    ensures (qhat - 1) * v <= u < (qhat + 1) * v
  {
    var t, d := Pair(top, next2), Pair(v1, v2);
    if qhat == W - 1 {
      assert (qhat + 1) * v == W * v;
    } else {
      MulMono(t + 1, (qhat + 1) * d, p);
      assert (qhat + 1) * d * p == (qhat + 1) * (d * p);
      MulMono(d * p, v, qhat + 1);
    }
    if qhat > 0 {
      ProductBelow(qhat - 1, d, p, vlow);
      MulMono(qhat * d, t, p);
    } else {
      MulMono(0, v, 1);
    }
  }

  lemma ProductBelow(q: nat, d: nat, p: nat, low: nat)
    requires low <= p && q <= d
    ensures q * (d * p + low) <= (q + 1) * d * p
  {
    MulMono(low, p, q);
    MulMono(q, d, p);
    assert q * (d * p + low) == q * d * p + q * low;
    assert (q + 1) * d * p == q * d * p + d * p;
  }

  // ----- multiply and subtract, add back -----

  /** prefix = was[..i] - q * v[..i] + borrow * W^i. */
  ghost predicate SubRow(prefix: seq<word>, borrow: word, was: seq<word>, q: word, v: seq<word>, i: nat) {
    |prefix| == i <= |was| && i <= |v| && Val(prefix) + q * Val(v[..i]) == Val(was[..i]) + borrow * PowW(i)
  }

  lemma SubRowStart(was: seq<word>, q: word, v: seq<word>)
    ensures SubRow([], 0, was, q, v, 0)
  {
  }

  lemma SubRowStep(prefix: seq<word>, borrow: word, was: seq<word>, q: word, v: seq<word>, i: nat, s: word, borrow2: word)
    requires i < |was| && i < |v| && SubRow(prefix, borrow, was, q, v, i)
    requires s + q * v[i] + borrow == was[i] + borrow2 * W
    ensures SubRow(prefix + [s], borrow2, was, q, v, i + 1)
  {
    assert (prefix + [s])[..i] == prefix;
    ValStep(was, i);
    ValStep(v, i);
    SubRowArithmetic(Val(prefix), q, Val(v[..i]), Val(was[..i]), borrow, s, v[i], was[i], borrow2, PowW(i));
  }

  lemma SubRowArithmetic(prefix: int, q: int, low: int, was: int, borrow: int, s: int, y: int, x: int, borrow2: int, p: int)
    requires prefix + q * low == was + borrow * p && s + q * y + borrow == x + borrow2 * W
    ensures prefix + s * p + q * (low + y * p) == was + x * p + borrow2 * (W * p)
  {
    Distribute(q, low, y, p);
    assert q * y * p == y * (q * p);
  }

  /** One limb: the borrow out always fits a limb. */
  lemma SubLimb(u: word, q: word, v: word, hi: word, lo: word, borrow: word)
    requires hi * W + lo == q * v
    ensures var sub := AddW(lo, borrow);
            var out := Bit(sub < lo) + hi + Bit(u < sub);
            out < W && SubW(u, sub) + q * v + borrow == u + out * W
  {
    MulBound(q, W - 1, v, W - 1);
  }

  method MultiplySubtract(u: array<word>, j: nat, q: word, v: seq<word>) returns (borrow: word)
    requires j + |v| <= u.Length
    modifies u
    ensures forall k :: 0 <= k < u.Length && !(j <= k < j + |v|) ==> u[k] == old(u[k])
    ensures SubRow(u[j..j + |v|], borrow, old(u[j..j + |v|]), q, v, |v|)
  {
    hide SubRow;
    ghost var was := u[j..j + |v|];
    borrow := 0;
    SubRowStart(was, q, v);
    assert u[j..j] == [];
    for i := 0 to |v|
      invariant forall k :: 0 <= k < u.Length && !(j <= k < j + i) ==> u[k] == old(u[k])
      invariant SubRow(u[j..j + i], borrow, was, q, v, i)
    {
      var hi, lo := Mul64x64(q, v[i]);
      SubLimb(u[j + i], q, v[i], hi, lo, borrow);
      assert u[j + i] == was[i];
      var sub := AddW(lo, borrow);
      var out: word := Bit(sub < lo) + hi + Bit(u[j + i] < sub);
      ghost var prefix := u[j..j + i];
      SubRowStep(prefix, borrow, was, q, v, i, SubW(u[j + i], sub), out);
      borrow := out;
      u[j + i] := SubW(u[j + i], sub);
      assert u[j..j + i + 1] == prefix + [u[j + i]];
    }
  }

  ghost predicate AddRowBack(prefix: seq<word>, carry: word, was: seq<word>, v: seq<word>, i: nat) {
    |prefix| == i <= |was| && i <= |v| && carry <= 1 &&
    Val(prefix) + carry * PowW(i) == Val(was[..i]) + Val(v[..i])
  }

  lemma AddBackStep(prefix: seq<word>, carry: word, was: seq<word>, v: seq<word>, i: nat)
    requires i < |was| && i < |v| && AddRowBack(prefix, carry, was, v, i)
    ensures var s := AddW(AddW(was[i], v[i]), carry);
            AddRowBack(prefix + [s], Bit(s < was[i] || (carry == 1 && s == was[i])), was, v, i + 1)
  {
    var s := AddW(AddW(was[i], v[i]), carry);
    var carry2 := Bit(s < was[i] || (carry == 1 && s == was[i]));
    assert (prefix + [s])[..i] == prefix;
    ValStep(was, i);
    ValStep(v, i);
    CarryStep(s, carry2, was[i], v[i], carry, PowW(i));
  }

  method AddBack(u: array<word>, j: nat, v: seq<word>) returns (ghost carry: word)
    requires j + |v| <= u.Length
    modifies u
    ensures forall k :: 0 <= k < u.Length && !(j <= k < j + |v|) ==> u[k] == old(u[k])
    ensures AddRowBack(u[j..j + |v|], carry, old(u[j..j + |v|]), v, |v|)
  {
    hide AddRowBack;
    ghost var was := u[j..j + |v|];
    var addCarry: word := 0;
    assert AddRowBack([], 0, was, v, 0) by { AddBackStart(was, v); }
    assert u[j..j] == [];
    for i := 0 to |v|
      invariant forall k :: 0 <= k < u.Length && !(j <= k < j + i) ==> u[k] == old(u[k])
      invariant AddRowBack(u[j..j + i], addCarry, was, v, i)
    {
      assert u[j + i] == was[i];
      ghost var prefix := u[j..j + i];
      AddBackStep(prefix, addCarry, was, v, i);
      var sum := AddW(AddW(u[j + i], v[i]), addCarry);
      addCarry := Bit(sum < u[j + i] || (addCarry == 1 && sum == u[j + i]));
      u[j + i] := sum;
      assert u[j..j + i + 1] == prefix + [sum];
    }
    carry := addCarry;
  }

  lemma AddBackStart(was: seq<word>, v: seq<word>)
    ensures AddRowBack([], 0, was, v, 0)
  {
  }

  // ----- one step of the main loop -----

  /** The window was digit * v + window, the new window is below v and its top limb is zero. */
  ghost predicate Stepped(was: seq<word>, window: seq<word>, digit: word, v: seq<word>) {
    |was| == |window| == |v| + 1 && window[|v|] == 0 &&
    Val(was) == digit * Val(v) + Val(window[..|v|]) && Val(window[..|v|]) < Val(v)
  }

  lemma EstimateApplies(was: seq<word>, v: seq<word>, qhat: word)
    requires |v| >= 2 && |was| == |v| + 1 && HALF <= v[|v| - 1] && Val(was[1..]) < Val(v)
    requires Estimate(qhat, Pair(was[|v|], was[|v| - 1]), was[|v| - 2], v[|v| - 1], v[|v| - 2])
    ensures (qhat - 1) * Val(v) <= Val(was) < (qhat + 1) * Val(v)
  {
    hide Estimate, Pair;
    var n := |v|;
    TopThree(was);
    TopTwo(v);
    WindowBelow(was, v);
    ValBound(was[..n - 2]);
    ValBound(v[..n - 2]);
    DigitBounds(Val(was), Val(v), Pair(was[n], was[n - 1]), was[n - 2], v[n - 1], v[n - 2], PowW(n - 2),
                Val(was[..n - 2]), Val(v[..n - 2]), qhat);
  }

  lemma WindowBelow(was: seq<word>, v: seq<word>)
    requires was != [] && Val(was[1..]) < Val(v)
    ensures Val(was) < W * Val(v)
  {
    ValHead(was);
    MulGap(Val(was[1..]), Val(v), W);
  }

  lemma TopThree(s: seq<word>)
    requires |s| >= 3
    ensures var n := |s|; Val(s) == Pair(Pair(s[n - 1], s[n - 2]), s[n - 3]) * PowW(n - 3) + Val(s[..n - 3])
  {
    hide *;
    ValSplit(s, |s| - 3);
    Val3(s[|s| - 3..]);
  }

  lemma TopTwo(s: seq<word>)
    requires |s| >= 2
    ensures var n := |s|; Val(s) == Pair(s[n - 1], s[n - 2]) * PowW(n - 2) + Val(s[..n - 2])
  {
    hide *;
    ValSplit(s, |s| - 2);
    Val2(s[|s| - 2..]);
  }

  lemma Val3(s: seq<word>)
    requires |s| == 3
    ensures Val(s) == Pair(Pair(s[2], s[1]), s[0])
  {
    Val2(s[..2]);
    assert PowW(2) == W * W;
  }

  /** The running remainder is below the divisor, so its top limb is at most v1. */
  lemma TopLimb(was: seq<word>, v: seq<word>)
    requires |v| >= 1 && |was| == |v| + 1 && Val(was[1..]) < Val(v)
    ensures was[|v|] <= v[|v| - 1]
  {
    var n := |v|;
    if was[n] > v[n - 1] {
      var r := was[1..];
      assert r[n..] == v[n..];
      ValTopLess(v, r, n - 1);
    }
  }

  lemma NoBorrow(was: seq<word>, low: seq<word>, borrow: word, qhat: word, v: seq<word>)
    requires |was| == |v| + 1 && |low| == |v| && Val(was) < (qhat + 1) * Val(v)
    requires SubRow(low, borrow, was[..|v|], qhat, v, |v|) && was[|v|] >= borrow
    ensures was[|v|] == borrow && Stepped(was, low + [0], qhat, v)
  {
    var n := |v|;
    assert was[..n][..n] == was[..n] && v[..n] == v && (low + [0])[..n] == low;
    ValBound(v);
    NoBorrowArithmetic(was[n], Val(was[..n]), Val(low), borrow, qhat, Val(v), PowW(n));
  }

  lemma NoBorrowArithmetic(top: nat, wasLow: nat, low: nat, borrow: nat, q: nat, v: nat, p: nat)
    requires low + q * v == wasLow + borrow * p && v < p && borrow <= top
    requires wasLow + top * p < (q + 1) * v
    ensures top == borrow && wasLow + top * p == q * v + low && low < v
  {
    assert (q + 1) * v == q * v + v;
    if borrow < top { MulGap(borrow, top, p); }
  }

  lemma OneAddBack(was: seq<word>, low: seq<word>, borrow: word, qhat: word, v: seq<word>, sum: seq<word>, carry: word)
    requires |was| == |v| + 1 && |low| == |v| == |sum| && (qhat - 1) * Val(v) <= Val(was)
    requires SubRow(low, borrow, was[..|v|], qhat, v, |v|) && was[|v|] < borrow
    requires AddRowBack(sum, carry, low, v, |v|)
    ensures 0 < qhat && Stepped(was, sum + [0], qhat - 1, v)
  {
    var n := |v|;
    assert was[..n][..n] == was[..n] && v[..n] == v && (sum + [0])[..n] == sum && low[..n] == low;
    ValBound(v);
    ValBound(low);
    ValBound(sum);
    AddBackArithmetic(was[n], Val(was[..n]), Val(low), borrow, qhat, Val(v), Val(sum), carry, PowW(n));
  }

  lemma AddBackArithmetic(top: nat, wasLow: nat, low: nat, borrow: nat, q: nat, v: nat, sum: nat, carry: nat, p: nat)
    requires low + q * v == wasLow + borrow * p && sum + carry * p == low + v && carry <= 1
    requires low < p && sum < p && v < p && top < borrow
    requires (q - 1) * v <= wasLow + top * p
    ensures 0 < q && wasLow + top * p == (q - 1) * v + sum && sum < v
  {
    assert (q - 1) * v == q * v - v;
    if borrow > top + 1 { MulGap(top + 1, borrow, p); }
    assert (top + 1) * p == top * p + p;
    assert q == 0 ==> q * v == 0;
  }

  /** Estimate, multiply-subtract and at most one add-back. */
  method DigitStep(u: array<word>, j: nat, v: seq<word>) returns (qhat: word)
    requires |v| >= 2 && HALF <= v[|v| - 1] && j + |v| < u.Length
    requires Val(u[j + 1..j + |v| + 1]) < Val(v)
    modifies u
    ensures forall k :: 0 <= k < u.Length && !(j <= k <= j + |v|) ==> u[k] == old(u[k])
    ensures Stepped(old(u[j..j + |v| + 1]), u[j..j + |v| + 1], qhat, v)
  {
    hide Estimate, SubRow, AddRowBack, Stepped;
    var n := |v|;
    ghost var was := u[j..j + n + 1];
    assert was[1..] == u[j + 1..j + n + 1];
    TopLimb(was, v);
    ghost var steps;
    qhat, steps := EstimateDigit(u[j + n], u[j + n - 1], u[j + n - 2], v[n - 1], v[n - 2]);
    EstimateApplies(was, v, qhat);
    var borrow := MultiplySubtract(u, j, qhat, v);
    assert old(u[j..j + n]) == was[..n];
    ghost var low := u[j..j + n];
    assert u[j + n] == was[n];
    if u[j + n] < borrow {
      ghost var carry := AddBack(u, j, v);
      OneAddBack(was, low, borrow, qhat, v, u[j..j + n], carry);
      qhat := qhat - 1;
      u[j + n] := 0;
    } else {
      NoBorrow(was, low, borrow, qhat, v);
      u[j + n] := u[j + n] - borrow;
    }
    assert u[j..j + n + 1] == u[j..j + n] + [0];
  }

  // ----- normalisation -----

  ghost predicate Scaled(r: seq<word>, dropped: nat, s: seq<word>, b: nat) {
    |r| == |s| && dropped < Pow2(b) && Val(r) + dropped * PowW(|s|) == Val(s) * Pow2(b)
  }

  /** Shift left by b < 64 bits; a zero shift is a plain copy. */
  method Normalize(s: seq<word>, b: nat) returns (r: seq<word>, ghost dropped: nat)
    requires b < 64 && s != []
    ensures Scaled(r, dropped, s, b)
  {
    if b == 0 {
      r, dropped := s, 0;
    } else {
      r, dropped := ShiftLimbs(s, 0, b);
      ScaledByShift(r, dropped, s, b);
    }
  }

  lemma ScaledByShift(r: seq<word>, dropped: nat, s: seq<word>, b: nat)
    requires |r| == |s| && ShiftSum(r, dropped, s, b, 0, |s|)
    ensures Scaled(r, dropped, s, b)
  {
    assert s[..|s|] == s;
    assert Pow2(b) * PowW(0) == Pow2(b);
  }

  /** Shifting the leading zeros out of the divisor drops nothing and sets its top bit. */
  lemma NormalizedDivisor(v: seq<word>, dropped: nat, den: seq<word>, b: nat)
    requires den != [] && den[|den| - 1] != 0 && b == CountlZero(den[|den| - 1]) && Scaled(v, dropped, den, b)
    ensures Val(v) == Val(den) * Pow2(b) && HALF <= v[|v| - 1]
  {
    var n := |den| - 1;
    var x, s, p := den[n], Pow2(b), PowW(n);
    assert PowW(n + 1) == W * p;
    hide Val, Pow, CountlZero;
    TopBits(x, b);
    ValTop(den);
    ValTop(v);
    NormalizedTop(Val(den), Val(den[..n]), x, s, p, PowW(|den|), dropped, Val(v), Val(v[..n]), v[n]);
  }

  lemma ValTop(u: seq<word>)
    requires u != []
    ensures Val(u) == Val(u[..|u| - 1]) + u[|u| - 1] * PowW(|u| - 1) && Val(u[..|u| - 1]) < PowW(|u| - 1)
  {
    ValStep(u, |u| - 1);
    assert u[..|u| - 1 + 1] == u;
    ValBound(u[..|u| - 1]);
  }

  lemma TopBits(x: nat, b: nat)
    requires 0 < x < W && b == CountlZero(x)
    ensures HALF <= x * Pow2(b) && (x + 1) * Pow2(b) <= W
  {
    var s, t := Pow2(b), Pow2(64 - b);
    WordSplit(b);
    if x >= t { MulMono(t, x, s); } else { MulMono(x + 1, t, s); }
  }

  lemma NormalizedTop(d: nat, low: nat, x: nat, s: pos, p: nat, wp: nat, dropped: nat, v: nat, vlow: nat, vtop: nat)
    requires low < p && vlow < p && vtop < W && HALF <= x * s && (x + 1) * s <= W
    requires d == low + x * p && v == vlow + vtop * p && wp == W * p
    requires v + dropped * wp == d * s
    ensures v == d * s && HALF <= vtop
  {
    ScaledTop(low, x, s, p);
    MulStrict(low, p, s);
    hide *;
    TopOnly(low * s, x * s, s, p, dropped, vlow, vtop);
  }

  lemma ScaledTop(low: int, x: int, s: int, p: int)
    ensures (low + x * p) * s == low * s + x * s * p && (x + 1) * s == x * s + s
  {
    assert (low + x * p) * s == low * s + x * p * s;
  }

  lemma TopOnly(lows: nat, xs: nat, s: nat, p: nat, dropped: nat, vlow: nat, vtop: nat)
    requires lows < p * s && vlow < p && HALF <= xs && xs + s <= W
    requires vlow + vtop * p + dropped * (W * p) == lows + xs * p
    ensures dropped == 0 && HALF <= vtop
  {
    assert lows + xs * p < W * p by {
      assert (xs + s) * p == xs * p + p * s;
      MulMono(xs + s, W, p);
    }
    AllKept(vlow + vtop * p, dropped, lows + xs * p, W * p);
    AtLeast(HALF, xs, lows, vlow, vtop, p);
  }

  lemma AllKept(kept: nat, dropped: nat, total: nat, p: nat)
    requires kept + dropped * p == total < p
    ensures dropped == 0
  {
    if dropped > 0 { MulMono(1, dropped, p); }
  }

  lemma AtLeast(least: nat, xs: nat, lows: nat, vlow: nat, vtop: nat, p: nat)
    requires vlow + vtop * p == lows + xs * p && vlow < p && least <= xs
    ensures least <= vtop
  {
    if vtop < xs { MulGap(vtop, xs, p); }
  }

  /** The dividend gets one more limb, so nothing is dropped; its top limbs start below the divisor. */
  lemma NormalizedDividend(u: seq<word>, dropped: nat, num: seq<word>, b: nat)
    requires b < 64 && Scaled(u, dropped, num + [0], b)
    ensures Val(u) == Val(num) * Pow2(b)
  {
    var n := |num|;
    ValTrim(num + [0], n);
    assert (num + [0])[..n] == num;
    ValBound(num);
    Pow2Words();
    PowStrict(2, b, 64);
    NothingDropped(Val(u), dropped, Val(num), Pow2(b), PowW(n));
  }

  lemma NothingDropped(u: nat, dropped: nat, num: nat, s: nat, p: nat)
    requires num < p && 0 < s < W && u + dropped * (W * p) == num * s
    ensures dropped == 0
  {
    MulStrict(num, p, s);
    MulMono(s, W, p);
    if dropped > 0 { MulMono(1, dropped, W * p); }
  }

  lemma FirstRemainder(u: seq<word>, num: seq<word>, v: seq<word>, b: nat)
    requires b < 64 && 2 <= |v| <= |num| && |u| == |num| + 1 && HALF <= v[|v| - 1]
    requires Val(u) == Val(num) * Pow2(b)
    ensures Val(u[|u| - |v|..]) < Val(v)
  {
    hide *;
    var n, k := |v|, |u| - |v|;
    ValSplit(u, k);
    ValBound(num);
    PowWAdd(k, n - 1);
    ValSplit(v, n - 1);
    Val1(v[n - 1..]);
    ScaleBelowHalf(b);
    RemainderStart(Val(u[k..]), PowW(k), PowW(n - 1), Val(num), Pow2(b), v[n - 1]);
  }

  lemma ScaleBelowHalf(b: nat)
    requires b < 64
    ensures Pow2(b) <= HALF
  {
    Pow2Words();
    PowMono(2, b, 63);
  }

  lemma RemainderStart(r: nat, pk: pos, pn: nat, num: nat, s: nat, top: nat)
    requires 0 < s <= HALF <= top && num < pk * pn && pk * r <= num * s
    ensures r < pn * top
  {
    MulStrict(num, pk * pn, s);
    MulMono(s, top, pk * pn);
    assert pk * pn * top == pn * top * pk;
  }

  // ----- the division -----

  /** The digits of positions j and above: u[j..] = digits * v + r with r below v. */
  ghost predicate Progress(u: seq<word>, digits: seq<word>, r: seq<word>, v: seq<word>) {
    |u| == |digits| + |v| && |r| == |v| && Val(u) == Val(digits) * Val(v) + Val(r) && Val(r) < Val(v)
  }

  lemma ProgressStep(x: word, u: seq<word>, digits: seq<word>, r: seq<word>, v: seq<word>, digit: word, window: seq<word>)
    requires Progress(u, digits, r, v) && Stepped([x] + r, window, digit, v)
    ensures Progress([x] + u, [digit] + digits, window[..|v|], v) && window[|v|] == 0
  {
    ValHead([x] + u);
    ValHead([x] + r);
    ValHead([digit] + digits);
    assert ([x] + u)[1..] == u && ([x] + r)[1..] == r && ([digit] + digits)[1..] == digits;
    DigitTimes(digit, Val(digits), Val(v));
  }

  /** What the loop knows before digit j - 1: digits j and above are final, the remainder of
      u[j..] sits in u[j..j + n], the limbs below j are untouched. */
  ghost predicate LoopState(u: seq<word>, q: seq<word>, un: seq<word>, v: seq<word>, j: nat) {
    |u| == |un| == |q| + |v| && j <= |q| && u[..j] == un[..j] && (j < |q| ==> u[j + |v|] == 0) &&
    Progress(un[j..], q[j..], u[j..j + |v|], v)
  }

  lemma LoopStart(un: seq<word>, q: seq<word>, v: seq<word>)
    requires |un| == |q| + |v| && Val(un[|q|..]) < Val(v)
    ensures LoopState(un, q, un, v, |q|)
  {
    assert q[|q|..] == [] && un[|q|..|q| + |v|] == un[|q|..];
  }

  lemma LoopBelow(u: seq<word>, q: seq<word>, un: seq<word>, v: seq<word>, j: nat)
    requires LoopState(u, q, un, v, j)
    ensures j + |v| <= |u| && Val(u[j..j + |v|]) < Val(v)
  {
  }

  lemma LoopStep(u: seq<word>, q: seq<word>, un: seq<word>, v: seq<word>, j: nat, u2: seq<word>, digit: word)
    requires j < |q| && LoopState(u, q, un, v, j + 1)
    requires |u2| == |u| && forall k :: 0 <= k < |u| && !(j <= k <= j + |v|) ==> u2[k] == u[k]
    requires Stepped(u[j..j + |v| + 1], u2[j..j + |v| + 1], digit, v)
    ensures LoopState(u2, q[j := digit], un, v, j)
  {
    hide Progress, Stepped;
    var n, q2 := |v|, q[j := digit];
    var rest, tail, window := u[j + 1..j + 1 + n], q[j + 1..], u2[j..j + n + 1];
    assert u[j..j + n + 1] == [un[j]] + rest by { assert u[j] == u[..j + 1][j] == un[..j + 1][j]; }
    ProgressStep(un[j], un[j + 1..], tail, rest, v, digit, window);
    assert un[j..] == [un[j]] + un[j + 1..] && q2[j..] == [digit] + tail && window[..n] == u2[j..j + n];
    assert window[n] == u2[j + n];
    assert u2[..j] == un[..j] by { assert u[..j] == u[..j + 1][..j] == un[..j + 1][..j]; }
  }

  lemma LoopEnd(u: seq<word>, q: seq<word>, un: seq<word>, v: seq<word>)
    requires |v| < |un| && LoopState(u, q, un, v, 0)
    ensures u[|v|] == 0 && Progress(un, q, u[..|v| + 1][..|v|], v)
  {
    assert q[0..] == q && un[0..] == un && u[0..|v|] == u[..|v| + 1][..|v|];
  }

  /** The loop over the digits, from the top down, on the normalised operands. */
  method DivideNormalized(un: seq<word>, v: seq<word>) returns (digits: seq<word>, r: seq<word>)
    requires 2 <= |v| < |un| && HALF <= v[|v| - 1] && Val(un[|un| - |v|..]) < Val(v)
    ensures |r| == |v| + 1 && r[|v|] == 0 && Progress(un, digits, r[..|v|], v)
  {
    hide *;
    var n, count := |v|, |un| - |v|;
    var u := new word[|un|](i requires 0 <= i < |un| => un[i]);
    assert u[..] == un;
    var q := new word[count](_ => 0);
    LoopStart(un, q[..], v);
    var j := count;
    while j > 0
      invariant 0 <= j <= count && LoopState(u[..], q[..], un, v, j)
    {
      LoopBelow(u[..], q[..], un, v, j);
      j := j - 1;
      ghost var before := u[..];
      assert u[j + 1..j + 1 + n] == before[j + 1..j + 1 + n] && u[j..j + n + 1] == before[j..j + n + 1];
      var digit := DigitStep(u, j, v);
      assert u[j..j + n + 1] == u[..][j..j + n + 1];
      LoopStep(before, q[..], un, v, j, u[..], digit);
      q[j] := digit;
    }
    LoopEnd(u[..], q[..], un, v);
    digits, r := q[..], u[..n + 1];
    assert r[..n] == u[..][..n + 1][..n];
  }

  // ----- undoing the normalisation -----

  ghost predicate Unshifted(prefix: seq<word>, u: seq<word>, b: nat, i: nat) {
    |prefix| == i < |u| &&
    Val(prefix) * Pow2(b) + Rem(u[0], Pow2(b)) == Val(u[..i]) + Rem(u[i], Pow2(b)) * PowW(i)
  }

  lemma UnshiftStart(u: seq<word>, b: nat)
    requires u != []
    ensures Unshifted([], u, b, 0)
  {
  }

  lemma UnshiftStep(prefix: seq<word>, u: seq<word>, b: nat, i: nat)
    requires 0 < b < 64 && i + 1 < |u| && Unshifted(prefix, u, b, i)
    ensures OrFits(ShlW(u[i + 1], 64 - b), Shr(u[i], b), 64 - b)
    ensures Unshifted(prefix + [OrBits(ShlW(u[i + 1], 64 - b), Shr(u[i], b), 64 - b)], u, b, i + 1)
  {
    ShiftParts(u[i + 1], 64 - b);
    ShiftParts(u[i], 64 - b);
    QuotRem(u[i], Pow2(b));
    QuotRem(u[i + 1], Pow2(b));
    WordSplit(b);
    ValStep(u, i);
    hide *;
    var x := OrBits(ShlW(u[i + 1], 64 - b), Shr(u[i], b), 64 - b);
    UnshiftLimb(u, b, i, prefix, x);
  }

  lemma UnshiftLimb(u: seq<word>, b: nat, i: nat, prefix: seq<word>, x: word)
    requires 0 < b < 64 && i + 1 < |u| && Unshifted(prefix, u, b, i)
    requires x == ShlW(u[i + 1], 64 - b) + Shr(u[i], b)
    ensures Unshifted(prefix + [x], u, b, i + 1)
  {
    LimbOut(u[i], u[i + 1], b);
    assert (prefix + [x])[..i] == prefix;
    ValStep(u, i);
    UnshiftArithmetic(Val(prefix), Val(u[..i]), u[i], x, Rem(u[0], Pow2(b)), Rem(u[i], Pow2(b)),
                      Rem(u[i + 1], Pow2(b)), Pow2(b), PowW(i));
  }

  lemma LimbOut(x: word, y: word, b: nat)
    requires 0 < b < 64
    ensures (ShlW(y, 64 - b) + Shr(x, b)) * Pow2(b) + Rem(x, Pow2(b)) == x + Rem(y, Pow2(b)) * W
  {
    var s, t := Pow2(b), Pow2(64 - b);
    ShiftParts(y, 64 - b);
    QuotRem(x, s);
    QuotRem(y, s);
    WordSplit(b);
    assert x == Shr(x, b) * s + Rem(x, s) && y == Shr(y, b) * s + Rem(y, s);
    hide *;
    LimbOutArithmetic(x, y, ShlW(y, 64 - b), Shr(x, b), Shr(y, b), Rem(x, s), Rem(y, s), s, t);
  }

  lemma LimbOutArithmetic(x: int, y: int, low: int, qx: int, qy: int, rx: int, ry: int, s: int, t: int)
    requires t * s == W && qy * W + low == y * t && x == qx * s + rx && y == qy * s + ry
    ensures (low + qx) * s + rx == x + ry * W
  {
    assert (qy * W + low) * s == qy * s * W + low * s;
    assert y * t * s == y * (t * s);
    assert y * W == qy * s * W + ry * W;
    assert (low + qx) * s == low * s + qx * s;
  }

  lemma UnshiftArithmetic(prefix: int, low: int, ui: int, x: int, r0: int, ri: int, rn: int, s: int, p: int)
    requires prefix * s + r0 == low + ri * p && x * s + ri == ui + rn * W
    ensures (prefix + x * p) * s + r0 == low + ui * p + rn * (W * p)
  {
    assert (prefix + x * p) * s == prefix * s + x * s * p;
    assert (x * s + ri) * p == x * s * p + ri * p;
    assert (ui + rn * W) * p == ui * p + rn * (W * p);
  }

  /** Shift the n low limbs of u right by b bits; u has one more, zero, limb. */
  method Unnormalize(u: seq<word>, b: nat) returns (r: seq<word>)
    requires b < 64 && u != [] && u[|u| - 1] == 0
    ensures |r| == |u| - 1 && Val(r) * Pow2(b) + Rem(u[0], Pow2(b)) == Val(u[..|u| - 1])
  {
    var n := |u| - 1;
    if b == 0 {
      r := u[..n];
    } else {
      r := ShiftDown(u, b);
      assert Rem(u[n], Pow2(b)) == 0;
    }
  }

  method ShiftDown(u: seq<word>, b: nat) returns (r: seq<word>)
    requires 0 < b < 64 && u != []
    ensures Unshifted(r, u, b, |u| - 1)
  {
    hide Unshifted, OrFits, OrBits, Shr, ShlW;
    var n := |u| - 1;
    var res := new word[n](_ => 0);
    UnshiftStart(u, b);
    assert res[..0] == [];
    for i := 0 to n
      invariant Unshifted(res[..i], u, b, i)
    {
      ghost var prefix := res[..i];
      UnshiftStep(prefix, u, b, i);
      res[i] := OrBits(ShlW(u[i + 1], 64 - b), Shr(u[i], b), 64 - b);
      assert res[..i + 1] == prefix + [res[i]];
    }
    r := res[..];
    assert res[..n] == r;
  }

  lemma Unscale(num: nat, den: nat, q: nat, r: nat, rem: nat, low: nat, s: pos)
    requires num * s == q * (den * s) + r && r < den * s && rem * s + low == r && low < s
    ensures num == q * den + rem && rem < den
  {
    assert q * (den * s) == q * den * s;
    var k := num - q * den - rem;
    assert k * s == low;
    if k > 0 { MulMono(1, k, s); } else if k < 0 { MulMono(k, -1, s); }
  }

  /** Main theorem on Algorithm D: for any two buffers the result is the quotient and
      remainder; a zero divisor gives zero for both, as the source returns. */
  method DivMod(num: seq<word>, den: seq<word>) returns (quotient: seq<word>, remainder: seq<word>)
    ensures |quotient| == |num| && |remainder| == |den|
    ensures Val(den) == 0 ==> Val(quotient) == 0 && Val(remainder) == 0
    ensures Val(den) != 0 ==> Val(num) == Val(quotient) * Val(den) + Val(remainder) && Val(remainder) < Val(den)
  {
    hide *;
    var n := ActiveLimbs(den);
    var mn := ActiveLimbs(num);
    quotient, remainder := Zeros(|num|), Zeros(|den|);
    ValZeros(quotient);
    ValZeros(remainder);
    if n == 0 { return; }
    if mn < n {
      remainder := num[..mn] + Zeros(|den| - mn);
      ValWiden(num[..mn], |den| - mn);
      ShorterIsLess(num[..mn], den[..n]);
    } else if n == 1 {
      Val1(den[..1]);
      var r;
      quotient, r := DivMod64(num, den[0]);
      remainder := [r] + Zeros(|den| - 1);
      ValWiden([r], |den| - 1);
      Val1([r]);
    } else {
      var digits, rem := DivideLimbs(num[..mn], den[..n]);
      quotient := digits + Zeros(|num| - |digits|);
      remainder := rem + Zeros(|den| - n);
      ValWiden(digits, |num| - |digits|);
      ValWiden(rem, |den| - n);
    }
  }

  lemma ShorterIsLess(a: seq<word>, b: seq<word>)
    requires |a| < |b| && b[|b| - 1] != 0
    ensures Val(a) < Val(b)
  {
    ValBound(a);
    PowMono(W, |a|, |b| - 1);
    ValStep(b, |b| - 1);
    assert b[..|b|] == b;
    MulMono(1, b[|b| - 1], PowW(|b| - 1));
  }

  /** Both operands without leading zero limbs, at least two limbs of divisor. */
  method DivideLimbs(num: seq<word>, den: seq<word>) returns (digits: seq<word>, remainder: seq<word>)
    requires 2 <= |den| <= |num| && den[|den| - 1] != 0
    ensures |digits| == |num| + 1 - |den| && |remainder| == |den|
    ensures Val(num) == Val(digits) * Val(den) + Val(remainder) && Val(remainder) < Val(den)
  {
    var n := |den|;
    var b := CountlZero(den[n - 1]);
    ghost var dropped, lost;
    var v, un, u;
    v, dropped := Normalize(den, b);
    NormalizedDivisor(v, dropped, den, b);
    un, lost := Normalize(num + [0], b);
    NormalizedDividend(un, lost, num, b);
    FirstRemainder(un, num, v, b);
    digits, u := DivideNormalized(un, v);
    remainder := Unnormalize(u, b);
    Unscale(Val(num), Val(den), Val(digits), Val(u[..n]), Val(remainder), Rem(u[0], Pow2(b)), Pow2(b));
  }
}
