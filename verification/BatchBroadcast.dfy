/** The prepared multiply over a batch: vector lanes where they can run, blocks of scalar rows
    elsewhere, and the same rows written either way. */
module BatchBroadcast {
  import opened Arith
  import opened Rounding
  import opened Operations
  import opened Signs
  import opened Lanes
  import opened BatchMultiply
  import opened Batch
  import Mixed
  import Meaning
  import ExactResults

  // ----- the certificate of the prepared multiply -----

  /** An accepted lane holds what the scalar plan returns in Exact mode. */
  lemma LaneIsScalar(raw: int128, factor: int64, gap: nat, value: int128)
    requires value * Pow10(gap) == raw * factor
    ensures Evaluate(raw * factor, Pow10(gap), Exact, 128) == Ok(value)
  {
    Limits();
    ExactProduct(value, 1, Pow10(gap), value * Pow10(gap), Exact, 128);
    assert Fits(value, 128);
  }

  /** The unsigned certificate as the batch map sees it. */
  function CertifyUnsigned(raw: int128, factor: int64, gap: nat, inverse: nat): Result<int128>
    requires gap <= 19 && inverse < TWO32
  {
    var c := UnsignedLane(LaneOf(raw), gap, inverse, MagnitudeW(factor), factor < 0);
    if c.accepted then Ok(SignedLane(c.value)) else Err(Inexact)
  }

  lemma CertifyUnsignedSound(raw: int128, factor: int64, gap: nat, inverse: nat)
    requires gap <= 19 && IsInverse(inverse, gap)
    ensures CertifyUnsigned(raw, factor, gap, inverse).Ok? ==>
              Evaluate(raw * factor, Pow10(gap), Exact, 128) == Ok(CertifyUnsigned(raw, factor, gap, inverse).value)
  {
    UnsignedLaneExact(raw, gap, inverse, factor);
    var c := CertifyUnsigned(raw, factor, gap, inverse);
    hide UnsignedLane, SignedLane, Evaluate, Pow;
    if c.Ok? { LaneIsScalar(raw, factor, gap, c.value); }
  }

  function CertifySigned(raw: int128, factor: int64, inverse: nat): Result<int128>
    requires inverse < TWO32
  {
    var c := SignedLane32(LaneOf(raw), inverse, ToWord(factor));
    if c.accepted then Ok(SignedLane(c.value)) else Err(Inexact)
  }

  lemma CertifySignedSound(raw: int128, factor: int64, inverse: nat)
    requires IsInverse(inverse, 10) && -0x8000_0000 <= factor < 0x8000_0000
    ensures CertifySigned(raw, factor, inverse).Ok? ==>
              Evaluate(raw * factor, Pow10(10), Exact, 128) == Ok(CertifySigned(raw, factor, inverse).value)
  {
    SignedLane32Exact(raw, inverse, factor);
    TenDigitsGap();
    var c := CertifySigned(raw, factor, inverse);
    hide SignedLane32, SignedLane, Evaluate, Pow;
    if c.Ok? { LaneIsScalar(raw, factor, 10, c.value); }
  }

  // ----- the dispatched broadcast -----

  /** An operation's result as a stored 128-bit value. */
  function Stored(r: Result<int>): Result<int128> {
    match r
    case Err(e) => Err(e)
    case Ok(v) =>
      if -0x8000_0000_0000_0000_0000_0000_0000_0000 <= v < 0x8000_0000_0000_0000_0000_0000_0000_0000
      then Ok(v) else Err(Overflow)
  }

  /** What a row of a broadcast into 128 bits means, whichever path computes it. */
  function ScalarMap(p: Broadcast, aDecimals: nat, dest: nat): int128 -> Result<int128> {
    (x: int128) => Stored(Mixed.MulTo(x, aDecimals, p.factor, p.decimals, dest, p.mode, 128))
  }

  /** A row's result is the exact product of the two values, rounded once. */
  lemma RowIsProduct(p: Broadcast, x: int128, aDecimals: nat, dest: nat)
    ensures var product := Meaning.Value(x, aDecimals) * Meaning.Value(p.factor, p.decimals) * Meaning.Scale(dest);
            match ScalarMap(p, aDecimals, dest)(x)
            case Ok(v) => Meaning.Correct(product, p.mode, 128, Ok(v))
            case Err(e) => Meaning.Correct(product, p.mode, 128, Err(e))
  {
    Limits();
    hide Pow, Mixed.MulTo, Meaning.Value, Meaning.Scale, Meaning.RoundsTo, Meaning.PartFits, Meaning.IsWhole;
    ExactResults.MulTo(x, aDecimals, p.factor, p.decimals, dest, p.mode, 128);
  }

  /** The prepared multiplier on one row. */
  method MapRow(p: Broadcast, x: int128, aDecimals: nat, dest: nat) returns (r: Result<int128>)
    requires IsPlan(p, 128) && aDecimals <= 76 && dest <= 76
    ensures r == ScalarMap(p, aDecimals, dest)(x)
  {
    Limits();
    hide IsPlan;
    var value := ApplyBroadcast(p, x, aDecimals, 128, dest, 128);
    r := Stored(value);
  }

  /** Rows before `row` are written, and no later input has been touched. */
  ghost predicate Reached<T>(map_: T -> Result<T>, source: seq<T>, was: seq<T>, input: seq<T>, output: seq<T>, row: nat) {
    Prefix(map_, source, was, output, row) && |input| == |source| && forall i :: row <= i < |source| ==> input[i] == source[i]
  }

  method StoreTile<T>(output: array<T>, input: array<T>, ghost map_: T -> Result<T>, tile: seq<Result<T>>, row: nat,
                      ghost source: seq<T>, ghost was: seq<T>)
    requires |tile| == 4 && row + 4 <= output.Length == input.Length && Reached(map_, source, was, input[..], output[..], row)
    requires forall i :: 0 <= i < 4 ==> tile[i].Ok? && map_(source[row + i]) == tile[i]
    modifies output
    ensures Reached(map_, source, was, input[..], output[..], row + 4)
  {
    output[row], output[row + 1], output[row + 2], output[row + 3] :=
      tile[0].value, tile[1].value, tile[2].value, tile[3].value;
  }

  /** One tile: certified lanes are stored, the others multiplied in their turn. */
  method TransformTile(output: array<int128>, input: array<int128>, p: Broadcast, aDecimals: nat, dest: nat,
                       tile: seq<Result<int128>>, row: nat, ghost source: seq<int128>, ghost was: seq<int128>)
    returns (outcome: Outcome)
    requires IsPlan(p, 128) && aDecimals <= 76 && dest <= 76
    requires |tile| == 4 && row + 4 <= output.Length == input.Length
    requires Reached(ScalarMap(p, aDecimals, dest), source, was, input[..], output[..], row)
    requires forall i :: 0 <= i < 4 && tile[i].Ok? ==> ScalarMap(p, aDecimals, dest)(source[row + i]) == tile[i]
    modifies output
    ensures outcome.Done? ==> Reached(ScalarMap(p, aDecimals, dest), source, was, input[..], output[..], row + 4)
    ensures outcome.Failed? ==> Transformed(ScalarMap(p, aDecimals, dest), source, was, output[..], outcome)
  {
    hide IsPlan, ScalarMap;
    if tile[0].Ok? && tile[1].Ok? && tile[2].Ok? && tile[3].Ok? {
      StoreTile(output, input, ScalarMap(p, aDecimals, dest), tile, row, source, was);
      return Done;
    }
    for lane := 0 to 4
      invariant Reached(ScalarMap(p, aDecimals, dest), source, was, input[..], output[..], row + lane)
    {
      var value := tile[lane];
      if value.Err? {
        value := MapRow(p, input[row + lane], aDecimals, dest);
        if value.Err? { return Failed(row + lane, value.error); }
      }
      output[row + lane] := value.value;
    }
    outcome := Done;
  }

  /** A certificate may answer for the map, never against it. */
  ghost predicate Certifies(certify: int128 -> Result<int128>, map_: int128 -> Result<int128>) {
    forall x: int128 :: certify(x).Ok? ==> map_(x) == certify(x)
  }

  /** The tiled transform: a fully certified tile is stored at once. */
  method TransformTiled(output: array<int128>, input: array<int128>, p: Broadcast, aDecimals: nat, dest: nat,
                        certify: int128 -> Result<int128>) returns (outcome: Outcome)
    requires IsPlan(p, 128) && aDecimals <= 76 && dest <= 76 && output.Length == input.Length
    requires Certifies(certify, ScalarMap(p, aDecimals, dest))
    modifies output
    ensures Transformed(ScalarMap(p, aDecimals, dest), old(input[..]), old(output[..]), output[..], outcome)
  {
    hide IsPlan, ScalarMap;
    ghost var source, was := input[..], output[..];
    var row, count := 0, output.Length;
    while count - row >= 4
      invariant row <= count && Reached(ScalarMap(p, aDecimals, dest), source, was, input[..], output[..], row)
    {
      var tile := [certify(input[row]), certify(input[row + 1]), certify(input[row + 2]), certify(input[row + 3])];
      outcome := TransformTile(output, input, p, aDecimals, dest, tile, row, source, was);
      if outcome.Failed? { return; }
      row := row + 4;
    }
    for i := row to count
      invariant Reached(ScalarMap(p, aDecimals, dest), source, was, input[..], output[..], i)
    {
      var value := MapRow(p, input[i], aDecimals, dest);
      if value.Err? { return Failed(i, value.error); }
      output[i] := value.value;
    }
    outcome := Done;
  }

  method InverseFor(gap: nat) returns (inverse: nat)
    requires gap <= 19
    ensures IsInverse(inverse, gap)
  {
    OddIsOdd(gap);
    var odd := Odd(gap) % TWO32;
    assert odd % 2 == 1 by { DivModUnique(Odd(gap), 2, Odd(gap) / TWO32 * 0x8000_0000 + odd / 2, odd % 2); }
    inverse := InverseOdd(odd);
  }

  /** simd_dispatch: available for a factor of at most 64 bits and a gap of one to nineteen
      decimals, run for at least four rows in Exact mode. */
  predicate CanRun(p: Broadcast, aDecimals: nat, dest: nat, count: nat) {
    p.bits <= 64 && 1 <= aDecimals + p.decimals - dest <= 19 && count >= 4 && p.mode.Exact?
  }

  /** simd_dispatch::transform: whichever lane kind is chosen, the rows are the scalar rows. */
  method VectorTransform(output: array<int128>, input: array<int128>, p: Broadcast, aDecimals: nat, dest: nat)
    returns (outcome: Outcome)
    requires IsPlan(p, 128) && aDecimals <= 76 && dest <= 76 && output.Length == input.Length
    requires CanRun(p, aDecimals, dest, output.Length)
    modifies output
    ensures Transformed(ScalarMap(p, aDecimals, dest), old(input[..]), old(output[..]), output[..], outcome)
  {
    var gap := aDecimals + p.decimals - dest;
    OperandRange(p.factor, p.decimals, p.bits);
    var factor: int64 := p.factor;
    var inverse := InverseFor(gap);
    if gap == 10 && -0x8000_0000 <= factor < 0x8000_0000 {
      SignedCertifies(p, factor, aDecimals, dest, inverse);
      hide *;
      outcome := TransformTiled(output, input, p, aDecimals, dest, (x: int128) => CertifySigned(x, factor, inverse));
    } else {
      UnsignedCertifies(p, factor, aDecimals, dest, inverse);
      hide *;
      outcome := TransformTiled(output, input, p, aDecimals, dest, (x: int128) => CertifyUnsigned(x, factor, gap, inverse));
    }
  }

  lemma SignedCertifies(p: Broadcast, factor: int64, aDecimals: nat, dest: nat, inverse: nat)
    requires p.mode.Exact? && factor == p.factor && -0x8000_0000 <= factor < 0x8000_0000
    requires aDecimals + p.decimals - dest == 10 && IsInverse(inverse, 10)
    ensures Certifies((x: int128) => CertifySigned(x, factor, inverse), ScalarMap(p, aDecimals, dest))
  {
    hide Evaluate, CertifySigned, Mixed.MulTo, Pow;
    forall x: int128 | CertifySigned(x, factor, inverse).Ok?
      ensures ScalarMap(p, aDecimals, dest)(x) == CertifySigned(x, factor, inverse)
    {
      CertifySignedSound(x, factor, inverse);
      AtGap(x, aDecimals, p.factor, p.decimals, dest, p.mode, 128);
    }
  }

  lemma UnsignedCertifies(p: Broadcast, factor: int64, aDecimals: nat, dest: nat, inverse: nat)
    requires p.mode.Exact? && factor == p.factor && 1 <= aDecimals + p.decimals - dest <= 19
    requires IsInverse(inverse, aDecimals + p.decimals - dest)
    ensures Certifies((x: int128) => CertifyUnsigned(x, factor, aDecimals + p.decimals - dest, inverse), ScalarMap(p, aDecimals, dest))
  {
    var gap := aDecimals + p.decimals - dest;
    hide Evaluate, CertifyUnsigned, Mixed.MulTo, Pow;
    forall x: int128 | CertifyUnsigned(x, factor, gap, inverse).Ok?
      ensures ScalarMap(p, aDecimals, dest)(x) == CertifyUnsigned(x, factor, gap, inverse)
    {
      CertifyUnsignedSound(x, factor, gap, inverse);
      AtGap(x, aDecimals, p.factor, p.decimals, dest, p.mode, 128);
    }
  }

  /** evaluate_block with the prepared multiplier. */
  method BroadcastBlock(input: array<int128>, p: Broadcast, aDecimals: nat, dest: nat, first: nat, size: nat)
    returns (block: seq<Result<int128>>)
    requires IsPlan(p, 128) && aDecimals <= 76 && dest <= 76 && first + size <= input.Length
    ensures |block| == size && forall i :: 0 <= i < size ==> block[i] == ScalarMap(p, aDecimals, dest)(input[first + i])
  {
    hide IsPlan, ScalarMap;
    block := [];
    for lane := 0 to size
      invariant |block| == lane && forall i :: 0 <= i < lane ==> block[i] == ScalarMap(p, aDecimals, dest)(input[first + i])
    {
      var value := MapRow(p, input[first + lane], aDecimals, dest);
      block := block + [value];
    }
  }

  /** transform by a prepared multiplier: the vector lanes where they can run, else blocks. */
  method BroadcastTransform(output: array<int128>, input: array<int128>, p: Broadcast, aDecimals: nat, dest: nat, blockSize: nat)
    returns (outcome: Outcome)
    requires IsPlan(p, 128) && aDecimals <= 76 && dest <= 76 && output.Length == input.Length && 1 <= blockSize <= 64
    modifies output
    ensures Transformed(ScalarMap(p, aDecimals, dest), old(input[..]), old(output[..]), output[..], outcome)
  {
    hide IsPlan, ScalarMap, CanRun;
    if blockSize >= 4 && CanRun(p, aDecimals, dest, output.Length) {
      outcome := VectorTransform(output, input, p, aDecimals, dest);
      return;
    }
    ghost var source, was := input[..], output[..];
    var first, count, size := 0, output.Length, blockSize;
    while first < count
      invariant first <= count && 1 <= size <= blockSize
      invariant Reached(ScalarMap(p, aDecimals, dest), source, was, input[..], output[..], first)
      decreases count - first
    {
      if count - first < blockSize { size := 1; }
      var block := BroadcastBlock(input, p, aDecimals, dest, first, size);
      outcome := CommitBlock(output, block, first, ScalarMap(p, aDecimals, dest), source, was);
      if outcome.Failed? { return; }
      first := first + size;
    }
    outcome := Done;
  }
}
