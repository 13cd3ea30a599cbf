/** Checked loops over rows: speculative blocks with ordered commits, tiles of certified lanes,
    in-place transforms and the ordered fold, all against the one-row-at-a-time loop. */
module Batch {
  import opened Arith
  import opened Rounding

  /** All rows committed, or the first failed row with its error. */
  datatype Outcome = Done | Failed(row: nat, error: Error)

  datatype Status = Accepted | Refused(error: Error)

  datatype Step<S> = Step(state: S, status: Status)

  /** The loop every schedule must agree with: map a row, commit it, stop at the first failure. */
  ghost function RowByRow<S, V>(map_: (S, nat) -> Result<V>, commit: (S, nat, V) -> Step<S>, s: S, row: nat, count: nat): (S, Outcome)
    requires row <= count
    decreases count - row
  {
    if row == count then (s, Done)
    else match map_(s, row)
      case Err(e) => (s, Failed(row, e))
      case Ok(v) =>
        var step := commit(s, row, v);
        match step.status
        case Refused(e) => (step.state, Failed(row, e))
        case Accepted => RowByRow(map_, commit, step.state, row + 1, count)
  }

  /** A commit that writes down every row number and value it is given. */
  function Recorder<V>(accept: (nat, V) -> Status): (seq<(nat, V)>, nat, V) -> Step<seq<(nat, V)>> {
    (log: seq<(nat, V)>, row: nat, v: V) => Step(log + [(row, v)], accept(row, v))
  }

  /** The entries of the rows from `first` on, each with its own number and mapped value. */
  ghost predicate IsLog<V>(map_: nat -> Result<V>, first: nat, log: seq<(nat, V)>) {
    forall i :: 0 <= i < |log| ==> log[i].0 == first + i && map_(first + i) == Ok(log[i].1)
  }

  ghost predicate AllAccepted<V>(accept: (nat, V) -> Status, log: seq<(nat, V)>) {
    forall i :: 0 <= i < |log| ==> accept(log[i].0, log[i].1).Accepted?
  }

  lemma EmptyLog<V>(map_: nat -> Result<V>, accept: (nat, V) -> Status, row: nat)
    ensures IsLog(map_, row, []) && AllAccepted(accept, [])
  {
  }

  lemma LastEntry<V>(map_: nat -> Result<V>, accept: (nat, V) -> Status, row: nat, entry: (nat, V))
    requires entry.0 == row && map_(row) == Ok(entry.1)
    ensures IsLog(map_, row, [entry]) && AllAccepted(accept, [entry][..0])
  {
  }

  lemma LogGrows<V>(map_: nat -> Result<V>, accept: (nat, V) -> Status, row: nat, entry: (nat, V), rest: seq<(nat, V)>)
    requires IsLog(map_, row + 1, rest) && entry.0 == row && map_(row) == Ok(entry.1) && accept(row, entry.1).Accepted?
    ensures IsLog(map_, row, [entry] + rest)
    ensures forall n :: 0 <= n <= |rest| && AllAccepted(accept, rest[..n]) ==> AllAccepted(accept, ([entry] + rest)[..n + 1])
    ensures AllAccepted(accept, rest) ==> AllAccepted(accept, [entry] + rest)
  {
    forall n | 0 <= n <= |rest| ensures ([entry] + rest)[..n + 1] == [entry] + rest[..n] {}
  }

  /** The loop hands every row to the commit once, in order and under its own number, up to the
      first row that is refused or has no value. */
  lemma {:induction false} RowsInOrder<V>(map_: nat -> Result<V>, rows: (seq<(nat, V)>, nat) -> Result<V>,
                                          accept: (nat, V) -> Status, log: seq<(nat, V)>, row: nat, count: nat)
    returns (more: seq<(nat, V)>)
    requires row <= count && forall s, i: nat :: rows(s, i) == map_(i)
    ensures IsLog(map_, row, more)
    ensures var (s, outcome) := RowByRow(rows, Recorder(accept), log, row, count);
            s == log + more &&
            match outcome
            case Done => |more| == count - row && AllAccepted(accept, more)
            case Failed(k, e) =>
              row <= k < count &&
              if map_(k).Err? then e == map_(k).error && |more| == k - row && AllAccepted(accept, more)
              else |more| == k - row + 1 && AllAccepted(accept, more[..k - row]) && accept(k, map_(k).value) == Refused(e)
    decreases count - row
  {
    hide IsLog, AllAccepted;
    EmptyLog(map_, accept, row);
    more := [];
    if row < count && map_(row).Ok? {
      var entry := (row, map_(row).value);
      var step := Recorder(accept)(log, row, map_(row).value);
      if step.status.Accepted? {
        var rest := RowsInOrder(map_, rows, accept, step.state, row + 1, count);
        more := [entry] + rest;
        assert step.state + rest == log + more;
        LogGrows(map_, accept, row, entry, rest);
      } else {
        more := [entry];
        LastEntry(map_, accept, row, entry);
      }
    }
  }

  /** The documented duty of a map: committing one row does not change what later rows map to. */
  ghost predicate Independent<S(!new), V(!new)>(map_: (S, nat) -> Result<V>, commit: (S, nat, V) -> Step<S>) {
    forall s: S, i: nat, j: nat, v: V :: i < j ==> map_(commit(s, i, v).state, j) == map_(s, j)
  }

  /** for_each: BlockSize rows are mapped ahead, then committed in order; a commit failure at a
      row outranks a speculative map failure at a later one. */
  method ForEach<S(!new), V(!new)>(map_: (S, nat) -> Result<V>, commit: (S, nat, V) -> Step<S>, start: S, count: nat, blockSize: nat)
    returns (s: S, outcome: Outcome)
    requires 1 <= blockSize <= 64 && Independent(map_, commit)
    ensures (s, outcome) == RowByRow(map_, commit, start, 0, count)
  {
    s := start;
    var first := 0;
    while count - first >= blockSize
      invariant first <= count && RowByRow(map_, commit, start, 0, count) == RowByRow(map_, commit, s, first, count)
      decreases count - first
    {
      var block := seq(blockSize, (lane: nat) => map_(s, first + lane));
      var lane := 0;
      while lane < blockSize
        invariant lane <= blockSize
        invariant RowByRow(map_, commit, start, 0, count) == RowByRow(map_, commit, s, first + lane, count)
        invariant forall i :: lane <= i < blockSize ==> block[i] == map_(s, first + i)
      {
        if block[lane].Err? { return s, Failed(first + lane, block[lane].error); }
        var step := commit(s, first + lane, block[lane].value);
        if step.status.Refused? { return step.state, Failed(first + lane, step.status.error); }
        s, lane := step.state, lane + 1;
      }
      first := first + blockSize;
    }
    while first < count
      invariant first <= count && RowByRow(map_, commit, start, 0, count) == RowByRow(map_, commit, s, first, count)
    {
      var value := map_(s, first);
      if value.Err? { return s, Failed(first, value.error); }
      var step := commit(s, first, value.value);
      if step.status.Refused? { return step.state, Failed(first, step.status.error); }
      s, first := step.state, first + 1;
    }
    outcome := Done;
  }

  /** A certificate may answer for the map, never against it. */
  ghost predicate Sound<S(!new), V(!new)>(map_: (S, nat) -> Result<V>, certify: (S, nat) -> Result<V>) {
    forall s: S, row: nat :: certify(s, row).Ok? ==> map_(s, row) == certify(s, row)
  }

  /** The certificate, too, reads only its own row. */
  ghost predicate Local<S(!new), V(!new)>(certify: (S, nat) -> Result<V>, commit: (S, nat, V) -> Step<S>) {
    forall s: S, i: nat, j: nat, v: V :: i < j ==> certify(commit(s, i, v).state, j) == certify(s, j)
  }

  /** The tiled for_each: four lanes are certified at once; a lane without a certificate is
      mapped only when its turn comes. */
  method ForEachTiled<S(!new), V(!new)>(map_: (S, nat) -> Result<V>, certify: (S, nat) -> Result<V>,
                                        commit: (S, nat, V) -> Step<S>, start: S, count: nat)
    returns (s: S, outcome: Outcome)
    requires Sound(map_, certify) && Local(certify, commit)
    ensures (s, outcome) == RowByRow(map_, commit, start, 0, count)
  {
    s := start;
    var row := 0;
    while count - row >= 4
      invariant row <= count && RowByRow(map_, commit, start, 0, count) == RowByRow(map_, commit, s, row, count)
      decreases count - row
    {
      var tile := seq(4, (lane: nat) => certify(s, row + lane));
      var lane := 0;
      while lane < 4
        invariant lane <= 4
        invariant RowByRow(map_, commit, start, 0, count) == RowByRow(map_, commit, s, row + lane, count)
        invariant forall i :: lane <= i < 4 ==> tile[i] == certify(s, row + i)
      {
        var value := tile[lane];
        if value.Err? {
          value := map_(s, row + lane);
          if value.Err? { return s, Failed(row + lane, value.error); }
        }
        var step := commit(s, row + lane, value.value);
        if step.status.Refused? { return step.state, Failed(row + lane, step.status.error); }
        s, lane := step.state, lane + 1;
      }
      row := row + 4;
    }
    while row < count
      invariant row <= count && RowByRow(map_, commit, start, 0, count) == RowByRow(map_, commit, s, row, count)
    {
      var value := map_(s, row);
      if value.Err? { return s, Failed(row, value.error); }
      var step := commit(s, row, value.value);
      if step.status.Refused? { return step.state, Failed(row, step.status.error); }
      s, row := step.state, row + 1;
    }
    outcome := Done;
  }

  // ----- transform -----

  /** An argument of a batch: a span read row by row, or one value for every row. */
  datatype Input<X> = Span(rows: array<X>) | Scalar(value: X) {
    predicate Covers(count: nat) { Span? ==> rows.Length == count }

    function At(row: nat): X
      requires Span? ==> row < rows.Length
      reads if Span? then {rows} else {}
    {
      if Span? then rows[row] else value
    }
  }

  predicate AllCover<X>(inputs: seq<Input<X>>, count: nat) { forall k :: 0 <= k < |inputs| ==> inputs[k].Covers(count) }

  /** What the map is given for one row. */
  function RowOf<X>(inputs: seq<Input<X>>, row: nat, count: nat): (values: seq<X>)
    requires row < count && AllCover(inputs, count)
    reads set k | 0 <= k < |inputs| && inputs[k].Span? :: inputs[k].rows
    ensures |values| == |inputs|
    ensures forall k :: 0 <= k < |inputs| ==>
              match inputs[k]
              case Span(rows) => values[k] == rows[row]
              case Scalar(x) => values[k] == x
  {
    seq(|inputs|, k requires 0 <= k < |inputs| && inputs[k].Covers(count)
                    reads if 0 <= k < |inputs| && inputs[k].Span? then {inputs[k].rows} else {} => inputs[k].At(row))
  }

  function RowsOf<X>(inputs: seq<Input<X>>, count: nat): (rows: seq<seq<X>>)
    requires AllCover(inputs, count)
    reads set k | 0 <= k < |inputs| && inputs[k].Span? :: inputs[k].rows
    ensures |rows| == count && forall i :: 0 <= i < count ==> rows[i] == RowOf(inputs, i, count)
  {
    seq(count, i requires 0 <= i < count && AllCover(inputs, count)
               reads set k | 0 <= k < |inputs| && inputs[k].Span? :: inputs[k].rows => RowOf(inputs, i, count))
  }

  /** Rows before the failed one hold their mapped value, all others what they held. */
  ghost predicate Prefix<R, T>(map_: R -> Result<T>, input: seq<R>, was: seq<T>, now: seq<T>, rows: nat) {
    && |now| == |was| == |input| && rows <= |input|
    && (forall i :: 0 <= i < rows ==> map_(input[i]).Ok? && now[i] == map_(input[i]).value)
    && (forall i :: rows <= i < |input| ==> now[i] == was[i])
  }

  ghost predicate Transformed<R, T>(map_: R -> Result<T>, input: seq<R>, was: seq<T>, now: seq<T>, outcome: Outcome) {
    match outcome
    case Done => Prefix(map_, input, was, now, |input|)
    case Failed(row, e) => Prefix(map_, input, was, now, row) && row < |input| && map_(input[row]) == Err(e)
  }

  /** A block mapped ahead, written up to its first failure. */
  method CommitBlock<R, T>(output: array<T>, block: seq<Result<T>>, first: nat,
                           ghost map_: R -> Result<T>, ghost source: seq<R>, ghost was: seq<T>) returns (outcome: Outcome)
    requires first + |block| <= output.Length && Prefix(map_, source, was, output[..], first)
    requires forall i :: 0 <= i < |block| ==> block[i] == map_(source[first + i])
    modifies output
    ensures outcome.Done? ==> Prefix(map_, source, was, output[..], first + |block|)
    ensures outcome.Failed? ==> Transformed(map_, source, was, output[..], outcome)
  {
    for lane := 0 to |block|
      invariant Prefix(map_, source, was, output[..], first + lane)
    {
      if block[lane].Err? { return Failed(first + lane, block[lane].error); }
      output[first + lane] := block[lane].value;
    }
    outcome := Done;
  }

  /** Every argument of every row. */
  function Source<X, T>(own: seq<Input<T>>, other: seq<Input<X>>, count: nat): (rows: seq<(seq<T>, seq<X>)>)
    requires AllCover(own, count) && AllCover(other, count)
    reads set k | 0 <= k < |own| && own[k].Span? :: own[k].rows
    reads set k | 0 <= k < |other| && other[k].Span? :: other[k].rows
    ensures |rows| == count && forall i :: 0 <= i < count ==> rows[i] == (RowOf(own, i, count), RowOf(other, i, count))
  {
    var x, y := RowsOf(own, count), RowsOf(other, count);
    seq(count, i requires 0 <= i < count => (x[i], y[i]))
  }

  /** The arguments of the rows from `first` on are still those of the given rows. */
  ghost predicate Unwritten<X>(inputs: seq<Input<X>>, rows: seq<seq<X>>, first: nat, count: nat)
    requires AllCover(inputs, count) && |rows| == count
    reads set k | 0 <= k < |inputs| && inputs[k].Span? :: inputs[k].rows
  {
    forall i | first <= i < count :: |rows[i]| == |inputs| && forall k | 0 <= k < |inputs| :: inputs[k].At(i) == rows[i][k]
  }

  /** evaluate_block: rows mapped ahead of their commits. */
  method EvaluateBlock<X, T>(own: seq<Input<T>>, other: seq<Input<X>>, map_: ((seq<T>, seq<X>)) -> Result<T>,
                             first: nat, size: nat, count: nat) returns (block: seq<Result<T>>)
    requires AllCover(own, count) && AllCover(other, count) && first + size <= count
    ensures |block| == size
    ensures forall i :: 0 <= i < size ==> block[i] == map_((RowOf(own, first + i, count), RowOf(other, first + i, count)))
  {
    block := [];
    for lane := 0 to size
      invariant |block| == lane
      invariant forall i :: 0 <= i < lane ==> block[i] == map_((RowOf(own, first + i, count), RowOf(other, first + i, count)))
    {
      block := block + [map_((RowOf(own, first + lane, count), RowOf(other, first + lane, count)))];
    }
  }

  lemma RowsStay<X>(inputs: seq<Input<X>>, rows: seq<seq<X>>, first: nat, count: nat)
    requires AllCover(inputs, count) && |rows| == count && Unwritten(inputs, rows, first, count)
    ensures forall i :: first <= i < count ==> RowOf(inputs, i, count) == rows[i]
  {
  }

  /** transform: spans and broadcasts of the output's type, which may be the output itself, and
      of any other type. The rows after the last whole block are mapped one at a time. */
  method Transform<X, T>(output: array<T>, own: seq<Input<T>>, other: seq<Input<X>>,
                         map_: ((seq<T>, seq<X>)) -> Result<T>, blockSize: nat) returns (outcome: Outcome)
    requires AllCover(own, output.Length) && AllCover(other, output.Length) && 1 <= blockSize <= 64
    modifies output
    ensures Transformed(map_, old(Source(own, other, output.Length)), old(output[..]), output[..], outcome)
  {
    ghost var source, was := Source(own, other, output.Length), output[..];
    ghost var mine, theirs := RowsOf(own, output.Length), RowsOf(other, output.Length);
    var first, count := 0, output.Length;
    var size := blockSize;
    while first < count
      invariant first <= count && 1 <= size <= blockSize && Prefix(map_, source, was, output[..], first)
      invariant Unwritten(own, mine, first, count) && Unwritten(other, theirs, first, count)
      decreases count - first
    {
      if count - first < blockSize { size := 1; }
      RowsStay(own, mine, first, count);
      RowsStay(other, theirs, first, count);
      var block := EvaluateBlock(own, other, map_, first, size, count);
      outcome := CommitBlock(output, block, first, map_, source, was);
      if outcome.Failed? { return; }
      first := first + size;
    }
    outcome := Done;
  }

  // ----- transform_reduce -----

  function Sum(values: seq<int>): int {
    if values == [] then 0 else Sum(values[..|values| - 1]) + values[|values| - 1]
  }

  /** Every checked prefix sum stays in range. */
  ghost predicate PrefixesFit(initial: int, values: seq<int>, bits: pos)
  {
    forall k :: 0 < k <= |values| ==> Fits(initial + Sum(values[..k]), bits)
  }

  /** The first failing row: its map fails, or adding its value leaves the range. */
  ghost predicate FirstFailure(map_: nat -> Result<int>, initial: int, count: nat, bits: pos, row: nat, e: Error)
  {
    && row < count && (forall i: nat :: i < row ==> map_(i).Ok?)
    && PrefixesFit(initial, ValuesOf(map_, row), bits)
    && (if map_(row).Err? then e == map_(row).error
        else e == Overflow && !Fits(initial + Sum(ValuesOf(map_, row)) + map_(row).value, bits))
  }

  function ValuesOf(map_: nat -> Result<int>, rows: nat): (s: seq<int>)
    ensures |s| == rows
  {
    if rows == 0 then []
    else ValuesOf(map_, rows - 1) + [match map_(rows - 1) case Ok(v) => v case Err(_) => 0]
  }

  function AddCommit(bits: pos): (int, nat, int) -> Step<int>
  {
    (total, row, value) => if Fits(total + value, bits) then Step(total + value, Accepted) else Step(total, Refused(Overflow))
  }

  /** transform_reduce: the accumulator is the state, checked addition the commit. */
  method TransformReduce(map_: nat -> Result<int>, initial: int, count: nat, bits: pos, blockSize: nat)
    returns (total: int, outcome: Outcome)
    requires 1 <= blockSize <= 64
    ensures outcome.Done? ==> (forall i: nat :: i < count ==> map_(i).Ok?)
                              && PrefixesFit(initial, ValuesOf(map_, count), bits)
                              && total == initial + Sum(ValuesOf(map_, count))
    ensures outcome.Failed? ==> FirstFailure(map_, initial, count, bits, outcome.row, outcome.error)
  {
    var rows := (state: int, row: nat) => map_(row);
    total, outcome := ForEach(rows, AddCommit(bits), initial, count, blockSize);
    FoldMeans(map_, rows, initial, initial, 0, count, bits);
  }

  /** The ordered fold, from any row on. */
  lemma {:induction false} FoldMeans(map_: nat -> Result<int>, rows: (int, nat) -> Result<int>,
                                     initial: int, total: int, row: nat, count: nat, bits: nat)
    requires 0 < bits && row <= count && (forall s: int, i: nat :: rows(s, i) == map_(i))
    requires (forall i: nat :: i < row ==> map_(i).Ok?) && PrefixesFit(initial, ValuesOf(map_, row), bits)
    requires total == initial + Sum(ValuesOf(map_, row))
    ensures var r := RowByRow(rows, AddCommit(bits), total, row, count);
            match r.1
            case Done => (forall i: nat :: i < count ==> map_(i).Ok?) && PrefixesFit(initial, ValuesOf(map_, count), bits)
                         && r.0 == initial + Sum(ValuesOf(map_, count))
            case Failed(k, e) => FirstFailure(map_, initial, count, bits, k, e)
    decreases count - row
  {
    hide Fits, Sum, PrefixesFit, ValuesOf;
    if row < count && map_(row).Ok? && Fits(total + map_(row).value, bits) {
      NextPrefix(map_, initial, row, bits);
      FoldMeans(map_, rows, initial, total + map_(row).value, row + 1, count, bits);
    }
  }

  lemma NextPrefix(map_: nat -> Result<int>, initial: int, row: nat, bits: pos)
    requires map_(row).Ok? && PrefixesFit(initial, ValuesOf(map_, row), bits)
    requires Fits(initial + Sum(ValuesOf(map_, row)) + map_(row).value, bits)
    ensures PrefixesFit(initial, ValuesOf(map_, row + 1), bits)
    ensures Sum(ValuesOf(map_, row + 1)) == Sum(ValuesOf(map_, row)) + map_(row).value
  {
    assert ValuesOf(map_, row + 1) == ValuesOf(map_, row) + [map_(row).value];
    hide *;
    SumStep(ValuesOf(map_, row), map_(row).value);
    LongerPrefixes(initial, ValuesOf(map_, row), map_(row).value, bits);
  }

  lemma LongerPrefixes(initial: int, values: seq<int>, x: int, bits: pos)
    requires PrefixesFit(initial, values, bits) && Fits(initial + Sum(values + [x]), bits)
    ensures PrefixesFit(initial, values + [x], bits)
  {
    hide Sum, Fits;
    forall k | 0 < k <= |values + [x]| ensures Fits(initial + Sum((values + [x])[..k]), bits) {
      if k <= |values| {
        assert (values + [x])[..k] == values[..k];
      } else {
        assert (values + [x])[..k] == values + [x];
      }
    }
  }

  lemma SumStep(values: seq<int>, x: int)
    ensures Sum(values + [x]) == Sum(values) + x
  {
    assert (values + [x])[..|values|] == values;
  }
}
