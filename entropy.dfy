/** The run-length coder of `entropy.rs`: `(run, byte)` pairs, runs capped at 255. */
module Entropy {
  import opened Wire
  import opened Errors

  const MAX_RUN: nat := 255

  // ---------------------------------------------------------------------------
  // Specification.
  // ---------------------------------------------------------------------------

  /** The run of `data[i]` that starts at `i`, grown from `run` while the next byte
      repeats it and the run is below 255. */
  function RunFrom(data: Bytes, i: nat, run: nat): (n: nat)
    requires i < |data| && 1 <= run <= MAX_RUN && i + run <= |data|
    ensures run <= n <= MAX_RUN && i + n <= |data|
    decreases MAX_RUN - run
  {
    if i + run < |data| && data[i + run] == data[i] && run < MAX_RUN then RunFrom(data, i, run + 1)
    else run
  }

  /** The run that compress emits for position `i`. */
  function RunAt(data: Bytes, i: nat): (n: nat)
    requires i < |data|
  {
    RunFrom(data, i, 1)
  }

  /** The pairs compress writes for `data[i..]`. */
  function RleFrom(data: Bytes, i: nat): Bytes
    requires i <= |data|
    decreases |data| - i
  {
    if i == |data| then []
    else
      var n := RunAt(data, i);
      [n, data[i]] + RleFrom(data, i + n)
  }

  /** compress(data) */
  function Rle(data: Bytes): Bytes
  {
    RleFrom(data, 0)
  }

  /** `n` copies of `b`. */
  function Repeat(b: byte, n: nat): (r: Bytes)
    ensures |r| == n && forall k :: 0 <= k < n ==> r[k] == b
  {
    if n == 0 then [] else [b] + Repeat(b, n - 1)
  }

  /** Each `(run, byte)` pair expanded to `run` copies of `byte`, in order; a trailing
      odd byte is ignored (decompress rejects odd lengths before expanding). */
  function Expand(pairs: Bytes): Bytes
    decreases |pairs|
  {
    if |pairs| < 2 then [] else Repeat(pairs[1], pairs[0]) + Expand(pairs[2..])
  }

  /** The sum of the run bytes of the pairs: the length of the expansion. */
  function SumRuns(pairs: Bytes): nat
    decreases |pairs|
  {
    if |pairs| < 2 then 0 else pairs[0] + SumRuns(pairs[2..])
  }

  /** decompress(data, original_size); `original_size` is only a capacity hint. */
  function Decode(data: Bytes): Result<Bytes>
  {
    if |data| % 2 != 0 then Err(EntropyError("invalid RLE data")) else Ok(Expand(data))
  }

  // ---------------------------------------------------------------------------
  // Properties.
  // ---------------------------------------------------------------------------

  /** A run covers bytes equal to its first byte, and it stops only at the end of
      the input, at a different byte, or at 255. */
  lemma {:induction false} RunFromSpec(data: Bytes, i: nat, run: nat)
    requires i < |data| && 1 <= run <= MAX_RUN && i + run <= |data|
    requires forall k :: i <= k < i + run ==> data[k] == data[i]
    ensures forall k :: i <= k < i + RunFrom(data, i, run) ==> data[k] == data[i]
    ensures var n := RunFrom(data, i, run);
      n == MAX_RUN || i + n == |data| || data[i + n] != data[i]
    decreases MAX_RUN - run
  {
    if i + run < |data| && data[i + run] == data[i] && run < MAX_RUN {
      RunFromSpec(data, i, run + 1);
    }
  }

  /** The run at `i` is exactly as long as the maximal repetition, capped at 255. */
  lemma RunAtSpec(data: Bytes, i: nat)
    requires i < |data|
    ensures 1 <= RunAt(data, i) <= MAX_RUN && i + RunAt(data, i) <= |data|
    ensures forall k :: i <= k < i + RunAt(data, i) ==> data[k] == data[i]
    ensures var n := RunAt(data, i);
      n == MAX_RUN || i + n == |data| || data[i + n] != data[i]
  {
    RunFromSpec(data, i, 1);
  }

  /** The output is a sequence of pairs, every run in 1..255. */
  lemma {:induction false} RleShape(data: Bytes, i: nat)
    requires i <= |data|
    ensures |RleFrom(data, i)| % 2 == 0
    ensures forall j :: 0 <= j < |RleFrom(data, i)| && j % 2 == 0 ==> 1 <= RleFrom(data, i)[j] <= MAX_RUN
    ensures |RleFrom(data, i)| == 0 <==> i == |data|
    decreases |data| - i
  {
    if i < |data| {
      var n := RunAt(data, i);
      RunAtSpec(data, i);
      RleShape(data, i + n);
      var r := RleFrom(data, i);
      var rest := RleFrom(data, i + n);
      assert r == [n, data[i]] + rest;
      forall j | 0 <= j < |r| && j % 2 == 0
        ensures 1 <= r[j] <= MAX_RUN
      {
        if j >= 2 {
          assert r[j] == rest[j - 2];
        }
      }
    }
  }

  /** Runs are maximal: two adjacent pairs carry the same byte only when the first
      run is 255. */
  lemma {:induction false} RleMaximal(data: Bytes, i: nat)
    requires i <= |data|
    ensures forall j :: 0 <= j && j + 3 < |RleFrom(data, i)| && j % 2 == 0
                        && RleFrom(data, i)[j + 1] == RleFrom(data, i)[j + 3]
                        ==> RleFrom(data, i)[j] == MAX_RUN
    decreases |data| - i
  {
    if i < |data| {
      var n := RunAt(data, i);
      RunAtSpec(data, i);
      RleMaximal(data, i + n);
      var r := RleFrom(data, i);
      var rest := RleFrom(data, i + n);
      assert r == [n, data[i]] + rest;
      forall j | 0 <= j && j + 3 < |r| && j % 2 == 0 && r[j + 1] == r[j + 3]
        ensures r[j] == MAX_RUN
      {
        if j == 0 {
          assert rest == RleFrom(data, i + n) && i + n < |data|;
          assert rest[1] == data[i + n];
        } else {
          assert r[j] == rest[j - 2] && r[j + 1] == rest[j - 1] && r[j + 3] == rest[j + 1];
        }
      }
    }
  }

  /** Expanding the pairs for `data[i..]` gives back `data[i..]`. */
  lemma {:induction false} ExpandRle(data: Bytes, i: nat)
    requires i <= |data|
    ensures Expand(RleFrom(data, i)) == data[i..]
    decreases |data| - i
  {
    if i < |data| {
      var n := RunAt(data, i);
      RunSlice(data, i);
      ExpandRle(data, i + n);
      ExpandRleStep(data, i);
      SliceAt(data, i, i + n);
      Rejoin(Expand(RleFrom(data, i)), Repeat(data[i], n), Expand(RleFrom(data, i + n)),
        data[i..], data[i..i + n], data[i + n..]);
    }
  }

  /** The run at `i` is `n` copies of its first byte. */
  lemma RunSlice(data: Bytes, i: nat)
    requires i < |data|
    ensures 1 <= RunAt(data, i) && i + RunAt(data, i) <= |data|
    ensures Repeat(data[i], RunAt(data, i)) == data[i..i + RunAt(data, i)]
  {
    RunAtSpec(data, i);
  }

  /** Expanding the pairs from `i`: the first run, then the pairs after it. */
  lemma ExpandRleStep(data: Bytes, i: nat)
    requires i < |data|
    ensures Expand(RleFrom(data, i)) == Repeat(data[i], RunAt(data, i)) + Expand(RleFrom(data, i + RunAt(data, i)))
  {
    var n := RunAt(data, i);
    ExpandCons(n, data[i], RleFrom(data, i + n));
  }

  lemma ExpandCons(n: byte, b: byte, rest: Bytes)
    ensures Expand([n, b] + rest) == Repeat(b, n) + Expand(rest)
  {
    assert ([n, b] + rest)[2..] == rest;
  }

  lemma SliceAt(data: Bytes, i: nat, j: nat)
    requires i <= j <= |data|
    ensures data[i..] == data[i..j] + data[j..]
  {
  }

  /** decompress(compress(d), d.len()) == d. */
  lemma RoundTrip(data: Bytes)
    ensures Decode(Rle(data)) == Ok(data)
  {
    RleShape(data, 0);
    ExpandRle(data, 0);
  }

  /** compress of the empty input is empty, and only of the empty input. */
  lemma RleEmpty(data: Bytes)
    ensures Rle(data) == [] <==> data == []
  {
    RleShape(data, 0);
  }

  /** decompress fails exactly on odd lengths, and otherwise yields as many bytes
      as the runs add up to. */
  lemma DecodeSpec(data: Bytes)
    ensures Decode(data).Err? <==> |data| % 2 == 1
    ensures Decode(data).Ok? ==> |Decode(data).value| == SumRuns(data)
  {
    ExpandLength(data);
  }

  lemma {:induction false} ExpandLength(pairs: Bytes)
    ensures |Expand(pairs)| == SumRuns(pairs)
    decreases |pairs|
  {
    if |pairs| >= 2 {
      ExpandLength(pairs[2..]);
    }
  }

  // ---------------------------------------------------------------------------
  // The two directions as the source runs them.
  // ---------------------------------------------------------------------------

  /** The inner loop of compress: grow the run while the next byte repeats the
      first and the run is below 255. */
  method MeasureRun(data: Bytes, i: nat) returns (run: nat)
    requires i < |data|
    ensures run == RunAt(data, i)
  {
    var b := data[i];
    run := 1;
    while i + run < |data| && data[i + run] == b && run < MAX_RUN
      invariant 1 <= run <= MAX_RUN && i + run <= |data|
      invariant RunFrom(data, i, run) == RunAt(data, i)
      decreases MAX_RUN - run
    {
      run := run + 1;
    }
  }

  /** compress: for each position, measure the run, push `run` and the byte, and
      skip the run. */
  method Compress(data: Bytes) returns (r: Result<Bytes>)
    ensures r == Ok(Rle(data))
  {
    var output: Bytes := [];
    var i := 0;
    while i < |data|
      invariant i <= |data|
      invariant output + RleFrom(data, i) == Rle(data)
      decreases |data| - i
    {
      var b := data[i];
      var run := MeasureRun(data, i);
      RleCons(data, i);
      MoveHead(output, [run, b], RleFrom(data, i + run), RleFrom(data, i), Rle(data));
      output := output + [run, b];
      i := i + run;
    }
    assert output + [] == output;
    r := Ok(output);
  }

  /** The pairs for `data[i..]`: the pair for the run at `i`, then the rest. */
  lemma RleCons(data: Bytes, i: nat)
    requires i < |data|
    ensures RleFrom(data, i) == [RunAt(data, i), data[i]] + RleFrom(data, i + RunAt(data, i))
  {
  }

  /** The inner loop of decompress: push `run` copies of `b`. */
  method PushRun(output: Bytes, b: byte, run: nat) returns (out: Bytes)
    ensures out == output + Repeat(b, run)
  {
    out := output;
    var k := 0;
    while k < run
      invariant k <= run
      invariant out == output + Repeat(b, k)
    {
      RepeatSnoc(b, k);
      out := out + [b];
      k := k + 1;
    }
  }

  /** decompress: reject odd lengths, then expand each `(run, byte)` pair. */
  method Decompress(data: Bytes, originalSize: nat) returns (r: Result<Bytes>)
    ensures r == Decode(data)
  {
    if |data| % 2 != 0 {
      return Err(EntropyError("invalid RLE data"));
    }
    ghost var pairs := |data| / 2;
    ghost var k := 0;
    var output: Bytes := [];
    var i := 0;
    while i < |data|
      invariant i == 2 * k && k <= pairs && |data| == 2 * pairs
      invariant output + Expand(data[i..]) == Expand(data)
      decreases |data| - i
    {
      var run := data[i] as nat;
      var b := data[i + 1];
      ExpandAt(data, i);
      MoveHead(output, Repeat(b, run), Expand(data[i + 2..]), Expand(data[i..]), Expand(data));
      output := PushRun(output, b, run);
      i := i + 2;
      k := k + 1;
    }
    assert output + [] == output;
    return Ok(output);
  }

  /** The pairs from `i` on: the pair at `i`, expanded, then the rest. */
  lemma ExpandAt(data: Bytes, i: nat)
    requires i + 2 <= |data|
    ensures Expand(data[i..]) == Repeat(data[i + 1], data[i]) + Expand(data[i + 2..])
  {
    assert data[i..][2..] == data[i + 2..];
  }

  lemma {:induction false} RepeatSnoc(b: byte, n: nat)
    ensures Repeat(b, n + 1) == Repeat(b, n) + [b]
    decreases n
  {
    if n > 0 {
      RepeatSnoc(b, n - 1);
    }
  }
}
