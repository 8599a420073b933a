/** What a hot worker computes each tick: the declarative pipeline and the manual loop agree. */
module Workload {
  const MAX_OUT_SAMPLES: nat := 8
  const SN_THRESHOLD: nat := 96
  const CALIB_GAIN: int := 131

  type Int16 = x: int | -0x8000 <= x < 0x8000
  type Int32 = x: int | -0x8000_0000 <= x < 0x8000_0000

  datatype RawSample = RawSample(channel: nat, value: Int16, signalToNoise: nat)

  /** The shift of a negative product rounds down; the result never needs narrowing. */
  function Calibrate(value: Int16): (r: Int32)
    ensures 256 * r <= 131 * value < 256 * r + 256
  {
    value * CALIB_GAIN / 256
  }

  // ----- the pipeline: filter, then transform, then take -----

  function Filtered(samples: seq<RawSample>): seq<RawSample> {
    if samples == [] then []
    else
      var last := samples[|samples| - 1];
      Filtered(samples[..|samples| - 1]) + (if last.signalToNoise >= SN_THRESHOLD then [last] else [])
  }

  function Transformed(samples: seq<RawSample>): (r: seq<Int32>)
    ensures |r| == |samples| && forall i | 0 <= i < |r| :: r[i] == Calibrate(samples[i].value)
  {
    seq(|samples|, i requires 0 <= i < |samples| => Calibrate(samples[i].value))
  }

  function Taken(values: seq<Int32>): seq<Int32> {
    if |values| <= MAX_OUT_SAMPLES then values else values[..MAX_OUT_SAMPLES]
  }

  function Pipeline(samples: seq<RawSample>): seq<Int32> {
    Taken(Transformed(Filtered(samples)))
  }

  lemma FilteredSnoc(samples: seq<RawSample>, i: nat)
    requires i < |samples|
    ensures Filtered(samples[..i + 1]) ==
            Filtered(samples[..i]) + (if samples[i].signalToNoise >= SN_THRESHOLD then [samples[i]] else [])
  {
    assert samples[..i + 1][..i] == samples[..i];
  }

  lemma {:induction false} FilteredPrefix(samples: seq<RawSample>, i: nat)
    requires i <= |samples|
    ensures Filtered(samples[..i]) <= Filtered(samples)
    decreases |samples| - i
  {
    if i < |samples| {
      FilteredSnoc(samples, i);
      FilteredPrefix(samples, i + 1);
    } else {
      assert samples[..i] == samples;
    }
  }

  /** The samples at the given indexes, in order, are those of the first n with a ratio of at least 96. */
  ghost predicate Picks(samples: seq<RawSample>, picks: seq<nat>, n: nat)
    requires n <= |samples|
  {
    && (forall i, j | 0 <= i < j < |picks| :: picks[i] < picks[j])
    && (forall i | 0 <= i < |picks| :: picks[i] < n)
    && forall k | 0 <= k < n :: k in picks <==> samples[k].signalToNoise >= 96
  }

  lemma {:induction false} FilteredPicks(samples: seq<RawSample>) returns (picks: seq<nat>)
    ensures Picks(samples, picks, |samples|) && |Filtered(samples)| == |picks|
    ensures forall i | 0 <= i < |picks| :: Filtered(samples)[i] == samples[picks[i]]
    decreases |samples|
  {
    if samples == [] {
      picks := [];
    } else {
      var last := |samples| - 1;
      var before := FilteredPicks(samples[..last]);
      picks := before + if samples[last].signalToNoise >= 96 then [last] else [];
      forall k | 0 <= k < |samples|
        ensures k in picks <==> samples[k].signalToNoise >= 96
      {
        if k < last {
          assert samples[..last][k] == samples[k];
        }
      }
    }
  }

  /**
   The pipeline's values are those of the first eight samples with a ratio of at least 96, in order, each
   times 131 and divided by 256, rounded down.
   */
  lemma PipelinePicks(samples: seq<RawSample>) returns (picks: seq<nat>)
    ensures Picks(samples, picks, |samples|)
    ensures |Pipeline(samples)| == if |picks| <= 8 then |picks| else 8
    ensures forall i | 0 <= i < |Pipeline(samples)| ::
              var v: int := Pipeline(samples)[i]; 256 * v <= 131 * samples[picks[i]].value < 256 * v + 256
  {
    picks := FilteredPicks(samples);
  }

  /**
   The manual loop, which stops early once its output is full, leaves the pipeline's values in order at
   the front of the output, and zeros behind them.
   */
  method ProcessManual(samples: seq<RawSample>) returns (values: array<Int32>, count: nat)
    ensures fresh(values) && values.Length == MAX_OUT_SAMPLES && count <= MAX_OUT_SAMPLES
    ensures values[..count] == Pipeline(samples)
    ensures forall j | count <= j < MAX_OUT_SAMPLES :: values[j] == 0
  {
    values := new Int32[MAX_OUT_SAMPLES](_ => 0);
    count := 0;
    var i := 0;
    while i < |samples| && count < MAX_OUT_SAMPLES
      invariant i <= |samples| && count <= MAX_OUT_SAMPLES
      invariant values[..count] == Transformed(Filtered(samples[..i]))
      invariant forall j | count <= j < MAX_OUT_SAMPLES :: values[j] == 0
    {
      FilteredSnoc(samples, i);
      if samples[i].signalToNoise >= SN_THRESHOLD {
        values[count] := Calibrate(samples[i].value);
        count := count + 1;
      }
      i := i + 1;
    }
    assert samples[..|samples|] == samples;
    FilteredPrefix(samples, i);
  }
}
