/**
 Reverberation time (RT60) of a mono sample buffer by Schroeder backward
 integration, as `calculate_rt60` in CSproject/model.py computes it.

 Samples are exact reals. The decibel test `10 * log10(d / peak) <= -60` is
 stated in its equivalent ratio form `d / peak <= 10^-6`, which needs no
 logarithm because the ratio is always positive.
 */
module Rt60 {
  import opened Wrappers
  import opened ArrayOps

  /** The floor added to every point of the decay curve so that no point is zero. */
  const Epsilon: real := 0.0000000001

  /** A drop of 60 dB in power: 10^(-60/10). */
  const Minus60DbRatio: real := 0.000001

  // ---------------------------------------------------------------------------
  // Reference definitions
  // ---------------------------------------------------------------------------

  /** The Schroeder integral of a stretch of samples: the sum of their squares. */
  function Energy(s: seq<real>): (e: real)
    ensures e >= 0.0
  {
    if s == [] then 0.0 else s[0] * s[0] + Energy(s[1..])
  }

  lemma {:induction false} EnergyAppend(a: seq<real>, b: seq<real>)
    ensures Energy(a + b) == Energy(a) + Energy(b)
  {
    if a != [] {
      assert (a + b)[1..] == a[1..] + b;
      EnergyAppend(a[1..], b);
    } else {
      assert a + b == b;
    }
  }

  /** A silent stretch carries no energy. */
  lemma {:induction false} SilenceHasNoEnergy(s: seq<real>)
    requires forall i :: 0 <= i < |s| ==> s[i] == 0.0
    ensures Energy(s) == 0.0
  {
    if s != [] {
      SilenceHasNoEnergy(s[1..]);
    }
  }

  /** Energy remaining from a later sample never exceeds energy remaining from an earlier one. */
  lemma {:induction false} RemainingEnergyNonIncreasing(s: seq<real>, i: nat, j: nat)
    requires i <= j <= |s|
    ensures Energy(s[j..]) <= Energy(s[i..])
    decreases j - i
  {
    if i < j {
      assert s[i..][1..] == s[i + 1..];
      RemainingEnergyNonIncreasing(s, i + 1, j);
    }
  }

  /**
   The point at which the decay has reached -60 dB: the energy remaining
   from sample k on, floored by epsilon, is at most 10^-6 of the floored
   energy of the whole buffer.
   */
  ghost predicate ReachesMinus60Db(audio: seq<real>, k: int)
    requires 0 <= k < |audio|
  {
    Energy(audio[k..]) + Epsilon <= (Energy(audio) + Epsilon) * Minus60DbRatio
  }

  /** k is the earliest sample at which the decay has reached -60 dB. */
  ghost predicate IsFirstCrossing(audio: seq<real>, k: int)
  {
    && 0 <= k < |audio|
    && ReachesMinus60Db(audio, k)
    && forall j :: 0 <= j < k ==> !ReachesMinus60Db(audio, j)
  }

  // ---------------------------------------------------------------------------
  // The routine, step by step
  // ---------------------------------------------------------------------------

  /** `audio ** 2`: the instantaneous energy of each sample. */
  function Square(audio: seq<real>): (r: seq<real>)
    ensures |r| == |audio|
    ensures forall i :: 0 <= i < |audio| ==> r[i] >= 0.0
  {
    seq(|audio|, i requires 0 <= i < |audio| => audio[i] * audio[i])
  }

  lemma {:induction false} SumOfSquaresIsEnergy(s: seq<real>)
    ensures Sum(Square(s)) == Energy(s)
  {
    if s != [] {
      assert forall k :: 0 <= k < |s| - 1 ==> Square(s)[1..][k] == Square(s[1..])[k];
      assert Square(s)[1..] == Square(s[1..]);
      SumOfSquaresIsEnergy(s[1..]);
    }
  }

  /**
   The energy decay curve: the reverse cumulative sum of the squared samples
   plus epsilon. The floor makes every point strictly positive.
   */
  function DecayCurve(audio: seq<real>): (d: seq<real>)
    ensures |d| == |audio|
    ensures forall i :: 0 <= i < |d| ==> d[i] >= Epsilon
  {
    var energy := SuffixSum(Square(audio));
    SuffixSumNonNegative(Square(audio));
    seq(|energy|, i requires 0 <= i < |energy| => energy[i] + Epsilon)
  }

  /** Each point of the decay curve is the energy remaining from that sample on, plus epsilon. */
  lemma DecayCurveAt(audio: seq<real>, i: nat)
    requires i < |audio|
    ensures DecayCurve(audio)[i] == Energy(audio[i..]) + Epsilon
  {
    assert forall k :: 0 <= k < |audio| - i ==> Square(audio)[i..][k] == Square(audio[i..])[k];
    assert Square(audio)[i..] == Square(audio[i..]);
    SumOfSquaresIsEnergy(audio[i..]);
  }

  /** The decay curve never rises, so its maximum sits at the first sample. */
  lemma DecayCurveNonIncreasing(audio: seq<real>, i: nat, j: nat)
    requires i <= j < |audio|
    ensures DecayCurve(audio)[j] <= DecayCurve(audio)[i] <= DecayCurve(audio)[0]
  {
    DecayCurveAt(audio, 0);
    DecayCurveAt(audio, i);
    DecayCurveAt(audio, j);
    RemainingEnergyNonIncreasing(audio, 0, i);
    RemainingEnergyNonIncreasing(audio, i, j);
  }

  /** `np.max(decay_curve)` is the first point of the curve. */
  lemma PeakAtStart(audio: seq<real>)
    requires |audio| >= 1
    ensures SeqMax(DecayCurve(audio)) == DecayCurve(audio)[0]
  {
    var d := DecayCurve(audio);
    var m := SeqMax(d);
    var i :| 0 <= i < |d| && d[i] == m;
    DecayCurveNonIncreasing(audio, i, i);
  }

  /**
   `decay_curve / np.max(decay_curve)`, the argument of the logarithm: every
   value lies in (0, 1], i.e. every dB level is at most 0 dB.
   */
  function PeakRelative(decay: seq<real>): (r: seq<real>)
    requires |decay| >= 1
    requires forall i :: 0 <= i < |decay| ==> decay[i] > 0.0
    ensures |r| == |decay|
    ensures forall i :: 0 <= i < |r| ==> 0.0 < r[i] <= 1.0
  {
    var peak := SeqMax(decay);
    assert peak > 0.0 by {
      var i :| 0 <= i < |decay| && decay[i] == peak;
    }
    assert forall i :: 0 <= i < |decay| ==> 0.0 < decay[i] / peak <= 1.0 by {
      forall i | 0 <= i < |decay| ensures 0.0 < decay[i] / peak <= 1.0 {
        RatioInUnitInterval(decay[i], peak);
      }
    }
    seq(|decay|, i requires 0 <= i < |decay| => decay[i] / peak)
  }

  lemma RatioInUnitInterval(x: real, peak: real)
    requires 0.0 < x <= peak
    ensures 0.0 < x / peak <= 1.0
  {
    assert x / peak * peak == x;
  }

  /** `decay_db <= -60` with `decay_db = 10 * log10(ratio)`, written as `ratio <= 10^-6`. */
  function AtOrBelowMinus60Db(ratio: seq<real>): (mask: seq<bool>)
    ensures |mask| == |ratio|
  {
    seq(|ratio|, i requires 0 <= i < |ratio| => ratio[i] <= Minus60DbRatio)
  }

  /**
   `np.where(decay_db <= -60)[0][0]` when that index list is non-empty, and
   `None` when it is empty.
   */
  function FirstCrossingIndex(audio: seq<real>): (k: Option<nat>)
    requires |audio| >= 1
    ensures k.Some? ==> k.value < |audio|
  {
    var decay := DecayCurve(audio);
    var hits := Where(AtOrBelowMinus60Db(PeakRelative(decay)));
    if |hits| > 0 then Some(hits[0]) else None
  }

  /**
   `np.linspace(0, len(audio) / sample_rate, len(decay_db))`, where the decay
   curve has the buffer's length n: n times from 0 to n / sampleRate.
   */
  function TimeAxis(n: nat, sampleRate: int): (t: seq<real>)
    requires sampleRate != 0
    ensures |t| == n
    ensures n >= 1 ==> t[0] == 0.0
    ensures n >= 2 ==> t[n - 1] == n as real / sampleRate as real
  {
    Linspace(0.0, n as real / sampleRate as real, n)
  }

  /** The k-th of n points spaced evenly from 0 to n / sampleRate, both included. */
  ghost function SpacedTime(n: nat, sampleRate: int, k: nat): real
    requires n >= 2 && sampleRate != 0
  {
    (k as real) * ((n as real / sampleRate as real) / ((n - 1) as real))
  }

  /**
   For two or more samples, entry k of the time axis is k * (n / sampleRate) / (n - 1);
   a one-sample axis is [0].
   */
  lemma TimeAxisAt(n: nat, sampleRate: int, k: nat)
    requires sampleRate != 0 && k < n
    ensures n == 1 ==> TimeAxis(n, sampleRate) == [0.0]
    ensures n >= 2 ==> TimeAxis(n, sampleRate)[k] == SpacedTime(n, sampleRate, k)
  {
    if n >= 2 {
      LinspaceAt(0.0, n as real / sampleRate as real, n, k);
    }
  }

  /** With a positive sample rate the time axis is strictly increasing. */
  lemma TimeAxisIncreasing(n: nat, sampleRate: int, i: nat, j: nat)
    requires sampleRate > 0 && i < j < n
    ensures TimeAxis(n, sampleRate)[i] < TimeAxis(n, sampleRate)[j]
  {
    LinspaceIncreasing(0.0, n as real / sampleRate as real, n, i, j);
  }

  /**
   `calculate_rt60(audio, sample_rate)`: the time of the first -60 dB point,
   or `None` exactly when no sample reaches -60 dB (nothing is raised).
   */
  function CalculateRt60(audio: seq<real>, sampleRate: int): (r: Option<real>)
    requires |audio| >= 1 && sampleRate != 0
    ensures r.None? <==> forall k :: 0 <= k < |audio| ==> !ReachesMinus60Db(audio, k)
  {
    FirstCrossingIndexSpec(audio);
    match FirstCrossingIndex(audio)
    case Some(k) => Some(TimeAxis(|audio|, sampleRate)[k])
    case None => None
  }

  // ---------------------------------------------------------------------------
  // What the routine promises
  // ---------------------------------------------------------------------------

  /** The first point of the level curve is the peak, at exactly 0 dB, so it never passes the -60 dB test. */
  lemma LevelAtStartIsZeroDb(audio: seq<real>)
    requires |audio| >= 1
    ensures PeakRelative(DecayCurve(audio))[0] == 1.0
    ensures !AtOrBelowMinus60Db(PeakRelative(DecayCurve(audio)))[0]
  {
    var d := DecayCurve(audio);
    PeakAtStart(audio);
    assert PeakRelative(d)[0] == d[0] / SeqMax(d);
    SelfRatio(d[0]);
  }

  lemma SelfRatio(x: real)
    requires x > 0.0
    ensures x / x == 1.0
  {
  }

  lemma RatioThreshold(x: real, peak: real, c: real)
    requires peak > 0.0
    ensures x / peak <= c <==> x <= peak * c
  {
    assert x / peak * peak == x;
  }

  /** The vectorised `decay_db <= -60` test holds at i exactly when the decay has reached -60 dB at sample i. */
  lemma MaskMeansMinus60Db(audio: seq<real>, i: nat)
    requires i < |audio|
    ensures AtOrBelowMinus60Db(PeakRelative(DecayCurve(audio)))[i] <==> ReachesMinus60Db(audio, i)
  {
    var d := DecayCurve(audio);
    PeakAtStart(audio);
    DecayCurveAt(audio, 0);
    DecayCurveAt(audio, i);
    assert audio[0..] == audio;
    RatioThreshold(d[i], d[0], Minus60DbRatio);
  }

  /**
   The index the routine picks is the earliest -60 dB point, never the first
   sample; there is no index exactly when no sample reaches -60 dB.
   */
  lemma FirstCrossingIndexSpec(audio: seq<real>)
    requires |audio| >= 1
    ensures FirstCrossingIndex(audio).None? <==> forall k :: 0 <= k < |audio| ==> !ReachesMinus60Db(audio, k)
    ensures FirstCrossingIndex(audio).Some? ==>
      1 <= FirstCrossingIndex(audio).value && IsFirstCrossing(audio, FirstCrossingIndex(audio).value)
  {
    var mask := AtOrBelowMinus60Db(PeakRelative(DecayCurve(audio)));
    forall i | 0 <= i < |audio|
      ensures mask[i] <==> ReachesMinus60Db(audio, i)
    {
      MaskMeansMinus60Db(audio, i);
    }
    WhereFirst(mask);
    LevelAtStartIsZeroDb(audio);
  }

  /**
   A result of `calculate_rt60` is the time-axis value k * (n / sampleRate) / (n - 1)
   of the earliest -60 dB point k, and k is at least 1.
   */
  lemma CalculateRt60IsFirstCrossingTime(audio: seq<real>, sampleRate: int)
    requires |audio| >= 1 && sampleRate != 0
    ensures CalculateRt60(audio, sampleRate).Some? ==>
      exists k :: 1 <= k && IsFirstCrossing(audio, k) &&
        CalculateRt60(audio, sampleRate).value == SpacedTime(|audio|, sampleRate, k)
  {
    FirstCrossingIndexSpec(audio);
    if FirstCrossingIndex(audio).Some? {
      var k := FirstCrossingIndex(audio).value;
      TimeAxisAt(|audio|, sampleRate, k);
      assert CalculateRt60(audio, sampleRate).value == TimeAxis(|audio|, sampleRate)[k];
    }
  }

  lemma TimeAxisBounds(n: nat, sampleRate: int, k: nat)
    requires sampleRate > 0 && 1 <= k < n
    ensures 0.0 < TimeAxis(n, sampleRate)[k] <= n as real / sampleRate as real
  {
    var stop := n as real / sampleRate as real;
    assert stop > 0.0;
    LinspaceBounds(0.0, stop, n, k);
  }

  /** With a positive sample rate a result lies in (0, n / sampleRate]: never at the start, never past the end. */
  lemma Rt60WithinBuffer(audio: seq<real>, sampleRate: int)
    requires |audio| >= 1 && sampleRate > 0
    ensures CalculateRt60(audio, sampleRate).Some? ==>
      0.0 < CalculateRt60(audio, sampleRate).value <= |audio| as real / sampleRate as real
  {
    FirstCrossingIndexSpec(audio);
    if FirstCrossingIndex(audio).Some? {
      var k := FirstCrossingIndex(audio).value;
      TimeAxisBounds(|audio|, sampleRate, k);
      assert CalculateRt60(audio, sampleRate).value == TimeAxis(|audio|, sampleRate)[k];
    }
  }

  /** An all-zero buffer of any length has no -60 dB point: every decay value is epsilon. */
  lemma SilentBufferHasNoRt60(audio: seq<real>, sampleRate: int)
    requires |audio| >= 1 && sampleRate != 0
    requires forall i :: 0 <= i < |audio| ==> audio[i] == 0.0
    ensures CalculateRt60(audio, sampleRate) == None
  {
    SilenceHasNoEnergy(audio);
    forall k | 0 <= k < |audio|
      ensures !ReachesMinus60Db(audio, k)
    {
      SilenceHasNoEnergy(audio[k..]);
    }
    FirstCrossingIndexSpec(audio);
  }

  /** A single-sample buffer has no -60 dB point: its only point is the 0 dB peak. */
  lemma SingleSampleHasNoRt60(x: real, sampleRate: int)
    requires sampleRate != 0
    ensures CalculateRt60([x], sampleRate) == None
  {
    FirstCrossingIndexSpec([x]);
  }

  // ---------------------------------------------------------------------------
  // Trailing silence: the time axis as written, and timed by sample
  // ---------------------------------------------------------------------------

  /** There is at most one earliest -60 dB point. */
  lemma FirstCrossingUnique(audio: seq<real>, k1: int, k2: int)
    requires IsFirstCrossing(audio, k1) && IsFirstCrossing(audio, k2)
    ensures k1 == k2
  {
  }

  /** Trailing silence changes neither the energy remaining before it nor the total, so it moves no -60 dB point. */
  lemma AppendingSilenceKeepsCrossings(audio: seq<real>, silence: seq<real>, j: nat)
    requires j < |audio|
    requires forall i :: 0 <= i < |silence| ==> silence[i] == 0.0
    ensures ReachesMinus60Db(audio + silence, j) <==> ReachesMinus60Db(audio, j)
  {
    SilenceHasNoEnergy(silence);
    assert (audio + silence)[j..] == audio[j..] + silence;
    EnergyAppend(audio[j..], silence);
    EnergyAppend(audio, silence);
  }

  /**
   The same routine with sample k placed at time k / sampleRate, the instant
   at which it was recorded, instead of on the stretched `linspace` axis.
   */
  function CalculateRt60AtSampleTimes(audio: seq<real>, sampleRate: int): (r: Option<real>)
    requires |audio| >= 1 && sampleRate != 0
    ensures r.None? <==> forall k :: 0 <= k < |audio| ==> !ReachesMinus60Db(audio, k)
    ensures r.Some? ==> exists k :: 1 <= k && IsFirstCrossing(audio, k) && r.value == k as real / sampleRate as real
    ensures r.Some? && sampleRate > 0 ==> 0.0 < r.value < |audio| as real / sampleRate as real
  {
    FirstCrossingIndexSpec(audio);
    match FirstCrossingIndex(audio)
    case Some(k) =>
      QuotientBounds(k, |audio|, sampleRate);
      Some(k as real / sampleRate as real)
    case None => None
  }

  lemma QuotientBounds(k: nat, n: nat, sampleRate: int)
    requires 1 <= k < n && sampleRate != 0
    ensures sampleRate > 0 ==> 0.0 < k as real / sampleRate as real < n as real / sampleRate as real
  {
  }

  /**
   Timed by sample, appending silence to a buffer that has an RT60 leaves
   that RT60 unchanged.
   */
  lemma AppendingSilenceKeepsSampleTimedRt60(audio: seq<real>, silence: seq<real>, sampleRate: int)
    requires |audio| >= 1 && sampleRate != 0
    requires forall i :: 0 <= i < |silence| ==> silence[i] == 0.0
    requires CalculateRt60AtSampleTimes(audio, sampleRate).Some?
    ensures CalculateRt60AtSampleTimes(audio + silence, sampleRate) == CalculateRt60AtSampleTimes(audio, sampleRate)
  {
    var padded := audio + silence;
    FirstCrossingIndexSpec(audio);
    FirstCrossingIndexSpec(padded);
    var k := FirstCrossingIndex(audio).value;
    forall j | 0 <= j < |audio|
      ensures ReachesMinus60Db(padded, j) <==> ReachesMinus60Db(audio, j)
    {
      AppendingSilenceKeepsCrossings(audio, silence, j);
    }
    assert IsFirstCrossing(padded, k);
    FirstCrossingUnique(padded, k, FirstCrossingIndex(padded).value);
  }

  /**
   On the `linspace` axis the same crossing is reported at different times
   once silence is appended: [1, 0] at 1 Hz gives 2.0 s and [1, 0, 0] gives
   1.5 s, although in both the energy has fallen by 60 dB at sample 1, which
   was recorded at 1.0 s, the value the sample-timed routine reports.
   */
  lemma AppendingSilenceMovesLinspaceRt60()
    ensures CalculateRt60([1.0, 0.0], 1) == Some(2.0)
    ensures CalculateRt60([1.0, 0.0, 0.0], 1) == Some(1.5)
    ensures CalculateRt60AtSampleTimes([1.0, 0.0], 1) == Some(1.0)
    ensures CalculateRt60AtSampleTimes([1.0, 0.0, 0.0], 1) == Some(1.0)
  {
    var a2 := [1.0, 0.0];
    var a3 := [1.0, 0.0, 0.0];
    ImpulseCrossesAtSecondSample(a2);
    ImpulseCrossesAtSecondSample(a3);
    TimeAxisAt(2, 1, 1);
    TimeAxisAt(3, 1, 1);
  }

  /** A unit impulse followed by silence reaches -60 dB at sample 1. */
  lemma ImpulseCrossesAtSecondSample(audio: seq<real>)
    requires |audio| >= 2 && audio[0] == 1.0
    requires forall i :: 1 <= i < |audio| ==> audio[i] == 0.0
    ensures FirstCrossingIndex(audio) == Some(1)
  {
    SilenceHasNoEnergy(audio[1..]);
    assert Energy(audio) == 1.0;
    FirstCrossingIndexSpec(audio);
    assert ReachesMinus60Db(audio, 1);
    assert IsFirstCrossing(audio, 1);
    FirstCrossingUnique(audio, 1, FirstCrossingIndex(audio).value);
  }
}
