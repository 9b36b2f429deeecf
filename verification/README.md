# RT60 decay analysis

A Dafny model of `calculate_rt60` from the SPIDAM project (CSproject/model.py),
which estimates the reverberation time of a mono sample buffer by Schroeder
backward integration:

1. square every sample;
2. take the reverse cumulative sum (`np.cumsum(x[::-1])[::-1]`), the energy
   remaining from each sample to the end;
3. add the fixed floor `epsilon = 1e-10` to every point;
4. express the curve relative to its own maximum, in decibels;
5. lay a time axis `np.linspace(0, len / sample_rate, len)` beside it;
6. report the time of the first point at or below -60 dB, or `None`.

Samples are exact reals (`seq<real>`), the result is `Option<real>`, and
`epsilon` is exactly 1/10^10. The decibel test `10 * log10(d / peak) <= -60` is
written as the equivalent `d / peak <= 10^-6`; the ratio is always positive
because of the floor, so no logarithm is needed.

Files:

- `wrappers.dfy`: `Option`, standing for Python's `None` or a value.
- `array_ops.dfy`: the numpy primitives the routine uses: `Sum`, `Reverse`
  (`[::-1]`), `CumSum` (`np.cumsum`), `SuffixSum`, `SeqMax` (`np.max`),
  `Linspace` (`np.linspace`) and `Where` (`np.where(mask)[0]`).
- `rt60.dfy`: the routine step by step (`Square`, `DecayCurve`, `PeakRelative`,
  `AtOrBelowMinus60Db`, `FirstCrossingIndex`, `TimeAxis`, `CalculateRt60`), an
  independent reference (`Energy`, the sum of squares, and `ReachesMinus60Db`,
  "remaining energy plus epsilon is at most 10^-6 of total energy plus
  epsilon"), and the lemmas that connect the two.

Preconditions are the ones the code itself imposes: the buffer is non-empty
(`np.max` of an empty array raises) and the sample rate is non-zero (the
division `len(audio) / sample_rate` raises on zero). Results about the range of
the returned time also assume a positive sample rate.

## Model

| member | source | states |
|---|---|---|
| `ArrayOps.Reverse` | CSproject/model.py:31 | `[::-1]` keeps the length and puts element \|s\|-1-k at position k |
| `ArrayOps.CumSum` | CSproject/model.py:31 | `np.cumsum` keeps the length and its entry k is the sum of the first k+1 elements |
| `ArrayOps.SuffixSum` | CSproject/model.py:31 | `np.cumsum(x[::-1])[::-1]` keeps the length and its entry i is the sum of all elements from i to the end |
| `ArrayOps.SuffixSumNonNegative` | CSproject/model.py:30-31 | the reverse cumulative sum of non-negative energies is non-negative |
| `ArrayOps.SeqMax` | CSproject/model.py:37 | `np.max` returns an element of the array that no element exceeds |
| `ArrayOps.Linspace` | CSproject/model.py:40 | `np.linspace` has `num` values, starts at `start` and, with two or more values, ends exactly at `stop` |
| `ArrayOps.LinspaceIncreasing` | CSproject/model.py:40 | a `np.linspace` from `start` up to a larger `stop` is strictly increasing |
| `ArrayOps.LinspaceBounds` | CSproject/model.py:40 | every value of an increasing `np.linspace` lies between its endpoints, and every value after the first lies strictly above `start` |
| `ArrayOps.Where` | CSproject/model.py:42 | `np.where(mask)[0]` lists exactly the indices where the mask holds, in strictly increasing order |
| `Rt60.Energy` | CSproject/model.py:30-31 | the energy of a stretch of samples (sum of squares) is non-negative |
| `Rt60.RemainingEnergyNonIncreasing` | CSproject/model.py:31 | energy remaining from a later sample never exceeds energy remaining from an earlier one |
| `Rt60.Square` | CSproject/model.py:30 | squaring keeps the length and every energy is non-negative |
| `Rt60.DecayCurve` | CSproject/model.py:30-34 | the decay curve has the buffer's length and every point is at least epsilon, so the later division never divides by zero |
| `Rt60.DecayCurveAt` | CSproject/model.py:30-34 | point i of the decay curve is the sum of `audio[j]^2` for j >= i, plus epsilon |
| `Rt60.DecayCurveNonIncreasing` | CSproject/model.py:31-34 | the decay curve never rises with the index, and no point exceeds the first |
| `Rt60.PeakAtStart` | CSproject/model.py:31-37 | `np.max(decay_curve)` equals the first point of the curve |
| `Rt60.PeakRelative` | CSproject/model.py:37 | every value of `decay_curve / np.max(decay_curve)` lies in (0, 1]: every dB level is at most 0 dB and finite |
| `Rt60.LevelAtStartIsZeroDb` | CSproject/model.py:37-42 | the first point of the level curve is exactly 0 dB, so it never passes the -60 dB test |
| `Rt60.MaskMeansMinus60Db` | CSproject/model.py:37-42 | the vectorised `decay_db <= -60` test holds at i exactly when the remaining energy at i is at most 10^-6 of the total (both plus epsilon) |
| `Rt60.FirstCrossingIndex` | CSproject/model.py:42-45 | the picked index, when there is one, is an index of the buffer |
| `Rt60.FirstCrossingIndexSpec` | CSproject/model.py:42-50 | no index is picked exactly when no sample reaches -60 dB; a picked index is the earliest -60 dB point and is at least 1 |
| `Rt60.TimeAxis` | CSproject/model.py:40 | the time axis has one entry per sample, starts at 0 and, with two or more samples, ends exactly at len(audio) / sample_rate |
| `Rt60.TimeAxisIncreasing` | CSproject/model.py:40 | with a positive sample rate the time axis is strictly increasing |
| `Rt60.AtOrBelowMinus60Db` | CSproject/model.py:37-42 | the `decay_db <= -60` test yields one flag per point of the level curve; which flags are set is stated by `Rt60.MaskMeansMinus60Db` |
| `Rt60.CalculateRt60` | CSproject/model.py:28-50 | `calculate_rt60` returns `None` if and only if no sample reaches -60 dB relative to the total energy; there is no other failure outcome and nothing is raised |
| `Rt60.CalculateRt60IsFirstCrossingTime` | CSproject/model.py:40-47 | a returned time is the time-axis value of the earliest -60 dB point k, with k >= 1, and no earlier point reaches -60 dB |
| `Rt60.Rt60WithinBuffer` | CSproject/model.py:40-45 | with a positive sample rate a returned time t satisfies 0 < t <= len(audio) / sample_rate |
| `Rt60.SilentBufferHasNoRt60` | CSproject/model.py:33-50 | an all-zero buffer of any length returns `None` |
| `Rt60.SingleSampleHasNoRt60` | CSproject/model.py:37-50 | a one-sample buffer always returns `None` |
| `Rt60.AppendingSilenceKeepsCrossings` | CSproject/model.py:30-37 | appending zero samples moves no -60 dB point within the original buffer |
| `Rt60.AppendingSilenceMovesLinspaceRt60` | CSproject/model.py:40-45 | as written, [1, 0] at 1 Hz returns 2.0 s and [1, 0, 0] returns 1.5 s, though both cross at sample 1, recorded at 1.0 s |
| `Rt60.CalculateRt60AtSampleTimes` | CSproject/model.py:40-45 | with sample k placed at k / sample_rate: returns `None` if and only if no sample reaches -60 dB; otherwise returns k / sample_rate for the earliest -60 dB point k, which is at least 1; with a positive rate the time lies strictly inside (0, len(audio) / sample_rate) |
| `Rt60.AppendingSilenceKeepsSampleTimedRt60` | CSproject/model.py:40-45 | with sample k placed at k / sample_rate, appending silence to a buffer that has an RT60 leaves the RT60 unchanged |

## Left out

- `load_audio` (CSproject/model.py:10-18): file decoding through librosa, a foreign call; the model starts from a decoded buffer and sample rate.
- `clean_audio` (CSproject/model.py:22-24): it returns its argument unchanged, so there is nothing to state about it.
- The `print` calls and the `__main__` block (CSproject/model.py:46, 49, 52-61): diagnostic output with no contract.
- CSproject/view.py, CSproject/controller.py and CSproject/main.py: user interface, plotting and wiring between view and model, not part of the analysis.
- The per-band analyser (low / mid / high band-pass filtering): no code for it exists in the repository, so there is nothing to model.
- IEEE floating-point rounding and `log10` itself: the model uses exact reals and the equivalent ratio test; results that depend on rounding near the -60 dB boundary are not captured.
- A negative sample rate is accepted as in the code (the time axis then runs to a negative end point); only the range results assume a positive rate.

## Findings

| source | as written | input that shows it | evidently intended | confidence | as-written member | corrected member |
|---|---|---|---|---|---|---|
| CSproject/model.py:40 | `np.linspace(0, len(audio) / sample_rate, len(decay_db))` (with `len(decay_db) == len(audio)`) puts sample k at k * n / ((n - 1) * sample_rate), stretching the time axis by n / (n - 1); the reported RT60 then depends on the buffer length, and appending silence changes it | [1, 0] at 1 Hz returns 2.0 s; [1, 0, 0] at 1 Hz returns 1.5 s; in both the -60 dB point is sample 1, recorded at 1.0 s | sample k at time k / sample_rate, so that trailing silence leaves the RT60 unchanged | medium (not executed; the stretch is small for long buffers) | `Rt60.AppendingSilenceMovesLinspaceRt60` | `Rt60.AppendingSilenceKeepsSampleTimedRt60` |
