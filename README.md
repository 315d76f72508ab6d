# Trace-rejection filters of seispy, in Dafny

This project models the quality-control filters of `filter.py`. These functions take an obspy
`Stream` holding one event's seismic traces and shrink it in place:

- `range_filter` drops traces whose great-circle distance header `gcarc` lies outside a closed interval.
- `az_filter` does the same with the azimuth header `az`.
- `kurtosis_filter` drops traces whose kurtosis is NaN. It then drops those whose kurtosis is below `alpha*mean_k`.
- `gimp_filter` forces the survivors to one shape. It drops traces under 100 samples and resamples to 50 Hz. It then drops traces shorter than 80% of the longest or holding a NaN. Finally it cuts every survivor to the shortest remaining length.

## Structure

- `wrappers.dfy` (module `Wrappers`): `Option`, `Result` and `Outcome`. `Result` stands for a value
  or the Python exception raised instead. `Outcome` says whether an in-place filter ran to the end or raised part-way.
- `traces.dfy` (module `Traces`): `Sample` (a real number or NaN) and `Trace`. A trace has an
  identity `id`, its `data`, its sampling rate, `gcarc` and `az`. The class `Stream` keeps its
  traces in a `seq` field. Its `Remove` has the semantics of Python's `list.remove`: drop the first
  equal element. Its `Interpolate` applies a resampling routine to every trace.
- `retain.dfy` (module `Retain`): the removal pass all filters share,
  `for tr in st: if not keep(tr): st.remove(tr)`. The method `Sweep` is proved equal to the
  function `Retained`: the traces satisfying `keep`, in input order. The lemmas give what that
  means: exact membership, an order-preserving subsequence, distinctness kept, idempotence.
- `filter.dfy` (module `Filter`): the four filters, the helpers `max_len`/`min_len`, and the
  properties of each filter as lemmas.

Two assumptions about obspy, whose code is not part of this model, are built in:

- **Snapshot iteration.** obspy's `Stream.__iter__` returns an iterator over a copy of the trace
  list. So each `for tr in st:` loop visits every trace present when the loop starts, even while
  `st.remove(tr)` shrinks the stream. With plain list iteration, the trace after each removed one
  would be skipped, and none of the properties below would hold.
- **Distinct traces.** The traces of a stream are pairwise distinct. `Stream.Valid()` states this
  as distinct `id`s. So `remove(tr)` deletes exactly the visited trace.

Library routines are parameters whose results the model does not compute:

- `scipy.stats.kurtosis` is a `Kurtosis` function from data to `Option<real>`. `None` stands for NaN.
- The interpolation behind `st.interpolate(sampling_rate=50.0)` is a `Resampler`. It maps a trace and a rate to new data. It removes no trace and sets the trace's rate.

The model follows the code in these places, where it behaves differently from what its names and comments suggest:

- **`alpha` in `kurtosis_filter`.** Any supplied `alpha` other than `False` is replaced by 0.5.
  This includes 0 and 0.9. An omitted `alpha` stays `False`, which multiplies as 0, so the default
  threshold is 0 and not 0.5.
- **`mean_k`.** It is `sum(k)/len(st)` taken after the NaN traces are removed. `len(st)` then
  equals the number of values in `k` (`KurtosisValuesMatch`), so `mean_k` is the plain mean of
  the kept values. It is not divided by the original count. When every kurtosis is NaN, this
  division raises ZeroDivisionError.
- **Empty streams in `gimp_filter`.** If pass 1 leaves no trace, `max([])` raises ValueError.
  If pass 2 leaves none, `min([])` does. The model returns `Fail(EmptySequence)` in both cases,
  with the stream as it was at that point.
- **Uniform kurtosis.** When every trace has the same kurtosis, the traces are all kept if that
  value is non-negative (`KurtosisUniformKept`). They are all removed if it is negative
  (`KurtosisUniformNegativeDropped`), whatever `alpha` is: the threshold is then `0.5*mean_k`
  or 0, and both lie above a negative `mean_k`.

## Model

| member | source | states |
|---|---|---|
| `Traces.RemoveFirst` | filter.py:30 | `st.remove(tr)` of a present trace drops its first equal element, so the list gets one shorter. `RemoveFirstAt` states the exact content |
| `Traces.RemoveFirstAt` | filter.py:133-135 | removing a trace that does not occur earlier in the list cuts out exactly that element, so earlier and later traces keep their order |
| `Traces.Stream.Remove` | filter.py:135 | the stream afterwards is the old list without the first element equal to `tr` |
| `Traces.HasNaN` | filter.py:113 | `np.isnan(sum(tr.data))`: summing left to right, with NaN absorbing every later addition, gives NaN exactly when some sample is NaN |
| `Traces.Resampled` | filter.py:106 | interpolation keeps the number of traces and their identities in order, and sets every trace's rate to the requested one |
| `Traces.Stream.Interpolate` | filter.py:106 | `st.interpolate(sampling_rate=...)` replaces each trace's data by its resampled data and removes no trace |
| `Traces.ResampledRate` | filter.py:106 | every trace after `st.interpolate(sampling_rate=50.0)` is sampled at the requested rate |
| `Retain.Retained` | filter.py:133-135 | a removal pass never yields more traces than it was given |
| `Retain.RetainedMembers` | filter.py:133-135 | a trace survives a removal pass if and only if it was in the stream and passes the test |
| `Retain.RetainedEmpty` | filter.py:102-104 | a pass leaves nothing if and only if no trace passes the test |
| `Retain.RetainedAllKept` | filter.py:36-38 | a pass whose test every trace passes leaves the stream unchanged |
| `Retain.RetainedSubsequence` | filter.py:145-147 | a pass only deletes: the survivors, and their ids, are an order-preserving subsequence of the input (nothing added, duplicated or reordered) |
| `Retain.RetainedDistinct` | filter.py:110-114 | pairwise distinct traces stay pairwise distinct after a pass |
| `Retain.RetainedIdempotent` | filter.py:133-135 | running the same pass twice equals running it once |
| `Retain.SweepKeeps` | filter.py:133-134 | visiting a trace the test keeps leaves the stream unchanged |
| `Retain.SweepDrops` | filter.py:133-135 | visiting a trace the test rejects finds it in the current stream, and `remove` deletes exactly that trace |
| `Retain.Sweep` | filter.py:133-135 | the snapshot loop leaves exactly `Retained(keep, old stream)` and keeps the traces distinct |
| `Filter.InRange` | filter.py:134 | the test of `range_filter` includes both bounds, and a reversed tuple (`range_tuple[0] > range_tuple[1]`) lets no trace through |
| `Filter.AzInRange` | filter.py:146 | the test of `az_filter` includes both bounds, and a reversed tuple lets no trace through |
| `Filter.RangeFilter` | filter.py:124-137 | `range_filter` leaves exactly the traces that pass `range_tuple[0] <= gcarc <= range_tuple[1]`, in input order |
| `Filter.AzFilter` | filter.py:139-149 | `az_filter` leaves exactly the traces that pass `az_tuple[0] <= az <= az_tuple[1]`, in input order |
| `Filter.RangeFilterKeepsExactly` | filter.py:133-137 | a trace survives `range_filter` iff it was in the input and its `gcarc` lies in the closed interval, both bounds kept. The result is an order-preserving subsequence, and filtering twice with the same tuple equals filtering once |
| `Filter.AzFilterKeepsExactly` | filter.py:145-149 | the same for `az_filter`, with `az` and `az_tuple` |
| `Filter.AlphaFactor` | filter.py:22-24 | the factor in `alpha*mean_k` is 0.5 whenever `alpha` is supplied with any value other than `False`, and 0 otherwise |
| `Filter.KurtosisDefined` | filter.py:29-31 | the first loop keeps a trace exactly when its kurtosis is not NaN |
| `Filter.KurtosisAtLeast` | filter.py:37-38 | the second loop keeps a numeric kurtosis exactly when it is `>= alpha*mean_k`. A NaN kurtosis is never removed there, because `NaN < x` is false |
| `Filter.KurtosisValues` | filter.py:26-33 | the list `k` has at most one value per trace, and is empty when every kurtosis is NaN |
| `Filter.SumConstant` | filter.py:34 | `sum(k)` of `n` copies of `v` is `n*v` |
| `Filter.Mean` | filter.py:34 | `sum(k)/len(st)` raises ZeroDivisionError exactly when the stream is empty |
| `Filter.KurtosisMean` | filter.py:34 | `mean_k = sum(k)/len(st)` raises ZeroDivisionError exactly when the first loop left no trace |
| `Filter.MeanOfConstant` | filter.py:34 | the mean of `n > 0` copies of `v` is `v` |
| `Filter.KurtosisValuesMatch` | filter.py:26-34 | `k` holds one value per trace kept by the NaN pass: that trace's kurtosis, in stream order. So `len(st)` equals `len(k)` when `mean_k` is computed |
| `Filter.DropUndefinedKurtosis` | filter.py:26-33 | the first loop leaves exactly the traces with a non-NaN kurtosis and collects their values in `k` |
| `Filter.KurtosisFilter` | filter.py:17-39 | raises ZeroDivisionError, after removing every trace, when every kurtosis is NaN. Otherwise it leaves the non-NaN traces whose kurtosis is at least `AlphaFactor(alpha)*mean_k`, in input order |
| `Filter.KurtosisSurvivors` | filter.py:29-38 | a trace survives `kurtosis_filter` iff it was in the input and its kurtosis is a number `>= alpha*mean_k`. The survivors are an order-preserving subsequence of the input |
| `Filter.KurtosisMeanFails` | filter.py:26-34 | `mean_k` fails with ZeroDivisionError iff every trace's kurtosis is NaN |
| `Filter.UniformMean` | filter.py:26-34 | with the same kurtosis `v` on every trace, the NaN pass keeps all of them and `mean_k` is `v` |
| `Filter.AllDefinedKept` | filter.py:29-33 | with a numeric kurtosis on every trace, whatever the values, the NaN pass removes nothing |
| `Filter.UniformValues` | filter.py:29-33 | with the same kurtosis `v` on every trace, `k` holds one copy of `v` per trace |
| `Filter.KurtosisUniformKept` | filter.py:36-38 | with the same non-negative kurtosis on every trace, `kurtosis_filter` removes nothing, whatever `alpha` is |
| `Filter.ThresholdAtMost` | filter.py:22-24 | for a non-negative `mean_k`, `alpha*mean_k` (`0.5*mean_k` or 0) is at most `mean_k` |
| `Filter.ThresholdAbove` | filter.py:22-24 | for a negative `mean_k`, `alpha*mean_k` (`0.5*mean_k` or 0) is above `mean_k` |
| `Filter.UniformAllAtLeast` | filter.py:36-38 | with the same kurtosis `v` on every trace, a threshold at or below `v` removes nothing |
| `Filter.UniformNoneAtLeast` | filter.py:36-38 | with the same kurtosis `v` on every trace, a threshold above `v` removes every trace |
| `Filter.UniformNonNegativeAllKept` | filter.py:22-38 | with the same non-negative kurtosis on every trace, both loops together remove nothing, for every `alpha` |
| `Filter.UniformNegativeNoneKept` | filter.py:22-38 | with the same negative kurtosis on every trace, both loops together remove every trace, for every `alpha` |
| `Filter.KurtosisUniformNegativeDropped` | filter.py:22-38 | with the same negative kurtosis on every trace, `mean_k` is that value and `kurtosis_filter` removes every trace, whether `alpha` is supplied or not |
| `Filter.EnoughSamples` | filter.py:103 | the first loop of `gimp_filter` keeps a trace exactly when it has at least 100 samples |
| `Filter.FullAndClean` | filter.py:110-114 | the second loop keeps a trace exactly when it has at least `mx_len*0.8` samples and no NaN |
| `Filter.Lengths` | filter.py:91-93 | the list `a` holds the sample count of every trace, in stream order |
| `Filter.MaxOf` | filter.py:94 | `max(a)` of a non-empty list is one of its elements and at least every element |
| `Filter.MinOf` | filter.py:100 | `min(a)` of a non-empty list is one of its elements and at most every element |
| `Filter.MaxLen` | filter.py:90-94 | `max_len(st)` raises exactly on an empty stream. Otherwise it is the sample count of some trace, at least every trace's count |
| `Filter.MinLen` | filter.py:96-100 | `min_len(st)` raises exactly on an empty stream. Otherwise it is the sample count of some trace, at most every trace's count |
| `Filter.Prefix` | filter.py:120 | `data[0:n]` is the first `min(n, len(data))` samples of `data` |
| `Filter.Truncated` | filter.py:119-120 | the final loop keeps the number of traces and their identities in order |
| `Filter.TruncateAll` | filter.py:119-120 | the final loop replaces each trace's data by its first `mn_len` samples and changes nothing else |
| `Filter.GimpFilter` | filter.py:84-122 | `gimp_filter` raises ValueError when pass 1 leaves no trace, or when pass 2 leaves none. Otherwise it leaves the pass-2 survivors, each cut to `min_len` of them, in order |
| `Filter.GimpFirstPass` | filter.py:102-106 | every trace surviving the first pass had at least 100 samples. Interpolation keeps all of them in order. Nothing survives iff every trace had fewer than 100 samples |
| `Filter.GimpShape` | filter.py:108-120 | on success, every trace has exactly `mn_len` samples: its first `mn_len` resampled samples. No trace contains NaN, every rate is 50 Hz, and `0.8*mx_len <= mn_len <= mx_len`. The final loop keeps the count and order of traces |
| `Filter.LengthBounds` | filter.py:108-117 | `0.8*mx_len <= mn_len <= mx_len`: the shortest survivor of the second loop passed its length test |
| `Filter.TruncatedShape` | filter.py:117-120 | each survivor, cut to `mn_len`, holds exactly its first `mn_len` samples, no NaN, and is sampled at 50 Hz |
| `Filter.ResampledOrigin` | filter.py:102-106 | a trace after the first loop and interpolation has the id of an input trace with at least 100 samples |
| `Filter.GimpOrigins` | filter.py:102-120 | the traces `gimp_filter` returns are, by identity and in order, a subsequence of its input, and each comes from an input trace with at least 100 samples |

## Left out

- `dirty_filter`: it queries the module-level TauP travel-time model and slices traces on absolute `UTCDateTime` windows; the travel-time model and obspy's slicing are not part of this model.
- `interp_filter`: a thin wrapper over obspy's per-trace `interpolate`; resampling itself is a parameter here, not modelled.
- Floating point: kurtosis values, `gcarc`, `az`, `mean_k` and the thresholds are reals. NaN appears only as an explicit `Sample` or a `None` kurtosis. `np.isnan(sum(data))` is modelled as "some sample is NaN", so a sum that overflows to infinities of both signs is not modelled. `mx_len*0.8` is compared exactly, without binary rounding of 0.8.
- `Traces.RemoveFirst`: for a trace that is absent it returns the list unchanged, while Python's `list.remove` raises ValueError. No filter reaches that case, because each removes the trace it is visiting (`Retain.SweepDrops`).
- `Traces.Stream.Remove`: requires the trace to be present; obspy's `list.remove` raises ValueError otherwise, which no filter can trigger because each removes the trace it is visiting.
- obspy `Trace` equality and object identity: traces are values with a distinct `id`; two references to one `Trace` object (aliasing) and equality-based `remove` between traces that compare equal are not modelled.
- The SAC header storage (`tr.stats.sac`) and the sampling-rate bookkeeping of obspy beyond the rate that interpolation sets.
