/**
 * The trace-rejection filters of `filter.py`: `kurtosis_filter`,
 * `gimp_filter` (with its helpers `max_len` and `min_len`), `range_filter`
 * and `az_filter`. Each one shrinks a `Stream` in place with the snapshot
 * removal pass of module `Retain`.
 */
module Filter {
  import opened Wrappers
  import opened Traces
  import opened Retain

  /** The Python exceptions the filters can raise. */
  datatype FilterError =
    | EmptySequence   // ValueError from `max([])` or `min([])`
    | ZeroDivision    // ZeroDivisionError from `sum(k)/len(st)`

  // ---------------------------------------------------------------------
  // range_filter and az_filter
  // ---------------------------------------------------------------------

  /** `range_tuple[0] <= gcarc <= range_tuple[1]`, both bounds included. */
  function InRange(rangeTuple: (real, real)): (keep: Trace -> bool)
    ensures forall t: Trace :: keep(t) ==> rangeTuple.0 <= rangeTuple.1
    ensures forall t: Trace :: rangeTuple.0 <= rangeTuple.1 && (t.gcarc == rangeTuple.0 || t.gcarc == rangeTuple.1) ==> keep(t)
  {
    (t: Trace) => rangeTuple.0 <= t.gcarc <= rangeTuple.1
  }

  /** `az_tuple[0] <= az <= az_tuple[1]`, both bounds included. */
  function AzInRange(azTuple: (real, real)): (keep: Trace -> bool)
    ensures forall t: Trace :: keep(t) ==> azTuple.0 <= azTuple.1
    ensures forall t: Trace :: azTuple.0 <= azTuple.1 && (t.az == azTuple.0 || t.az == azTuple.1) ==> keep(t)
  {
    (t: Trace) => azTuple.0 <= t.az <= azTuple.1
  }

  method RangeFilter(st: Stream, rangeTuple: (real, real))
    requires st.Valid()
    modifies st
    ensures st.Valid()
    ensures st.traces == Retained(InRange(rangeTuple), old(st.traces))
  {
    Sweep(st, InRange(rangeTuple));
  }

  method AzFilter(st: Stream, azTuple: (real, real))
    requires st.Valid()
    modifies st
    ensures st.Valid()
    ensures st.traces == Retained(AzInRange(azTuple), old(st.traces))
  {
    Sweep(st, AzInRange(azTuple));
  }

  /**
   * `range_filter` keeps exactly the traces whose `gcarc` lies in the closed
   * interval, in input order, and running it again removes nothing more.
   */
  lemma RangeFilterKeepsExactly(ts: seq<Trace>, rangeTuple: (real, real))
    ensures forall t: Trace :: t in Retained(InRange(rangeTuple), ts) <==>
      t in ts && rangeTuple.0 <= t.gcarc <= rangeTuple.1
    ensures SubsequenceOf(Retained(InRange(rangeTuple), ts), ts)
    ensures Retained(InRange(rangeTuple), Retained(InRange(rangeTuple), ts)) == Retained(InRange(rangeTuple), ts)
  {
    RetainedMembers(InRange(rangeTuple), ts);
    RetainedSubsequence(InRange(rangeTuple), ts);
    RetainedIdempotent(InRange(rangeTuple), ts);
  }

  /** `az_filter` keeps exactly the traces whose `az` lies in the closed interval, in input order. */
  lemma AzFilterKeepsExactly(ts: seq<Trace>, azTuple: (real, real))
    ensures forall t: Trace :: t in Retained(AzInRange(azTuple), ts) <==>
      t in ts && azTuple.0 <= t.az <= azTuple.1
    ensures SubsequenceOf(Retained(AzInRange(azTuple), ts), ts)
    ensures Retained(AzInRange(azTuple), Retained(AzInRange(azTuple), ts)) == Retained(AzInRange(azTuple), ts)
  {
    RetainedMembers(AzInRange(azTuple), ts);
    RetainedSubsequence(AzInRange(azTuple), ts);
    RetainedIdempotent(AzInRange(azTuple), ts);
  }

  // ---------------------------------------------------------------------
  // kurtosis_filter
  // ---------------------------------------------------------------------

  /** `scipy.stats.kurtosis` of a trace's data; `None` where it is NaN. */
  type Kurtosis = seq<Sample> -> Option<real>

  /** The keyword argument `alpha`: omitted, passed as `False`, or passed with some other value. */
  datatype AlphaArg = AlphaOmitted | AlphaFalse | AlphaGiven(value: real)

  /**
   * The factor in `alpha*mean_k`. Any supplied `alpha` other than `False`
   * is replaced by 0.5; otherwise `alpha` stays `False`, which multiplies as 0.
   */
  function AlphaFactor(alpha: AlphaArg): (f: real)
    ensures alpha.AlphaGiven? ==> f == 0.5
    ensures !alpha.AlphaGiven? ==> f == 0.0
  {
    match alpha
    case AlphaGiven(_) => 0.5
    case _ => 0.0
  }

  /** Pass 1 keeps a trace when its kurtosis is not NaN. */
  function KurtosisDefined(kurt: Kurtosis): (keep: Trace -> bool)
    ensures forall t: Trace :: keep(t) <==> kurt(t.data) != None
  {
    (t: Trace) => kurt(t.data).Some?
  }

  /** Pass 2 removes a trace when its kurtosis is below the threshold (NaN compares false). */
  function KurtosisAtLeast(kurt: Kurtosis, threshold: real): (keep: Trace -> bool)
    ensures forall t: Trace :: kurt(t.data).None? ==> keep(t)
    ensures forall t: Trace :: kurt(t.data).Some? ==> (keep(t) <==> kurt(t.data).value >= threshold)
  {
    (t: Trace) => match kurt(t.data)
         case Some(v) => !(v < threshold)
         case None => true
  }

  /** The list `k`: the non-NaN kurtosis values, in stream order. */
  function KurtosisValues(kurt: Kurtosis, ts: seq<Trace>): (k: seq<real>)
    ensures |k| <= |ts|
    ensures (forall i :: 0 <= i < |ts| ==> kurt(ts[i].data).None?) ==> k == []
  {
    if ts == [] then []
    else
      var init := KurtosisValues(kurt, ts[..|ts| - 1]);
      match kurt(ts[|ts| - 1].data)
      case Some(v) => init + [v]
      case None => init
  }

  /** Python's `sum(k)`, adding left to right from 0. */
  function Sum(k: seq<real>): real
  {
    if k == [] then 0.0 else Sum(k[..|k| - 1]) + k[|k| - 1]
  }

  /** Python's `total/n` on a list length `n`: ZeroDivisionError when `n` is 0. */
  function Mean(total: real, n: nat): (r: Result<real, FilterError>)
    ensures r.Failure? <==> n == 0
    ensures r.Failure? ==> r.error == ZeroDivision
  {
    if n == 0 then Failure(ZeroDivision) else Success(total / n as real)
  }

  /** `mean_k = sum(k)/len(st)`, where `st` holds the traces pass 1 kept. */
  function KurtosisMean(kurt: Kurtosis, ts: seq<Trace>): (r: Result<real, FilterError>)
    ensures r.Failure? <==> Retained(KurtosisDefined(kurt), ts) == []
    ensures r.Failure? ==> r.error == ZeroDivision
  {
    Mean(Sum(KurtosisValues(kurt, ts)), |Retained(KurtosisDefined(kurt), ts)|)
  }

  /**
   * `k` holds one value per trace that pass 1 keeps, namely that trace's
   * kurtosis; so `len(st)` after pass 1 equals `len(k)` and `mean_k` is the
   * arithmetic mean of the kept traces' kurtosis.
   */
  lemma {:induction false} KurtosisValuesMatch(kurt: Kurtosis, ts: seq<Trace>)
    ensures var kept := Retained(KurtosisDefined(kurt), ts);
      |KurtosisValues(kurt, ts)| == |kept| &&
      forall i :: 0 <= i < |kept| ==> kurt(kept[i].data) == Some(KurtosisValues(kurt, ts)[i])
  {
    if ts != [] {
      KurtosisValuesMatch(kurt, ts[..|ts| - 1]);
    }
  }

  method KurtosisFilter(st: Stream, alpha: AlphaArg, kurt: Kurtosis) returns (outcome: Outcome<FilterError>)
    requires st.Valid()
    modifies st
    ensures st.Valid()
    ensures KurtosisMean(kurt, old(st.traces)).Failure? ==>
      outcome == Fail(ZeroDivision) && st.traces == Retained(KurtosisDefined(kurt), old(st.traces))
    ensures KurtosisMean(kurt, old(st.traces)).Success? ==>
      outcome == Pass &&
      st.traces == Retained(KurtosisAtLeast(kurt, AlphaFactor(alpha) * KurtosisMean(kurt, old(st.traces)).value),
                            Retained(KurtosisDefined(kurt), old(st.traces)))
  {
    var a := AlphaFactor(alpha);
    var k := DropUndefinedKurtosis(st, kurt);
    var mean := Mean(Sum(k), |st.traces|);
    assert mean == KurtosisMean(kurt, old(st.traces));
    if mean.Failure? {
      outcome := Fail(mean.error);
      return;
    }
    var meanK := mean.value;
    var threshold := a * meanK;
    assert threshold == AlphaFactor(alpha) * KurtosisMean(kurt, old(st.traces)).value;
    Sweep(st, KurtosisAtLeast(kurt, threshold));
    outcome := Pass;
  }

  /**
   * The first loop of `kurtosis_filter`: a trace with NaN kurtosis is
   * removed, every other trace's kurtosis is appended to `k`.
   */
  method DropUndefinedKurtosis(st: Stream, kurt: Kurtosis) returns (k: seq<real>)
    requires st.Valid()
    modifies st
    ensures st.Valid()
    ensures st.traces == Retained(KurtosisDefined(kurt), old(st.traces))
    ensures k == KurtosisValues(kurt, old(st.traces))
  {
    k := [];
    var snapshot := st.traces;
    for i := 0 to |snapshot|
      invariant st.traces == Retained(KurtosisDefined(kurt), snapshot[..i]) + snapshot[i..]
      invariant k == KurtosisValues(kurt, snapshot[..i])
    {
      var tr := snapshot[i];
      assert snapshot[..i + 1][..i] == snapshot[..i];
      var ki := kurt(tr.data);
      if ki.None? {
        SweepDrops(KurtosisDefined(kurt), snapshot, i);
        st.Remove(tr);
        continue;
      } else {
        SweepKeeps(KurtosisDefined(kurt), snapshot, i);
        k := k + [ki.value];
      }
    }
    assert st.traces == Retained(KurtosisDefined(kurt), snapshot) && k == KurtosisValues(kurt, snapshot) by {
      assert snapshot[..|snapshot|] == snapshot;
    }
    RetainedDistinct(KurtosisDefined(kurt), snapshot);
  }

  /**
   * What `kurtosis_filter` leaves: exactly the input traces whose kurtosis
   * is a number at least `alpha*mean_k`, in input order. A trace is removed
   * only for a NaN kurtosis or one below the threshold.
   */
  lemma KurtosisSurvivors(kurt: Kurtosis, alpha: AlphaArg, ts: seq<Trace>, meanK: real)
    requires KurtosisMean(kurt, ts) == Success(meanK)
    ensures var out := Retained(KurtosisAtLeast(kurt, AlphaFactor(alpha) * meanK), Retained(KurtosisDefined(kurt), ts));
      (forall t :: t in out <==>
         t in ts && kurt(t.data).Some? && kurt(t.data).value >= AlphaFactor(alpha) * meanK) &&
      SubsequenceOf(out, ts)
  {
    var thr := AlphaFactor(alpha) * meanK;
    var kept := Retained(KurtosisDefined(kurt), ts);
    RetainedMembers(KurtosisDefined(kurt), ts);
    RetainedMembers(KurtosisAtLeast(kurt, thr), kept);
    RetainedSubsequence(KurtosisDefined(kurt), ts);
    RetainedSubsequence(KurtosisAtLeast(kurt, thr), kept);
    SubsequenceTransitive(Retained(KurtosisAtLeast(kurt, thr), kept), kept, ts);
  }

  /** `kurtosis_filter` raises ZeroDivisionError exactly when every trace has NaN kurtosis. */
  lemma KurtosisMeanFails(kurt: Kurtosis, ts: seq<Trace>)
    ensures KurtosisMean(kurt, ts).Failure? <==> forall t :: t in ts ==> kurt(t.data).None?
  {
    RetainedEmpty(KurtosisDefined(kurt), ts);
  }

  lemma {:induction false} SumConstant(k: seq<real>, v: real)
    requires forall i :: 0 <= i < |k| ==> k[i] == v
    ensures Sum(k) == |k| as real * v
  {
    if k != [] {
      SumConstant(k[..|k| - 1], v);
    }
  }

  /** The mean of `n` copies of `v` is `v`. */
  lemma MeanOfConstant(k: seq<real>, v: real)
    requires k != [] && forall i :: 0 <= i < |k| ==> k[i] == v
    ensures Mean(Sum(k), |k|) == Success(v)
  {
    var n := |k| as real;
    SumConstant(k, v);
    var total := Sum(k);
    assert total == n * v;
    DivideProduct(n, v);
    assert total / n == v;
    assert Mean(total, |k|) == Success(total / n);
  }

  lemma DivideProduct(n: real, v: real)
    requires n > 0.0
    ensures (n * v) / n == v
  {
  }

  /** With the same kurtosis `v` on every trace, pass 1 keeps them all and `mean_k` is `v`. */
  lemma UniformMean(kurt: Kurtosis, ts: seq<Trace>, v: real)
    requires ts != []
    requires forall i :: 0 <= i < |ts| ==> kurt(ts[i].data) == Some(v)
    ensures Retained(KurtosisDefined(kurt), ts) == ts
    ensures KurtosisMean(kurt, ts) == Success(v)
  {
    AllDefinedKept(kurt, ts);
    var k := KurtosisValues(kurt, ts);
    UniformValues(kurt, ts, v);
    MeanOfConstant(k, v);
    assert KurtosisMean(kurt, ts) == Mean(Sum(k), |k|);
  }

  /** With the same kurtosis `v` on every trace, `k` is `len(st)` copies of `v`. */
  lemma UniformValues(kurt: Kurtosis, ts: seq<Trace>, v: real)
    requires forall i :: 0 <= i < |ts| ==> kurt(ts[i].data) == Some(v)
    requires Retained(KurtosisDefined(kurt), ts) == ts
    ensures |KurtosisValues(kurt, ts)| == |ts|
    ensures forall i :: 0 <= i < |ts| ==> KurtosisValues(kurt, ts)[i] == v
  {
    KurtosisValuesMatch(kurt, ts);
  }

  /** With a numeric kurtosis on every trace, pass 1 removes nothing. */
  lemma AllDefinedKept(kurt: Kurtosis, ts: seq<Trace>)
    requires forall i :: 0 <= i < |ts| ==> kurt(ts[i].data).Some?
    ensures Retained(KurtosisDefined(kurt), ts) == ts
  {
    forall t | t in ts ensures KurtosisDefined(kurt)(t) {
      var i :| 0 <= i < |ts| && ts[i] == t;
    }
    RetainedAllKept(KurtosisDefined(kurt), ts);
  }

  /**
   * When every trace has the same non-negative kurtosis, `kurtosis_filter`
   * removes nothing, whatever `alpha` is.
   */
  lemma KurtosisUniformKept(kurt: Kurtosis, alpha: AlphaArg, ts: seq<Trace>, v: real)
    requires ts != [] && v >= 0.0
    requires forall i :: 0 <= i < |ts| ==> kurt(ts[i].data) == Some(v)
    ensures KurtosisMean(kurt, ts) == Success(v)
    ensures Retained(KurtosisAtLeast(kurt, AlphaFactor(alpha) * v), Retained(KurtosisDefined(kurt), ts)) == ts
  {
    UniformMean(kurt, ts, v);
    UniformNonNegativeAllKept(kurt, alpha, ts, v);
  }

  /** The second pass of the lemma above: with a uniform non-negative kurtosis, every trace reaches the threshold. */
  lemma UniformNonNegativeAllKept(kurt: Kurtosis, alpha: AlphaArg, ts: seq<Trace>, v: real)
    requires v >= 0.0
    requires forall i :: 0 <= i < |ts| ==> kurt(ts[i].data) == Some(v)
    ensures Retained(KurtosisAtLeast(kurt, AlphaFactor(alpha) * v), Retained(KurtosisDefined(kurt), ts)) == ts
  {
    AllDefinedKept(kurt, ts);
    ThresholdAtMost(alpha, v);
    UniformAllAtLeast(kurt, ts, v, AlphaFactor(alpha) * v);
  }

  /** A threshold at or below the shared kurtosis `v` keeps every trace. */
  lemma UniformAllAtLeast(kurt: Kurtosis, ts: seq<Trace>, v: real, thr: real)
    requires thr <= v
    requires forall i :: 0 <= i < |ts| ==> kurt(ts[i].data) == Some(v)
    ensures Retained(KurtosisAtLeast(kurt, thr), ts) == ts
  {
    forall t | t in ts ensures KurtosisAtLeast(kurt, thr)(t) {
      var i :| 0 <= i < |ts| && ts[i] == t;
    }
    RetainedAllKept(KurtosisAtLeast(kurt, thr), ts);
  }

  /** For a non-negative `mean_k`, the threshold `alpha*mean_k` does not exceed it. */
  lemma ThresholdAtMost(alpha: AlphaArg, v: real)
    requires v >= 0.0
    ensures AlphaFactor(alpha) * v <= v
  {
    if alpha.AlphaGiven? {
      assert AlphaFactor(alpha) * v == 0.5 * v;
    }
  }

  /** For a negative `mean_k`, the threshold `alpha*mean_k` lies above it. */
  lemma ThresholdAbove(alpha: AlphaArg, v: real)
    requires v < 0.0
    ensures AlphaFactor(alpha) * v > v
  {
    if alpha.AlphaGiven? {
      assert AlphaFactor(alpha) * v == 0.5 * v;
    }
  }

  /**
   * With the same negative kurtosis on every trace, the threshold
   * `alpha*mean_k` (0.5 times it, or 0 when `alpha` is not supplied) lies
   * above every value and `kurtosis_filter` removes every trace.
   */
  lemma KurtosisUniformNegativeDropped(kurt: Kurtosis, alpha: AlphaArg, ts: seq<Trace>, v: real)
    requires ts != [] && v < 0.0
    requires forall i :: 0 <= i < |ts| ==> kurt(ts[i].data) == Some(v)
    ensures KurtosisMean(kurt, ts) == Success(v)
    ensures Retained(KurtosisAtLeast(kurt, AlphaFactor(alpha) * v), Retained(KurtosisDefined(kurt), ts)) == []
  {
    UniformMean(kurt, ts, v);
    UniformNegativeNoneKept(kurt, alpha, ts, v);
  }

  /** The second pass of the lemma above: with a uniform negative kurtosis, no trace reaches the threshold. */
  lemma UniformNegativeNoneKept(kurt: Kurtosis, alpha: AlphaArg, ts: seq<Trace>, v: real)
    requires v < 0.0
    requires forall i :: 0 <= i < |ts| ==> kurt(ts[i].data) == Some(v)
    ensures Retained(KurtosisAtLeast(kurt, AlphaFactor(alpha) * v), Retained(KurtosisDefined(kurt), ts)) == []
  {
    AllDefinedKept(kurt, ts);
    ThresholdAbove(alpha, v);
    UniformNoneAtLeast(kurt, ts, v, AlphaFactor(alpha) * v);
  }

  /** A threshold above the shared kurtosis `v` removes every trace. */
  lemma UniformNoneAtLeast(kurt: Kurtosis, ts: seq<Trace>, v: real, thr: real)
    requires thr > v
    requires forall i :: 0 <= i < |ts| ==> kurt(ts[i].data) == Some(v)
    ensures Retained(KurtosisAtLeast(kurt, thr), ts) == []
  {
    forall t | t in ts ensures !KurtosisAtLeast(kurt, thr)(t) {
      var i :| 0 <= i < |ts| && ts[i] == t;
    }
    RetainedEmpty(KurtosisAtLeast(kurt, thr), ts);
  }

  // ---------------------------------------------------------------------
  // gimp_filter
  // ---------------------------------------------------------------------

  const MinSamples: nat := 100
  const GimpRate: real := 50.0
  const LengthFraction: real := 0.8

  /** Pass 1 removes traces with fewer than 100 samples. */
  function EnoughSamples(): (keep: Trace -> bool)
    ensures forall t: Trace :: keep(t) <==> |t.data| >= MinSamples
  {
    (t: Trace) => !(|t.data| < MinSamples)
  }

  /** Pass 2 removes traces shorter than `mx_len*0.8`, and then those whose data holds a NaN. */
  function FullAndClean(mxLen: nat): (keep: Trace -> bool)
    ensures forall t: Trace :: keep(t) <==> (|t.data| as real) >= (mxLen as real) * LengthFraction && !HasNaN(t.data)
  {
    (t: Trace) => if (|t.data| as real) < (mxLen as real) * LengthFraction then false
         else if HasNaN(t.data) then false
         else true
  }

  /** The list `a` built by `max_len` and `min_len`: the sample count of every trace. */
  function Lengths(ts: seq<Trace>): (a: seq<nat>)
    ensures |a| == |ts|
    ensures forall i :: 0 <= i < |ts| ==> a[i] == |ts[i].data|
  {
    seq(|ts|, i requires 0 <= i < |ts| => |ts[i].data|)
  }

  /** Python's `max` over a non-empty list. */
  function MaxOf(a: seq<nat>): (m: nat)
    requires a != []
    ensures m in a
    ensures forall i :: 0 <= i < |a| ==> a[i] <= m
  {
    if |a| == 1 then a[0]
    else
      var rest := MaxOf(a[..|a| - 1]);
      if a[|a| - 1] > rest then a[|a| - 1] else rest
  }

  /** Python's `min` over a non-empty list. */
  function MinOf(a: seq<nat>): (m: nat)
    requires a != []
    ensures m in a
    ensures forall i :: 0 <= i < |a| ==> m <= a[i]
  {
    if |a| == 1 then a[0]
    else
      var rest := MinOf(a[..|a| - 1]);
      if a[|a| - 1] < rest then a[|a| - 1] else rest
  }

  /** `max_len(st)`: the longest trace's sample count; `max([])` raises on an empty stream. */
  method MaxLen(st: Stream) returns (r: Result<nat, FilterError>)
    ensures r.Failure? <==> st.traces == []
    ensures r.Failure? ==> r.error == EmptySequence
    ensures r.Success? ==> r.value == MaxOf(Lengths(st.traces))
    ensures r.Success? ==> exists i :: 0 <= i < |st.traces| && |st.traces[i].data| == r.value
    ensures r.Success? ==> forall i :: 0 <= i < |st.traces| ==> |st.traces[i].data| <= r.value
  {
    var a: seq<nat> := [];
    for i := 0 to |st.traces|
      invariant a == Lengths(st.traces[..i])
    {
      a := a + [|st.traces[i].data|];
    }
    assert a == Lengths(st.traces);
    if a == [] {
      r := Failure(EmptySequence);
    } else {
      r := Success(MaxOf(a));
      assert forall i :: 0 <= i < |st.traces| ==> a[i] == |st.traces[i].data|;
    }
  }

  /** `min_len(st)`: the shortest trace's sample count; `min([])` raises on an empty stream. */
  method MinLen(st: Stream) returns (r: Result<nat, FilterError>)
    ensures r.Failure? <==> st.traces == []
    ensures r.Failure? ==> r.error == EmptySequence
    ensures r.Success? ==> r.value == MinOf(Lengths(st.traces))
    ensures r.Success? ==> exists i :: 0 <= i < |st.traces| && |st.traces[i].data| == r.value
    ensures r.Success? ==> forall i :: 0 <= i < |st.traces| ==> r.value <= |st.traces[i].data|
  {
    var a: seq<nat> := [];
    for i := 0 to |st.traces|
      invariant a == Lengths(st.traces[..i])
    {
      a := a + [|st.traces[i].data|];
    }
    assert a == Lengths(st.traces);
    if a == [] {
      r := Failure(EmptySequence);
    } else {
      r := Success(MinOf(a));
      assert forall i :: 0 <= i < |st.traces| ==> a[i] == |st.traces[i].data|;
    }
  }

  /** Python's `data[0:n]`: the first `n` samples, or all of them when there are fewer. */
  function Prefix(data: seq<Sample>, n: nat): (r: seq<Sample>)
    ensures |r| == if n <= |data| then n else |data|
    ensures r == data[..|r|]
  {
    if n <= |data| then data[..n] else data
  }

  /** The last loop of `gimp_filter`: every trace's data cut to its first `n` samples. */
  function Truncated(ts: seq<Trace>, n: nat): (r: seq<Trace>)
    ensures |r| == |ts| && Ids(r) == Ids(ts)
  {
    seq(|ts|, i requires 0 <= i < |ts| => ts[i].(data := Prefix(ts[i].data, n)))
  }

  /** The stream after pass 1 and `st.interpolate(sampling_rate=50.0)`. */
  function GimpResampled(ts: seq<Trace>, resample: Resampler): seq<Trace>
  {
    Resampled(Retained(EnoughSamples(), ts), GimpRate, resample)
  }

  /** The stream after pass 2, given the resampled stream is not empty. */
  function GimpSecondPass(resampled: seq<Trace>): seq<Trace>
    requires resampled != []
  {
    Retained(FullAndClean(MaxOf(Lengths(resampled))), resampled)
  }

  method GimpFilter(st: Stream, resample: Resampler) returns (outcome: Outcome<FilterError>)
    requires st.Valid()
    modifies st
    ensures st.Valid()
    ensures GimpResampled(old(st.traces), resample) == [] ==>
      outcome == Fail(EmptySequence) && st.traces == []
    ensures GimpResampled(old(st.traces), resample) != [] && GimpSecondPass(GimpResampled(old(st.traces), resample)) == [] ==>
      outcome == Fail(EmptySequence) && st.traces == []
    ensures GimpResampled(old(st.traces), resample) != [] && GimpSecondPass(GimpResampled(old(st.traces), resample)) != [] ==>
      var survivors := GimpSecondPass(GimpResampled(old(st.traces), resample));
      outcome == Pass && st.traces == Truncated(survivors, MinOf(Lengths(survivors)))
  {
    Sweep(st, EnoughSamples());
    ghost var passed := st.traces;
    st.Interpolate(GimpRate, resample);
    DistinctByIds(passed, st.traces);
    ghost var resampled := st.traces;
    assert resampled == GimpResampled(old(st.traces), resample);

    var mx := MaxLen(st);
    if mx.Failure? {
      outcome := Fail(mx.error);
      return;
    }
    var mxLen := mx.value;

    Sweep(st, FullAndClean(mxLen));
    assert st.traces == GimpSecondPass(resampled);

    var mn := MinLen(st);
    if mn.Failure? {
      assert st.traces == [];
      outcome := Fail(mn.error);
      return;
    }
    var mnLen := mn.value;

    TruncateAll(st, mnLen);
    outcome := Pass;
  }

  /** The loop `for tr in st: tr.data = tr.data[0:mn_len]`. */
  method TruncateAll(st: Stream, n: nat)
    requires st.Valid()
    modifies st
    ensures st.Valid()
    ensures st.traces == Truncated(old(st.traces), n)
  {
    var snapshot := st.traces;
    for i := 0 to |snapshot|
      invariant |st.traces| == |snapshot|
      invariant forall j :: 0 <= j < i ==> st.traces[j] == snapshot[j].(data := Prefix(snapshot[j].data, n))
      invariant forall j :: i <= j < |snapshot| ==> st.traces[j] == snapshot[j]
    {
      var tr := st.traces[i];
      st.traces := st.traces[i := tr.(data := Prefix(tr.data, n))];
    }
    assert st.traces == Truncated(snapshot, n);
    DistinctByIds(snapshot, st.traces);
  }

  /**
   * Every trace that pass 1 keeps had at least 100 samples, and the
   * interpolation step keeps every one of them, in order.
   */
  lemma GimpFirstPass(ts: seq<Trace>, resample: Resampler)
    ensures forall t: Trace :: t in Retained(EnoughSamples(), ts) ==> t in ts && |t.data| >= MinSamples
    ensures Ids(GimpResampled(ts, resample)) == Ids(Retained(EnoughSamples(), ts))
    ensures GimpResampled(ts, resample) == [] <==> forall t :: t in ts ==> |t.data| < MinSamples
  {
    RetainedMembers(EnoughSamples(), ts);
    RetainedEmpty(EnoughSamples(), ts);
  }

  /**
   * The shape `gimp_filter` returns: every trace holds exactly its first
   * `mn_len` resampled samples, contains no NaN and is sampled at 50 Hz;
   * `0.8*mx_len <= mn_len <= mx_len`; the final loop keeps the number and
   * the order of the traces.
   */
  lemma GimpShape(ts: seq<Trace>, resample: Resampler)
    requires GimpResampled(ts, resample) != []
    requires GimpSecondPass(GimpResampled(ts, resample)) != []
    ensures var resampled := GimpResampled(ts, resample);
      var survivors := GimpSecondPass(resampled);
      var mxLen := MaxOf(Lengths(resampled));
      var mnLen := MinOf(Lengths(survivors));
      var out := Truncated(survivors, mnLen);
      (mxLen as real) * LengthFraction <= mnLen as real && mnLen <= mxLen &&
      |out| == |survivors| && Ids(out) == Ids(survivors) &&
      forall i :: 0 <= i < |out| ==>
        mnLen <= |survivors[i].data| && out[i].data == survivors[i].data[..mnLen] && |out[i].data| == mnLen &&
        !HasNaN(out[i].data) && out[i].samplingRate == GimpRate
  {
    var resampled := GimpResampled(ts, resample);
    var survivors := GimpSecondPass(resampled);
    var mxLen := MaxOf(Lengths(resampled));
    var mnLen := MinOf(Lengths(survivors));
    var keep := FullAndClean(mxLen);
    RetainedMembers(keep, resampled);
    LengthBounds(resampled);
    ResampledRate(Retained(EnoughSamples(), ts), GimpRate, resample);
    forall i | 0 <= i < |survivors| ensures keep(survivors[i]) && survivors[i].samplingRate == GimpRate {
      assert survivors[i] in survivors;
    }
    var out := Truncated(survivors, mnLen);
    forall i | 0 <= i < |out|
      ensures mnLen <= |survivors[i].data| && out[i].data == survivors[i].data[..mnLen] && |out[i].data| == mnLen
      ensures !HasNaN(out[i].data) && out[i].samplingRate == GimpRate
    {
      TruncatedShape(survivors, mxLen, i);
    }
  }

  /** `mn_len` lies between `0.8*mx_len` and `mx_len`: pass 2 let the shortest survivor through. */
  lemma LengthBounds(resampled: seq<Trace>)
    requires resampled != [] && GimpSecondPass(resampled) != []
    ensures var mxLen := MaxOf(Lengths(resampled));
      var mnLen := MinOf(Lengths(GimpSecondPass(resampled)));
      (mxLen as real) * LengthFraction <= mnLen as real && mnLen <= mxLen
  {
    var survivors := GimpSecondPass(resampled);
    var mxLen := MaxOf(Lengths(resampled));
    var mnLen := MinOf(Lengths(survivors));
    var keep := FullAndClean(mxLen);
    RetainedMembers(keep, resampled);
    var j :| 0 <= j < |survivors| && Lengths(survivors)[j] == mnLen;
    var t := survivors[j];
    assert t in survivors;
    assert keep(t);
    var k :| 0 <= k < |resampled| && resampled[k] == t;
    assert Lengths(resampled)[k] == mnLen;
  }

  /** One trace of the final loop: pass 2 let it through, and it is cut to `min_len` of the survivors. */
  lemma TruncatedShape(survivors: seq<Trace>, mxLen: nat, i: nat)
    requires i < |survivors|
    requires forall j :: 0 <= j < |survivors| ==> FullAndClean(mxLen)(survivors[j]) && survivors[j].samplingRate == GimpRate
    ensures var mnLen := MinOf(Lengths(survivors));
      var out := Truncated(survivors, mnLen);
      mnLen <= |survivors[i].data| && out[i].data == survivors[i].data[..mnLen] && |out[i].data| == mnLen &&
      !HasNaN(out[i].data) && out[i].samplingRate == GimpRate
  {
    var mnLen := MinOf(Lengths(survivors));
    var s := survivors[i];
    assert Lengths(survivors)[i] == |s.data|;
    assert FullAndClean(mxLen)(s);
    NoNaNPrefix(s.data, mnLen);
  }

  /** A prefix of NaN-free data is NaN-free. */
  lemma NoNaNPrefix(data: seq<Sample>, n: nat)
    requires !HasNaN(data) && n <= |data|
    ensures !HasNaN(data[..n])
  {
    forall i | 0 <= i < n ensures !data[..n][i].NaN? {
      assert data[..n][i] == data[i];
    }
  }

  /**
   * `gimp_filter` only deletes and reshapes: the surviving traces are, in
   * order, a subsequence of the input traces, each one a trace that had at
   * least 100 samples.
   */
  lemma GimpOrigins(ts: seq<Trace>, resample: Resampler)
    requires GimpResampled(ts, resample) != []
    requires GimpSecondPass(GimpResampled(ts, resample)) != []
    ensures var survivors := GimpSecondPass(GimpResampled(ts, resample));
      var out := Truncated(survivors, MinOf(Lengths(survivors)));
      SubsequenceOf(Ids(out), Ids(ts)) &&
      forall i :: 0 <= i < |out| ==> exists t :: t in ts && t.id == out[i].id && |t.data| >= MinSamples
  {
    var resampled := GimpResampled(ts, resample);
    var survivors := GimpSecondPass(resampled);
    var out := Truncated(survivors, MinOf(Lengths(survivors)));
    var keep := FullAndClean(MaxOf(Lengths(resampled)));
    RetainedSubsequence(EnoughSamples(), ts);
    RetainedSubsequence(keep, resampled);
    SubsequenceTransitive(Ids(survivors), Ids(resampled), Ids(ts));
    RetainedMembers(keep, resampled);
    forall i | 0 <= i < |out|
      ensures exists t :: t in ts && t.id == out[i].id && |t.data| >= MinSamples
    {
      assert Ids(out)[i] == Ids(survivors)[i];
      assert out[i].id == survivors[i].id;
      assert survivors[i] in resampled;
      ResampledOrigin(ts, resample, survivors[i]);
      var t :| t in ts && t.id == survivors[i].id && |t.data| >= MinSamples;
      assert t.id == out[i].id;
    }
    assert forall i :: 0 <= i < |out| ==> exists t :: t in ts && t.id == out[i].id && |t.data| >= MinSamples;
  }

  /** A trace after pass 1 and interpolation carries the id of an input trace with at least 100 samples. */
  lemma ResampledOrigin(ts: seq<Trace>, resample: Resampler, r: Trace)
    requires r in GimpResampled(ts, resample)
    ensures exists t :: t in ts && t.id == r.id && |t.data| >= MinSamples
  {
    var passed := Retained(EnoughSamples(), ts);
    var resampled := GimpResampled(ts, resample);
    RetainedMembers(EnoughSamples(), ts);
    var m :| 0 <= m < |resampled| && resampled[m] == r;
    assert Ids(resampled)[m] == Ids(passed)[m];
    assert passed[m] in passed;
  }
}
