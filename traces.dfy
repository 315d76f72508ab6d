/**
 * Seismic traces and the obspy `Stream` that holds them, reduced to what the
 * filters read and change: sample data, sampling rate, the SAC headers
 * `gcarc` and `az`, and the list of traces with its `remove` and
 * `interpolate` operations.
 */
module Traces {

  /** One amplitude sample; `NaN` stands for an IEEE not-a-number value. */
  datatype Sample = Finite(value: real) | NaN

  /**
   * A trace. `id` stands for the identity of the obspy `Trace` object;
   * `gcarc` is the great-circle distance and `az` the azimuth header.
   */
  datatype Trace = Trace(id: nat, data: seq<Sample>, samplingRate: real, gcarc: real, az: real)

  /**
   * `np.isnan(sum(data))`: `sum` adds the samples left to right and a NaN
   * absorbs every later addition. The model has no infinities, so a NaN
   * sample is the only way for the sum to become NaN.
   */
  function HasNaN(data: seq<Sample>): (b: bool)
    ensures b <==> exists i :: 0 <= i < |data| && data[i].NaN?
  {
    if data == [] then false
    else HasNaN(data[..|data| - 1]) || data[|data| - 1].NaN?
  }

  /** The interpolation routine behind `Stream.interpolate`: new data for a trace at a rate. */
  type Resampler = (Trace, real) -> seq<Sample>

  function Ids(ts: seq<Trace>): seq<nat>
  {
    seq(|ts|, i requires 0 <= i < |ts| => ts[i].id)
  }

  /** The traces of a stream are pairwise distinct objects. */
  ghost predicate Distinct(ts: seq<Trace>)
  {
    forall i, j :: 0 <= i < j < |ts| ==> ts[i].id != ts[j].id
  }

  /** Python's `list.remove(x)`: drop the first element equal to `x`. */
  function RemoveFirst<T(==)>(s: seq<T>, x: T): (r: seq<T>)
    ensures x in s ==> |r| == |s| - 1
    ensures x !in s ==> r == s
  {
    if s == [] then []
    else if s[0] == x then s[1..]
    else [s[0]] + RemoveFirst(s[1..], x)
  }

  /** Removing an element that does not occur earlier cuts it out at its own position. */
  lemma {:induction false} RemoveFirstAt<T>(a: seq<T>, x: T, b: seq<T>)
    requires x !in a
    ensures RemoveFirst(a + [x] + b, x) == a + b
  {
    if a == [] {
      assert a + [x] + b == [x] + b;
      assert ([x] + b)[1..] == b;
    } else {
      var tail := a[1..] + [x] + b;
      assert a + [x] + b == [a[0]] + tail;
      assert ([a[0]] + tail)[1..] == tail;
      calc {
        RemoveFirst(a + [x] + b, x);
        [a[0]] + RemoveFirst(tail, x);
        { RemoveFirstAt(a[1..], x, b); }
        [a[0]] + (a[1..] + b);
        a + b;
      }
    }
  }

  /** Every trace resampled to `rate` by the interpolation routine `resample`. */
  function Resampled(ts: seq<Trace>, rate: real, resample: Resampler): (r: seq<Trace>)
    ensures |r| == |ts| && Ids(r) == Ids(ts)
    ensures forall i :: 0 <= i < |r| ==> r[i].samplingRate == rate
  {
    seq(|ts|, i requires 0 <= i < |ts| => ts[i].(data := resample(ts[i], rate), samplingRate := rate))
  }

  /** Every trace the interpolation returns is sampled at the requested rate. */
  lemma ResampledRate(ts: seq<Trace>, rate: real, resample: Resampler)
    ensures forall t :: t in Resampled(ts, rate, resample) ==> t.samplingRate == rate
  {
    var r := Resampled(ts, rate, resample);
    forall t | t in r ensures t.samplingRate == rate {
      var i :| 0 <= i < |r| && r[i] == t;
    }
  }

  lemma DistinctByIds(a: seq<Trace>, b: seq<Trace>)
    requires Ids(a) == Ids(b) && Distinct(a)
    ensures Distinct(b)
  {
    forall i, j | 0 <= i < j < |b| ensures b[i].id != b[j].id {
      assert Ids(a)[i] == a[i].id && Ids(b)[i] == b[i].id;
      assert Ids(a)[j] == a[j].id && Ids(b)[j] == b[j].id;
    }
  }

  /** An obspy `Stream`: an ordered, mutable list of traces. */
  class Stream {
    var traces: seq<Trace>

    ghost predicate Valid()
      reads this
    {
      Distinct(traces)
    }

    /** `st.remove(tr)`: obspy removes the first trace equal to `tr`. */
    method Remove(tr: Trace)
      requires tr in traces
      modifies this
      ensures traces == RemoveFirst(old(traces), tr)
    {
      traces := RemoveFirst(traces, tr);
    }

    /** `st.interpolate(sampling_rate=rate)`: every trace is resampled, none is removed. */
    method Interpolate(rate: real, resample: Resampler)
      modifies this
      ensures traces == Resampled(old(traces), rate, resample)
    {
      traces := Resampled(traces, rate, resample);
    }
  }
}
