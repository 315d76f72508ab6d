/**
 * The removal pass every filter is built from:
 *
 *     for tr in st:
 *         if not keep(tr):
 *             st.remove(tr)
 *
 * obspy's `Stream.__iter__` hands out an iterator over a copy of the trace
 * list, so the loop visits every trace of the stream as it was when the loop
 * started, and `remove` deletes the visited trace (traces are pairwise
 * distinct). The pass is specified by `Retained`, the traces that satisfy
 * `keep`, in their original order.
 */
module Retain {
  import opened Traces

  /** The traces of `s` that satisfy `keep`, in the order of `s`. */
  function Retained(keep: Trace -> bool, s: seq<Trace>): (r: seq<Trace>)
    ensures |r| <= |s|
  {
    if s == [] then []
    else
      var init := Retained(keep, s[..|s| - 1]);
      if keep(s[|s| - 1]) then init + [s[|s| - 1]] else init
  }

  /** A trace survives exactly when it was there and satisfies `keep`. */
  lemma {:induction false} RetainedMembers(keep: Trace -> bool, s: seq<Trace>)
    ensures forall t :: t in Retained(keep, s) <==> t in s && keep(t)
  {
    if s != [] {
      var init := s[..|s| - 1];
      RetainedMembers(keep, init);
      assert s == init + [s[|s| - 1]];
    }
  }

  /** Nothing survives exactly when no trace satisfies `keep`. */
  lemma RetainedEmpty(keep: Trace -> bool, s: seq<Trace>)
    ensures Retained(keep, s) == [] <==> forall t :: t in s ==> !keep(t)
  {
    RetainedMembers(keep, s);
    var r := Retained(keep, s);
    if r != [] {
      assert r[0] in r;
    }
  }

  /** When every trace satisfies `keep`, the pass removes nothing. */
  lemma {:induction false} RetainedAllKept(keep: Trace -> bool, s: seq<Trace>)
    requires forall t :: t in s ==> keep(t)
    ensures Retained(keep, s) == s
  {
    if s != [] {
      var init := s[..|s| - 1];
      assert forall t :: t in init ==> t in s;
      RetainedAllKept(keep, init);
      assert s[|s| - 1] in s;
      assert s == init + [s[|s| - 1]];
    }
  }

  /** `f` maps each position of `a` to the position in `b` holding the same element, in increasing order. */
  ghost predicate Embeds<T>(a: seq<T>, b: seq<T>, f: seq<nat>)
  {
    |f| == |a| &&
    (forall i :: 0 <= i < |f| ==> f[i] < |b| && a[i] == b[f[i]]) &&
    (forall i, j :: 0 <= i < j < |f| ==> f[i] < f[j])
  }

  /** `a` is `b` with some elements deleted: nothing added, duplicated or reordered. */
  ghost predicate SubsequenceOf<T>(a: seq<T>, b: seq<T>)
  {
    exists f :: Embeds(a, b, f)
  }

  lemma SubsequenceTransitive<T>(a: seq<T>, b: seq<T>, c: seq<T>)
    requires SubsequenceOf(a, b) && SubsequenceOf(b, c)
    ensures SubsequenceOf(a, c)
  {
    var f :| Embeds(a, b, f);
    var g :| Embeds(b, c, g);
    var h := seq(|f|, i requires 0 <= i < |f| => g[f[i]]);
    assert Embeds(a, c, h);
  }

  /** The positions of the survivors in the input. */
  lemma {:induction false} RetainedEmbedding(keep: Trace -> bool, s: seq<Trace>) returns (f: seq<nat>)
    ensures Embeds(Retained(keep, s), s, f)
  {
    if s == [] {
      f := [];
    } else {
      var init := s[..|s| - 1];
      var g := RetainedEmbedding(keep, init);
      if keep(s[|s| - 1]) {
        f := g + [|s| - 1];
      } else {
        f := g;
      }
    }
  }

  /** The pass only deletes: its result is an order-preserving subsequence of its input. */
  lemma RetainedSubsequence(keep: Trace -> bool, s: seq<Trace>)
    ensures SubsequenceOf(Retained(keep, s), s)
    ensures SubsequenceOf(Ids(Retained(keep, s)), Ids(s))
  {
    var f := RetainedEmbedding(keep, s);
    var r := Retained(keep, s);
    assert Embeds(Ids(r), Ids(s), f) by {
      forall i | 0 <= i < |f| ensures Ids(r)[i] == Ids(s)[f[i]] {
        assert r[i] == s[f[i]];
      }
    }
  }

  /** Distinct traces stay distinct. */
  lemma RetainedDistinct(keep: Trace -> bool, s: seq<Trace>)
    requires Distinct(s)
    ensures Distinct(Retained(keep, s))
  {
    var f := RetainedEmbedding(keep, s);
    var r := Retained(keep, s);
    forall i, j | 0 <= i < j < |r| ensures r[i].id != r[j].id {
      assert r[i] == s[f[i]] && r[j] == s[f[j]] && f[i] < f[j];
    }
  }

  /** Running the same pass twice removes nothing more. */
  lemma {:induction false} RetainedIdempotent(keep: Trace -> bool, s: seq<Trace>)
    ensures Retained(keep, Retained(keep, s)) == Retained(keep, s)
  {
    if s != [] {
      var init := Retained(keep, s[..|s| - 1]);
      RetainedIdempotent(keep, s[..|s| - 1]);
      var x := s[|s| - 1];
      if keep(x) {
        assert (init + [x])[..|init + [x]| - 1] == init;
      }
    }
  }

  /** Visiting a trace the pass keeps leaves the stream as it is. */
  lemma SweepKeeps(keep: Trace -> bool, snap: seq<Trace>, i: nat)
    requires i < |snap| && keep(snap[i])
    ensures Retained(keep, snap[..i + 1]) + snap[i + 1..] == Retained(keep, snap[..i]) + snap[i..]
  {
    assert snap[..i + 1][..i] == snap[..i];
    assert snap[i..] == [snap[i]] + snap[i + 1..];
  }

  /** Visiting a trace the pass rejects removes exactly that trace from the stream. */
  lemma SweepDrops(keep: Trace -> bool, snap: seq<Trace>, i: nat)
    requires Distinct(snap) && i < |snap| && !keep(snap[i])
    ensures snap[i] in Retained(keep, snap[..i]) + snap[i..]
    ensures Retained(keep, snap[..i + 1]) + snap[i + 1..] ==
      RemoveFirst(Retained(keep, snap[..i]) + snap[i..], snap[i])
  {
    var x := snap[i];
    var r := Retained(keep, snap[..i]);
    assert snap[..i + 1][..i] == snap[..i];
    assert snap[i..] == [x] + snap[i + 1..];
    assert (r + snap[i..])[|r|] == x;
    RetainedMembers(keep, snap[..i]);
    assert x !in snap[..i];
    RemoveFirstAt(r, x, snap[i + 1..]);
    assert r + snap[i..] == r + [x] + snap[i + 1..];
  }

  /** The loop `for tr in st: if not keep(tr): st.remove(tr)`. */
  method Sweep(st: Stream, keep: Trace -> bool)
    requires st.Valid()
    modifies st
    ensures st.Valid()
    ensures st.traces == Retained(keep, old(st.traces))
  {
    var snapshot := st.traces;
    for i := 0 to |snapshot|
      invariant st.traces == Retained(keep, snapshot[..i]) + snapshot[i..]
    {
      var tr := snapshot[i];
      if !keep(tr) {
        SweepDrops(keep, snapshot, i);
        st.Remove(tr);
      } else {
        SweepKeeps(keep, snapshot, i);
      }
    }
    assert st.traces == Retained(keep, snapshot) by {
      assert snapshot[..|snapshot|] == snapshot;
    }
    RetainedDistinct(keep, snapshot);
  }
}
