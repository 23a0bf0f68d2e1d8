/**
 * The burst mask of compute_snr.py: a boolean array over the time axis that is
 * marked from labelled index ranges with Python's slice rules, and the split of
 * the flux-versus-time curve into the samples inside and outside the bursts,
 * whose means are undefined (NaN in the source, None here) when a side is empty.
 */
module ComputeSnr {
  import opened Wrappers

  /** One entry of `burst_labels`: `{"burst": ..., "start_idx": ..., "end_idx": ...}`. */
  datatype BurstLabel = BurstLabel(burst: string, startIdx: int, endIdx: int)

  function Max(a: int, b: int): int {
    if a >= b then a else b
  }

  function Min(a: int, b: int): int {
    if a <= b then a else b
  }

  // ---------------------------------------------------------------------------
  // One entry: `burst_mask[start:end+1] = True`
  // ---------------------------------------------------------------------------

  /**
   * How a bound of a step-1 slice is resolved on an array of length `n`:
   * a negative bound counts from the end, and the result is clamped to [0, n].
   */
  function SliceBound(i: int, n: nat): (b: nat)
    ensures b <= n
  {
    if i < 0 then (if i + n < 0 then 0 else i + n)
    else if i > n then n else i
  }

  /** `start = max(0, entry["start_idx"])`. */
  function Start(entry: BurstLabel): int {
    Max(0, entry.startIdx)
  }

  /** `end = min(n_times - 1, entry["end_idx"])`. */
  function End(entry: BurstLabel, n: nat): int {
    Min(n - 1, entry.endIdx)
  }

  /** Index `i` lies in the slice `[start:end+1]` of a length-`n` mask. */
  predicate Covers(entry: BurstLabel, n: nat, i: int) {
    SliceBound(Start(entry), n) <= i < SliceBound(End(entry, n) + 1, n)
  }

  /**
   * The indices one entry marks. A non-negative end marks the clamped closed range
   * [max(0, start_idx), min(n - 1, end_idx)]; an end of -1 gives the empty slice
   * `[start:0]`; an end below -1 makes `end + 1` count from the back of the array.
   */
  lemma CoversExactly(entry: BurstLabel, n: nat, i: int)
    requires 0 <= i < n
    ensures entry.endIdx >= 0 ==>
              (Covers(entry, n, i) <==> Max(0, entry.startIdx) <= i <= Min(n - 1, entry.endIdx))
    ensures entry.endIdx == -1 ==> !Covers(entry, n, i)
    ensures entry.endIdx < -1 ==>
              (Covers(entry, n, i) <==> Max(0, entry.startIdx) <= i < n + entry.endIdx + 1)
  {
  }

  // ---------------------------------------------------------------------------
  // The whole mask
  // ---------------------------------------------------------------------------

  /** Index `i` is marked by some entry. */
  predicate Covered(labels: seq<BurstLabel>, n: nat, i: int) {
    exists j :: 0 <= j < |labels| && Covers(labels[j], n, i)
  }

  /** The final `burst_mask` as a sequence. */
  function MaskOf(labels: seq<BurstLabel>, n: nat): (m: seq<bool>)
    ensures |m| == n
  {
    seq(n, i => Covered(labels, n, i))
  }

  lemma CoveredExtend(labels: seq<BurstLabel>, k: nat, n: nat, i: int)
    requires k < |labels|
    ensures Covered(labels[..k + 1], n, i) <==> Covered(labels[..k], n, i) || Covers(labels[k], n, i)
  {
    var pre, next := labels[..k], labels[..k + 1];
    if Covered(next, n, i) {
      var j :| 0 <= j < |next| && Covers(next[j], n, i);
      if j < k {
        assert pre[j] == next[j];
      }
    }
    if Covered(pre, n, i) {
      var j :| 0 <= j < |pre| && Covers(pre[j], n, i);
      assert next[j] == pre[j];
    }
    if Covers(labels[k], n, i) {
      assert next[k] == labels[k];
    }
  }

  /** The slice assignment `mask[lo:hi] = True`: it only ever sets bits. */
  method MarkRange(mask: array<bool>, lo: nat, hi: nat)
    requires lo <= mask.Length && hi <= mask.Length
    modifies mask
    ensures forall i :: 0 <= i < mask.Length ==> mask[i] == (old(mask[i]) || lo <= i < hi)
  {
    forall i | lo <= i < hi {
      mask[i] := true;
    }
  }

  /**
   * `burst_mask`: all False over the `n_times` time steps, then each entry's slice
   * set in turn. The result is the union of the labels' ranges.
   */
  method BurstMask(nTimes: nat, labels: seq<BurstLabel>) returns (mask: array<bool>)
    ensures fresh(mask)
    ensures mask.Length == nTimes
    ensures forall i :: 0 <= i < nTimes ==> mask[i] == Covered(labels, nTimes, i)
  {
    mask := new bool[nTimes](_ => false);
    var k := 0;
    while k < |labels|
      invariant 0 <= k <= |labels|
      invariant mask.Length == nTimes
      invariant forall i :: 0 <= i < nTimes ==> mask[i] == Covered(labels[..k], nTimes, i)
    {
      var entry := labels[k];
      MarkRange(mask, SliceBound(Start(entry), nTimes), SliceBound(End(entry, nTimes) + 1, nTimes));
      forall i | 0 <= i < nTimes
        ensures Covered(labels[..k + 1], nTimes, i) <==> Covered(labels[..k], nTimes, i) || Covers(labels[k], nTimes, i)
      {
        CoveredExtend(labels, k, nTimes, i);
      }
      k := k + 1;
    }
    assert labels[..|labels|] == labels;
  }

  /** The mask depends only on the labels, not on their order or repetition. */
  lemma CoveredOrderFree(a: seq<BurstLabel>, b: seq<BurstLabel>, n: nat, i: int)
    requires forall l :: l in a <==> l in b
    ensures Covered(a, n, i) <==> Covered(b, n, i)
  {
    if Covered(a, n, i) {
      var j :| 0 <= j < |a| && Covers(a[j], n, i);
      assert a[j] in b;
      var k :| 0 <= k < |b| && b[k] == a[j];
    }
    if Covered(b, n, i) {
      var j :| 0 <= j < |b| && Covers(b[j], n, i);
      assert b[j] in a;
      var k :| 0 <= k < |a| && a[k] == b[j];
    }
  }

  /** Marking the labels of `a` and then those of `b` marks the union of both. */
  lemma CoveredUnion(a: seq<BurstLabel>, b: seq<BurstLabel>, n: nat, i: int)
    ensures Covered(a + b, n, i) <==> Covered(a, n, i) || Covered(b, n, i)
  {
    var ab := a + b;
    if Covered(ab, n, i) {
      var j :| 0 <= j < |ab| && Covers(ab[j], n, i);
      if j >= |a| {
        assert b[j - |a|] == ab[j];
      }
    }
    if Covered(a, n, i) {
      var j :| 0 <= j < |a| && Covers(a[j], n, i);
      assert ab[j] == a[j];
    }
    if Covered(b, n, i) {
      var j :| 0 <= j < |b| && Covers(b[j], n, i);
      assert ab[|a| + j] == b[j];
    }
  }

  // ---------------------------------------------------------------------------
  // Inside and outside: `flux_time[burst_mask]` and `flux_time[~burst_mask]`
  // ---------------------------------------------------------------------------

  /** The indices at which `mask` holds `want`, ascending. */
  function Indices(mask: seq<bool>, want: bool): (r: seq<nat>)
    ensures forall k :: 0 <= k < |r| ==> r[k] < |mask| && mask[r[k]] == want
    ensures forall k, l :: 0 <= k < l < |r| ==> r[k] < r[l]
  {
    if mask == [] then []
    else Indices(mask[..|mask| - 1], want) + (if mask[|mask| - 1] == want then [|mask| - 1] else [])
  }

  /** Every index with the wanted bit is selected. */
  lemma {:induction false} IndicesComplete(mask: seq<bool>, want: bool, i: nat)
    requires i < |mask| && mask[i] == want
    ensures i in Indices(mask, want)
  {
    var init := mask[..|mask| - 1];
    if i < |mask| - 1 {
      assert init[i] == mask[i];
      IndicesComplete(init, want, i);
    }
  }

  /** So every index lands in exactly one of the two selections. */
  lemma IndicesPartition(mask: seq<bool>, i: nat)
    requires i < |mask|
    ensures i in Indices(mask, true) <==> mask[i]
    ensures i in Indices(mask, false) <==> !mask[i]
  {
    if mask[i] {
      IndicesComplete(mask, true, i);
    } else {
      IndicesComplete(mask, false, i);
    }
  }

  /** The two selections together are as long as the mask. */
  lemma {:induction false} IndicesSizes(mask: seq<bool>)
    ensures |Indices(mask, true)| + |Indices(mask, false)| == |mask|
  {
    if mask != [] {
      IndicesSizes(mask[..|mask| - 1]);
    }
  }

  /** A selection is empty exactly when no bit has the wanted value. */
  lemma IndicesEmpty(mask: seq<bool>, want: bool)
    ensures |Indices(mask, want)| == 0 <==> forall i :: 0 <= i < |mask| ==> mask[i] != want
  {
    if exists i :: 0 <= i < |mask| && mask[i] == want {
      var i :| 0 <= i < |mask| && mask[i] == want;
      IndicesComplete(mask, want, i);
    }
  }

  /** Boolean-array indexing `flux[idx]`. */
  function Pick(flux: seq<real>, idx: seq<nat>): (r: seq<real>)
    requires forall k :: 0 <= k < |idx| ==> idx[k] < |flux|
    ensures |r| == |idx|
  {
    seq(|idx|, k requires 0 <= k < |idx| => flux[idx[k]])
  }

  // ---------------------------------------------------------------------------
  // The means: `x.mean() if x.size > 0 else np.nan`
  // ---------------------------------------------------------------------------

  function Sum(xs: seq<real>): real {
    if xs == [] then 0.0 else Sum(xs[..|xs| - 1]) + xs[|xs| - 1]
  }

  /** The arithmetic mean, None (NaN) for an empty selection. */
  function Mean(xs: seq<real>): (r: Option<real>)
    ensures r.Some? <==> |xs| > 0
  {
    if |xs| == 0 then None else Some(Sum(xs) / (|xs| as real))
  }

  lemma {:induction false} SumBounds(xs: seq<real>, lo: real, hi: real)
    requires forall k :: 0 <= k < |xs| ==> lo <= xs[k] <= hi
    ensures (|xs| as real) * lo <= Sum(xs) <= (|xs| as real) * hi
  {
    if xs != [] {
      SumBounds(xs[..|xs| - 1], lo, hi);
    }
  }

  /** A mean lies between any lower and upper bound of the values averaged. */
  lemma MeanBounds(xs: seq<real>, lo: real, hi: real)
    requires forall k :: 0 <= k < |xs| ==> lo <= xs[k] <= hi
    ensures Mean(xs).Some? ==> lo <= Mean(xs).value <= hi
  {
    if |xs| > 0 {
      var n := |xs| as real;
      SumBounds(xs, lo, hi);
      assert lo == (n * lo) / n;
      assert hi == (n * hi) / n;
    }
  }

  /** The mean of a constant selection is that constant. */
  lemma MeanConstant(xs: seq<real>, c: real)
    requires |xs| > 0 && forall k :: 0 <= k < |xs| ==> xs[k] == c
    ensures Mean(xs) == Some(c)
  {
    MeanBounds(xs, c, c);
  }

  /** `flux_time[burst_mask]` for the mask of the labels. */
  function InsideFlux(flux: seq<real>, labels: seq<BurstLabel>): seq<real> {
    Pick(flux, Indices(MaskOf(labels, |flux|), true))
  }

  /** `flux_time[~burst_mask]` for the mask of the labels. */
  function OutsideFlux(flux: seq<real>, labels: seq<BurstLabel>): seq<real> {
    Pick(flux, Indices(MaskOf(labels, |flux|), false))
  }

  /** Inside and outside samples together are all `n_times` samples. */
  lemma FluxPartition(flux: seq<real>, labels: seq<BurstLabel>)
    ensures |InsideFlux(flux, labels)| + |OutsideFlux(flux, labels)| == |flux|
  {
    IndicesSizes(MaskOf(labels, |flux|));
  }

  /**
   * Lines 42-56 of `compute_snr` without the SNR itself: `flux` is `flux_time`, so
   * its length is `n_times`. The signal mean is undefined exactly when no time
   * step is marked, the noise mean exactly when every one is.
   */
  method SignalNoise(flux: seq<real>, labels: seq<BurstLabel>) returns (signal: Option<real>, noise: Option<real>)
    ensures signal == Mean(InsideFlux(flux, labels))
    ensures noise == Mean(OutsideFlux(flux, labels))
    ensures signal.None? <==> forall i :: 0 <= i < |flux| ==> !Covered(labels, |flux|, i)
    ensures noise.None? <==> forall i :: 0 <= i < |flux| ==> Covered(labels, |flux|, i)
  {
    var mask := BurstMask(|flux|, labels);
    assert mask[..] == MaskOf(labels, |flux|);
    var inside := Pick(flux, Indices(mask[..], true));
    var outside := Pick(flux, Indices(mask[..], false));
    signal := Mean(inside);
    noise := Mean(outside);
    IndicesEmpty(mask[..], true);
    IndicesEmpty(mask[..], false);
  }
}
