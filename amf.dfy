/**
 * The adaptive median filter of AMF.py, from the sampling loop on: for each
 * offset k = -radius .. radius every pixel is sampled k steps along its own
 * direction (dx, dy), the samples are stacked per pixel, and each output pixel
 * is the median of its pixel's 2·radius + 1 samples. The sampler (bilinear
 * interpolation of the spectrogram) is a parameter.
 */
module Amf {
  import opened Wrappers
  import opened Seqs

  /** A 2-D array indexed [row][column]. */
  type Grid = seq<seq<real>>

  /** A 3-D array indexed [row][column][kernel position]. */
  type Stack = seq<seq<seq<real>>>

  /** `map_coordinates(spec, [rr, cc], ...)` at one (row, column) coordinate pair. */
  type Sampler = (real, real) -> real

  predicate IsShape(g: Grid, rows: nat, cols: nat) {
    |g| == rows && forall r :: 0 <= r < rows ==> |g[r]| == cols
  }

  predicate IsStackShape(s: Stack, rows: nat, cols: nat) {
    |s| == rows && forall r :: 0 <= r < rows ==> |s[r]| == cols
  }

  // ---------------------------------------------------------------------------
  // Samples along a pixel's direction
  // ---------------------------------------------------------------------------

  /**
   * The sample k steps from pixel (r, c) along its direction:
   * `rr = rows + k * dy`, `cc = cols + k * dx`, then the sampler.
   */
  function Sample(interp: Sampler, r: nat, c: nat, dxv: real, dyv: real, k: int): real {
    interp(r as real + (k as real) * dyv, c as real + (k as real) * dxv)
  }

  /** The samples of pixel (r, c) for the offsets lo .. hi - 1, in that order. */
  function Samples(interp: Sampler, r: nat, c: nat, dxv: real, dyv: real, lo: int, hi: int): (s: seq<real>)
    requires lo <= hi
    ensures |s| == hi - lo
  {
    seq(hi - lo, j => Sample(interp, r, c, dxv, dyv, lo + j))
  }

  /** The whole kernel of a pixel: offsets -radius .. radius. */
  function Kernel(interp: Sampler, r: nat, c: nat, dxv: real, dyv: real, radius: nat): (s: seq<real>)
    ensures |s| == 2 * radius + 1
  {
    Samples(interp, r, c, dxv, dyv, -(radius as int), radius + 1)
  }

  /** `values` of one pass of the loop: every pixel sampled at offset k. */
  function Layer(rows: nat, cols: nat, dx: Grid, dy: Grid, interp: Sampler, k: int): (values: Grid)
    requires IsShape(dx, rows, cols) && IsShape(dy, rows, cols)
    ensures IsShape(values, rows, cols)
  {
    seq(rows, r requires 0 <= r < rows =>
      seq(cols, c requires 0 <= c < cols => Sample(interp, r, c, dx[r][c], dy[r][c], k)))
  }

  // ---------------------------------------------------------------------------
  // Stacking: `np.expand_dims(values, axis=-1)` and `np.concatenate(..., axis=-1)`
  // ---------------------------------------------------------------------------

  /** The stack created on the first pass: one sample per pixel. */
  function ExpandDims(values: Grid, rows: nat, cols: nat): (s: Stack)
    requires IsShape(values, rows, cols)
    ensures IsStackShape(s, rows, cols)
  {
    seq(rows, r requires 0 <= r < rows => seq(cols, c requires 0 <= c < cols => [values[r][c]]))
  }

  /** A later pass: each pixel's samples get the new value appended at the end. */
  function AppendLayer(stack: Stack, values: Grid, rows: nat, cols: nat): (s: Stack)
    requires IsStackShape(stack, rows, cols) && IsShape(values, rows, cols)
    ensures IsStackShape(s, rows, cols)
  {
    seq(rows, r requires 0 <= r < rows =>
      seq(cols, c requires 0 <= c < cols => stack[r][c] + [values[r][c]]))
  }

  /** Sampling one more offset adds its sample at the end, so samples are kept in visiting order. */
  lemma SamplesExtend(interp: Sampler, r: nat, c: nat, dxv: real, dyv: real, lo: int, hi: int)
    requires lo <= hi
    ensures Samples(interp, r, c, dxv, dyv, lo, hi + 1)
            == Samples(interp, r, c, dxv, dyv, lo, hi) + [Sample(interp, r, c, dxv, dyv, hi)]
  {
    var a, b := Samples(interp, r, c, dxv, dyv, lo, hi + 1), Samples(interp, r, c, dxv, dyv, lo, hi);
    assert forall j :: 0 <= j < hi - lo ==> a[j] == b[j];
  }

  /** The first pass, at offset `lo`, leaves each pixel holding exactly its sample at `lo`. */
  lemma FirstPass(rows: nat, cols: nat, dx: Grid, dy: Grid, interp: Sampler, lo: int, r: nat, c: nat)
    requires IsShape(dx, rows, cols) && IsShape(dy, rows, cols)
    requires r < rows && c < cols
    ensures ExpandDims(Layer(rows, cols, dx, dy, interp, lo), rows, cols)[r][c]
            == Samples(interp, r, c, dx[r][c], dy[r][c], lo, lo + 1)
  {
  }

  /**
   * A later pass at offset k turns a stack holding the samples of offsets lo .. k - 1
   * into one holding those of lo .. k, for every pixel.
   */
  lemma NextPass(stack: Stack, rows: nat, cols: nat, dx: Grid, dy: Grid, interp: Sampler, lo: int, k: int, r: nat, c: nat)
    requires IsStackShape(stack, rows, cols) && IsShape(dx, rows, cols) && IsShape(dy, rows, cols)
    requires lo <= k && r < rows && c < cols
    requires stack[r][c] == Samples(interp, r, c, dx[r][c], dy[r][c], lo, k)
    ensures AppendLayer(stack, Layer(rows, cols, dx, dy, interp, k), rows, cols)[r][c]
            == Samples(interp, r, c, dx[r][c], dy[r][c], lo, k + 1)
  {
    SamplesExtend(interp, r, c, dx[r][c], dy[r][c], lo, k);
  }

  // ---------------------------------------------------------------------------
  // np.median
  // ---------------------------------------------------------------------------

  /** The values are in ascending order. */
  ghost predicate SortedReals(s: seq<real>) {
    forall i, j :: 0 <= i < j < |s| ==> s[i] <= s[j]
  }

  function InsertReal(s: seq<real>, x: real): (r: seq<real>)
    ensures |r| == |s| + 1
  {
    if s == [] || x <= s[0] then [x] + s else [s[0]] + InsertReal(s[1..], x)
  }

  /** The values of `s` in ascending order (an insertion sort). */
  function SortReals(s: seq<real>): (r: seq<real>)
    ensures |r| == |s|
  {
    if s == [] then [] else InsertReal(SortReals(s[1..]), s[0])
  }

  lemma {:induction false} InsertRealPermutation(s: seq<real>, x: real)
    ensures multiset(InsertReal(s, x)) == multiset(s) + multiset{x}
  {
    if s != [] && x > s[0] {
      InsertRealPermutation(s[1..], x);
      assert s == [s[0]] + s[1..];
    }
  }

  /** Inserting a value no smaller than `lo` into values no smaller than `lo` keeps them so. */
  lemma {:induction false} InsertRealLowerBound(s: seq<real>, x: real, lo: real)
    requires lo <= x && forall k :: 0 <= k < |s| ==> lo <= s[k]
    ensures forall k :: 0 <= k < |s| + 1 ==> lo <= InsertReal(s, x)[k]
  {
    if s != [] && x > s[0] {
      InsertRealLowerBound(s[1..], x, lo);
      assert InsertReal(s, x) == [s[0]] + InsertReal(s[1..], x);
    }
  }

  lemma {:induction false} InsertRealAscending(s: seq<real>, x: real)
    requires SortedReals(s)
    ensures SortedReals(InsertReal(s, x))
  {
    if s != [] && x > s[0] {
      var rest := InsertReal(s[1..], x);
      InsertRealAscending(s[1..], x);
      InsertRealLowerBound(s[1..], x, s[0]);
      var r := InsertReal(s, x);
      assert r == [s[0]] + rest;
      forall i, j | 0 <= i < j < |r| ensures r[i] <= r[j] {
        if i == 0 {
          assert r[j] == rest[j - 1];
        } else {
          assert r[i] == rest[i - 1] && r[j] == rest[j - 1];
        }
      }
    }
  }

  lemma {:induction false} SortRealsAscending(s: seq<real>)
    ensures SortedReals(SortReals(s))
  {
    if s != [] {
      SortRealsAscending(s[1..]);
      InsertRealAscending(SortReals(s[1..]), s[0]);
    }
  }

  lemma {:induction false} SortRealsPermutation(s: seq<real>)
    ensures multiset(SortReals(s)) == multiset(s)
  {
    if s != [] {
      SortRealsPermutation(s[1..]);
      InsertRealPermutation(SortReals(s[1..]), s[0]);
      assert s == [s[0]] + s[1..];
    }
  }

  /** `np.median` of a non-empty vector: the middle order statistic, or the mean of the two middle ones. */
  function Median(xs: seq<real>): real
    requires |xs| > 0
  {
    var s := SortReals(xs);
    if |s| % 2 == 1 then s[|s| / 2] else (s[|s| / 2 - 1] + s[|s| / 2]) / 2.0
  }

  /** Every sorted value is one of the input values. */
  lemma SortedFromInput(xs: seq<real>, i: nat)
    requires i < |xs|
    ensures SortReals(xs)[i] in xs
  {
    SortRealsPermutation(xs);
    assert SortReals(xs)[i] in multiset(SortReals(xs));
  }

  /** For an odd count the median is one of the samples; for 2·radius + 1 samples it is sorted element `radius`. */
  lemma MedianOdd(xs: seq<real>)
    requires |xs| % 2 == 1
    ensures Median(xs) == SortReals(xs)[|xs| / 2]
    ensures Median(xs) in xs
  {
    SortedFromInput(xs, |xs| / 2);
  }

  /** The median lies within any bounds of the samples. */
  lemma MedianBounds(xs: seq<real>, lo: real, hi: real)
    requires |xs| > 0
    requires forall k :: 0 <= k < |xs| ==> lo <= xs[k] <= hi
    ensures lo <= Median(xs) <= hi
  {
    var s := SortReals(xs);
    SortedFromInput(xs, |s| / 2);
    if |s| % 2 == 0 {
      SortedFromInput(xs, |s| / 2 - 1);
    }
  }

  /** Samples that all equal c have median c. */
  lemma MedianConstant(xs: seq<real>, c: real)
    requires |xs| > 0 && forall k :: 0 <= k < |xs| ==> xs[k] == c
    ensures Median(xs) == c
  {
    MedianBounds(xs, c, c);
  }

  function AtMost(m: real): real -> bool {
    (x: real) => x <= m
  }

  function AtLeast(m: real): real -> bool {
    (x: real) => x >= m
  }

  /** A predicate that holds on the first n elements holds on at least n elements. */
  lemma PrefixCount(s: seq<real>, n: nat, p: real -> bool)
    requires n <= |s| && forall i :: 0 <= i < n ==> p(s[i])
    ensures |Filter(s, p)| >= n
  {
    FilterSplit(s, n, p);
    FilterAll(s[..n], p);
  }

  /** A predicate that holds on the last n elements holds on at least n elements. */
  lemma SuffixCount(s: seq<real>, n: nat, p: real -> bool)
    requires n <= |s| && forall i :: |s| - n <= i < |s| ==> p(s[i])
    ensures |Filter(s, p)| >= n
  {
    FilterSplit(s, |s| - n, p);
    FilterAll(s[|s| - n..], p);
  }

  /** The median of 2·h + 1 samples has at least h + 1 samples at or below it and at least h + 1 at or above it. */
  lemma MedianRank(xs: seq<real>, h: nat)
    requires |xs| == 2 * h + 1
    ensures |Filter(xs, AtMost(Median(xs)))| >= h + 1
    ensures |Filter(xs, AtLeast(Median(xs)))| >= h + 1
  {
    var s := SortReals(xs);
    var m := Median(xs);
    assert m == s[h];
    SortRealsAscending(xs);
    SortRealsPermutation(xs);
    PrefixCount(s, h + 1, AtMost(m));
    SuffixCount(s, h + 1, AtLeast(m));
    FilterPermutation(s, xs, AtMost(m));
    FilterPermutation(s, xs, AtLeast(m));
  }

  // ---------------------------------------------------------------------------
  // The filter
  // ---------------------------------------------------------------------------

  /** `np.median(stack, axis=-1)`. */
  function MedianOverKernel(stack: Stack, rows: nat, cols: nat): (filtered: Grid)
    requires IsStackShape(stack, rows, cols)
    requires forall r, c :: 0 <= r < rows && 0 <= c < cols ==> |stack[r][c]| > 0
    ensures IsShape(filtered, rows, cols)
  {
    seq(rows, r requires 0 <= r < rows =>
      seq(cols, c requires 0 <= c < cols => Median(stack[r][c])))
  }

  /** What the filter returns for radius >= 0: each pixel the median of its own kernel. */
  function Filtered(rows: nat, cols: nat, dx: Grid, dy: Grid, interp: Sampler, radius: nat): (filtered: Grid)
    requires IsShape(dx, rows, cols) && IsShape(dy, rows, cols)
    ensures IsShape(filtered, rows, cols)
  {
    seq(rows, r requires 0 <= r < rows =>
      seq(cols, c requires 0 <= c < cols => Median(Kernel(interp, r, c, dx[r][c], dy[r][c], radius))))
  }

  /** The median reduction of a stack that holds every pixel's whole kernel is the filter's output. */
  lemma MedianOfKernels(stack: Stack, rows: nat, cols: nat, dx: Grid, dy: Grid, interp: Sampler, radius: nat)
    requires IsStackShape(stack, rows, cols) && IsShape(dx, rows, cols) && IsShape(dy, rows, cols)
    requires forall r, c :: 0 <= r < rows && 0 <= c < cols ==>
               |stack[r][c]| == 2 * radius + 1 && stack[r][c] == Kernel(interp, r, c, dx[r][c], dy[r][c], radius)
    ensures MedianOverKernel(stack, rows, cols) == Filtered(rows, cols, dx, dy, interp, radius)
  {
    var out, expected := MedianOverKernel(stack, rows, cols), Filtered(rows, cols, dx, dy, interp, radius);
    forall r | 0 <= r < rows ensures out[r] == expected[r] {
      assert forall c :: 0 <= c < cols ==> out[r][c] == expected[r][c];
    }
  }

  /**
   * `AMF` from line 54 on. `spec` fixes the shape (`cols` is its column count);
   * `dx` and `dy` are the cosine and sine of the normal angle, and `interp`
   * samples the spectrogram. A negative radius leaves `stack` unbound, so line 70
   * raises: None.
   */
  method AdaptiveMedianFilter(spec: Grid, cols: nat, dx: Grid, dy: Grid, interp: Sampler, radius: int)
    returns (filtered: Option<Grid>)
    requires IsShape(spec, |spec|, cols) && IsShape(dx, |spec|, cols) && IsShape(dy, |spec|, cols)
    ensures radius < 0 ==> filtered.None?
    ensures radius >= 0 ==> filtered == Some(Filtered(|spec|, cols, dx, dy, interp, radius))
  {
    var rows := |spec|;
    var stack: Stack := [];
    var bound := false;
    var k := -radius;
    while k <= radius
      invariant -radius <= k && (radius >= 0 ==> k <= radius + 1)
      invariant bound <==> k > -radius
      invariant bound ==> 0 <= radius
      invariant bound ==> IsStackShape(stack, rows, cols)
      invariant bound ==> forall r, c :: 0 <= r < rows && 0 <= c < cols ==>
                  stack[r][c] == Samples(interp, r, c, dx[r][c], dy[r][c], -radius, k)
    {
      var values := Layer(rows, cols, dx, dy, interp, k);
      if k == -radius {
        stack := ExpandDims(values, rows, cols);
        forall r, c | 0 <= r < rows && 0 <= c < cols
          ensures stack[r][c] == Samples(interp, r, c, dx[r][c], dy[r][c], -radius, k + 1)
        {
          FirstPass(rows, cols, dx, dy, interp, k, r, c);
        }
      } else {
        ghost var prev := stack;
        stack := AppendLayer(stack, values, rows, cols);
        forall r, c | 0 <= r < rows && 0 <= c < cols
          ensures stack[r][c] == Samples(interp, r, c, dx[r][c], dy[r][c], -radius, k + 1)
        {
          NextPass(prev, rows, cols, dx, dy, interp, -radius, k, r, c);
        }
      }
      bound := true;
      k := k + 1;
    }
    if !bound {
      return None;
    }
    MedianOfKernels(stack, rows, cols, dx, dy, interp, radius);
    filtered := Some(MedianOverKernel(stack, rows, cols));
  }

  // ---------------------------------------------------------------------------
  // Properties of the filter
  // ---------------------------------------------------------------------------

  /**
   * Each output pixel is sorted sample `radius` of its own kernel, lies between
   * the smallest and largest of those samples, and has at least radius + 1 of
   * them on either side.
   */
  lemma FilteredPixel(rows: nat, cols: nat, dx: Grid, dy: Grid, interp: Sampler, radius: nat, r: nat, c: nat)
    requires IsShape(dx, rows, cols) && IsShape(dy, rows, cols)
    requires r < rows && c < cols
    ensures var ker, v := Kernel(interp, r, c, dx[r][c], dy[r][c], radius), Filtered(rows, cols, dx, dy, interp, radius)[r][c];
            v == SortReals(ker)[radius] && v in ker &&
            |Filter(ker, AtMost(v))| >= radius + 1 && |Filter(ker, AtLeast(v))| >= radius + 1
  {
    var ker := Kernel(interp, r, c, dx[r][c], dy[r][c], radius);
    MedianOdd(ker);
    MedianRank(ker, radius);
  }

  /** Pixels with the same direction sample the same offsets, so the output pixel depends on nothing else. */
  lemma FilteredLocal(rows: nat, cols: nat, dx: Grid, dy: Grid, dx': Grid, dy': Grid, interp: Sampler, radius: nat, r: nat, c: nat)
    requires IsShape(dx, rows, cols) && IsShape(dy, rows, cols)
    requires IsShape(dx', rows, cols) && IsShape(dy', rows, cols)
    requires r < rows && c < cols && dx[r][c] == dx'[r][c] && dy[r][c] == dy'[r][c]
    ensures Filtered(rows, cols, dx, dy, interp, radius)[r][c] == Filtered(rows, cols, dx', dy', interp, radius)[r][c]
  {
  }

  /** With radius 0 the only offset is 0, so each output pixel is the sample at the pixel itself. */
  lemma RadiusZero(rows: nat, cols: nat, dx: Grid, dy: Grid, interp: Sampler, r: nat, c: nat)
    requires IsShape(dx, rows, cols) && IsShape(dy, rows, cols)
    requires r < rows && c < cols
    ensures Filtered(rows, cols, dx, dy, interp, 0)[r][c] == interp(r as real, c as real)
  {
    var ker := Kernel(interp, r, c, dx[r][c], dy[r][c], 0);
    assert ker == [interp(r as real, c as real)];
    MedianConstant(ker, interp(r as real, c as real));
  }

  /** A sampler that reproduces the spectrogram at grid nodes makes radius 0 the identity. */
  lemma RadiusZeroIdentity(spec: Grid, cols: nat, dx: Grid, dy: Grid, interp: Sampler)
    requires IsShape(spec, |spec|, cols) && IsShape(dx, |spec|, cols) && IsShape(dy, |spec|, cols)
    requires forall r, c :: 0 <= r < |spec| && 0 <= c < cols ==> interp(r as real, c as real) == spec[r][c]
    ensures Filtered(|spec|, cols, dx, dy, interp, 0) == spec
  {
    var out := Filtered(|spec|, cols, dx, dy, interp, 0);
    forall r | 0 <= r < |spec| ensures out[r] == spec[r] {
      forall c | 0 <= c < cols ensures out[r][c] == spec[r][c] {
        RadiusZero(|spec|, cols, dx, dy, interp, r, c);
      }
    }
  }

  /** A sampler bounded by lo and hi gives an output bounded by lo and hi. */
  lemma FilteredBounds(rows: nat, cols: nat, dx: Grid, dy: Grid, interp: Sampler, radius: nat, lo: real, hi: real)
    requires IsShape(dx, rows, cols) && IsShape(dy, rows, cols)
    requires forall x, y :: lo <= interp(x, y) <= hi
    ensures forall r, c :: 0 <= r < rows && 0 <= c < cols ==>
              lo <= Filtered(rows, cols, dx, dy, interp, radius)[r][c] <= hi
  {
    forall r, c | 0 <= r < rows && 0 <= c < cols
      ensures lo <= Filtered(rows, cols, dx, dy, interp, radius)[r][c] <= hi
    {
      var ker := Kernel(interp, r, c, dx[r][c], dy[r][c], radius);
      assert forall k :: 0 <= k < |ker| ==> ker[k] == Sample(interp, r, c, dx[r][c], dy[r][c], -(radius as int) + k);
      MedianBounds(ker, lo, hi);
    }
  }

  /** A flat field stays flat. */
  lemma FlatField(rows: nat, cols: nat, dx: Grid, dy: Grid, interp: Sampler, radius: nat, v: real)
    requires IsShape(dx, rows, cols) && IsShape(dy, rows, cols)
    requires forall x, y :: interp(x, y) == v
    ensures forall r, c :: 0 <= r < rows && 0 <= c < cols ==> Filtered(rows, cols, dx, dy, interp, radius)[r][c] == v
  {
    FilteredBounds(rows, cols, dx, dy, interp, radius, v, v);
  }
}
