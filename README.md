# Verified model of the Prepro-F25 preprocessing core

This project models in Dafny the three pieces of discrete logic in the eCallisto
solar-radio preprocessing scripts, and proves their properties:

- **Ordering one day of recordings** (`one_day.py`). The archive listing is first
  narrowed to the names that contain the station string. `circular_sort` then reads the
  `HHMMSS` stamp of each name from the leftmost `_dddddd_` match, drops the names
  without one, sorts the rest stably by time, and rotates the list so that the day
  starts at the first recording at or after a UTC offset.
  Module `OneDay` in `one_day.dfy`.
- **The burst mask of the SNR computation** (`compute_snr.py`). A boolean mask over the
  time axis starts all False. Each burst label then sets its clamped index range, using
  Python's slice rules: an `end_idx + 1` below zero counts from the back of the array.
  The flux curve is split into the samples inside and outside the mask, and their means
  are undefined (NaN in the source, `None` here) when a side is empty.
  Module `ComputeSnr` in `compute_snr.dfy`.
- **Kernel assembly and median reduction of the adaptive median filter** (`AMF.py`).
  For every offset k = -radius .. radius, the loop samples each pixel k steps along its
  own direction (dx, dy). It appends those samples to a per-pixel stack, and each output
  pixel is the median of its 2·radius + 1 samples.
  Module `Amf` in `amf.dfy`.

`wrappers.dfy` holds the `Option` type. `seqs.dfy` holds a generic `Filter`, the model of
a Python list comprehension with a condition, together with its lemmas.

Stateful code keeps its form:
- the append loop of `circular_sort` is a method with a loop invariant;
- `list.sort` is an in-place insertion sort over an `array`, proved equal to the functional `StableSort`;
- the burst mask is an `array<bool>` marked slice by slice;
- the AMF stack is rebuilt pass by pass in a loop.

Pure expressions are functions, and the properties are lemmas about them.

The model follows the filter's code as it is written:
- The code has no chunked execution. It builds the whole stack at once, so there is no chunk size to be invariant under.
- The code does not reject `radius <= 0`:
  - `radius = 0` filters with the single sample at the pixel itself;
  - a negative radius never binds `stack`, so line 70 raises, and the model returns `None`.
- The code accepts arrays with zero rows or columns.

Some functions are plain definitions of source expressions. Their properties are stated by the lemmas in the table below:
- `OneDay.Pairs` (one_day.py:62-67): the `pairs` list built by the append loop.
- `OneDay.StableSort` (one_day.py:70): `list.sort` with the time as key.
- `OneDay.Rotate` (one_day.py:79): `pairs[idx:] + pairs[:idx]`.
- `OneDay.CircularOrder` (one_day.py:70-79): the whole result of `circular_sort` on names.
- `OneDay.StationFiles` and `OneDay.IsSubstring` (one_day.py:118): the station comprehension and `station in f`.
- `ComputeSnr.SliceBound`, `ComputeSnr.Covers` and `ComputeSnr.Covered` (compute_snr.py:47-50): Python's slice-bound rules, one label's slice, and the union of all slices.
- `ComputeSnr.MaskOf` (compute_snr.py:46-50): the final mask as a sequence.
- `ComputeSnr.Pick`, `ComputeSnr.InsideFlux` and `ComputeSnr.OutsideFlux` (compute_snr.py:52-53): boolean-array indexing, and `flux_time[burst_mask]` and `flux_time[~burst_mask]`.
- `Amf.Samples` and `Amf.Layer` (AMF.py:56-62): the sampling along each pixel's direction.
- `Amf.ExpandDims` and `Amf.AppendLayer` (AMF.py:64-67): `np.expand_dims` and `np.concatenate`.
- `Amf.SortReals`, `Amf.Median` and `Amf.MedianOverKernel` (AMF.py:70): the ordering behind `np.median`, `np.median` itself, and `np.median(..., axis=-1)`.
- `Amf.Filtered` (AMF.py:54-70): the closed form of the filter's output.

For the AMF loop, `SamplesExtend`, `FirstPass`, `NextPass` and `MedianOfKernels` state what each pass does. The loop is proved equal to `Filtered` through those steps.

## Model

| member | source | states |
|---|---|---|
| OneDay.ParseDecimal | one_day.py:55 | the model of `int()` on a slice succeeds exactly on a non-empty string of ASCII digits, and gives None (ValueError) on every other string |
| OneDay.HhmmssToSeconds | one_day.py:54-56 | the conversion succeeds exactly when the string has at least 5 characters of which the first min(6, length) are digits, since the three slices clamp |
| OneDay.SixDigitSeconds | one_day.py:54-56 | on six digits the result is 3600·HH + 60·MM + SS, where HH, MM and SS are the two-digit values of characters 0-1, 2-3 and 4-5; it is at most 99·3600 + 99·60 + 99 |
| OneDay.FindStamp | one_day.py:59 | the search returns the leftmost position of `_dddddd_` at or after `from`, and None only when there is none |
| OneDay.StampSeconds | one_day.py:64-66 | a name yields a time exactly when the search finds a match |
| OneDay.StampSecondsLeftmost | one_day.py:59-66 | a name has a time iff `_dddddd_` occurs in it, and the time is read from the six digits of the leftmost occurrence |
| OneDay.PairsMatched | one_day.py:63-67 | the pairs list holds exactly the stamped names, in input order, each with its own stamp's time; non-matching names are dropped |
| OneDay.InsertLast | one_day.py:70 | one insertion step of the in-place sort: the prefix up to `i` becomes the functional insertion of `a[i]` into the sorted prefix, and the rest of the array is untouched |
| OneDay.SortByTime | one_day.py:70 | sorting in place leaves the array equal to `StableSort` of its old contents |
| OneDay.StableSortSorted | one_day.py:70 | the sorted pairs are non-decreasing in time |
| OneDay.StableSortPermutation | one_day.py:70 | the sorted pairs are a permutation of the pairs |
| OneDay.StableSortStable | one_day.py:70 | for each time t, the pairs with time t appear in the sorted list in the same order as in the input (stability of `list.sort`) |
| OneDay.FirstAtLeast | one_day.py:77 | `idx` is the first position whose time is at least the offset, or 0 when no time reaches it |
| OneDay.RotatePermutation | one_day.py:79 | the rotation `pairs[idx:] + pairs[:idx]` is a permutation of the sorted pairs |
| OneDay.RotationAtTime | one_day.py:77-79 | rotating a time-ordered list keeps the entries of each time together and in order |
| OneDay.RotateNone | one_day.py:77-79 | when no time reaches the offset, `idx` is 0 and the rotation changes nothing |
| OneDay.RotateLate | one_day.py:77-79 | when some time reaches the offset, the first n − idx rotated entries are at or after it and non-decreasing |
| OneDay.RotateEarly | one_day.py:77-79 | the last idx rotated entries are before the offset and non-decreasing |
| OneDay.NamesPermutation | one_day.py:79 | taking the names of a permutation of pairs gives a permutation of the names |
| OneDay.NamesAtTime | one_day.py:79 | selecting the names of one time equals taking the names of the entries of that time |
| OneDay.CircularOrderIsRotation | one_day.py:70-79 | the output is the time-ascending list rotated left by `idx`: `sorted[idx:] + sorted[:idx]` |
| OneDay.AscendingSorted | one_day.py:70 | the time-ascending list holds stamped names whose times do not decrease |
| OneDay.AscendingStable | one_day.py:70 | in the time-ascending list, the names of each time keep their input order |
| OneDay.CircularOrderPermutation | one_day.py:63-79 | the output is a permutation of the matched names, and its length is the number of matches |
| OneDay.CircularOrderStable | one_day.py:70-79 | in the output, the names of each time keep their input order |
| OneDay.LateSorted | one_day.py:77 | some matched name reaches the offset exactly when some sorted pair does |
| OneDay.CircularOrderLate | one_day.py:70-79 | when some stamped time reaches the offset, the first n − idx output names are at or after it, with non-decreasing times |
| OneDay.CircularOrderEarly | one_day.py:70-79 | the last idx output names are before the offset, with non-decreasing times |
| OneDay.CircularOrderNoneLate | one_day.py:77-79 | when no stamped time reaches the offset, `idx` is 0 and the output is plain ascending order |
| OneDay.CircularSort | one_day.py:40-81 | `circular_sort` returns the stable time order of the matched names rotated at the offset; an unparsable offset raises (None) |
| OneDay.IsSubstringAt | one_day.py:118 | `station in f` holds exactly when the station string occurs at some position of `f` |
| OneDay.StationFilterExact | one_day.py:118 | the station filter keeps exactly the names that contain the station, each as often as in the input, in input order |
| ComputeSnr.CoversExactly | compute_snr.py:47-50 | for `end_idx >= 0` a label marks exactly max(0, start_idx) ≤ i ≤ min(n − 1, end_idx); `end_idx = −1` marks nothing; `end_idx < −1` marks max(0, start_idx) ≤ i < n + end_idx + 1 |
| ComputeSnr.MarkRange | compute_snr.py:50 | the slice assignment sets exactly the bits in `[lo, hi)` and never clears one |
| ComputeSnr.BurstMask | compute_snr.py:46-50 | the mask has length `n_times`, and an index is True exactly when some label's slice covers it |
| ComputeSnr.CoveredOrderFree | compute_snr.py:47-50 | the mask depends only on which labels occur, not on their order or repetition |
| ComputeSnr.CoveredUnion | compute_snr.py:47-50 | marking two label lists one after the other marks the union of their ranges |
| ComputeSnr.Indices | compute_snr.py:52-53 | a boolean selection takes only indices with the wanted bit, in strictly increasing order |
| ComputeSnr.IndicesPartition | compute_snr.py:52-53 | every time index lands in `flux[mask]` iff its bit is set, and in `flux[~mask]` iff it is not |
| ComputeSnr.IndicesSizes | compute_snr.py:52-53 | the inside and outside selections together have `n_times` indices |
| ComputeSnr.IndicesEmpty | compute_snr.py:55-56 | a selection is empty exactly when no bit has the wanted value |
| ComputeSnr.FluxPartition | compute_snr.py:52-53 | the inside and outside flux samples together number `n_times` |
| ComputeSnr.Mean | compute_snr.py:55-56 | the mean is defined exactly for a non-empty selection |
| ComputeSnr.MeanBounds | compute_snr.py:55-56 | a mean lies within any bounds of the averaged samples |
| ComputeSnr.MeanConstant | compute_snr.py:55-56 | the mean of constant samples is that constant |
| ComputeSnr.SignalNoise | compute_snr.py:42-56 | the signal and noise means are the means of the inside and outside flux; the signal is undefined exactly when no index is marked, the noise exactly when every index is |
| Amf.SamplesExtend | AMF.py:56-62 | sampling one more offset k adds the sample at `(r + k·dy, c + k·dx)` at the end of a pixel's samples, so samples stay in visiting order |
| Amf.FirstPass | AMF.py:58-65 | the first pass (k = −radius) creates a stack in which every pixel holds exactly its sample at offset −radius |
| Amf.NextPass | AMF.py:58-67 | a later pass at offset k turns each pixel's samples for offsets −radius .. k − 1 into those for −radius .. k |
| Amf.SortRealsAscending | AMF.py:70 | the ordering used for the median is ascending |
| Amf.SortRealsPermutation | AMF.py:70 | the ordering used for the median is a permutation of the samples |
| Amf.MedianOdd | AMF.py:70 | for an odd count the median is the middle sorted sample, and it is one of the samples |
| Amf.MedianBounds | AMF.py:70 | the median lies within any bounds of the samples |
| Amf.MedianConstant | AMF.py:70 | samples that all equal c have median c |
| Amf.MedianRank | AMF.py:70 | of 2·h + 1 samples, at least h + 1 are at or below the median and at least h + 1 at or above it |
| Amf.MedianOfKernels | AMF.py:70 | the median reduction of a stack holding every pixel's 2·radius + 1 kernel samples is the per-pixel median of those kernels |
| Amf.AdaptiveMedianFilter | AMF.py:54-70 | the loop visits k = −radius .. radius in order, so layer j of each pixel is the sample at offset −radius + j; the result is the per-pixel median of the kernel; a negative radius leaves the stack unbound (None) |
| Amf.FilteredPixel | AMF.py:70 | each output pixel is sorted sample `radius` of its own 2·radius + 1 samples, is one of them, and has at least radius + 1 samples on either side |
| Amf.FilteredLocal | AMF.py:54-70 | an output pixel depends only on that pixel's direction and the sampler |
| Amf.RadiusZero | AMF.py:56-62 | with radius 0 each output pixel is the sample at the pixel's own coordinates |
| Amf.RadiusZeroIdentity | AMF.py:56-70 | if the sampler reproduces the spectrogram at grid nodes, radius 0 returns the spectrogram unchanged |
| Amf.FilteredBounds | AMF.py:70 | a sampler bounded by lo and hi gives an output bounded by lo and hi |
| Amf.FlatField | AMF.py:70 | a constant sampler gives a constant output |

## Left out

- Network, HTML listing, gzip and FITS handling in `one_day.py` (lines 29-38, 98-117 and 119-133), and every `__main__` block: this is I/O and library calls.
- ParseDecimal, HhmmssToSeconds: Python's `int()` also accepts a sign, surrounding whitespace, underscores and non-ASCII digits. The model parses ASCII digits only, so an offset such as `" 1 2 3"` fails here but parses in Python.
- Regular-expression `\d` also matches non-ASCII decimal digits; the stamp search accepts ASCII digits only.
- The geometry of `AMF` (lines 39-51 and the interpolation of line 62): Sobel gradients, `arctan2`, `sin`/`cos` and SciPy's bilinear reflect-mode `map_coordinates` are floating-point library code that is not shown. They become the direction fields `dx`, `dy` and the sampler `interp`, which are parameters. The unused `offsets` (line 49) and the overwritten `filtered` zeros (line 46) have no effect.
- Floating point: samples, flux and means are exact reals. Rounding, NaN propagation in the inputs and numpy's summation order are not modelled.
- `flux_time = spectrogram.mean(axis=0)` (compute_snr.py:43) is floating-point statistics. Its result is the `flux` parameter of `SignalNoise`, whose length is `n_times`.
- The SNR itself (compute_snr.py:58: `log10` and the NaN/zero truthiness test), and the plotting in compute_snr.py and plot_npy.py.
- `AGBS.py`: floating-point background statistics with `np.convolve`.
- `tqdm` progress bars: cosmetic.
- Amf.Median on an even count averages the two middle values, as `np.median` does. The filter only ever calls it on 2·radius + 1 samples.
