# Melodic contour segmentation and cosine codec — a verified model

This project models, in Dafny, the discrete core of a melodic-contour
toolkit. A melody is a list of onset times, the last being the end of the
melody, and the pitch that starts at each onset. The toolkit does three
things:

- It turns every melody of a batch into fixed-length rows of held-pitch
  samples. A row is either the whole melody or one segment between
  consecutive measure boundaries. Measure boundaries can be shifted at
  random, and rows of different lengths are padded with zeros.
- It compresses a melody into a cosine code. The code keeps only the k
  coefficients of largest magnitude.
- It rebuilds a signal from one code, or averages the rebuilds of a
  first-order and a second-order code.

The modules follow the pipeline:

| module | file | what it models |
|---|---|---|
| `Results` | results.dfy | the error kinds and the `Result`/`Option` wrappers |
| `Resampler` | resample.dfy | previous-value ("zero-order hold") resampling at `n` points spaced like `linspace(0, 1, n)` |
| `Contours` | contours.dfy | a melody, and the normalisation of a window of onsets to `[0, 1]` |
| `Measures` | measures.dfy | measure boundary selection (`times / 6` a multiple of the resolution) and the jitter filter |
| `Segments` | segments.dfy | the rows of one melody: whole-melody mode and measure mode with segment pairing |
| `Padding` | padding.dfy | right zero-padding to the widest row |
| `Dataset` | dataset.dfy | the batch: rows of every melody in order, padded in adaptive mode |
| `TopK` | topk.dfy | zeroing all but the k largest coefficients, specified by counts and magnitude order |
| `Codec` | codec.dfy | the order check, the cosine representation, and reconstruction from one or two codes |

Times and normalised positions are exact `real`s, and pitches are `int`s.
Every case the Python code raises on, or cannot turn into a meaningful row,
is an explicit `Failure`, except a fixed-mode batch that yields no rows at
all (see "Left out"):

- a segment spanning fewer than two onsets;
- padding an empty batch;
- an order other than 1 or 2;
- two rebuilt signals of shapes numpy cannot broadcast together.

The code checks neither its input melodies, nor `k`, nor the lengths of
two codes. The model follows the code:

- No malformed-contour error: a well-formed melody is a precondition here. It has at least two onsets, one pitch per onset, times starting at 0 and strictly increasing. Measure mode would also take one pitch fewer; see "Left out".
- No check of `k`: every integer `k` is accepted, with the meaning of the slice `[:-k]`.
- No mismatched-code error: reconstruction follows numpy broadcasting. Equal lengths or a one-entry operand are accepted, and anything else fails.

## Model

| member | source | states |
|---|---|---|
| Resampler.SamplePoint | data_utils.py:32 | the i-th of n sample points lies in [0, 1], the first is 0 and, for n > 1, the last is exactly 1 |
| Resampler.SamplePointMonotone | data_utils.py:32 | sample points never decrease with their index |
| Resampler.IsHeldUnique | data_utils.py:29-31 | at most one onset is the one sounding at a given position |
| Resampler.PrevIndex | data_utils.py:29-31 | the onset found is the last one at or before the position |
| Resampler.PrevIndexIsCountMinusOne | data_utils.py:29-31 | that onset's index is the number of onsets at or before the position, minus one (the binary-search reading of "previous") |
| Resampler.PrevIndexMonotone | data_utils.py:29-31 | a later position never picks an earlier onset |
| Resampler.SamplesFrom | data_utils.py:32 | the samples from index i on number n - i |
| Resampler.SamplesFromAt | data_utils.py:29-32 | sample i is the value of the onset sounding at sample point i |
| Resampler.Resample | data_utils.py:29-32 | exactly n samples; the first is the first value and, for n > 1, the last is the last value, because the closed right end maps to the last onset |
| Resampler.ResampleHolds | data_utils.py:29-32 | every sample is the value of the onset sounding at its point, hence one of the input values |
| Resampler.ResampleMonotone | data_utils.py:29-32 | for sample indices i <= j the onset chosen for i is at most the one chosen for j |
| Contours.Normalise | data_utils.py:55-58 | a window's onsets, shifted and divided by the time of its last onset, are strictly increasing from exactly 0 to exactly 1 |
| Contours.HoldSamples | data_utils.py:55-60 | a window sampled at n points gives n samples, starting at the window's first pitch and, for n > 1, ending at its last pitch |
| Contours.HoldSamplesHeld | data_utils.py:55-60 | each window sample is the pitch of the window onset sounding at its point, hence one of the window's pitches |
| Contours.WholeWindowDividesByEnd | data_utils.py:29-31 | normalising the whole melody is dividing every onset time by the end time |
| Measures.BoundariesFrom | data_utils.py:38-40 | the boundary onsets from lo on, increasing, and exactly those with a boundary time; none for a resolution <= 0 |
| Measures.BoundaryIndices | data_utils.py:38-40 | the boundaries are exactly the increasing list of onsets whose measure number is a multiple of the resolution, at most one per onset |
| Measures.BoundaryExample | data_utils.py:38-40 | times 0, 6, 9, 12, 18 with resolution 1 give boundaries 0, 1, 3, 4 |
| Measures.KeepBelow | data_utils.py:49 | the filter keeps exactly the entries below the limit, and no more entries than it was given |
| Measures.PositionsBelow | data_utils.py:49 | the positions of in-range entries, increasing, and exactly those positions |
| Measures.KeepBelowPicksPositions | data_utils.py:49 | the filter output is the entries at those positions, in their original order |
| Measures.ShiftWithinDraws | data_utils.py:45-47 | with offsets drawn from [0, m), each shifted boundary lies at or after its boundary and fewer than m onsets after it |
| Measures.Jitter | data_utils.py:43-49 | every survivor is below the limit, and a value survives exactly when it is some boundary plus its offset and below the limit |
| Measures.JitterSurvivors | data_utils.py:43-49 | the survivors are the shifted boundaries at increasing positions, in their original order, each within m - 1 onsets after its boundary |
| Measures.JitterDropsNothingInRange | data_utils.py:45-49 | when no shifted boundary reaches the limit, jitter only shifts |
| Segments.NatToString | data_utils.py:61 | `str(i)`: a string of decimal digits whose value is exactly n, a single digit exactly when n < 10, and no leading zero |
| Segments.NatToStringInjective | data_utils.py:61 | different numbers are spelled differently |
| Segments.SegmentId | data_utils.py:61 | a segment id is the title, then "_", then the decimal spelling of the segment number |
| Segments.SegmentIdsDistinct | data_utils.py:61 | the segments of one melody never share an id |
| Segments.WholeRow | data_utils.py:27-36 | whole-melody row: id is the title, duration is the end time, n samples from the first to the last pitch |
| Segments.WholeRowHeldPitch | data_utils.py:29-35 | each whole-melody sample is the pitch of the onset sounding at the sample point after dividing times by the end time |
| Segments.SegmentRow | data_utils.py:52-63 | segment row: id title_i, duration times[end] - times[start], which exceeds the normalising span times[end-1] - times[start] |
| Segments.PairWindowsFrom | data_utils.py:51-53 | consecutive boundaries pair into windows in order; success exactly when every pair spans two onsets, otherwise the first bad pair is named |
| Segments.SegmentRows | data_utils.py:51-63 | exactly max(0, len - 1) rows when every pair spans two onsets, row i spanning [b[i], b[i+1]) with n samples; fewer than two boundaries give none |
| Segments.SegmentBoundaries | data_utils.py:38-49 | jittered boundaries all lie in [0, len(times) - 1) |
| Segments.MeasureRowsIgnoreLastPitch | data_utils.py:38-63 | measure mode never reads the pitch of the last onset: replacing it leaves the rows, or the error, unchanged |
| Segments.ContourRows | data_utils.py:27-63 | negative resolution gives the single whole-melody row; resolution 0 selects no boundaries and gives no rows, with or without jitter; every row has n samples |
| Padding.MaxWidth | data_utils.py:67 | the batch width is at least every row's width and is some row's width |
| Padding.PadRow | data_utils.py:69 | a padded row keeps id, duration and prefix, reaches the width, and every appended entry is 0 |
| Padding.Pad | data_utils.py:65-69 | an empty batch fails; otherwise every row reaches the batch maximum with its prefix unchanged and zeros appended |
| Padding.PadIdempotent | data_utils.py:65-69 | padded rows share one width, and padding them again changes nothing |
| Dataset.FlattenFirstFailure | data_utils.py:20-63 | the batch succeeds exactly when every melody does, and otherwise reports the first failing melody's error |
| Dataset.FlattenWidth | data_utils.py:20-63 | rows of width n from every melody give rows of width n in the batch |
| Dataset.FlattenSingletons | data_utils.py:20-36 | one row per melody flattens to those rows, one per melody, in order |
| Dataset.SongContours | data_utils.py:20-69 | adaptive mode yields rows of one width, an empty adaptive batch fails, fixed mode is the unpadded rows, and melody failures propagate |
| Dataset.FirstFailingContourStops | data_utils.py:20-63 | the batch fails exactly when some melody fails, with the error of the first failing melody |
| Dataset.WholeModeOneRowPerContour | data_utils.py:27-36 | whole-melody mode emits exactly one row per melody, with the melody's title, end time and sample count |
| Dataset.FixedDatasetWidth | data_utils.py:60-69 | with a fixed count n, every row of the dataset has exactly n samples |
| TopK.RankBound | data_utils.py:108 | every rank is below the number of coefficients |
| TopK.PrecedesRankLess | data_utils.py:108 | a coefficient earlier in ascending magnitude order has the smaller rank |
| TopK.RankInjective | data_utils.py:108 | no two coefficients share a rank |
| TopK.LowestSize | data_utils.py:108 | exactly d positions have rank below d, for every d up to the length |
| TopK.LowestAreSmallest | data_utils.py:108 | every position of the d lowest ranks is no larger in magnitude than any other |
| TopK.DropCount | data_utils.py:108 | the slice [:-k] selects n - k for 1 <= k <= n, nothing for k == 0 or k >= n, and min(-k, n) for k < 0 |
| TopK.KeepTopK | data_utils.py:108 | retention keeps the length, and changes nothing when nothing is dropped |
| TopK.KeepTopKRetainsLargest | data_utils.py:108 | exactly DropCount(k, n) positions are zeroed, the others keep their values, and every kept magnitude is at least every zeroed one |
| TopK.KeepTopKInRange | data_utils.py:108 | for 1 <= k <= n, `KeepTopK` zeroes exactly the n - k smallest-magnitude positions, keeps the other k unchanged, and k positions remain |
| TopK.KeepTopKIdempotent | data_utils.py:108 | retaining the top k of a retained code changes nothing |
| Codec.Signal | data_utils.py:99-105 | the codec's signal has n samples, from the first to the last pitch |
| Codec.SignalIsWholeRow | data_utils.py:102-105 | the codec samples a melody exactly as whole-melody mode does, so each sample is one of its pitches |
| Codec.Coefficients | data_utils.py:104-115 | any order other than 1 or 2 is an InvalidOrder error, and orders 1 and 2 succeed |
| Codec.CosineRepresentation | data_utils.py:104-117 | the same order check, and a valid code as long as the transform's output |
| Codec.CosineRepresentationRetainsLargest | data_utils.py:104-113 | a valid code zeroes exactly DropCount(k, n) coefficients of the transform, the smallest by magnitude, and keeps the rest |
| Codec.Average | data_utils.py:144 | broadcastable shapes succeed and others fail with both lengths; each entry lies between its two broadcast inputs |
| Codec.AverageIsMidpoint | data_utils.py:144 | each averaged entry is halfway between its two inputs |
| Codec.AverageSymmetric | data_utils.py:144 | averaging does not depend on the order of the two signals |
| Codec.AverageSelf | data_utils.py:144 | averaging a signal with itself gives it back |
| Codec.Reconstruct | data_utils.py:139-147 | one code: the inverse of it; two codes: success exactly when shapes broadcast, every entry halfway between the single and the double inverse |
| Codec.SingleCodeRoundTrip | data_utils.py:104-108 | with nothing zeroed and an inverse that undoes the transform, a first-order code rebuilds the signal |
| Codec.DualCodeRoundTrip | data_utils.py:139-147 | with nothing zeroed and an inverse that undoes each step, averaging both rebuilds gives the signal back |

## Left out

- The discrete cosine transform and its inverse (scipy's orthonormal type II): they are floating-point library code, so both are function parameters of type `Transform`, and the round-trip lemmas assume the inverse undoes the transform on the signal at hand.
- Reading the pickled table, iterating its rows and assembling the DataFrame (data_utils.py:15, 20-22, 71-74): input is a sequence of `Contour` records and output a sequence of `Row`s (id, duration, samples).
- The floating-point computation of the adaptive sample count (data_utils.py:25): each melody's count is an input (`Resolution.Adaptive`).
- The random number generator (data_utils.py:44-47): the offsets are an input sequence of draws in [0, m). The generator is re-seeded with the same seed for every melody, so every melody reads a prefix of one and the same stream of draws.
- display_utils.py: rendering through external programs, not part of this model.
- Floating-point rounding: times and positions are exact reals, the boundary test `times / 6 mod m == 0` is an exact integrality test, and a resolution of 0 selects no boundaries, because numpy's remainder by 0 is NaN. Pitches are integers, so the cast to int is the identity.
- Ties in magnitude: numpy's default argsort is not stable, so which of two equally large coefficients is zeroed is unspecified. `TopK.KeepTopK` breaks ties by position. The relational property `TopK.RetainsLargest` holds for any tie order.
- Out-of-range sample points: interpolation would raise for points outside the onset range, but every normalised window starts at exactly 0 and ends at exactly 1, so none occurs.
- Windows spanning fewer than two onsets, including empty or reversed windows after jitter: the Python code normalises a one-onset window by 0 / 0 (data_utils.py:56), and it has nothing to interpolate in an empty window. For a one-onset window numpy only warns. Depending on the scipy version, the interpolant either rejects the single point or yields a constant row of the held note. The model reports `DegenerateSegment`, naming the first such pair. So in the model, a measure holding a single note fails the whole batch, where the Python code may produce a row for it.
- Melodies with one pitch per inter-onset interval (one pitch fewer than onsets): a well-formed melody here has one pitch per onset, because whole-melody mode interpolates `pitches` against all of `times` (data_utils.py:29-31). Measure mode slices pitches only below the last onset (data_utils.py:55-58) and so would accept the shorter form. Such melodies are excluded from the model; in measure mode they behave like any one-pitch extension of them, since `Segments.MeasureRowsIgnoreLastPitch` shows the last pitch is never read there.
- A batch that yields no rows at all in fixed mode: assembling the empty table fails in the DataFrame step (data_utils.py:71), which is not modelled. `Dataset.SongContours` returns no rows there.
- Segments.ContourRows: in measure mode its contract states only the sample count of every row; the rows themselves are stated by Segments.SegmentRows over the boundaries it pairs.
- Dataset.SongContours: in adaptive mode it states that the rows share one width; what each padded row contains is stated by Padding.Pad.
