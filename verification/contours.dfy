/** Raw melodic contours and the normalisation of a window of onsets to [0, 1]. */
module Contours {
  import opened Resampler

  /**
   * One melody: onset times (the last entry is the end of the melody) and
   * the pitch starting at each of them.
   */
  datatype Contour = Contour(title: string, times: seq<real>, pitches: seq<int>)

  /** What the pipeline assumes of its input: one pitch per onset, times strictly increasing from 0. */
  predicate WellFormed(c: Contour) {
    && |c.times| >= 2
    && |c.pitches| == |c.times|
    && c.times[0] == 0.0
    && StrictlyIncreasing(c.times)
  }

  /** A window [start, end) of onsets that spans at least two of them. */
  predicate ValidWindow(times: seq<real>, start: int, end: int) {
    0 <= start && start + 2 <= end <= |times|
  }

  lemma DivideIncreasing(a: real, b: real, d: real)
    requires a < b && 0.0 < d
    ensures a / d < b / d
  {
    assert b / d - a / d == (b - a) / d;
  }

  /** Onsets shifted to start at 0 and divided by a positive span stay strictly increasing. */
  lemma ShiftedScaledIncreasing(times: seq<real>, start: int, span: real, xs: seq<real>)
    requires StrictlyIncreasing(times) && 0 <= start && start + |xs| <= |times| && 0.0 < span
    requires forall j :: 0 <= j < |xs| ==> xs[j] == (times[start + j] - times[start]) / span
    ensures StrictlyIncreasing(xs)
  {
    forall i, j | 0 <= i < j < |xs|
      ensures xs[i] < xs[j]
    {
      DivideIncreasing(times[start + i] - times[start], times[start + j] - times[start], span);
    }
  }

  /**
   * The onset times of the window, shifted to start at 0 and divided by the
   * time of the window's LAST onset, times[end - 1], so that they end at 1.
   */
  function Normalise(times: seq<real>, start: int, end: int): (xs: seq<real>)
    requires StrictlyIncreasing(times) && ValidWindow(times, start, end)
    ensures |xs| == end - start
    ensures StrictlyIncreasing(xs)
    ensures xs[0] == 0.0 && xs[|xs| - 1] == 1.0
  {
    var span := times[end - 1] - times[start];
    var xs := seq(end - start, j requires 0 <= j < end - start => (times[start + j] - times[start]) / span);
    ShiftedScaledIncreasing(times, start, span, xs);
    assert 0.0 < span && xs[|xs| - 1] == span / span == 1.0;
    xs
  }

  /** The pitch contour of the window, held between onsets and sampled at n points. */
  function HoldSamples(times: seq<real>, pitches: seq<int>, start: int, end: int, n: nat): (r: seq<int>)
    requires StrictlyIncreasing(times) && |pitches| == |times| && ValidWindow(times, start, end)
    ensures |r| == n
    ensures n > 0 ==> r[0] == pitches[start]
    ensures n > 1 ==> r[n - 1] == pitches[end - 1]
  {
    Resample(Normalise(times, start, end), pitches[start..end], n)
  }

  /**
   * Sample i of a window is the pitch of the window's onset j sounding at
   * the sample point, hence one of the window's pitches.
   */
  lemma HoldSamplesHeld(times: seq<real>, pitches: seq<int>, start: int, end: int, n: nat, i: nat)
    requires StrictlyIncreasing(times) && |pitches| == |times| && ValidWindow(times, start, end)
    requires i < n
    ensures exists j ::
      && start <= j < end
      && IsHeld(Normalise(times, start, end), SamplePoint(i, n), j - start)
      && HoldSamples(times, pitches, start, end, n)[i] == pitches[j]
    ensures HoldSamples(times, pitches, start, end, n)[i] in pitches[start..end]
  {
    var xs, ys := Normalise(times, start, end), pitches[start..end];
    ResampleHolds(xs, ys, n, i);
    var j :| IsHeld(xs, SamplePoint(i, n), j) && Resample(xs, ys, n)[i] == ys[j];
    assert IsHeld(xs, SamplePoint(i, n), (start + j) - start);
  }

  /** The whole melody as one window: Normalise divides by the melody's end time. */
  lemma WholeWindowDividesByEnd(c: Contour, j: nat)
    requires WellFormed(c) && j < |c.times|
    ensures Normalise(c.times, 0, |c.times|)[j] == c.times[j] / c.times[|c.times| - 1]
  {
  }
}
