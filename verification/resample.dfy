/**
 * Zero-order-hold ("previous value") resampling of a step function given by
 * onset positions `xs` and the values `ys` that start at them.
 */
module Resampler {

  predicate NonDecreasing(xs: seq<real>) {
    forall i, j :: 0 <= i <= j < |xs| ==> xs[i] <= xs[j]
  }

  predicate StrictlyIncreasing(xs: seq<real>) {
    forall i, j :: 0 <= i < j < |xs| ==> xs[i] < xs[j]
  }

  /**
   * The i-th of n equally spaced points covering [0, 1] with both ends
   * included; like numpy's linspace, the last point is set to the stop value.
   */
  function SamplePoint(i: nat, n: nat): (x: real)
    requires i < n
    ensures 0.0 <= x <= 1.0
    ensures i == 0 ==> x == 0.0
    ensures 1 < n && i == n - 1 ==> x == 1.0
  {
    if n == 1 then 0.0
    else if i == n - 1 then 1.0
    else i as real / (n - 1) as real
  }

  lemma SamplePointMonotone(i: nat, j: nat, n: nat)
    requires i <= j < n
    ensures SamplePoint(i, n) <= SamplePoint(j, n)
  {
    if n > 1 && j < n - 1 {
      var d := (n - 1) as real;
      assert SamplePoint(j, n) - SamplePoint(i, n) == (j - i) as real / d;
    }
  }

  /** `j` is the last onset at or before position `x`: the value sounding at `x`. */
  ghost predicate IsHeld(xs: seq<real>, x: real, j: int) {
    0 <= j < |xs| && xs[j] <= x && forall k :: j < k < |xs| ==> x < xs[k]
  }

  /** At most one onset is the one sounding at a given position. */
  lemma IsHeldUnique(xs: seq<real>, x: real, j1: int, j2: int)
    requires IsHeld(xs, x, j1) && IsHeld(xs, x, j2)
    ensures j1 == j2
  {
  }

  /** The onset sounding at `x`, found by scanning from the left. */
  function PrevIndex(xs: seq<real>, x: real): (j: nat)
    requires |xs| > 0 && NonDecreasing(xs) && xs[0] <= x
    ensures IsHeld(xs, x, j)
  {
    if |xs| == 1 || x < xs[1] then 0
    else 1 + PrevIndex(xs[1..], x)
  }

  /** Number of onsets at or before `x` (what a binary search with side "right" returns). */
  function CountAtMost(xs: seq<real>, x: real): nat {
    if |xs| == 0 then 0
    else (if xs[0] <= x then 1 else 0) + CountAtMost(xs[1..], x)
  }

  lemma {:induction false} CountAtMostNone(xs: seq<real>, x: real)
    requires NonDecreasing(xs)
    requires |xs| > 0 ==> x < xs[0]
    ensures CountAtMost(xs, x) == 0
  {
    if |xs| > 0 {
      CountAtMostNone(xs[1..], x);
    }
  }

  /** The scan and the count agree: the held onset is the count of onsets at or before x, minus one. */
  lemma {:induction false} PrevIndexIsCountMinusOne(xs: seq<real>, x: real)
    requires |xs| > 0 && NonDecreasing(xs) && xs[0] <= x
    ensures PrevIndex(xs, x) == CountAtMost(xs, x) - 1
  {
    if |xs| == 1 {
      assert xs[1..] == [];
    } else if x < xs[1] {
      CountAtMostNone(xs[1..], x);
    } else {
      PrevIndexIsCountMinusOne(xs[1..], x);
    }
  }

  /** A later position never picks an earlier onset. */
  lemma PrevIndexMonotone(xs: seq<real>, x: real, y: real)
    requires |xs| > 0 && NonDecreasing(xs) && xs[0] <= x <= y
    ensures PrevIndex(xs, x) <= PrevIndex(xs, y)
  {
  }

  /** Samples i, i + 1, ..., n - 1 of the step function. */
  function SamplesFrom(xs: seq<real>, ys: seq<int>, n: nat, i: nat): (r: seq<int>)
    requires |xs| == |ys| > 0 && NonDecreasing(xs) && xs[0] <= 0.0 && i <= n
    ensures |r| == n - i
    decreases n - i
  {
    if i == n then [] else [ys[PrevIndex(xs, SamplePoint(i, n))]] + SamplesFrom(xs, ys, n, i + 1)
  }

  lemma {:induction false} SamplesFromAt(xs: seq<real>, ys: seq<int>, n: nat, i: nat, k: nat)
    requires |xs| == |ys| > 0 && NonDecreasing(xs) && xs[0] <= 0.0 && i + k < n
    ensures SamplesFrom(xs, ys, n, i)[k] == ys[PrevIndex(xs, SamplePoint(i + k, n))]
    decreases k
  {
    var rest := SamplesFrom(xs, ys, n, i + 1);
    assert SamplesFrom(xs, ys, n, i) == [ys[PrevIndex(xs, SamplePoint(i, n))]] + rest;
    if k > 0 {
      SamplesFromAt(xs, ys, n, i + 1, k - 1);
      assert SamplesFrom(xs, ys, n, i)[k] == rest[k - 1];
    }
  }

  /**
   * Samples the step function at n equally spaced points of [0, 1]. The
   * positions are normalised: they start at 0 and end at exactly 1, so the
   * closed right end resolves to the last value.
   */
  function Resample(xs: seq<real>, ys: seq<int>, n: nat): (r: seq<int>)
    requires |xs| == |ys| > 0 && StrictlyIncreasing(xs)
    requires xs[0] == 0.0 && xs[|xs| - 1] == 1.0
    ensures |r| == n
    ensures n > 0 ==> r[0] == ys[0]
    ensures n > 1 ==> r[n - 1] == ys[|ys| - 1]
  {
    if n > 1 then
      SamplesFromAt(xs, ys, n, 0, 0);
      SamplesFromAt(xs, ys, n, 0, n - 1);
      SamplesFrom(xs, ys, n, 0)
    else
      SamplesFrom(xs, ys, n, 0)
  }

  /**
   * Every sample is the value of the onset sounding at its sample point, so
   * in particular one of the input values.
   */
  lemma ResampleHolds(xs: seq<real>, ys: seq<int>, n: nat, i: nat)
    requires |xs| == |ys| > 0 && StrictlyIncreasing(xs)
    requires xs[0] == 0.0 && xs[|xs| - 1] == 1.0
    requires i < n
    ensures exists j :: IsHeld(xs, SamplePoint(i, n), j) && Resample(xs, ys, n)[i] == ys[j]
    ensures Resample(xs, ys, n)[i] in ys
  {
    SamplesFromAt(xs, ys, n, 0, i);
    var j := PrevIndex(xs, SamplePoint(i, n));
    assert IsHeld(xs, SamplePoint(i, n), j) && Resample(xs, ys, n)[i] == ys[j];
  }

  /** Later samples never come from earlier onsets. */
  lemma ResampleMonotone(xs: seq<real>, n: nat, i: nat, j: nat)
    requires |xs| > 0 && StrictlyIncreasing(xs) && xs[0] == 0.0
    requires i <= j < n
    ensures PrevIndex(xs, SamplePoint(i, n)) <= PrevIndex(xs, SamplePoint(j, n))
  {
    SamplePointMonotone(i, j, n);
    PrevIndexMonotone(xs, SamplePoint(i, n), SamplePoint(j, n));
  }
}
