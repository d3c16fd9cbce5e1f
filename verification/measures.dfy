/**
 * Measure-aligned segment boundaries: which onsets start a group of
 * measures, and the optional random forward shift of those boundaries.
 */
module Measures {

  /** Time units per measure in the input encoding. */
  const UnitsPerMeasure: real := 6.0

  /**
   * Strictly increasing onset indices; the same notion as
   * Resampler.StrictlyIncreasing, which is stated over real times.
   */
  predicate StrictlyIncreasingInts(s: seq<int>) {
    forall i, j :: 0 <= i < j < |s| ==> s[i] < s[j]
  }

  /**
   * An onset at time t is a boundary when its measure number t / 6 is an
   * exact integer multiple of the resolution m. A resolution of 0 selects
   * nothing: the remainder modulo 0 is not a number, which never equals 0.
   */
  predicate IsBoundary(t: real, m: int) {
    m > 0 && (t / (UnitsPerMeasure * m as real)).Floor as real == t / (UnitsPerMeasure * m as real)
  }

  /** The boundary onsets among times[lo..], in increasing order. */
  function BoundariesFrom(times: seq<real>, m: int, lo: nat): (b: seq<int>)
    requires lo <= |times|
    ensures StrictlyIncreasingInts(b)
    ensures forall k :: 0 <= k < |b| ==> lo <= b[k] < |times|
    ensures forall i :: i in b <==> lo <= i < |times| && IsBoundary(times[i], m)
    ensures m <= 0 ==> b == []
    decreases |times| - lo
  {
    if lo == |times| then []
    else if IsBoundary(times[lo], m) then [lo] + BoundariesFrom(times, m, lo + 1)
    else BoundariesFrom(times, m, lo + 1)
  }

  /** Exactly the increasing list of onset indices whose measure number is a multiple of m. */
  function BoundaryIndices(times: seq<real>, m: int): (b: seq<int>)
    ensures StrictlyIncreasingInts(b)
    ensures forall k :: 0 <= k < |b| ==> 0 <= b[k] < |times|
    ensures forall i :: i in b <==> 0 <= i < |times| && IsBoundary(times[i], m)
    ensures |b| <= |times|
    ensures m <= 0 ==> b == []
  {
    var b := BoundariesFrom(times, m, 0);
    IncreasingWithinBound(b, |times|);
    b
  }

  lemma {:induction false} IncreasingWithinBound(s: seq<int>, n: nat)
    requires StrictlyIncreasingInts(s)
    requires forall k :: 0 <= k < |s| ==> 0 <= s[k] < n
    ensures |s| <= n
  {
    if |s| > 0 {
      var init := s[..|s| - 1];
      assert forall k :: 0 <= k < |init| ==> init[k] < s[|s| - 1];
      IncreasingWithinBound(init, s[|s| - 1]);
    }
  }

  /** With resolution 1, times 0, 6, 9, 12, 18 start measures at onsets 0, 1, 3 and 4. */
  lemma BoundaryExample()
    ensures BoundaryIndices([0.0, 6.0, 9.0, 12.0, 18.0], 1) == [0, 1, 3, 4]
  {
    var times := [0.0, 6.0, 9.0, 12.0, 18.0];
    assert (0.0 / 6.0).Floor == 0 && (6.0 / 6.0).Floor == 1 && (9.0 / 6.0).Floor == 1;
    assert (12.0 / 6.0).Floor == 2 && (18.0 / 6.0).Floor == 3;
    assert BoundariesFrom(times, 1, 5) == [];
    assert BoundariesFrom(times, 1, 4) == [4];
    assert BoundariesFrom(times, 1, 3) == [3, 4];
    assert BoundariesFrom(times, 1, 2) == [3, 4];
    assert BoundariesFrom(times, 1, 1) == [1, 3, 4];
    assert BoundariesFrom(times, 1, 0) == [0, 1, 3, 4];
  }

  /** The entries of xs below limit, in their original order. */
  function KeepBelow(xs: seq<int>, limit: int): (r: seq<int>)
    ensures |r| <= |xs|
    ensures forall k :: 0 <= k < |r| ==> r[k] < limit
    ensures forall v :: v in r <==> v in xs && v < limit
  {
    if |xs| == 0 then []
    else if xs[0] < limit then [xs[0]] + KeepBelow(xs[1..], limit)
    else KeepBelow(xs[1..], limit)
  }

  /** The positions from lo on whose entries lie below limit, in increasing order. */
  function PositionsBelow(xs: seq<int>, limit: int, lo: nat): (p: seq<int>)
    requires lo <= |xs|
    ensures StrictlyIncreasingInts(p)
    ensures forall k :: 0 <= k < |p| ==> lo <= p[k] < |xs|
    ensures forall i :: i in p <==> lo <= i < |xs| && xs[i] < limit
    decreases |xs| - lo
  {
    if lo == |xs| then []
    else if xs[lo] < limit then [lo] + PositionsBelow(xs, limit, lo + 1)
    else PositionsBelow(xs, limit, lo + 1)
  }

  /** Filtering keeps exactly the in-range entries, each at its original position's turn. */
  lemma {:induction false} KeepBelowPicksPositions(xs: seq<int>, limit: int, lo: nat)
    requires lo <= |xs|
    ensures |KeepBelow(xs[lo..], limit)| == |PositionsBelow(xs, limit, lo)|
    ensures forall k :: 0 <= k < |PositionsBelow(xs, limit, lo)| ==>
      KeepBelow(xs[lo..], limit)[k] == xs[PositionsBelow(xs, limit, lo)[k]]
    decreases |xs| - lo
  {
    if lo < |xs| {
      assert xs[lo..][1..] == xs[lo + 1..];
      KeepBelowPicksPositions(xs, limit, lo + 1);
    }
  }

  /** Each boundary moved forward by its own offset. */
  function Shift(boundaries: seq<int>, offsets: seq<int>): (s: seq<int>)
    requires |offsets| == |boundaries|
    ensures |s| == |boundaries|
    ensures forall i :: 0 <= i < |s| ==> s[i] == boundaries[i] + offsets[i]
  {
    seq(|boundaries|, i requires 0 <= i < |boundaries| => boundaries[i] + offsets[i])
  }

  /**
   * With offsets drawn from [0, m), each shifted boundary lies at or after
   * its boundary and fewer than m onsets after it.
   */
  lemma ShiftWithinDraws(boundaries: seq<int>, offsets: seq<int>, m: int)
    requires |offsets| == |boundaries|
    requires forall i :: 0 <= i < |offsets| ==> 0 <= offsets[i] < m
    ensures forall i :: 0 <= i < |boundaries| ==>
      boundaries[i] <= Shift(boundaries, offsets)[i] < boundaries[i] + m
  {
  }

  /**
   * Jitter: every boundary moves forward by its offset, and the shifted
   * boundaries that reach `limit` (the index of the last onset) are dropped.
   */
  function Jitter(boundaries: seq<int>, offsets: seq<int>, limit: int): (r: seq<int>)
    requires |offsets| == |boundaries|
    ensures |r| <= |boundaries|
    ensures forall k :: 0 <= k < |r| ==> r[k] < limit
    ensures forall v :: v in r <==> exists i :: 0 <= i < |boundaries| && v == boundaries[i] + offsets[i] && v < limit
  {
    var s := Shift(boundaries, offsets);
    var r := KeepBelow(s, limit);
    assert forall v :: v in s <==> exists i :: 0 <= i < |boundaries| && v == boundaries[i] + offsets[i] by {
      forall v | v in s ensures exists i :: 0 <= i < |boundaries| && v == boundaries[i] + offsets[i] {
        var i :| 0 <= i < |s| && s[i] == v;
      }
    }
    r
  }

  /**
   * The survivors of jitter are the shifted boundaries at the increasing
   * positions whose shifted value is in range, in that order, and each lies
   * within m - 1 onsets after its original boundary.
   */
  lemma JitterSurvivors(boundaries: seq<int>, offsets: seq<int>, limit: int, m: int)
    requires |offsets| == |boundaries|
    requires forall i :: 0 <= i < |offsets| ==> 0 <= offsets[i] < m
    ensures var p := PositionsBelow(Shift(boundaries, offsets), limit, 0);
      var r := Jitter(boundaries, offsets, limit);
      && StrictlyIncreasingInts(p)
      && (forall i :: i in p <==> 0 <= i < |boundaries| && boundaries[i] + offsets[i] < limit)
      && |r| == |p|
      && (forall k :: 0 <= k < |r| ==> r[k] == boundaries[p[k]] + offsets[p[k]])
      && (forall k :: 0 <= k < |r| ==> boundaries[p[k]] <= r[k] < boundaries[p[k]] + m)
  {
    var s := Shift(boundaries, offsets);
    KeepBelowPicksPositions(s, limit, 0);
    assert s[0..] == s;
  }

  /** When no shifted boundary reaches the limit, jitter only shifts. */
  lemma JitterDropsNothingInRange(boundaries: seq<int>, offsets: seq<int>, limit: int)
    requires |offsets| == |boundaries|
    requires forall i :: 0 <= i < |boundaries| ==> boundaries[i] + offsets[i] < limit
    ensures Jitter(boundaries, offsets, limit) == Shift(boundaries, offsets)
  {
    var s := Shift(boundaries, offsets);
    KeepBelowAllBelow(s, limit);
  }

  lemma {:induction false} KeepBelowAllBelow(xs: seq<int>, limit: int)
    requires forall i :: 0 <= i < |xs| ==> xs[i] < limit
    ensures KeepBelow(xs, limit) == xs
  {
    if |xs| > 0 {
      KeepBelowAllBelow(xs[1..], limit);
      assert [xs[0]] + xs[1..] == xs;
    }
  }
}
