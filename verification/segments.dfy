/**
 * The segmenter: turns one contour into rows of (identifier, duration,
 * held pitch samples), either one row for the whole melody or one row per
 * pair of consecutive measure boundaries.
 */
module Segments {
  import opened Results
  import opened Resampler
  import opened Contours
  import opened Measures

  /** One output row: identifier, duration and the sampled pitch contour. */
  datatype Row = Row(id: string, duration: real, samples: seq<int>)

  function DigitChar(d: int): (ch: char)
    requires 0 <= d < 10
    ensures '0' <= ch <= '9'
  {
    ('0' as int + d) as char
  }

  predicate AllDigits(s: string) {
    forall k :: 0 <= k < |s| ==> '0' <= s[k] <= '9'
  }

  /** The number a string of decimal digits spells, most significant digit first. */
  function DigitsValue(s: string): nat
    requires AllDigits(s)
  {
    if |s| == 0 then 0
    else DigitsValue(s[..|s| - 1]) * 10 + (s[|s| - 1] as int - '0' as int)
  }

  /** Decimal spelling of a natural number, as `str` gives it: it spells n, without leading zeros. */
  function NatToString(n: nat): (s: string)
    ensures |s| >= 1
    ensures |s| == 1 <==> n < 10
    ensures AllDigits(s)
    ensures DigitsValue(s) == n
    ensures n > 0 ==> s[0] != '0'
  {
    if n < 10 then [DigitChar(n)]
    else
      var front := NatToString(n / 10);
      var s := front + [DigitChar(n % 10)];
      assert s[..|s| - 1] == front;
      s
  }

  /** Different numbers are spelled differently. */
  lemma NatToStringInjective(a: nat, b: nat)
    requires NatToString(a) == NatToString(b)
    ensures a == b
  {
    assert a == DigitsValue(NatToString(a)) == DigitsValue(NatToString(b)) == b;
  }

  /** Identifier of the i-th segment of a melody. */
  function SegmentId(title: string, i: nat): (id: string)
    ensures |id| > |title| + 1
    ensures id[..|title|] == title && id[|title|] == '_'
    ensures id[|title| + 1..] == NatToString(i)
  {
    title + "_" + NatToString(i)
  }

  /** The segments of one melody never share an identifier. */
  lemma SegmentIdsDistinct(title: string, i: nat, j: nat)
    requires i != j
    ensures SegmentId(title, i) != SegmentId(title, j)
  {
    var p := |title| + 1;
    assert DigitsValue(SegmentId(title, i)[p..]) != DigitsValue(SegmentId(title, j)[p..]);
  }

  /** Whole-melody mode: the melody's title, its end time, and n held samples of all of it. */
  function WholeRow(c: Contour, n: nat): (r: Row)
    requires WellFormed(c)
    ensures r.id == c.title
    ensures r.duration == c.times[|c.times| - 1]
    ensures |r.samples| == n
    ensures n > 0 ==> r.samples[0] == c.pitches[0]
    ensures n > 1 ==> r.samples[n - 1] == c.pitches[|c.pitches| - 1]
  {
    Row(c.title, c.times[|c.times| - 1], HoldSamples(c.times, c.pitches, 0, |c.times|, n))
  }

  /**
   * Whole-melody sample i is the pitch of the last onset j whose time,
   * divided by the melody's end time (see WholeWindowDividesByEnd), is at or
   * before the sample point; in particular it is one of the melody's pitches.
   */
  lemma WholeRowHeldPitch(c: Contour, n: nat, i: nat)
    requires WellFormed(c) && i < n
    ensures exists j ::
      && IsHeld(Normalise(c.times, 0, |c.times|), SamplePoint(i, n), j)
      && WholeRow(c, n).samples[i] == c.pitches[j]
    ensures WholeRow(c, n).samples[i] in c.pitches
  {
    var N := |c.times|;
    HoldSamplesHeld(c.times, c.pitches, 0, N, n, i);
    assert c.pitches[0..N] == c.pitches;
  }

  /** Consecutive boundaries start and end..start + 1 span at least two onsets. */
  predicate Spans(indices: seq<int>, k: int)
    requires 0 <= k < |indices| - 1
  {
    indices[k] + 2 <= indices[k + 1]
  }

  /**
   * The row of the window [start, end) as segment number i. Its samples are
   * normalised by the time of the window's last onset, times[end - 1], but
   * its duration runs to the time of the next boundary, times[end].
   */
  function SegmentRow(c: Contour, i: nat, start: int, end: int, n: nat): (r: Row)
    requires WellFormed(c) && ValidWindow(c.times, start, end) && end < |c.times|
    ensures r.id == SegmentId(c.title, i)
    ensures r.duration == c.times[end] - c.times[start]
    ensures r.duration > c.times[end - 1] - c.times[start] > 0.0
    ensures r.samples == HoldSamples(c.times, c.pitches, start, end, n)
    ensures |r.samples| == n
  {
    Row(SegmentId(c.title, i), c.times[end] - c.times[start], HoldSamples(c.times, c.pitches, start, end, n))
  }

  /** The onsets [start, end) of one segment. */
  datatype Window = Window(start: int, end: int)

  /**
   * The windows of the boundary pairs k, k + 1 with k >= i, in order. A pair
   * spanning fewer than two onsets stops the melody with an error naming
   * the first such pair.
   */
  function PairWindowsFrom(indices: seq<int>, i: nat): (r: Result<seq<Window>>)
    requires i <= |indices|
    ensures r.Success? <==> forall k :: i <= k < |indices| - 1 ==> Spans(indices, k)
    ensures r.Failure? ==>
      && r.error.DegenerateSegment?
      && i <= r.error.pair < |indices| - 1
      && !Spans(indices, r.error.pair)
      && forall k :: i <= k < r.error.pair ==> Spans(indices, k)
    ensures r.Success? ==> |r.value| == (if i + 1 < |indices| then |indices| - 1 - i else 0)
    ensures r.Success? ==> forall k :: 0 <= k < |r.value| ==>
      r.value[k] == Window(indices[i + k], indices[i + k + 1])
    decreases |indices| - i
  {
    if i + 1 >= |indices| then Success([])
    else if indices[i] + 2 > indices[i + 1] then
      assert !Spans(indices, i);
      Failure(DegenerateSegment(i))
    else
      match PairWindowsFrom(indices, i + 1)
      case Failure(e) => Failure(e)
      case Success(rest) =>
        var out := [Window(indices[i], indices[i + 1])] + rest;
        assert forall k :: 1 <= k < |out| ==> out[k] == rest[k - 1];
        Success(out)
  }

  /** The paired windows are the consecutive boundary pairs, each spanning at least two onsets. */
  lemma PairedWindowsSpan(indices: seq<int>, ws: seq<Window>)
    requires PairWindowsFrom(indices, 0) == Success(ws)
    ensures forall k :: 0 <= k < |ws| ==> ws[k] == Window(indices[k], indices[k + 1]) && ws[k].start + 2 <= ws[k].end
  {
    forall k | 0 <= k < |ws|
      ensures ws[k] == Window(indices[k], indices[k + 1]) && ws[k].start + 2 <= ws[k].end
    {
      assert Spans(indices, k);
    }
  }

  /**
   * Measure mode: one row per pair of consecutive boundaries, numbered from
   * 0; fewer than two boundaries give no rows.
   */
  function SegmentRows(c: Contour, indices: seq<int>, n: nat): (r: Result<seq<Row>>)
    requires WellFormed(c)
    requires forall k :: 0 <= k < |indices| ==> 0 <= indices[k] < |c.times|
    ensures |indices| < 2 ==> r == Success([])
    ensures r.Success? <==> forall k :: 0 <= k < |indices| - 1 ==> Spans(indices, k)
    ensures r.Failure? ==>
      && r.error.DegenerateSegment?
      && 0 <= r.error.pair < |indices| - 1
      && !Spans(indices, r.error.pair)
      && forall k :: 0 <= k < r.error.pair ==> Spans(indices, k)
    ensures r.Success? ==> |r.value| == if |indices| < 2 then 0 else |indices| - 1
    ensures r.Success? ==> forall k :: 0 <= k < |r.value| ==>
      && Spans(indices, k)
      && r.value[k] == SegmentRow(c, k, indices[k], indices[k + 1], n)
      && |r.value[k].samples| == n
  {
    match PairWindowsFrom(indices, 0)
    case Failure(e) => Failure(e)
    case Success(ws) =>
      PairedWindowsSpan(indices, ws);
      Success(seq(|ws|, k requires 0 <= k < |ws| => SegmentRow(c, k, ws[k].start, ws[k].end, n)))
  }

  /** The range of the shift draws and how many of them a melody needs. */
  predicate DrawsFit(draws: seq<int>, m: int, needed: nat) {
    |draws| >= needed && forall k :: 0 <= k < |draws| ==> 0 <= draws[k] < m
  }

  /** The boundaries measure mode pairs up: selected, then shifted by the draws if any. */
  function SegmentBoundaries(times: seq<real>, m: int, draws: seq<int>): (b: seq<int>)
    requires m > 0
    requires DrawsFit(draws, m, |BoundaryIndices(times, m)|)
    ensures forall k :: 0 <= k < |b| ==> 0 <= b[k] < |times| - 1
  {
    var sel := BoundaryIndices(times, m);
    var offsets := draws[..|sel|];
    var b := Jitter(sel, offsets, |times| - 1);
    forall k | 0 <= k < |b|
      ensures 0 <= b[k]
    {
      assert b[k] in b;
      var i :| 0 <= i < |sel| && b[k] == sel[i] + offsets[i] && b[k] < |times| - 1;
    }
    b
  }

  /**
   * All rows of one melody. A negative resolution m means the whole melody;
   * otherwise measure mode, with the boundaries shifted by the first draws
   * of the random stream when one is given. A resolution of 0 selects no
   * boundaries, so it draws no offsets and gives no rows, jitter or not.
   */
  function ContourRows(c: Contour, m: int, n: nat, draws: Option<seq<int>>): (r: Result<seq<Row>>)
    requires WellFormed(c)
    requires draws.Some? ==> DrawsFit(draws.value, m, |BoundaryIndices(c.times, m)|)
    ensures m < 0 ==> r.Success? && |r.value| == 1 && r.value[0] == WholeRow(c, n)
    ensures m == 0 ==> r == Success([])
    ensures r.Success? ==> forall k :: 0 <= k < |r.value| ==> |r.value[k].samples| == n
  {
    if m < 0 then Success([WholeRow(c, n)])
    else
      var sel := BoundaryIndices(c.times, m);
      match draws
      case None => SegmentRows(c, sel, n)
      case Some(d) =>
        if m == 0 then SegmentRows(c, sel, n)
        else SegmentRows(c, SegmentBoundaries(c.times, m, d), n)
  }

  /** The melody with the pitch of its last onset replaced by p. */
  function WithLastPitch(c: Contour, p: int): (d: Contour)
    requires WellFormed(c)
    ensures WellFormed(d) && d.title == c.title && d.times == c.times
    ensures forall j :: 0 <= j < |c.times| - 1 ==> d.pitches[j] == c.pitches[j]
  {
    c.(pitches := c.pitches[..|c.pitches| - 1] + [p])
  }

  /** Two melodies that agree on the pitches of a window sample it alike. */
  lemma SegmentRowSamePitches(c: Contour, d: Contour, i: nat, start: int, end: int, n: nat)
    requires WellFormed(c) && WellFormed(d) && c.title == d.title && c.times == d.times
    requires ValidWindow(c.times, start, end) && end < |c.times|
    requires forall j :: start <= j < end ==> c.pitches[j] == d.pitches[j]
    ensures SegmentRow(c, i, start, end, n) == SegmentRow(d, i, start, end, n)
  {
    assert c.pitches[start..end] == d.pitches[start..end];
  }

  /** Boundary pairs of two melodies that agree on every pitch but the last give the same rows. */
  lemma SegmentRowsSamePitches(c: Contour, d: Contour, b: seq<int>, n: nat)
    requires WellFormed(c) && WellFormed(d) && c.title == d.title && c.times == d.times
    requires forall j :: 0 <= j < |c.times| - 1 ==> c.pitches[j] == d.pitches[j]
    requires forall k :: 0 <= k < |b| ==> 0 <= b[k] < |c.times|
    ensures SegmentRows(c, b, n) == SegmentRows(d, b, n)
  {
    var rc, rd := SegmentRows(c, b, n), SegmentRows(d, b, n);
    if rc.Success? {
      forall k | 0 <= k < |rc.value|
        ensures rc.value[k] == rd.value[k]
      {
        SegmentRowSamePitches(c, d, k, b[k], b[k + 1], n);
      }
      assert rc.value == rd.value;
    }
  }

  /**
   * Measure mode never reads the pitch of the last onset: a segment ends at
   * the latest at that onset, exclusive. So a melody's measure-mode rows are
   * those of any melody that differs from it only in that pitch.
   */
  lemma MeasureRowsIgnoreLastPitch(c: Contour, p: int, m: int, n: nat, draws: Option<seq<int>>)
    requires WellFormed(c) && m >= 0
    requires draws.Some? ==> DrawsFit(draws.value, m, |BoundaryIndices(c.times, m)|)
    ensures ContourRows(WithLastPitch(c, p), m, n, draws) == ContourRows(c, m, n, draws)
  {
    var d := WithLastPitch(c, p);
    var sel := BoundaryIndices(c.times, m);
    if m > 0 && draws.Some? {
      var b := SegmentBoundaries(c.times, m, draws.value);
      SegmentRowsSamePitches(c, d, b, n);
      assert ContourRows(c, m, n, draws) == SegmentRows(c, b, n);
      assert ContourRows(d, m, n, draws) == SegmentRows(d, b, n);
    } else {
      SegmentRowsSamePitches(c, d, sel, n);
      assert ContourRows(c, m, n, draws) == SegmentRows(c, sel, n);
      assert ContourRows(d, m, n, draws) == SegmentRows(d, sel, n);
    }
  }
}
