/**
 * The batch entry point: rows for every contour of a batch, in input order,
 * padded to one width when each contour chose its own sample count.
 */
module Dataset {
  import opened Results
  import opened Contours
  import opened Measures
  import opened Segments
  import opened Padding

  /**
   * How many samples each contour gets: one fixed count for all, or a count
   * per contour computed beforehand from the contour's own time resolution.
   */
  datatype Resolution = Fixed(n: nat) | Adaptive(counts: seq<nat>)

  predicate CoversBatch(res: Resolution, batch: seq<Contour>) {
    res.Adaptive? ==> |res.counts| == |batch|
  }

  function SampleCount(res: Resolution, i: nat): nat
    requires res.Adaptive? ==> i < |res.counts|
  {
    match res
    case Fixed(n) => n
    case Adaptive(counts) => counts[i]
  }

  /**
   * What the batch needs of its input: well-formed contours, and, when the
   * boundaries are jittered, enough draws in [0, m) for every contour. The
   * random source is re-seeded with the same seed for every contour, so all
   * contours draw from the start of the same stream.
   */
  predicate ValidBatch(batch: seq<Contour>, m: int, res: Resolution, draws: Option<seq<int>>) {
    && CoversBatch(res, batch)
    && (forall i :: 0 <= i < |batch| ==> WellFormed(batch[i]))
    && (draws.Some? ==> forall i :: 0 <= i < |batch| ==>
          DrawsFit(draws.value, m, |BoundaryIndices(batch[i].times, m)|))
  }

  /** Each contour's own rows, or its error, in batch order. */
  function PerContour(batch: seq<Contour>, m: int, res: Resolution, draws: Option<seq<int>>)
    : (parts: seq<Result<seq<Row>>>)
    requires ValidBatch(batch, m, res, draws)
    ensures |parts| == |batch|
  {
    seq(|batch|, i requires 0 <= i < |batch| => ContourRows(batch[i], m, SampleCount(res, i), draws))
  }

  /** Rows of one part followed by the rows of the parts after it; the earlier failure wins. */
  function Concat(first: Result<seq<Row>>, rest: Result<seq<Row>>): Result<seq<Row>> {
    match first
    case Failure(e) => Failure(e)
    case Success(rows) =>
      match rest
      case Failure(e) => Failure(e)
      case Success(more) => Success(rows + more)
  }

  /** The parts' rows concatenated in order; the first failing part stops the whole. */
  function Flatten(parts: seq<Result<seq<Row>>>): Result<seq<Row>> {
    if |parts| == 0 then Success([]) else Concat(parts[0], Flatten(parts[1..]))
  }

  /** Flattening succeeds exactly when every part does, and otherwise reports the first failing part's error. */
  lemma {:induction false} FlattenFirstFailure(parts: seq<Result<seq<Row>>>)
    ensures Flatten(parts).Success? <==> forall i :: 0 <= i < |parts| ==> parts[i].Success?
    ensures Flatten(parts).Failure? ==> exists i ::
      && 0 <= i < |parts|
      && parts[i].Failure?
      && Flatten(parts).error == parts[i].error
      && forall j :: 0 <= j < i ==> parts[j].Success?
  {
    if |parts| > 0 {
      FlattenFirstFailure(parts[1..]);
      if parts[0].Success? && Flatten(parts[1..]).Failure? {
        var i :| && 0 <= i < |parts[1..]|
                 && parts[1..][i].Failure?
                 && Flatten(parts[1..]).error == parts[1..][i].error
                 && forall j :: 0 <= j < i ==> parts[1..][j].Success?;
        assert parts[i + 1] == parts[1..][i];
        assert forall j :: 0 <= j < i + 1 ==> parts[j].Success? by {
          forall j | 0 <= j < i + 1 ensures parts[j].Success? {
            if j > 0 { assert parts[j] == parts[1..][j - 1]; }
          }
        }
      }
      if forall i :: 0 <= i < |parts| ==> parts[i].Success? {
        assert forall i :: 0 <= i < |parts[1..]| ==> parts[1..][i] == parts[i + 1];
      }
    }
  }

  /** Rows all of width n in every part give rows all of width n in the whole. */
  lemma {:induction false} FlattenWidth(parts: seq<Result<seq<Row>>>, n: nat)
    requires forall i :: 0 <= i < |parts| && parts[i].Success? ==>
      forall k :: 0 <= k < |parts[i].value| ==> |parts[i].value[k].samples| == n
    ensures Flatten(parts).Success? ==>
      forall k :: 0 <= k < |Flatten(parts).value| ==> |Flatten(parts).value[k].samples| == n
  {
    if |parts| > 0 {
      assert forall i :: 0 <= i < |parts[1..]| ==> parts[1..][i] == parts[i + 1];
      FlattenWidth(parts[1..], n);
      if Flatten(parts).Success? {
        var first, rest := parts[0].value, Flatten(parts[1..]).value;
        var whole: seq<Row> := first + rest;
        assert Flatten(parts).value == whole;
        forall k | 0 <= k < |whole|
          ensures |whole[k].samples| == n
        {
          if k >= |first| {
            assert whole[k] == rest[k - |first|];
          }
        }
      }
    }
  }

  /** Parts of exactly one row each flatten to those rows, one per part, in order. */
  lemma {:induction false} FlattenSingletons(parts: seq<Result<seq<Row>>>)
    requires forall i :: 0 <= i < |parts| ==> parts[i].Success? && |parts[i].value| == 1
    ensures Flatten(parts).Success? && |Flatten(parts).value| == |parts|
    ensures forall i :: 0 <= i < |parts| ==> Flatten(parts).value[i] == parts[i].value[0]
  {
    if |parts| > 0 {
      assert forall i :: 0 <= i < |parts[1..]| ==> parts[1..][i] == parts[i + 1];
      FlattenSingletons(parts[1..]);
      var rest := Flatten(parts[1..]).value;
      assert Flatten(parts).value == parts[0].value + rest;
      forall i | 1 <= i < |parts|
        ensures Flatten(parts).value[i] == parts[i].value[0]
      {
        assert Flatten(parts).value[i] == rest[i - 1];
      }
    }
  }

  /**
   * The contour dataset of a batch: every contour's rows in input order,
   * padded on the right with zeros to the widest row in adaptive mode.
   */
  function SongContours(batch: seq<Contour>, m: int, res: Resolution, draws: Option<seq<int>>)
    : (r: Result<seq<Row>>)
    requires ValidBatch(batch, m, res, draws)
    ensures res.Adaptive? && r.Success? ==> Uniform(r.value)
    ensures res.Adaptive? && Flatten(PerContour(batch, m, res, draws)) == Success([]) ==> r == Failure(EmptyBatch)
    ensures res.Fixed? ==> r == Flatten(PerContour(batch, m, res, draws))
    ensures Flatten(PerContour(batch, m, res, draws)).Failure? ==> r == Flatten(PerContour(batch, m, res, draws))
  {
    match Flatten(PerContour(batch, m, res, draws))
    case Failure(e) => Failure(e)
    case Success(rows) =>
      if res.Adaptive? then
        if |rows| > 0 then PadIdempotent(rows); Pad(rows) else Pad(rows)
      else Success(rows)
  }

  /**
   * The batch fails exactly when one of its contours does, with the error of
   * the first failing contour.
   */
  lemma FirstFailingContourStops(batch: seq<Contour>, m: int, res: Resolution, draws: Option<seq<int>>)
    requires ValidBatch(batch, m, res, draws)
    ensures var r := Flatten(PerContour(batch, m, res, draws));
      r.Failure? <==> exists i :: 0 <= i < |batch| && ContourRows(batch[i], m, SampleCount(res, i), draws).Failure?
    ensures var r := Flatten(PerContour(batch, m, res, draws));
      r.Failure? ==> exists i ::
        && 0 <= i < |batch|
        && ContourRows(batch[i], m, SampleCount(res, i), draws).Failure?
        && ContourRows(batch[i], m, SampleCount(res, i), draws).error == r.error
        && forall j :: 0 <= j < i ==> ContourRows(batch[j], m, SampleCount(res, j), draws).Success?
  {
    var parts := PerContour(batch, m, res, draws);
    FlattenFirstFailure(parts);
    if Flatten(parts).Failure? {
      var i :| && 0 <= i < |parts|
               && parts[i].Failure?
               && Flatten(parts).error == parts[i].error
               && forall j :: 0 <= j < i ==> parts[j].Success?;
      assert parts[i] == ContourRows(batch[i], m, SampleCount(res, i), draws);
      forall j | 0 <= j < i
        ensures ContourRows(batch[j], m, SampleCount(res, j), draws).Success?
      {
        assert parts[j] == ContourRows(batch[j], m, SampleCount(res, j), draws);
      }
    } else {
      forall i | 0 <= i < |batch|
        ensures ContourRows(batch[i], m, SampleCount(res, i), draws).Success?
      {
        assert parts[i] == ContourRows(batch[i], m, SampleCount(res, i), draws);
      }
    }
  }

  /** Whole-melody mode emits exactly one row per contour, named by its title, lasting to its end time. */
  lemma WholeModeOneRowPerContour(batch: seq<Contour>, m: int, res: Resolution, draws: Option<seq<int>>)
    requires ValidBatch(batch, m, res, draws) && m < 0
    ensures var r := Flatten(PerContour(batch, m, res, draws));
      && r.Success?
      && |r.value| == |batch|
      && forall k :: 0 <= k < |batch| ==>
           && r.value[k].id == batch[k].title
           && r.value[k].duration == batch[k].times[|batch[k].times| - 1]
           && |r.value[k].samples| == SampleCount(res, k)
  {
    var parts := PerContour(batch, m, res, draws);
    assert forall i :: 0 <= i < |parts| ==> parts[i] == Success([WholeRow(batch[i], SampleCount(res, i))]);
    FlattenSingletons(parts);
  }

  /** The dataset never pads in fixed mode: every row has exactly n samples. */
  lemma FixedDatasetWidth(batch: seq<Contour>, m: int, n: nat, draws: Option<seq<int>>)
    requires ValidBatch(batch, m, Fixed(n), draws)
    requires SongContours(batch, m, Fixed(n), draws).Success?
    ensures forall k :: 0 <= k < |SongContours(batch, m, Fixed(n), draws).value| ==>
      |SongContours(batch, m, Fixed(n), draws).value[k].samples| == n
  {
    FlattenWidth(PerContour(batch, m, Fixed(n), draws), n);
  }
}
