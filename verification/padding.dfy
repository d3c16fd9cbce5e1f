/** Right zero-padding of variable-length rows to the widest row of the batch. */
module Padding {
  import opened Results
  import opened Segments

  /** The largest number of samples in a non-empty batch of rows. */
  function MaxWidth(rows: seq<Row>): (w: nat)
    requires |rows| > 0
    ensures forall i :: 0 <= i < |rows| ==> |rows[i].samples| <= w
    ensures exists i :: 0 <= i < |rows| && |rows[i].samples| == w
  {
    if |rows| == 1 then |rows[0].samples|
    else
      var w := MaxWidth(rows[1..]);
      assert forall i :: 1 <= i < |rows| ==> rows[i] == rows[1..][i - 1];
      if |rows[0].samples| >= w then |rows[0].samples| else w
  }

  function Zeros(k: nat): (z: seq<int>)
    ensures |z| == k && forall i :: 0 <= i < k ==> z[i] == 0
  {
    seq(k, _ => 0)
  }

  /** One row's samples extended on the right with zeros to width w. */
  function PadRow(row: Row, w: nat): (r: Row)
    requires |row.samples| <= w
    ensures r.id == row.id && r.duration == row.duration
    ensures |r.samples| == w
    ensures r.samples[..|row.samples|] == row.samples
    ensures forall j :: |row.samples| <= j < w ==> r.samples[j] == 0
  {
    row.(samples := row.samples + Zeros(w - |row.samples|))
  }

  /**
   * Every row padded to the batch-wide maximum length. The maximum of an
   * empty batch does not exist, so an empty batch is an error.
   */
  function Pad(rows: seq<Row>): (r: Result<seq<Row>>)
    ensures r.Failure? <==> |rows| == 0
    ensures r.Failure? ==> r.error == EmptyBatch
    ensures r.Success? ==> |r.value| == |rows|
    ensures r.Success? ==> forall i :: 0 <= i < |rows| ==> |r.value[i].samples| == MaxWidth(rows)
    ensures r.Success? ==> forall i :: 0 <= i < |rows| ==>
      && r.value[i].id == rows[i].id
      && r.value[i].duration == rows[i].duration
      && |rows[i].samples| <= |r.value[i].samples|
      && r.value[i].samples[..|rows[i].samples|] == rows[i].samples
      && forall j :: |rows[i].samples| <= j < |r.value[i].samples| ==> r.value[i].samples[j] == 0
  {
    if |rows| == 0 then Failure(EmptyBatch)
    else
      var w := MaxWidth(rows);
      Success(seq(|rows|, i requires 0 <= i < |rows| => PadRow(rows[i], w)))
  }

  /** All rows already share one width. */
  predicate Uniform(rows: seq<Row>) {
    forall i, j :: 0 <= i < |rows| && 0 <= j < |rows| ==> |rows[i].samples| == |rows[j].samples|
  }

  /** Padded rows share one width, and padding them again changes nothing. */
  lemma PadIdempotent(rows: seq<Row>)
    requires |rows| > 0
    ensures Uniform(Pad(rows).value)
    ensures Pad(Pad(rows).value) == Pad(rows)
  {
    var p := Pad(rows).value;
    var w := MaxWidth(rows);
    assert MaxWidth(p) == w by {
      var i :| 0 <= i < |p| && |p[i].samples| == MaxWidth(p);
    }
    forall i | 0 <= i < |p|
      ensures PadRow(p[i], w) == p[i]
    {
      assert Zeros(0) == [];
      assert p[i].samples + [] == p[i].samples;
    }
    assert Pad(p).value == p;
  }
}
