/**
 * The cosine codec around the transforms: a melody's held samples go
 * through one or two forward cosine transforms, all but the k largest
 * coefficients are zeroed, and a signal is rebuilt from one code or
 * averaged from two. The transforms themselves are parameters.
 */
module Codec {
  import opened Results
  import opened Contours
  import opened Segments
  import opened TopK

  /** A discrete cosine transform or its inverse. */
  type Transform = seq<real> -> seq<real>

  /**
   * The melody held and sampled at n points of [0, 1], onset times divided
   * by the melody's end time, as the real-valued signal the transform reads.
   */
  function Signal(c: Contour, n: nat): (s: seq<real>)
    requires WellFormed(c)
    ensures |s| == n
    ensures n > 0 ==> s[0] == c.pitches[0] as real
    ensures n > 1 ==> s[n - 1] == c.pitches[|c.pitches| - 1] as real
  {
    var h := HoldSamples(c.times, c.pitches, 0, |c.times|, n);
    seq(n, i requires 0 <= i < n => h[i] as real)
  }

  /** The codec samples a melody exactly as whole-melody mode does, so each sample is one of its pitches. */
  lemma SignalIsWholeRow(c: Contour, n: nat, i: nat)
    requires WellFormed(c) && i < n
    ensures Signal(c, n)[i] == WholeRow(c, n).samples[i] as real
    ensures exists j :: 0 <= j < |c.pitches| && Signal(c, n)[i] == c.pitches[j] as real
  {
    WholeRowHeldPitch(c, n, i);
    var j :| 0 <= j < |c.pitches| && WholeRow(c, n).samples[i] == c.pitches[j];
  }

  /** The coefficients of the requested order: one transform, or the transform applied twice. */
  function Coefficients(s: seq<real>, order: int, dct: Transform): (r: Result<seq<real>>)
    ensures r.Failure? <==> order != 1 && order != 2
    ensures r.Failure? ==> r.error == InvalidOrder(order)
  {
    if order == 1 then Success(dct(s))
    else if order == 2 then Success(dct(dct(s)))
    else Failure(InvalidOrder(order))
  }

  /**
   * The cosine representation of a melody: its coefficients of the given
   * order with all but the k largest by magnitude zeroed. Orders other than
   * 1 and 2 are refused; k is not checked.
   */
  function CosineRepresentation(c: Contour, k: int, n: nat, order: int, dct: Transform): (r: Result<seq<real>>)
    requires WellFormed(c)
    ensures r.Failure? <==> order != 1 && order != 2
    ensures r.Failure? ==> r.error == InvalidOrder(order)
    ensures r.Success? ==> |r.value| == |Coefficients(Signal(c, n), order, dct).value|
  {
    match Coefficients(Signal(c, n), order, dct)
    case Failure(e) => Failure(e)
    case Success(full) => Success(KeepTopK(full, k))
  }

  /**
   * A valid order gives a code that keeps the largest coefficients of the
   * transform and zeroes exactly DropCount(k, n) of the smallest.
   */
  lemma CosineRepresentationRetainsLargest(c: Contour, k: int, n: nat, order: int, dct: Transform)
    requires WellFormed(c) && (order == 1 || order == 2)
    ensures var full := Coefficients(Signal(c, n), order, dct).value;
      var d := DropCount(k, |full|);
      RetainsLargest(full, d, CosineRepresentation(c, k, n, order, dct).value, Lowest(full, d))
  {
    KeepTopKRetainsLargest(Coefficients(Signal(c, n), order, dct).value, k);
  }

  /** Entry i of a signal under numpy broadcasting: a one-entry signal stands for any length. */
  function Broadcast(a: seq<real>, i: nat): real
    requires |a| == 1 || i < |a|
  {
    if |a| == 1 then a[0] else a[i]
  }

  function Min(x: real, y: real): real {
    if x < y then x else y
  }

  function Max(x: real, y: real): real {
    if x < y then y else x
  }

  /**
   * The element-wise mean of two signals, `(a + b) / 2` with numpy
   * broadcasting: equal lengths, or one of them of length one; any other
   * pair of lengths is refused.
   */
  function Average(a: seq<real>, b: seq<real>): (r: Result<seq<real>>)
    ensures r.Success? <==> |a| == |b| || |a| == 1 || |b| == 1
    ensures r.Failure? ==> r.error == IncompatibleShapes(|a|, |b|)
    ensures r.Success? ==> |r.value| == if |a| == 1 then |b| else |a|
    ensures r.Success? ==> forall i :: 0 <= i < |r.value| ==>
      Min(Broadcast(a, i), Broadcast(b, i)) <= r.value[i] <= Max(Broadcast(a, i), Broadcast(b, i))
  {
    if |a| == |b| || |a| == 1 || |b| == 1 then
      var w := if |a| == 1 then |b| else |a|;
      Success(seq(w, i requires 0 <= i < w => (Broadcast(a, i) + Broadcast(b, i)) / 2.0))
    else
      Failure(IncompatibleShapes(|a|, |b|))
  }

  /** Each averaged entry lies halfway between its two inputs. */
  lemma AverageIsMidpoint(a: seq<real>, b: seq<real>, i: nat)
    requires Average(a, b).Success? && i < |Average(a, b).value|
    ensures Average(a, b).value[i] - Broadcast(a, i) == Broadcast(b, i) - Average(a, b).value[i]
  {
  }

  /** The order of the two signals does not matter. */
  lemma AverageSymmetric(a: seq<real>, b: seq<real>)
    ensures Average(a, b).Success? ==> Average(b, a) == Average(a, b)
  {
    if Average(a, b).Success? {
      var r, s := Average(a, b).value, Average(b, a).value;
      assert |r| == |s|;
      forall i | 0 <= i < |r|
        ensures r[i] == s[i]
      {
        AverageIsMidpoint(a, b, i);
        AverageIsMidpoint(b, a, i);
      }
      assert r == s;
    }
  }

  /** Averaging a signal with itself gives it back. */
  lemma AverageSelf(a: seq<real>)
    ensures Average(a, a) == Success(a)
  {
    var r := Average(a, a).value;
    forall i | 0 <= i < |a|
      ensures r[i] == a[i]
    {
      AverageIsMidpoint(a, a, i);
    }
    assert r == a;
  }

  /**
   * The signal rebuilt from a first-order code, and, when a second-order
   * code is given, averaged with the signal rebuilt from that one by two
   * inverse transforms.
   */
  function Reconstruct(cs1: seq<real>, cs2: Option<seq<real>>, idct: Transform): (r: Result<seq<real>>)
    ensures cs2.None? ==> r == Success(idct(cs1))
    ensures cs2.Some? ==> (r.Success? <==> Average(idct(cs1), idct(idct(cs2.value))).Success?)
    ensures cs2.Some? && r.Success? ==>
      |r.value| == if |idct(cs1)| == 1 then |idct(idct(cs2.value))| else |idct(cs1)|
    ensures cs2.Some? && r.Success? ==> forall i :: 0 <= i < |r.value| ==>
      r.value[i] - Broadcast(idct(cs1), i) == Broadcast(idct(idct(cs2.value)), i) - r.value[i]
  {
    match cs2
    case None => Success(idct(cs1))
    case Some(second) =>
      var r := Average(idct(cs1), idct(idct(second)));
      if r.Success? then
        assert forall i :: 0 <= i < |r.value| ==>
          r.value[i] - Broadcast(idct(cs1), i) == Broadcast(idct(idct(second)), i) - r.value[i] by {
          forall i | 0 <= i < |r.value|
            ensures r.value[i] - Broadcast(idct(cs1), i) == Broadcast(idct(idct(second)), i) - r.value[i]
          {
            AverageIsMidpoint(idct(cs1), idct(idct(second)), i);
          }
        }
        r
      else r
  }

  /**
   * With nothing zeroed (k == 0 or k >= n) and an inverse that undoes the
   * transform on this signal, a first-order code rebuilds the signal.
   */
  lemma SingleCodeRoundTrip(c: Contour, k: int, n: nat, dct: Transform, idct: Transform)
    requires WellFormed(c) && (k == 0 || n <= k)
    requires |dct(Signal(c, n))| == n
    requires idct(dct(Signal(c, n))) == Signal(c, n)
    ensures CosineRepresentation(c, k, n, 1, dct).Success?
    ensures Reconstruct(CosineRepresentation(c, k, n, 1, dct).value, None, idct) == Success(Signal(c, n))
  {
  }

  /**
   * With nothing zeroed and an inverse that undoes each transform step,
   * averaging the rebuilds of the first- and second-order codes gives the
   * signal back.
   */
  lemma DualCodeRoundTrip(c: Contour, k: int, n: nat, dct: Transform, idct: Transform)
    requires WellFormed(c) && (k == 0 || n <= k)
    requires |dct(Signal(c, n))| == n && |dct(dct(Signal(c, n)))| == n
    requires idct(dct(Signal(c, n))) == Signal(c, n)
    requires idct(dct(dct(Signal(c, n)))) == dct(Signal(c, n))
    ensures CosineRepresentation(c, k, n, 1, dct).Success?
    ensures CosineRepresentation(c, k, n, 2, dct).Success?
    ensures Reconstruct(CosineRepresentation(c, k, n, 1, dct).value,
                        Some(CosineRepresentation(c, k, n, 2, dct).value), idct)
            == Success(Signal(c, n))
  {
    var s := Signal(c, n);
    assert CosineRepresentation(c, k, n, 1, dct).value == dct(s);
    assert CosineRepresentation(c, k, n, 2, dct).value == dct(dct(s));
    AverageSelf(s);
  }
}
