/**
 * Top-k magnitude retention of cosine coefficients: every coefficient
 * outside the k of largest magnitude is set to zero. The coefficients are
 * ranked by ascending magnitude, and the positions of the lowest ranks are
 * the ones zeroed, as the first entries of an ascending argsort are.
 */
module TopK {

  function Abs(x: real): (a: real)
    ensures 0.0 <= a && (a == x || a == -x)
  {
    if x < 0.0 then -x else x
  }

  /** The positions 0, 1, ..., n - 1. */
  function Range(n: nat): (r: set<int>)
    ensures forall j :: j in r <==> 0 <= j < n
    ensures |r| == n
  {
    if n == 0 then {} else Range(n - 1) + {n - 1}
  }

  lemma SubsetSize(a: set<int>, b: set<int>)
    requires a <= b
    ensures |a| <= |b|
    ensures a < b ==> |a| < |b|
  {
    assert b == a + (b - a);
  }

  /**
   * Position j comes before position i in ascending order of magnitude;
   * equal magnitudes are ordered by position.
   */
  predicate Precedes(cs: seq<real>, j: int, i: int)
    requires 0 <= j < |cs| && 0 <= i < |cs|
  {
    Abs(cs[j]) < Abs(cs[i]) || (Abs(cs[j]) == Abs(cs[i]) && j < i)
  }

  /** The positions that come before position i. */
  function Below(cs: seq<real>, i: int): set<int>
    requires 0 <= i < |cs|
  {
    set j | 0 <= j < |cs| && Precedes(cs, j, i)
  }

  /** Where position i lands in the ascending order of magnitude. */
  function Rank(cs: seq<real>, i: int): nat
    requires 0 <= i < |cs|
  {
    |Below(cs, i)|
  }

  /** Ranks are positions of the order: each is less than the number of coefficients. */
  lemma RankBound(cs: seq<real>, i: int)
    requires 0 <= i < |cs|
    ensures Rank(cs, i) < |cs|
  {
    assert i in Range(|cs|) - Below(cs, i);
    SubsetSize(Below(cs, i), Range(|cs|));
  }

  /** Ranks follow the order: a position that comes first has the smaller rank. */
  lemma PrecedesRankLess(cs: seq<real>, j: int, i: int)
    requires 0 <= j < |cs| && 0 <= i < |cs| && Precedes(cs, j, i)
    ensures Rank(cs, j) < Rank(cs, i)
  {
    assert j in Below(cs, i) && j !in Below(cs, j);
    SubsetSize(Below(cs, j), Below(cs, i));
  }

  /** No two positions share a rank. */
  lemma RankInjective(cs: seq<real>, i: int, j: int)
    requires 0 <= i < |cs| && 0 <= j < |cs| && i != j
    ensures Rank(cs, i) != Rank(cs, j)
  {
    if Precedes(cs, i, j) {
      PrecedesRankLess(cs, i, j);
    } else {
      PrecedesRankLess(cs, j, i);
    }
  }

  /** The positions of the d lowest ranks: the d smallest coefficients by magnitude. */
  function Lowest(cs: seq<real>, d: nat): set<int> {
    set i | 0 <= i < |cs| && Rank(cs, i) < d
  }

  /**
   * The first position in the order among the positions below i that are
   * not in `low`, when there is one.
   */
  lemma {:induction false} FirstOutside(cs: seq<real>, low: set<int>, i: nat) returns (m: int)
    requires i <= |cs| && exists j :: 0 <= j < i && j !in low
    ensures 0 <= m < i && m !in low
    ensures forall x :: 0 <= x < i && x !in low && x != m ==> Precedes(cs, m, x)
    decreases i
  {
    var last := i - 1;
    if exists j :: 0 <= j < last && j !in low {
      var n := FirstOutside(cs, low, last);
      if last !in low && Precedes(cs, last, n) {
        m := last;
        forall x | 0 <= x < i && x !in low && x != m
          ensures Precedes(cs, m, x)
        {
          if x != n {
            assert Precedes(cs, n, x);
          }
        }
      } else {
        m := n;
      }
    } else {
      m := last;
    }
  }

  /** Fewer than all positions have rank below e, so some position lies outside them. */
  lemma OutsideLowest(cs: seq<real>, e: nat)
    requires |Lowest(cs, e)| == e < |cs|
    ensures exists j :: 0 <= j < |cs| && j !in Lowest(cs, e)
  {
    if forall j :: 0 <= j < |cs| ==> j in Lowest(cs, e) {
      SubsetSize(Range(|cs|), Lowest(cs, e));
    }
  }

  /** The first position outside the e lowest ranks comes after exactly those positions. */
  lemma FirstOutsideLowest(cs: seq<real>, e: nat, m: int)
    requires 0 <= m < |cs| && m !in Lowest(cs, e)
    requires forall x :: 0 <= x < |cs| && x !in Lowest(cs, e) && x != m ==> Precedes(cs, m, x)
    ensures Below(cs, m) == Lowest(cs, e)
  {
    forall j | j in Lowest(cs, e)
      ensures j in Below(cs, m)
    {
      if Precedes(cs, m, j) {
        PrecedesRankLess(cs, m, j);
      }
    }
  }

  /** The positions of rank below e + 1 are those of rank below e and the one of rank e. */
  lemma NextLowest(cs: seq<real>, e: nat, m: int)
    requires 0 <= m < |cs| && Rank(cs, m) == e
    ensures Lowest(cs, e + 1) == Lowest(cs, e) + {m}
    ensures m !in Lowest(cs, e)
  {
    forall x | x in Lowest(cs, e + 1) && x !in Lowest(cs, e)
      ensures x == m
    {
      if x != m {
        RankInjective(cs, x, m);
      }
    }
  }

  /** There are exactly d positions of rank below d, for every d up to the length. */
  lemma {:induction false} LowestSize(cs: seq<real>, d: nat)
    requires d <= |cs|
    ensures |Lowest(cs, d)| == d
  {
    if d == 0 {
      assert Lowest(cs, 0) == {};
    } else {
      var e := d - 1;
      LowestSize(cs, e);
      OutsideLowest(cs, e);
      var m := FirstOutside(cs, Lowest(cs, e), |cs|);
      FirstOutsideLowest(cs, e, m);
      NextLowest(cs, e, m);
    }
  }

  /** Every position of the d lowest ranks is no larger in magnitude than any position outside them. */
  lemma LowestAreSmallest(cs: seq<real>, d: nat, i: int, j: int)
    requires 0 <= i < |cs| && 0 <= j < |cs|
    requires j in Lowest(cs, d) && i !in Lowest(cs, d)
    ensures Abs(cs[j]) <= Abs(cs[i])
  {
    if Abs(cs[i]) < Abs(cs[j]) {
      PrecedesRankLess(cs, i, j);
    }
  }

  /**
   * How many coefficients the slice `[:-k]` of an ascending argsort of n
   * entries selects: n - k for 1 <= k <= n, none for k == 0 (the slice
   * `[:-0]` is empty) or k >= n, and the first -k (at most n) for k < 0.
   */
  function DropCount(k: int, n: nat): (d: nat)
    ensures d <= n
    ensures 1 <= k <= n ==> d == n - k
    ensures k == 0 || n <= k ==> d == 0
    ensures k < 0 ==> d == if n < -k then n else -k
  {
    if k > 0 then (if k < n then n - k else 0)
    else if k == 0 then 0
    else if -k < n then -k
    else n
  }

  /** The coefficients with every one outside the k largest by magnitude set to zero. */
  function KeepTopK(cs: seq<real>, k: int): (r: seq<real>)
    ensures |r| == |cs|
    ensures DropCount(k, |cs|) == 0 ==> r == cs
  {
    var d := DropCount(k, |cs|);
    seq(|cs|, i requires 0 <= i < |cs| => if Rank(cs, i) < d then 0.0 else cs[i])
  }

  /**
   * `r` keeps the coefficients of `cs` except for exactly d positions, the
   * set `zeroed`, which are set to zero and are no larger in magnitude than
   * any kept coefficient. This is what top-k retention promises whatever
   * order an argsort gives to coefficients of equal magnitude.
   */
  ghost predicate RetainsLargest(cs: seq<real>, d: nat, r: seq<real>, zeroed: set<int>) {
    && |r| == |cs|
    && zeroed <= Range(|cs|)
    && |zeroed| == d
    && (forall i :: 0 <= i < |cs| && i in zeroed ==> r[i] == 0.0)
    && (forall i :: 0 <= i < |cs| && i !in zeroed ==> r[i] == cs[i])
    && (forall i, j :: 0 <= i < |cs| && 0 <= j < |cs| && j in zeroed && i !in zeroed ==> Abs(cs[j]) <= Abs(cs[i]))
  }

  /** Top-k retention zeroes exactly DropCount(k, n) coefficients, the smallest by magnitude, and keeps the rest. */
  lemma KeepTopKRetainsLargest(cs: seq<real>, k: int)
    ensures RetainsLargest(cs, DropCount(k, |cs|), KeepTopK(cs, k), Lowest(cs, DropCount(k, |cs|)))
  {
    var d := DropCount(k, |cs|);
    LowestSize(cs, d);
    forall i, j | 0 <= i < |cs| && 0 <= j < |cs| && j in Lowest(cs, d) && i !in Lowest(cs, d)
      ensures Abs(cs[j]) <= Abs(cs[i])
    {
      LowestAreSmallest(cs, d, i, j);
    }
  }

  /** For 1 <= k <= n: exactly n - k coefficients are zeroed and the other k keep their values. */
  lemma KeepTopKInRange(cs: seq<real>, k: int)
    requires 1 <= k <= |cs|
    ensures RetainsLargest(cs, |cs| - k, KeepTopK(cs, k), Lowest(cs, |cs| - k))
    ensures |Range(|cs|) - Lowest(cs, |cs| - k)| == k
  {
    var low := Lowest(cs, |cs| - k);
    assert DropCount(k, |cs|) == |cs| - k;
    KeepTopKRetainsLargest(cs, k);
    assert Range(|cs|) == low + (Range(|cs|) - low);
  }

  /**
   * Retention is idempotent: the zeroed coefficients come first in a second
   * pass, so the surviving ones survive it.
   */
  lemma KeepTopKIdempotent(cs: seq<real>, k: int)
    ensures KeepTopK(KeepTopK(cs, k), k) == KeepTopK(cs, k)
  {
    var r := KeepTopK(cs, k);
    var d := DropCount(k, |cs|);
    LowestSize(cs, d);
    forall i | 0 <= i < |r|
      ensures KeepTopK(r, k)[i] == r[i]
    {
      if r[i] != 0.0 {
        assert Lowest(cs, d) <= Below(r, i);
        SubsetSize(Lowest(cs, d), Below(r, i));
      }
    }
  }
}
