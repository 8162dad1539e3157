/** Closest-match binary search over a collection ordered with respect to a
    query by a caller-supplied signed distance (negative: the element comes
    before the query, positive: after, zero: a hit).  Results are index
    lists as in the original: `[i]` for a hit, `[lo, hi]` for a bracket and
    `[]` when the query is outside the collection. */
module BinarySearch {
  import opened TfTypes

  /** The collection is ordered with respect to `val`: distances never
      decrease along it. */
  ghost predicate SortedFor<T, V>(c: seq<T>, val: V, dist: (T, V) -> int) {
    forall i, j :: 0 <= i <= j < |c| ==> dist(c[i], val) <= dist(c[j], val)
  }

  /** What the narrowing loop of `_binarySearchBounds` returns when it is
      entered with bounds `lo` and `hi`. */
  function RawBoundsFrom<T, V>(c: seq<T>, val: V, dist: (T, V) -> int, lo: int, hi: int): seq<int>
    requires 0 <= lo && hi < |c|
    decreases hi - lo
  {
    if hi <= lo then [lo, hi]
    else
      var mid := (lo + hi) / 2;
      var d := dist(c[mid], val);
      if d < 0 then
        if lo == mid then [lo, hi] else RawBoundsFrom(c, val, dist, mid, hi)
      else if d > 0 then
        // mid < hi whenever hi > lo, so the early return never fires
        if hi == mid then [lo, hi] else RawBoundsFrom(c, val, dist, lo, mid)
      else [mid]
  }

  /** `_binarySearchBounds`: the loop started on the whole collection. */
  function RawBounds<T, V>(c: seq<T>, val: V, dist: (T, V) -> int): seq<int> {
    RawBoundsFrom(c, val, dist, 0, |c| - 1)
  }

  /** The narrowing loop of `_binarySearchBounds`, step by step. */
  method SearchBounds<T, V>(c: seq<T>, val: V, dist: (T, V) -> int) returns (r: seq<int>)
    ensures r == RawBounds(c, val, dist)
    ensures |r| == 1 ==> 0 <= r[0] < |c| && dist(c[r[0]], val) == 0
  {
    var len := |c|;
    var hi := len - 1;
    var lo := 0;
    while hi > lo
      invariant 0 <= lo && hi < len
      invariant RawBoundsFrom(c, val, dist, lo, hi) == RawBounds(c, val, dist)
      decreases hi - lo
    {
      var mid := (lo + hi) / 2;
      var d := dist(c[mid], val);
      if d < 0 {
        if lo == mid {
          return [lo, hi];
        }
        lo := mid;
      } else if d > 0 {
        if hi == mid {
          return [lo, hi];
        }
        hi := mid;
      } else {
        return [mid];
      }
    }
    return [lo, hi];
  }

  /** Every result of the loop is a hit, a bracket of adjacent indices whose
      lower end lies before the query, or a collapsed pair `[i, i]`; the
      two ends keep the signs they were entered with. */
  lemma {:induction false} RawBoundsFromShape<T, V>(c: seq<T>, val: V, dist: (T, V) -> int, lo: int, hi: int)
    requires 0 <= lo <= hi < |c|
    requires lo > 0 ==> dist(c[lo], val) < 0
    requires hi < |c| - 1 ==> dist(c[hi], val) > 0
    ensures var r := RawBoundsFrom(c, val, dist, lo, hi);
      || (|r| == 1 && lo <= r[0] <= hi && dist(c[r[0]], val) == 0)
      || (|r| == 2 && lo <= r[0] && r[1] == r[0] + 1 <= hi && dist(c[r[0]], val) < 0
          && (r[1] < |c| - 1 ==> dist(c[r[1]], val) > 0))
      || (|r| == 2 && r[0] == r[1] && lo <= r[0] <= hi
          && (r[0] > 0 ==> dist(c[r[0]], val) < 0) && (r[0] < |c| - 1 ==> dist(c[r[0]], val) > 0))
    decreases hi - lo
  {
    if hi > lo {
      var mid := (lo + hi) / 2;
      var d := dist(c[mid], val);
      if d < 0 && lo != mid {
        RawBoundsFromShape(c, val, dist, mid, hi);
      } else if d > 0 && hi != mid {
        RawBoundsFromShape(c, val, dist, lo, mid);
      }
    }
  }

  /** Entered with a non-positive lower end and a non-negative upper end,
      the loop never collapses to `[i, i]`, and a bracket's upper end is
      not before the query. */
  lemma {:induction false} RawBoundsFromInRange<T, V>(c: seq<T>, val: V, dist: (T, V) -> int, lo: int, hi: int)
    requires 0 <= lo < hi < |c|
    requires dist(c[lo], val) <= 0 <= dist(c[hi], val)
    ensures var r := RawBoundsFrom(c, val, dist, lo, hi);
      || (|r| == 1 && 0 <= r[0] < |c| && dist(c[r[0]], val) == 0)
      || (|r| == 2 && 0 <= r[0] && r[1] == r[0] + 1 < |c| && dist(c[r[1]], val) >= 0)
    decreases hi - lo
  {
    var mid := (lo + hi) / 2;
    var d := dist(c[mid], val);
    if d < 0 && lo != mid {
      RawBoundsFromInRange(c, val, dist, mid, hi);
    } else if d > 0 && hi != mid {
      RawBoundsFromInRange(c, val, dist, lo, mid);
    }
  }

  /** `binarySearchBounds`: the loop's result, with collapsed pairs and
      brackets that do not straddle the query turned into `[]` and brackets
      whose one end is a hit turned into that index. */
  function Bounds<T, V>(c: seq<T>, val: V, dist: (T, V) -> int): (r: seq<int>)
    ensures |r| <= 2
    ensures |r| == 1 ==> 0 <= r[0] < |c| && dist(c[r[0]], val) == 0
    ensures |r| == 2 ==> 0 <= r[0] && r[1] == r[0] + 1 < |c| && dist(c[r[0]], val) < 0 < dist(c[r[1]], val)
    ensures |c| <= 1 ==> r == []
  {
    var b := RawBounds(c, val, dist);
    if |c| > 0 then RawBoundsFromShape(c, val, dist, 0, |c| - 1); BoundsOf(c, val, dist, b)
    else BoundsOf(c, val, dist, b)
  }

  /** The case analysis `binarySearchBounds` performs on the loop's result. */
  function BoundsOf<T, V>(c: seq<T>, val: V, dist: (T, V) -> int, b: seq<int>): seq<int>
  {
    if |b| == 2 then
      var lo, hi := b[0], b[1];
      if lo == hi then []
      else if hi < lo then []
      else if !(0 <= lo < hi < |c|) then b
      else
        var loDist := dist(c[lo], val);
        if loDist == 0 then [lo]
        else if loDist > 0 then []
        else
          var hiDist := dist(c[hi], val);
          if hiDist == 0 then [hi]
          else if hiDist < 0 then []
          else b
    else b
  }

  /** A collection of at least two elements whose first element is not
      after the query and whose last is not before it always yields a hit
      or a bracket; no ordering of the middle is needed. */
  lemma BoundsInRange<T, V>(c: seq<T>, val: V, dist: (T, V) -> int)
    requires |c| >= 2 && dist(c[0], val) <= 0 <= dist(c[|c| - 1], val)
    ensures Bounds(c, val, dist) != []
  {
    RawBoundsFromInRange(c, val, dist, 0, |c| - 1);
    RawBoundsFromShape(c, val, dist, 0, |c| - 1);
    var b := RawBounds(c, val, dist);
    assert BoundsOf(c, val, dist, b) == Bounds(c, val, dist);
    if |b| == 2 {
      assert dist(c[b[0]], val) < 0 <= dist(c[b[1]], val);
      assert BoundsOf(c, val, dist, b) != [];
    }
  }

  /** On an ordered collection the search is empty exactly when the
      collection has fewer than two elements or the query lies outside it. */
  lemma BoundsEmptyIff<T, V>(c: seq<T>, val: V, dist: (T, V) -> int)
    requires SortedFor(c, val, dist)
    ensures Bounds(c, val, dist) == [] <==>
      |c| <= 1 || dist(c[0], val) > 0 || dist(c[|c| - 1], val) < 0
  {
    if |c| >= 2 && dist(c[0], val) <= 0 <= dist(c[|c| - 1], val) {
      BoundsInRange(c, val, dist);
    }
  }

  function Abs(x: int): nat {
    if x < 0 then -x else x
  }

  /** `binarySearchIndex`: the index of the element nearest the query, the
      lower one of a bracket on a tie, or -1 when the search is empty. */
  function Index<T, V>(c: seq<T>, val: V, dist: (T, V) -> int): (i: int)
    ensures -1 <= i < |c|
    ensures i == -1 <==> Bounds(c, val, dist) == []
    ensures i >= 0 ==> i in Bounds(c, val, dist)
    ensures forall j :: j in Bounds(c, val, dist) ==> i >= 0 && Abs(dist(c[i], val)) <= Abs(dist(c[j], val))
    ensures var b := Bounds(c, val, dist);
      |b| == 2 && Abs(dist(c[b[0]], val)) == Abs(dist(c[b[1]], val)) ==> i == b[0]
  {
    var b := Bounds(c, val, dist);
    if |b| == 0 then -1
    else if |b| == 1 then b[0]
    else if Abs(dist(c[b[0]], val)) <= Abs(dist(c[b[1]], val)) then b[0]
    else b[1]
  }

  /** On an ordered collection the chosen index is nearest the query among
      all elements, not only among the two bracketing ones. */
  lemma IndexIsNearest<T, V>(c: seq<T>, val: V, dist: (T, V) -> int, j: int)
    requires SortedFor(c, val, dist)
    requires 0 <= j < |c|
    requires Index(c, val, dist) >= 0
    ensures Abs(dist(c[Index(c, val, dist)], val)) <= Abs(dist(c[j], val))
  {
    var b := Bounds(c, val, dist);
    if |b| == 2 {
      if j <= b[0] {
        assert dist(c[j], val) <= dist(c[b[0]], val);
      } else {
        assert dist(c[b[1]], val) <= dist(c[j], val);
      }
    }
  }

  /** `binarySearch`: the nearest element itself (`undefined` becomes None). */
  function Search<T, V>(c: seq<T>, val: V, dist: (T, V) -> int): (r: Option<T>)
    ensures r.Some? <==> Bounds(c, val, dist) != []
    ensures r.Some? ==> r.value == c[Index(c, val, dist)]
  {
    var i := Index(c, val, dist);
    if i < 0 then None else Some(c[i])
  }

  /** `lowerBound`: the hit, or the lower end of the bracket. */
  function LowerBound<T, V>(c: seq<T>, val: V, dist: (T, V) -> int): (i: int)
    ensures -1 <= i < |c|
    ensures i == -1 <==> Bounds(c, val, dist) == []
    ensures i >= 0 ==> dist(c[i], val) <= 0
    ensures i >= 0 ==> i + 1 < |c| ==> dist(c[i + 1], val) > 0 || dist(c[i], val) == 0
  {
    var b := Bounds(c, val, dist);
    if |b| == 1 || |b| == 2 then b[0] else -1
  }

  /** `upperBound`: the hit, or the upper end of the bracket. */
  function UpperBound<T, V>(c: seq<T>, val: V, dist: (T, V) -> int): (i: int)
    ensures -1 <= i < |c|
    ensures i == -1 <==> Bounds(c, val, dist) == []
    ensures i >= 0 ==> dist(c[i], val) >= 0
    ensures i > 0 ==> dist(c[i - 1], val) < 0 || dist(c[i], val) == 0
  {
    var b := Bounds(c, val, dist);
    if |b| == 1 then b[0] else if |b| == 2 then b[1] else -1
  }

  /** The bracket's two ends are consecutive: upper is lower plus one,
      unless the query hits an element. */
  lemma LowerUpperAdjacent<T, V>(c: seq<T>, val: V, dist: (T, V) -> int)
    ensures var lo, hi := LowerBound(c, val, dist), UpperBound(c, val, dist);
      hi == lo || hi == lo + 1
    ensures UpperBound(c, val, dist) == LowerBound(c, val, dist) + 1 <==> |Bounds(c, val, dist)| == 2
  {
  }

  function NumericDistance(a: int, b: int): int {
    a - b
  }

  /** The search on the array `[0, 1, 3, 5, 8, 19]` with plain subtraction. */
  lemma NumericExamples()
    ensures Bounds([0, 1, 3, 5, 8, 19], 2, NumericDistance) == [1, 2]
    ensures Bounds([0, 1, 3, 5, 8, 19], 1, NumericDistance) == [1]
    ensures Bounds([0, 1, 3, 5, 8, 19], 0, NumericDistance) == [0]
    ensures Bounds([0, 1, 3, 5, 8, 19], 19, NumericDistance) == [5]
    ensures Bounds([0, 1, 3, 5, 8, 19], 18, NumericDistance) == [4, 5]
    ensures Bounds([0, 1, 3, 5, 8, 19], -1, NumericDistance) == []
    ensures Bounds([0, 1, 3, 5, 8, 19], 2000, NumericDistance) == []
    ensures Bounds([-1], -1, NumericDistance) == []
    ensures Index([0, 1, 3, 5, 8, 19], 2, NumericDistance) == 1
    ensures Index([0, 1, 3, 5, 8, 19], 18, NumericDistance) == 5
  {
  }
}
