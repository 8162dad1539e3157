/** Lookups in one frame's transform history: `findClosestFrames`, which
    implements the "interpolate, never extrapolate" policy, and
    `getClosest`, which turns the one or two samples it returns into a
    transform. */
module CacheLookup {
  import opened TimeUtils
  import opened TfTypes
  import opened BinarySearch
  import opened CacheSpec

  /** `findClosestFrames`: the one sample that answers `time`, or the two
      samples that bracket it, or the exception the original throws. */
  function ClosestFrames<X>(c: seq<Stamped<X>>, time: Time): (r: Result<seq<Stamped<X>>>)
    ensures r == Err(NoHistory) <==> |c| == 0
    ensures r != Err(NoBounds)
    ensures r == Err(ExtrapolateFuture) <==>
      |c| >= 2 && !IsZero(time) && ToNanos(time) > StampNs(c[|c| - 1]) && ToNanos(time) != StampNs(c[0])
    ensures r == Err(ExtrapolatePast) <==>
      |c| >= 2 && !IsZero(time) && ToNanos(time) < StampNs(c[0]) && ToNanos(time) < StampNs(c[|c| - 1])
    ensures |c| == 1 ==> r == Ok([c[0]])
    ensures |c| >= 2 && IsZero(time) ==> r == Ok([c[|c| - 1]])
    ensures |c| >= 2 && !IsZero(time) && ToNanos(time) == StampNs(c[|c| - 1]) ==> r == Ok([c[|c| - 1]])
    ensures |c| >= 2 && !IsZero(time) && ToNanos(time) == StampNs(c[0]) ==> r == Ok([c[0]]) || r == Ok([c[|c| - 1]])
    ensures r.Ok? ==> 1 <= |r.value| <= 2 && forall e :: e in r.value ==> e in c
    ensures r.Ok? && |r.value| == 1 && |c| >= 2 && !IsZero(time) ==> StampNs(r.value[0]) == ToNanos(time)
    ensures r.Ok? && |r.value| == 2 ==>
      exists i :: 0 <= i < |c| - 1 && r.value == [c[i], c[i + 1]]
        && StampNs(c[i]) < ToNanos(time) < StampNs(c[i + 1])
  {
    var len := |c|;
    if len == 0 then Err(NoHistory)
    else if len == 1 then Ok([c[0]])
    else if IsZero(time) then Ok([c[len - 1]])
    else
      var latestTime := c[len - 1].stamp;
      var earliestTime := c[0].stamp;
      var earliestDist := Distance(time, earliestTime);
      var latestDist := Distance(time, latestTime);
      if latestDist == 0 then Ok([c[len - 1]])
      else if earliestDist == 0 then Ok([c[0]])
      else if latestDist > 0 then Err(ExtrapolateFuture)
      else if earliestDist < 0 then Err(ExtrapolatePast)
      else
        var bounds := Bounds(c, time, StampDist);
        BoundsInRange(c, time, StampDist);
        if |bounds| == 1 then Ok([c[bounds[0]]])
        else if |bounds| == 2 then Ok([c[bounds[0]], c[bounds[1]]])
        else Err(NoBounds)
  }

  /** On a sorted history with at least two samples and a non-zero query,
      the lookup succeeds exactly when the query lies between the oldest
      and the newest stamp: it never extrapolates. */
  lemma ClosestFramesNoExtrapolation<X>(c: seq<Stamped<X>>, time: Time)
    requires Sorted(c) && |c| >= 2 && !IsZero(time)
    ensures ClosestFrames(c, time).Ok? <==> StampNs(c[0]) <= ToNanos(time) <= StampNs(c[|c| - 1])
    ensures ToNanos(time) > StampNs(c[|c| - 1]) ==> ClosestFrames(c, time) == Err(ExtrapolateFuture)
    ensures ToNanos(time) < StampNs(c[0]) ==> ClosestFrames(c, time) == Err(ExtrapolatePast)
  {
    assert StampNs(c[0]) < StampNs(c[|c| - 1]);
  }

  /** On a sorted history a query stamped exactly like one of the samples
      (and not zero) returns that sample alone. */
  lemma ClosestFramesExact<X>(c: seq<Stamped<X>>, time: Time, i: int)
    requires Sorted(c) && 0 <= i < |c| && !IsZero(time)
    requires StampNs(c[i]) == ToNanos(time)
    ensures ClosestFrames(c, time) == Ok([c[i]])
  {
    if |c| >= 2 {
      assert StampNs(c[0]) <= StampNs(c[i]) <= StampNs(c[|c| - 1]);
    }
  }

  /** `interpolate`: blend two bracketing samples by the query's position
      between them.  When both stamps are equal the original returns the
      second stamped sample itself; here it is that sample's transform.  A
      bracket from `ClosestFrames` never has equal stamps. */
  function Interpolate<X>(alg: Algebra<X>, a: Stamped<X>, b: Stamped<X>, time: Time): (r: X)
    ensures Equal(a.stamp, b.stamp) ==> r == b.transform
    ensures StampNs(a) < StampNs(b) ==>
      r == alg.blend(a.transform, b.transform, ToNanos(time) - StampNs(a), StampNs(b) - StampNs(a))
  {
    if Equal(a.stamp, b.stamp) then b.transform
    else
      var interpDiff := Distance(time, a.stamp);
      var totalDiff := Distance(b.stamp, a.stamp);
      alg.blend(a.transform, b.transform, interpDiff, totalDiff)
  }

  /** `getClosest`: the transform of the single sample, or the blend of
      the two bracketing samples.  (Its `return null` for any other number
      of samples cannot happen.) */
  function Closest<X>(c: seq<Stamped<X>>, time: Time, alg: Algebra<X>): (r: Result<X>)
    ensures r.Err? <==> ClosestFrames(c, time).Err?
    ensures r.Err? ==> r.error == ClosestFrames(c, time).error
    ensures |c| == 1 ==> r == Ok(c[0].transform)
    ensures |c| >= 1 && IsZero(time) ==> r == Ok(c[|c| - 1].transform)
    ensures |c| >= 2 && ToNanos(time) == StampNs(c[|c| - 1]) ==> r == Ok(c[|c| - 1].transform)
  {
    var frames := ClosestFrames(c, time);
    match frames
    case Err(e) => Err(e)
    case Ok(f) =>
      if |f| == 1 then Ok(f[0].transform)
      else Ok(Interpolate(alg, f[0], f[1], time))
  }

  /** On a sorted history a query strictly between two consecutive samples
      returns exactly those two. */
  lemma ClosestFramesBracket<X>(c: seq<Stamped<X>>, time: Time, i: int)
    requires Sorted(c) && 0 <= i < |c| - 1 && !IsZero(time)
    requires StampNs(c[i]) < ToNanos(time) < StampNs(c[i + 1])
    ensures ClosestFrames(c, time) == Ok([c[i], c[i + 1]])
  {
    assert StampNs(c[0]) <= StampNs(c[i]) && StampNs(c[i + 1]) <= StampNs(c[|c| - 1]);
  }

  /** On a sorted history a query strictly between two consecutive samples
      blends exactly those two, with the query's offset from the earlier
      one and the gap between them. */
  lemma ClosestBlendsBracket<X>(c: seq<Stamped<X>>, time: Time, alg: Algebra<X>, i: int)
    requires Sorted(c) && 0 <= i < |c| - 1 && !IsZero(time)
    requires StampNs(c[i]) < ToNanos(time) < StampNs(c[i + 1])
    ensures Closest(c, time, alg) == Ok(alg.blend(c[i].transform, c[i + 1].transform,
      ToNanos(time) - StampNs(c[i]), StampNs(c[i + 1]) - StampNs(c[i])))
  {
    ClosestFramesBracket(c, time, i);
    assert !Equal(c[i].stamp, c[i + 1].stamp);
  }

  /** A query stamped exactly like a sample yields that sample's transform,
      unblended. */
  lemma ClosestExactUnblended<X>(c: seq<Stamped<X>>, time: Time, alg: Algebra<X>, i: int)
    requires Sorted(c) && 0 <= i < |c| && !IsZero(time)
    requires StampNs(c[i]) == ToNanos(time)
    ensures Closest(c, time, alg) == Ok(c[i].transform)
  {
    ClosestFramesExact(c, time, i);
  }

  /** On a sorted history of two or more samples, the search by stamp finds
      a sample stamped exactly at the query, and only that one. */
  lemma ExactHitFound<X>(c: seq<Stamped<X>>, time: Time, k: int)
    requires Sorted(c) && |c| >= 2 && 0 <= k < |c| && StampNs(c[k]) == ToNanos(time)
    ensures Bounds(c, time, StampDist) == [k]
  {
    assert StampNs(c[0]) <= StampNs(c[k]) <= StampNs(c[|c| - 1]);
    BoundsInRange(c, time, StampDist);
  }

  /** `ExactHitFound` for every sample at once. */
  lemma ExactHitsFound<X>(c: seq<Stamped<X>>, time: Time)
    ensures Sorted(c) && |c| >= 2 ==>
      forall k :: 0 <= k < |c| && StampNs(c[k]) == ToNanos(time) ==> Bounds(c, time, StampDist) == [k]
  {
    if Sorted(c) && |c| >= 2 {
      forall k | 0 <= k < |c| && StampNs(c[k]) == ToNanos(time)
        ensures Bounds(c, time, StampDist) == [k]
      {
        ExactHitFound(c, time, k);
      }
    }
  }

  /** On a sorted history of two or more samples the search by stamp finds
      nothing exactly when the query lies before the oldest or after the
      newest stamp. */
  lemma BoundsSortedEmptyIff<X>(c: seq<Stamped<X>>, time: Time)
    ensures Sorted(c) && |c| >= 2 ==>
      (Bounds(c, time, StampDist) == [] <==> StampNs(c[0]) > ToNanos(time) || StampNs(c[|c| - 1]) < ToNanos(time))
  {
    if Sorted(c) && |c| >= 2 {
      BoundsEmptyIff(c, time, StampDist);
    }
  }
}
