/** `TransformCache`: the age-limited, time-sorted history of stamped
    transforms kept for one dynamic frame.  The array `_cache` is the
    sequence field `cache`, which `insert`, `_removeOldEntries` and `clear`
    replace; its meaning is given by the functions of `CacheSpec` and
    `CacheLookup`. */
module Cache {
  import opened TimeUtils
  import opened TfTypes
  import opened BinarySearch
  import opened CacheSpec
  import opened CacheLookup

  class TransformCache<X(==)> {
    var cache: seq<Stamped<X>>
    /** `_maxAgeS`, in nanoseconds. */
    const maxAge: nat

    /** Stamps strictly increase and no sample is older than `maxAge`
        behind the newest. */
    ghost predicate Valid()
      reads this
    {
      CacheSpec.Valid(cache, maxAge)
    }

    constructor (maxAge: nat)
      ensures Valid()
      ensures cache == [] && this.maxAge == maxAge
    {
      cache := [];
      this.maxAge := maxAge;
    }

    /** The `length` getter. */
    function Length(): (n: nat)
      reads this
      ensures n == |cache|
    {
      |cache|
    }

    /** `get(index)`: a negative index counts from the end; an index out of
        range gives `undefined`, here None. */
    function Get(index: int): (r: Option<Stamped<X>>)
      reads this
      ensures r.Some? <==> -|cache| <= index < |cache|
      ensures 0 <= index < |cache| ==> r == Some(cache[index])
      ensures -|cache| <= index < 0 ==> r == Some(cache[|cache| + index])
    {
      if index < 0 then
        if |cache| + index >= 0 then Some(cache[|cache| + index]) else None
      else if index < |cache| then Some(cache[index]) else None
    }

    method Clear()
      modifies this
      ensures Valid()
      ensures cache == []
    {
      cache := [];
    }

    /** `getLatestTimestamp`: the newest stamp, `undefined` when empty. */
    function GetLatestTimestamp(): (t: Option<Time>)
      reads this
      ensures t.Some? <==> |cache| > 0
      ensures Valid() && t.Some? ==> forall e :: e in cache ==> StampNs(e) <= ToNanos(t.value)
      ensures t.Some? ==> exists e :: e in cache && e.stamp == t.value
    {
      if |cache| > 0 then Some(cache[|cache| - 1].stamp) else None
    }

    /** `getEarliestTimestamp`: the oldest stamp, `undefined` when empty. */
    function GetEarliestTimestamp(): (t: Option<Time>)
      reads this
      ensures t.Some? <==> |cache| > 0
      ensures Valid() && t.Some? ==> forall e :: e in cache ==> ToNanos(t.value) <= StampNs(e)
      ensures t.Some? ==> exists e :: e in cache && e.stamp == t.value
    {
      if |cache| > 0 then Some(cache[0].stamp) else None
    }

    /** `_checkRepeatedInsertion`. */
    function CheckRepeatedInsertion(index: int, data: Stamped<X>): (b: bool)
      reads this
      ensures b ==> 0 <= index < |cache| && cache[index].frameId == data.frameId
      ensures b ==> cache[index].transform == data.transform
      ensures (0 <= index < |cache| && cache[index].frameId == data.frameId
               && cache[index].transform == data.transform) ==> b
    {
      Repeated(cache, index, data)
    }

    /** `_getBounds`: the search of the history by stamp. */
    function GetBounds(time: Time): (r: seq<int>)
      reads this
      ensures |r| == 1 ==> 0 <= r[0] < |cache| && StampNs(cache[r[0]]) == ToNanos(time)
      ensures |r| == 2 ==>
        0 <= r[0] && r[1] == r[0] + 1 < |cache| && StampNs(cache[r[0]]) < ToNanos(time) < StampNs(cache[r[1]])
      ensures Valid() && |cache| >= 2 ==>
        (r == [] <==> StampNs(cache[0]) > ToNanos(time) || StampNs(cache[|cache| - 1]) < ToNanos(time))
    {
      BoundsSortedEmptyIff(cache, time);
      Bounds(cache, time, StampDist)
    }

    /** `_getLowerBound`: the sample stamped at `time`, or the earlier end
        of the pair around it; -1 when the search finds nothing. */
    function GetLowerBound(time: Time): (i: int)
      reads this
      ensures -1 <= i < |cache|
      ensures i == -1 <==> GetBounds(time) == []
      ensures i >= 0 ==> StampNs(cache[i]) <= ToNanos(time)
      ensures Valid() && i >= 0 && i + 1 < |cache| ==> ToNanos(time) < StampNs(cache[i + 1])
    {
      LowerBound(cache, time, StampDist)
    }

    /** `_getEntryIndex`: the index of the sample stamped exactly `time`, or
        -1.  A history of a single sample never reports a hit, because the
        search needs two samples to bracket anything. */
    function GetEntryIndex(time: Time): (i: int)
      reads this
      ensures -1 <= i < |cache|
      ensures i >= 0 ==> StampNs(cache[i]) == ToNanos(time)
      ensures |cache| <= 1 ==> i == -1
      ensures Valid() && |cache| >= 2 ==>
        forall k :: 0 <= k < |cache| && StampNs(cache[k]) == ToNanos(time) ==> i == k
    {
      ExactHitsFound(cache, time);
      var bounds := GetBounds(time);
      if |bounds| == 1 then bounds[0] else -1
    }

    /** `getMostRecent`: the newest sample, `undefined` when empty. */
    function GetMostRecent(): (r: Option<Stamped<X>>)
      reads this
      ensures r == Get(-1)
      ensures r.Some? <==> |cache| > 0
      ensures r.Some? ==> r.value in cache && GetLatestTimestamp() == Some(r.value.stamp)
      ensures Valid() && r.Some? ==> forall e :: e in cache && e != r.value ==> StampNs(e) < StampNs(r.value)
    {
      if |cache| > 0 then Some(cache[|cache| - 1]) else None
    }

    /** `_removeOldEntries`: scan from the front while samples are more than
        `maxAge` older than the newest, then drop them. */
    method RemoveOldEntries()
      modifies this
      ensures cache == Evict(old(cache), maxAge)
      ensures old(CacheSpec.Sorted(cache)) ==> Valid()
    {
      var len := |cache|;
      if len > 0 {
        var stamp := cache[len - 1].stamp;
        var i := 0;
        while i < len && Distance(stamp, cache[i].stamp) > maxAge
          invariant 0 <= i <= len
          invariant FirstWithin(cache, stamp, maxAge, i) == FirstWithin(cache, stamp, maxAge, 0)
        {
          i := i + 1;
        }
        cache := cache[i..];
      }
      if old(CacheSpec.Sorted(cache)) {
        EvictFacts(old(cache), maxAge);
      }
    }

    /** The first half of `insert`: where the new stamp goes in the history
        and whether it replaces the sample already stamped so. */
    method FindInsertionPoint(newStamp: Time) returns (insertionIndex: int, replacing: bool)
      ensures (insertionIndex, replacing) == Placement(cache, newStamp)
    {
      var len := |cache|;
      var bounds: seq<int> := [];
      var distanceFromStart := 0;
      var distanceFromEnd := 0;
      insertionIndex, replacing := 0, false;
      if len != 0 {
        distanceFromStart := Distance(newStamp, cache[0].stamp);
        distanceFromEnd := Distance(newStamp, cache[len - 1].stamp);
        var isWithinExistingBounds := distanceFromStart >= 0 && distanceFromEnd <= 0;
        if distanceFromStart == 0 {
          insertionIndex, replacing := 0, true;
        } else if distanceFromEnd == 0 {
          insertionIndex, replacing := len - 1, true;
        } else if isWithinExistingBounds {
          bounds := GetBounds(newStamp);
          BoundsInRange(cache, newStamp, StampDist);
          if |bounds| == 1 {
            insertionIndex, replacing := bounds[0], true;
          }
        }
      }
      if !replacing {
        if len == 0 {
          insertionIndex := 0;
        } else if distanceFromStart < 0 {
          insertionIndex := 0;
        } else if distanceFromEnd > 0 {
          insertionIndex := len;
        } else {
          insertionIndex := bounds[0] + 1;
        }
      }
    }

    /** The consolidation step of `insert`: widen the overwritten range by a
        neighbour on either side that repeats the new sample. */
    method FindSpliceRange(newData: Stamped<X>) returns (insertionIndex: int, numToDelete: int)
      ensures (insertionIndex, insertionIndex + numToDelete) == SpliceRange(cache, newData)
    {
      var replacing;
      insertionIndex, replacing := FindInsertionPoint(newData.stamp);
      numToDelete := if replacing then 1 else 0;
      if !replacing && CheckRepeatedInsertion(insertionIndex, newData) {
        numToDelete := numToDelete + 1;
      } else if replacing && CheckRepeatedInsertion(insertionIndex + 1, newData) {
        numToDelete := numToDelete + 1;
      }
      if CheckRepeatedInsertion(insertionIndex - 1, newData) {
        numToDelete := numToDelete + 1;
        insertionIndex := insertionIndex - 1;
      }
    }

    /** `insert`: refuse a sample more than `maxAge` older than the newest;
        otherwise put it in stamp order, replacing a sample with the same
        stamp, overwrite neighbours that repeat its parent frame and
        transform, and evict the samples that have aged out. */
    method Insert(newData: Stamped<X>) returns (ok: bool)
      modifies this
      ensures (ok, cache) == CacheSpec.Insert(old(cache), maxAge, newData)
      ensures !ok <==> old(|cache|) > 0 && Distance(old(cache)[old(|cache|) - 1].stamp, newData.stamp) > maxAge
      ensures !ok ==> cache == old(cache)
      ensures old(Valid()) ==> Valid() && |cache| <= old(|cache|) + 1
      ensures old(Valid()) && ok ==> newData in cache
      ensures forall e :: e in cache ==> e == newData || e in old(cache)
      ensures old(Valid()) && ok ==> forall k :: 0 <= k < old(|cache|) && Overwritten(old(cache), k, newData) ==>
        (old(cache)[k] in cache ==> old(cache)[k] == newData)
    {
      ghost var c0 := cache;
      var len := |cache|;
      // too old to keep: refuse it
      if len != 0 && Distance(cache[len - 1].stamp, newData.stamp) > maxAge {
        return false;
      }
      var insertionIndex, numToDelete := FindSpliceRange(newData);
      cache := cache[..insertionIndex] + [newData] + cache[insertionIndex + numToDelete..];
      RemoveOldEntries();
      ok := true;
      assert (ok, cache) == CacheSpec.Insert(c0, maxAge, newData);
      if CacheSpec.Valid(c0, maxAge) {
        InsertKeepsValid(c0, maxAge, newData);
        InsertReplacesSameStamp(c0, maxAge, newData);
        InsertConsolidatesAll(c0, maxAge, newData);
      }
      InsertOnlyDrops(c0, maxAge, newData);
    }

    /** `findClosestFrames`: reads the history and never changes it. */
    method FindClosestFrames(time: Time) returns (r: Result<seq<Stamped<X>>>)
      ensures r == ClosestFrames(cache, time)
      ensures r == Err(NoHistory) <==> |cache| == 0
      ensures Valid() && |cache| >= 2 && !IsZero(time) ==>
        (r.Ok? <==> StampNs(cache[0]) <= ToNanos(time) <= StampNs(cache[|cache| - 1]))
    {
      r := ClosestFrames(cache, time);
      if Valid() && |cache| >= 2 && !IsZero(time) {
        ClosestFramesNoExtrapolation(cache, time);
      }
    }

    /** `getClosest`: the transform at `time`, interpolated by `alg.blend`
        between two bracketing samples. */
    method GetClosest(time: Time, alg: Algebra<X>) returns (r: Result<X>)
      ensures r == Closest(cache, time, alg)
      ensures |cache| == 0 ==> r == Err(NoHistory)
      ensures |cache| >= 1 && IsZero(time) ==> r == Ok(cache[|cache| - 1].transform)
    {
      r := Closest(cache, time, alg);
    }
  }
}
