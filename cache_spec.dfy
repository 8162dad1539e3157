/** The behaviour of one frame's transform history, stated on the sequence
    of stamped samples the history holds: where `insert` places a sample,
    which neighbours it consolidates, which old samples it evicts, and
    which samples `findClosestFrames` returns for a query time. */
module CacheSpec {
  import opened TimeUtils
  import opened TfTypes
  import opened BinarySearch

  /** A sample's stamp in nanoseconds. */
  function StampNs<X>(e: Stamped<X>): int {
    ToNanos(e.stamp)
  }

  /** The distance the history searches with: sample stamp minus query. */
  function StampDist<X>(e: Stamped<X>, t: Time): int {
    Distance(e.stamp, t)
  }

  /** Stamps strictly increase along the history. */
  ghost predicate Sorted<X>(c: seq<Stamped<X>>) {
    forall i, j :: 0 <= i < j < |c| ==> StampNs(c[i]) < StampNs(c[j])
  }

  /** Every sample is at most `maxAge` older than the newest one. */
  ghost predicate WithinAge<X>(c: seq<Stamped<X>>, maxAge: nat) {
    forall i :: 0 <= i < |c| ==> Distance(c[|c| - 1].stamp, c[i].stamp) <= maxAge
  }

  /** The invariant every history keeps. */
  ghost predicate Valid<X>(c: seq<Stamped<X>>, maxAge: nat) {
    Sorted(c) && WithinAge(c, maxAge)
  }

  /** `_checkRepeatedInsertion`: there is a sample at `index` with the same
      parent frame and an equal transform. */
  predicate Repeated<X(==)>(c: seq<Stamped<X>>, index: int, data: Stamped<X>) {
    0 <= index < |c| && c[index].frameId == data.frameId && c[index].transform == data.transform
  }

  /** Where `insert` puts a sample stamped `t`, before consolidation, and
      whether it replaces the sample already at that index. */
  function Placement<X>(c: seq<Stamped<X>>, t: Time): (p: (int, bool))
    ensures 0 <= p.0 <= |c|
    ensures p.1 ==> p.0 < |c| && StampNs(c[p.0]) == ToNanos(t)
  {
    if |c| == 0 then (0, false)
    else
      var distanceFromStart := Distance(t, c[0].stamp);
      var distanceFromEnd := Distance(t, c[|c| - 1].stamp);
      var within := distanceFromStart >= 0 && distanceFromEnd <= 0;
      if distanceFromStart == 0 then (0, true)
      else if distanceFromEnd == 0 then (|c| - 1, true)
      else if distanceFromStart < 0 then (0, false)
      else if distanceFromEnd > 0 then (|c|, false)
      else
        // strictly inside the first and last stamps: search for the slot
        var bounds := Bounds(c, t, StampDist);
        BoundsInRange(c, t, StampDist);
        if |bounds| == 1 then (bounds[0], true)
        else (bounds[0] + 1, false)
  }

  /** On a sorted history the placement splits the samples: those before
      the slot are earlier than `t`, those after the replaced sample (or
      from the slot on) are later. */
  lemma PlacementSplits<X>(c: seq<Stamped<X>>, t: Time)
    requires Sorted(c)
    ensures var (idx, replacing) := Placement(c, t);
      && (forall k :: 0 <= k < idx ==> StampNs(c[k]) < ToNanos(t))
      && (forall k :: (if replacing then idx + 1 else idx) <= k < |c| ==> StampNs(c[k]) > ToNanos(t))
  {
    if |c| > 0 {
      var dS := Distance(t, c[0].stamp);
      var dE := Distance(t, c[|c| - 1].stamp);
      if dS != 0 && dE != 0 && dS > 0 && dE < 0 {
        var b := Bounds(c, t, StampDist);
        BoundsInRange(c, t, StampDist);
        if |b| == 1 {
          assert Placement(c, t) == (b[0], true);
          forall k | 0 <= k < |c| ensures k < b[0] ==> StampNs(c[k]) < ToNanos(t)
            ensures k > b[0] ==> StampNs(c[k]) > ToNanos(t)
          {
          }
        } else {
          assert Placement(c, t) == (b[0] + 1, false);
          forall k | 0 <= k < |c| ensures k <= b[0] ==> StampNs(c[k]) < ToNanos(t)
            ensures k >= b[1] ==> StampNs(c[k]) > ToNanos(t)
          {
            if k < b[0] { assert StampNs(c[k]) < StampNs(c[b[0]]); }
            if k > b[1] { assert StampNs(c[k]) > StampNs(c[b[1]]); }
          }
        }
      } else if dS == 0 {
        assert forall k :: 0 < k < |c| ==> StampNs(c[k]) > StampNs(c[0]);
      } else if dE == 0 {
        assert forall k :: 0 <= k < |c| - 1 ==> StampNs(c[k]) < StampNs(c[|c| - 1]);
      } else if dS < 0 {
        assert forall k :: 0 < k < |c| ==> StampNs(c[k]) > StampNs(c[0]);
      } else {
        assert forall k :: 0 <= k < |c| - 1 ==> StampNs(c[k]) < StampNs(c[|c| - 1]);
      }
    }
  }

  /** `splice(start, count, x)` on an array, with its arguments in range. */
  function Splice<T>(c: seq<T>, start: int, count: int, x: T): (r: seq<T>)
    requires 0 <= start <= start + count <= |c|
    ensures |r| == |c| - count + 1
  {
    c[..start] + [x] + c[start + count..]
  }

  /** The first and one-past-last index of the samples `insert` overwrites:
      the same-stamp sample, if any, plus a repeated neighbour on either
      side of the slot. */
  function SpliceRange<X(==)>(c: seq<Stamped<X>>, data: Stamped<X>): (r: (int, int))
    ensures 0 <= r.0 <= r.1 <= |c|
  {
    var (idx, replacing) := Placement(c, data.stamp);
    var ahead := if replacing then idx + 1 else idx;
    var numToDelete := (if replacing then 1 else 0) + (if Repeated(c, ahead, data) then 1 else 0);
    if Repeated(c, idx - 1, data) then (idx - 1, idx - 1 + numToDelete + 1)
    else (idx, idx + numToDelete)
  }

  /** The history after placement and consolidation, before eviction. */
  function Consolidated<X(==)>(c: seq<Stamped<X>>, data: Stamped<X>): seq<Stamped<X>>
  {
    var (start, end) := SpliceRange(c, data);
    Splice(c, start, end - start, data)
  }

  /** The index where `_removeOldEntries` stops scanning: the first sample
      from `i` on that is not more than `maxAge` older than `latest`. */
  function FirstWithin<X>(c: seq<Stamped<X>>, latest: Time, maxAge: nat, i: nat): (k: nat)
    requires i <= |c|
    ensures i <= k <= |c|
    ensures forall j :: i <= j < k ==> Distance(latest, c[j].stamp) > maxAge
    ensures k < |c| ==> Distance(latest, c[k].stamp) <= maxAge
    decreases |c| - i
  {
    if i < |c| && Distance(latest, c[i].stamp) > maxAge then FirstWithin(c, latest, maxAge, i + 1) else i
  }

  /** `_removeOldEntries`: drop the aged-out prefix. */
  function Evict<X>(c: seq<Stamped<X>>, maxAge: nat): seq<Stamped<X>> {
    if |c| == 0 then c else c[FirstWithin(c, c[|c| - 1].stamp, maxAge, 0)..]
  }

  /** `insert`: whether the sample was accepted, and the new history. */
  function Insert<X(==)>(c: seq<Stamped<X>>, maxAge: nat, data: Stamped<X>): (bool, seq<Stamped<X>>) {
    if |c| != 0 && Distance(c[|c| - 1].stamp, data.stamp) > maxAge then (false, c)
    else (true, Evict(Consolidated(c, data), maxAge))
  }

  /** Consolidation only overwrites the same-stamp sample and neighbours
      that repeat the new sample's parent frame and transform; everything
      before the overwritten run is earlier and everything after is later. */
  lemma ConsolidatedFacts<X>(c: seq<Stamped<X>>, data: Stamped<X>)
    requires Sorted(c)
    ensures var (s, e) := SpliceRange(c, data);
      && Consolidated(c, data) == c[..s] + [data] + c[e..]
      && e - s <= 3
      && (forall k :: 0 <= k < s ==> StampNs(c[k]) < StampNs(data))
      && (forall k :: e <= k < |c| ==> StampNs(c[k]) > StampNs(data))
      && (forall k :: s <= k < e ==> StampNs(c[k]) == StampNs(data) || Repeated(c, k, data))
  {
    PlacementSplits(c, data.stamp);
  }

  /** The samples `insert` is meant to overwrite: the one stamped like the
      new sample, and a nearest neighbour on either side of the new stamp
      that repeats its parent frame and transform. */
  ghost predicate Overwritten<X>(c: seq<Stamped<X>>, k: int, data: Stamped<X>)
    requires 0 <= k < |c|
  {
    || StampNs(c[k]) == StampNs(data)
    || (Repeated(c, k, data) && StampNs(c[k]) < StampNs(data)
        && (k + 1 == |c| || StampNs(c[k + 1]) >= StampNs(data)))
    || (Repeated(c, k, data) && StampNs(c[k]) > StampNs(data)
        && (k == 0 || StampNs(c[k - 1]) <= StampNs(data)))
  }

  /** Consolidation does overwrite those samples: the same-stamp sample and
      a repeated nearest neighbour lie inside the splice range. */
  lemma ConsolidatesNeighbours<X>(c: seq<Stamped<X>>, data: Stamped<X>, k: int)
    requires Sorted(c) && 0 <= k < |c| && Overwritten(c, k, data)
    ensures var (s, e) := SpliceRange(c, data); s <= k < e
  {
    ConsolidatedFacts(c, data);
    PlacementSplits(c, data.stamp);
  }

  /** An overwritten sample is gone after consolidation, unless it is the
      new sample itself. */
  lemma ConsolidatedRemoves<X>(c: seq<Stamped<X>>, data: Stamped<X>, k: int)
    requires Sorted(c) && 0 <= k < |c| && Overwritten(c, k, data)
    ensures c[k] in Consolidated(c, data) ==> c[k] == data
  {
    var (s, e) := SpliceRange(c, data);
    ConsolidatesNeighbours(c, data, k);
    ConsolidatedFacts(c, data);
    var m := Consolidated(c, data);
    forall i | 0 <= i < |m| && i != s ensures m[i] != c[k] {
      if i < s {
        assert m[i] == c[i];
      } else {
        assert m[i] == c[e + i - s - 1];
      }
    }
    if c[k] in m {
      var i :| 0 <= i < |m| && m[i] == c[k];
      assert i == s;
    }
  }

  /** A sequence made of a sorted prefix, one sample, and a sorted suffix,
      each part later than the one before, is sorted. */
  lemma SortedAround<X>(a: seq<Stamped<X>>, x: Stamped<X>, b: seq<Stamped<X>>)
    requires Sorted(a) && Sorted(b)
    requires forall k :: 0 <= k < |a| ==> StampNs(a[k]) < StampNs(x)
    requires forall k :: 0 <= k < |b| ==> StampNs(b[k]) > StampNs(x)
    ensures Sorted(a + [x] + b)
  {
    var r := a + [x] + b;
    forall i, j | 0 <= i < j < |r| ensures StampNs(r[i]) < StampNs(r[j]) {
      if j < |a| {
      } else if i > |a| {
        assert r[i] == b[i - |a| - 1] && r[j] == b[j - |a| - 1];
      } else if i == |a| {
        assert r[j] == b[j - |a| - 1];
      } else if j == |a| {
      } else {
        assert r[j] == b[j - |a| - 1];
      }
    }
  }

  /** Slices of a sorted history are sorted. */
  lemma SortedSlice<X>(c: seq<Stamped<X>>, i: int, j: int)
    requires Sorted(c) && 0 <= i <= j <= |c|
    ensures Sorted(c[i..j])
  {
    var r := c[i..j];
    forall a, b | 0 <= a < b < |r| ensures StampNs(r[a]) < StampNs(r[b]) {
      assert r[a] == c[i + a] && r[b] == c[i + b];
    }
  }

  /** Consolidation keeps the history sorted, keeps the new sample, and
      grows the history by at most one. */
  lemma ConsolidatedSorted<X>(c: seq<Stamped<X>>, data: Stamped<X>)
    requires Sorted(c)
    ensures Sorted(Consolidated(c, data))
    ensures data in Consolidated(c, data)
    ensures |c| - 2 <= |Consolidated(c, data)| <= |c| + 1
  {
    var (s, e) := SpliceRange(c, data);
    ConsolidatedFacts(c, data);
    SortedSlice(c, 0, s);
    SortedSlice(c, e, |c|);
    SortedAround(c[..s], data, c[e..]);
    assert (c[..s] + [data] + c[e..])[s] == data;
  }

  /** Eviction removes only a prefix, never the newest sample, and leaves
      every remaining sample within `maxAge` of the newest; a sample within
      the window is never evicted. */
  lemma EvictFacts<X>(c: seq<Stamped<X>>, maxAge: nat)
    requires Sorted(c)
    ensures var r := Evict(c, maxAge);
      && |r| <= |c| && r == c[|c| - |r|..]
      && (|c| > 0 ==> |r| > 0 && r[|r| - 1] == c[|c| - 1])
      && Sorted(r) && WithinAge(r, maxAge)
      && (forall i :: 0 <= i < |c| && Distance(c[|c| - 1].stamp, c[i].stamp) <= maxAge ==> c[i] in r)
  {
    if |c| > 0 {
      var latest := c[|c| - 1].stamp;
      var k := FirstWithin(c, latest, maxAge, 0);
      assert k < |c|;
      var r := c[k..];
      SortedSlice(c, k, |c|);
      forall i | 0 <= i < |r| ensures Distance(r[|r| - 1].stamp, r[i].stamp) <= maxAge {
        assert r[i] == c[k + i];
        assert i > 0 ==> StampNs(c[k]) < StampNs(c[k + i]);
      }
      forall i | 0 <= i < |c| && Distance(latest, c[i].stamp) <= maxAge ensures c[i] in r {
        assert r[i - k] == c[i];
      }
    }
  }

  /** A history that is empty, or whose newest sample is at most `maxAge`
      newer than the new one, accepts it; otherwise `insert` refuses it and
      leaves the history as it was. */
  lemma InsertRejectsOnlyStale<X>(c: seq<Stamped<X>>, maxAge: nat, data: Stamped<X>)
    ensures !Insert(c, maxAge, data).0 <==> |c| > 0 && StampNs(c[|c| - 1]) - StampNs(data) > maxAge
    ensures !Insert(c, maxAge, data).0 ==> Insert(c, maxAge, data).1 == c
  {
  }

  /** `insert` into an empty history yields exactly the new sample. */
  lemma InsertIntoEmpty<X>(maxAge: nat, data: Stamped<X>)
    ensures Insert([], maxAge, data) == (true, [data])
  {
    assert SpliceRange([], data) == (0, 0);
    assert Consolidated([], data) == [data];
    assert FirstWithin([data], data.stamp, maxAge, 0) == 0;
  }

  /** After an accepted consolidation the new sample is at most `maxAge`
      older than the newest sample: either it is the newest itself, or the
      newest is the old newest, which it was checked against. */
  lemma ConsolidatedNewestNear<X>(c: seq<Stamped<X>>, maxAge: nat, data: Stamped<X>)
    requires Sorted(c)
    requires |c| == 0 || Distance(c[|c| - 1].stamp, data.stamp) <= maxAge
    ensures var m := Consolidated(c, data);
      |m| > 0 && Distance(m[|m| - 1].stamp, data.stamp) <= maxAge
  {
    var (s, e) := SpliceRange(c, data);
    ConsolidatedFacts(c, data);
    var m := Consolidated(c, data);
    if e < |c| {
      assert m[|m| - 1] == c[|c| - 1];
    } else {
      assert m[|m| - 1] == data;
    }
  }

  /** In a sorted history a sample is the only one with its stamp. */
  lemma SortedStampUnique<X>(r: seq<Stamped<X>>, data: Stamped<X>)
    requires Sorted(r) && data in r
    ensures forall x :: x in r && StampNs(x) == StampNs(data) ==> x == data
  {
    forall x | x in r && StampNs(x) == StampNs(data) ensures x == data {
      var i :| 0 <= i < |r| && r[i] == x;
      var j :| 0 <= j < |r| && r[j] == data;
      assert i == j;
    }
  }

  /** An accepted sample survives eviction. */
  lemma AcceptedSampleKept<X>(c: seq<Stamped<X>>, maxAge: nat, data: Stamped<X>)
    requires Sorted(c)
    requires |c| == 0 || Distance(c[|c| - 1].stamp, data.stamp) <= maxAge
    ensures Sorted(Evict(Consolidated(c, data), maxAge))
    ensures data in Evict(Consolidated(c, data), maxAge)
  {
    var m := Consolidated(c, data);
    ConsolidatedSorted(c, data);
    ConsolidatedNewestNear(c, maxAge, data);
    EvictFacts(m, maxAge);
    var p :| 0 <= p < |m| && m[p] == data;
    assert Distance(m[|m| - 1].stamp, m[p].stamp) <= maxAge;
  }

  /** Every insertion keeps the history's invariant: stamps strictly
      increase and every sample is within `maxAge` of the newest; the
      history grows by at most one sample. */
  lemma InsertKeepsValid<X>(c: seq<Stamped<X>>, maxAge: nat, data: Stamped<X>)
    requires Valid(c, maxAge)
    ensures var r := Insert(c, maxAge, data).1;
      Valid(r, maxAge) && |r| <= |c| + 1
  {
    if !(|c| != 0 && Distance(c[|c| - 1].stamp, data.stamp) > maxAge) {
      var m := Consolidated(c, data);
      ConsolidatedSorted(c, data);
      EvictFacts(m, maxAge);
    }
  }

  /** An accepted insertion keeps the new sample, and no other sample with
      its stamp: a sample with an equal stamp is replaced, not duplicated. */
  lemma InsertReplacesSameStamp<X>(c: seq<Stamped<X>>, maxAge: nat, data: Stamped<X>)
    requires Sorted(c)
    requires Insert(c, maxAge, data).0
    ensures data in Insert(c, maxAge, data).1
    ensures forall x :: x in Insert(c, maxAge, data).1 && StampNs(x) == StampNs(data) ==> x == data
  {
    AcceptedSampleKept(c, maxAge, data);
    SortedStampUnique(Insert(c, maxAge, data).1, data);
  }

  /** The samples consolidation overwrites are the same-stamp sample and
      repeated neighbours; all others keep their place around the new one. */
  lemma ConsolidatedDrops<X>(c: seq<Stamped<X>>, data: Stamped<X>)
    ensures var (s, e) := SpliceRange(c, data);
      && Consolidated(c, data) == c[..s] + [data] + c[e..]
      && (forall k :: s <= k < e ==> StampNs(c[k]) == StampNs(data) || Repeated(c, k, data))
  {
  }

  /** Eviction only removes samples more than `maxAge` older than the
      newest, which it keeps. */
  lemma EvictDrops<X>(m: seq<Stamped<X>>, maxAge: nat)
    requires |m| > 0
    ensures var r := Evict(m, maxAge);
      && |r| > 0 && r[|r| - 1] == m[|m| - 1]
      && (forall x :: x in r ==> x in m)
      && (forall i :: 0 <= i < |m| && m[i] !in r ==> Distance(m[|m| - 1].stamp, m[i].stamp) > maxAge)
  {
    var k0 := FirstWithin(m, m[|m| - 1].stamp, maxAge, 0);
    var r := m[k0..];
    forall i | k0 <= i < |m| ensures m[i] in r {
      assert r[i - k0] == m[i];
    }
  }

  /** The pieces of `InsertOnlyDrops`, on a consolidated history `m` and its
      evicted suffix `r`. */
  lemma OnlyDropsAround<X>(c: seq<Stamped<X>>, data: Stamped<X>, maxAge: nat, s: int, e: int,
                           m: seq<Stamped<X>>, r: seq<Stamped<X>>)
    requires 0 <= s <= e <= |c| && m == c[..s] + [data] + c[e..]
    requires forall k :: s <= k < e ==> StampNs(c[k]) == StampNs(data) || Repeated(c, k, data)
    requires |r| > 0 && r[|r| - 1] == m[|m| - 1]
    requires forall x :: x in r ==> x in m
    requires forall i :: 0 <= i < |m| && m[i] !in r ==> Distance(m[|m| - 1].stamp, m[i].stamp) > maxAge
    ensures forall x :: x in r ==> x == data || x in c
    ensures forall k :: 0 <= k < |c| && c[k] !in r ==>
      StampNs(c[k]) == StampNs(data) || Repeated(c, k, data) || Distance(r[|r| - 1].stamp, c[k].stamp) > maxAge
  {
    forall x | x in r ensures x == data || x in c {
      var i :| 0 <= i < |m| && m[i] == x;
      if i < s { assert x == c[i]; }
      else if i > s { assert x == c[e + i - s - 1]; }
    }
    forall k | 0 <= k < |c| && c[k] !in r && !(StampNs(c[k]) == StampNs(data) || Repeated(c, k, data))
      ensures Distance(r[|r| - 1].stamp, c[k].stamp) > maxAge
    {
      var i := if k < s then k else k - e + s + 1;
      assert m[i] == c[k];
    }
  }

  /** Nothing but the new sample enters the history, and an old sample
      leaves it only if it had the new sample's stamp, repeated its parent
      frame and transform as a neighbour of the new sample, or aged out. */
  lemma InsertOnlyDrops<X>(c: seq<Stamped<X>>, maxAge: nat, data: Stamped<X>)
    requires Insert(c, maxAge, data).0
    ensures var r := Insert(c, maxAge, data).1;
      && (forall x :: x in r ==> x == data || x in c)
      && (forall k :: 0 <= k < |c| && c[k] !in r ==>
            StampNs(c[k]) == StampNs(data) || Repeated(c, k, data)
            || Distance(r[|r| - 1].stamp, c[k].stamp) > maxAge)
  {
    var m := Consolidated(c, data);
    var (s, e) := SpliceRange(c, data);
    ConsolidatedDrops(c, data);
    EvictDrops(m, maxAge);
    OnlyDropsAround(c, data, maxAge, s, e, m, Evict(m, maxAge));
  }

  /** `insert` removes what it overwrites: after an accepted insertion the
      old same-stamp sample and a repeated nearest neighbour are no longer
      in the history, unless they equal the new sample. */
  lemma InsertConsolidates<X>(c: seq<Stamped<X>>, maxAge: nat, data: Stamped<X>, k: int)
    requires Sorted(c) && 0 <= k < |c| && Overwritten(c, k, data)
    requires Insert(c, maxAge, data).0
    ensures c[k] in Insert(c, maxAge, data).1 ==> c[k] == data
  {
    var m := Consolidated(c, data);
    ConsolidatedRemoves(c, data, k);
    if |m| > 0 {
      EvictDrops(m, maxAge);
    }
  }

  /** `InsertConsolidates` for every old sample at once. */
  lemma InsertConsolidatesAll<X>(c: seq<Stamped<X>>, maxAge: nat, data: Stamped<X>)
    requires Sorted(c) && Insert(c, maxAge, data).0
    ensures forall k :: 0 <= k < |c| && Overwritten(c, k, data) ==>
      (c[k] in Insert(c, maxAge, data).1 ==> c[k] == data)
  {
    forall k | 0 <= k < |c| && Overwritten(c, k, data)
      ensures c[k] in Insert(c, maxAge, data).1 ==> c[k] == data
    {
      InsertConsolidates(c, maxAge, data, k);
    }
  }
}
