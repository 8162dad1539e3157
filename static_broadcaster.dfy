/** The queue of a static transform broadcaster: static transforms are
    latched, so the broadcaster keeps one transform per child frame and
    republishes the whole queue on every `sendTransform`. */
module StaticBroadcast {
  import opened TfTypes

  /** The argument of `sendTransform`: one transform or an array of them. */
  datatype Arg<X> = One(tf: Stamped<X>) | Many(tfs: seq<Stamped<X>>)

  /** A single transform is treated as a one-element array. */
  function AsList<X>(arg: Arg<X>): (tfs: seq<Stamped<X>>)
    ensures arg.One? ==> tfs == [arg.tf]
    ensures arg.Many? ==> tfs == arg.tfs
  {
    match arg
    case One(tf) => [tf]
    case Many(tfs) => tfs
  }

  /** `findIndex` by child frame id, scanning from `i`: the first index
      whose child frame is `child`, or -1. */
  function FindFrom<X>(q: seq<Stamped<X>>, child: string, i: nat): (r: int)
    requires i <= |q|
    ensures r == -1 <==> forall j :: i <= j < |q| ==> q[j].childFrameId != child
    ensures r != -1 ==> i <= r < |q| && q[r].childFrameId == child
    ensures r != -1 ==> forall j :: i <= j < r ==> q[j].childFrameId != child
    decreases |q| - i
  {
    if i == |q| then -1
    else if q[i].childFrameId == child then i
    else FindFrom(q, child, i + 1)
  }

  function FindIndex<X>(q: seq<Stamped<X>>, child: string): int {
    FindFrom(q, child, 0)
  }

  /** One update of the queue: overwrite the entry for the same child
      frame in place, or append. */
  function Upsert<X>(q: seq<Stamped<X>>, tf: Stamped<X>): seq<Stamped<X>> {
    var ind := FindIndex(q, tf.childFrameId);
    if ind >= 0 then q[ind := tf] else q + [tf]
  }

  /** The queue after the updates of `tfs`, in order. */
  function UpsertAll<X>(q: seq<Stamped<X>>, tfs: seq<Stamped<X>>): seq<Stamped<X>>
    decreases |tfs|
  {
    if tfs == [] then q else Upsert(UpsertAll(q, tfs[..|tfs| - 1]), tfs[|tfs| - 1])
  }

  /** No two entries share a child frame. */
  ghost predicate Unique<X>(q: seq<Stamped<X>>) {
    forall i, j :: 0 <= i < j < |q| ==> q[i].childFrameId != q[j].childFrameId
  }

  function ChildSet<X>(q: seq<Stamped<X>>): set<string> {
    set i | 0 <= i < |q| :: q[i].childFrameId
  }

  /** An update overwrites the entry of the same child frame where it is,
      or appends a new one: the entries before keep their place and their
      child frame, `tf` is in the queue, and no two entries come to share
      a child frame. */
  lemma UpsertFacts<X>(q: seq<Stamped<X>>, tf: Stamped<X>)
    requires Unique(q)
    ensures var r := Upsert(q, tf);
      && Unique(r)
      && tf in r
      && (tf.childFrameId in ChildSet(q) ==> |r| == |q|)
      && (tf.childFrameId !in ChildSet(q) ==> r == q + [tf])
      && (forall i :: 0 <= i < |q| ==> r[i].childFrameId == q[i].childFrameId)
      && (forall i :: 0 <= i < |q| && q[i].childFrameId != tf.childFrameId ==> r[i] == q[i])
      && (forall i :: 0 <= i < |q| && q[i].childFrameId == tf.childFrameId ==> r[i] == tf)
      && ChildSet(r) == ChildSet(q) + {tf.childFrameId}
  {
    var r := Upsert(q, tf);
    var ind := FindIndex(q, tf.childFrameId);
    if ind >= 0 {
      assert r[ind] == tf;
      forall i | 0 <= i < |r| ensures r[i].childFrameId == q[i].childFrameId { }
      assert ChildSet(r) == ChildSet(q);
    } else {
      assert r == q + [tf];
      assert r[|q|] == tf;
      assert forall i :: 0 <= i < |q| ==> r[i] == q[i];
      assert ChildSet(r) == ChildSet(q) + {tf.childFrameId} by {
        forall c | c in ChildSet(r) ensures c in ChildSet(q) + {tf.childFrameId} {
          var i :| 0 <= i < |r| && r[i].childFrameId == c;
          if i < |q| { assert q[i].childFrameId == c; }
        }
      }
    }
  }

  /** A whole call: starting from a queue without duplicates, no two
      entries share a child frame afterwards, even when the call itself
      repeats one; existing entries keep their place; the child frames
      are those before and those sent. */
  lemma {:induction false} UpsertAllFacts<X>(q: seq<Stamped<X>>, tfs: seq<Stamped<X>>)
    requires Unique(q)
    ensures var r := UpsertAll(q, tfs);
      && Unique(r)
      && |r| >= |q|
      && (forall i :: 0 <= i < |q| ==> r[i].childFrameId == q[i].childFrameId)
      && ChildSet(r) == ChildSet(q) + ChildSet(tfs)
    decreases |tfs|
  {
    if tfs != [] {
      var init := tfs[..|tfs| - 1];
      var last := tfs[|tfs| - 1];
      UpsertAllFacts(q, init);
      UpsertFacts(UpsertAll(q, init), last);
      assert ChildSet(tfs) == ChildSet(init) + {last.childFrameId} by {
        assert forall i :: 0 <= i < |init| ==> init[i] == tfs[i];
      }
    }
  }

  /** The later of two transforms for the same child frame wins: a sent
      transform that no later one in the call overrides is in the queue. */
  lemma {:induction false} UpsertAllLastWins<X>(q: seq<Stamped<X>>, tfs: seq<Stamped<X>>, k: int)
    requires Unique(q) && 0 <= k < |tfs|
    requires forall j :: k < j < |tfs| ==> tfs[j].childFrameId != tfs[k].childFrameId
    ensures tfs[k] in UpsertAll(q, tfs)
    decreases |tfs|
  {
    var init := tfs[..|tfs| - 1];
    var last := tfs[|tfs| - 1];
    var prev := UpsertAll(q, init);
    UpsertAllFacts(q, init);
    UpsertFacts(prev, last);
    if k < |tfs| - 1 {
      UpsertAllLastWins(q, init, k);
      var i :| 0 <= i < |prev| && prev[i] == tfs[k];
      assert UpsertAll(q, tfs)[i] == prev[i];
    }
  }

  /** Without duplicates, the number of entries is the number of child
      frames. */
  lemma {:induction false} UniqueCount<X>(q: seq<Stamped<X>>)
    requires Unique(q)
    ensures |ChildSet(q)| == |q|
    decreases |q|
  {
    if q != [] {
      var init := q[..|q| - 1];
      UniqueCount(init);
      assert ChildSet(q) == ChildSet(init) + {q[|q| - 1].childFrameId};
      assert q[|q| - 1].childFrameId !in ChildSet(init);
    }
  }

  /** A call grows the queue by the number of child frames it sends that
      were not queued yet. */
  lemma SendGrowth<X>(q: seq<Stamped<X>>, tfs: seq<Stamped<X>>)
    requires Unique(q)
    ensures |UpsertAll(q, tfs)| == |q| + |ChildSet(tfs) - ChildSet(q)|
  {
    var r := UpsertAll(q, tfs);
    UpsertAllFacts(q, tfs);
    UniqueCount(q);
    UniqueCount(r);
    assert ChildSet(r) == ChildSet(q) + (ChildSet(tfs) - ChildSet(q));
  }

  class StaticTransformBroadcaster<X> {
    /** `_netMessage.transforms`. */
    var transforms: seq<Stamped<X>>
    /** The queue as each `_publish` sent it, oldest first. */
    var published: seq<seq<Stamped<X>>>

    constructor ()
      ensures transforms == [] && published == []
    {
      transforms := [];
      published := [];
    }

    /** `sendTransform`: update the queue with each transform in order,
        then publish it once. */
    method SendTransform(arg: Arg<X>)
      modifies this
      ensures transforms == UpsertAll(old(transforms), AsList(arg))
      ensures published == old(published) + [transforms]
      ensures old(Unique(transforms)) ==> Unique(transforms)
    {
      ghost var q0 := transforms;
      var tfs := AsList(arg);
      for i := 0 to |tfs|
        invariant transforms == UpsertAll(old(transforms), tfs[..i])
        invariant published == old(published)
      {
        var newTf := tfs[i];
        var ind := FindIndex(transforms, newTf.childFrameId);
        if ind >= 0 {
          transforms := transforms[ind := newTf];
        } else {
          transforms := transforms + [newTf];
        }
        assert tfs[..i + 1][..i] == tfs[..i];
      }
      assert tfs[..|tfs|] == tfs;
      if Unique(q0) {
        UpsertAllFacts(q0, tfs);
      }
      Publish();
    }

    /** `_publish`: the message goes out as it stands. */
    method Publish()
      modifies this
      ensures transforms == old(transforms)
      ensures published == old(published) + [transforms]
    {
      published := published + [transforms];
    }
  }
}
