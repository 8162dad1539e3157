/** `TFTree`: the frames of the transform tree, keyed by id, with their
    parent and child links, the frames waiting for a parent that does not
    exist yet, and lookups of the transform between two frames. */
module Tree {
  import opened TimeUtils
  import opened TfTypes
  import opened FrameGraph
  import opened ChainSpec
  import opened TfChains

  class TFTree<X(==)> {
    /** `_frames`. */
    var frames: map<string, Frame<X>>
    /** `_waitingForParents`. */
    var waiting: map<string, seq<string>>
    /** `_maxAgeS`, in nanoseconds: the retention of every dynamic frame. */
    const maxAge: nat

    ghost function State(): Graph<X>
      reads this
    {
      Graph(frames, waiting)
    }

    /** A new tree holds only the static root `base`. */
    constructor (maxAge: nat := DefaultMaxAge)
      ensures State() == InitialGraph() && this.maxAge == maxAge
      ensures Linked(State())
    {
      this.maxAge := maxAge;
      frames := map["base" := NewFrame("base", true)];
      waiting := map[];
    }

    /** `destroy`: forget every frame, `base` included, and every queue. */
    method Destroy()
      modifies this
      ensures frames == map[] && waiting == map[]
      ensures Linked(State())
    {
      frames := map[];
      waiting := map[];
    }

    /** `handleTFMessage`: for each transform in order, create its child
        frame if needed, link it under its parent or queue it to wait for
        the parent, hook up the frames waiting for it, and add the sample. */
    method HandleTFMessage(transforms: seq<Stamped<X>>, isStatic: bool := false)
      modifies this
      ensures State() == Apply(old(State()), transforms, isStatic, maxAge)
      ensures frames.Keys == old(frames.Keys) + ChildIds(transforms)
      ensures old(Linked(State())) ==> Linked(State())
    {
      ghost var g0 := State();
      for i := 0 to |transforms|
        invariant State() == Apply(g0, transforms[..i], isStatic, maxAge)
      {
        HandleEntry(transforms[i], isStatic);
        assert transforms[..i + 1][..i] == transforms[..i];
      }
      assert transforms[..|transforms|] == transforms;
      ApplyKeys(g0, transforms, isStatic, maxAge);
      if Linked(g0) {
        ApplyLinked(g0, transforms, isStatic, maxAge);
      }
    }

    /** The body of the loop of `handleTFMessage`, for one transform. */
    method HandleEntry(tf: Stamped<X>, isStatic: bool)
      modifies this
      ensures State() == Step(old(State()), tf, isStatic, maxAge)
    {
      var frameId := CleanId(tf.childFrameId);
      var parentId := CleanId(tf.frameId);
      if frameId !in frames {
        frames := frames[frameId := NewFrame(frameId, isStatic)];
      }
      LinkParent(frameId, parentId);
      AdoptWaiting(frameId);
      frames := AddSample(frames, frameId, tf, maxAge);
    }

    /** Set the parent and child links of one entry's frame. */
    method LinkParent(frameId: string, parentId: string)
      requires frameId in frames
      modifies this
      ensures State() == Relink(old(State()), frameId, parentId)
    {
      var frame := frames[frameId];
      if parentId in frames {
        if frame.parent.Some? && frame.parent.value != parentId {
          // move it from its former parent
          frames := RemoveChild(frames, frame.parent.value, frameId);
          frames := AddChild(frames, parentId, frameId);
          frames := SetParent(frames, frameId, Some(parentId));
        } else if frame.parent.None? {
          frames := AddChild(frames, parentId, frameId);
          frames := SetParent(frames, frameId, Some(parentId));
        }
      } else {
        // the parent does not exist yet: wait for it
        frames := SetParent(frames, frameId, None);
        var queue := if parentId in waiting then waiting[parentId] else [];
        waiting := waiting[parentId := queue + [frameId]];
      }
    }

    /** Hook up the frames waiting for `frameId` and drop their queue. */
    method AdoptWaiting(frameId: string)
      modifies this
      ensures State() == Adopt(old(State()), frameId)
    {
      if frameId in waiting {
        var waitingForThis := waiting[frameId];
        ghost var f0 := frames;
        ghost var w0 := waiting;
        var j := 0;
        while j < |waitingForThis|
          invariant 0 <= j <= |waitingForThis|
          invariant frames == LinkWaiting(f0, frameId, waitingForThis[..j]) && waiting == w0
        {
          var child := waitingForThis[j];
          frames := SetParent(frames, child, Some(frameId));
          frames := AddChild(frames, frameId, child);
          assert waitingForThis[..j + 1][..j] == waitingForThis[..j];
          j := j + 1;
        }
        assert waitingForThis[..j] == waitingForThis;
        waiting := waiting - {frameId};
      }
    }

    /** `_getFrame`: the frame under the cleaned id, `undefined` (None)
        when there is none. */
    function GetFrame(frameId: string): (r: Option<Frame<X>>)
      reads this
      ensures r.Some? <==> CleanId(frameId) in frames
      ensures r.Some? ==> r.value == frames[CleanId(frameId)]
    {
      var id := CleanId(frameId);
      if id in frames then Some(frames[id]) else None
    }

    /** `hasFrame`. */
    function HasFrame(frameId: string): (b: bool)
      reads this
      ensures b <==> GetFrame(frameId).Some?
    {
      CleanId(frameId) in frames
    }

    /** `getFrameIds`, as a set. */
    function GetFrameIds(): (ids: set<string>)
      reads this
      ensures forall id :: id in ids <==> HasFrame("/" + id)
    {
      frames.Keys
    }

    /** `_getChain`: the chain between the two frames, or null when either
        is missing or they share no root. */
    method GetChain(fromId: string, toId: string) returns (chain: Option<TfChain<X>>)
      requires Acyclic(frames)
      ensures chain.Some? <==>
        CleanId(fromId) in frames && CleanId(toId) in frames && ChainOf(frames, CleanId(fromId), CleanId(toId)).valid
      ensures chain.Some? ==>
        fresh(chain.value) && chain.value.frames == frames && chain.value.Valid()
        && Links(chain.value.links, chain.value.inverted, chain.value.valid) == ChainOf(frames, CleanId(fromId), CleanId(toId))
    {
      var from := GetFrame(fromId);
      var to := GetFrame(toId);
      if from.Some? && to.Some? {
        var c := new TfChain(frames, CleanId(fromId), CleanId(toId));
        if c.valid {
          return Some(c);
        }
      }
      return None;
    }

    /** `_getTransform` and `lookupTransform`: the chain's transform, or
        null when there is no chain. */
    method LookupTransform(targetFrame: string, sourceFrame: string, stamp: Time, alg: Algebra<X>)
      returns (r: Result<Option<X>>)
      requires Acyclic(frames)
      ensures r == Lookup(frames, targetFrame, sourceFrame, stamp, alg)
    {
      var chain := GetChain(targetFrame, sourceFrame);
      if chain.Some? {
        r := chain.value.GetTransform(stamp, alg);
      } else {
        r := Ok(None);
      }
    }

    /** `canTransform`: whether the lookup gives a transform; its
        exceptions are not caught. */
    method CanTransform(targetFrame: string, sourceFrame: string, stamp: Time, alg: Algebra<X>)
      returns (r: Result<bool>)
      requires Acyclic(frames)
      ensures r == CanTransformOf(frames, targetFrame, sourceFrame, stamp, alg)
      ensures r == Ok(true) <==> exists t :: Lookup(frames, targetFrame, sourceFrame, stamp, alg) == Ok(Some(t))
    {
      var t := LookupTransform(targetFrame, sourceFrame, stamp, alg);
      match t {
        case Err(e) => r := Err(e);
        case Ok(o) => r := Ok(o.Some?);
      }
      CanTransformIff(frames, targetFrame, sourceFrame, stamp, alg);
    }
  }
}
