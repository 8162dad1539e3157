/** `TfChain`: the links between two frames and the transform they compose
    to.  The frames it links are read from a snapshot of the tree's arena
    taken when the chain is built. */
module TfChains {
  import opened TimeUtils
  import opened TfTypes
  import opened FrameGraph
  import opened ChainSpec

  class TfChain<X> {
    const frames: map<string, Frame<X>>
    const fromId: string
    const toId: string
    var links: seq<string>
    var inverted: seq<bool>
    var valid: bool

    /** One tag per link, and every link is a frame of the arena. */
    ghost predicate Valid()
      reads this
    {
      |links| == |inverted| && forall i :: 0 <= i < |links| ==> links[i] in frames
    }

    constructor (frames: map<string, Frame<X>>, fromId: string, toId: string)
      requires Acyclic(frames) && fromId in frames && toId in frames
      ensures this.frames == frames && this.fromId == fromId && this.toId == toId
      ensures Links(links, inverted, valid) == ChainOf(frames, fromId, toId)
      ensures Valid()
    {
      this.frames := frames;
      this.fromId := fromId;
      this.toId := toId;
      links := [];
      inverted := [];
      valid := false;
      new;
      Construct();
      ChainValid(frames, fromId, toId);
    }

    /** The walk from `id` up to its root, built by prepending each frame. */
    method WalkToRoot(id: string) returns (chain: seq<string>)
      requires Acyclic(frames) && id in frames
      ensures chain == Path(frames, id)
    {
      var fs := frames;
      ghost var rank :| Ranked(fs, rank);
      PathIs(fs, rank, id);
      chain := [];
      var link: Option<string> := Some(id);
      while link.Some?
        invariant link.Some? ==> link.value in fs && PathFrom(fs, rank, id) == PathFrom(fs, rank, link.value) + chain
        invariant link.None? ==> PathFrom(fs, rank, id) == chain
        decreases if link.Some? then rank[link.value] + 1 else 0
      {
        chain := [link.value] + chain;
        var parent := fs[link.value].parent;
        link := if parent.Some? && parent.value in fs then parent else None;
      }
    }

    /** `_construct`. */
    method Construct()
      requires Acyclic(frames) && fromId in frames && toId in frames
      requires links == [] && inverted == []
      modifies this
      ensures Links(links, inverted, valid) == ChainOf(frames, fromId, toId)
    {
      if fromId == toId {
        // the same frame: nothing to link
        valid := true;
        return;
      }
      var toChain := WalkToRoot(toId);
      var fromChain := WalkToRoot(fromId);
      if fromChain[0] != toChain[0] {
        // no common root
        valid := false;
        return;
      }
      // drop the common ancestors
      var i := CommonLength(toChain, fromChain);
      LinkBelow(fromChain[i..], toChain[i..]);
      valid := true;
    }

    /** How many frames the two walks share from the root down. */
    method CommonLength(toChain: seq<string>, fromChain: seq<string>) returns (i: nat)
      ensures i == CommonPrefix(toChain, fromChain)
    {
      var max := if |toChain| < |fromChain| then |toChain| else |fromChain|;
      i := 0;
      while i < max
        invariant 0 <= i <= max
        invariant CommonFrom(toChain, fromChain, i) == CommonPrefix(toChain, fromChain)
      {
        if toChain[i] == fromChain[i] {
          i := i + 1;
        } else {
          break;
        }
      }
    }

    /** Prepend the `from` side as inverted links, then append the `to`
        side as forward links. */
    method LinkBelow(fromChain: seq<string>, toChain: seq<string>)
      requires links == [] && inverted == []
      modifies this
      ensures links == Reverse(fromChain) + toChain
      ensures inverted == Repeat(true, |fromChain|) + Repeat(false, |toChain|)
      ensures valid == old(valid)
    {
      for j := 0 to |fromChain|
        invariant links == Reverse(fromChain[..j]) && inverted == Repeat(true, j)
        invariant valid == old(valid)
      {
        assert fromChain[..j + 1][..j] == fromChain[..j];
        links := [fromChain[j]] + links;
        inverted := [true] + inverted;
      }
      assert fromChain[..|fromChain|] == fromChain;
      for j := 0 to |toChain|
        invariant links == Reverse(fromChain) + toChain[..j]
        invariant inverted == Repeat(true, |fromChain|) + Repeat(false, j)
        invariant valid == old(valid)
      {
        assert toChain[..j + 1] == toChain[..j] + [toChain[j]];
        links := links + [toChain[j]];
        inverted := inverted + [false];
      }
      assert toChain[..|toChain|] == toChain;
    }

    /** `getTransform`: multiply the link transforms from the identity on,
        inverting those of inverted links; null as soon as a link has no
        transform; a link's exception propagates. */
    method GetTransform(stamp: Time, alg: Algebra<X>) returns (r: Result<Option<X>>)
      requires Valid()
      ensures r == Fold(frames, links, inverted, stamp, alg, |links|)
      ensures links == [] ==> r == Ok(Some(alg.identity))
      ensures (r.Ok? && r.value.Some?) <==> forall i :: 0 <= i < |links| ==> Present(frames, links, i, stamp, alg)
    {
      var ls, inv := links, inverted;
      var t := alg.identity;
      for i := 0 to |ls|
        invariant Fold(frames, ls, inv, stamp, alg, i) == Ok(Some(t))
      {
        var transform := LinkTransform(frames[ls[i]], stamp, alg);
        match transform {
          case Ok(Some(x)) =>
            t := alg.times(t, if inv[i] then alg.inverse(x) else x);
          case _ =>
            FoldStays(frames, ls, inv, stamp, alg, i + 1, |ls|);
            FoldFirstMiss(frames, ls, inv, stamp, alg, |ls|);
            return transform;
        }
      }
      FoldFirstMiss(frames, ls, inv, stamp, alg, |ls|);
      return Ok(Some(t));
    }
  }
}
