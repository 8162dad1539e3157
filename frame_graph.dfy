/** The frame graph of `TFTree` as values: frames live in an arena keyed by
    their (cleaned) id, a frame's parent is an id, and orphans wait in a
    second map under the id of the parent they are waiting for.  `Step` is
    what `handleTFMessage` does with one transform of a message. */
module FrameGraph {
  import opened TimeUtils
  import opened TfTypes
  import CacheSpec

  /** A static frame holds at most one transform (the root `base` holds
      none); a dynamic frame holds a transform history. */
  datatype Storage<X> = Static(tf: Option<X>) | Dynamic(history: seq<Stamped<X>>)

  datatype Frame<X> = Frame(id: string, parent: Option<string>, children: set<string>, storage: Storage<X>)

  /** `_frames` and `_waitingForParents`. */
  datatype Graph<X> = Graph(frames: map<string, Frame<X>>, waiting: map<string, seq<string>>)

  /** The default retention of `new TFTree()`: ten seconds. */
  const DefaultMaxAge: nat := 10 * NanosPerSec

  /** `cleanId`: drop one leading '/'. */
  function CleanId(id: string): (r: string)
    ensures r == id || id == "/" + r
    ensures |r| >= |id| - 1
  {
    if |id| > 0 && id[0] == '/' then id[1..] else id
  }

  lemma CleanIdStripsOne(s: string)
    ensures CleanId("/" + s) == s
    ensures |s| == 0 || s[0] != '/' ==> CleanId(s) == s
    ensures CleanId("//" + s) == "/" + s
  {
    assert ("/" + s)[1..] == s;
    assert ("//" + s)[1..] == "/" + s;
  }

  function NewFrame<X>(id: string, isStatic: bool): Frame<X> {
    Frame(id, None, {}, if isStatic then Static(None) else Dynamic([]))
  }

  /** The tree `new TFTree()` builds: the static root `base` and no
      orphans. */
  function InitialGraph<X>(): (g: Graph<X>)
    ensures g.frames.Keys == {"base"} && g.waiting == map[]
    ensures g.frames["base"] == Frame("base", None, {}, Static(None))
    ensures Linked(g)
  {
    Graph(map["base" := NewFrame("base", true)], map[])
  }

  // Field updates on one frame of the arena; a missing id changes nothing.

  function SetParent<X>(frames: map<string, Frame<X>>, id: string, p: Option<string>): map<string, Frame<X>> {
    if id in frames then frames[id := frames[id].(parent := p)] else frames
  }

  function AddChild<X>(frames: map<string, Frame<X>>, id: string, c: string): map<string, Frame<X>> {
    if id in frames then frames[id := frames[id].(children := frames[id].children + {c})] else frames
  }

  function RemoveChild<X>(frames: map<string, Frame<X>>, id: string, c: string): map<string, Frame<X>> {
    if id in frames then frames[id := frames[id].(children := frames[id].children - {c})] else frames
  }

  /** Create the child frame when it does not exist yet; an existing frame
      is kept as it is. */
  function EnsureFrame<X>(g: Graph<X>, id: string, isStatic: bool): (r: Graph<X>)
    ensures id in r.frames && r.waiting == g.waiting
    ensures r.frames.Keys == g.frames.Keys + {id}
    ensures forall k :: k in g.frames ==> r.frames[k] == g.frames[k]
  {
    if id in g.frames then g else g.(frames := g.frames[id := NewFrame(id, isStatic)])
  }

  /** Set the parent link of frame `id`: move it under `pid` when `pid`
      exists, otherwise cut its parent and queue it to wait for `pid`. */
  function Relink<X>(g: Graph<X>, id: string, pid: string): (r: Graph<X>)
    requires id in g.frames
    ensures r.frames.Keys == g.frames.Keys
    ensures forall k :: k in g.frames ==> r.frames[k].id == g.frames[k].id && r.frames[k].storage == g.frames[k].storage
  {
    var frame := g.frames[id];
    if pid in g.frames then
      if frame.parent.Some? && frame.parent.value != pid then
        var f1 := RemoveChild(g.frames, frame.parent.value, id);
        g.(frames := SetParent(AddChild(f1, pid, id), id, Some(pid)))
      else if frame.parent.None? then
        g.(frames := SetParent(AddChild(g.frames, pid, id), id, Some(pid)))
      else
        g
    else
      var queue := if pid in g.waiting then g.waiting[pid] else [];
      Graph(SetParent(g.frames, id, None), g.waiting[pid := queue + [id]])
  }

  /** Hook frame `c` under `pid`: set its parent, then add it to the
      children of `pid`. */
  function LinkOne<X>(frames: map<string, Frame<X>>, pid: string, c: string): (r: map<string, Frame<X>>)
    ensures r.Keys == frames.Keys
    ensures forall k :: k in frames ==> r[k].id == frames[k].id && r[k].storage == frames[k].storage
    ensures forall k :: k in frames && k != c ==> r[k].parent == frames[k].parent
    ensures forall k :: k in frames && k != pid ==> r[k].children == frames[k].children
    ensures pid in frames ==> r[pid].children == frames[pid].children + {c}
    ensures c in frames ==> r[c].parent == Some(pid)
  {
    AddChild(SetParent(frames, c, Some(pid)), pid, c)
  }

  /** Hook each frame of `kids`, in order, under `pid`. */
  function LinkWaiting<X>(frames: map<string, Frame<X>>, pid: string, kids: seq<string>): (r: map<string, Frame<X>>)
    ensures r.Keys == frames.Keys
    ensures forall k :: k in frames ==> r[k].id == frames[k].id && r[k].storage == frames[k].storage
    ensures forall k :: k in frames && k !in kids ==> r[k].parent == frames[k].parent
    ensures forall k :: k in frames && k != pid ==> r[k].children == frames[k].children
    ensures pid in frames ==> forall c :: c in kids ==> c in r[pid].children
    ensures pid in frames ==> frames[pid].children <= r[pid].children
    ensures pid in frames ==> forall c :: c in r[pid].children ==> c in frames[pid].children || c in kids
    ensures forall c :: c in kids && c in frames ==> r[c].parent == Some(pid)
    decreases |kids|
  {
    if kids == [] then frames
    else
      var init := kids[..|kids| - 1];
      var f := LinkWaiting(frames, pid, init);
      var c := kids[|kids| - 1];
      assert forall x :: x in kids <==> x in init || x == c;
      LinkOne(f, pid, c)
  }

  /** Hook up every frame that was waiting for `id`, then forget the
      queue. */
  function Adopt<X>(g: Graph<X>, id: string): (r: Graph<X>)
    ensures r.frames.Keys == g.frames.Keys && r.waiting == g.waiting - {id}
    ensures forall k :: k in g.frames ==> r.frames[k].id == g.frames[k].id && r.frames[k].storage == g.frames[k].storage
  {
    if id in g.waiting then Graph(LinkWaiting(g.frames, id, g.waiting[id]), g.waiting - {id}) else g
  }

  /** `addTransform` of a static frame (keep the transform) or of a dynamic
      one (insert into its history). */
  function AddTo<X(==)>(s: Storage<X>, tf: Stamped<X>, maxAge: nat): Storage<X> {
    match s
    case Static(_) => Static(Some(tf.transform))
    case Dynamic(h) => Dynamic(CacheSpec.Insert(h, maxAge, tf).1)
  }

  function AddSample<X(==)>(frames: map<string, Frame<X>>, id: string, tf: Stamped<X>, maxAge: nat): (r: map<string, Frame<X>>)
    ensures r.Keys == frames.Keys
    ensures forall k :: k in frames ==> r[k].id == frames[k].id && r[k].parent == frames[k].parent && r[k].children == frames[k].children
    ensures forall k :: k in frames && k != id ==> r[k].storage == frames[k].storage
    ensures id in frames ==> r[id].storage == AddTo(frames[id].storage, tf, maxAge)
  {
    if id in frames then frames[id := frames[id].(storage := AddTo(frames[id].storage, tf, maxAge))] else frames
  }

  /** One iteration of `handleTFMessage`. */
  function Step<X(==)>(g: Graph<X>, tf: Stamped<X>, isStatic: bool, maxAge: nat): Graph<X> {
    var id := CleanId(tf.childFrameId);
    var pid := CleanId(tf.frameId);
    var g1 := EnsureFrame(g, id, isStatic);
    var g2 := Relink(g1, id, pid);
    var g3 := Adopt(g2, id);
    g3.(frames := AddSample(g3.frames, id, tf, maxAge))
  }

  /** `handleTFMessage`: the transforms of a message, in order. */
  function Apply<X(==)>(g: Graph<X>, tfs: seq<Stamped<X>>, isStatic: bool, maxAge: nat): Graph<X>
    decreases |tfs|
  {
    if tfs == [] then g
    else Step(Apply(g, tfs[..|tfs| - 1], isStatic, maxAge), tfs[|tfs| - 1], isStatic, maxAge)
  }

  /** Every record carries its own key, every parent and child named in
      the arena is a frame of it, and a frame's parent lists it among its
      children.  (The converse fails: a frame cut from its parent stays in
      the former parent's children.) */
  ghost predicate Shape<X>(frames: map<string, Frame<X>>) {
    && (forall k :: k in frames ==> frames[k].id == k)
    && (forall k :: k in frames && frames[k].parent.Some? ==>
          frames[k].parent.value in frames && k in frames[frames[k].parent.value].children)
    && (forall k, c :: k in frames && c in frames[k].children ==> c in frames)
  }

  /** Every queued frame exists, and no queue is kept for a parent that
      exists, except for the ids in `pending`. */
  ghost predicate Queued<X>(g: Graph<X>, pending: set<string>) {
    && (forall p, j :: p in g.waiting && 0 <= j < |g.waiting[p]| ==> g.waiting[p][j] in g.frames)
    && (forall p :: p in g.waiting && p in g.frames ==> p in pending)
  }

  ghost predicate Wf<X>(g: Graph<X>, pending: set<string>) {
    Shape(g.frames) && Queued(g, pending)
  }

  ghost predicate Linked<X>(g: Graph<X>) {
    Wf(g, {})
  }

  lemma ShapeNewFrame<X>(f: map<string, Frame<X>>, id: string, isStatic: bool)
    requires Shape(f) && id !in f
    ensures Shape(f[id := NewFrame(id, isStatic)])
  {
  }

  lemma ShapeDetach<X>(f: map<string, Frame<X>>, id: string)
    requires Shape(f)
    ensures Shape(SetParent(f, id, None))
  {
  }

  lemma ShapeAttach<X>(f: map<string, Frame<X>>, id: string, pid: string)
    requires Shape(f) && id in f && pid in f && f[id].parent.None?
    ensures Shape(SetParent(AddChild(f, pid, id), id, Some(pid)))
  {
  }

  lemma ShapeReparent<X>(f: map<string, Frame<X>>, id: string, pid: string)
    requires Shape(f) && id in f && pid in f && f[id].parent.Some?
    ensures Shape(SetParent(AddChild(RemoveChild(f, f[id].parent.value, id), pid, id), id, Some(pid)))
  {
    var q := f[id].parent.value;
    var f1 := RemoveChild(f, q, id);
    var f2 := AddChild(f1, pid, id);
    var r := SetParent(f2, id, Some(pid));
    ReparentEffect(f, id, pid);
    ShapeFromEffect(f, r, id, pid, q);
  }

  lemma ReparentEffect<X>(f: map<string, Frame<X>>, id: string, pid: string)
    requires id in f && pid in f && f[id].parent.Some?
    ensures var q := f[id].parent.value;
      var r := SetParent(AddChild(RemoveChild(f, q, id), pid, id), id, Some(pid));
      && r.Keys == f.Keys
      && forall k :: k in f ==>
        && r[k].id == f[k].id
        && r[k].parent == (if k == id then Some(pid) else f[k].parent)
        && r[k].children == (f[k].children - if k == q then {id} else {}) + if k == pid then {id} else {}
  {
  }

  lemma ShapeFromEffect<X>(f: map<string, Frame<X>>, r: map<string, Frame<X>>, id: string, pid: string, q: string)
    requires Shape(f) && id in f && pid in f
    requires r.Keys == f.Keys
    requires forall k :: k in f ==>
        && r[k].id == f[k].id
        && r[k].parent == (if k == id then Some(pid) else f[k].parent)
        && r[k].children == (f[k].children - if k == q then {id} else {}) + if k == pid then {id} else {}
    ensures Shape(r)
  {
    forall k | k in r && r[k].parent.Some?
      ensures r[k].parent.value in r && k in r[r[k].parent.value].children
    {
      if k != id {
        var p := f[k].parent.value;
        assert k in f[p].children;
      }
    }
  }

  lemma ShapeLinkOne<X>(f: map<string, Frame<X>>, pid: string, c: string)
    requires Shape(f) && c in f && pid in f
    ensures Shape(LinkOne(f, pid, c))
  {
  }

  lemma {:induction false} ShapeLinkWaiting<X>(f: map<string, Frame<X>>, pid: string, kids: seq<string>)
    requires Shape(f) && pid in f && forall j :: 0 <= j < |kids| ==> kids[j] in f
    ensures Shape(LinkWaiting(f, pid, kids))
    decreases |kids|
  {
    if kids != [] {
      var init := kids[..|kids| - 1];
      ShapeLinkWaiting(f, pid, init);
      ShapeLinkOne(LinkWaiting(f, pid, init), pid, kids[|kids| - 1]);
    }
  }

  lemma ShapeAddSample<X>(f: map<string, Frame<X>>, id: string, tf: Stamped<X>, maxAge: nat)
    requires Shape(f)
    ensures Shape(AddSample(f, id, tf, maxAge))
  {
  }

  lemma EnsureFrameWf<X>(g: Graph<X>, id: string, isStatic: bool)
    requires Linked(g)
    ensures Wf(EnsureFrame(g, id, isStatic), {id})
  {
    if id !in g.frames {
      ShapeNewFrame(g.frames, id, isStatic);
    }
  }

  lemma RelinkWf<X>(g: Graph<X>, id: string, pid: string)
    requires Wf(g, {id}) && id in g.frames
    ensures Wf(Relink(g, id, pid), {id})
  {
    var r := Relink(g, id, pid);
    var frame := g.frames[id];
    assert r.frames.Keys == g.frames.Keys;
    if pid in g.frames {
      if frame.parent.Some? && frame.parent.value != pid {
        ShapeReparent(g.frames, id, pid);
      } else if frame.parent.None? {
        ShapeAttach(g.frames, id, pid);
      }
      assert r.waiting == g.waiting;
    } else {
      ShapeDetach(g.frames, id);
      var queue := if pid in g.waiting then g.waiting[pid] else [];
      forall p, j | p in r.waiting && 0 <= j < |r.waiting[p]|
        ensures r.waiting[p][j] in r.frames
      {
        if p == pid && j == |queue| {
          assert r.waiting[p][j] == id;
        } else if p == pid {
          assert r.waiting[p][j] == queue[j];
        }
      }
    }
  }

  lemma AdoptLinked<X>(g: Graph<X>, id: string)
    requires Wf(g, {id}) && id in g.frames
    ensures Linked(Adopt(g, id))
  {
    if id in g.waiting {
      ShapeLinkWaiting(g.frames, id, g.waiting[id]);
    }
  }

  lemma AddSampleLinked<X>(g: Graph<X>, id: string, tf: Stamped<X>, maxAge: nat)
    requires Linked(g)
    ensures Linked(g.(frames := AddSample(g.frames, id, tf, maxAge)))
  {
    ShapeAddSample(g.frames, id, tf, maxAge);
  }

  /** `handleTFMessage` keeps every link inside the arena and never keeps a
      queue for a frame that exists. */
  lemma {:induction false} StepLinked<X>(g: Graph<X>, tf: Stamped<X>, isStatic: bool, maxAge: nat)
    requires Linked(g)
    ensures Linked(Step(g, tf, isStatic, maxAge))
  {
    var id := CleanId(tf.childFrameId);
    var pid := CleanId(tf.frameId);
    var g1 := EnsureFrame(g, id, isStatic);
    EnsureFrameWf(g, id, isStatic);
    var g2 := Relink(g1, id, pid);
    RelinkWf(g1, id, pid);
    var g3 := Adopt(g2, id);
    AdoptLinked(g2, id);
    AddSampleLinked(g3, id, tf, maxAge);
  }

  lemma {:induction false} ApplyLinked<X>(g: Graph<X>, tfs: seq<Stamped<X>>, isStatic: bool, maxAge: nat)
    requires Linked(g)
    ensures Linked(Apply(g, tfs, isStatic, maxAge))
    decreases |tfs|
  {
    if tfs != [] {
      ApplyLinked(g, tfs[..|tfs| - 1], isStatic, maxAge);
      StepLinked(Apply(g, tfs[..|tfs| - 1], isStatic, maxAge), tfs[|tfs| - 1], isStatic, maxAge);
    }
  }

  /** After an entry the cleaned child id names a frame and no frame is
      removed.  A new frame is static exactly when the message is; an
      existing frame is not replaced, so it keeps its kind.  The entry's
      sample goes to that frame and no other frame's samples change. */
  lemma StepFrames<X>(g: Graph<X>, tf: Stamped<X>, isStatic: bool, maxAge: nat)
    ensures var id := CleanId(tf.childFrameId);
      var r := Step(g, tf, isStatic, maxAge);
      && r.frames.Keys == g.frames.Keys + {id}
      && (id !in g.frames ==> r.frames[id].storage.Static? == isStatic)
      && (id in g.frames ==> r.frames[id].storage.Static? == g.frames[id].storage.Static?)
      && r.frames[id].storage
         == AddTo(if id in g.frames then g.frames[id].storage else NewFrame<X>(id, isStatic).storage, tf, maxAge)
      && (forall k :: k in g.frames && k != id ==> r.frames[k].storage == g.frames[k].storage)
  {
    var id := CleanId(tf.childFrameId);
    var pid := CleanId(tf.frameId);
    var g1 := EnsureFrame(g, id, isStatic);
    var g2 := Relink(g1, id, pid);
    assert g2.frames.Keys == g1.frames.Keys;
    assert forall k :: k in g1.frames ==> g2.frames[k].storage == g1.frames[k].storage;
    var g3 := Adopt(g2, id);
    assert g3.frames.Keys == g1.frames.Keys;
    assert forall k :: k in g1.frames ==> g3.frames[k].storage == g1.frames[k].storage;
  }

  /** A new dynamic frame holds exactly the entry's sample. */
  lemma StepNewDynamicFrame<X>(g: Graph<X>, tf: Stamped<X>, maxAge: nat)
    requires CleanId(tf.childFrameId) !in g.frames
    ensures Step(g, tf, false, maxAge).frames[CleanId(tf.childFrameId)].storage == Dynamic([tf])
  {
    StepFrames(g, tf, false, maxAge);
    CacheSpec.InsertIntoEmpty(maxAge, tf);
  }

  /** `Relink` when the parent exists. */
  lemma RelinkPresent<X>(g: Graph<X>, id: string, pid: string)
    requires Shape(g.frames) && id in g.frames && pid in g.frames
    ensures var r := Relink(g, id, pid);
      && r.frames[id].parent == Some(pid)
      && id in r.frames[pid].children
      && r.waiting == g.waiting
      && (g.frames[id].parent.Some? && g.frames[id].parent.value != pid ==>
            id !in r.frames[g.frames[id].parent.value].children)
  {
    var frame := g.frames[id];
    if frame.parent.Some? && frame.parent.value != pid {
      ReparentEffect(g.frames, id, pid);
    }
  }

  /** Hooking up the queue for `id` leaves alone the parent of a frame not
      in it. */
  lemma AdoptKeepsParent<X>(g: Graph<X>, id: string, x: string)
    requires x in g.frames && (id in g.waiting ==> x !in g.waiting[id])
    ensures Adopt(g, id).frames[x].parent == g.frames[x].parent
  {
  }

  /** Hooking up the queue for `id` leaves alone the children of every
      other frame, and only adds children to `id`. */
  lemma AdoptKeepsChildren<X>(g: Graph<X>, id: string, x: string)
    requires x in g.frames
    ensures x != id ==> Adopt(g, id).frames[x].children == g.frames[x].children
    ensures x == id ==> g.frames[x].children <= Adopt(g, id).frames[x].children
  {
  }

  /** When the parent exists (or is the frame itself), the frame ends up
      under it and among its children; a different former parent no
      longer lists it; the only queue that changes is the frame's own,
      which is dropped. */
  lemma StepParentPresent<X>(g: Graph<X>, tf: Stamped<X>, isStatic: bool, maxAge: nat)
    requires Linked(g)
    requires CleanId(tf.frameId) in g.frames || CleanId(tf.frameId) == CleanId(tf.childFrameId)
    ensures var id := CleanId(tf.childFrameId);
      var pid := CleanId(tf.frameId);
      var r := Step(g, tf, isStatic, maxAge);
      && r.frames[id].parent == Some(pid)
      && id in r.frames[pid].children
      && r.waiting == g.waiting - {id}
      && (id in g.frames && g.frames[id].parent.Some? && g.frames[id].parent.value != pid ==>
            id !in r.frames[g.frames[id].parent.value].children)
  {
    var id := CleanId(tf.childFrameId);
    var pid := CleanId(tf.frameId);
    var g1 := EnsureFrame(g, id, isStatic);
    EnsureFrameWf(g, id, isStatic);
    var g2 := Relink(g1, id, pid);
    RelinkPresent(g1, id, pid);
    if id in g.waiting {
      assert id !in g.frames;
      assert forall j :: 0 <= j < |g.waiting[id]| ==> g.waiting[id][j] != id;
    }
    var g3 := Adopt(g2, id);
    AdoptKeepsParent(g2, id, id);
    AdoptKeepsChildren(g2, id, pid);
    assert g3.frames[id].parent == Some(pid) && id in g3.frames[pid].children;
    if id in g.frames && g.frames[id].parent.Some? && g.frames[id].parent.value != pid {
      var q := g.frames[id].parent.value;
      AdoptKeepsChildren(g2, id, q);
      assert id !in g3.frames[q].children;
    }
    assert Step(g, tf, isStatic, maxAge) == g3.(frames := AddSample(g3.frames, id, tf, maxAge));
  }

  /** When the parent does not exist, the frame loses its parent and is
      queued, once more, under the parent's id; no frame's children
      change, not even those of the former parent. */
  lemma StepParentAbsent<X>(g: Graph<X>, tf: Stamped<X>, isStatic: bool, maxAge: nat)
    requires Linked(g)
    requires CleanId(tf.frameId) !in g.frames && CleanId(tf.frameId) != CleanId(tf.childFrameId)
    ensures var id := CleanId(tf.childFrameId);
      var pid := CleanId(tf.frameId);
      var r := Step(g, tf, isStatic, maxAge);
      && r.frames[id].parent == None
      && pid in r.waiting
      && r.waiting[pid] == (if pid in g.waiting then g.waiting[pid] else []) + [id]
      && (forall k :: k in g.frames ==> r.frames[k].children == g.frames[k].children)
  {
    var id := CleanId(tf.childFrameId);
    var pid := CleanId(tf.frameId);
    var g1 := EnsureFrame(g, id, isStatic);
    var g2 := Relink(g1, id, pid);
    assert g2.frames[id].parent == None;
    assert forall k :: k in g.frames ==> g2.frames[k].children == g.frames[k].children;
    if id in g.waiting {
      assert id !in g.frames;
      assert forall j :: 0 <= j < |g.waiting[id]| ==> g.waiting[id][j] != id;
    }
  }

  /** Every frame that was waiting for the entry's child is hooked under
      it, and no queue for the child is left. */
  lemma StepAdopts<X>(g: Graph<X>, tf: Stamped<X>, isStatic: bool, maxAge: nat)
    requires Linked(g)
    ensures var id := CleanId(tf.childFrameId);
      var r := Step(g, tf, isStatic, maxAge);
      && id !in r.waiting
      && (id in g.waiting ==> forall c :: c in g.waiting[id] ==>
            r.frames[c].parent == Some(id) && c in r.frames[id].children)
  {
    var id := CleanId(tf.childFrameId);
    var pid := CleanId(tf.frameId);
    var g1 := EnsureFrame(g, id, isStatic);
    var g2 := Relink(g1, id, pid);
    assert id in g2.waiting <==> id in g.waiting;
    if id in g.waiting {
      assert g2.waiting[id] == g.waiting[id];
      assert forall c :: c in g.waiting[id] ==> c in g2.frames;
    }
  }

  /** The entries of `tfs` whose cleaned child id is `k`, in order. */
  function EntriesFor<X>(tfs: seq<Stamped<X>>, k: string): (r: seq<Stamped<X>>)
    ensures |r| <= |tfs|
    ensures forall e :: e in r ==> e in tfs && CleanId(e.childFrameId) == k
    decreases |tfs|
  {
    if tfs == [] then []
    else
      var init := tfs[..|tfs| - 1];
      var last := tfs[|tfs| - 1];
      assert tfs == init + [last];
      EntriesFor(init, k) + (if CleanId(last.childFrameId) == k then [last] else [])
  }

  /** Selecting a frame's entries distributes over concatenation: together
      with the one-entry case this fixes the selection as the entries for
      `k` in message order. */
  lemma {:induction false} EntriesForAppend<X>(a: seq<Stamped<X>>, b: seq<Stamped<X>>, k: string)
    ensures EntriesFor(a + b, k) == EntriesFor(a, k) + EntriesFor(b, k)
    decreases |b|
  {
    if b == [] {
      assert a + b == a;
    } else {
      var init := b[..|b| - 1];
      var last := b[|b| - 1];
      assert b == init + [last];
      AppendAssoc(a, init, [last]);
      EntriesForSnoc(a + init, last, k);
      EntriesForSnoc(init, last, k);
      EntriesForAppend(a, init, k);
      AppendAssoc(EntriesFor(a, k), EntriesFor(init, k), if CleanId(last.childFrameId) == k then [last] else []);
    }
  }

  lemma AppendAssoc<T>(x: seq<T>, y: seq<T>, z: seq<T>)
    ensures (x + y) + z == x + (y + z)
  {
  }

  /** One unfolding of `EntriesFor` at an appended entry. */
  lemma EntriesForSnoc<X>(tfs: seq<Stamped<X>>, e: Stamped<X>, k: string)
    ensures EntriesFor(tfs + [e], k) == EntriesFor(tfs, k) + (if CleanId(e.childFrameId) == k then [e] else [])
  {
    assert (tfs + [e])[..|tfs|] == tfs;
  }

  /** No entry for `k` is left out of the selection. */
  lemma {:induction false} EntriesForComplete<X>(tfs: seq<Stamped<X>>, k: string)
    ensures forall i :: 0 <= i < |tfs| && CleanId(tfs[i].childFrameId) == k ==> tfs[i] in EntriesFor(tfs, k)
    decreases |tfs|
  {
    if tfs != [] {
      var init := tfs[..|tfs| - 1];
      EntriesForComplete(init, k);
      assert forall i :: 0 <= i < |init| ==> init[i] == tfs[i];
    }
  }

  /** A one-entry message selects its entry exactly when it is for `k`. */
  lemma EntriesForOne<X>(e: Stamped<X>, k: string)
    ensures EntriesFor([e], k) == (if CleanId(e.childFrameId) == k then [e] else [])
  {
    assert [e][..0] == [];
  }

  /** A history after inserting `tfs`, in order. */
  function InsertAll<X(==)>(h: seq<Stamped<X>>, tfs: seq<Stamped<X>>, maxAge: nat): seq<Stamped<X>>
    decreases |tfs|
  {
    if tfs == [] then h
    else CacheSpec.Insert(InsertAll(h, tfs[..|tfs| - 1], maxAge), maxAge, tfs[|tfs| - 1]).1
  }

  /** One entry's effect on the history of a dynamic frame `k`: the sample
      is inserted when the entry is for `k`, and the history is untouched
      otherwise. */
  lemma StepHistory<X>(g: Graph<X>, tf: Stamped<X>, isStatic: bool, maxAge: nat, k: string)
    requires k in g.frames && g.frames[k].storage.Dynamic?
    ensures k in Step(g, tf, isStatic, maxAge).frames
    ensures Step(g, tf, isStatic, maxAge).frames[k].storage
      == Dynamic(if CleanId(tf.childFrameId) == k
                 then CacheSpec.Insert(g.frames[k].storage.history, maxAge, tf).1
                 else g.frames[k].storage.history)
  {
    StepFrames(g, tf, isStatic, maxAge);
  }

  /** Every entry's sample reaches its child frame, in message order: a
      dynamic frame's history after a message is its history before with
      the message's entries for it inserted one by one. */
  lemma {:induction false} ApplyHistory<X>(g: Graph<X>, tfs: seq<Stamped<X>>, isStatic: bool, maxAge: nat, k: string)
    requires k in g.frames && g.frames[k].storage.Dynamic?
    ensures k in Apply(g, tfs, isStatic, maxAge).frames
    ensures Apply(g, tfs, isStatic, maxAge).frames[k].storage
      == Dynamic(InsertAll(g.frames[k].storage.history, EntriesFor(tfs, k), maxAge))
    decreases |tfs|
  {
    if tfs != [] {
      var init := tfs[..|tfs| - 1];
      var last := tfs[|tfs| - 1];
      var h0 := g.frames[k].storage.history;
      var es := EntriesFor(init, k);
      ApplyHistory(g, init, isStatic, maxAge, k);
      var a := Apply(g, init, isStatic, maxAge);
      assert Apply(g, tfs, isStatic, maxAge) == Step(a, last, isStatic, maxAge);
      StepHistory(a, last, isStatic, maxAge, k);
      EntriesForLast(tfs, k);
      if CleanId(last.childFrameId) == k {
        InsertAllSnoc(h0, es, last, maxAge);
      } else {
        assert es + [] == es;
      }
    } else {
      assert EntriesFor(tfs, k) == [];
    }
  }

  /** One unfolding of `EntriesFor` at the last entry. */
  lemma EntriesForLast<X>(tfs: seq<Stamped<X>>, k: string)
    requires tfs != []
    ensures EntriesFor(tfs, k) == EntriesFor(tfs[..|tfs| - 1], k)
      + (if CleanId(tfs[|tfs| - 1].childFrameId) == k then [tfs[|tfs| - 1]] else [])
  {
  }

  /** One unfolding of `InsertAll` at an appended entry. */
  lemma InsertAllSnoc<X>(h: seq<Stamped<X>>, es: seq<Stamped<X>>, e: Stamped<X>, maxAge: nat)
    ensures InsertAll(h, es + [e], maxAge) == CacheSpec.Insert(InsertAll(h, es, maxAge), maxAge, e).1
  {
    assert (es + [e])[..|es|] == es;
  }

  /** The cleaned child ids of the entries of a message. */
  function ChildIds<X>(tfs: seq<Stamped<X>>): (ids: set<string>)
    ensures forall i :: 0 <= i < |tfs| ==> CleanId(tfs[i].childFrameId) in ids
    ensures forall id :: id in ids ==> exists i :: 0 <= i < |tfs| && CleanId(tfs[i].childFrameId) == id
    decreases |tfs|
  {
    if tfs == [] then {}
    else
      var init := tfs[..|tfs| - 1];
      var ids := ChildIds(init);
      assert forall i :: 0 <= i < |init| ==> init[i] == tfs[i];
      ids + {CleanId(tfs[|tfs| - 1].childFrameId)}
  }

  /** After a message, the frames are the frames before plus the cleaned
      child id of every entry. */
  lemma {:induction false} ApplyKeys<X>(g: Graph<X>, tfs: seq<Stamped<X>>, isStatic: bool, maxAge: nat)
    ensures Apply(g, tfs, isStatic, maxAge).frames.Keys == g.frames.Keys + ChildIds(tfs)
    decreases |tfs|
  {
    if tfs != [] {
      var init := tfs[..|tfs| - 1];
      ApplyKeys(g, init, isStatic, maxAge);
      StepFrames(Apply(g, init, isStatic, maxAge), tfs[|tfs| - 1], isStatic, maxAge);
    }
  }
}
