# tf2_nodejs transform buffer, modelled in Dafny

This project models the in-memory transform buffer of tf2_nodejs, a
JavaScript port of the ROS `tf2` library. It covers the path from "a batch of
stamped child-to-parent transforms arrives" to "a chain of links is composed
for a lookup". The pieces are:

- **Closest-match binary search** (`BinarySearch`). It searches a collection
  with a caller-supplied signed distance. The narrowing loop of
  `_binarySearchBounds` is a method proved equal to a recursive
  specification. The case analysis of `binarySearchBounds`,
  `binarySearchIndex`, `binarySearch`, `lowerBound` and `upperBound` is a set
  of functions over that specification.
- **Per-frame transform history** (`CacheSpec`, `CacheLookup`, `Cache`).
  - `TransformCache` is a class. Its array is a sequence field that
    `insert`, `_removeOldEntries` and `clear` replace.
  - Each method is proved equal to a function of `CacheSpec` or
    `CacheLookup`.
  - Lemmas about those functions state the history's invariant (strictly
    increasing stamps, every sample within `maxAge` of the newest), bounded
    growth, replacement of a same-stamp sample, and the no-extrapolation
    policy of `findClosestFrames`.
- **Dynamic frame** (`Dynamic`). `DynamicFrame` owns a `TransformCache` and
  forwards to it.
- **Frame graph** (`FrameGraph`, `Tree`).
  - `TFTree` keeps its two dictionaries as map fields: `_frames` and
    `_waitingForParents`.
  - A frame is a record in an arena keyed by its cleaned id. Its parent and
    children are ids.
  - `handleTFMessage` is a loop over the message. Each entry is proved equal
    to `FrameGraph.Step`, built from four stages:
    1. create the frame;
    2. link it to its parent, or queue it under the missing parent;
    3. adopt the frames waiting for it;
    4. store the sample.
  - A structural invariant (`Linked`) is proved to survive every message.
- **Chain resolution** (`ChainSpec`, `TfChains`).
  - `TfChain` walks both frames to their roots, drops the common prefix, and
    builds the inverted and forward links.
  - `getTransform` folds the link transforms left to right.
  - The walk terminates only on an acyclic parent relation. So acyclicity is
    a precondition, witnessed by a rank that strictly drops from child to
    parent.
  - `ChainSpec.HandleCanCloseCycle` shows that the tree itself does not
    preserve acyclicity.
- **Time helpers** (`TimeUtils`). A stamp `{secs, nsecs}` is compared as a
  whole number of nanoseconds.
- **Static broadcaster queue** (`StaticBroadcast`). `sendTransform` upserts
  by child frame id into the latched message, then publishes once.

Transforms are a type parameter `X`. An `Algebra` value supplies `identity`,
`times` and `inverse`, and `blend` stands for the interpolation between two
samples. A JavaScript `throw` is an `Err` of the `Result` datatype, and
`null` or `undefined` is `None`.

## Model

| member | source | states |
|---|---|---|
| TimeUtils.IsZero | src/TimeUtils.js:18-27 | a zero stamp is 0 ns; for a normalized stamp, zero iff 0 ns |
| TimeUtils.Equal | src/TimeUtils.js:45-47 | field-wise equal stamps are at distance 0; for normalized stamps the converse holds |
| TimeUtils.Distance | src/TimeUtils.js:33-43 | the sign of `distance(a, b)` says whether `a` is before, at or after `b` |
| TimeUtils.SecondsDetermined | src/TimeUtils.js:33-47 | two normalized stamps on the same nanosecond are equal field by field |
| TimeUtils.DistanceToSelf | src/TimeUtils.js:37-43 | `distance(a, a) == 0` |
| TimeUtils.DistanceAntisymmetric | src/TimeUtils.js:37-43 | `distance(a, b) == -distance(b, a)` |
| BinarySearch.SearchBounds | src/BinarySearch.js:41-77 | the narrowing loop keeps `0 <= lo`, `hi < len` and shrinks `hi - lo`; it returns the recursive specification's result, and a one-index result is a hit |
| BinarySearch.RawBoundsFromShape | src/BinarySearch.js:49-76 | the loop returns a hit, a pair of adjacent indices whose lower end is before the query, or a collapsed pair `[i, i]` |
| BinarySearch.RawBoundsFromInRange | src/BinarySearch.js:49-76 | entered with a lower end not after and an upper end not before the query, the loop yields a hit or an adjacent pair whose upper end is not before the query |
| BinarySearch.Bounds | src/BinarySearch.js:93-124 | `[i]` is a hit; `[lo, hi]` has `hi == lo + 1` and `distance(lo) < 0 < distance(hi)`; a collection of at most one element gives `[]`, even on an exact match |
| BinarySearch.BoundsInRange | src/BinarySearch.js:93-124 | at least two elements, the first not after and the last not before the query, always give a hit or a bracket |
| BinarySearch.BoundsEmptyIff | src/BinarySearch.js:93-124 | on an ordered collection the result is `[]` iff it has at most one element or the query is before the first or after the last |
| BinarySearch.Index | src/BinarySearch.js:137-156 | -1 iff the bounds are empty; otherwise an index from the bounds whose distance is no larger than the other's, the lower one on a tie |
| BinarySearch.IndexIsNearest | src/BinarySearch.js:137-156 | on an ordered collection the chosen index is nearest the query among all elements |
| BinarySearch.Search | src/BinarySearch.js:168-171 | an element iff the bounds are non-empty, and then the element at `binarySearchIndex` |
| BinarySearch.LowerBound | src/BinarySearch.js:173-183 | -1 iff the bounds are empty; otherwise an element not after the query whose successor is after it, unless it is a hit |
| BinarySearch.UpperBound | src/BinarySearch.js:185-196 | -1 iff the bounds are empty; otherwise an element not before the query whose predecessor is before it, unless it is a hit |
| BinarySearch.LowerUpperAdjacent | src/BinarySearch.js:173-196 | upper bound is lower bound or lower bound plus one, and plus one exactly for a bracket |
| BinarySearch.NumericExamples | test/binary_search_test.js:17-59 | the search results the tests expect on `[0, 1, 3, 5, 8, 19]` and `[-1]` |
| CacheSpec.Placement | src/TransformCache.js:67-117 | the insertion index is within the history, and a replacing index holds a sample with the new stamp |
| CacheSpec.PlacementSplits | src/TransformCache.js:67-117 | on a sorted history, every sample before the insertion index is earlier and every sample after the replaced one is later |
| CacheSpec.ConsolidatedFacts | src/TransformCache.js:119-140 | consolidation overwrites at most three samples: the same-stamp one and neighbours repeating the parent frame and transform; everything before is earlier, everything after is later |
| CacheSpec.ConsolidatedSorted | src/TransformCache.js:99-140 | consolidation keeps stamps strictly increasing, keeps the new sample, and changes the length by between -2 and +1 |
| CacheSpec.SpliceRange | src/TransformCache.js:119-138 | the overwritten range lies within the history |
| CacheSpec.Splice | src/TransformCache.js:140 | `splice(start, count, x)` removes `count` samples and adds one |
| CacheSpec.FirstWithin | src/TransformCache.js:282-293 | the scan stops at the first sample within `maxAge` of the newest; all before it are older |
| CacheSpec.EvictFacts | src/TransformCache.js:282-293 | eviction removes only a prefix, never the newest sample, and leaves every sample within `maxAge` of the newest; a sample within the window survives |
| CacheSpec.EvictDrops | src/TransformCache.js:282-293 | on any history, eviction keeps the newest sample and drops only samples older than `maxAge` |
| CacheSpec.InsertRejectsOnlyStale | src/TransformCache.js:67-71 | `insert` returns false iff the history is non-empty and the new stamp is more than `maxAge` older than the newest; then the history is unchanged |
| CacheSpec.InsertIntoEmpty | src/TransformCache.js:102-104 | inserting into an empty history gives exactly the new sample |
| CacheSpec.ConsolidatedNewestNear | src/TransformCache.js:67-71 | after an accepted consolidation the new sample is within `maxAge` of the newest |
| CacheSpec.AcceptedSampleKept | src/TransformCache.js:140-143 | an accepted sample survives eviction |
| CacheSpec.InsertKeepsValid | src/TransformCache.js:56-146 | `insert` keeps the invariant (strictly increasing stamps, all within `maxAge` of the newest) and grows the history by at most one |
| CacheSpec.InsertReplacesSameStamp | src/TransformCache.js:81-96 | after an accepted `insert` the new sample is present and is the only sample with its stamp |
| CacheSpec.SortedStampUnique | src/TransformCache.js:81-96 | in a sorted history no two samples share a stamp |
| CacheSpec.ConsolidatesNeighbours | src/TransformCache.js:119-140 | conversely, the same-stamp sample and a nearest neighbour on either side of the new stamp that repeats the parent frame and transform lie inside the overwritten range |
| CacheSpec.ConsolidatedRemoves | src/TransformCache.js:119-140 | such an overwritten sample is no longer in the consolidated history, unless it equals the new sample |
| CacheSpec.InsertConsolidates | src/TransformCache.js:56-146 | after an accepted insertion the old same-stamp sample and a repeated nearest neighbour are gone, unless they equal the new sample |
| CacheSpec.InsertConsolidatesAll | src/TransformCache.js:56-146 | the same, for every old sample at once |
| CacheSpec.ConsolidatedDrops | src/TransformCache.js:119-140 | on any history, consolidation overwrites only same-stamp or repeated neighbours and keeps the rest around the new sample |
| CacheSpec.InsertOnlyDrops | src/TransformCache.js:56-146 | nothing but the new sample enters; an old sample leaves only if it had the new stamp, repeated the new data as a neighbour, or aged out |
| CacheLookup.ClosestFrames | src/TransformCache.js:193-236 | empty history throws no-history; one sample or zero time gives the single or newest sample; a time after the newest throws "future", before the oldest throws "past"; otherwise one or two samples of the history, a hit at the query's stamp or a pair around it |
| CacheLookup.ClosestFramesNoExtrapolation | src/TransformCache.js:204-222 | on a sorted history of two or more samples and a non-zero time, the lookup succeeds iff the time lies between the oldest and newest stamps |
| CacheLookup.ClosestFramesExact | src/TransformCache.js:224-227 | on a sorted history, a non-zero time equal to some sample's stamp returns that sample alone |
| CacheLookup.ClosestFramesBracket | src/TransformCache.js:228-232 | a time strictly between two consecutive samples returns exactly those two, in time order |
| CacheLookup.Closest | src/TransformCache.js:238-254 | `getClosest` fails exactly when `findClosestFrames` does, with the same error; one sample or zero time returns the newest transform unblended |
| CacheLookup.ClosestBlendsBracket | src/TransformCache.js:238-273 | between two consecutive samples the result is their blend, with the query's offset and the gap |
| CacheLookup.ClosestExactUnblended | src/TransformCache.js:238-243 | on a sorted history, a non-zero query at a sample's stamp returns that sample's transform, unblended |
| CacheLookup.Interpolate | src/TransformCache.js:256-273 | equal stamps give the second sample's transform; otherwise the two transforms are blended with the query's nanosecond offset from the earlier sample and the gap between the two |
| CacheLookup.BoundsSortedEmptyIff | src/TransformCache.js:295-299 | on a sorted history of two or more samples the search finds nothing exactly when the query is before the oldest or after the newest stamp |
| CacheLookup.ExactHitFound | src/TransformCache.js:295-299 | on a sorted history of two or more samples, the search by stamp returns exactly the index of the sample at the query |
| Cache.TransformCache.constructor | src/TransformCache.js:34-38 | a new history is empty, valid, and keeps the given `maxAge` |
| Cache.TransformCache.Length | src/TransformCache.js:40-42 | the number of samples |
| Cache.TransformCache.Get | src/TransformCache.js:44-50 | a sample iff `-length <= index < length`; a negative index counts from the end |
| Cache.TransformCache.Clear | src/TransformCache.js:52-54 | the history becomes empty (and valid) |
| Cache.TransformCache.GetLatestTimestamp | src/TransformCache.js:148-152 | defined iff non-empty; the value is the stamp of a sample, and on a valid history no sample is later |
| Cache.TransformCache.GetEarliestTimestamp | src/TransformCache.js:154-158 | defined iff non-empty; the value is the stamp of a sample, and on a valid history no sample is earlier |
| Cache.TransformCache.CheckRepeatedInsertion | src/TransformCache.js:184-191 | true exactly for an in-range index whose sample has the same parent frame and an equal transform |
| Cache.TransformCache.GetBounds | src/TransformCache.js:295-299 | a one-index result is a sample at the query's stamp; a two-index result is two consecutive samples around it; on a valid history of two or more samples the result is empty exactly when the query is before the oldest or after the newest stamp |
| Cache.TransformCache.GetLowerBound | src/TransformCache.js:301-305 | -1 iff the search is empty; otherwise a sample not after the query, whose successor on a valid history is after it |
| Cache.TransformCache.GetEntryIndex | src/TransformCache.js:307-314 | the index of a sample at the query's stamp or -1; always -1 on a history of at most one sample; on a valid history of two or more, the index of the sample at that stamp whenever there is one |
| Cache.TransformCache.GetMostRecent | src/TransformCache.js:275-280 | `get(-1)`: the newest sample iff non-empty; on a valid history every other sample is earlier |
| Cache.TransformCache.RemoveOldEntries | src/TransformCache.js:282-293 | the history becomes `Evict` of the old one; a sorted history becomes valid |
| Cache.TransformCache.FindInsertionPoint | src/TransformCache.js:67-117 | the loop-free placement equals `CacheSpec.Placement` |
| Cache.TransformCache.FindSpliceRange | src/TransformCache.js:119-138 | the overwritten range equals `CacheSpec.SpliceRange` |
| Cache.TransformCache.Insert | src/TransformCache.js:56-146 | result and new history are `CacheSpec.Insert`; rejected iff stale, and then unchanged; validity kept with growth at most one; an accepted sample is present; nothing else enters; on a valid history the old same-stamp sample and a repeated nearest neighbour are removed |
| Cache.TransformCache.FindClosestFrames | src/TransformCache.js:193-236 | equals `ClosestFrames`; no-history iff empty; on a valid history, success iff the time is within the stored range |
| Cache.TransformCache.GetClosest | src/TransformCache.js:238-254 | equals `Closest`; empty throws no-history; zero time gives the newest transform |
| Dynamic.DynamicFrame.constructor | src/DynamicFrame.js:22-26 | a new frame owns a fresh, empty, valid history with the given `maxAge` |
| Dynamic.DynamicFrame.AddTransform | src/DynamicFrame.js:28-30 | the history becomes `insert`'s result; validity is kept; a stale sample is dropped silently |
| Dynamic.DynamicFrame.GetTransform | src/DynamicFrame.js:32-34 | equals the history's `getClosest`; no data throws no-history; zero time or a single sample gives the newest transform |
| FrameGraph.CleanId | src/TFTree.js:23-29 | the id is unchanged or had one leading '/' removed |
| FrameGraph.CleanIdStripsOne | src/TFTree.js:23-29 | exactly one leading '/' is stripped (`//a` becomes `/a`); an id without one is unchanged |
| FrameGraph.InitialGraph | src/TFTree.js:40-47 | a fresh tree has exactly the static frame `base`, no parent, no children, no waiting entries, and is `Linked` |
| FrameGraph.EnsureFrame | src/TFTree.js:62-72 | the child id becomes a key; existing frames are not replaced; the waiting map is untouched |
| FrameGraph.Relink | src/TFTree.js:75-102 | keys, ids and stored transforms are unchanged by linking |
| FrameGraph.LinkOne | src/TFTree.js:107-110 | one waiting child gets the new parent and joins its children; nothing else changes |
| FrameGraph.LinkWaiting | src/TFTree.js:105-112 | every waiting child gets the new frame as parent and joins its children; other frames' parents and children are unchanged |
| FrameGraph.Adopt | src/TFTree.js:104-112 | the waiting entry for the frame is deleted; keys, ids and transforms are unchanged |
| FrameGraph.AddSample | src/TFTree.js:114 | only the child frame's storage changes, by `AddTo` |
| FrameGraph.ShapeNewFrame | src/TFTree.js:62-72 | adding a fresh frame keeps the arena's shape |
| FrameGraph.ShapeDetach | src/TFTree.js:90-92 | clearing a parent keeps the shape |
| FrameGraph.ShapeAttach | src/TFTree.js:85-88 | linking a parentless frame keeps the shape |
| FrameGraph.ShapeReparent | src/TFTree.js:78-83 | moving a frame to a new parent keeps the shape |
| FrameGraph.ReparentEffect | src/TFTree.js:78-83 | what moving a frame does, key by key |
| FrameGraph.ShapeFromEffect | src/TFTree.js:78-83 | those key-by-key effects keep the shape |
| FrameGraph.ShapeLinkOne | src/TFTree.js:107-110 | adopting one waiting child keeps the shape |
| FrameGraph.ShapeLinkWaiting | src/TFTree.js:105-112 | adopting all waiting children keeps the shape |
| FrameGraph.ShapeAddSample | src/TFTree.js:114 | storing a sample keeps the shape |
| FrameGraph.EnsureFrameWf | src/TFTree.js:62-72 | after creating the frame the graph is well formed, except that a queue may remain for the new id |
| FrameGraph.RelinkWf | src/TFTree.js:75-102 | linking or queueing keeps that relaxed well-formedness |
| FrameGraph.AdoptLinked | src/TFTree.js:104-112 | adopting the waiting frames restores `Linked` |
| FrameGraph.AddSampleLinked | src/TFTree.js:114 | storing a sample keeps `Linked` |
| FrameGraph.StepLinked | src/TFTree.js:58-114 | one message entry keeps `Linked`: every parent is a frame listing its child, children are frames, queued frames exist, and no queue is kept for an existing frame |
| FrameGraph.ApplyLinked | src/TFTree.js:54-116 | a whole message keeps `Linked` |
| FrameGraph.StepFrames | src/TFTree.js:59-72 | keys grow by the cleaned child id; a new frame is static iff `isStatic`; an existing frame keeps its kind; only the child's storage changes |
| FrameGraph.StepNewDynamicFrame | src/TFTree.js:68-71 | a new dynamic frame holds exactly the message's sample |
| FrameGraph.RelinkPresent | src/TFTree.js:75-89 | with the parent present, the child's parent becomes it, it lists the child, and a different former parent no longer lists the child |
| FrameGraph.AdoptKeepsParent | src/TFTree.js:104-112 | adoption does not change the parent of a frame that was not waiting for this one |
| FrameGraph.AdoptKeepsChildren | src/TFTree.js:104-112 | adoption changes only the adopting frame's children, and only by adding |
| FrameGraph.StepParentPresent | src/TFTree.js:75-89 | for a known parent: the child's parent becomes it, it lists the child, the old parent drops the child, and the child's own queue is gone |
| FrameGraph.StepParentAbsent | src/TFTree.js:90-102 | for an unknown parent: the child's parent is cleared, the child is appended to the parent's queue without dedup, and no children set changes |
| FrameGraph.StepAdopts | src/TFTree.js:104-112 | every frame waiting on the child gets it as parent and is among its children, and the child has no queue left |
| FrameGraph.StepHistory | src/TFTree.js:114 | one entry inserts its sample into its own dynamic frame's history and leaves every other history untouched |
| FrameGraph.EntriesFor | src/TFTree.js:57-58 | selects only entries of the message for the frame |
| FrameGraph.EntriesForComplete | src/TFTree.js:57-58 | every entry of the message for the frame is selected |
| FrameGraph.EntriesForAppend | src/TFTree.js:57-58 | selection distributes over concatenation, so it keeps message order |
| FrameGraph.EntriesForOne | src/TFTree.js:57-58 | a one-entry message selects its entry exactly when it is for the frame |
| FrameGraph.ApplyHistory | src/TFTree.js:54-116 | after a message, a dynamic frame's history is its old history with the frame's entries inserted in message order |
| FrameGraph.ChildIds | src/TFTree.js:59 | exactly the cleaned child ids of the message |
| FrameGraph.ApplyKeys | src/TFTree.js:54-72 | after a message the keys are the old keys plus the cleaned child ids |
| ChainSpec.PathFrom | src/TfChain.js:38-51 | the walk ends at the frame, starts at a root, stays in the arena, and follows parent links |
| ChainSpec.PathRankFree | src/TfChain.js:38-51 | the walk does not depend on the rank that witnesses acyclicity |
| ChainSpec.Path | src/TfChain.js:38-51 | the root-first walk from a root down to the frame |
| ChainSpec.PathIs | src/TfChain.js:38-51 | any rank witnesses acyclicity and gives the same walk |
| ChainSpec.PathDistinct | src/TfChain.js:38-51 | a walk visits no frame twice |
| ChainSpec.PathPrefix | src/TfChain.js:38-51 | a prefix of a walk is the walk of its last frame |
| ChainSpec.CommonFrom | src/TfChain.js:66-75 | the two walks agree up to the result and differ at it |
| ChainSpec.Reverse | src/TfChain.js:82-85 | `unshift` in a loop reverses |
| ChainSpec.Repeat | src/TfChain.js:82-90 | `n` copies of a flag |
| ChainSpec.ChainValid | src/TfChain.js:31-94 | links and flags have equal length; valid iff the frames are equal or share a root; links are frames; no links for equal or unrelated frames |
| ChainSpec.ChainSkipsCommonAncestors | src/TfChain.js:62-80 | neither the lowest common ancestor nor any frame above it is a link |
| ChainSpec.CommonFromPrefix | src/TfChain.js:66-75 | a walk and its own prefix agree along the whole prefix |
| ChainSpec.AncestorChainForward | src/TfChain.js:62-90 | from an ancestor, the chain is valid and has no inverted links |
| ChainSpec.AncestorPathPrefix | src/TfChain.js:38-51 | an ancestor's walk is a prefix of the descendant's |
| ChainSpec.LinkTransform | src/TfChain.js:100 | a static link gives its stored transform; a dynamic one gives `getClosest`'s transform when the history lookup succeeds and its error when it fails |
| ChainSpec.FoldFirstMiss | src/TfChain.js:96-114 | the fold yields a transform iff every link yields one; otherwise its result is that of the first failing link |
| ChainSpec.FoldStays | src/TfChain.js:109-111 | once the fold stops on a missing transform or an error, later links do not change the result |
| ChainSpec.CanTransformIff | src/TFTree.js:152-163 | `canTransform` is true iff the lookup gives a transform, false iff it gives null, and throws iff the lookup throws |
| ChainSpec.LookupCases | src/TFTree.js:139-159 | the same frame gives the identity; a missing frame or frames with different roots give null |
| ChainSpec.CycleFirstStep | src/TFTree.js:90-102 | the first entry of the cycle example queues `a` under the unknown `b` |
| ChainSpec.CycleSecondStep | src/TFTree.js:75-112 | the second entry hangs `b` under `a`, and `b` then adopts `a` |
| ChainSpec.MutualParentsCyclic | src/TfChain.js:38-51 | two frames that are each other's parent admit no rank, so the walk would not end |
| ChainSpec.HandleCanCloseCycle | src/TFTree.js:54-116 | a two-entry message leaves `a` and `b` each the other's parent, so the tree does not keep the parent relation acyclic |
| TfChains.TfChain.constructor | src/TfChain.js:21-29 | the links, flags and validity equal `ChainOf` of the two frames |
| TfChains.TfChain.WalkToRoot | src/TfChain.js:38-51 | the `while (link)` loop builds exactly the root-first walk |
| TfChains.TfChain.Construct | src/TfChain.js:31-94 | the fields equal `ChainOf`: the from-side below the common ancestor child-first and inverted, then the to-side ancestor-first and forward |
| TfChains.TfChain.CommonLength | src/TfChain.js:66-75 | the loop stops at the length of the common prefix |
| TfChains.TfChain.LinkBelow | src/TfChain.js:82-90 | the links are the reversed from-side followed by the to-side, with matching inverted and forward flags |
| TfChains.TfChain.GetTransform | src/TfChain.js:96-114 | equals the left fold from the identity; no links gives the identity; a transform iff every link has one |
| Tree.TFTree.constructor | src/TFTree.js:40-47 | the new tree is `InitialGraph` and `Linked`, with the given `maxAge` (10 s by default) |
| Tree.TFTree.Destroy | src/TFTree.js:49-52 | both maps become empty |
| Tree.TFTree.HandleTFMessage | src/TFTree.js:54-116 | the new state is `Apply` of the message; keys grow by exactly the cleaned child ids; `Linked` is preserved |
| Tree.TFTree.HandleEntry | src/TFTree.js:58-114 | one loop iteration is `Step` |
| Tree.TFTree.LinkParent | src/TFTree.js:75-102 | the parent-link block is `Relink` |
| Tree.TFTree.AdoptWaiting | src/TFTree.js:104-112 | the adoption loop is `Adopt` |
| Tree.TFTree.GetFrame | src/TFTree.js:118-120 | the frame under the cleaned id, if any |
| Tree.TFTree.HasFrame | src/TFTree.js:135-137 | true iff the cleaned id is a key |
| Tree.TFTree.GetFrameIds | src/TFTree.js:122-124 | an id is listed iff `hasFrame('/' + id)` |
| Tree.TFTree.GetChain | src/TFTree.js:139-150 | a chain iff both frames exist and `ChainOf` is valid, and then one built from the current frames |
| Tree.TFTree.LookupTransform | src/TFTree.js:152-159 | equals `Lookup` |
| Tree.TFTree.CanTransform | src/TFTree.js:161-163 | equals `CanTransformOf`; true iff the lookup gives some transform |
| StaticBroadcast.AsList | src/interfaces/StaticTransformBroadcasterInterface.js:24-26 | a single transform becomes a one-element list; a list is kept |
| StaticBroadcast.FindFrom | src/interfaces/StaticTransformBroadcasterInterface.js:31 | `findIndex` gives -1 iff no queued entry has the child id, else the first that has |
| StaticBroadcast.UpsertFacts | src/interfaces/StaticTransformBroadcasterInterface.js:30-37 | a matching child id is replaced at its index; a new id is appended at the end; no duplicate is created; other entries keep their place |
| StaticBroadcast.UpsertAllFacts | src/interfaces/StaticTransformBroadcasterInterface.js:28-38 | from a queue without duplicates, none arise even when one call repeats an id; entries keep their place; the ids are the old ones plus those sent |
| StaticBroadcast.UpsertAllLastWins | src/interfaces/StaticTransformBroadcasterInterface.js:28-38 | of several transforms for one child id in a call, the last is queued |
| StaticBroadcast.UniqueCount | src/interfaces/StaticTransformBroadcasterInterface.js:28-38 | a queue without duplicates has one entry per child id |
| StaticBroadcast.SendGrowth | src/interfaces/StaticTransformBroadcasterInterface.js:28-38 | a call grows the queue by the number of distinct, previously unseen child ids |
| StaticBroadcast.StaticTransformBroadcaster.constructor | src/interfaces/StaticTransformBroadcasterInterface.js:19-21 | the queue starts empty, with nothing published |
| StaticBroadcast.StaticTransformBroadcaster.SendTransform | src/interfaces/StaticTransformBroadcasterInterface.js:23-41 | the queue becomes the ordered upsert of the argument; it is published exactly once, after all updates; a queue without duplicates stays so |
| StaticBroadcast.StaticTransformBroadcaster.Publish | src/interfaces/StaticTransformBroadcasterInterface.js:40 | the whole queue is published unchanged |

## Left out

- Floating point. `toSec` and `distance` compute float seconds; here a stamp is a whole number of nanoseconds and `maxAgeS` is in nanoseconds. Every comparison is exact, where the original can round.
- `TimeUtils.toNumber` (src/TimeUtils.js:29-31) has no `return`, so it gives `undefined`; nothing in the core calls it.
- TimeUtils.IsZero: does not model `isZero(0)` on the bare number 0, because every stamp here is a `{secs, nsecs}` record.
- Interpolation. `interpolate` uses three.js `lerpVectors` and `slerp` on floats. Here it is the abstract `blend`, given the query's offset from the earlier sample and the gap between the two.
- CacheLookup.Interpolate: its equal-stamp branch is kept, but it returns the second sample's transform instead of the stamped object itself (src/TransformCache.js:259-261). The result type `X` cannot hold a stamped sample. `Closest` never reaches that branch on any history, because a two-sample result of `ClosestFrames` strictly brackets the query.
- `src/geometry/Transform.js`: transform math is the abstract `Algebra`. No identity such as `A·A⁻¹ = I` is claimed.
- Unreachable branches. These are not given separate outcomes:
  - the `hi === mid` return of the binary search (src/BinarySearch.js:63-65), which is kept in the model and never taken;
  - the "Unable to extract bounds" throw of `findClosestFrames`, proved never to happen (`ClosestFrames` ensures `r != Err(NoBounds)`);
  - the `return null` of `getClosest` (src/TransformCache.js:251-252).
- `waitForTransform` and `_waitForTransform` (src/TFTree.js:165-193): they poll with `setTimeout` and `Date.now`.
- `getOrphanFrameIds` (src/TFTree.js:126-133): it calls `Set.from`, which standard JavaScript does not define, and it collects frame objects rather than ids. The orphans are the contents of the `waiting` map of the model.
- `_publish` and `shutdown`: in the interface `_publish` only throws, and the ROS subclasses do network I/O. Here a publish is recorded in the `published` log.
- `src/TransformListener.js`, `src/ros/*.js`, `src/index.js`, `src/interfaces/TransformBroadcasterInterface.js`, the examples: subscription, advertising and configuration wiring, outside the buffer.
- `StaticFrame.js`, `geometry/Frame.js` and `geometry/TransformStamped.js` are not part of this model. A static frame holds its last transform: `getTransform` of a static frame is taken to return it, and the root `base` holds none. `TransformStamped.fromRos` is the identity on the `Stamped` record.
- Object keys. `_frames` and `_waitingForParents` are plain objects, so an id such as `toString` or `__proto__` would hit `Object.prototype`. Maps here have no such keys.
- Frame objects. The tree stores each frame's history by value, in the `Dynamic` storage of its record. It does not hold a reference to a `DynamicFrame` object. The `DynamicFrame` class is modelled on its own, with the history its `addTransform` and `getTransform` use. A `TfChain` holds a snapshot of the arena, where the original holds references to live frames.
- Tree.TFTree.GetChain, Tree.TFTree.LookupTransform, Tree.TFTree.CanTransform: require the parent relation to be acyclic. The walk to the root loops forever on a cycle, and `handleTFMessage` can create one (`ChainSpec.HandleCanCloseCycle`). The precondition is stronger than the source needs. Even on a tree that holds a cycle, the source returns when the two frames are the same (src/TfChain.js:33-36) or when one of them is missing (src/TFTree.js:140-142). The model does not cover those calls.
- Tree.TFTree.GetFrameIds: returns a set, not the insertion-ordered array of `Object.keys`. A stored id may itself begin with '/' (a child id `//a` is stored as `/a`), which is why the contract is stated through `hasFrame('/' + id)`.
- Stale children. When a frame is re-queued under an absent parent, it is not removed from its former parent's `children` set. The model keeps that behaviour, so the invariant `Linked` promises only that a frame's parent lists it, not the converse.
- Tree.TFTree.CanTransform: follows the code, not the documented intent. An exception from a link's history lookup (no history, extrapolation) is propagated, as `canTransform` does not catch it; it does not become `false`.
- A negative or missing `maxAgeS` is not modelled: `maxAge` is a natural number.
- Cache.TransformCache.GetEarliestTimestamp, Cache.TransformCache.GetLatestTimestamp: return None for an empty history, where the original returns `undefined`.
