/** `DynamicFrame`: a frame whose transform to its parent varies over time.
    It owns a `TransformCache` and hands every operation to it. */
module Dynamic {
  import opened TimeUtils
  import opened TfTypes
  import CacheSpec
  import opened CacheLookup
  import opened Cache

  class DynamicFrame<X(==)> {
    const id: string
    /** The frame's history, `this.transform`. */
    const transform: TransformCache<X>

    /** A new frame starts with an empty history kept for `maxAge`. */
    constructor (id: string, maxAge: nat)
      ensures this.id == id
      ensures fresh(transform)
      ensures transform.cache == [] && transform.maxAge == maxAge
      ensures transform.Valid()
    {
      this.id := id;
      transform := new TransformCache(maxAge);
    }

    /** `addTransform`: insert into the history; a sample the history
        refuses as too old is dropped without notice. */
    method AddTransform(tf: Stamped<X>)
      modifies transform
      ensures transform.cache == CacheSpec.Insert(old(transform.cache), transform.maxAge, tf).1
      ensures old(transform.Valid()) ==> transform.Valid()
      ensures old(|transform.cache|) > 0
        && Distance(old(transform.cache)[old(|transform.cache|) - 1].stamp, tf.stamp) > transform.maxAge
        ==> transform.cache == old(transform.cache)
    {
      var _ := transform.Insert(tf);
    }

    /** `getTransform`: the history's `getClosest`. */
    method GetTransform(time: Time, alg: Algebra<X>) returns (r: Result<X>)
      ensures r == Closest(transform.cache, time, alg)
      ensures transform.cache == [] ==> r == Err(NoHistory)
      ensures |transform.cache| >= 1 && IsZero(time) ==> r == Ok(transform.cache[|transform.cache| - 1].transform)
      ensures |transform.cache| == 1 ==> r == Ok(transform.cache[0].transform)
    {
      r := transform.GetClosest(time, alg);
    }
  }
}
