/** Value types shared by the transform buffer: stamped transforms, the
    errors a lookup can raise, and the abstract transform algebra. */
module TfTypes {
  import opened TimeUtils

  datatype Option<+T> = None | Some(value: T)

  /** The exceptions the original throws, one constructor per message. */
  datatype Error =
    | NoHistory        // "Unable to find closest transform with no history"
    | ExtrapolateFuture  // "Unable to extrapolate into the future"
    | ExtrapolatePast    // "Unable to extrapolate into the past"
    | NoBounds         // "Unable to extract bounds for value"

  /** Either a value or the exception that aborted the computation. */
  datatype Result<+T> = Ok(value: T) | Err(error: Error)

  /** A `geometry_msgs/TransformStamped`: `header.stamp`, `header.frame_id`
      (the parent frame), `child_frame_id` and the transform itself. */
  datatype Stamped<X> = Stamped(stamp: Time, frameId: string, childFrameId: string, transform: X)

  /** The rigid-transform operations the buffer relies on, kept abstract:
      `identity` (`new Transform()`), `times`, `inverse`, and `blend`, which
      stands for the lerp/slerp interpolation of two samples, given the
      query's offset from the first sample and the gap between the samples,
      both in nanoseconds. */
  datatype Algebra<!X> = Algebra(identity: X, times: (X, X) -> X, inverse: X -> X, blend: (X, X, int, int) -> X)
}
