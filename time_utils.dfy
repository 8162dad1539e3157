/** Timestamps as ROS sends them, `{secs, nsecs}`, and the three helpers
    the transform buffer compares them with.  The original converts a stamp
    to floating-point seconds; here a stamp is converted to a whole number
    of nanoseconds, so every comparison and difference is exact. */
module TimeUtils {

  const NanosPerSec: int := 1_000_000_000

  datatype Time = Time(secs: int, nsecs: int)

  /** A stamp whose nanosecond part is a proper fraction of a second. */
  predicate Normalized(t: Time) {
    0 <= t.nsecs < NanosPerSec
  }

  /** The stamp on one time axis, in nanoseconds (`toSec`, scaled by 10^9). */
  function ToNanos(t: Time): int {
    t.secs * NanosPerSec + t.nsecs
  }

  /** The zero stamp, the sentinel for "latest available". */
  predicate IsZero(t: Time)
    ensures IsZero(t) ==> ToNanos(t) == 0
    ensures Normalized(t) ==> (IsZero(t) <==> ToNanos(t) == 0)
  {
    SecondsDetermined(t, Time(0, 0));
    t.secs == 0 && t.nsecs == 0
  }

  /** Field-wise equality of two stamps. */
  predicate Equal(a: Time, b: Time)
    ensures Equal(a, b) ==> Distance(a, b) == 0
    ensures Normalized(a) && Normalized(b) ==> (Equal(a, b) <==> Distance(a, b) == 0)
  {
    SecondsDetermined(a, b);
    a.secs == b.secs && a.nsecs == b.nsecs
  }

  /** Signed difference `a - b`: negative when `a` is earlier than `b`. */
  function Distance(a: Time, b: Time): (d: int)
    ensures d < 0 <==> ToNanos(a) < ToNanos(b)
    ensures d > 0 <==> ToNanos(a) > ToNanos(b)
    ensures d == 0 <==> ToNanos(a) == ToNanos(b)
  {
    ToNanos(a) - ToNanos(b)
  }

  /** Two normalized stamps on the same nanosecond agree field by field. */
  lemma SecondsDetermined(a: Time, b: Time)
    ensures Normalized(a) && Normalized(b) && ToNanos(a) == ToNanos(b) ==> a == b
  {
    if Normalized(a) && Normalized(b) && ToNanos(a) == ToNanos(b) {
      if a.secs < b.secs {
        MoreSecondsIsLater(a.secs, b.secs);
      } else if b.secs < a.secs {
        MoreSecondsIsLater(b.secs, a.secs);
      }
    }
  }

  /** A whole second more is a full 10^9 nanoseconds more. */
  lemma MoreSecondsIsLater(s: int, s': int)
    requires s < s'
    ensures s * NanosPerSec + NanosPerSec <= s' * NanosPerSec
  {
    assert s' * NanosPerSec - s * NanosPerSec == (s' - s) * NanosPerSec;
  }

  lemma DistanceToSelf(a: Time)
    ensures Distance(a, a) == 0
  {
  }

  lemma DistanceAntisymmetric(a: Time, b: Time)
    ensures Distance(a, b) == -Distance(b, a)
  {
  }
}
