/** Time intervals over absolute instants and the half-open overlap test
    that getAvailability applies between a candidate slot and a busy
    interval. */
module Intervals {

  /** An absolute instant: milliseconds since the epoch, as `Date.getTime`
      returns it. */
  type Instant = int

  /** The interval `[start, end)`. */
  datatype Interval = Interval(start: Instant, end: Instant)

  /** Nonempty intervals, the only ones a slot can be. */
  predicate Proper(a: Interval) {
    a.start < a.end
  }

  /** The instant `t` lies in `a`. */
  predicate Contains(a: Interval, t: Instant) {
    a.start <= t < a.end
  }

  /** The overlap test of the availability computation, with `a` the slot
      and `b` the busy interval: the end of each interval is exclusive. */
  predicate Overlaps(a: Interval, b: Interval) {
    a.start < b.end && a.end > b.start
  }

  /** For nonempty intervals the test means exactly "some instant lies in
      both intervals". */
  lemma OverlapsIffSharedInstant(a: Interval, b: Interval)
    requires Proper(a) && Proper(b)
    ensures Overlaps(a, b) <==> exists t :: Contains(a, t) && Contains(b, t)
  {
    if Overlaps(a, b) {
      var t := if a.start < b.start then b.start else a.start;
      assert Contains(a, t) && Contains(b, t);
    }
  }

  /** Back-to-back intervals do not overlap, in either order. */
  lemma TouchingDoesNotOverlap(a: Interval, b: Interval)
    requires a.end == b.start || b.end == a.start
    ensures !Overlaps(a, b) && !Overlaps(b, a)
  {
  }
}
