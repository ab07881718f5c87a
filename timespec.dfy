/** The timespec helpers of server/common.c. A `struct timespec` reached
    through a pointer is a `Timespec` object; the clock reading that
    `time_after` and `time_left` take from `time_now` is passed in as `now`.
    Integer widths (`time_t`, `long`) are not bounded here. */
module Time {
  import opened CArith

  const MSEC_PER_SEC: int := 1000
  const NSEC_PER_MSEC: int := 1000000
  const NSEC_PER_SEC: int := 1000000000

  /** A `struct timespec`: whole seconds and nanoseconds. */
  class Timespec {
    var sec: int
    var nsec: int

    constructor (sec: int, nsec: int)
      ensures this.sec == sec && this.nsec == nsec
    {
      this.sec := sec;
      this.nsec := nsec;
    }
  }

  /** The instant a (seconds, nanoseconds) pair denotes, in nanoseconds. */
  function Nanos(sec: int, nsec: int): int {
    sec * NSEC_PER_SEC + nsec
  }

  /** A timespec whose nanosecond field is within one second. */
  predicate Normalized(sec: int, nsec: int) {
    0 <= nsec < NSEC_PER_SEC
  }

  /** The pair `time_add` leaves: `ms` is split with C division into whole
      seconds and a nanosecond remainder, and a nanosecond overflow is
      carried into the seconds. The instant moves by exactly `ms`
      milliseconds, and a normalised timespec stays normalised when
      `ms` is not negative. */
  function Added(sec: int, nsec: int, ms: int): (r: (int, int))
    ensures Nanos(r.0, r.1) == Nanos(sec, nsec) + ms * NSEC_PER_MSEC
    ensures ms >= 0 && Normalized(sec, nsec) ==> Normalized(r.0, r.1)
  {
    var secs := CDiv(ms, MSEC_PER_SEC);
    var nsecs := CMod(ms, MSEC_PER_SEC) * NSEC_PER_MSEC;
    var n := nsec + nsecs;
    if n >= NSEC_PER_SEC then (sec + secs + 1, n - NSEC_PER_SEC) else (sec + secs, n)
  }

  /** `time_add(tp, milisecs)`, updating `*tp` in place. */
  method TimeAdd(tp: Timespec, ms: int)
    modifies tp
    ensures (tp.sec, tp.nsec) == Added(old(tp.sec), old(tp.nsec), ms)
  {
    var secs := CDiv(ms, MSEC_PER_SEC);
    var nsecs := CMod(ms, MSEC_PER_SEC) * NSEC_PER_MSEC;
    tp.nsec := tp.nsec + nsecs;
    if tp.nsec >= NSEC_PER_SEC {
      tp.nsec := tp.nsec - NSEC_PER_SEC;
      secs := secs + 1;
    }
    tp.sec := tp.sec + secs;
  }

  /** `time_after(tp)`: the clock reading `now` is past `*tp`. */
  function TimeAfter(tp: Timespec, now: Timespec): bool
    reads tp, now
  {
    if now.sec > tp.sec then true
    else if now.sec < tp.sec then false
    else now.nsec > tp.nsec
  }

  /** On normalised timespecs the field-by-field comparison of `time_after`
      is the comparison of the instants they denote. */
  lemma TimeAfterIsLater(tp: Timespec, now: Timespec)
    requires Normalized(tp.sec, tp.nsec) && Normalized(now.sec, now.nsec)
    ensures TimeAfter(tp, now) <==> Nanos(now.sec, now.nsec) > Nanos(tp.sec, tp.nsec)
  {
    if now.sec > tp.sec {
      assert now.sec * NSEC_PER_SEC >= tp.sec * NSEC_PER_SEC + NSEC_PER_SEC;
    } else if now.sec < tp.sec {
      assert tp.sec * NSEC_PER_SEC >= now.sec * NSEC_PER_SEC + NSEC_PER_SEC;
    }
  }

  /** `time_left(tp)`: the milliseconds from `now` until `*tp`, computed
      field by field with C's truncating division and clamped at zero.
      Whatever the fields hold, the result is zero once the deadline is
      reached, and otherwise within one millisecond of the time left. */
  function TimeLeft(tp: Timespec, now: Timespec): (r: int)
    reads tp, now
    ensures r >= 0
    ensures Nanos(tp.sec, tp.nsec) <= Nanos(now.sec, now.nsec) ==> r == 0
    ensures Nanos(tp.sec, tp.nsec) > Nanos(now.sec, now.nsec) ==>
      r * NSEC_PER_MSEC - NSEC_PER_MSEC < Nanos(tp.sec, tp.nsec) - Nanos(now.sec, now.nsec) < r * NSEC_PER_MSEC + NSEC_PER_MSEC
  {
    var res := (tp.sec - now.sec) * MSEC_PER_SEC + CDiv(tp.nsec - now.nsec, NSEC_PER_MSEC);
    if res < 0 then 0 else res
  }

  /** A deadline that `time_after` reports as passed has no time left. */
  lemma PassedDeadlineHasNoTimeLeft(tp: Timespec, now: Timespec)
    requires Normalized(tp.sec, tp.nsec) && Normalized(now.sec, now.nsec)
    requires TimeAfter(tp, now)
    ensures TimeLeft(tp, now) == 0
  {
    TimeAfterIsLater(tp, now);
  }
}
