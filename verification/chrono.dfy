/**
  The parts of chrono's `DateTime<Utc>` and `Duration` (`TimeDelta`) that the
  time reduction uses, with both kept as whole nanoseconds.

  A `Duration` holds at most `i64::MAX` milliseconds either way, which is far
  more than `i64::MAX` nanoseconds: a duration longer than about 292 years has
  no nanosecond count, and asking for one yields `None`. An `Instant` counts
  nanoseconds from the Unix epoch; neither the calendar range chrono places
  on it nor its leap-second instants (23:59:60) are modelled.
 */
module Chrono {
  import opened Int64

  const NanosPerMilli: int := 1_000_000
  const NanosPerSecond: int := 1_000_000_000

  /** The longest duration chrono can represent, in nanoseconds. */
  const MaxDurationNs: int := I64Max * NanosPerMilli

  type DurationNs = n: int | -MaxDurationNs <= n <= MaxDurationNs

  datatype Duration = Duration(ns: DurationNs)

  datatype Instant = Instant(ns: int)

  datatype Option<T> = None | Some(value: T)

  /** `Duration::num_nanoseconds`: the length in nanoseconds when it fits in
      an `i64`, `None` otherwise. */
  function NumNanoseconds(d: Duration): (r: Option<int>)
    ensures r.Some? <==> InI64(d.ns)
    ensures r.Some? ==> r.value == d.ns
  {
    if InI64(d.ns) then Some(d.ns) else None
  }

  /** `Duration::num_seconds`: the number of whole seconds, truncated toward
      zero (a negative duration of 1.5 s counts as -1 s). */
  function NumSeconds(d: Duration): (s: int)
    ensures Abs(d.ns - s * NanosPerSecond) < NanosPerSecond
    ensures d.ns >= 0 ==> 0 <= s * NanosPerSecond <= d.ns
    ensures d.ns <= 0 ==> d.ns <= s * NanosPerSecond <= 0
  {
    TruncDivBounds(d.ns, NanosPerSecond);
    TruncDiv(d.ns, NanosPerSecond)
  }

  /** Every duration's whole-second count is an `i64`: chrono caps durations
      at `i64::MAX` milliseconds. */
  lemma NumSecondsInI64(d: Duration)
    ensures InI64(NumSeconds(d))
    ensures Abs(NumSeconds(d)) * NanosPerSecond <= Abs(d.ns)
  {
  }

  /** Counting whole seconds is monotone on non-negative durations. */
  lemma NumSecondsMonotone(a: Duration, b: Duration)
    requires 0 <= a.ns <= b.ns
    ensures 0 <= NumSeconds(a) <= NumSeconds(b)
    ensures NumSeconds(b) == b.ns / NanosPerSecond
  {
  }

  /** `Duration::nanoseconds(n)`: every `i64` nanosecond count is a valid
      duration. */
  function Nanoseconds(n: int): (d: Duration)
    requires InI64(n)
    ensures d.ns == n
  {
    Duration(n)
  }

  /** `DateTime - DateTime`: the signed duration from `since` to `t`. The
      caller shows it is representable, which chrono's calendar range
      guarantees. */
  function Elapsed(t: Instant, since: Instant): (d: Duration)
    requires -MaxDurationNs <= t.ns - since.ns <= MaxDurationNs
    ensures Advance(since, d) == t
  {
    Duration(t.ns - since.ns)
  }

  /** `Duration - Duration`, which panics when the difference leaves the
      representable range; the caller shows it does not. */
  function Minus(a: Duration, b: Duration): (d: Duration)
    requires -MaxDurationNs <= a.ns - b.ns <= MaxDurationNs
    ensures d.ns + b.ns == a.ns
  {
    Duration(a.ns - b.ns)
  }

  /** `DateTime + Duration`: the instant `d` after `t`. */
  function Advance(t: Instant, d: Duration): (r: Instant)
    ensures r.ns - t.ns == d.ns
  {
    Instant(t.ns + d.ns)
  }
}
