/** The part of java.time that the cache's expiry check relies on: an Instant
    and a Duration, each held as whole seconds plus a nanosecond adjustment,
    the addition Duration.addTo performs, and the INSTANT_SECONDS field. */
module JavaTime {

  const NANOS_PER_SECOND: int := 1_000_000_000
  const NANOS_PER_MILLI: int := 1_000_000

  /** Instant.MIN / Instant.MAX, in epoch seconds. */
  const MIN_SECOND: int := -31_557_014_167_219_200
  const MAX_SECOND: int := 31_556_889_864_403_199

  /** A Java `long`. */
  type Long = x: int | -0x8000_0000_0000_0000 <= x < 0x8000_0000_0000_0000

  /** The nanosecond adjustment both classes keep normalised into one second. */
  type Nano = n: int | 0 <= n < NANOS_PER_SECOND

  predicate IsInstantSecond(s: int) {
    MIN_SECOND <= s <= MAX_SECOND
  }

  type InstantSecond = s: int | IsInstantSecond(s)

  /** java.time.Instant: epoch seconds and the nanoseconds within that second. */
  datatype Instant = Instant(seconds: InstantSecond, nano: Nano)

  /** java.time.Duration: whole seconds (any long) and the nanoseconds within that second. */
  datatype Duration = Duration(seconds: Long, nano: Nano)

  /** The instant as one count of nanoseconds since the epoch. */
  function EpochNanos(i: Instant): int {
    i.seconds * NANOS_PER_SECOND + i.nano
  }

  /** The duration as one count of nanoseconds. */
  function DurationNanos(d: Duration): int {
    d.seconds * NANOS_PER_SECOND + d.nano
  }

  /** Instant.getLong(ChronoField.INSTANT_SECONDS). */
  function InstantSeconds(i: Instant): (s: int)
    ensures s * NANOS_PER_SECOND <= EpochNanos(i) < (s + 1) * NANOS_PER_SECOND
  {
    i.seconds
  }

  /** Whether Duration.addTo(i) stays inside the Instant range at both of its
      steps (plusSeconds, then plusNanos); otherwise Java throws. */
  predicate PlusDefined(i: Instant, d: Duration) {
    && IsInstantSecond(i.seconds + d.seconds)
    && IsInstantSecond(i.seconds + d.seconds + (i.nano + d.nano) / NANOS_PER_SECOND)
  }

  /** Duration.addTo(i): add the whole seconds, then the nanoseconds, carrying
      an overflowing nanosecond count into the seconds (Instant.ofEpochSecond). */
  function Plus(i: Instant, d: Duration): (r: Instant)
    requires PlusDefined(i, d)
    ensures EpochNanos(r) == EpochNanos(i) + DurationNanos(d)
  {
    var afterSeconds := if d.seconds != 0 then Instant(i.seconds + d.seconds, i.nano) else i;
    if d.nano != 0 then
      var adjustment := afterSeconds.nano + d.nano;
      Instant(afterSeconds.seconds + adjustment / NANOS_PER_SECOND, adjustment % NANOS_PER_SECOND)
    else
      afterSeconds
  }

  /** INSTANT_SECONDS is the floor of the epoch nanoseconds in seconds. */
  lemma InstantSecondsIsFloor(i: Instant)
    ensures InstantSeconds(i) == EpochNanos(i) / NANOS_PER_SECOND
  {
    var s := InstantSeconds(i);
    var n := EpochNanos(i);
    assert n == s * NANOS_PER_SECOND + i.nano;
    assert n / NANOS_PER_SECOND == s;
  }
}
