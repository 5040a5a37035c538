/** SimpleCache.Payload: a cached value together with the instant it was
    stored and the time-to-live it was stored with, and the staleness test
    the cache applies to it on every read. */
module Payloads {
  import opened JavaTime

  /** An entry; `creation` is the clock reading taken when the entry was made. */
  datatype Payload<T> = Payload(data: T, creation: Instant, expiration: Duration)

  /** The instant creation + expiration, in epoch nanoseconds. */
  function ExpiryNanos<T>(p: Payload<T>): int {
    EpochNanos(p.creation) + DurationNanos(p.expiration)
  }

  /** hasExpired() returns normally exactly when creation + expiration is an Instant. */
  predicate ExpiryDefined<T>(p: Payload<T>) {
    PlusDefined(p.creation, p.expiration)
  }

  /** hasExpired() as written: the expiry instant is read in whole epoch
      SECONDS, the clock in epoch MILLISECONDS, and the entry counts as
      expired while the clock reading is at or below the expiry seconds. */
  function HasExpired<T>(p: Payload<T>, nowMillis: Long): (expired: bool)
    requires ExpiryDefined(p)
    ensures expired <==> nowMillis * NANOS_PER_SECOND <= ExpiryNanos(p)
    ensures expired <==> nowMillis <= ExpiryNanos(p) / NANOS_PER_SECOND
  {
    var time := InstantSeconds(Plus(p.creation, p.expiration));
    InstantSecondsIsFloor(Plus(p.creation, p.expiration));
    nowMillis <= time
  }

  /** The rule the cache is meant to follow: an entry is stale once the
      current instant is at or past creation + time-to-live. */
  predicate IntendedExpired<T>(p: Payload<T>, nowMillis: int) {
    nowMillis * NANOS_PER_MILLI >= ExpiryNanos(p)
  }

  /** Under the intended rule an entry, once stale, stays stale. */
  lemma IntendedExpiredMonotone<T>(p: Payload<T>, earlier: int, later: int)
    requires earlier <= later
    ensures IntendedExpired(p, earlier) ==> IntendedExpired(p, later)
  {
    assert earlier * NANOS_PER_MILLI <= later * NANOS_PER_MILLI;
  }

  /** Under the rule as written time runs the other way: an entry reported
      expired at some clock reading is reported expired at every earlier one. */
  lemma HasExpiredAntitone<T>(p: Payload<T>, earlier: Long, later: Long)
    requires ExpiryDefined(p)
    requires earlier <= later
    ensures HasExpired(p, later) ==> HasExpired(p, earlier)
  {
    assert earlier * NANOS_PER_SECOND <= later * NANOS_PER_SECOND;
  }

  /** With a positive clock reading the two rules never both say "expired":
      whenever the code reports an entry expired, the entry is still fresh. */
  lemma ExpiredOnlyWhenFresh<T>(p: Payload<T>, nowMillis: Long)
    requires ExpiryDefined(p)
    requires nowMillis > 0
    ensures HasExpired(p, nowMillis) ==> !IntendedExpired(p, nowMillis)
  {
    if HasExpired(p, nowMillis) {
      assert nowMillis * NANOS_PER_MILLI < nowMillis * NANOS_PER_SECOND;
    }
  }

  /** Entries never expire in practice: read at or after its creation, an
      entry whose time-to-live is under 999 times its epoch time is never
      reported expired (5 minutes against today's epoch time is far below). */
  lemma NeverExpiresAfterCreation<T>(p: Payload<T>, nowMillis: Long)
    requires ExpiryDefined(p)
    requires DurationNanos(p.expiration) < 999 * EpochNanos(p.creation)
    requires nowMillis * NANOS_PER_MILLI >= EpochNanos(p.creation)
    ensures !HasExpired(p, nowMillis)
  {
    var c := EpochNanos(p.creation);
    assert ExpiryNanos(p) < 1000 * c;
    assert 1000 * c <= 1000 * (nowMillis * NANOS_PER_MILLI);
    assert ExpiryNanos(p) < nowMillis * NANOS_PER_SECOND;
  }

  /** A five-minute entry stored at epoch second 1_700_000_000 is still served
      ten minutes later, although the intended rule calls it stale. */
  lemma StaleEntryServed()
    ensures var p := Payload(0, Instant(1_700_000_000, 0), Duration(300, 0));
            var now := 1_700_000_600_000;
            ExpiryDefined(p) && !HasExpired(p, now) && IntendedExpired(p, now)
  {
    var p := Payload(0, Instant(1_700_000_000, 0), Duration(300, 0));
    NeverExpiresAfterCreation(p, 1_700_000_600_000);
  }

  /** A five-minute entry stored at the epoch is refused 100 milliseconds
      later, although the intended rule calls it fresh. */
  lemma FreshEntryRefused()
    ensures var p := Payload(0, Instant(0, 0), Duration(300, 0));
            ExpiryDefined(p) && HasExpired(p, 100) && !IntendedExpired(p, 100)
  {
  }
}
