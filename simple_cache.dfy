/** SimpleCache: three independent string-keyed stores (IP lookups, ASN
    lookups and a generic one) sharing one time-to-live, with lazy expiry:
    a stale entry reads as absent but stays stored until it is overwritten
    or the cache is cleared. */
module Cache {
  import opened JavaTime
  import opened Payloads

  /** Java's nullable reference: None is `null`. */
  datatype Option<T> = None | Some(value: T)

  /** Every entry of `m` was stored with time-to-live `ttl`. */
  ghost predicate StoredWith<T>(m: map<string, Payload<T>>, ttl: Duration) {
    forall key :: key in m ==> m[key].expiration == ttl
  }

  /** The read shared by getIp, getAsn and get: null when the key is missing
      or its payload has expired, the stored data otherwise. A hit therefore
      needs the clock, read as seconds, to be past the expiry instant. */
  function Lookup<T>(m: map<string, Payload<T>>, key: string, nowMillis: Long): (r: Option<T>)
    requires key in m ==> ExpiryDefined(m[key])
    ensures r.Some? <==> key in m && nowMillis * NANOS_PER_SECOND > ExpiryNanos(m[key])
    ensures r.Some? ==> r.value == m[key].data
  {
    if key !in m || HasExpired(m[key], nowMillis) then None else Some(m[key].data)
  }

  /** The same read under the intended staleness rule. */
  function IntendedLookup<T>(m: map<string, Payload<T>>, key: string, nowMillis: int): (r: Option<T>)
    ensures r.Some? <==> key in m && nowMillis * NANOS_PER_MILLI < ExpiryNanos(m[key])
    ensures r.Some? ==> r.value == m[key].data
  {
    if key !in m || IntendedExpired(m[key], nowMillis) then None else Some(m[key].data)
  }

  /** One call that changes a single store: a set of `key` whose clock
      reading was `creation`, or a clear. */
  datatype Event<T> = Write(key: string, data: T, creation: Instant) | Wipe

  /** The effect of one event on a store whose cache has duration `ttl`. */
  function Apply<T>(m: map<string, Payload<T>>, ttl: Duration, e: Event<T>): (r: map<string, Payload<T>>)
    ensures e.Wipe? ==> r == map[]
    ensures e.Write? ==> r.Keys == m.Keys + {e.key} && r[e.key] == Payload(e.data, e.creation, ttl)
    ensures e.Write? ==> forall k :: k in m && k != e.key ==> r[k] == m[k]
  {
    if e.Write? then m[e.key := Payload(e.data, e.creation, ttl)] else map[]
  }

  class SimpleCache<IPResponse, ASNResponse, Value> {
    const duration: Duration
    var asnCache: map<string, Payload<ASNResponse>>
    var ipCache: map<string, Payload<IPResponse>>
    var cache: map<string, Payload<Value>>

    /** Every stored payload carries the cache's one duration. */
    ghost predicate Valid()
      reads this
    {
      StoredWith(ipCache, duration) && StoredWith(asnCache, duration) && StoredWith(cache, duration)
    }

    constructor (duration: Duration)
      ensures this.duration == duration
      ensures ipCache == map[] && asnCache == map[] && cache == map[]
      ensures Valid()
    {
      this.duration := duration;
      asnCache := map[];
      ipCache := map[];
      cache := map[];
    }

    function GetIp(ip: string, nowMillis: Long): (r: Option<IPResponse>)
      reads this
      requires ip in ipCache ==> ExpiryDefined(ipCache[ip])
      ensures r.Some? <==> ip in ipCache && nowMillis * NANOS_PER_SECOND > ExpiryNanos(ipCache[ip])
      ensures r.Some? ==> r.value == ipCache[ip].data
    {
      Lookup(ipCache, ip, nowMillis)
    }

    function GetAsn(asn: string, nowMillis: Long): (r: Option<ASNResponse>)
      reads this
      requires asn in asnCache ==> ExpiryDefined(asnCache[asn])
      ensures r.Some? <==> asn in asnCache && nowMillis * NANOS_PER_SECOND > ExpiryNanos(asnCache[asn])
      ensures r.Some? ==> r.value == asnCache[asn].data
    {
      Lookup(asnCache, asn, nowMillis)
    }

    function Get(key: string, nowMillis: Long): (r: Option<Value>)
      reads this
      requires key in cache ==> ExpiryDefined(cache[key])
      ensures r.Some? <==> key in cache && nowMillis * NANOS_PER_SECOND > ExpiryNanos(cache[key])
      ensures r.Some? ==> r.value == cache[key].data
    {
      Lookup(cache, key, nowMillis)
    }

    /** Store `response` under `ip`, stamped with `creation` (the clock
        reading Instant.now() takes) and the cache's duration. */
    method SetIp(ip: string, response: IPResponse, creation: Instant) returns (ok: bool)
      requires Valid()
      modifies this`ipCache
      ensures Valid()
      ensures ok
      ensures ipCache == Apply(old(ipCache), duration, Write(ip, response, creation))
      ensures asnCache == old(asnCache) && cache == old(cache)
    {
      ipCache := ipCache[ip := Payload(response, creation, duration)];
      ok := true;
    }

    method SetAsn(asn: string, response: ASNResponse, creation: Instant) returns (ok: bool)
      requires Valid()
      modifies this`asnCache
      ensures Valid()
      ensures ok
      ensures asnCache == Apply(old(asnCache), duration, Write(asn, response, creation))
      ensures ipCache == old(ipCache) && cache == old(cache)
    {
      asnCache := asnCache[asn := Payload(response, creation, duration)];
      ok := true;
    }

    method Set(key: string, val: Value, creation: Instant) returns (ok: bool)
      requires Valid()
      modifies this`cache
      ensures Valid()
      ensures ok
      ensures cache == Apply(old(cache), duration, Write(key, val, creation))
      ensures ipCache == old(ipCache) && asnCache == old(asnCache)
    {
      cache := cache[key := Payload(val, creation, duration)];
      ok := true;
    }

    method Clear() returns (ok: bool)
      modifies this`ipCache, this`asnCache, this`cache
      ensures Valid()
      ensures ok
      ensures ipCache == map[] && asnCache == map[] && cache == map[]
      ensures ipCache == Apply(old(ipCache), duration, Wipe)
      ensures asnCache == Apply(old(asnCache), duration, Wipe)
      ensures cache == Apply(old(cache), duration, Wipe)
    {
      ipCache := map[];
      asnCache := map[];
      cache := map[];
      ok := true;
    }
  }

  /** A key never written, or gone after clear(), reads as null. */
  lemma MissingKeyReadsNull<T>(m: map<string, Payload<T>>, key: string, nowMillis: Long)
    requires key !in m
    ensures Lookup(m, key, nowMillis) == None
  {
  }

  /** Right after a write, a read returns the written value exactly when
      the new payload has not expired at read time, and null otherwise. */
  lemma ReadAfterWrite<T>(m: map<string, Payload<T>>, key: string, data: T,
                          creation: Instant, ttl: Duration, nowMillis: Long)
    requires PlusDefined(creation, ttl)
    ensures var p := Payload(data, creation, ttl);
            Lookup(m[key := p], key, nowMillis) == if HasExpired(p, nowMillis) then None else Some(data)
  {
  }

  /** A second write replaces the first: the read sees only the newer payload. */
  lemma OverwriteReplaces<T>(m: map<string, Payload<T>>, key: string, first: Payload<T>,
                             second: Payload<T>, nowMillis: Long)
    requires ExpiryDefined(second)
    requires first.data != second.data
    ensures Lookup(m[key := first][key := second], key, nowMillis) == Lookup(m[key := second], key, nowMillis)
    ensures Lookup(m[key := first][key := second], key, nowMillis) != Some(first.data)
  {
  }

  /** A write at one key leaves the read at every other key as it was. */
  lemma WriteLeavesOtherKeys<T>(m: map<string, Payload<T>>, key: string, other: string,
                                p: Payload<T>, nowMillis: Long)
    requires other != key
    requires other in m ==> ExpiryDefined(m[other])
    ensures Lookup(m[key := p], other, nowMillis) == Lookup(m, other, nowMillis)
  {
  }

  /** In practice a written value is always served back: read at or after
      its creation, with a time-to-live under 999 times the epoch time. */
  lemma WrittenValueServedAfterward<T>(m: map<string, Payload<T>>, key: string, data: T,
                                       creation: Instant, ttl: Duration, nowMillis: Long)
    requires PlusDefined(creation, ttl)
    requires DurationNanos(ttl) < 999 * EpochNanos(creation)
    requires nowMillis * NANOS_PER_MILLI >= EpochNanos(creation)
    ensures Lookup(m[key := Payload(data, creation, ttl)], key, nowMillis) == Some(data)
  {
    NeverExpiresAfterCreation(Payload(data, creation, ttl), nowMillis);
  }

  /** Under the intended rule a write made at `creation` is served strictly
      before creation + ttl and is absent from then on. */
  lemma IntendedReadAfterWrite<T>(m: map<string, Payload<T>>, key: string, data: T,
                                  creation: Instant, ttl: Duration, nowMillis: int)
    ensures nowMillis * NANOS_PER_MILLI < EpochNanos(creation) + DurationNanos(ttl) ==>
              IntendedLookup(m[key := Payload(data, creation, ttl)], key, nowMillis) == Some(data)
    ensures nowMillis * NANOS_PER_MILLI >= EpochNanos(creation) + DurationNanos(ttl) ==>
              IntendedLookup(m[key := Payload(data, creation, ttl)], key, nowMillis) == None
  {
  }

  /** Under the intended rule a value that reads as absent stays absent. */
  lemma IntendedMissStaysMissed<T>(m: map<string, Payload<T>>, key: string, earlier: int, later: int)
    requires earlier <= later
    requires IntendedLookup(m, key, earlier) == None
    ensures IntendedLookup(m, key, later) == None
  {
    if key in m {
      IntendedExpiredMonotone(m[key], earlier, later);
    }
  }
}
