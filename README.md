# SimpleCache in Dafny

A model of `SimpleCache`, the in-memory cache of the IPinfo Java client.
The cache holds three independent string-keyed stores: IP lookup results
(`ipCache`), ASN lookup results (`asnCache`) and a generic store (`cache`).
All three share one time-to-live `duration`, which is fixed when the cache is
constructed. A write wraps the value in a `Payload` stamped with the current
instant and that duration. A read returns null when the key is missing or the
payload has expired, and the stored value otherwise. A read never removes a
stale entry. `clear()` empties all three stores.

Files:

- `java_time.dfy` (module `JavaTime`) models the parts of `java.time` that the
  expiry check depends on. `Instant` and `Duration` are each a count of whole
  seconds plus a nanosecond adjustment. `Plus` is `Duration.addTo`: it adds
  the seconds, then the nanoseconds, and carries into the seconds.
  `InstantSeconds` is `getLong(ChronoField.INSTANT_SECONDS)`.
- `payload.dfy` (module `Payloads`) holds `Payload<T>` and `hasExpired()`,
  modelled exactly as written. It also holds the intended staleness rule,
  `IntendedExpired`, and lemmas that compare the two rules.
- `simple_cache.dfy` (module `Cache`) holds the class `SimpleCache`. Its three
  `map` fields are updated by `SetIp`/`SetAsn`/`Set`/`Clear`, and its reads
  `GetIp`/`GetAsn`/`Get` are functions. The module also has lemmas about
  reads and writes on one store.
- `history.dfy` (module `History`) follows one store through any sequence
  of set and clear calls. `Cache.Apply` is the effect of one call on one
  store; the set methods state their new map through it, and `Clear`'s
  empty maps are its effect for a clear. `Replay` applies a whole sequence. The
  lemmas prove that an entry is created only by a set, is replaced by a
  later set of the same key, and disappears only on clear.

The clocks are parameters. `Instant.now()` becomes the `creation` argument of
each set method. `System.currentTimeMillis()` becomes the `nowMillis` argument
of each read and of `HasExpired`. Java's `null` result is `Option.None`. The
response types `IPResponse` and `ASNResponse`, and the generic `Object`, are
type parameters of the class.

The cache's reads use the staleness rule as the code writes it. That rule
compares the expiry instant in whole epoch seconds with the clock in epoch
milliseconds, and it reports "expired" while the clock is at or below the
expiry. `HasExpired` proves that this means
`nowMillis * 10^9 <= creation + duration` (in nanoseconds). So an entry read at or
after its creation is never reported expired, however late the read, unless
its TTL is at least 999 times its creation's epoch time; in practice it never
expires (`NeverExpiresAfterCreation`). Once served, an entry stays served at
every later clock reading (`HasExpiredAntitone`). The only entries it refuses
are ones read at an absurdly early clock, and with a positive clock every
one of them is among the entries the intended rule would serve
(`ExpiredOnlyWhenFresh`). The intended rule, "expired once now
is at or past creation + duration", is `IntendedExpired`, with
`IntendedLookup` as a read that uses it. See "## Findings".

## Model

| member | source | states |
|---|---|---|
| `JavaTime.Plus` | src/main/java/io/ipinfo/api/cache/SimpleCache.java:90 | `expiration.addTo(creation)` is the instant whose epoch nanoseconds are the creation's plus the duration's, whenever Java does not throw |
| `JavaTime.InstantSeconds` | src/main/java/io/ipinfo/api/cache/SimpleCache.java:90 | the `INSTANT_SECONDS` field is the whole second containing the instant |
| `JavaTime.InstantSecondsIsFloor` | src/main/java/io/ipinfo/api/cache/SimpleCache.java:90 | `INSTANT_SECONDS` is the floor of the epoch nanoseconds divided by 10^9 |
| `Payloads.HasExpired` | src/main/java/io/ipinfo/api/cache/SimpleCache.java:89-93 | `hasExpired()` is true exactly when the millisecond clock reading is at most the floor of creation + expiration in epoch seconds, i.e. when `nowMillis * 10^9 <= creation + expiration` in nanoseconds |
| `Payloads.HasExpiredAntitone` | src/main/java/io/ipinfo/api/cache/SimpleCache.java:89-93 | as written, an entry expired at some clock reading is also expired at every earlier reading (the comparison runs backwards in time) |
| `Payloads.ExpiredOnlyWhenFresh` | src/main/java/io/ipinfo/api/cache/SimpleCache.java:89-93 | for a positive clock reading, whenever `hasExpired()` is true the intended rule says the entry is still fresh |
| `Payloads.NeverExpiresAfterCreation` | src/main/java/io/ipinfo/api/cache/SimpleCache.java:89-93 | read at or after its creation, with a TTL under 999 times the creation's epoch time, `hasExpired()` is false |
| `Payloads.StaleEntryServed` | src/main/java/io/ipinfo/api/cache/SimpleCache.java:89-93 | a 5-minute entry created at epoch second 1700000000 is not expired 10 minutes later, though the intended rule says it is |
| `Payloads.FreshEntryRefused` | src/main/java/io/ipinfo/api/cache/SimpleCache.java:89-93 | a 5-minute entry created at the epoch is expired 100 ms later, though the intended rule says it is fresh |
| `Payloads.IntendedExpiredMonotone` | src/main/java/io/ipinfo/api/cache/SimpleCache.java:89-93 | under the intended rule, once an entry is stale it stays stale |
| `Cache.Lookup` | src/main/java/io/ipinfo/api/cache/SimpleCache.java:23-50 | a read hits exactly when the key is present and the clock (read as seconds) is past the expiry instant, and a hit returns the stored data |
| `Cache.IntendedLookup` | src/main/java/io/ipinfo/api/cache/SimpleCache.java:23-50 | the read under the intended rule hits exactly when the key is present and now is before creation + TTL |
| `Cache.SimpleCache.constructor` | src/main/java/io/ipinfo/api/cache/SimpleCache.java:13-20 | a new cache has the given duration and three empty stores |
| `Cache.SimpleCache.GetIp` | src/main/java/io/ipinfo/api/cache/SimpleCache.java:23-30 | `getIp` returns the stored IP response when the key is present and not expired, and null otherwise; it changes nothing |
| `Cache.SimpleCache.GetAsn` | src/main/java/io/ipinfo/api/cache/SimpleCache.java:32-40 | `getAsn` returns the stored ASN response when the key is present and not expired, and null otherwise; it changes nothing |
| `Cache.SimpleCache.Get` | src/main/java/io/ipinfo/api/cache/SimpleCache.java:42-50 | `get` returns the stored value when the key is present and not expired, and null otherwise; it changes nothing |
| `Cache.SimpleCache.SetIp` | src/main/java/io/ipinfo/api/cache/SimpleCache.java:53-56 | `setIp` returns true and maps the key to a payload of the response, the creation instant and the cache's duration; the other two stores and every other key are unchanged |
| `Cache.SimpleCache.SetAsn` | src/main/java/io/ipinfo/api/cache/SimpleCache.java:58-62 | `setAsn` returns true and changes only `asnCache`, only at the key, to a payload with the cache's duration |
| `Cache.SimpleCache.Set` | src/main/java/io/ipinfo/api/cache/SimpleCache.java:64-68 | `set` returns true and changes only `cache`, only at the key, to a payload with the cache's duration |
| `Cache.SimpleCache.Clear` | src/main/java/io/ipinfo/api/cache/SimpleCache.java:70-76 | `clear` returns true and leaves all three stores empty |
| `Cache.MissingKeyReadsNull` | src/main/java/io/ipinfo/api/cache/SimpleCache.java:23-50 | a key never written, or absent after `clear`, reads as null in any store |
| `Cache.ReadAfterWrite` | src/main/java/io/ipinfo/api/cache/SimpleCache.java:53-56 | after a write, a read of that key returns the written value exactly when the new payload has not expired, and null otherwise |
| `Cache.OverwriteReplaces` | src/main/java/io/ipinfo/api/cache/SimpleCache.java:53-56 | after two writes to one key, the read sees only the second payload and never the first value |
| `Cache.WriteLeavesOtherKeys` | src/main/java/io/ipinfo/api/cache/SimpleCache.java:53-68 | a write at one key leaves the read at every other key unchanged |
| `Cache.WrittenValueServedAfterward` | src/main/java/io/ipinfo/api/cache/SimpleCache.java:83-93 | a value written with a realistic clock and TTL is returned by every later read: the entry never expires |
| `Cache.Apply` | src/main/java/io/ipinfo/api/cache/SimpleCache.java:53-76 | one set call adds or replaces exactly its key with a payload carrying the cache's duration, leaving every other key as it was; one clear empties the store |
| `History.Replay` | src/main/java/io/ipinfo/api/cache/SimpleCache.java:53-76 | over any sequence of set and clear calls, every stored payload keeps carrying the cache's duration, and only keys that were set are ever present |
| `History.ReplayKeepsLastWrite` | src/main/java/io/ipinfo/api/cache/SimpleCache.java:53-87 | after any sequence of set and clear calls, a key holds the payload of its last set since the last clear, is absent if a clear followed every set of it, and is unchanged if no call touched it |
| `History.ReadAfterHistory` | src/main/java/io/ipinfo/api/cache/SimpleCache.java:23-76 | on a new cache after any sequence of set and clear calls, a read is null unless the key was set since the last clear, and then returns the last value set exactly when its payload has not expired |
| `Cache.IntendedReadAfterWrite` | src/main/java/io/ipinfo/api/cache/SimpleCache.java:89-93 | under the intended rule a write is served strictly before creation + TTL and absent from then on |
| `Cache.IntendedMissStaysMissed` | src/main/java/io/ipinfo/api/cache/SimpleCache.java:89-93 | under the intended rule a read that misses keeps missing at every later time |

The class invariant `Valid()` states that every payload in every store
carries the cache's `duration`. `duration` is a `const`, so it is never
reassigned. Every set method and `Clear` keeps `Valid()`.

## Left out

- Clocks: `Instant.now()` and `System.currentTimeMillis()` are not read; the model takes their values as parameters.
- `java.util.HashMap` internals: `put`, `get` and `clear` are Dafny `map` update, lookup and `map[]`.
- `IPResponse`, `ASNResponse` and `Object` are type parameters; their contents are not modelled.
- A stored Java `null` value: in Java, `setIp(k, null)` makes `getIp(k)` return null like a miss; here the stored value is returned as `Some`.
- A `null` key (which `HashMap` accepts) is not modelled; keys are strings.
- Thread safety: the maps are unsynchronised in the source and the model is sequential.
- The `DateTimeException`/`ArithmeticException` that `Duration.addTo` throws when creation + duration leaves the `Instant` range: `HasExpired` and the reads require `ExpiryDefined`, which holds exactly when Java does not throw.
- Java integer widths: `nowMillis` and `Duration` seconds are integers limited to the `long` range, and `Instant` seconds to the `Instant` range. The `long` comparison on line 92 cannot overflow, so it is a plain integer comparison.
- `Payload.getData` (lines 95-97) is unused by the cache and not modelled.
- The `Cache` interface and its other implementations are not part of this model.

## Findings

| source | as written | input that shows it | evidently intended | confidence | as-written member | corrected member |
|---|---|---|---|---|---|---|
| src/main/java/io/ipinfo/api/cache/SimpleCache.java:90-92 | the expiry instant is read in epoch seconds but compared with the clock in epoch milliseconds | TTL 300 s, created at epoch second 1700000000, read at 1700000600000 ms: served although 5 minutes stale | compare both sides in one unit | high, not executed | `Payloads.StaleEntryServed` | `Cache.IntendedLookup` |
| src/main/java/io/ipinfo/api/cache/SimpleCache.java:92 | `now <= time` reports "expired" while the clock is still before the expiry | TTL 300 s, created at the epoch, read at 100 ms: refused although fresh | expired once now is at or past creation + TTL | high, not executed | `Payloads.FreshEntryRefused` | `Cache.IntendedLookup` |

`IntendedLookup` is proved to serve a write strictly before creation + TTL and
to miss from then on (`IntendedReadAfterWrite`), and a miss stays a miss
(`IntendedMissStaysMissed`). The class itself keeps the rule as written,
because it models what the code does.
