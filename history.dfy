/** The lifecycle of the entries of one store: an entry is created only by a
    set call, is superseded by a later set on the same key and disappears
    only on clear(). A history is the sequence of those calls, oldest first. */
module History {
  import opened JavaTime
  import opened Payloads
  import opened Cache

  /** The store after every event of `history`, in order. */
  function Replay<T>(m: map<string, Payload<T>>, ttl: Duration, history: seq<Event<T>>): (r: map<string, Payload<T>>)
    ensures StoredWith(m, ttl) ==> StoredWith(r, ttl)
    ensures r.Keys <= m.Keys + set e | e in history && e.Write? :: e.key
  {
    if history == [] then m
    else
      var before := Replay(m, ttl, history[..|history| - 1]);
      var last := history[|history| - 1];
      assert forall e :: e in history[..|history| - 1] ==> e in history;
      Apply(before, ttl, last)
  }

  /** What a history last did to one key. */
  datatype Fate<T> = Untouched | Wiped | Written(data: T, creation: Instant)

  /** The most recent event that concerns `key`: its last write, unless a
      clear came after it. */
  function LastFate<T>(history: seq<Event<T>>, key: string): Fate<T> {
    if history == [] then Untouched
    else
      var last := history[|history| - 1];
      if last.Wipe? then Wiped
      else if last.key == key then Written(last.data, last.creation)
      else LastFate(history[..|history| - 1], key)
  }

  /** After a history, a key holds the payload of its last write since the
      last clear, with the cache's duration; it is absent if a clear came
      after every write to it; and it is as before if nothing touched it. */
  lemma {:induction false} ReplayKeepsLastWrite<T>(m: map<string, Payload<T>>, ttl: Duration,
                                                   history: seq<Event<T>>, key: string)
    ensures var r := Replay(m, ttl, history);
            var fate := LastFate(history, key);
            && (fate.Untouched? ==> (key in r <==> key in m) && (key in m ==> r[key] == m[key]))
            && (fate.Wiped? ==> key !in r)
            && (fate.Written? ==> key in r && r[key] == Payload(fate.data, fate.creation, ttl))
  {
    if history != [] {
      var last := history[|history| - 1];
      if last.Write? && last.key != key {
        ReplayKeepsLastWrite(m, ttl, history[..|history| - 1], key);
      }
    }
  }

  /** A read after any history that starts from an empty store (a new cache):
      null unless the key was written since the last clear, and then the
      last value written exactly when its payload has not expired. */
  lemma ReadAfterHistory<T>(ttl: Duration, history: seq<Event<T>>, key: string, nowMillis: Long)
    requires forall e :: e in history && e.Write? ==> PlusDefined(e.creation, ttl)
    ensures var r := Replay(map[], ttl, history);
            var fate := LastFate(history, key);
            && (!fate.Written? ==> key !in r)
            && (fate.Written? ==> key in r && r[key] == Payload(fate.data, fate.creation, ttl))
    ensures var r := Replay(map[], ttl, history);
            key in r ==> ExpiryDefined(r[key])
    ensures var r := Replay(map[], ttl, history);
            var fate := LastFate(history, key);
            fate.Written? ==>
              Lookup(r, key, nowMillis) == if HasExpired(r[key], nowMillis) then None else Some(fate.data)
  {
    ReplayKeepsLastWrite(map[], ttl, history, key);
    LastWriteOccurs(history, key);
  }

  /** A key's last write is one of the history's events. */
  lemma {:induction false} LastWriteOccurs<T>(history: seq<Event<T>>, key: string)
    ensures LastFate(history, key).Written? ==>
              Write(key, LastFate(history, key).data, LastFate(history, key).creation) in history
  {
    if history != [] && history[|history| - 1].Write? && history[|history| - 1].key != key {
      LastWriteOccurs(history[..|history| - 1], key);
    }
  }
}
