/** The order deduplicator: a TTL cache of accepted responses, the set of keys being
    dispatched, a hit counter and a sweep gated by one atomic timestamp.

    Instants are nanoseconds since the deduplicator was created.  An operation of the source
    that reads the clock more than once takes one instant per reading. */
module OrderDedup {
  import opened Wrappers

  type Key = string     // hex digest of account, TR code and canonical request
  type Value = string   // the accepted response as JSON text

  const TWO_TO_64: nat := 0x1_0000_0000_0000_0000
  const NANOS_PER_MILLI: nat := 1_000_000
  const SWEEP_INTERVAL_MILLIS: nat := 30_000
  const DEFAULT_TTL: nat := 300_000 * NANOS_PER_MILLI

  datatype CacheEntry = CacheEntry(value: Value, inserted: nat)

  type Cache = map<Key, CacheEntry>

  /** Time since `instant`, zero when the clock is not past it. */
  function Elapsed(instant: nat, now: nat): nat {
    if now >= instant then now - instant else 0
  }

  predicate Live(entry: CacheEntry, now: nat, ttl: nat) {
    Elapsed(entry.inserted, now) < ttl
  }

  /** The live value of `key`, if any: the read of the lookup's first phase. */
  function LiveValue(cache: Cache, key: Key, now: nat, ttl: nat): Option<Value> {
    if key in cache && Live(cache[key], now, ttl) then Some(cache[key].value) else None
  }

  /** Drop the entry of `key` unless it is live, re-judged at `now`. */
  function EvictExpired(cache: Cache, key: Key, now: nat, ttl: nat): Cache {
    if key in cache && !Live(cache[key], now, ttl) then cache - {key} else cache
  }

  /** Keep the live entries only. */
  function Retain(cache: Cache, now: nat, ttl: nat): Cache {
    map key | key in cache && Live(cache[key], now, ttl) :: cache[key]
  }

  /** The sweep clock: whole milliseconds, cut to 64 bits. */
  function Millis(now: nat): nat {
    (now / NANOS_PER_MILLI) % TWO_TO_64
  }

  predicate SweepDue(nowMillis: nat, last: nat) {
    nowMillis >= last && nowMillis - last >= SWEEP_INTERVAL_MILLIS
  }

  /** A 64-bit counter after one increment. */
  function Bump(counter: nat): nat {
    (counter + 1) % TWO_TO_64
  }

  /** `cache` answers every lookup from `now` on as `written` does, where `written` holds the
      last entry ever inserted for each key and never evicts. */
  ghost predicate Agrees(cache: Cache, written: Cache, now: nat, ttl: nat) {
    && (forall key :: key in cache ==> key in written && cache[key] == written[key])
    && (forall key :: key in written && Live(written[key], now, ttl) ==> key in cache)
  }

  lemma AgreesAnswers(cache: Cache, written: Cache, key: Key, now: nat, ttl: nat)
    requires Agrees(cache, written, now, ttl)
    ensures LiveValue(cache, key, now, ttl) == LiveValue(written, key, now, ttl)
  {
  }

  lemma AgreesLater(cache: Cache, written: Cache, now: nat, later: nat, ttl: nat)
    requires Agrees(cache, written, now, ttl) && now <= later
    ensures Agrees(cache, written, later, ttl)
  {
    forall key | key in written && Live(written[key], later, ttl)
      ensures Live(written[key], now, ttl)
    {
    }
  }

  /** Milliseconds since the start, as a 64-bit counter holds them. */
  function WholeMillis(now: nat): nat {
    (now / 1_000_000) % 0x1_0000_0000_0000_0000
  }

  /** Half a minute has passed since the last sweep. */
  predicate Overdue(now: nat, last: nat) {
    last + 30_000 <= WholeMillis(now)
  }

  class OrderDeduplicator {
    var cache: Cache
    var inFlight: set<Key>
    const ttl: nat
    var lastSweepMillis: nat
    var hits: nat
    ghost var written: Cache

    ghost predicate Valid(now: nat)
      reads this
    {
      Agrees(cache, written, now, ttl)
    }

    constructor (ttl: nat)
      ensures this.ttl == ttl && Valid(0)
      ensures cache == map[] && inFlight == {} && written == map[]
      ensures lastSweepMillis == 0 && hits == 0
    {
      this.ttl := ttl;
      cache, inFlight, written := map[], {}, map[];
      lastSweepMillis, hits := 0, 0;
    }

    /** A hit is the last write for the key while its age is below the TTL; a miss drops the
        entry if it is still expired when the second phase re-checks it. */
    method Get(key: Key, readAt: nat, evictAt: nat) returns (r: Option<Value>)
      requires Valid(readAt) && readAt <= evictAt
      modifies this`cache, this`hits
      ensures Valid(evictAt)
      ensures r == LiveValue(written, key, readAt, ttl)
      ensures r.Some? ==> cache == old(cache) && hits == Bump(old(hits))
      ensures r.None? ==> hits == old(hits) && cache == EvictExpired(old(cache), key, evictAt, ttl)
    {
      AgreesAnswers(cache, written, key, readAt, ttl);
      AgreesLater(cache, written, readAt, evictAt, ttl);
      r := LiveValue(cache, key, readAt, ttl);
      if r.Some? {
        hits := Bump(hits);
        return;
      }
      cache := EvictExpired(cache, key, evictAt, ttl);
    }

    /** After a sweep that was due, nothing but live entries and the new one remain. */
    method Insert(key: Key, value: Value, sweepAt: nat, insertAt: nat)
      requires Valid(sweepAt) && sweepAt <= insertAt
      modifies this`cache, this`lastSweepMillis, this`written
      ensures Valid(insertAt)
      ensures written == old(written)[key := CacheEntry(value, insertAt)]
      ensures key in cache && cache[key] == CacheEntry(value, insertAt)
      ensures Overdue(sweepAt, old(lastSweepMillis)) ==>
                && lastSweepMillis == WholeMillis(sweepAt)
                && forall k :: k in cache && k != key ==> Live(cache[k], sweepAt, ttl)
      ensures !Overdue(sweepAt, old(lastSweepMillis)) ==>
                && lastSweepMillis == old(lastSweepMillis)
                && cache == old(cache)[key := CacheEntry(value, insertAt)]
    {
      SweepExpiredIfDue(sweepAt);
      AgreesLater(cache, written, sweepAt, insertAt, ttl);
      cache := cache[key := CacheEntry(value, insertAt)];
      written := written[key := CacheEntry(value, insertAt)];
    }

    method SweepExpiredIfDue(now: nat)
      requires Valid(now)
      modifies this`cache, this`lastSweepMillis
      ensures Valid(now)
      ensures if Overdue(now, old(lastSweepMillis))
              then lastSweepMillis == WholeMillis(now) && cache == Retain(old(cache), now, ttl)
              else lastSweepMillis == old(lastSweepMillis) && cache == old(cache)
    {
      if !SweepDue(Millis(now), lastSweepMillis) {
        return;
      }
      lastSweepMillis := Millis(now);
      cache := Retain(cache, now, ttl);
    }

    /** Granted exactly when the key is not being dispatched; a refusal counts as a hit. */
    method TryReserve(key: Key) returns (granted: bool)
      modifies this`inFlight, this`hits
      ensures granted <==> key !in old(inFlight)
      ensures inFlight == old(inFlight) + {key}
      ensures hits == if granted then old(hits) else Bump(old(hits))
    {
      granted := key !in inFlight;
      if granted {
        inFlight := inFlight + {key};
      } else {
        hits := Bump(hits);
      }
    }

    /** Dropping the reservation guard. */
    method Release(key: Key)
      modifies this`inFlight
      ensures inFlight == old(inFlight) - {key}
    {
      inFlight := inFlight - {key};
    }

    method HitCount() returns (count: nat)
      ensures count == hits
    {
      count := hits;
    }
  }
}
