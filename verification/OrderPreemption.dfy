/** The run that shows why at-most-once needs the await boundary. */
module OrderPreemption {
  import opened Wrappers
  import opened OrderDedup
  import opened OrderProtocol

  /** `key` was sent again less than `ttl` after an accepted response to it was cached. */
  ghost predicate SentTwice(log: seq<Record>, key: Key, ttl: nat) {
    exists a, b :: 0 <= a < b < |log| && log[a].Stored? && log[b].Dispatched?
      && log[a].key == log[b].key == key
      && Elapsed(log[a].entry.inserted, log[b].at) < ttl
  }

  /** The await boundary is what the guarantee rests on.  Were a call preempted between its
      cache miss and its reservation, another could be accepted, cached and released in the
      gap, and both would send. */
  lemma PreemptedLookupSendsTwice(key: Key)
    ensures exists s :: Reachable(s) && s.ttl == 300_000_000_000 && SentTwice(s.log, key, s.ttl)
  {
    var entry := CacheEntry("ack", 0);
    var log := [Dispatched(0, key, 0), Replied(0, key, SuccessStatus("00040", Some("ack")))];
    MissSecond(key);
    MissThenHold(key);
    AcknowledgeFirst(key, log);
    SweepNotDue(key, log);
    StoreThenRelease(key, log);
    SendSecond(key, entry, log + [Stored(0, key, entry)]);
    var all := log + [Stored(0, key, entry)] + [Dispatched(1, key, 0)];
    assert all[2].Stored? && all[3].Dispatched?;
    assert SentTwice(all, key, DEFAULT_TTL);
    assert Reachable(TwoCalls(key, map[key := entry], {key}, Done(Placed("ack")), Sent, all));
  }

  ghost predicate Reachable(s: State) {
    exists run: seq<State>, events: seq<Event> :: IsRun(run, events) && run[|events|] == s
  }

  lemma ReachedBy(s: State, e: Event)
    requires Reachable(s) && Enabled(s, e)
    ensures Reachable(Apply(s, e))
  {
    var run: seq<State>, events: seq<Event> :| IsRun(run, events) && run[|events|] == s;
    var run', events' := run + [Apply(s, e)], events + [e];
    forall n | 0 <= n < |events'|
      ensures Enabled(run'[n], events'[n]) && run'[n + 1] == Apply(run'[n], events'[n])
    {
      if n < |events| {
        assert events'[n] == events[n] && run'[n] == run[n] && run'[n + 1] == run[n + 1];
      }
    }
    assert IsRun(run', events');
  }

  lemma Goto(s: State, e: Event, t: State)
    requires Reachable(s) && Enabled(s, e) && Apply(s, e) == t
    ensures Reachable(t)
  {
    ReachedBy(s, e);
  }

  /** Two calls for one order at time zero, the cache never having evicted. */
  function TwoCalls(key: Key, cache: Cache, inFlight: set<Key>, first: Pc, second: Pc, log: seq<Record>): State {
    State(DEFAULT_TTL, true, 0, cache, inFlight, 0, 0,
          [Call(Order(key), first), Call(Order(key), second)], cache, log)
  }

  lemma MissFirst(key: Key)
    requires Reachable(TwoCalls(key, map[], {}, Idle, Reserve, []))
    ensures Reachable(TwoCalls(key, map[], {}, Evict, Reserve, []))
  {
    Goto(TwoCalls(key, map[], {}, Idle, Reserve, []), Start(0), TwoCalls(key, map[], {}, Lookup, Reserve, []));
    Goto(TwoCalls(key, map[], {}, Lookup, Reserve, []), ReadCache(0), TwoCalls(key, map[], {}, Evict, Reserve, []));
  }

  lemma MissThenHold(key: Key)
    requires Reachable(TwoCalls(key, map[], {}, Idle, Reserve, []))
    ensures Reachable(TwoCalls(key, map[], {key}, Waiting, Reserve, []))
  {
    MissFirst(key);
    Goto(TwoCalls(key, map[], {}, Evict, Reserve, []), RemoveIfExpired(0),
      TwoCalls(key, map[], {}, Reserve, Reserve, []));
    Goto(TwoCalls(key, map[], {}, Reserve, Reserve, []), TryReserve(0),
      TwoCalls(key, map[], {key}, Waiting, Reserve, []));
  }

  lemma SweepNotDue(key: Key, log: seq<Record>)
    requires Reachable(TwoCalls(key, map[], {key}, SweepClock("ack"), Reserve, log))
    ensures Reachable(TwoCalls(key, map[], {key}, Stamp("ack"), Reserve, log))
  {
    assert Millis(0) == 0 && !SweepDue(0, 0);
    Goto(TwoCalls(key, map[], {key}, SweepClock("ack"), Reserve, log), ReadSweepClock(0),
         TwoCalls(key, map[], {key}, SweepLoad("ack", 0), Reserve, log));
    Goto(TwoCalls(key, map[], {key}, SweepLoad("ack", 0), Reserve, log), LoadLastSweep(0),
         TwoCalls(key, map[], {key}, Stamp("ack"), Reserve, log));
  }

  lemma StoreThenRelease(key: Key, log: seq<Record>)
    requires Reachable(TwoCalls(key, map[], {key}, Stamp("ack"), Reserve, log))
    ensures var entry := CacheEntry("ack", 0);
      Reachable(TwoCalls(key, map[key := entry], {}, Done(Placed("ack")), Reserve, log + [Stored(0, key, entry)]))
  {
    var entry := CacheEntry("ack", 0);
    var stored := log + [Stored(0, key, entry)];
    Goto(TwoCalls(key, map[], {key}, Stamp("ack"), Reserve, log), TakeStamp(0),
         TwoCalls(key, map[], {key}, Write("ack", 0), Reserve, log));
    Goto(TwoCalls(key, map[], {key}, Write("ack", 0), Reserve, log), WriteEntry(0),
         TwoCalls(key, map[key := entry], {key}, Drop(Placed("ack")), Reserve, stored));
    Goto(TwoCalls(key, map[key := entry], {key}, Drop(Placed("ack")), Reserve, stored), DropGuard(0),
         TwoCalls(key, map[key := entry], {}, Done(Placed("ack")), Reserve, stored));
  }

  lemma AcknowledgeFirst(key: Key, log: seq<Record>)
    requires Reachable(TwoCalls(key, map[], {key}, Waiting, Reserve, []))
    requires log == [Dispatched(0, key, 0), Replied(0, key, SuccessStatus("00040", Some("ack")))]
    ensures Reachable(TwoCalls(key, map[], {key}, SweepClock("ack"), Reserve, log))
  {
    Goto(TwoCalls(key, map[], {key}, Waiting, Reserve, []), Send(0),
         TwoCalls(key, map[], {key}, Sent, Reserve, log[..1]));
    Goto(TwoCalls(key, map[], {key}, Sent, Reserve, log[..1]), Receive(0, SuccessStatus("00040", Some("ack")), true),
         TwoCalls(key, map[], {key}, SweepClock("ack"), Reserve, log));
  }

  lemma SendSecond(key: Key, entry: CacheEntry, log: seq<Record>)
    requires Reachable(TwoCalls(key, map[key := entry], {}, Done(Placed("ack")), Reserve, log))
    ensures Reachable(TwoCalls(key, map[key := entry], {key}, Done(Placed("ack")), Sent, log + [Dispatched(1, key, 0)]))
  {
    Goto(TwoCalls(key, map[key := entry], {}, Done(Placed("ack")), Reserve, log), TryReserve(1),
         TwoCalls(key, map[key := entry], {key}, Done(Placed("ack")), Waiting, log));
    Goto(TwoCalls(key, map[key := entry], {key}, Done(Placed("ack")), Waiting, log), Send(1),
         TwoCalls(key, map[key := entry], {key}, Done(Placed("ack")), Sent, log + [Dispatched(1, key, 0)]));
  }

  lemma TwoIdle(key: Key)
    ensures Reachable(TwoCalls(key, map[], {}, Idle, Idle, []))
  {
    assert IsRun([TwoCalls(key, map[], {}, Idle, Idle, [])], []);
  }

  lemma MissSecond(key: Key)
    ensures Reachable(TwoCalls(key, map[], {}, Idle, Reserve, []))
  {
    TwoIdle(key);
    Goto(TwoCalls(key, map[], {}, Idle, Idle, []), Start(1), TwoCalls(key, map[], {}, Idle, Lookup, []));
    Goto(TwoCalls(key, map[], {}, Idle, Lookup, []), ReadCache(1), TwoCalls(key, map[], {}, Idle, Evict, []));
    Goto(TwoCalls(key, map[], {}, Idle, Evict, []), RemoveIfExpired(1), TwoCalls(key, map[], {}, Idle, Reserve, []));
  }
}
