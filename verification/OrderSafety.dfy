/** What every run of order calls keeps, and what only await-granular runs keep. */
module OrderSafety {
  import opened Wrappers
  import opened OrderDedup
  import opened OrderProtocol

  // ----- Reservations -----

  ghost predicate Exclusive(s: State) {
    forall i: nat, j: nat, key :: Holder(s, i, key) && Holder(s, j, key) ==> i == j
  }

  /** The reservation set is exactly the keys of the calls holding a guard. */
  ghost predicate Reserved(s: State) {
    && (forall i: nat, key :: Holder(s, i, key) ==> key in s.inFlight)
    && (forall key :: key in s.inFlight ==> exists i: nat :: Holder(s, i, key))
  }

  /** An event moves the control point of its own call only. */
  lemma OthersStay(s: State, e: Event, j: nat)
    requires Enabled(s, e) && j < |s.calls| && (e.Tick? || e.SetOrdersEnabled? || e.i != j)
    ensures |Apply(s, e).calls| == |s.calls| && Apply(s, e).calls[j] == s.calls[j]
  {
  }

  lemma OwnRequest(s: State, e: Event)
    requires Enabled(s, e) && !e.Tick? && !e.SetOrdersEnabled?
    ensures |Apply(s, e).calls| == |s.calls| && Apply(s, e).calls[e.i].request == s.calls[e.i].request
  {
  }

  lemma OwnHolder(s: State, e: Event)
    requires Enabled(s, e) && !e.Tick? && !e.SetOrdersEnabled? && s.calls[e.i].request.Order?
    ensures Holds(Apply(s, e).calls[e.i].pc) <==>
              (Holds(s.calls[e.i].pc) && !e.DropGuard?) || (e.TryReserve? && s.calls[e.i].request.key !in s.inFlight)
  {
  }

  /** Only a granted reservation makes a holder, and only the guard's drop unmakes one. */
  lemma HolderStep(s: State, e: Event, j: nat, key: Key)
    requires Enabled(s, e)
    ensures Holder(Apply(s, e), j, key) <==>
            || (Holder(s, j, key) && e != DropGuard(j))
            || (e == TryReserve(j) && s.calls[j].request.key == key && key !in s.inFlight)
  {
    if e.Tick? || e.SetOrdersEnabled? {
      assert Apply(s, e).calls == s.calls;
    } else {
      OwnRequest(s, e);
      if s.calls[e.i].request.Order? {
        OwnHolder(s, e);
      }
      if j < |s.calls| && j != e.i {
        OthersStay(s, e, j);
      }
    }
  }

  lemma ReservationsStep(s: State, e: Event)
    requires Exclusive(s) && Reserved(s) && Enabled(s, e)
    ensures Exclusive(Apply(s, e)) && Reserved(Apply(s, e))
  {
    var t := Apply(s, e);
    forall j: nat, key ensures Holder(t, j, key) <==>
            || (Holder(s, j, key) && e != DropGuard(j))
            || (e == TryReserve(j) && s.calls[j].request.key == key && key !in s.inFlight)
    {
      HolderStep(s, e, j, key);
    }
    assert e.DropGuard? ==> Holder(s, e.i, s.calls[e.i].request.key);
    InFlightStep(s, e);
    forall key | key in t.inFlight ensures exists j: nat :: Holder(t, j, key) {
      if key in s.inFlight {
        var j: nat :| Holder(s, j, key);
        assert Holder(t, j, key);
      } else {
        assert Holder(t, e.i, key);
      }
    }
  }

  lemma InFlightStep(s: State, e: Event)
    requires Enabled(s, e)
    ensures Apply(s, e).inFlight ==
            if e.TryReserve? then s.inFlight + {s.calls[e.i].request.key}
            else if e.DropGuard? then s.inFlight - {s.calls[e.i].request.key}
            else s.inFlight
  {
  }

  // ----- The hit counter -----

  predicate SuppressedDuplicate(pc: Pc) {
    pc.Done? && (pc.result.ServedFromCache? || pc.result.DuplicateOrder?)
  }

  /** Calls answered from the cache or refused as duplicates. */
  function Suppressed(calls: seq<Call>): nat {
    if calls == [] then 0
    else Suppressed(calls[..|calls| - 1]) + if SuppressedDuplicate(calls[|calls| - 1].pc) then 1 else 0
  }

  lemma {:induction false} SuppressedUpdate(calls: seq<Call>, i: nat, call: Call)
    requires i < |calls|
    ensures Suppressed(calls[i := call])
         == Suppressed(calls)
            - (if SuppressedDuplicate(calls[i].pc) then 1 else 0)
            + (if SuppressedDuplicate(call.pc) then 1 else 0)
  {
    var n := |calls| - 1;
    if i == n {
      assert calls[i := call][..n] == calls[..n];
    } else {
      assert calls[i := call][..n] == calls[..n][i := call];
      SuppressedUpdate(calls[..n], i, call);
    }
  }

  lemma {:induction false} SuppressedInitially(calls: seq<Call>)
    requires forall i :: 0 <= i < |calls| ==> calls[i].pc == Idle
    ensures Suppressed(calls) == 0
  {
    if calls != [] {
      SuppressedInitially(calls[..|calls| - 1]);
    }
  }

  lemma BumpCount(n: nat)
    ensures Bump(n % TWO_TO_64) == (n + 1) % TWO_TO_64
  {
  }

  /** The counter is the number of suppressed duplicates, modulo its width. */
  ghost predicate HitsCounted(s: State) {
    && s.hits == Suppressed(s.calls) % TWO_TO_64
    && forall i :: 0 <= i < |s.calls| && s.calls[i].pc.Drop? ==>
         !SuppressedDuplicate(Done(s.calls[i].pc.result))
  }

  lemma OnlyOwnCall(s: State, e: Event)
    requires Enabled(s, e) && !e.Tick? && !e.SetOrdersEnabled?
    ensures Apply(s, e).calls == s.calls[e.i := Apply(s, e).calls[e.i]]
  {
  }

  lemma HitsDelta(s: State, e: Event)
    requires Enabled(s, e) && !e.Tick? && !e.SetOrdersEnabled?
    requires s.calls[e.i].pc.Drop? ==> !SuppressedDuplicate(Done(s.calls[e.i].pc.result))
    ensures var t := Apply(s, e);
      t.hits == if SuppressedDuplicate(t.calls[e.i].pc) then Bump(s.hits) else s.hits
  {
  }

  lemma DropsUncounted(s: State, e: Event)
    requires Enabled(s, e) && !e.Tick? && !e.SetOrdersEnabled?
    requires s.calls[e.i].pc.Drop? ==> !SuppressedDuplicate(Done(s.calls[e.i].pc.result))
    ensures var t := Apply(s, e); t.calls[e.i].pc.Drop? ==> !SuppressedDuplicate(Done(t.calls[e.i].pc.result))
    ensures !SuppressedDuplicate(s.calls[e.i].pc)
  {
  }

  lemma HitsCore(s: State, t: State, i: nat)
    requires HitsCounted(s) && i < |s.calls| && i < |t.calls|
    requires t.calls == s.calls[i := t.calls[i]] && !SuppressedDuplicate(s.calls[i].pc)
    requires t.hits == if SuppressedDuplicate(t.calls[i].pc) then Bump(s.hits) else s.hits
    requires t.calls[i].pc.Drop? ==> !SuppressedDuplicate(Done(t.calls[i].pc.result))
    ensures HitsCounted(t)
  {
    SuppressedUpdate(s.calls, i, t.calls[i]);
    BumpCount(Suppressed(s.calls));
  }

  lemma HitsStep(s: State, e: Event)
    requires Enabled(s, e) && HitsCounted(s)
    ensures HitsCounted(Apply(s, e))
  {
    if !(e.Tick? || e.SetOrdersEnabled?) {
      OnlyOwnCall(s, e);
      HitsDelta(s, e);
      DropsUncounted(s, e);
      HitsCore(s, Apply(s, e), e.i);
    }
  }

  // ----- The cache against a map that never evicts -----

  /** Stamps never run ahead of the clock, and a call about to write holds a stamp no older
      than the last one written for its key. */
  ghost predicate Stamped(s: State) {
    && (forall key :: key in s.written ==> s.written[key].inserted <= s.now)
    && (forall i: nat, key :: Holder(s, i, key) && s.calls[i].pc.Write? ==>
          && s.calls[i].pc.stamp <= s.now
          && (key in s.written ==> s.written[key].inserted <= s.calls[i].pc.stamp))
    && (forall n :: 0 <= n < |s.log| && s.log[n].Stored? ==>
          && s.log[n].key in s.written
          && s.log[n].entry.inserted <= s.written[s.log[n].key].inserted)
  }

  lemma StampedWrite(s: State, e: Event)
    requires Exclusive(s) && Stamped(s) && Enabled(s, e) && e.WriteEntry?
    ensures Stamped(Apply(s, e))
  {
    var t := Apply(s, e);
    var own := s.calls[e.i].request.key;
    assert Holder(s, e.i, own);
    forall i: nat, key | Holder(t, i, key) && t.calls[i].pc.Write?
      ensures t.calls[i].pc.stamp <= t.now && key != own
    {
      assert Holder(s, i, key);
    }
  }

  /** What no event but a write changes for the stamps. */
  ghost predicate KeepsStamps(s: State, t: State) {
    && t.written == s.written && s.now <= t.now
    && (t.log == s.log || exists r: Record :: !r.Stored? && t.log == s.log + [r])
    && forall i: nat, key :: Holder(t, i, key) && t.calls[i].pc.Write? ==>
         (Holder(s, i, key) && s.calls[i].pc == t.calls[i].pc) || t.calls[i].pc.stamp == s.now
  }

  lemma OtherEffects(s: State, e: Event)
    requires Enabled(s, e) && !e.WriteEntry?
    ensures KeepsStamps(s, Apply(s, e))
  {
    var t := Apply(s, e);
    assert t.log != s.log ==> t.log == s.log + [t.log[|s.log|]];
    forall i: nat, key | Holder(t, i, key) && t.calls[i].pc.Write?
      ensures (Holder(s, i, key) && s.calls[i].pc == t.calls[i].pc) || t.calls[i].pc.stamp == s.now
    {
      if e.Tick? || e.SetOrdersEnabled? || e.i != i {
        OthersStay(s, e, i);
      }
    }
  }

  lemma StampedOther(s: State, t: State)
    requires Stamped(s) && KeepsStamps(s, t)
    ensures Stamped(t)
  {
  }

  lemma StampedStep(s: State, e: Event)
    requires Exclusive(s) && Stamped(s) && Enabled(s, e)
    ensures Stamped(Apply(s, e))
  {
    if e.WriteEntry? {
      StampedWrite(s, e);
    } else {
      OtherEffects(s, e);
      StampedOther(s, Apply(s, e));
    }
  }

  lemma AgreesStep(s: State, e: Event)
    requires Stamped(s) && Agrees(s.cache, s.written, s.now, s.ttl) && Enabled(s, e)
    ensures var t := Apply(s, e); Agrees(t.cache, t.written, t.now, t.ttl)
  {
    if e.Tick? {
      AgreesLater(s.cache, s.written, s.now, e.to, s.ttl);
    }
  }

  // ----- Where cached values come from -----

  /** The log shows call `i` receiving an accepting acknowledgement carrying `value`. */
  ghost predicate Acknowledged(log: seq<Record>, i: nat, value: Value) {
    exists n :: 0 <= n < |log| && log[n].Replied? && log[n].call == i
      && log[n].reply.SuccessStatus? && IsOrderSuccess(log[n].reply.code)
      && log[n].reply.response == Some(value)
  }

  predicate Inserting(pc: Pc) {
    pc.SweepClock? || pc.SweepLoad? || pc.SweepCas? || pc.Sweeping? || pc.Stamp? || pc.Write?
  }

  /** Every value on its way into the cache was acknowledged to its call. */
  ghost predicate PendingEarned(s: State) {
    forall i :: 0 <= i < |s.calls| && Inserting(s.calls[i].pc) ==> Acknowledged(s.log, i, s.calls[i].pc.value)
  }

  /** Every value stored was acknowledged to its call before it was stored. */
  ghost predicate StoredEarned(log: seq<Record>) {
    forall n :: 0 <= n < |log| && log[n].Stored? ==> Acknowledged(log[..n], log[n].call, log[n].entry.value)
  }

  ghost predicate StoredInLog(log: seq<Record>, key: Key, entry: CacheEntry) {
    exists n :: 0 <= n < |log| && log[n].Stored? && log[n].key == key && log[n].entry == entry
  }

  ghost predicate Earned(s: State) {
    && PendingEarned(s)
    && StoredEarned(s.log)
    && forall key :: key in s.written ==> StoredInLog(s.log, key, s.written[key])
  }

  /** An event appends at most one record. */
  lemma LogStep(s: State, e: Event)
    requires Enabled(s, e)
    ensures Apply(s, e).log == s.log || (exists r :: Apply(s, e).log == s.log + [r])
  {
  }

  lemma AcknowledgedGrows(log: seq<Record>, more: seq<Record>, i: nat, value: Value)
    requires Acknowledged(log, i, value) && log <= more
    ensures Acknowledged(more, i, value)
  {
    var n :| 0 <= n < |log| && log[n].Replied? && log[n].call == i
      && log[n].reply.SuccessStatus? && IsOrderSuccess(log[n].reply.code)
      && log[n].reply.response == Some(value);
    assert more[n] == log[n];
  }

  lemma SameCallCount(s: State, e: Event)
    requires Enabled(s, e)
    ensures |Apply(s, e).calls| == |s.calls|
  {
  }

  lemma ReceiveEffect(s: State, e: Event)
    requires Enabled(s, e) && e.Receive?
    ensures var t, result := Apply(s, e), ClassifyReply(e.reply);
      && e.i < |t.calls|
      && t.calls[e.i].pc == (if result.Placed? && e.cacheable then SweepClock(result.value) else Drop(result))
      && t.log == s.log + [Replied(e.i, s.calls[e.i].request.key, e.reply)]
  {
  }

  lemma ValueKept(s: State, e: Event)
    requires Enabled(s, e) && !e.Tick? && !e.SetOrdersEnabled? && !e.Receive?
    requires e.i < |Apply(s, e).calls| && Inserting(Apply(s, e).calls[e.i].pc)
    ensures Inserting(s.calls[e.i].pc) && Apply(s, e).calls[e.i].pc.value == s.calls[e.i].pc.value
  {
    if !Inserting(s.calls[e.i].pc) {
      NotYetInserting(s, e);
    }
  }

  lemma NotYetInserting(s: State, e: Event)
    requires Enabled(s, e) && !e.Tick? && !e.SetOrdersEnabled? && !e.Receive? && !Inserting(s.calls[e.i].pc)
    ensures e.i < |Apply(s, e).calls| && !Inserting(Apply(s, e).calls[e.i].pc)
  {
  }

  /** A value on its way into the cache after a step was on its way before, or has just been
      acknowledged. */
  lemma InsertingBefore(s: State, e: Event, i: nat)
    requires Enabled(s, e) && i < |Apply(s, e).calls| && Inserting(Apply(s, e).calls[i].pc)
    ensures var t := Apply(s, e);
      && i < |s.calls|
      && (|| (Inserting(s.calls[i].pc) && t.calls[i].pc.value == s.calls[i].pc.value)
          || (e.Receive? && i == e.i && ClassifyReply(e.reply) == Placed(t.calls[i].pc.value)
              && t.log == s.log + [Replied(i, s.calls[i].request.key, e.reply)]))
  {
    if e.Tick? || e.SetOrdersEnabled? || e.i != i {
      SameCallCount(s, e);
      OthersStay(s, e, i);
    } else if e.Receive? {
      ReceiveEffect(s, e);
    } else {
      ValueKept(s, e);
    }
  }

  lemma PlacedIsAcknowledged(log: seq<Record>, i: nat, key: Key, reply: Reply, value: Value)
    requires ClassifyReply(reply) == Placed(value)
    ensures Acknowledged(log + [Replied(i, key, reply)], i, value)
  {
    assert (log + [Replied(i, key, reply)])[|log|] == Replied(i, key, reply);
  }

  lemma PendingEarnedStep(s: State, e: Event)
    requires PendingEarned(s) && Enabled(s, e)
    ensures PendingEarned(Apply(s, e))
  {
    var t := Apply(s, e);
    LogStep(s, e);
    forall i: nat | i < |t.calls| && Inserting(t.calls[i].pc)
      ensures Acknowledged(t.log, i, t.calls[i].pc.value)
    {
      InsertingBefore(s, e, i);
      if Inserting(s.calls[i].pc) && t.calls[i].pc.value == s.calls[i].pc.value {
        AcknowledgedGrows(s.log, t.log, i, s.calls[i].pc.value);
      } else {
        PlacedIsAcknowledged(s.log, i, s.calls[i].request.key, e.reply, t.calls[i].pc.value);
      }
    }
  }

  lemma StoredEarnedStep(s: State, e: Event)
    requires PendingEarned(s) && StoredEarned(s.log) && Enabled(s, e)
    ensures StoredEarned(Apply(s, e).log)
  {
    var log := Apply(s, e).log;
    LogStep(s, e);
    forall n | 0 <= n < |log| && log[n].Stored?
      ensures Acknowledged(log[..n], log[n].call, log[n].entry.value)
    {
      if n < |s.log| {
        assert log[n] == s.log[n] && log[..n] == s.log[..n];
      } else {
        assert e.WriteEntry? && log[..n] == s.log;
      }
    }
  }

  lemma WrittenStoredStep(s: State, e: Event)
    requires Earned(s) && Enabled(s, e)
    ensures var t := Apply(s, e); forall key :: key in t.written ==> StoredInLog(t.log, key, t.written[key])
  {
    var t := Apply(s, e);
    LogStep(s, e);
    forall key | key in t.written
      ensures StoredInLog(t.log, key, t.written[key])
    {
      WrittenBefore(s, e, key);
      if key in s.written && t.written[key] == s.written[key] {
        StoredInLogGrows(s.log, t.log, key, s.written[key]);
      } else {
        assert t.log[|s.log|] == Stored(e.i, key, t.written[key]);
      }
    }
  }

  lemma WrittenBefore(s: State, e: Event, key: Key)
    requires Enabled(s, e) && key in Apply(s, e).written
    ensures var t := Apply(s, e);
      || (key in s.written && t.written[key] == s.written[key])
      || (e.WriteEntry? && t.log == s.log + [Stored(e.i, key, t.written[key])])
  {
  }

  lemma StoredInLogGrows(log: seq<Record>, more: seq<Record>, key: Key, entry: CacheEntry)
    requires StoredInLog(log, key, entry) && log <= more
    ensures StoredInLog(more, key, entry)
  {
    var n :| 0 <= n < |log| && log[n].Stored? && log[n].key == key && log[n].entry == entry;
    assert more[n] == log[n];
  }

  // ----- Sweeps -----

  /** A pending compare-exchange moves the timestamp forward by a whole interval, and so did
      every one that succeeded. */
  ghost predicate SweepsSpaced(s: State) {
    && (forall i :: 0 <= i < |s.calls| && s.calls[i].pc.SweepCas? ==>
          SweepDue(s.calls[i].pc.nowMillis, s.calls[i].pc.last))
    && (forall n :: 0 <= n < |s.log| && s.log[n].Swept? ==> s.log[n].at <= s.lastSweep)
    && (forall m, n :: 0 <= m < n < |s.log| && s.log[m].Swept? && s.log[n].Swept? ==>
          s.log[m].at + SWEEP_INTERVAL_MILLIS <= s.log[n].at)
  }

  /** A successful compare-exchange records the new time, a whole interval after the old. */
  ghost predicate SweepsForward(s: State, t: State) {
    || (t.lastSweep == s.lastSweep && (t.log == s.log || exists r: Record :: !r.Swept? && t.log == s.log + [r]))
    || (s.lastSweep + SWEEP_INTERVAL_MILLIS <= t.lastSweep && t.log == s.log + [Swept(t.lastSweep)])
  }

  lemma SweepEffects(s: State, e: Event)
    requires SweepsSpaced(s) && Enabled(s, e)
    ensures SweepsForward(s, Apply(s, e))
  {
    var t := Apply(s, e);
    assert t.log != s.log ==> t.log == s.log + [t.log[|s.log|]];
  }

  lemma SweepPending(s: State, e: Event)
    requires SweepsSpaced(s) && Enabled(s, e)
    ensures var t := Apply(s, e);
      forall i :: 0 <= i < |t.calls| && t.calls[i].pc.SweepCas? ==>
        SweepDue(t.calls[i].pc.nowMillis, t.calls[i].pc.last)
  {
  }

  lemma SweepsCore(s: State, t: State)
    requires SweepsSpaced(s) && SweepsForward(s, t)
    requires forall i :: 0 <= i < |t.calls| && t.calls[i].pc.SweepCas? ==>
        SweepDue(t.calls[i].pc.nowMillis, t.calls[i].pc.last)
    ensures SweepsSpaced(t)
  {
    forall m, n | 0 <= m < n < |t.log| && t.log[m].Swept? && t.log[n].Swept?
      ensures t.log[m].at + SWEEP_INTERVAL_MILLIS <= t.log[n].at
    {
      assert t.log[m] == s.log[m];
    }
  }

  lemma SweepsStep(s: State, e: Event)
    requires SweepsSpaced(s) && Enabled(s, e)
    ensures SweepsSpaced(Apply(s, e))
  {
    SweepEffects(s, e);
    SweepPending(s, e);
    SweepsCore(s, Apply(s, e));
  }

  // ----- Every interleaving -----

  ghost predicate Inv(s: State) {
    && Exclusive(s)
    && Reserved(s)
    && HitsCounted(s)
    && Stamped(s)
    && Agrees(s.cache, s.written, s.now, s.ttl)
    && Earned(s)
    && SweepsSpaced(s)
  }

  lemma {:induction false} RunInv(run: seq<State>, events: seq<Event>, n: nat)
    requires IsRun(run, events) && n <= |events|
    ensures Inv(run[n])
  {
    if n == 0 {
      SuppressedInitially(run[0].calls);
    } else {
      RunInv(run, events, n - 1);
      var s, e := run[n - 1], events[n - 1];
      ReservationsStep(s, e);
      HitsStep(s, e);
      StampedStep(s, e);
      AgreesStep(s, e);
      PendingEarnedStep(s, e);
      StoredEarnedStep(s, e);
      WrittenStoredStep(s, e);
      SweepsStep(s, e);
    }
  }

  // ----- Main results for every interleaving -----

  /** The reservation set is the keys of the guard holders, no key has two, and whatever is
      sent is sent by a holder. */
  lemma ReservationsExact(run: seq<State>, events: seq<Event>, n: nat)
    requires IsRun(run, events) && n <= |events|
    ensures forall key :: key in run[n].inFlight <==> exists i: nat :: Holder(run[n], i, key)
    ensures forall i: nat, j: nat, key :: Holder(run[n], i, key) && Holder(run[n], j, key) ==> i == j
    ensures n < |events| && events[n].Send? ==>
              Holder(run[n], events[n].i, run[n].calls[events[n].i].request.key)
  {
    RunInv(run, events, n);
  }

  lemma HitCounterExact(run: seq<State>, events: seq<Event>, n: nat)
    requires IsRun(run, events) && n <= |events|
    ensures run[n].hits == Suppressed(run[n].calls) % TWO_TO_64
  {
    RunInv(run, events, n);
  }

  lemma LiveKept(s: State, e: Event, key: Key)
    requires Enabled(s, e) && key in s.cache && Live(s.cache[key], Apply(s, e).now, s.ttl)
    ensures key in Apply(s, e).cache
  {
  }

  lemma LookupAnswers(s: State, e: Event)
    requires Enabled(s, e) && e.ReadCache? && Agrees(s.cache, s.written, s.now, s.ttl)
    ensures var answer := LiveValue(s.written, s.calls[e.i].request.key, s.now, s.ttl);
      Apply(s, e).calls[e.i].pc == if answer.Some? then CountHit(answer.value) else Evict
  {
    AgreesAnswers(s.cache, s.written, s.calls[e.i].request.key, s.now, s.ttl);
  }

  /** A lookup finds exactly what a map that never evicts would answer, and no event takes a
      live entry away. */
  lemma CacheRefinesNeverEvicting(run: seq<State>, events: seq<Event>, n: nat)
    requires IsRun(run, events) && n < |events|
    ensures events[n].ReadCache? ==>
              var s, i := run[n], events[n].i;
              var answer := LiveValue(s.written, s.calls[i].request.key, s.now, s.ttl);
              run[n + 1].calls[i].pc == if answer.Some? then CountHit(answer.value) else Evict
    ensures forall key :: key in run[n].cache && Live(run[n].cache[key], run[n + 1].now, run[n].ttl)
              ==> key in run[n + 1].cache
  {
    RunInv(run, events, n);
    if events[n].ReadCache? {
      LookupAnswers(run[n], events[n]);
    }
    forall key | key in run[n].cache && Live(run[n].cache[key], run[n + 1].now, run[n].ttl)
      ensures key in run[n + 1].cache
    {
      LiveKept(run[n], events[n], key);
    }
  }

  lemma SweepsThirtySecondsApart(run: seq<State>, events: seq<Event>, a: nat, b: nat)
    requires IsRun(run, events)
    requires var log := run[|events|].log; a < b < |log| && log[a].Swept? && log[b].Swept?
    ensures run[|events|].log[a].at + 30_000 <= run[|events|].log[b].at
  {
    RunInv(run, events, |events|);
  }

  /** Rejected and ambiguous outcomes are never cached: a cached entry was put there by a call
      that had already received an order acknowledgement carrying that very value. */
  lemma OnlyAcknowledgedIsCached(run: seq<State>, events: seq<Event>, n: nat, key: Key)
    requires IsRun(run, events) && n <= |events| && key in run[n].cache
    ensures exists m ::
              && 0 <= m < |run[n].log| && run[n].log[m].Stored?
              && run[n].log[m].key == key && run[n].log[m].entry == run[n].cache[key]
              && Acknowledged(run[n].log[..m], run[n].log[m].call, run[n].cache[key].value)
  {
    RunInv(run, events, n);
    assert StoredInLog(run[n].log, key, run[n].written[key]);
  }

  // ----- The kill switch -----

  /** A call that has not passed the kill switch, or was stopped by it. */
  predicate NotAdmitted(pc: Pc) {
    pc == Idle || pc == Done(Halted)
  }

  ghost predicate SilentUntilAdmitted(s: State) {
    && (forall i :: 0 <= i < |s.calls| && s.calls[i].pc.Drop? ==> s.calls[i].pc.result != Halted)
    && (forall i, n :: 0 <= i < |s.calls| && NotAdmitted(s.calls[i].pc) && 0 <= n < |s.log| ==>
          !(s.log[n].Dispatched? && s.log[n].call == i))
  }

  lemma AdmissionStep(s: State, e: Event, i: nat)
    requires Enabled(s, e) && i < |s.calls| && (s.calls[i].pc.Drop? ==> s.calls[i].pc.result != Halted)
    ensures |Apply(s, e).calls| == |s.calls|
    ensures NotAdmitted(Apply(s, e).calls[i].pc) ==> NotAdmitted(s.calls[i].pc) && !(e.Send? && e.i == i)
  {
    if e.Tick? || e.SetOrdersEnabled? || e.i != i {
      OthersStay(s, e, i);
    }
  }

  lemma DropsNeverHalted(s: State, e: Event)
    requires Enabled(s, e) && forall i :: 0 <= i < |s.calls| && s.calls[i].pc.Drop? ==> s.calls[i].pc.result != Halted
    ensures var t := Apply(s, e);
      forall i :: 0 <= i < |t.calls| && t.calls[i].pc.Drop? ==> t.calls[i].pc.result != Halted
  {
  }

  /** The dispatch a step records, if any, is that of the call sending. */
  lemma DispatchesOwn(s: State, e: Event)
    requires Enabled(s, e)
    ensures var log := Apply(s, e).log;
      log == s.log || exists r: Record :: log == s.log + [r] && (r.Dispatched? ==> e.Send? && r.call == e.i)
  {
    var log := Apply(s, e).log;
    assert log != s.log ==> log == s.log + [log[|s.log|]];
  }

  lemma SilentStep(s: State, e: Event)
    requires SilentUntilAdmitted(s) && Enabled(s, e)
    ensures SilentUntilAdmitted(Apply(s, e))
  {
    var t := Apply(s, e);
    DropsNeverHalted(s, e);
    DispatchesOwn(s, e);
    forall i, n | 0 <= i < |t.calls| && NotAdmitted(t.calls[i].pc) && 0 <= n < |t.log|
      ensures !(t.log[n].Dispatched? && t.log[n].call == i)
    {
      AdmissionStep(s, e, i);
      if n < |s.log| {
        assert t.log[n] == s.log[n];
      }
    }
  }

  lemma {:induction false} RunSilent(run: seq<State>, events: seq<Event>, n: nat)
    requires IsRun(run, events) && n <= |events|
    ensures SilentUntilAdmitted(run[n])
  {
    if n > 0 {
      RunSilent(run, events, n - 1);
      SilentStep(run[n - 1], events[n - 1]);
    }
  }

  lemma HaltedStays(s: State, e: Event, i: nat)
    requires Enabled(s, e) && i < |s.calls| && s.calls[i].pc == Done(Halted)
    ensures i < |Apply(s, e).calls| && Apply(s, e).calls[i].pc == Done(Halted)
  {
  }

  lemma {:induction false} HaltedForGood(run: seq<State>, events: seq<Event>, n: nat, m: nat, i: nat)
    requires IsRun(run, events) && n <= m <= |events| && i < |run[n].calls| && run[n].calls[i].pc == Done(Halted)
    ensures i < |run[m].calls| && run[m].calls[i].pc == Done(Halted)
  {
    if n < m {
      HaltedForGood(run, events, n, m - 1, i);
      HaltedStays(run[m - 1], events[m - 1], i);
    }
  }

  /** A call that starts while orders are disabled is refused, stays refused, and has sent
      nothing at any later point of the run. */
  lemma KillSwitchHalts(run: seq<State>, events: seq<Event>, n: nat, m: nat)
    requires IsRun(run, events) && n < m <= |events| && events[n].Start? && !run[n].enabled
    ensures var i := events[n].i;
      && run[n + 1] == run[n].(calls := run[n].calls[i := run[n].calls[i].(pc := Done(Halted))])
      && i < |run[m].calls| && run[m].calls[i].pc == Done(Halted)
      && forall k :: 0 <= k < |run[m].log| ==> !(run[m].log[k].Dispatched? && run[m].log[k].call == i)
  {
    HaltedForGood(run, events, n + 1, m, events[n].i);
    RunSilent(run, events, m);
  }

  // ----- Await-granular runs -----

  predicate Stale(s: State, key: Key) {
    LiveValue(s.cache, key, s.now, s.ttl).None?
  }

  /** One call at most is between awaits, and a key that is reserved or about to be has no
      live entry until its own call has written one. */
  ghost predicate Quiet(s: State) {
    && (forall i, j ::
          0 <= i < |s.calls| && 0 <= j < |s.calls| && Busy(s.calls[i].pc) && Busy(s.calls[j].pc) ==> i == j)
    && (forall i: nat, key :: Holder(s, i, key) && !s.calls[i].pc.Drop? ==> Stale(s, key))
    && (forall i ::
          (0 <= i < |s.calls| && s.calls[i].request.Order? && (s.calls[i].pc.Evict? || s.calls[i].pc.Reserve?)) ==>
            Stale(s, s.calls[i].request.key))
  }

  /** Nothing but a write of the key itself brings an entry to life. */
  lemma StaleStep(s: State, e: Event, key: Key)
    requires Enabled(s, e) && Stale(s, key)
    requires e.WriteEntry? ==> s.calls[e.i].request.key != key
    ensures Stale(Apply(s, e), key)
  {
  }

  lemma QuietBusy(s: State, e: Event)
    requires Quiet(s) && Enabled(s, e) && Cooperative(s, e)
    ensures var t := Apply(s, e);
      forall i, j :: 0 <= i < |t.calls| && 0 <= j < |t.calls| && Busy(t.calls[i].pc) && Busy(t.calls[j].pc) ==> i == j
  {
    var t := Apply(s, e);
    forall i: nat | i < |s.calls| && (e.Tick? || e.SetOrdersEnabled? || e.i != i) ensures t.calls[i] == s.calls[i] {
      OthersStay(s, e, i);
    }
  }

  lemma QuietHolders(s: State, e: Event, i: nat, key: Key)
    requires Exclusive(s) && Quiet(s) && Enabled(s, e)
    requires Holder(Apply(s, e), i, key) && !Apply(s, e).calls[i].pc.Drop?
    ensures Stale(Apply(s, e), key)
  {
    HolderStep(s, e, i, key);
    if e.WriteEntry? {
      assert Holder(s, e.i, s.calls[e.i].request.key);
    }
    assert Stale(s, key);
    StaleStep(s, e, key);
  }

  /** A call about to evict or reserve was between awaits before, or has just missed. */
  lemma LookupsBefore(s: State, e: Event, i: nat)
    requires Enabled(s, e) && i < |s.calls| && s.calls[i].request.Order?
    requires var pc := Apply(s, e).calls[i].pc; pc.Evict? || pc.Reserve?
    ensures if e.Tick? || e.SetOrdersEnabled? || e.i != i then s.calls[i].pc == Apply(s, e).calls[i].pc
            else (e.ReadCache? && Stale(s, s.calls[i].request.key)) || s.calls[i].pc.Evict? || s.calls[i].pc.Reserve?
  {
    if e.Tick? || e.SetOrdersEnabled? || e.i != i {
      OthersStay(s, e, i);
    }
  }

  lemma QuietLookups(s: State, e: Event, i: nat)
    requires Quiet(s) && Enabled(s, e) && Cooperative(s, e) && i < |s.calls| && s.calls[i].request.Order?
    requires var pc := Apply(s, e).calls[i].pc; pc.Evict? || pc.Reserve?
    ensures Stale(Apply(s, e), s.calls[i].request.key)
  {
    LookupsBefore(s, e, i);
    assert Stale(s, s.calls[i].request.key);
    StaleStep(s, e, s.calls[i].request.key);
  }

  lemma RequestsFixed(s: State, e: Event)
    requires Enabled(s, e)
    ensures |Apply(s, e).calls| == |s.calls|
    ensures forall i :: 0 <= i < |s.calls| ==> Apply(s, e).calls[i].request == s.calls[i].request
  {
  }

  lemma QuietStep(s: State, e: Event)
    requires Exclusive(s) && Quiet(s) && Enabled(s, e) && Cooperative(s, e)
    ensures Quiet(Apply(s, e))
  {
    var t := Apply(s, e);
    QuietBusy(s, e);
    RequestsFixed(s, e);
    forall i: nat, key | Holder(t, i, key) && !t.calls[i].pc.Drop? ensures Stale(t, key) {
      QuietHolders(s, e, i, key);
    }
    forall i | 0 <= i < |t.calls| && t.calls[i].request.Order? && (t.calls[i].pc.Evict? || t.calls[i].pc.Reserve?)
      ensures Stale(t, t.calls[i].request.key)
    {
      QuietLookups(s, e, i);
    }
  }

  lemma {:induction false} CooperativeInv(run: seq<State>, events: seq<Event>, n: nat)
    requires CooperativeRun(run, events) && n <= |events|
    ensures Inv(run[n]) && Quiet(run[n])
  {
    RunInv(run, events, n);
    if n > 0 {
      CooperativeInv(run, events, n - 1);
      QuietStep(run[n - 1], events[n - 1]);
    }
  }

  /** Wherever the calls can be switched, a key in flight has no live cache entry. */
  lemma InFlightNeverLive(run: seq<State>, events: seq<Event>, n: nat, key: Key)
    requires CooperativeRun(run, events) && n <= |events|
    requires forall i :: 0 <= i < |run[n].calls| ==> !Busy(run[n].calls[i].pc)
    requires key in run[n].inFlight
    ensures LiveValue(run[n].cache, key, run[n].now, run[n].ttl).None?
  {
    CooperativeInv(run, events, n);
    var i: nat :| Holder(run[n], i, key);
    assert Stale(run[n], key);
  }

  lemma {:induction false} TtlConstant(run: seq<State>, events: seq<Event>, n: nat)
    requires IsRun(run, events) && n <= |events|
    ensures run[n].ttl == run[0].ttl
  {
    if n > 0 {
      TtlConstant(run, events, n - 1);
    }
  }
}
