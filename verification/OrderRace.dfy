/** When an order can be sent twice within the TTL, over every interleaving. */
module OrderRace {
  import opened OrderDedup
  import opened OrderProtocol
  import opened OrderSafety

  // ----- A sender's way to its send -----

  /** Call `i` missed at event `r` and has not reserved at state `n`. */
  ghost predicate LookedUp(run: seq<State>, events: seq<Event>, i: nat, r: nat, n: nat) {
    && r < n < |run| && r < |events| && events[r] == ReadCache(i)
    && forall m :: r < m <= n ==> i < |run[m].calls| && (run[m].calls[i].pc.Evict? || run[m].calls[i].pc.Reserve?)
  }

  /** Call `i` was granted its reservation at event `t` and has not sent at state `n`. */
  ghost predicate Granted(run: seq<State>, events: seq<Event>, i: nat, t: nat, n: nat) {
    && t < n < |run| && t < |events| && events[t] == TryReserve(i)
    && forall m :: t < m <= n ==> i < |run[m].calls| && run[m].calls[i].pc.Waiting?
  }

  lemma StepBack(s: State, e: Event, i: nat)
    requires Enabled(s, e) && i < |s.calls|
    ensures var pc := Apply(s, e).calls[i].pc;
      && (pc.Evict? || pc.Reserve? ==> s.calls[i].pc.Evict? || s.calls[i].pc.Reserve? || e == ReadCache(i))
      && (pc.Waiting? ==> s.calls[i].pc.Waiting? || (s.calls[i].pc.Reserve? && e == TryReserve(i)))
  {
    if e.Tick? || e.SetOrdersEnabled? || e.i != i {
      OthersStay(s, e, i);
    }
  }

  lemma {:induction false} CallsFixed(run: seq<State>, events: seq<Event>, m: nat, n: nat)
    requires IsRun(run, events) && m <= n <= |events|
    ensures |run[n].calls| == |run[m].calls|
    ensures forall i :: 0 <= i < |run[m].calls| ==> run[n].calls[i].request == run[m].calls[i].request
  {
    if m < n {
      CallsFixed(run, events, m, n - 1);
      RequestsFixed(run[n - 1], events[n - 1]);
    }
  }

  /** Where a call stands at a state of the run, one event earlier. */
  lemma PcBefore(run: seq<State>, events: seq<Event>, i: nat, n: nat)
    requires IsRun(run, events) && n <= |events| && i < |run[n].calls| && run[n].calls[i].pc != Idle
    ensures n > 0 && i < |run[n - 1].calls|
    ensures var before, after := run[n - 1].calls[i].pc, run[n].calls[i].pc;
      && (after.Evict? || after.Reserve? ==> before.Evict? || before.Reserve? || events[n - 1] == ReadCache(i))
      && (after.Waiting? ==> before.Waiting? || (before.Reserve? && events[n - 1] == TryReserve(i)))
  {
    CallsFixed(run, events, 0, n);
    assert n > 0;
    CallsFixed(run, events, n - 1, n);
    StepBack(run[n - 1], events[n - 1], i);
  }

  lemma LookedUpNext(run: seq<State>, events: seq<Event>, i: nat, r: nat, n: nat)
    requires n + 1 < |run| && i < |run[n + 1].calls|
    requires run[n + 1].calls[i].pc.Evict? || run[n + 1].calls[i].pc.Reserve?
    requires LookedUp(run, events, i, r, n) || (r == n < |events| && events[r] == ReadCache(i))
    ensures LookedUp(run, events, i, r, n + 1)
  {
  }

  lemma {:induction false} FindLookup(run: seq<State>, events: seq<Event>, i: nat, n: nat) returns (r: nat)
    requires IsRun(run, events) && n <= |events| && i < |run[n].calls|
    requires run[n].calls[i].pc.Evict? || run[n].calls[i].pc.Reserve?
    ensures LookedUp(run, events, i, r, n)
  {
    PcBefore(run, events, i, n);
    if events[n - 1] == ReadCache(i) {
      r := n - 1;
    } else {
      r := FindLookup(run, events, i, n - 1);
    }
    LookedUpNext(run, events, i, r, n - 1);
  }

  lemma GrantedNext(run: seq<State>, events: seq<Event>, i: nat, t: nat, n: nat)
    requires n + 1 < |run| && i < |run[n + 1].calls| && run[n + 1].calls[i].pc.Waiting?
    requires Granted(run, events, i, t, n) || (t == n < |events| && events[t] == TryReserve(i))
    ensures Granted(run, events, i, t, n + 1)
  {
  }

  /** A call about to send missed at some event `r` and was granted its key at some later `t`. */
  lemma {:induction false} FindGrant(run: seq<State>, events: seq<Event>, i: nat, n: nat) returns (r: nat, t: nat)
    requires IsRun(run, events) && n <= |events| && i < |run[n].calls| && run[n].calls[i].pc.Waiting?
    ensures LookedUp(run, events, i, r, t) && Granted(run, events, i, t, n)
  {
    PcBefore(run, events, i, n);
    if run[n - 1].calls[i].pc.Waiting? {
      r, t := FindGrant(run, events, i, n - 1);
    } else {
      t := n - 1;
      r := FindLookup(run, events, i, t);
    }
    GrantedNext(run, events, i, t, n - 1);
  }

  // ----- A store before or after the lookup -----

  lemma HistoryStep(s: State, e: Event)
    requires Enabled(s, e)
    ensures s.log <= Apply(s, e).log && s.now <= Apply(s, e).now
  {
    LogStep(s, e);
  }

  lemma RunStepGrows(run: seq<State>, events: seq<Event>, n: nat)
    requires IsRun(run, events) && n < |events|
    ensures run[n].log <= run[n + 1].log && run[n].now <= run[n + 1].now
  {
    HistoryStep(run[n], events[n]);
  }

  lemma {:induction false} ChainGrows(run: seq<State>, m: nat, n: nat)
    requires m <= n < |run|
    requires forall k :: m <= k < n ==> run[k].log <= run[k + 1].log && run[k].now <= run[k + 1].now
    ensures run[m].log <= run[n].log && run[m].now <= run[n].now
  {
    if m < n {
      ChainGrows(run, m, n - 1);
    }
  }

  lemma HistoryGrows(run: seq<State>, events: seq<Event>, m: nat, n: nat)
    requires IsRun(run, events) && m <= n <= |events|
    ensures run[m].log <= run[n].log && run[m].now <= run[n].now
  {
    forall k | m <= k < n ensures run[k].log <= run[k + 1].log && run[k].now <= run[k + 1].now {
      RunStepGrows(run, events, k);
    }
    ChainGrows(run, m, n);
  }

  /** Event `w` stores an accepted order and event `s` sends the same order later. */
  ghost predicate StoreThenSend(run: seq<State>, events: seq<Event>, w: nat, s: nat) {
    && |run| == |events| + 1 && w < s < |events| && events[w].WriteEntry? && events[s].Send?
    && Enabled(run[w], events[w]) && Enabled(run[s], events[s])
    && run[w].calls[events[w].i].request == run[s].calls[events[s].i].request
  }

  ghost predicate WithinTtl(run: seq<State>, events: seq<Event>, w: nat, s: nat)
    requires StoreThenSend(run, events, w, s)
  {
    Elapsed(run[w].calls[events[w].i].pc.stamp, run[s].now) < run[0].ttl
  }

  /** A sender that looks its key up after a store sends it only once the TTL has passed. */
  lemma LookupAfterStore(run: seq<State>, events: seq<Event>, w: nat, s: nat, r: nat, t: nat)
    requires IsRun(run, events) && StoreThenSend(run, events, w, s)
    requires LookedUp(run, events, events[s].i, r, t) && t < s && w < r
    ensures !WithinTtl(run, events, w, s)
  {
    var key, stamp := run[w].calls[events[w].i].request.key, run[w].calls[events[w].i].pc.stamp;
    assert run[w + 1].log[|run[w].log|] ==
        Stored(events[w].i, key, CacheEntry(run[w].calls[events[w].i].pc.value, stamp));
    HistoryGrows(run, events, w + 1, r);
    HistoryGrows(run, events, r, s);
    CallsFixed(run, events, r, s);
    RunInv(run, events, r);
    TtlConstant(run, events, r);
    assert run[r + 1] == Apply(run[r], events[r]);
    LookupAnswers(run[r], events[r]);
    assert run[r].log[|run[w].log|].Stored?;
    assert LiveValue(run[r].written, key, run[r].now, run[r].ttl).None?;
  }

  /** A sender that looked its key up before a store reserves it after the store: while the
      store is under way its caller still holds the reservation. */
  lemma LookupBeforeStore(run: seq<State>, events: seq<Event>, w: nat, s: nat, r: nat, t: nat)
    requires IsRun(run, events) && StoreThenSend(run, events, w, s)
    requires LookedUp(run, events, events[s].i, r, t) && Granted(run, events, events[s].i, t, s) && r <= w
    ensures r < w < t
  {
    assert events[w] != events[r] && events[w] != events[t];
    if t < w {
      var key := run[w].calls[events[w].i].request.key;
      CallsFixed(run, events, w, s);
      RunInv(run, events, w);
      assert Holder(run[w], events[w].i, key) && Holder(run[w], events[s].i, key);
      assert false;
    }
  }

  // ----- When an order can be sent early -----

  /** The store falls between the sender's lookup and its granted reservation. */
  ghost predicate Races(run: seq<State>, events: seq<Event>, w: nat, s: nat)
    requires s < |events| && events[s].Send?
  {
    exists r: nat, t: nat ::
      LookedUp(run, events, events[s].i, r, t) && Granted(run, events, events[s].i, t, s) && r < w < t
  }

  /** Over every interleaving: an order sent within the TTL of its store raced that store. */
  lemma EarlySendRaces(run: seq<State>, events: seq<Event>, w: nat, s: nat)
    requires IsRun(run, events) && StoreThenSend(run, events, w, s) && WithinTtl(run, events, w, s)
    ensures Races(run, events, w, s)
  {
    var r, t := FindGrant(run, events, events[s].i, s);
    if w < r {
      LookupAfterStore(run, events, w, s, r, t);
    } else {
      LookupBeforeStore(run, events, w, s, r, t);
    }
  }

  ghost predicate SendsEarly(run: seq<State>, events: seq<Event>, w: nat, s: nat) {
    StoreThenSend(run, events, w, s) && WithinTtl(run, events, w, s)
  }

  /** Call `i` has missed its lookup of the key and not yet asked for the reservation. */
  predicate Poised(s: State, i: nat, key: Key) {
    i < |s.calls| && s.calls[i].request == Order(key) && (s.calls[i].pc.Evict? || s.calls[i].pc.Reserve?)
  }

  ghost predicate SomePoised(s: State, key: Key) {
    exists i: nat :: Poised(s, i, key)
  }

  ghost predicate Extends(run: seq<State>, events: seq<Event>, more: seq<State>, moreEvents: seq<Event>) {
    IsRun(more, moreEvents) && run <= more && events <= moreEvents
  }

  /** Some continuation sends the order stored at event `w` again within the TTL. */
  ghost predicate CanSendEarly(run: seq<State>, events: seq<Event>, w: nat) {
    exists more, moreEvents, s: nat ::
      Extends(run, events, more, moreEvents) && SendsEarly(more, moreEvents, w, s)
  }

  /** A run that ends with a store: the key it stored and the instant it stamped. */
  ghost predicate EndsWithStore(run: seq<State>, events: seq<Event>, w: nat, key: Key, stamp: nat) {
    && IsRun(run, events) && |events| == w + 1 && events[w].WriteEntry?
    && run[w].calls[events[w].i].request == Order(key) && run[w].calls[events[w].i].pc.stamp == stamp
  }

  lemma EarlyNeedsPoised(run: seq<State>, events: seq<Event>, w: nat, key: Key, stamp: nat,
        more: seq<State>, moreEvents: seq<Event>, s: nat)
    requires EndsWithStore(run, events, w, key, stamp)
    requires Extends(run, events, more, moreEvents) && SendsEarly(more, moreEvents, w, s)
    ensures Elapsed(stamp, run[w + 1].now) < run[0].ttl
    ensures Poised(run[w + 1], moreEvents[s].i, key)
  {
    var i := moreEvents[s].i;
    assert more[w] == run[w] && more[w + 1] == run[w + 1] && moreEvents[w] == events[w] && more[0] == run[0];
    EarlySendRaces(more, moreEvents, w, s);
    HistoryGrows(more, moreEvents, w + 1, s);
    CallsFixed(more, moreEvents, w, w + 1);
    CallsFixed(more, moreEvents, w + 1, s);
  }

  lemma ExtendRun(run: seq<State>, events: seq<Event>, e: Event)
    requires IsRun(run, events) && Enabled(run[|events|], e)
    ensures Extends(run, events, run + [Apply(run[|events|], e)], events + [e])
  {
    var more, moreEvents := run + [Apply(run[|events|], e)], events + [e];
    forall n | 0 <= n < |moreEvents|
      ensures Enabled(more[n], moreEvents[n]) && more[n + 1] == Apply(more[n], moreEvents[n])
    {
      if n < |events| {
        assert moreEvents[n] == events[n] && more[n] == run[n] && more[n + 1] == run[n + 1];
      }
    }
  }

  /** The last state of a run in which a poised call's key is free, and what the call does next. */
  lemma PoisedReserves(s: State, i: nat, key: Key)
    requires Poised(s, i, key) && s.calls[i].pc.Evict?
    ensures Enabled(s, RemoveIfExpired(i))
    ensures var t := Apply(s, RemoveIfExpired(i));
      Poised(t, i, key) && t.calls[i].pc.Reserve? && t.inFlight == s.inFlight && t.now == s.now
  {
  }

  lemma PoisedWaits(s: State, i: nat, key: Key)
    requires Poised(s, i, key) && s.calls[i].pc.Reserve? && key !in s.inFlight
    ensures Enabled(s, TryReserve(i))
    ensures var t := Apply(s, TryReserve(i));
      i < |t.calls| && t.calls[i] == Call(Order(key), Waiting) && t.now == s.now && Enabled(t, Send(i))
  {
  }

  /** A poised call whose key is free can go on to send, at the same instant. */
  lemma PoisedSends(run: seq<State>, events: seq<Event>, i: nat, key: Key)
    returns (more: seq<State>, moreEvents: seq<Event>, s: nat)
    requires IsRun(run, events) && Poised(run[|events|], i, key) && key !in run[|events|].inFlight
    ensures Extends(run, events, more, moreEvents) && |events| <= s == |moreEvents| - 1 && moreEvents[s] == Send(i)
    ensures forall n :: |events| <= n < |moreEvents| ==> moreEvents[n] in [RemoveIfExpired(i), TryReserve(i), Send(i)]
    ensures more[s].calls[i].request == Order(key) && more[s].now == run[|events|].now
    decreases run[|events|].calls[i].pc.Evict?
  {
    var last := run[|events|];
    if last.calls[i].pc.Evict? {
      PoisedReserves(last, i, key);
      ExtendRun(run, events, RemoveIfExpired(i));
      var next, nextEvents := run + [Apply(last, RemoveIfExpired(i))], events + [RemoveIfExpired(i)];
      more, moreEvents, s := PoisedSends(next, nextEvents, i, key);
    } else {
      PoisedWaits(last, i, key);
      ExtendRun(run, events, TryReserve(i));
      var next, nextEvents := run + [Apply(last, TryReserve(i))], events + [TryReserve(i)];
      ExtendRun(next, nextEvents, Send(i));
      s := |nextEvents|;
      more, moreEvents := next + [Apply(next[s], Send(i))], nextEvents + [Send(i)];
    }
  }

  lemma DropFrees(s: State, j: nat, i: nat, key: Key)
    requires Poised(s, i, key) && j < |s.calls| && s.calls[j].request == Order(key) && s.calls[j].pc.Drop?
    ensures Enabled(s, DropGuard(j))
    ensures var t := Apply(s, DropGuard(j)); Poised(t, i, key) && key !in t.inFlight && t.now == s.now
  {
  }

  lemma StoreThenDrops(run: seq<State>, events: seq<Event>, w: nat, key: Key, stamp: nat)
    requires EndsWithStore(run, events, w, key, stamp)
    ensures var j := events[w].i;
      j < |run[w + 1].calls| && run[w + 1].calls[j].request == Order(key) && run[w + 1].calls[j].pc.Drop?
  {
    assert run[w + 1] == Apply(run[w], events[w]);
  }

  lemma PoisedCanSendEarly(run: seq<State>, events: seq<Event>, w: nat, key: Key, stamp: nat, i: nat)
    requires EndsWithStore(run, events, w, key, stamp) && Poised(run[w + 1], i, key)
    requires Elapsed(stamp, run[w + 1].now) < run[0].ttl
    ensures CanSendEarly(run, events, w)
  {
    var j := events[w].i;
    StoreThenDrops(run, events, w, key, stamp);
    DropFrees(run[w + 1], j, i, key);
    ExtendRun(run, events, DropGuard(j));
    var next, nextEvents := run + [Apply(run[w + 1], DropGuard(j))], events + [DropGuard(j)];
    var more, moreEvents, s := PoisedSends(next, nextEvents, i, key);
    assert more[w] == run[w] && moreEvents[w] == events[w] && more[0] == run[0];
    assert Enabled(more[s], moreEvents[s]) && Enabled(more[w], moreEvents[w]);
    assert SendsEarly(more, moreEvents, w, s);
  }

  /** After any run that ends with a store, the order can be sent again within the TTL exactly
      when, as the store is made, its stamp is younger than the TTL and another call has missed
      its lookup of that order and not yet asked for the reservation. */
  lemma SecondSendIff(run: seq<State>, events: seq<Event>, w: nat, key: Key, stamp: nat)
    requires EndsWithStore(run, events, w, key, stamp)
    ensures CanSendEarly(run, events, w) <==>
              Elapsed(stamp, run[w + 1].now) < run[0].ttl && SomePoised(run[w + 1], key)
  {
    if CanSendEarly(run, events, w) {
      var more, moreEvents, s: nat :| Extends(run, events, more, moreEvents) && SendsEarly(more, moreEvents, w, s);
      EarlyNeedsPoised(run, events, w, key, stamp, more, moreEvents, s);
    }
    if Elapsed(stamp, run[w + 1].now) < run[0].ttl && SomePoised(run[w + 1], key) {
      var i: nat :| Poised(run[w + 1], i, key);
      PoisedCanSendEarly(run, events, w, key, stamp, i);
    }
  }

  // ----- Switching at awaits only -----

  lemma LookingIsBusy(run: seq<State>, events: seq<Event>, i: nat, r: nat, t: nat, w: nat)
    requires LookedUp(run, events, i, r, t)
    ensures r < w <= t ==> i < |run[w].calls| && Busy(run[w].calls[i].pc) && !run[w].calls[i].pc.Write?
  {
  }

  lemma NoStoreWhileLooking(run: seq<State>, events: seq<Event>, w: nat, i: nat, r: nat, t: nat)
    requires CooperativeRun(run, events) && w < |events| && events[w].WriteEntry?
    requires LookedUp(run, events, i, r, t) && r < w
    ensures t < w
  {
    LookingIsBusy(run, events, i, r, t, w);
    assert Cooperative(run[w], events[w]) && Enabled(run[w], events[w]);
  }

  /** Calls switched at awaits never race: a lookup and its reservation have no await between. */
  lemma AwaitsPreventRaces(run: seq<State>, events: seq<Event>, w: nat, s: nat)
    requires CooperativeRun(run, events) && StoreThenSend(run, events, w, s)
    ensures !Races(run, events, w, s)
  {
    forall r: nat, t: nat | LookedUp(run, events, events[s].i, r, t) && r < w ensures t < w {
      NoStoreWhileLooking(run, events, w, events[s].i, r, t);
    }
  }

  /** The event that made the a-th record of a run's history. */
  lemma {:induction false} RecordOrigin(run: seq<State>, events: seq<Event>, n: nat, a: nat) returns (w: nat)
    requires IsRun(run, events) && n <= |events| && a < |run[n].log|
    ensures w < n && |run[w].log| == a && run[w + 1].log == run[w].log + [run[n].log[a]]
  {
    LogStep(run[n - 1], events[n - 1]);
    if a < |run[n - 1].log| {
      w := RecordOrigin(run, events, n - 1, a);
    } else {
      w := n - 1;
    }
  }

  lemma RecordMeans(s: State, e: Event, r: Record)
    requires Enabled(s, e) && Apply(s, e).log == s.log + [r]
    ensures r.Stored? ==>
      e.WriteEntry? && s.calls[e.i].request == Order(r.key) && r.entry.inserted == s.calls[e.i].pc.stamp
    ensures r.Dispatched? ==> e.Send? && s.calls[e.i].request == Order(r.key) && r.at == s.now
  {
    assert (s.log + [r])[|s.log|] == r;
  }

  /** At most once: with calls switched at awaits only, after an accepted order was cached the
      same order is not sent again until the TTL has passed since its insertion. */
  lemma AtMostOncePerWindow(run: seq<State>, events: seq<Event>, a: nat, b: nat)
    requires CooperativeRun(run, events)
    requires var log := run[|events|].log;
      a < b < |log| && log[a].Stored? && log[b].Dispatched? && log[a].key == log[b].key
    ensures Elapsed(run[|events|].log[a].entry.inserted, run[|events|].log[b].at) >= run[0].ttl
  {
    var log := run[|events|].log;
    var w := RecordOrigin(run, events, |events|, a);
    var s := RecordOrigin(run, events, |events|, b);
    RecordMeans(run[w], events[w], log[a]);
    RecordMeans(run[s], events[s], log[b]);
    if s <= w {
      HistoryGrows(run, events, s, w);
    }
    assert StoreThenSend(run, events, w, s);
    AwaitsPreventRaces(run, events, w, s);
    if WithinTtl(run, events, w, s) {
      EarlySendRaces(run, events, w, s);
    }
  }
}
