/** What a second send of one order within the TTL says about the first, where calls are
    switched at awaits only. */
module OrderResend {
  import opened OrderDedup
  import opened OrderProtocol
  import opened OrderSafety
  import opened OrderRace
  import opened OrderPreemption

  // ----- A call sends, then stamps, then stores -----

  predicate BeforeSend(pc: Pc) {
    pc.Idle? || pc.Lookup? || pc.CountHit? || pc.Evict? || pc.Reserve? || pc.Waiting?
  }

  predicate Finished(pc: Pc) {
    pc.Drop? || pc.Done?
  }

  ghost predicate SendsAreOver(s: State) {
    forall n :: 0 <= n < |s.log| && s.log[n].Dispatched? ==>
      var i := s.log[n].call;
      && i < |s.calls| && s.calls[i].request == Order(s.log[n].key) && !BeforeSend(s.calls[i].pc)
      && s.log[n].at <= s.now && (s.calls[i].pc.Write? ==> s.log[n].at <= s.calls[i].pc.stamp)
  }

  ghost predicate StoresAreOver(s: State) {
    forall n :: 0 <= n < |s.log| && s.log[n].Stored? ==>
      s.log[n].call < |s.calls| && Finished(s.calls[s.log[n].call].pc)
  }

  /** A call's store comes after its send, stamped no earlier. */
  ghost predicate StoresFollowSends(log: seq<Record>) {
    forall m, n ::
      (0 <= m < |log| && 0 <= n < |log| && log[m].Dispatched? && log[n].Stored? && log[m].call == log[n].call) ==>
        m < n && log[m].at <= log[n].entry.inserted
  }

  ghost predicate InOrder(s: State) {
    SendsAreOver(s) && StoresAreOver(s) && StoresFollowSends(s.log)
  }

  lemma Progress(s: State, e: Event, i: nat)
    requires Enabled(s, e) && i < |s.calls|
    ensures i < |Apply(s, e).calls| && Apply(s, e).calls[i].request == s.calls[i].request
    ensures var before, after := s.calls[i].pc, Apply(s, e).calls[i].pc;
      && (!BeforeSend(before) ==> !BeforeSend(after))
      && (Finished(before) ==> Finished(after))
      && (after.Write? ==> before == after || after.stamp == s.now)
  {
    if e.Tick? || e.SetOrdersEnabled? || e.i != i {
      OthersStay(s, e, i);
    }
  }

  /** The record an event makes, if it makes one. */
  lemma NewRecord(s: State, e: Event)
    requires Enabled(s, e) && Apply(s, e).log != s.log
    ensures |Apply(s, e).log| == |s.log| + 1 && s.log <= Apply(s, e).log
    ensures var r := Apply(s, e).log[|s.log|];
      && (r.Dispatched? ==>
            && e == Send(r.call) && s.calls[r.call].request == Order(r.key) && r.at == s.now
            && Apply(s, e).calls[r.call].pc.Sent?)
      && (r.Stored? ==>
            && e == WriteEntry(r.call) && r.entry.inserted == s.calls[r.call].pc.stamp
            && Apply(s, e).calls[r.call].pc.Drop?)
  {
  }

  lemma SendsOverStep(s: State, e: Event)
    requires InOrder(s) && Enabled(s, e)
    ensures SendsAreOver(Apply(s, e)) && StoresAreOver(Apply(s, e))
  {
    var t := Apply(s, e);
    HistoryStep(s, e);
    if t.log != s.log {
      NewRecord(s, e);
    }
    forall n: nat | n < |t.log|
      ensures n < |s.log| || (n == |s.log| && t.log != s.log)
      ensures n < |s.log| ==> t.log[n] == s.log[n]
    {
    }
    forall i: nat | i < |s.calls|
      ensures i < |t.calls| && t.calls[i].request == s.calls[i].request
      ensures !BeforeSend(s.calls[i].pc) ==> !BeforeSend(t.calls[i].pc)
      ensures Finished(s.calls[i].pc) ==> Finished(t.calls[i].pc)
      ensures t.calls[i].pc.Write? ==> s.calls[i].pc == t.calls[i].pc || t.calls[i].pc.stamp == s.now
    {
      Progress(s, e, i);
    }
  }

  lemma FollowStep(s: State, e: Event)
    requires InOrder(s) && Enabled(s, e)
    ensures StoresFollowSends(Apply(s, e).log)
  {
    var log := Apply(s, e).log;
    HistoryStep(s, e);
    if log != s.log {
      NewRecord(s, e);
      forall m: nat, n: nat |
        m < |log| && n < |log| && log[m].Dispatched? && log[n].Stored? && log[m].call == log[n].call
        ensures m < n && log[m].at <= log[n].entry.inserted
      {
        assert m < |s.log| ==> log[m] == s.log[m];
        assert n < |s.log| ==> log[n] == s.log[n];
      }
    }
  }

  lemma {:induction false} RunInOrder(run: seq<State>, events: seq<Event>, n: nat)
    requires IsRun(run, events) && n <= |events|
    ensures InOrder(run[n])
  {
    if n > 0 {
      RunInOrder(run, events, n - 1);
      SendsOverStep(run[n - 1], events[n - 1]);
      FollowStep(run[n - 1], events[n - 1]);
    }
  }

  // ----- What an early second send means -----

  /** The order of record `a` is sent again by record `b` within the TTL. */
  ghost predicate ResentEarly(log: seq<Record>, ttl: nat, a: nat, b: nat) {
    && a < b < |log| && log[a].Dispatched? && log[b].Dispatched? && log[a].key == log[b].key
    && Elapsed(log[a].at, log[b].at) < ttl
  }

  /** At event `s`, which makes record `b`, call `i` is over, its guard gone. */
  ghost predicate OverAt(run: seq<State>, events: seq<Event>, s: nat, b: nat, i: nat) {
    && s < |events| && s < |run| && |run[s].log| == b && events[s].Send?
    && i < |run[s].calls| && i != events[s].i && run[s].calls[i].pc.Done?
  }

  lemma FirstIsOver(run: seq<State>, events: seq<Event>, a: nat, b: nat)
    requires IsRun(run, events) && ResentEarly(run[|events|].log, run[0].ttl, a, b)
    ensures exists s: nat :: OverAt(run, events, s, b, run[|events|].log[a].call)
  {
    var log := run[|events|].log;
    var s := RecordOrigin(run, events, |events|, b);
    RecordMeans(run[s], events[s], log[b]);
    HistoryGrows(run, events, s, |events|);
    assert run[s].log[a] == log[a];
    RunInOrder(run, events, s);
    RunInv(run, events, s);
    var i, j := log[a].call, events[s].i;
    assert run[s].log[a].Dispatched? && !BeforeSend(run[s].calls[i].pc) && i != j;
    assert Holder(run[s], j, log[b].key) && !Holder(run[s], i, log[b].key);
    assert run[s].calls[i].request == Order(log[b].key);
    assert !Holds(run[s].calls[i].pc);
    assert OverAt(run, events, s, b, log[a].call);
  }

  /** With calls switched at awaits only, an order is sent twice within the TTL only where the
      first call was over before the second send, its guard gone, and had stored nothing. */
  lemma EarlyResendMeans(run: seq<State>, events: seq<Event>, a: nat, b: nat)
    requires CooperativeRun(run, events) && ResentEarly(run[|events|].log, run[0].ttl, a, b)
    ensures var i := run[|events|].log[a].call;
      && (exists s: nat :: OverAt(run, events, s, b, i))
      && forall k :: 0 <= k < b ==> !(run[|events|].log[k].Stored? && run[|events|].log[k].call == i)
  {
    var log := run[|events|].log;
    FirstIsOver(run, events, a, b);
    RunInOrder(run, events, |events|);
    forall k: nat | k < b && log[k].Stored? ensures log[k].call != log[a].call {
      if log[k].call == log[a].call {
        StoredKey(run, events, k);
        AtMostOncePerWindow(run, events, k, b);
      }
    }
  }

  /** A call stores the order it was asked for. */
  lemma StoredKey(run: seq<State>, events: seq<Event>, k: nat)
    requires IsRun(run, events) && k < |run[|events|].log| && run[|events|].log[k].Stored?
    ensures var r := run[|events|].log[k];
      r.call < |run[|events|].calls| && run[|events|].calls[r.call].request == Order(r.key)
  {
    var r := run[|events|].log[k];
    var w := RecordOrigin(run, events, |events|, k);
    RecordMeans(run[w], events[w], r);
    NewRecord(run[w], events[w]);
    assert run[w + 1].log[|run[w].log|] == r;
    CallsFixed(run, events, w, |events|);
  }

  // ----- When a repeated order is sent -----

  predicate Own(e: Event, j: nat) {
    !e.Tick? && !e.SetOrdersEnabled? && e.i == j
  }

  /** The run goes on with events of call `j` alone, up to its send. */
  ghost predicate SendsAlone(run: seq<State>, events: seq<Event>, j: nat, more: seq<State>, moreEvents: seq<Event>) {
    && Extends(run, events, more, moreEvents) && |events| < |moreEvents|
    && moreEvents[|moreEvents| - 1] == Send(j)
    && forall n :: |events| <= n < |moreEvents| ==> Own(moreEvents[n], j)
  }

  ghost predicate SendsNext(run: seq<State>, events: seq<Event>, j: nat) {
    exists more, moreEvents :: SendsAlone(run, events, j, more, moreEvents)
  }

  predicate Unanswered(s: State, key: Key) {
    s.enabled && LiveValue(s.cache, key, s.now, s.ttl).None?
  }

  /** What call `j`, running alone from `start`, has found out at each control point. */
  predicate Found(start: State, s: State, j: nat, key: Key) {
    && j < |s.calls| && s.calls[j].request == Order(key)
    && match s.calls[j].pc
       case Idle => s == start
       case Lookup => start.enabled && SameShared(start, s)
       case CountHit(_) => true
       case Evict | Reserve => Unanswered(start, key) && s.inFlight == start.inFlight
       case Done(_) => true
       case _ => Unanswered(start, key) && key !in start.inFlight
  }

  predicate SameShared(a: State, b: State) {
    a.cache == b.cache && a.now == b.now && a.ttl == b.ttl && a.inFlight == b.inFlight
  }

  lemma FoundStep(start: State, s: State, e: Event, j: nat, key: Key)
    requires Found(start, s, j, key) && Enabled(s, e) && Own(e, j)
    ensures Found(start, Apply(s, e), j, key)
  {
  }

  lemma {:induction false} FoundAlone(more: seq<State>, moreEvents: seq<Event>, m: nat, n: nat, j: nat, key: Key)
    requires IsRun(more, moreEvents) && m <= n <= |moreEvents|
    requires j < |more[m].calls| && more[m].calls[j] == Call(Order(key), Idle)
    requires forall k :: m <= k < n ==> Own(moreEvents[k], j)
    ensures Found(more[m], more[n], j, key)
  {
    if m < n {
      FoundAlone(more, moreEvents, m, n - 1, j, key);
      FoundStep(more[m], more[n - 1], moreEvents[n - 1], j, key);
    }
  }

  lemma AloneNeeds(run: seq<State>, events: seq<Event>, j: nat, key: Key, more: seq<State>, moreEvents: seq<Event>)
    requires IsRun(run, events) && j < |run[|events|].calls|
    requires run[|events|].calls[j] == Call(Order(key), Idle) && SendsAlone(run, events, j, more, moreEvents)
    ensures Unanswered(run[|events|], key) && key !in run[|events|].inFlight
  {
    assert more[|events|] == run[|events|];
    FoundAlone(more, moreEvents, |events|, |moreEvents| - 1, j, key);
    assert Enabled(more[|moreEvents| - 1], moreEvents[|moreEvents| - 1]);
  }

  lemma LooksUp(s: State, j: nat, key: Key)
    requires j < |s.calls| && s.calls[j] == Call(Order(key), Idle) && Unanswered(s, key)
    ensures Enabled(s, Start(j)) && Enabled(Apply(s, Start(j)), ReadCache(j))
    ensures var t := Apply(Apply(s, Start(j)), ReadCache(j)); Poised(t, j, key) && t.inFlight == s.inFlight
  {
  }

  lemma CanSendAlone(run: seq<State>, events: seq<Event>, j: nat, key: Key)
    requires IsRun(run, events) && j < |run[|events|].calls| && run[|events|].calls[j] == Call(Order(key), Idle)
    requires Unanswered(run[|events|], key) && key !in run[|events|].inFlight
    ensures SendsNext(run, events, j)
  {
    var s := run[|events|];
    LooksUp(s, j, key);
    ExtendRun(run, events, Start(j));
    var started, startedEvents := run + [Apply(s, Start(j))], events + [Start(j)];
    ExtendRun(started, startedEvents, ReadCache(j));
    var missed := started + [Apply(Apply(s, Start(j)), ReadCache(j))];
    var missedEvents := startedEvents + [ReadCache(j)];
    var more, moreEvents, last := PoisedSends(missed, missedEvents, j, key);
    forall n | |events| <= n < |moreEvents| ensures Own(moreEvents[n], j) {
      assert n < |missedEvents| ==> moreEvents[n] == missedEvents[n];
    }
    assert SendsAlone(run, events, j, more, moreEvents);
  }

  /** After any run, the next call for an order sends it, running alone, exactly when orders are
      enabled, no call holds that order's guard, and the last store of the order, if any, is as
      old as the TTL: nothing but a store or a call under way protects against a repeat. */
  lemma ResubmitSendsIff(run: seq<State>, events: seq<Event>, j: nat, key: Key)
    requires IsRun(run, events) && j < |run[|events|].calls| && run[|events|].calls[j] == Call(Order(key), Idle)
    ensures var s := run[|events|];
      SendsNext(run, events, j) <==>
        && s.enabled && (forall i: nat :: !Holder(s, i, key))
        && LiveValue(s.written, key, s.now, s.ttl).None?
  {
    var s := run[|events|];
    RunInv(run, events, |events|);
    AgreesAnswers(s.cache, s.written, key, s.now, s.ttl);
    if SendsNext(run, events, j) {
      var more, moreEvents :| SendsAlone(run, events, j, more, moreEvents);
      AloneNeeds(run, events, j, key, more, moreEvents);
    }
    if s.enabled && (forall i: nat :: !Holder(s, i, key)) && LiveValue(s.written, key, s.now, s.ttl).None? {
      CanSendAlone(run, events, j, key);
    }
  }

  // ----- An abandoned call -----

  ghost predicate Cooperates(s: State) {
    exists run: seq<State>, events: seq<Event> :: CooperativeRun(run, events) && run[|events|] == s
  }

  lemma CooperatesTo(s: State, e: Event, t: State)
    requires Cooperates(s) && Enabled(s, e) && Cooperative(s, e) && Apply(s, e) == t
    ensures Cooperates(t)
  {
    var run: seq<State>, events: seq<Event> :| CooperativeRun(run, events) && run[|events|] == s;
    ExtendRun(run, events, e);
    var more, moreEvents := run + [t], events + [e];
    forall n | 0 <= n < |moreEvents| ensures Cooperative(more[n], moreEvents[n]) {
      assert n < |events| ==> more[n] == run[n] && moreEvents[n] == events[n];
    }
    assert CooperativeRun(more, moreEvents);
  }

  lemma FirstLooksUp(key: Key)
    ensures Cooperates(TwoCalls(key, map[], {}, Evict, Idle, []))
  {
    assert CooperativeRun([TwoCalls(key, map[], {}, Idle, Idle, [])], []);
    CooperatesTo(TwoCalls(key, map[], {}, Idle, Idle, []), Start(0), TwoCalls(key, map[], {}, Lookup, Idle, []));
    CooperatesTo(TwoCalls(key, map[], {}, Lookup, Idle, []), ReadCache(0), TwoCalls(key, map[], {}, Evict, Idle, []));
  }

  lemma FirstReserves(key: Key)
    requires Cooperates(TwoCalls(key, map[], {}, Evict, Idle, []))
    ensures Cooperates(TwoCalls(key, map[], {key}, Waiting, Idle, []))
  {
    CooperatesTo(TwoCalls(key, map[], {}, Evict, Idle, []), RemoveIfExpired(0),
      TwoCalls(key, map[], {}, Reserve, Idle, []));
    CooperatesTo(TwoCalls(key, map[], {}, Reserve, Idle, []), TryReserve(0),
      TwoCalls(key, map[], {key}, Waiting, Idle, []));
  }

  lemma FirstSends(key: Key)
    ensures Cooperates(TwoCalls(key, map[], {key}, Sent, Idle, [Dispatched(0, key, 0)]))
  {
    FirstLooksUp(key);
    FirstReserves(key);
    CooperatesTo(TwoCalls(key, map[], {key}, Waiting, Idle, []), Send(0),
      TwoCalls(key, map[], {key}, Sent, Idle, [Dispatched(0, key, 0)]));
  }

  lemma FirstAbandoned(key: Key, log: seq<Record>)
    requires Cooperates(TwoCalls(key, map[], {key}, Sent, Idle, log))
    ensures Cooperates(TwoCalls(key, map[], {}, Done(Abandoned), Idle, log))
  {
    CooperatesTo(TwoCalls(key, map[], {key}, Sent, Idle, log), GiveUp(0, Abandoned),
      TwoCalls(key, map[], {key}, Drop(Abandoned), Idle, log));
    CooperatesTo(TwoCalls(key, map[], {key}, Drop(Abandoned), Idle, log), DropGuard(0),
      TwoCalls(key, map[], {}, Done(Abandoned), Idle, log));
  }

  lemma SecondLooksUp(key: Key, log: seq<Record>)
    requires Cooperates(TwoCalls(key, map[], {}, Done(Abandoned), Idle, log))
    ensures Cooperates(TwoCalls(key, map[], {}, Done(Abandoned), Reserve, log))
  {
    CooperatesTo(TwoCalls(key, map[], {}, Done(Abandoned), Idle, log), Start(1),
      TwoCalls(key, map[], {}, Done(Abandoned), Lookup, log));
    CooperatesTo(TwoCalls(key, map[], {}, Done(Abandoned), Lookup, log), ReadCache(1),
      TwoCalls(key, map[], {}, Done(Abandoned), Evict, log));
    CooperatesTo(TwoCalls(key, map[], {}, Done(Abandoned), Evict, log), RemoveIfExpired(1),
      TwoCalls(key, map[], {}, Done(Abandoned), Reserve, log));
  }

  lemma SecondSends(key: Key, log: seq<Record>)
    requires Cooperates(TwoCalls(key, map[], {}, Done(Abandoned), Reserve, log))
    ensures Cooperates(TwoCalls(key, map[], {key}, Done(Abandoned), Sent, log + [Dispatched(1, key, 0)]))
  {
    CooperatesTo(TwoCalls(key, map[], {}, Done(Abandoned), Reserve, log), TryReserve(1),
      TwoCalls(key, map[], {key}, Done(Abandoned), Waiting, log));
    CooperatesTo(TwoCalls(key, map[], {key}, Done(Abandoned), Waiting, log), Send(1),
      TwoCalls(key, map[], {key}, Done(Abandoned), Sent, log + [Dispatched(1, key, 0)]));
  }

  /** A call whose caller gives up while the order is on the wire stores nothing: the same
      order can be sent again at once, even with calls switched at awaits only. */
  lemma AbandonedSendsTwice(key: Key)
    ensures exists s :: Cooperates(s) && s.ttl == 300_000_000_000 && ResentEarly(s.log, s.ttl, 0, 1)
  {
    var log := [Dispatched(0, key, 0)];
    FirstSends(key);
    FirstAbandoned(key, log);
    SecondLooksUp(key, log);
    SecondSends(key, log);
    var last := TwoCalls(key, map[], {key}, Done(Abandoned), Sent, log + [Dispatched(1, key, 0)]);
    assert ResentEarly(last.log, DEFAULT_TTL, 0, 1);
  }
}
