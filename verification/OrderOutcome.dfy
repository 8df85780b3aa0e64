/** What a call ends with, and why, over every interleaving. */
module OrderOutcome {
  import opened Wrappers
  import opened OrderDedup
  import opened OrderProtocol
  import opened OrderSafety

  // ----- Answers of the gateway -----

  /** The acknowledgement codes of the order path. */
  const ACKS: set<string> := {"00039", "00040", "00462", "00463", "00156", "00132"}

  /** The gateway placed nothing: refused at ingress, or rejected by the exchange. */
  predicate CleanReject(reply: Reply, code: string) {
    || (reply == NonSuccessStatus(code) && code == "IGW40011")
    || (reply.SuccessStatus? && reply.code == code && code !in ACKS + {"", "00000"})
  }

  /** The order may rest: any other status, or a success without a telling code. */
  predicate MayRest(reply: Reply, code: string) {
    || (reply == NonSuccessStatus(code) && code != "IGW40011")
    || (reply.SuccessStatus? && reply.code == code && code in {"", "00000"})
  }

  predicate AcceptedWith(reply: Reply, response: Option<Value>) {
    reply.SuccessStatus? && reply.code in ACKS && reply.response == response
  }

  /** The one result a reply leads to. */
  ghost predicate Answers(reply: Reply, result: CallResult) {
    && (forall code :: result == ApiError(code) <==> CleanReject(reply, code))
    && (forall code :: result == AmbiguousOrder(code) <==> MayRest(reply, code))
    && (result == HttpError <==> reply.SendFailed? || reply.Undecodable?)
    && (result == DecodeError <==> AcceptedWith(reply, None))
    && (forall value :: result == Placed(value) <==> AcceptedWith(reply, Some(value)))
  }

  lemma ReplyAnswers(reply: Reply)
    ensures Answers(reply, ClassifyReply(reply))
  {
  }

  /** The result a call is bound for, once it is settled. */
  function Bound(pc: Pc): Option<CallResult> {
    match pc
    case CountHit(value) => Some(ServedFromCache(value))
    case Drop(result) => Some(result)
    case Done(result) => Some(result)
    case _ => if Inserting(pc) then Some(Placed(pc.value)) else None
  }

  lemma BoundStays(s: State, e: Event, i: nat)
    requires Enabled(s, e) && i < |s.calls| && Bound(s.calls[i].pc).Some?
    ensures i < |Apply(s, e).calls| && Bound(Apply(s, e).calls[i].pc) == Bound(s.calls[i].pc)
  {
    if e.Tick? || e.SetOrdersEnabled? || e.i != i {
      OthersStay(s, e, i);
    }
  }

  lemma {:induction false} BoundForGood(run: seq<State>, events: seq<Event>, k: nat, m: nat, i: nat)
    requires IsRun(run, events) && k <= m <= |events| && i < |run[k].calls| && Bound(run[k].calls[i].pc).Some?
    ensures i < |run[m].calls| && Bound(run[m].calls[i].pc) == Bound(run[k].calls[i].pc)
  {
    if k < m {
      BoundForGood(run, events, k, m - 1, i);
      BoundStays(run[m - 1], events[m - 1], i);
    }
  }

  /** Over every interleaving, a call whose reply has come in ends with the one result the
      reply leads to: a clean rejection, an order that may rest, an acceptance, or no answer. */
  lemma ReplyDecides(run: seq<State>, events: seq<Event>, k: nat, m: nat)
    requires IsRun(run, events) && k < m <= |events| && events[k].Receive?
    ensures events[k].i < |run[m].calls|
    ensures run[m].calls[events[k].i].pc.Done? ==> Answers(events[k].reply, run[m].calls[events[k].i].pc.result)
  {
    ReceiveEffect(run[k], events[k]);
    BoundForGood(run, events, k + 1, m, events[k].i);
    ReplyAnswers(events[k].reply);
  }

  /** No reply leads to two results. */
  lemma OneAnswer(reply: Reply, a: CallResult, b: CallResult)
    requires Answers(reply, a) && Answers(reply, b)
    ensures a == b
  {
    ReplyAnswers(reply);
  }

  // ----- Why a call ended as it did -----

  /** The last store of the key holds the value and is younger than the TTL. */
  ghost predicate YoungStore(s: State, key: Key, value: Value) {
    key in s.written && s.written[key].value == value && s.now < s.written[key].inserted + s.ttl
  }

  /** Event `e`, taken at state `s`, makes call `i` end with the result. */
  ghost predicate Causes(s: State, e: Event, i: nat, result: CallResult) {
    i < |s.calls| &&
    var request := s.calls[i].request;
    match result
    case Halted => e == Start(i) && !s.enabled
    case NotAnOrder => e == Start(i) && s.enabled && request.NonOrderPolicy?
    case KeyFailed => e == Start(i) && s.enabled && request.Unserializable?
    case ServedFromCache(value) => e == ReadCache(i) && request.Order? && YoungStore(s, request.key, value)
    case DuplicateOrder => e == TryReserve(i) && request.Order? && exists j: nat :: j != i && Holder(s, j, request.key)
    case NotSent => e == GiveUp(i, NotSent) && s.calls[i].pc.Waiting?
    case Abandoned => e == GiveUp(i, Abandoned)
    case _ => e.Receive? && e.i == i && Answers(e.reply, result)
  }

  ghost predicate Caused(run: seq<State>, events: seq<Event>, n: nat, i: nat, result: CallResult) {
    exists k: nat :: k < n && k < |events| && k < |run| && Causes(run[k], events[k], i, result)
  }

  lemma StartBinds(s: State, e: Event)
    requires Enabled(s, e) && e.Start? && Bound(Apply(s, e).calls[e.i].pc).Some?
    ensures Causes(s, e, e.i, Bound(Apply(s, e).calls[e.i].pc).value)
  {
  }

  lemma LookupBinds(s: State, e: Event)
    requires Inv(s) && Enabled(s, e) && e.ReadCache? && Bound(Apply(s, e).calls[e.i].pc).Some?
    ensures Causes(s, e, e.i, Bound(Apply(s, e).calls[e.i].pc).value)
  {
    AgreesAnswers(s.cache, s.written, s.calls[e.i].request.key, s.now, s.ttl);
  }

  lemma Refused(s: State, i: nat, key: Key)
    requires Enabled(s, TryReserve(i)) && s.calls[i].request == Order(key)
    ensures Bound(Apply(s, TryReserve(i)).calls[i].pc) == if key in s.inFlight then Some(DuplicateOrder) else None
  {
  }

  lemma HeldByAnother(s: State, i: nat, key: Key)
    requires Reserved(s) && Enabled(s, TryReserve(i)) && s.calls[i].request == Order(key)
    ensures key in s.inFlight <==> exists j: nat :: j != i && Holder(s, j, key)
  {
    assert !Holder(s, i, key);
  }

  lemma ReserveBinds(s: State, e: Event)
    requires Reserved(s) && Enabled(s, e) && e.TryReserve? && Bound(Apply(s, e).calls[e.i].pc).Some?
    ensures Causes(s, e, e.i, Bound(Apply(s, e).calls[e.i].pc).value)
  {
    Refused(s, e.i, s.calls[e.i].request.key);
    HeldByAnother(s, e.i, s.calls[e.i].request.key);
  }

  lemma GiveUpBinds(s: State, e: Event)
    requires Enabled(s, e) && e.GiveUp?
    ensures Causes(s, e, e.i, e.why) && Bound(Apply(s, e).calls[e.i].pc) == Some(e.why)
  {
  }

  lemma ReceiveBinds(s: State, e: Event)
    requires Enabled(s, e) && e.Receive?
    ensures Bound(Apply(s, e).calls[e.i].pc).Some?
    ensures Causes(s, e, e.i, Bound(Apply(s, e).calls[e.i].pc).value)
  {
    ReceiveEffect(s, e);
    ReplyAnswers(e.reply);
  }

  /** No other event settles a call. */
  lemma OthersBindNothing(s: State, e: Event, i: nat)
    requires Enabled(s, e) && i < |s.calls| && Bound(s.calls[i].pc).None?
    requires e.Tick? || e.SetOrdersEnabled? || e.i != i
             || !(e.Start? || e.ReadCache? || e.TryReserve? || e.GiveUp? || e.Receive?)
    ensures i < |Apply(s, e).calls| && Bound(Apply(s, e).calls[i].pc).None?
  {
    if e.Tick? || e.SetOrdersEnabled? || e.i != i {
      OthersStay(s, e, i);
    }
  }

  lemma NewlyBound(s: State, e: Event, i: nat)
    requires Inv(s) && Enabled(s, e) && i < |s.calls| && Bound(s.calls[i].pc).None?
    ensures i < |Apply(s, e).calls|
    ensures var bound := Bound(Apply(s, e).calls[i].pc); bound.Some? ==> Causes(s, e, i, bound.value)
  {
    SameCallCount(s, e);
    if e.Tick? || e.SetOrdersEnabled? || e.i != i {
      OthersBindNothing(s, e, i);
    } else if Bound(Apply(s, e).calls[i].pc).Some? {
      match e
      case Start(_) => StartBinds(s, e);
      case ReadCache(_) => LookupBinds(s, e);
      case TryReserve(_) => ReserveBinds(s, e);
      case GiveUp(_, _) => GiveUpBinds(s, e);
      case Receive(_, _, _) => ReceiveBinds(s, e);
      case _ => OthersBindNothing(s, e, i);
    }
  }

  lemma {:induction false} BoundIsCaused(run: seq<State>, events: seq<Event>, n: nat, i: nat)
    requires IsRun(run, events) && n <= |events| && i < |run[n].calls|
    ensures Bound(run[n].calls[i].pc).Some? ==> Caused(run, events, n, i, Bound(run[n].calls[i].pc).value)
  {
    if n > 0 {
      SameCallCount(run[n - 1], events[n - 1]);
      BoundIsCaused(run, events, n - 1, i);
      if Bound(run[n - 1].calls[i].pc).Some? {
        BoundStays(run[n - 1], events[n - 1], i);
      } else {
        RunInv(run, events, n - 1);
        NewlyBound(run[n - 1], events[n - 1], i);
      }
    }
  }

  /** Over every interleaving each way a call can end has its own cause: the kill switch at its
      start, a young store at its lookup, another holder at its reservation, its caller, or
      the gateway's reply. */
  lemma EveryEndIsCaused(run: seq<State>, events: seq<Event>, n: nat, i: nat)
    requires IsRun(run, events) && n <= |events| && i < |run[n].calls| && run[n].calls[i].pc.Done?
    ensures Caused(run, events, n, i, run[n].calls[i].pc.result)
  {
    BoundIsCaused(run, events, n, i);
  }

  // ----- The lookup and the kill switch, in terms of stores and switches -----

  /** A lookup is a hit exactly when the last store of its key is younger than the TTL. */
  lemma HitIffYoung(run: seq<State>, events: seq<Event>, n: nat, value: Value)
    requires IsRun(run, events) && n < |events| && events[n].ReadCache?
    ensures var i := events[n].i;
      && i < |run[n].calls| && i < |run[n + 1].calls|
      && run[n].calls[i].request.Order?
      && (run[n + 1].calls[i].pc == CountHit(value) <==> YoungStore(run[n], run[n].calls[i].request.key, value))
      && (run[n + 1].calls[i].pc.CountHit? || run[n + 1].calls[i].pc.Evict?)
  {
    var s := run[n];
    RunInv(run, events, n);
    assert run[n + 1] == Apply(s, events[n]);
    AgreesAnswers(s.cache, s.written, s.calls[events[n].i].request.key, s.now, s.ttl);
  }

  /** A reservation is refused exactly when another call holds the key's guard. */
  lemma RefusedIffHeld(run: seq<State>, events: seq<Event>, n: nat, i: nat, key: Key)
    requires IsRun(run, events) && n < |events| && events[n] == TryReserve(i)
    requires i < |run[n].calls| && run[n].calls[i].request == Order(key)
    ensures i < |run[n + 1].calls|
    ensures run[n + 1].calls[i].pc == Done(DuplicateOrder) <==> exists j: nat :: j != i && Holder(run[n], j, key)
  {
    RunInv(run, events, n);
    SameCallCount(run[n], events[n]);
    Refused(run[n], i, key);
    HeldByAnother(run[n], i, key);
  }

  /** Where the switch stands: as last set, or as it was at the start. */
  function LastSwitch(initially: bool, events: seq<Event>): bool {
    if events == [] then initially
    else
      var last := events[|events| - 1];
      if last.SetOrdersEnabled? then last.enabled else LastSwitch(initially, events[..|events| - 1])
  }

  lemma SwitchStep(s: State, e: Event)
    requires Enabled(s, e)
    ensures Apply(s, e).enabled == if e.SetOrdersEnabled? then e.enabled else s.enabled
  {
  }

  lemma {:induction false} SwitchStands(run: seq<State>, events: seq<Event>, n: nat)
    requires IsRun(run, events) && n <= |events|
    ensures run[n].enabled == LastSwitch(run[0].enabled, events[..n])
  {
    if n > 0 {
      SwitchStands(run, events, n - 1);
      assert events[..n][..n - 1] == events[..n - 1];
      SwitchStep(run[n - 1], events[n - 1]);
    }
  }

  /** A call that starts after orders were last switched off has sent nothing at any later
      point of the run. */
  lemma SwitchedOffSendsNothing(run: seq<State>, events: seq<Event>, n: nat, m: nat)
    requires IsRun(run, events) && n < m <= |events| && events[n].Start?
    requires !LastSwitch(run[0].enabled, events[..n])
    ensures forall k :: 0 <= k < |run[m].log| ==> !(run[m].log[k].Dispatched? && run[m].log[k].call == events[n].i)
  {
    SwitchStands(run, events, n);
    KillSwitchHalts(run, events, n, m);
  }

  // ----- Going on -----

  /** Only orders pass the checks at the start. */
  predicate OrdersOnly(call: Call) {
    call.pc.Idle? || call.pc.Done? || call.request.Order?
  }

  lemma OrdersOnlyStep(s: State, e: Event, i: nat)
    requires Enabled(s, e) && i < |s.calls| && OrdersOnly(s.calls[i])
    ensures i < |Apply(s, e).calls| && OrdersOnly(Apply(s, e).calls[i])
  {
    if e.Tick? || e.SetOrdersEnabled? || e.i != i {
      OthersStay(s, e, i);
    }
  }

  lemma {:induction false} RunOrdersOnly(run: seq<State>, events: seq<Event>, n: nat, i: nat)
    requires IsRun(run, events) && n <= |events| && i < |run[n].calls|
    ensures OrdersOnly(run[n].calls[i])
  {
    if n > 0 {
      SameCallCount(run[n - 1], events[n - 1]);
      RunOrdersOnly(run, events, n - 1, i);
      OrdersOnlyStep(run[n - 1], events[n - 1], i);
    }
  }

  /** The call's next event, if it is not abandoned. */
  function NextEvent(pc: Pc, i: nat): Event
    requires !pc.Done?
  {
    match pc
    case Idle => Start(i)
    case Lookup => ReadCache(i)
    case CountHit(_) => CountCacheHit(i)
    case Evict => RemoveIfExpired(i)
    case Reserve => TryReserve(i)
    case Waiting => Send(i)
    case Sent => Receive(i, SendFailed, true)
    case SweepClock(_) => ReadSweepClock(i)
    case SweepLoad(_, _) => LoadLastSweep(i)
    case SweepCas(_, _, _) => CompareExchange(i)
    case Sweeping(_) => EndSweep(i)
    case Stamp(_) => TakeStamp(i)
    case Write(_, _) => WriteEntry(i)
    case Drop(_) => DropGuard(i)
  }

  lemma NextEventEnabled(s: State, i: nat)
    requires i < |s.calls| && !s.calls[i].pc.Done? && OrdersOnly(s.calls[i])
    ensures Enabled(s, NextEvent(s.calls[i].pc, i))
  {
  }

  /** No call waits for another: until it is done it has an event of its own to take. */
  lemma EveryCallGoesOn(run: seq<State>, events: seq<Event>, n: nat, i: nat)
    requires IsRun(run, events) && n <= |events| && i < |run[n].calls| && !run[n].calls[i].pc.Done?
    ensures exists e: Event :: !e.Tick? && !e.SetOrdersEnabled? && !e.GiveUp? && e.i == i && Enabled(run[n], e)
  {
    RunOrdersOnly(run, events, n, i);
    NextEventEnabled(run[n], i);
    var e := NextEvent(run[n].calls[i].pc, i);
    assert !e.Tick? && !e.SetOrdersEnabled? && !e.GiveUp? && e.i == i;
  }

  /** What surrounds the calls is free: time passes, the switch is thrown, a call is dropped at
      any await, whatever the state. */
  lemma SurroundingsFree(s: State, to: nat, enabled: bool, i: nat)
    ensures s.now <= to ==> Enabled(s, Tick(to))
    ensures Enabled(s, SetOrdersEnabled(enabled))
    ensures i < |s.calls| && s.calls[i].request.Order? && (s.calls[i].pc.Waiting? || s.calls[i].pc.Sent?) ==>
              Enabled(s, GiveUp(i, Abandoned))
    ensures i < |s.calls| && s.calls[i].request.Order? && s.calls[i].pc.Waiting? ==> Enabled(s, GiveUp(i, NotSent))
  {
  }
}
