/** Any number of `post_order` calls sharing one deduplicator, as a step machine.

    An event is one access to shared state, so a run of events is an interleaving of the
    calls at statement granularity.  `CooperativeRun` is the restriction to runs that switch
    between calls only where the source awaits. */
module OrderProtocol {
  import opened Wrappers
  import opened OrderDedup

  // ----- Gateway replies -----

  datatype OrderAck = AckAccepted | AckRejected | AckAmbiguous

  predicate IsOrderSuccess(code: string) {
    code in {"00039", "00040", "00462", "00463", "00156", "00132"}
  }

  function ClassifyOrderRspCd(code: string): OrderAck {
    if IsOrderSuccess(code) then AckAccepted
    else if code == "" || code == "00000" then AckAmbiguous
    else AckRejected
  }

  /** What one HTTP attempt brought back.  `response` is None when the body does not
      deserialize into the caller's type. */
  datatype Reply =
    | SendFailed
    | NonSuccessStatus(code: string)
    | Undecodable
    | SuccessStatus(code: string, response: Option<Value>)

  /** What a call hands to its caller. */
  datatype CallResult =
    | Halted
    | NotAnOrder
    | KeyFailed
    | ServedFromCache(value: Value)
    | DuplicateOrder
    | NotSent          // preflight, token or serialization failure after the reservation
    | Placed(value: Value)
    | ApiError(code: string)
    | AmbiguousOrder(code: string)
    | HttpError
    | DecodeError
    | Abandoned        // the future was dropped at an await

  function ClassifyReply(reply: Reply): CallResult {
    match reply
    case SendFailed => HttpError
    case NonSuccessStatus(code) => if code == "IGW40011" then ApiError(code) else AmbiguousOrder(code)
    case Undecodable => HttpError
    case SuccessStatus(code, response) =>
      match ClassifyOrderRspCd(code)
      case AckRejected => ApiError(code)
      case AckAmbiguous => AmbiguousOrder(code)
      case AckAccepted => if response.Some? then Placed(response.value) else DecodeError
  }

  // ----- State -----

  datatype Request = Order(key: Key) | NonOrderPolicy | Unserializable

  /** Where a call stands.  Each control point names the shared access it performs next. */
  datatype Pc =
    | Idle                                               // reads the kill switch
    | Lookup                                             // first phase of get
    | CountHit(value: Value)                             // adds to the hit counter
    | Evict                                              // second phase of get
    | Reserve                                            // try_reserve
    | Waiting                                            // rate limiter, preflight, token
    | Sent                                               // the request is on the wire
    | SweepClock(value: Value)                           // insert: reads the sweep clock
    | SweepLoad(value: Value, nowMillis: nat)            //   loads the last sweep time
    | SweepCas(value: Value, nowMillis: nat, last: nat)  //   compare-exchange
    | Sweeping(value: Value)                             //   retain, one entry at a time
    | Stamp(value: Value)                                //   takes the insertion instant
    | Write(value: Value, stamp: nat)                    //   writes the entry
    | Drop(result: CallResult)                           // drops the guard
    | Done(result: CallResult)

  datatype Call = Call(request: Request, pc: Pc)

  /** The history of a run, oldest first. */
  datatype Record =
    | Dispatched(call: nat, key: Key, at: nat)
    | Replied(call: nat, key: Key, reply: Reply)
    | Stored(call: nat, key: Key, entry: CacheEntry)
    | Swept(at: nat)

  datatype State = State(
    ttl: nat,
    enabled: bool,
    now: nat,
    cache: Cache,
    inFlight: set<Key>,
    lastSweep: nat,
    hits: nat,
    calls: seq<Call>,
    written: Cache,      // the last entry stored for each key, never evicted
    log: seq<Record>)

  predicate Holds(pc: Pc) {
    match pc
    case Waiting | Sent | SweepClock(_) | SweepLoad(_, _) | SweepCas(_, _, _) | Sweeping(_)
       | Stamp(_) | Write(_, _) | Drop(_) => true
    case _ => false
  }

  /** Call `i` holds the reservation guard of `key`. */
  predicate Holder(s: State, i: nat, key: Key) {
    i < |s.calls| && s.calls[i].request == Order(key) && Holds(s.calls[i].pc)
  }

  predicate Init(s: State) {
    && s.cache == map[] && s.written == map[] && s.inFlight == {}
    && s.lastSweep == 0 && s.hits == 0 && s.log == []
    && forall i :: 0 <= i < |s.calls| ==> s.calls[i].pc == Idle
  }

  // ----- Events -----

  datatype Event =
    | Tick(to: nat)
    | SetOrdersEnabled(enabled: bool)
    | Start(i: nat)
    | ReadCache(i: nat)
    | CountCacheHit(i: nat)
    | RemoveIfExpired(i: nat)
    | TryReserve(i: nat)
    | GiveUp(i: nat, why: CallResult)
    | Send(i: nat)
    | Receive(i: nat, reply: Reply, cacheable: bool)   // cacheable: re-serializing succeeded
    | ReadSweepClock(i: nat)
    | LoadLastSweep(i: nat)
    | CompareExchange(i: nat)
    | Visit(i: nat, key: Key)
    | EndSweep(i: nat)
    | TakeStamp(i: nat)
    | WriteEntry(i: nat)
    | DropGuard(i: nat)

  predicate At(s: State, i: nat) {
    i < |s.calls|
  }

  predicate Enabled(s: State, e: Event) {
    match e
    case Tick(to) => s.now <= to
    case SetOrdersEnabled(_) => true
    case Start(i) => At(s, i) && s.calls[i].pc.Idle?
    case ReadCache(i) => At(s, i) && s.calls[i].pc.Lookup? && s.calls[i].request.Order?
    case CountCacheHit(i) => At(s, i) && s.calls[i].pc.CountHit? && s.calls[i].request.Order?
    case RemoveIfExpired(i) => At(s, i) && s.calls[i].pc.Evict? && s.calls[i].request.Order?
    case TryReserve(i) => At(s, i) && s.calls[i].pc.Reserve? && s.calls[i].request.Order?
    case GiveUp(i, why) =>
      && At(s, i) && s.calls[i].request.Order?
      && ((s.calls[i].pc.Waiting? && (why == NotSent || why == Abandoned))
          || (s.calls[i].pc.Sent? && why == Abandoned))
    case Send(i) => At(s, i) && s.calls[i].pc.Waiting? && s.calls[i].request.Order?
    case Receive(i, _, _) => At(s, i) && s.calls[i].pc.Sent? && s.calls[i].request.Order?
    case ReadSweepClock(i) => At(s, i) && s.calls[i].pc.SweepClock? && s.calls[i].request.Order?
    case LoadLastSweep(i) => At(s, i) && s.calls[i].pc.SweepLoad? && s.calls[i].request.Order?
    case CompareExchange(i) => At(s, i) && s.calls[i].pc.SweepCas? && s.calls[i].request.Order?
    case Visit(i, _) => At(s, i) && s.calls[i].pc.Sweeping? && s.calls[i].request.Order?
    case EndSweep(i) => At(s, i) && s.calls[i].pc.Sweeping? && s.calls[i].request.Order?
    case TakeStamp(i) => At(s, i) && s.calls[i].pc.Stamp? && s.calls[i].request.Order?
    case WriteEntry(i) => At(s, i) && s.calls[i].pc.Write? && s.calls[i].request.Order?
    case DropGuard(i) => At(s, i) && s.calls[i].pc.Drop? && s.calls[i].request.Order?
  }

  function Go(s: State, i: nat, pc: Pc): State
    requires At(s, i)
  {
    s.(calls := s.calls[i := s.calls[i].(pc := pc)])
  }

  function Apply(s: State, e: Event): State
    requires Enabled(s, e)
  {
    match e
    case Tick(to) => s.(now := to)
    case SetOrdersEnabled(enabled) => s.(enabled := enabled)
    case Start(i) =>
      if !s.enabled then Go(s, i, Done(Halted))
      else (match s.calls[i].request
            case NonOrderPolicy => Go(s, i, Done(NotAnOrder))
            case Unserializable => Go(s, i, Done(KeyFailed))
            case Order(_) => Go(s, i, Lookup))
    case ReadCache(i) =>
      var live := LiveValue(s.cache, s.calls[i].request.key, s.now, s.ttl);
      Go(s, i, if live.Some? then CountHit(live.value) else Evict)
    case CountCacheHit(i) =>
      Go(s, i, Done(ServedFromCache(s.calls[i].pc.value))).(hits := Bump(s.hits))
    case RemoveIfExpired(i) =>
      Go(s, i, Reserve).(cache := EvictExpired(s.cache, s.calls[i].request.key, s.now, s.ttl))
    case TryReserve(i) =>
      var key := s.calls[i].request.key;
      if key in s.inFlight then Go(s, i, Done(DuplicateOrder)).(hits := Bump(s.hits))
      else Go(s, i, Waiting).(inFlight := s.inFlight + {key})
    case GiveUp(i, why) => Go(s, i, Drop(why))
    case Send(i) =>
      Go(s, i, Sent).(log := s.log + [Dispatched(i, s.calls[i].request.key, s.now)])
    case Receive(i, reply, cacheable) =>
      var result := ClassifyReply(reply);
      Go(s, i, if result.Placed? && cacheable then SweepClock(result.value) else Drop(result))
        .(log := s.log + [Replied(i, s.calls[i].request.key, reply)])
    case ReadSweepClock(i) => Go(s, i, SweepLoad(s.calls[i].pc.value, Millis(s.now)))
    case LoadLastSweep(i) =>
      var SweepLoad(value, nowMillis) := s.calls[i].pc;
      Go(s, i, if SweepDue(nowMillis, s.lastSweep) then SweepCas(value, nowMillis, s.lastSweep)
               else Stamp(value))
    case CompareExchange(i) =>
      var SweepCas(value, nowMillis, last) := s.calls[i].pc;
      if s.lastSweep == last
      then Go(s, i, Sweeping(value)).(lastSweep := nowMillis, log := s.log + [Swept(nowMillis)])
      else Go(s, i, Stamp(value))
    case Visit(_, key) => s.(cache := EvictExpired(s.cache, key, s.now, s.ttl))
    case EndSweep(i) => Go(s, i, Stamp(s.calls[i].pc.value))
    case TakeStamp(i) => Go(s, i, Write(s.calls[i].pc.value, s.now))
    case WriteEntry(i) =>
      var Write(value, stamp) := s.calls[i].pc;
      var key := s.calls[i].request.key;
      var entry := CacheEntry(value, stamp);
      Go(s, i, Drop(Placed(value)))
        .(cache := s.cache[key := entry], written := s.written[key := entry],
          log := s.log + [Stored(i, key, entry)])
    case DropGuard(i) =>
      Go(s, i, Done(s.calls[i].pc.result)).(inFlight := s.inFlight - {s.calls[i].request.key})
  }

  // ----- Runs -----

  /** `run` is a sequence of states and `events[n]` leads from its n-th state to the next. */
  ghost predicate IsRun(run: seq<State>, events: seq<Event>) {
    && |run| == |events| + 1
    && Init(run[0])
    && forall n :: 0 <= n < |events| ==> Enabled(run[n], events[n]) && run[n + 1] == Apply(run[n], events[n])
  }

  /** Control points between two awaits: the call cannot be switched out here. */
  predicate Busy(pc: Pc) {
    match pc
    case Idle | Waiting | Sent | Done(_) => false
    case _ => true
  }

  /** Event `e` lets no call overtake one that is between two awaits. */
  predicate Cooperative(s: State, e: Event) {
    e.Tick? || e.SetOrdersEnabled? || forall j :: 0 <= j < |s.calls| && Busy(s.calls[j].pc) ==> j == e.i
  }

  ghost predicate CooperativeRun(run: seq<State>, events: seq<Event>) {
    && IsRun(run, events)
    && forall n :: 0 <= n < |events| ==> Cooperative(run[n], events[n])
  }
}
