/** Any number of tasks sharing one token cache behind a reader-writer lock, as a step machine.
    Each event is one access to the lock or the cache, so a run is an interleaving at that
    granularity.  Locks may be granted in any order. */
module AuthProtocol {
  import opened Wrappers
  import opened Auth

  datatype Request = GetOrRefresh | Clear | Seed(data: TokenData) | Snapshot

  datatype Outcome =
    | Token(accessToken: string)
    | Failed(error: AuthError)
    | Snapped(seen: Option<string>)
    | Finished
    | Cancelled        // the future was dropped at an await

  datatype Pc =
    | WantRead
    | Reading                            // holds the read lock
    | DropRead(next: Pc)                 // holds it still
    | WantWrite
    | Writing                            // holds the write lock, and so on below
    | RateWait                           // the re-check failed: charging the auth bucket
    | Fetching
    | Received(data: TokenData)
    | DropWrite(outcome: Outcome)
    | Done(outcome: Outcome)

  datatype Task = Task(request: Request, pc: Pc)

  /** The history of a run, oldest first. */
  datatype Record =
    | FetchStarted(task: nat, at: Instant)
    | Stored(data: TokenData)
    | Cleared
    | Seeded(data: TokenData)
    | Served(data: TokenData, at: Instant)   // a cached token was handed out

  datatype State = State(
    now: Instant, cache: Option<TokenData>, readers: set<nat>, writer: Option<nat>, tasks: seq<Task>, log: seq<Record>)

  function FirstPc(request: Request): Pc {
    if request.GetOrRefresh? || request.Snapshot? then WantRead else WantWrite
  }

  predicate Init(s: State) {
    && s.cache == None && s.readers == {} && s.writer == None && s.log == []
    && forall i :: 0 <= i < |s.tasks| ==> s.tasks[i].pc == FirstPc(s.tasks[i].request)
  }

  datatype Event =
    | Tick(to: Instant)
    | AcquireRead(i: nat)
    | ReadCache(i: nat)
    | ReleaseRead(i: nat)
    | AcquireWrite(i: nat)
    | Recheck(i: nat)
    | StartFetch(i: nat)
    | EndFetch(i: nat, reply: TokenReply)
    | Store(i: nat)
    | ReleaseWrite(i: nat)
    | Cancel(i: nat)

  predicate HoldsRead(pc: Pc) {
    pc.Reading? || pc.DropRead?
  }

  predicate HoldsWrite(pc: Pc) {
    pc.Writing? || pc.RateWait? || pc.Fetching? || pc.Received? || pc.DropWrite?
  }

  /** Awaits, where a task can be dropped. */
  predicate AtAwait(pc: Pc) {
    pc.WantRead? || pc.WantWrite? || pc.RateWait? || pc.Fetching?
  }

  predicate Enabled(s: State, e: Event) {
    if e.Tick? then s.now <= e.to
    else
      e.i < |s.tasks| &&
      var pc := s.tasks[e.i].pc;
      match e
      case AcquireRead(_) => pc.WantRead? && s.writer.None?
      case ReadCache(_) => pc.Reading?
      case ReleaseRead(_) => pc.DropRead?
      case AcquireWrite(_) => pc.WantWrite? && s.writer.None? && s.readers == {}
      case Recheck(_) => pc.Writing?
      case StartFetch(_) => pc.RateWait?
      case EndFetch(_, _) => pc.Fetching?
      case Store(_) => pc.Received?
      case ReleaseWrite(_) => pc.DropWrite?
      case Cancel(_) => AtAwait(pc)
      case Tick(_) => true
  }

  function Go(s: State, i: nat, pc: Pc): State
    requires i < |s.tasks|
  {
    s.(tasks := s.tasks[i := s.tasks[i].(pc := pc)])
  }

  function Append(s: State, record: Record): State {
    s.(log := s.log + [record])
  }

  /** Under the read lock: a usable token ends `get_or_refresh`. */
  function AfterRead(s: State, request: Request): Pc {
    if request.Snapshot? then Done(Snapped(match s.cache case Some(data) => Some(data.accessToken) case None => None))
    else
      match Usable(s.cache, s.now)
      case Some(token) => Done(Token(token))
      case None => WantWrite
  }

  function Apply(s: State, e: Event): State
    requires Enabled(s, e)
  {
    match e
    case Tick(to) => s.(now := to)
    case AcquireRead(i) => Go(s, i, Reading).(readers := s.readers + {i})
    case ReadCache(i) =>
      var next := AfterRead(s, s.tasks[i].request);
      var moved := Go(s, i, DropRead(next));
      if next.Done? && next.outcome.Token? then Append(moved, Served(s.cache.value, s.now)) else moved
    case ReleaseRead(i) => Go(s, i, s.tasks[i].pc.next).(readers := s.readers - {i})
    case AcquireWrite(i) => Go(s, i, Writing).(writer := Some(i))
    case Recheck(i) =>
      (match s.tasks[i].request
       case Clear => Append(Go(s, i, DropWrite(Finished)), Cleared).(cache := None)
       case Seed(data) => Append(Go(s, i, DropWrite(Finished)), Seeded(data)).(cache := Some(data))
       case _ =>
         match Usable(s.cache, s.now)
         case Some(token) => Append(Go(s, i, DropWrite(Token(token))), Served(s.cache.value, s.now))
         case None => Go(s, i, RateWait))
    case StartFetch(i) => Append(Go(s, i, Fetching), FetchStarted(i, s.now))
    case EndFetch(i, reply) =>
      (match FetchOutcome(reply, s.now)
       case Ok(data) => Go(s, i, Received(data))
       case Err(error) => Go(s, i, DropWrite(Failed(error))))
    case Store(i) =>
      var data := s.tasks[i].pc.data;
      Append(Go(s, i, DropWrite(Token(data.accessToken))), Stored(data)).(cache := Some(data))
    case ReleaseWrite(i) => Go(s, i, Done(s.tasks[i].pc.outcome)).(writer := None)
    case Cancel(i) => Go(s, i, Done(Cancelled)).(writer := if HoldsWrite(s.tasks[i].pc) then None else s.writer)
  }

  ghost predicate IsRun(run: seq<State>, events: seq<Event>) {
    && |run| == |events| + 1
    && Init(run[0])
    && forall n :: 0 <= n < |events| ==> Enabled(run[n], events[n]) && run[n + 1] == Apply(run[n], events[n])
  }

  // ----- The lock -----

  ghost predicate ReadersExact(s: State) {
    forall i :: i in s.readers <==> 0 <= i < |s.tasks| && HoldsRead(s.tasks[i].pc)
  }

  ghost predicate WriterExact(s: State) {
    && (forall i :: 0 <= i < |s.tasks| ==> (HoldsWrite(s.tasks[i].pc) <==> s.writer == Some(i)))
    && (s.writer.Some? ==> s.readers == {} && s.writer.value < |s.tasks|)
  }

  ghost predicate ReadersLeave(s: State) {
    forall i :: 0 <= i < |s.tasks| && s.tasks[i].pc.DropRead? ==>
      s.tasks[i].pc.next.Done? || s.tasks[i].pc.next.WantWrite?
  }

  /** The lock's state is exactly who holds it, and a writer holds it alone. */
  ghost predicate LockInv(s: State) {
    ReadersExact(s) && WriterExact(s) && ReadersLeave(s)
  }

  lemma ReadersStep(s: State, e: Event)
    requires ReadersExact(s) && ReadersLeave(s) && Enabled(s, e)
    ensures ReadersExact(Apply(s, e)) && ReadersLeave(Apply(s, e))
  {
  }

  lemma WriterExactStep(s: State, e: Event)
    requires LockInv(s) && Enabled(s, e)
    ensures WriterExact(Apply(s, e))
  {
  }

  lemma LockStep(s: State, e: Event)
    requires LockInv(s) && Enabled(s, e)
    ensures LockInv(Apply(s, e))
  {
    ReadersStep(s, e);
    WriterExactStep(s, e);
  }

  // ----- The cache and the history -----

  predicate Touches(record: Record) {
    record.Stored? || record.Cleared? || record.Seeded?
  }

  function After(cache: Option<TokenData>, record: Record): Option<TokenData> {
    match record
    case Stored(data) => Some(data)
    case Seeded(data) => Some(data)
    case Cleared => None
    case _ => cache
  }

  /** What the cache holds after a history. */
  function Current(log: seq<Record>): Option<TokenData> {
    if log == [] then None else After(Current(log[..|log| - 1]), log[|log| - 1])
  }

  /** Nothing usable was cached when the history's n-th record was made, a fetch starting. */
  ghost predicate NeededFetch(log: seq<Record>, n: int)
    requires 0 <= n < |log|
  {
    log[n].FetchStarted? ==> Usable(Current(log[..n]), log[n].at).None?
  }

  ghost predicate HandedOut(log: seq<Record>, n: int)
    requires 0 <= n < |log|
  {
    log[n].Served? ==> Current(log[..n]) == Some(log[n].data) && log[n].at + REFRESH_MARGIN < log[n].data.expiresAt
  }

  /** A fetch started before position `until`, and nothing touched the cache since. */
  ghost predicate FetchedSince(log: seq<Record>, until: int)
    requires 0 <= until <= |log|
  {
    exists f :: 0 <= f < until && log[f].FetchStarted? && forall k :: f < k < until ==> !Touches(log[k])
  }

  ghost predicate Timely(log: seq<Record>, now: Instant) {
    && (forall n :: 0 <= n < |log| && log[n].FetchStarted? ==> log[n].at <= now)
    && (forall m, n :: 0 <= m < n < |log| && log[m].FetchStarted? && log[n].FetchStarted? ==> log[m].at <= log[n].at)
  }

  ghost predicate Truthful(log: seq<Record>) {
    && (forall n :: 0 <= n < |log| ==> NeededFetch(log, n) && HandedOut(log, n))
    && (forall n :: 0 <= n < |log| && log[n].Stored? ==> FetchedSince(log, n))
  }

  /** What the writer has established. */
  ghost predicate WriterInv(s: State) {
    s.writer.Some? ==>
      && s.writer.value < |s.tasks|
      && var pc := s.tasks[s.writer.value].pc;
         && (pc.RateWait? ==> Usable(s.cache, s.now).None?)
         && (pc.Fetching? || pc.Received? ==> FetchedSince(s.log, |s.log|))
  }

  ghost predicate HistoryInv(s: State) {
    s.cache == Current(s.log) && Timely(s.log, s.now) && Truthful(s.log) && WriterInv(s)
  }

  lemma CurrentAppend(log: seq<Record>, record: Record)
    ensures Current(log + [record]) == After(Current(log), record)
  {
    assert (log + [record])[..|log|] == log;
  }

  lemma TruthfulAppend(log: seq<Record>, record: Record)
    requires Truthful(log)
    requires record.FetchStarted? ==> Usable(Current(log), record.at).None?
    requires record.Served? ==> Current(log) == Some(record.data) && record.at + REFRESH_MARGIN < record.data.expiresAt
    requires record.Stored? ==> FetchedSince(log, |log|)
    ensures Truthful(log + [record])
  {
    var more := log + [record];
    forall n | 0 <= n < |more|
      ensures NeededFetch(more, n) && HandedOut(more, n)
      ensures more[n].Stored? ==> FetchedSince(more, n)
    {
      if n < |log| {
        assert more[..n] == log[..n];
        assert NeededFetch(log, n) && HandedOut(log, n);
      } else {
        assert more[..n] == log;
      }
      if more[n].Stored? {
        assert FetchedSince(log, n);
        var f :| 0 <= f < n && log[f].FetchStarted? && forall k :: f < k < n ==> !Touches(log[k]);
        assert more[f].FetchStarted? && forall k :: f < k < n ==> !Touches(more[k]);
      }
    }
  }

  lemma FetchedAppend(log: seq<Record>, record: Record)
    requires record.FetchStarted? || (!Touches(record) && FetchedSince(log, |log|))
    ensures FetchedSince(log + [record], |log| + 1)
  {
    var more := log + [record];
    if record.FetchStarted? {
      assert more[|log|].FetchStarted?;
    } else {
      var f :| 0 <= f < |log| && log[f].FetchStarted? && forall k :: f < k < |log| ==> !Touches(log[k]);
      assert more[f].FetchStarted? && forall k :: f < k < |more| ==> !Touches(more[k]);
    }
  }

  /** The record an event appends, if any. */
  function Recorded(s: State, e: Event): Option<Record>
    requires Enabled(s, e)
  {
    match e
    case ReadCache(i) =>
      var next := AfterRead(s, s.tasks[i].request);
      if next.Done? && next.outcome.Token? then Some(Served(s.cache.value, s.now)) else None
    case Recheck(i) =>
      (match s.tasks[i].request
       case Clear => Some(Cleared)
       case Seed(data) => Some(Seeded(data))
       case _ => if Usable(s.cache, s.now).Some? then Some(Served(s.cache.value, s.now)) else None)
    case StartFetch(i) => Some(FetchStarted(i, s.now))
    case Store(i) => Some(Stored(s.tasks[i].pc.data))
    case _ => None
  }

  lemma RecordedExact(s: State, e: Event)
    requires Enabled(s, e)
    ensures var next := Apply(s, e);
      match Recorded(s, e)
      case None => next.log == s.log && next.cache == s.cache
      case Some(record) => next.log == s.log + [record] && next.cache == After(s.cache, record)
  {
  }

  lemma RecordedJustified(s: State, e: Event)
    requires LockInv(s) && HistoryInv(s) && Enabled(s, e) && Recorded(s, e).Some?
    ensures var record := Recorded(s, e).value;
      && (record.FetchStarted? ==> Usable(Current(s.log), record.at).None? && record.at == s.now)
      && (record.Served? ==> Current(s.log) == Some(record.data) && record.at + REFRESH_MARGIN < record.data.expiresAt)
      && (record.Stored? ==> FetchedSince(s.log, |s.log|))
  {
  }

  lemma LogStep(s: State, e: Event)
    requires LockInv(s) && HistoryInv(s) && Enabled(s, e)
    ensures var next := Apply(s, e); next.cache == Current(next.log) && Timely(next.log, next.now) && Truthful(next.log)
  {
    RecordedExact(s, e);
    var now := Apply(s, e).now;
    assert s.now <= now;
    match Recorded(s, e)
    case None =>
    case Some(record) =>
      RecordedJustified(s, e);
      CurrentAppend(s.log, record);
      TruthfulAppend(s.log, record);
      TimelyAppend(s.log, record, s.now);
  }

  lemma TimelyAppend(log: seq<Record>, record: Record, now: Instant)
    requires Timely(log, now) && (record.FetchStarted? ==> record.at == now)
    ensures Timely(log + [record], now)
  {
  }

  lemma WriterStep(s: State, e: Event)
    requires LockInv(s) && HistoryInv(s) && Enabled(s, e)
    ensures WriterInv(Apply(s, e))
  {
    RecordedExact(s, e);
    LockStep(s, e);
    match Recorded(s, e)
    case None =>
    case Some(record) =>
      if record.FetchStarted? || (!Touches(record) && FetchedSince(s.log, |s.log|)) {
        FetchedAppend(s.log, record);
      }
  }

  ghost predicate RunInv(s: State) {
    LockInv(s) && HistoryInv(s)
  }

  lemma {:induction false} RunKeepsInv(run: seq<State>, events: seq<Event>, n: nat)
    requires IsRun(run, events) && n < |run|
    ensures RunInv(run[n])
  {
    if n > 0 {
      RunKeepsInv(run, events, n - 1);
      LockStep(run[n - 1], events[n - 1]);
      LogStep(run[n - 1], events[n - 1]);
      WriterStep(run[n - 1], events[n - 1]);
    }
  }

  // ----- The properties -----

  /** At most one task is charging for a fetch, fetching, or storing its result. */
  lemma OneFetchAtATime(run: seq<State>, events: seq<Event>, n: nat, i: nat, j: nat)
    requires IsRun(run, events) && n < |run| && i < |run[n].tasks| && j < |run[n].tasks|
    requires HoldsWrite(run[n].tasks[i].pc) && HoldsWrite(run[n].tasks[j].pc)
    ensures i == j && run[n].readers == {}
  {
    RunKeepsInv(run, events, n);
  }

  /** Once every task is done, nobody holds the lock, even where tasks were cancelled. */
  lemma LockReleased(run: seq<State>, events: seq<Event>, n: nat)
    requires IsRun(run, events) && n < |run|
    requires forall i :: 0 <= i < |run[n].tasks| ==> run[n].tasks[i].pc.Done?
    ensures run[n].readers == {} && run[n].writer == None
  {
    RunKeepsInv(run, events, n);
  }

  /** No deadlock: until all tasks are done, one of them can go on. */
  lemma SomeTaskGoesOn(run: seq<State>, events: seq<Event>, n: nat, i: nat)
    requires IsRun(run, events) && n < |run| && i < |run[n].tasks| && !run[n].tasks[i].pc.Done?
    ensures exists e: Event :: !e.Tick? && !e.Cancel? && Enabled(run[n], e)
  {
    var s := run[n];
    RunKeepsInv(run, events, n);
    if s.writer.Some? {
      WriterGoesOn(s, s.writer.value);
    } else if j :| j in s.readers {
      assert Enabled(s, if s.tasks[j].pc.Reading? then ReadCache(j) else ReleaseRead(j));
    } else {
      assert Enabled(s, if s.tasks[i].pc.WantRead? then AcquireRead(i) else AcquireWrite(i));
    }
  }

  lemma WriterGoesOn(s: State, i: nat)
    requires i < |s.tasks| && HoldsWrite(s.tasks[i].pc)
    ensures exists e: Event :: !e.Tick? && !e.Cancel? && Enabled(s, e)
  {
    match s.tasks[i].pc
    case Writing => assert Enabled(s, Recheck(i));
    case RateWait => assert Enabled(s, StartFetch(i));
    case Fetching => assert Enabled(s, EndFetch(i, NoResponse));
    case Received(_) => assert Enabled(s, Store(i));
    case DropWrite(_) => assert Enabled(s, ReleaseWrite(i));
  }

  /** The cache changes only when the one writer stores a fetched token, clears or seeds: a
      failed or cancelled fetch leaves it as it was. */
  lemma OnlyTheWriterChangesTheCache(run: seq<State>, events: seq<Event>, n: nat)
    requires IsRun(run, events) && n < |events| && run[n + 1].cache != run[n].cache
    ensures events[n].Store? || (events[n].Recheck? &&
        run[n].tasks[events[n].i].request in ClearOrSeed(run[n], events[n].i))
    ensures run[n].writer == Some(events[n].i) && run[n].readers == {}
  {
    RunKeepsInv(run, events, n);
  }

  function ClearOrSeed(s: State, i: nat): set<Request>
    requires i < |s.tasks|
  {
    if s.tasks[i].request.Clear? || s.tasks[i].request.Seed? then {s.tasks[i].request} else {}
  }

  /** No fetch starts before a stored token is within five minutes of its expiry, unless the
      cache was cleared or seeded in between. */
  lemma NoEarlyRefetch(run: seq<State>, events: seq<Event>, n: nat, a: nat, b: nat)
    requires IsRun(run, events) && n < |run| && a < b < |run[n].log|
    requires run[n].log[a].Stored? && run[n].log[b].FetchStarted?
    requires forall k :: a < k < b ==> !run[n].log[k].Cleared? && !run[n].log[k].Seeded?
    ensures run[n].log[b].at + REFRESH_MARGIN >= run[n].log[a].data.expiresAt
  {
    RunKeepsInv(run, events, n);
    Refetch(run[n].log, run[n].now, a, b);
  }

  lemma {:induction false} Refetch(log: seq<Record>, now: Instant, a: nat, b: nat)
    requires Timely(log, now) && Truthful(log) && a < b < |log| && log[a].Stored? && log[b].FetchStarted?
    requires forall k :: a < k < b ==> !log[k].Cleared? && !log[k].Seeded?
    ensures log[b].at + REFRESH_MARGIN >= log[a].data.expiresAt
    decreases b
  {
    if f :| a < f < b && log[f].FetchStarted? {
      Refetch(log, now, a, f);
    } else {
      forall c | a < c < b ensures !Touches(log[c]) {
        StoredAfter(log, a, c);
      }
      CurrentSince(log, a, b);
      assert NeededFetch(log, b);
    }
  }

  /** Between two stored tokens a fetch starts. */
  lemma StoredAfter(log: seq<Record>, a: nat, c: nat)
    requires Truthful(log) && a < c < |log| && log[a].Stored?
    ensures log[c].Stored? ==> exists f :: a < f < c && log[f].FetchStarted?
  {
    if log[c].Stored? {
      assert FetchedSince(log, c);
      var f :| 0 <= f < c && log[f].FetchStarted? && forall k :: f < k < c ==> !Touches(log[k]);
      assert f > a;
    }
  }

  lemma {:induction false} CurrentSince(log: seq<Record>, a: nat, b: nat)
    requires a < b <= |log| && log[a].Stored? && forall k :: a < k < b ==> !Touches(log[k])
    ensures Current(log[..b]) == Some(log[a].data)
    decreases b
  {
    assert log[..b][..b - 1] == log[..b - 1];
    if a < b - 1 {
      CurrentSince(log, a, b - 1);
    }
  }

  /** A token handed out from the cache was the last one stored or seeded, and had more than
      five minutes left. */
  lemma ServedTokensAreFresh(run: seq<State>, events: seq<Event>, n: nat, k: nat)
    requires IsRun(run, events) && n < |run| && k < |run[n].log| && run[n].log[k].Served?
    ensures Current(run[n].log[..k]) == Some(run[n].log[k].data)
    ensures run[n].log[k].at + REFRESH_MARGIN < run[n].log[k].data.expiresAt
  {
    RunKeepsInv(run, events, n);
    assert HandedOut(run[n].log, k);
  }
}
