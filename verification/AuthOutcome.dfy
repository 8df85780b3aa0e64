/** What a token request ends with, and why, over every interleaving. */
module AuthOutcome {
  import opened Wrappers
  import opened Auth
  import opened AuthProtocol

  const FIVE_MINUTES: int := 5 * 60 * 1_000_000_000

  /** The outcome a task is bound for, once it is settled. */
  function Bound(pc: Pc): Option<Outcome> {
    match pc
    case DropRead(next) => if next.Done? then Some(next.outcome) else None
    case Received(data) => Some(Token(data.accessToken))
    case DropWrite(outcome) => Some(outcome)
    case Done(outcome) => Some(outcome)
    case _ => None
  }

  /** A cached token with more than five minutes left. */
  predicate CachedFresh(s: State, token: string) {
    s.cache.Some? && s.cache.value.accessToken == token && s.now + FIVE_MINUTES < s.cache.value.expiresAt
  }

  /** Event `e`, taken at state `s`, settles task `i` with the outcome. */
  predicate Causes(s: State, e: Event, i: nat, outcome: Outcome) {
    i < |s.tasks| &&
    var request := s.tasks[i].request;
    match outcome
    case Token(token) =>
      && request == GetOrRefresh
      && (|| ((e == ReadCache(i) || e == Recheck(i)) && CachedFresh(s, token))
          || (e.EndFetch? && e.i == i && Brings(e.reply) && e.reply.body.value.accessToken == token))
    case Failed(_) => e.EndFetch? && e.i == i && !Brings(e.reply)
    case Snapped(seen) =>
      e == ReadCache(i) && request == Snapshot
      && seen == (if s.cache.Some? then Some(s.cache.value.accessToken) else None)
    case Finished => e == Recheck(i) && (request == Clear || request.Seed?)
    case Cancelled => e == Cancel(i)
  }

  ghost predicate Caused(run: seq<State>, events: seq<Event>, n: nat, i: nat, outcome: Outcome) {
    exists k: nat :: k < n && k < |events| && k < |run| && Causes(run[k], events[k], i, outcome)
  }

  lemma OthersStay(s: State, e: Event, i: nat)
    requires Enabled(s, e) && i < |s.tasks| && (e.Tick? || e.i != i)
    ensures i < |Apply(s, e).tasks| && Apply(s, e).tasks[i] == s.tasks[i]
  {
  }

  lemma BoundStays(s: State, e: Event, i: nat)
    requires Enabled(s, e) && i < |s.tasks| && Bound(s.tasks[i].pc).Some?
    ensures i < |Apply(s, e).tasks| && Bound(Apply(s, e).tasks[i].pc) == Bound(s.tasks[i].pc)
  {
    if e.Tick? || e.i != i {
      OthersStay(s, e, i);
    }
  }

  /** Readers ask or look; writers do not just look, and only an asker fetches. */
  predicate Proper(task: Task) {
    var request := task.request;
    match task.pc
    case WantRead | Reading => request.GetOrRefresh? || request.Snapshot?
    case DropRead(next) => if next.Done? then true else request.GetOrRefresh? && next.WantWrite?
    case WantWrite | Writing => !request.Snapshot?
    case RateWait | Fetching | Received(_) => request.GetOrRefresh?
    case _ => true
  }

  lemma ProperStep(s: State, e: Event, i: nat)
    requires Enabled(s, e) && i < |s.tasks| && Proper(s.tasks[i])
    ensures i < |Apply(s, e).tasks| && Proper(Apply(s, e).tasks[i])
  {
    if e.Tick? || e.i != i {
      OthersStay(s, e, i);
    }
  }

  lemma {:induction false} RunProper(run: seq<State>, events: seq<Event>, n: nat, i: nat)
    requires IsRun(run, events) && n <= |events| && i < |run[n].tasks|
    ensures Proper(run[n].tasks[i])
  {
    if n > 0 {
      SameTaskCount(run[n - 1], events[n - 1]);
      RunProper(run, events, n - 1, i);
      ProperStep(run[n - 1], events[n - 1], i);
    }
  }

  lemma NewlyBound(s: State, e: Event, i: nat)
    requires Enabled(s, e) && i < |s.tasks| && Proper(s.tasks[i]) && Bound(s.tasks[i].pc).None?
    ensures i < |Apply(s, e).tasks|
    ensures var bound := Bound(Apply(s, e).tasks[i].pc); bound.Some? ==> Causes(s, e, i, bound.value)
  {
    if e.Tick? || e.i != i {
      OthersStay(s, e, i);
    }
  }

  lemma SameTaskCount(s: State, e: Event)
    requires Enabled(s, e)
    ensures |Apply(s, e).tasks| == |s.tasks|
  {
  }

  lemma {:induction false} BoundIsCaused(run: seq<State>, events: seq<Event>, n: nat, i: nat)
    requires IsRun(run, events) && n <= |events| && i < |run[n].tasks|
    ensures Bound(run[n].tasks[i].pc).Some? ==> Caused(run, events, n, i, Bound(run[n].tasks[i].pc).value)
  {
    if n > 0 {
      SameTaskCount(run[n - 1], events[n - 1]);
      BoundIsCaused(run, events, n - 1, i);
      if Bound(run[n - 1].tasks[i].pc).Some? {
        BoundStays(run[n - 1], events[n - 1], i);
      } else {
        RunProper(run, events, n - 1, i);
        NewlyBound(run[n - 1], events[n - 1], i);
      }
    }
  }

  /** Over every interleaving each outcome has its cause: a token was fresh in the cache when it
      was read, or came with its own fetch; only a reply without a usable token fails. */
  lemma EveryOutcomeIsCaused(run: seq<State>, events: seq<Event>, n: nat, i: nat)
    requires IsRun(run, events) && n <= |events| && i < |run[n].tasks| && run[n].tasks[i].pc.Done?
    ensures Caused(run, events, n, i, run[n].tasks[i].pc.outcome)
  {
    BoundIsCaused(run, events, n, i);
  }

  /** A task that asks for a token and reads the cache is served exactly a token with more than
      five minutes left. */
  lemma ServedIffFresh(run: seq<State>, events: seq<Event>, n: nat, i: nat, token: string)
    requires IsRun(run, events) && n < |events| && (events[n] == ReadCache(i) || events[n] == Recheck(i))
    requires i < |run[n].tasks| && run[n].tasks[i].request == GetOrRefresh
    ensures i < |run[n + 1].tasks|
    ensures Bound(run[n + 1].tasks[i].pc) == Some(Token(token)) <==> CachedFresh(run[n], token)
    ensures Bound(run[n + 1].tasks[i].pc) == None <==> forall t :: !CachedFresh(run[n], t)
  {
    assert run[n + 1] == Apply(run[n], events[n]);
    assert run[n].cache.Some? ==>
      (CachedFresh(run[n], run[n].cache.value.accessToken) <==> Usable(run[n].cache, run[n].now).Some?);
  }

  // ----- What is stored -----

  /** The token a task fetched itself, with the lifetime the reply gave it. */
  predicate FetchedBy(s: State, e: Event, i: nat, data: TokenData) {
    && e.EndFetch? && e.i == i && Brings(e.reply) && data.accessToken == e.reply.body.value.accessToken
    && FetchOutcome(e.reply, s.now) == Ok(data)
  }

  ghost predicate Fetched(run: seq<State>, events: seq<Event>, n: nat, i: nat, data: TokenData) {
    exists k: nat :: k < n && k < |events| && k < |run| && FetchedBy(run[k], events[k], i, data)
  }

  lemma ReceivedBefore(s: State, e: Event, i: nat)
    requires Enabled(s, e) && i < |s.tasks| && Proper(s.tasks[i])
    requires i < |Apply(s, e).tasks| && Apply(s, e).tasks[i].pc.Received?
    ensures s.tasks[i].pc == Apply(s, e).tasks[i].pc || FetchedBy(s, e, i, Apply(s, e).tasks[i].pc.data)
  {
    if e.Tick? || e.i != i {
      OthersStay(s, e, i);
    }
  }

  lemma {:induction false} ReceivedIsFetched(run: seq<State>, events: seq<Event>, n: nat, i: nat)
    requires IsRun(run, events) && n <= |events| && i < |run[n].tasks| && run[n].tasks[i].pc.Received?
    ensures Fetched(run, events, n, i, run[n].tasks[i].pc.data)
  {
    if n > 0 {
      SameTaskCount(run[n - 1], events[n - 1]);
      RunProper(run, events, n - 1, i);
      ReceivedBefore(run[n - 1], events[n - 1], i);
      if run[n - 1].tasks[i].pc == run[n].tasks[i].pc {
        ReceivedIsFetched(run, events, n - 1, i);
      } else {
        assert FetchedBy(run[n - 1], events[n - 1], i, run[n].tasks[i].pc.data);
      }
    }
  }

  /** What a task stores is what its own fetch brought, and the cache then holds exactly that. */
  lemma StoresItsFetch(run: seq<State>, events: seq<Event>, n: nat)
    requires IsRun(run, events) && n < |events| && events[n].Store?
    ensures run[n + 1].cache.Some? && Fetched(run, events, n, events[n].i, run[n + 1].cache.value)
  {
    ReceivedIsFetched(run, events, n, events[n].i);
    assert run[n + 1] == Apply(run[n], events[n]);
  }

  /** Time passes freely, and a task can be dropped wherever it waits. */
  lemma SurroundingsFree(s: State, to: Instant, i: nat)
    ensures s.now <= to ==> Enabled(s, Tick(to))
    ensures i < |s.tasks| ==>
              var pc := s.tasks[i].pc;
              pc.WantRead? || pc.WantWrite? || pc.RateWait? || pc.Fetching? ==> Enabled(s, Cancel(i))
  {
  }
}
