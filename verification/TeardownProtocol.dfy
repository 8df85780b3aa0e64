/** A teardown beside running dispatch tasks and a venue, as a step machine: tasks dispatch
    orders, orders fill, and the teardown quiesces, scans and cancels, in any interleaving. */
module TeardownProtocol {
  import opened Wrappers
  import opened Holdings
  import opened Book
  import opened Teardown

  datatype Life = Running | Ended | Aborted

  datatype Task = Task(life: Life, tracked: bool)

  /** `early` are the tasks tracked before the quiesce took the handles. */
  datatype Phase =
    | Ready
    | Draining(early: set<nat>, left: seq<nat>, report: QuiesceReport)
    | Scanning(early: set<nat>)
    | Cancelling(early: set<nat>, targets: seq<Target>, tries: nat)
    | Over(early: set<nat>, result: Option<nat>)

  /** `owner` maps every order ever dispatched to its task; `attempts` has one entry per
      target settled or given up, and `acks` counts acknowledged cancels. */
  datatype State = State(
    tasks: seq<Task>, handles: seq<nat>, resting: set<string>, owner: map<string, nat>,
    phase: Phase, acks: nat, attempts: seq<nat>)

  predicate Init(s: State) {
    && s.tasks == [] && s.handles == [] && s.resting == {} && s.owner == map[]
    && s.phase == Ready && s.acks == 0 && s.attempts == []
  }

  datatype Event =
    | Spawn
    | TrackTask(i: nat)
    | Dispatch(i: nat, ordno: string)
    | End(i: nat)
    | Fill(ordno: string)
    | TakeHandles
    | Drain                                                  // the next task ended in time
    | Abort                                                  // the budget ran out on it
    | EndQuiesce
    | Scan(reply: Result<(seq<OrderRow>, string), int>)
    | Cancel(outcome: CancelOutcome, gone: bool)             // gone: an unproven cancel took effect
    | Report

  predicate IsRunning(s: State, i: nat) {
    i < |s.tasks| && s.tasks[i].life.Running?
  }

  /** A complete reply shows every resting order. */
  ghost predicate Shows(s: State, rows: seq<OrderRow>) {
    forall ordno :: ordno in s.resting ==> exists row :: row in rows && Trim(row.ordno) == ordno && Rests(row.ordrem)
  }

  ghost predicate Enabled(s: State, e: Event) {
    match e
    case Spawn => true
    case TrackTask(i) => i < |s.tasks| && !s.tasks[i].tracked
    case Dispatch(i, ordno) => IsRunning(s, i) && ordno !in s.owner
    case End(i) => IsRunning(s, i)
    case Fill(ordno) => true
    case TakeHandles => s.phase.Ready?
    case Drain => s.phase.Draining? && s.phase.left != [] && !IsRunning(s, s.phase.left[0])
    case Abort => s.phase.Draining? && s.phase.left != []
    case EndQuiesce => s.phase.Draining? && s.phase.left == []
    case Scan(reply) => s.phase.Scanning? && (reply.Ok? && Trim(reply.value.1) == "" ==> Shows(s, reply.value.0))
    case Cancel(_, _) => s.phase.Cancelling? && s.phase.targets != []
    case Report => s.phase.Cancelling? && s.phase.targets == []
  }

  function Stopped(s: State): set<nat> {
    set i | 0 <= i < |s.tasks| && !s.tasks[i].life.Running?
  }

  function TrackedTasks(s: State): set<nat> {
    set i | 0 <= i < |s.tasks| && s.tasks[i].tracked
  }

  /** What one cancel attempt does: an acknowledged or rejected cancel leaves nothing resting. */
  function AfterCancel(s: State, outcome: CancelOutcome, gone: bool): State
    requires s.phase.Cancelling? && s.phase.targets != []
  {
    var Cancelling(early, targets, tries) := s.phase;
    var resting := if outcome == Acked || outcome == Refused(Reject) || gone
                   then s.resting - {targets[0].ordno} else s.resting;
    if Settles(outcome) then
      s.(resting := resting, acks := s.acks + (if outcome.Acked? then 1 else 0), attempts := s.attempts + [tries + 1],
         phase := Cancelling(early, targets[1..], 0))
    else if tries + 1 < CANCEL_ALL_ATTEMPTS then s.(resting := resting, phase := Cancelling(early, targets, tries + 1))
    else s.(resting := resting, attempts := s.attempts + [tries + 1], phase := Over(early, None))
  }

  ghost function Apply(s: State, e: Event): State
    requires Enabled(s, e)
  {
    match e
    case Spawn => s.(tasks := s.tasks + [Task(Running, false)])
    case TrackTask(i) =>
      s.(tasks := s.tasks[i := s.tasks[i].(tracked := true)], handles := Keep(s.handles, Stopped(s)) + [i])
    case Dispatch(i, ordno) => s.(resting := s.resting + {ordno}, owner := s.owner[ordno := i])
    case End(i) => s.(tasks := s.tasks[i := s.tasks[i].(life := Ended)])
    case Fill(ordno) => s.(resting := s.resting - {ordno})
    case TakeHandles => s.(handles := [], phase := Draining(TrackedTasks(s), s.handles, QuiesceReport(0, 0)))
    case Drain =>
      var Draining(early, left, report) := s.phase;
      s.(phase := Draining(early, left[1..], report.(drained := report.drained + 1)))
    case Abort =>
      var Draining(early, left, report) := s.phase;
      var tasks := if left[0] < |s.tasks| && s.tasks[left[0]].life.Running?
                   then s.tasks[left[0] := s.tasks[left[0]].(life := Aborted)] else s.tasks;
      s.(tasks := tasks, phase := Draining(early, left[1..], report.(aborted := report.aborted + 1)))
    case EndQuiesce => s.(phase := Scanning(s.phase.early))
    case Scan(reply) =>
      s.(phase := if reply.Ok? && Trim(reply.value.1) == "" then Cancelling(s.phase.early, Targets(reply.value.0), 0)
                  else Over(s.phase.early, None))
    case Cancel(outcome, gone) => AfterCancel(s, outcome, gone)
    case Report => s.(phase := Over(s.phase.early, Some(s.acks)))
  }

  ghost predicate IsRun(run: seq<State>, events: seq<Event>) {
    && |run| == |events| + 1
    && Init(run[0])
    && forall n :: 0 <= n < |events| ==> Enabled(run[n], events[n]) && run[n + 1] == Apply(run[n], events[n])
  }

  // ----- The invariant -----

  /** A tracked task that is running can still be reached through its handle. */
  ghost predicate HandlesInv(s: State) {
    && (forall h :: h in s.handles ==> h < |s.tasks|)
    && (s.phase.Ready? ==> forall i :: 0 <= i < |s.tasks| && s.tasks[i].tracked && IsRunning(s, i) ==> i in s.handles)
    && (s.phase.Draining? ==> forall i :: i in s.phase.early && IsRunning(s, i) ==> i in s.phase.left)
    && (!s.phase.Ready? ==> forall i :: i in s.phase.early ==> i < |s.tasks|)
  }

  predicate Quiet(phase: Phase) {
    phase.Scanning? || phase.Cancelling? || phase.Over?
  }

  /** After the quiesce none of the early tasks runs. */
  ghost predicate QuietInv(s: State) {
    Quiet(s.phase) ==> forall i :: i in s.phase.early ==> !IsRunning(s, i)
  }

  ghost predicate Targeted(targets: seq<Target>, ordno: string) {
    exists k :: 0 <= k < |targets| && targets[k].ordno == ordno
  }

  ghost predicate EarlyOrder(s: State, ordno: string) {
    !s.phase.Ready? && ordno in s.resting && ordno in s.owner && s.owner[ordno] in s.phase.early
  }

  /** What still rests of the early tasks' orders is still to be cancelled. */
  ghost predicate TargetsInv(s: State) {
    && (forall ordno :: ordno in s.resting ==> ordno in s.owner)
    && (s.phase.Cancelling? ==> forall ordno :: EarlyOrder(s, ordno) ==> Targeted(s.phase.targets, ordno))
    && (s.phase.Over? && s.phase.result.Some? ==> forall ordno :: !EarlyOrder(s, ordno))
  }

  ghost predicate AttemptsInv(s: State) {
    && (forall k :: 0 <= k < |s.attempts| ==> 1 <= s.attempts[k] <= CANCEL_ALL_ATTEMPTS)
    && (s.phase.Cancelling? ==> s.phase.tries < CANCEL_ALL_ATTEMPTS)
    && (s.phase.Over? && s.phase.result.Some? ==> s.phase.result.value == s.acks)
    && s.acks <= |s.attempts|
  }

  ghost predicate Inv(s: State) {
    HandlesInv(s) && QuietInv(s) && TargetsInv(s) && AttemptsInv(s)
  }

  lemma HandlesStep(s: State, e: Event)
    requires HandlesInv(s) && Enabled(s, e)
    ensures HandlesInv(Apply(s, e))
  {
    var next := Apply(s, e);
    if e.TrackTask? && s.phase.Ready? {
      forall i | 0 <= i < |next.tasks| && next.tasks[i].tracked && IsRunning(next, i) ensures i in next.handles {
        assert i == e.i || i in s.handles;
      }
    } else if e.Drain? || e.Abort? {
      var left := s.phase.left;
      assert left == [left[0]] + left[1..];
    }
  }

  lemma QuietStep(s: State, e: Event)
    requires HandlesInv(s) && QuietInv(s) && Enabled(s, e)
    ensures QuietInv(Apply(s, e))
  {
  }

  lemma ScanStep(s: State, e: Event)
    requires TargetsInv(s) && Enabled(s, e) && e.Scan?
    ensures TargetsInv(Apply(s, e))
  {
    var next := Apply(s, e);
    if next.phase.Cancelling? {
      forall ordno | EarlyOrder(next, ordno) ensures Targeted(next.phase.targets, ordno) {
        var row :| row in e.reply.value.0 && Trim(row.ordno) == ordno && Rests(row.ordrem);
        var i :| 0 <= i < |e.reply.value.0| && e.reply.value.0[i] == row;
        TargetsExact(e.reply.value.0, TargetOf(row));
        var k :| 0 <= k < |next.phase.targets| && next.phase.targets[k] == TargetOf(row);
      }
    }
  }

  lemma CancelStep(s: State, e: Event)
    requires TargetsInv(s) && Enabled(s, e) && e.Cancel?
    ensures TargetsInv(Apply(s, e))
  {
    var next := Apply(s, e);
    var targets := s.phase.targets;
    if next.phase.Cancelling? {
      forall ordno | EarlyOrder(next, ordno) ensures Targeted(next.phase.targets, ordno) {
        assert EarlyOrder(s, ordno);
        var k :| 0 <= k < |targets| && targets[k].ordno == ordno;
        if Settles(e.outcome) {
          assert targets[1..][k - 1] == targets[k];
        }
      }
    }
  }

  lemma TargetsStep(s: State, e: Event)
    requires QuietInv(s) && TargetsInv(s) && Enabled(s, e)
    ensures TargetsInv(Apply(s, e))
  {
    if e.Scan? {
      ScanStep(s, e);
    } else if e.Cancel? {
      CancelStep(s, e);
    } else {
      var next := Apply(s, e);
      forall ordno | EarlyOrder(next, ordno) && (next.phase.Cancelling? || next.phase.Over?)
        ensures EarlyOrder(s, ordno)
      {
      }
    }
  }

  lemma AttemptsStep(s: State, e: Event)
    requires AttemptsInv(s) && Enabled(s, e)
    ensures AttemptsInv(Apply(s, e))
  {
  }

  lemma {:induction false} RunKeepsInv(run: seq<State>, events: seq<Event>, n: nat)
    requires IsRun(run, events) && n < |run|
    ensures Inv(run[n])
  {
    if n > 0 {
      RunKeepsInv(run, events, n - 1);
      HandlesStep(run[n - 1], events[n - 1]);
      QuietStep(run[n - 1], events[n - 1]);
      TargetsStep(run[n - 1], events[n - 1]);
      AttemptsStep(run[n - 1], events[n - 1]);
    }
  }

  // ----- The properties -----

  lemma {:induction false} EarlyFixed(run: seq<State>, events: seq<Event>, m: nat, n: nat)
    requires IsRun(run, events) && m <= n < |run| && !run[m].phase.Ready?
    ensures !run[n].phase.Ready? && run[n].phase.early == run[m].phase.early
    ensures Quiet(run[m].phase) ==> Quiet(run[n].phase)
    decreases n
  {
    if m < n {
      EarlyFixed(run, events, m, n - 1);
      assert run[n] == Apply(run[n - 1], events[n - 1]);
    }
  }

  /** The early tasks are exactly those tracked when the handles were taken. */
  lemma EarlyAreTheTracked(run: seq<State>, events: seq<Event>, n: nat)
    requires IsRun(run, events) && n < |events| && events[n].TakeHandles?
    ensures forall i :: i in run[n + 1].phase.early <==> 0 <= i < |run[n].tasks| && run[n].tasks[i].tracked
  {
  }

  /** Once the quiesce has returned, no task tracked before it ever dispatches again. */
  lemma NoDispatchAfterQuiesce(run: seq<State>, events: seq<Event>, m: nat, n: nat)
    requires IsRun(run, events) && m <= n < |events|
    requires Quiet(run[m].phase) && events[n].Dispatch?
    ensures events[n].i !in run[m].phase.early
  {
    EarlyFixed(run, events, m, n);
    RunKeepsInv(run, events, n);
    assert Enabled(run[n], events[n]);
  }

  function AckEvents(events: seq<Event>): nat {
    if events == [] then 0
    else
      var last := events[|events| - 1];
      AckEvents(events[..|events| - 1]) + if last.Cancel? && last.outcome.Acked? then 1 else 0
  }

  lemma {:induction false} AcksAreCounted(run: seq<State>, events: seq<Event>, n: nat)
    requires IsRun(run, events) && n < |run|
    ensures run[n].acks == AckEvents(events[..n])
  {
    if n > 0 {
      AcksAreCounted(run, events, n - 1);
      assert events[..n][..n - 1] == events[..n - 1];
      assert run[n] == Apply(run[n - 1], events[n - 1]);
    }
  }

  /** Where the teardown reports success, no order of an early task rests, then or later; the
      number reported is that of the acknowledged cancels; and no target took more than three
      attempts.  An order listed twice in the inquiry is two targets. */
  lemma ReportedCleanIsClean(run: seq<State>, events: seq<Event>, n: nat)
    requires IsRun(run, events) && n < |run| && run[n].phase.Over? && run[n].phase.result.Some?
    ensures forall ordno ::
        ordno in run[n].resting ==> ordno in run[n].owner && run[n].owner[ordno] !in run[n].phase.early
    ensures run[n].phase.result == Some(AckEvents(events[..n]))
    ensures forall k :: 0 <= k < |run[n].attempts| ==> 1 <= run[n].attempts[k] <= 3
  {
    RunKeepsInv(run, events, n);
    AcksAreCounted(run, events, n);
    forall ordno | ordno in run[n].resting ensures run[n].owner[ordno] !in run[n].phase.early {
      assert !EarlyOrder(run[n], ordno);
    }
  }

  // ----- Handles and attempts, exactly -----

  /** Tracking a task drops the handles of those that no longer run, and no other. */
  lemma TrackKeepsTheRunning(run: seq<State>, events: seq<Event>, n: nat, h: nat)
    requires IsRun(run, events) && n < |events| && events[n].TrackTask?
    ensures h in run[n + 1].handles <==> h == events[n].i || (h in run[n].handles && IsRunning(run[n], h))
  {
    RunKeepsInv(run, events, n);
    assert run[n + 1] == Apply(run[n], events[n]);
  }

  /** The outcomes of the cancels so far, in order. */
  function Outcomes(events: seq<Event>): seq<CancelOutcome> {
    if events == [] then []
    else
      var last := events[|events| - 1];
      Outcomes(events[..|events| - 1]) + if last.Cancel? then [last.outcome] else []
  }

  function Sum(s: seq<nat>): nat {
    if s == [] then 0 else Sum(s[..|s| - 1]) + s[|s| - 1]
  }

  lemma SumGrows(s: seq<nat>, n: nat)
    ensures Sum(s + [n]) == Sum(s) + n
  {
    assert (s + [n])[..|s|] == s;
  }

  /** The last `k` outcomes prove nothing. */
  predicate EndsUnproven(outcomes: seq<CancelOutcome>, k: nat) {
    k <= |outcomes| && forall i :: |outcomes| - k <= i < |outcomes| ==> outcomes[i] !in {Acked, Refused(Reject)}
  }

  ghost predicate AttemptsFollow(s: State, outcomes: seq<CancelOutcome>) {
    match s.phase
    case Cancelling(_, targets, tries) =>
      && Sum(s.attempts) + tries == |outcomes| && EndsUnproven(outcomes, tries) && tries < 3
      && (targets == [] ==> tries == 0)
    case Over(_, result) =>
      && Sum(s.attempts) == |outcomes|
      && (result.None? && s.attempts != [] ==> s.attempts[|s.attempts| - 1] == 3 && EndsUnproven(outcomes, 3))
      && (result.Some? ==> |outcomes| > 0 ==> outcomes[|outcomes| - 1] in {Acked, Refused(Reject)})
    case _ => s.attempts == [] && outcomes == []
  }

  lemma CancelFollows(s: State, e: Event, outcomes: seq<CancelOutcome>)
    requires AttemptsFollow(s, outcomes) && Enabled(s, e) && e.Cancel?
    requires s.phase.tries == 0 && outcomes != [] ==> outcomes[|outcomes| - 1] in {Acked, Refused(Reject)}
    ensures AttemptsFollow(Apply(s, e), outcomes + [e.outcome])
  {
    SumGrows(s.attempts, s.phase.tries + 1);
  }

  /** Between two targets the last outcome is one that settled its target. */
  ghost predicate BetweenTargets(s: State, outcomes: seq<CancelOutcome>) {
    s.phase.Cancelling? && s.phase.tries == 0 && outcomes != [] ==>
      outcomes[|outcomes| - 1] in {Acked, Refused(Reject)}
  }

  lemma {:induction false} AttemptsAreOutcomes(run: seq<State>, events: seq<Event>, n: nat)
    requires IsRun(run, events) && n < |run|
    ensures AttemptsFollow(run[n], Outcomes(events[..n])) && BetweenTargets(run[n], Outcomes(events[..n]))
  {
    if n > 0 {
      AttemptsAreOutcomes(run, events, n - 1);
      var s, e, outcomes := run[n - 1], events[n - 1], Outcomes(events[..n - 1]);
      assert events[..n][..n - 1] == events[..n - 1] && run[n] == Apply(s, e);
      if e.Cancel? {
        CancelFollows(s, e, outcomes);
      } else {
        OthersFollow(s, e, outcomes);
      }
    }
  }

  lemma OthersFollow(s: State, e: Event, outcomes: seq<CancelOutcome>)
    requires AttemptsFollow(s, outcomes) && BetweenTargets(s, outcomes) && Enabled(s, e) && !e.Cancel?
    ensures AttemptsFollow(Apply(s, e), outcomes) && BetweenTargets(Apply(s, e), outcomes)
  {
  }

  /** The recorded attempts are the cancels sent.  A teardown that gives up on an order has sent
      it three cancels, the last three, none acknowledged or rejected on its merits. */
  lemma GivesUpAfterThree(run: seq<State>, events: seq<Event>, n: nat)
    requires IsRun(run, events) && n < |run| && run[n].phase.Over?
    ensures Sum(run[n].attempts) == |Outcomes(events[..n])|
    ensures run[n].phase.result.None? && Outcomes(events[..n]) != [] ==> EndsUnproven(Outcomes(events[..n]), 3)
  {
    AttemptsAreOutcomes(run, events, n);
  }

  /** A step of the teardown itself. */
  predicate OwnStep(e: Event) {
    e.TakeHandles? || e.Abort? || e.EndQuiesce? || e.Scan? || e.Cancel? || e.Report?
  }

  /** The teardown can always go on until it is over. */
  lemma NeverStuck(s: State)
    requires !s.phase.Over?
    ensures exists e: Event :: OwnStep(e) && Enabled(s, e)
  {
    match s.phase
    case Ready => assert Enabled(s, TakeHandles);
    case Draining(_, left, _) => assert if left == [] then Enabled(s, EndQuiesce) else Enabled(s, Abort);
    case Scanning(_) => assert Enabled(s, Scan(Err(0)));
    case Cancelling(_, targets, _) =>
      assert if targets == [] then Enabled(s, Report) else Enabled(s, Cancel(Acked, false));
  }

  /** The tasks and the venue are free at every moment of a teardown. */
  lemma SurroundingsFree(s: State, i: nat, ordno: string)
    ensures Enabled(s, Spawn) && Enabled(s, Fill(ordno))
    ensures i < |s.tasks| && s.tasks[i].life.Running? ==> Enabled(s, End(i))
    ensures i < |s.tasks| && s.tasks[i].life.Running? && ordno !in s.owner ==> Enabled(s, Dispatch(i, ordno))
    ensures i < |s.tasks| && !s.tasks[i].tracked ==> Enabled(s, TrackTask(i))
  {
  }
}
