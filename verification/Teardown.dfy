/** Teardown of the order path: quiescing the tracked dispatch tasks, and cancelling what rests. */
module Teardown {
  import opened Wrappers
  import opened Numerals
  import opened Sequences
  import opened Holdings
  import opened Book

  // ----- Tracked tasks -----

  datatype QuiesceReport = QuiesceReport(drained: nat, aborted: nat)

  function Keep(handles: seq<nat>, finished: set<nat>): (r: seq<nat>)
    ensures forall h :: h in r <==> h in handles && h !in finished
  {
    if handles == [] then []
    else
      var last := handles[|handles| - 1];
      Keep(handles[..|handles| - 1], finished) + if last in finished then [] else [last]
  }

  function CountIn(handles: seq<nat>, some: set<nat>): nat {
    if handles == [] then 0
    else CountIn(handles[..|handles| - 1], some) + if handles[|handles| - 1] in some then 1 else 0
  }

  lemma {:induction false} CountBounded(handles: seq<nat>, some: set<nat>)
    ensures CountIn(handles, some) <= |handles|
    ensures |Keep(handles, some)| == |handles| - CountIn(handles, some)
  {
    if handles != [] {
      CountBounded(handles[..|handles| - 1], some);
    }
  }

  /** The handles of the dispatch tasks, by task number. */
  class OrderDispatchTasks {
    var handles: seq<nat>

    constructor ()
      ensures handles == []
    {
      handles := [];
    }

    /** Retains a task, dropping the handles of finished ones. */
    method Track(handle: nat, finished: set<nat>)
      modifies this
      ensures handles == Keep(old(handles), finished) + [handle]
    {
      handles := Keep(handles, finished) + [handle];
    }

    method Pending(finished: set<nat>) returns (n: nat)
      ensures n == |Keep(handles, finished)| == |handles| - CountIn(handles, finished)
    {
      n := 0;
      for i := 0 to |handles|
        invariant n == |Keep(handles[..i], finished)|
      {
        assert handles[..i + 1][..i] == handles[..i];
        if handles[i] !in finished {
          n := n + 1;
        }
      }
      assert handles[..|handles|] == handles;
      CountBounded(handles, finished);
    }

    /** Takes the handles; those in `inTime` end within the budget, the others are aborted. */
    method Quiesce(inTime: set<nat>) returns (report: QuiesceReport, aborted: set<nat>)
      modifies this
      ensures handles == []
      ensures report.drained == CountIn(old(handles), inTime) && report.drained + report.aborted == |old(handles)|
      ensures forall h :: h in aborted <==> h in old(handles) && h !in inTime
    {
      var taken := handles;
      handles := [];
      report := QuiesceReport(0, 0);
      aborted := {};
      for i := 0 to |taken|
        invariant handles == []
        invariant report.drained == CountIn(taken[..i], inTime) && report.drained + report.aborted == i
        invariant forall h :: h in aborted <==> h in taken[..i] && h !in inTime
      {
        assert taken[..i + 1] == taken[..i] + [taken[i]];
        assert taken[..i + 1][..i] == taken[..i];
        if taken[i] in inTime {
          report := report.(drained := report.drained + 1);
        } else {
          aborted := aborted + {taken[i]};
          report := report.(aborted := report.aborted + 1);
        }
      }
      assert taken[..|taken|] == taken;
    }
  }

  // ----- Cancel targets -----

  datatype OrderRow = OrderRow(ordno: string, expcode: string, ordrem: string, qty: string)

  datatype Target = Target(ordno: string, isuno: string, quantity: int)

  function PositiveNumber(text: string): Option<int> {
    match ParseI64(Trim(text))
    case Some(n) => if n > 0 then Some(n) else None
    case None => None
  }

  /** The remaining quantity, or the ordered one, or one: some cancel is always sent. */
  function CancelQuantity(row: OrderRow): (quantity: int)
    ensures quantity > 0
    ensures Rests(row.ordrem) && ParseI64(Trim(row.ordrem)).Some? ==> quantity == ParseI64(Trim(row.ordrem)).value
    ensures ParseI64(Trim(row.ordrem)).None? ==>
              match ParseI64(Trim(row.qty))
              case Some(n) => quantity == (if n > 0 then n else 1)
              case None => quantity == 1
  {
    match PositiveNumber(row.ordrem)
    case Some(n) => n
    case None => match PositiveNumber(row.qty) case Some(n) => n case None => 1
  }

  function TargetOf(row: OrderRow): Target {
    Target(Trim(row.ordno), "A" + Trim(row.expcode), CancelQuantity(row))
  }

  function Targets(rows: seq<OrderRow>): seq<Target> {
    if rows == [] then []
    else
      var last := rows[|rows| - 1];
      Targets(rows[..|rows| - 1]) + if Rests(last.ordrem) then [TargetOf(last)] else []
  }

  /** A cancel names the row's order and, with its market letter, the row's symbol. */
  predicate Cancels(target: Target, row: OrderRow) {
    && target.ordno == Trim(row.ordno) && target.isuno == "A" + Trim(row.expcode)
    && target.quantity == CancelQuantity(row)
  }

  /** The target of a resting row. */
  ghost predicate TargetOfSome(rows: seq<OrderRow>, target: Target) {
    exists i :: 0 <= i < |rows| && Rests(rows[i].ordrem) && Cancels(target, rows[i])
  }

  lemma TargetOfSomeFront(rows: seq<OrderRow>, target: Target)
    requires rows != []
    ensures var n := |rows| - 1;
      TargetOfSome(rows, target) <==>
        TargetOfSome(rows[..n], target) || (Rests(rows[n].ordrem) && Cancels(target, rows[n]))
  {
    TargetFrontAny(rows, target, (row: OrderRow) => Rests(row.ordrem) && Cancels(target, row));
  }

  lemma TargetFrontAny(rows: seq<OrderRow>, target: Target, rests: OrderRow -> bool)
    requires rows != [] && forall row :: rests(row) == (Rests(row.ordrem) && Cancels(target, row))
    ensures var n := |rows| - 1;
      TargetOfSome(rows, target) <==> TargetOfSome(rows[..n], target) || rests(rows[n])
  {
    TargetIsAny(rows, target, rests);
    TargetIsAny(rows[..|rows| - 1], target, rests);
    AnyStep(rests, rows, |rows| - 1);
    assert rows[..|rows|] == rows;
  }

  lemma TargetIsAny(rows: seq<OrderRow>, target: Target, rests: OrderRow -> bool)
    requires forall row :: rests(row) == (Rests(row.ordrem) && Cancels(target, row))
    ensures TargetOfSome(rows, target) <==> Any(rests, rows)
  {
  }

  /** Every resting row is a target, and nothing else is. */
  lemma {:induction false} TargetsExact(rows: seq<OrderRow>, target: Target)
    ensures target in Targets(rows) <==> TargetOfSome(rows, target)
  {
    if rows != [] {
      TargetsExact(rows[..|rows| - 1], target);
      TargetOfSomeFront(rows, target);
    }
  }

  // ----- Cancelling -----

  datatype SubmitAction = Reject | Deny | DropDuplicate | Pending | Accept

  datatype CancelOutcome = Acked | Refused(action: SubmitAction)

  const CANCEL_ALL_ATTEMPTS: nat := 3

  /** The order is proven not to rest: cancelled, or rejected on its merits. */
  predicate Settles(outcome: CancelOutcome) {
    outcome.Acked? || outcome.action.Reject?
  }

  datatype CancelError = ReadError(code: int) | InquiryTruncated | Unconfirmed(ordno: string)

  /** The gateway's answer to the a-th cancel of the i-th target. */
  type Gateway = (nat, nat) -> CancelOutcome

  /** The a-th cancel of the i-th target, of three, is the first that is acknowledged or
      rejected on its merits. */
  predicate SettledBy(gateway: Gateway, i: nat, a: nat) {
    && a < 3 && gateway(i, a) in {Acked, Refused(Reject)}
    && forall b: nat :: b < a ==> gateway(i, b) !in {Acked, Refused(Reject)}
  }

  ghost predicate Settled(gateway: Gateway, i: nat) {
    exists a: nat :: SettledBy(gateway, i, a)
  }

  ghost predicate AckedTarget(gateway: Gateway, i: nat) {
    exists a: nat :: SettledBy(gateway, i, a) && gateway(i, a) == Acked
  }

  ghost function CountAcked(gateway: Gateway, n: nat): nat {
    if n == 0 then 0 else CountAcked(gateway, n - 1) + if AckedTarget(gateway, n - 1) then 1 else 0
  }

  /** Cancels one target: at most three attempts, ending at the first that settles it. */
  method CancelOne(gateway: Gateway, i: nat) returns (settled: bool, acked: bool, attempts: nat)
    ensures settled <==> Settled(gateway, i)
    ensures settled <==> exists a: nat :: a < 3 && gateway(i, a) in {Acked, Refused(Reject)}
    ensures acked <==> AckedTarget(gateway, i)
    ensures 1 <= attempts <= CANCEL_ALL_ATTEMPTS
    ensures settled ==> SettledBy(gateway, i, attempts - 1)
    ensures !settled ==> attempts == CANCEL_ALL_ATTEMPTS
  {
    for a := 0 to CANCEL_ALL_ATTEMPTS
      invariant forall b: nat :: b < a ==> gateway(i, b) !in {Acked, Refused(Reject)}
    {
      var outcome := gateway(i, a);
      if Settles(outcome) {
        assert SettledBy(gateway, i, a);
        assert forall b: nat :: SettledBy(gateway, i, b) ==> b == a;
        return true, outcome.Acked?, a + 1;
      }
    }
    return false, false, CANCEL_ALL_ATTEMPTS;
  }

  /** The whole scan: succeeds exactly on an untruncated page each of whose resting orders
      settles within three attempts, and then counts the acknowledged cancels. */
  method CancelAllResting(reply: Result<(seq<OrderRow>, string), int>, gateway: Gateway)
    returns (r: Result<nat, CancelError>)
    ensures r.Ok? <==>
              && reply.Ok? && Trim(reply.value.1) == ""
              && forall i: nat :: i < |Targets(reply.value.0)| ==> Settled(gateway, i)
    ensures r.Ok? ==> r.value == CountAcked(gateway, |Targets(reply.value.0)|)
    ensures reply.Err? ==> r == Err(ReadError(reply.error))
    ensures reply.Ok? && Trim(reply.value.1) != "" ==> r == Err(InquiryTruncated)
    ensures reply.Ok? && Trim(reply.value.1) == "" && r.Err? ==>
      exists i: nat :: i < |Targets(reply.value.0)| && r.error == Unconfirmed(Targets(reply.value.0)[i].ordno)
        && !Settled(gateway, i) && forall k: nat :: k < i ==> Settled(gateway, k)
  {
    if reply.Err? {
      return Err(ReadError(reply.error));
    }
    if Trim(reply.value.1) != "" {
      return Err(InquiryTruncated);
    }
    var resting := Targets(reply.value.0);
    var canceled := 0;
    for i := 0 to |resting|
      invariant forall k: nat :: k < i ==> Settled(gateway, k)
      invariant canceled == CountAcked(gateway, i)
    {
      var settled, acked, attempts := CancelOne(gateway, i);
      if !settled {
        return Err(Unconfirmed(resting[i].ordno));
      }
      if acked {
        canceled := canceled + 1;
      }
    }
    return Ok(canceled);
  }
}
