/** Reconciling the migration ledger with the discovered inventory. */
module Reconcile {
  import opened Wrappers
  import opened Ordering
  import opened Sequences

  datatype Obligation = Obligation(logicalId: string, sourceKind: string, sourceLocator: string,
    sourceDigest: Option<string>)

  datatype Authority = Legacy | Successor

  datatype Disposition = Port | Merge | ReplaceWithExecutor | Retire | GlobalCleanup

  datatype MigrationState = Unported | Planned | ParityProven | AuthorityTransferred | RetirementComplete

  datatype MigrationRow = MigrationRow(
    logicalId: string, sourceKind: string, sourceLocator: string, sourceDigest: Option<string>,
    currentAuthority: Authority, disposition: Disposition, migrationState: MigrationState,
    replacementContract: Option<string>, parityReference: Option<string>, absenceReason: Option<string>)

  // ----- Findings -----

  datatype Issue =
    | DuplicateObligation | DuplicateRow | CaseCollision | ExtraRow | SourceMismatch
    | TransferForbidden | UnportedInvalid | PlannedInvalid | StateForbidden | MissingRow | UnclassifiedPath

  datatype Finding = Finding(logicalId: Option<string>, issue: Issue)

  /** Field, code and remediation, in the order findings compare them. */
  function Texts(issue: Issue): seq<string> {
    match issue
    case DuplicateObligation => ["logical_id", "inventory.discovery.duplicate", "rename_colliding_source"]
    case DuplicateRow => ["logical_id", "inventory.ledger.duplicate", "remove_duplicate_row"]
    case CaseCollision => ["logical_id", "inventory.ledger.case_collision", "rename_colliding_row"]
    case ExtraRow => ["logical_id", "inventory.ledger.extra", "remove_or_reclassify_row"]
    case SourceMismatch => ["source", "inventory.ledger.source_mismatch", "refresh_reviewed_source"]
    case TransferForbidden => ["current_authority", "inventory.authority.transfer_forbidden",
      "restore_legacy_authority"]
    case UnportedInvalid => ["successor", "inventory.unported_state.invalid", "restore_unported_absence_state"]
    case PlannedInvalid => ["successor", "inventory.planned_state.invalid", "restore_planned_successor_state"]
    case StateForbidden => ["migration_state", "inventory.migration_state.forbidden", "restore_pre_parity_state"]
    case MissingRow => ["logical_id", "inventory.ledger.missing", "author_reviewed_disposition"]
    case UnclassifiedPath => ["path", "inventory.path.unclassified", "classify_or_review_exclusion"]
  }

  predicate TextsLe(a: seq<string>, b: seq<string>) {
    LexLe(StringLe, a, b)
  }

  predicate IdLe(a: Option<string>, b: Option<string>) {
    a.None? || (b.Some? && StringLe(a.value, b.value))
  }

  predicate FindingLe(a: Finding, b: Finding) {
    if a.logicalId == b.logicalId then TextsLe(Texts(a.issue), Texts(b.issue)) else IdLe(a.logicalId, b.logicalId)
  }

  lemma FindingOrder(findings: seq<Finding>)
    ensures Comparable(FindingLe, findings)
  {
    StringOrder();
    LexTotalOrder(StringLe);
    var lex := (a: seq<string>, b: seq<string>) => LexLe(StringLe, a, b);
    assert forall a, b :: TextsLe(a, b) == lex(a, b);
  }

  // ----- Row rules -----

  function FoldChar(c: char): char {
    if 'A' <= c <= 'Z' then (c as int + 32) as char else c
  }

  /** ASCII lower case. */
  function Fold(s: string): string {
    seq(|s|, i requires 0 <= i < |s| => FoldChar(s[i]))
  }

  predicate LegalUnported(row: MigrationRow) {
    && row.replacementContract.None? && row.parityReference.None? && row.absenceReason.Some?
    && (row.absenceReason.value == "successor_not_implemented"
        || (row.disposition.GlobalCleanup? && row.absenceReason.value == "cleanup_not_executed"))
  }

  predicate LegalPlanned(row: MigrationRow) {
    row.replacementContract.Some? && row.parityReference.None? && row.absenceReason == Some("parity_not_proven")
  }

  function StateIssue(row: MigrationRow): Option<Issue> {
    match row.migrationState
    case Unported => if LegalUnported(row) then None else Some(UnportedInvalid)
    case Planned => if LegalPlanned(row) then None else Some(PlannedInvalid)
    case _ => Some(StateForbidden)
  }

  function StateFindings(row: MigrationRow): seq<Finding> {
    match StateIssue(row) case None => [] case Some(issue) => [Finding(Some(row.logicalId), issue)]
  }

  predicate SameSource(row: MigrationRow, obligation: Obligation) {
    row.sourceKind == obligation.sourceKind && row.sourceLocator == obligation.sourceLocator &&
      row.sourceDigest == obligation.sourceDigest
  }

  // ----- The findings of each pass -----

  function RowId(row: MigrationRow): string { row.logicalId }

  function ObligationId(obligation: Obligation): string { obligation.logicalId }

  function FoldedId(row: MigrationRow): string { Fold(row.logicalId) }

  function Discovered(obligations: seq<Obligation>): map<string, Obligation> {
    if obligations == [] then map[]
    else
      var last := obligations[|obligations| - 1];
      Discovered(obligations[..|obligations| - 1])[last.logicalId := last]
  }

  function DuplicateFindings(obligations: seq<Obligation>): seq<Finding> {
    if obligations == [] then []
    else
      var front, last := obligations[..|obligations| - 1], obligations[|obligations| - 1];
      DuplicateFindings(front) +
      if last.logicalId in Discovered(front) then [Finding(Some(last.logicalId), DuplicateObligation)] else []
  }

  function When(holds: bool, row: MigrationRow, issue: Issue): seq<Finding> {
    if holds then [Finding(Some(row.logicalId), issue)] else []
  }

  function SourceFindings(row: MigrationRow, discovered: map<string, Obligation>): seq<Finding> {
    if row.logicalId !in discovered then [Finding(Some(row.logicalId), ExtraRow)]
    else When(!SameSource(row, discovered[row.logicalId]), row, SourceMismatch)
  }

  /** What one row adds, given the identifiers of the rows before it. */
  function RowFindings(ids: set<string>, folded: set<string>, row: MigrationRow,
        discovered: map<string, Obligation>): seq<Finding> {
    if row.logicalId in ids then [Finding(Some(row.logicalId), DuplicateRow)]
    else
      When(FoldedId(row) in folded, row, CaseCollision)
      + SourceFindings(row, discovered)
      + When(!row.currentAuthority.Legacy?, row, TransferForbidden)
      + StateFindings(row)
  }

  function IdsOf(rows: seq<MigrationRow>): set<string> {
    set i | 0 <= i < |rows| :: rows[i].logicalId
  }

  function FoldedOf(rows: seq<MigrationRow>): set<string> {
    set i | 0 <= i < |rows| :: FoldedId(rows[i])
  }

  function AllRowFindings(rows: seq<MigrationRow>, discovered: map<string, Obligation>): seq<Finding> {
    if rows == [] then []
    else
      var front, last := rows[..|rows| - 1], rows[|rows| - 1];
      AllRowFindings(front, discovered) + RowFindings(IdsOf(front), FoldedOf(front), last, discovered)
  }

  /** Each distinct identifier once. */
  function DistinctIds(obligations: seq<Obligation>): seq<string> {
    if obligations == [] then []
    else
      var front, last := obligations[..|obligations| - 1], obligations[|obligations| - 1];
      DistinctIds(front) + if last.logicalId in Discovered(front) then [] else [last.logicalId]
  }

  function MissingFindings(ids: seq<string>, ledgerIds: set<string>): seq<Finding> {
    if ids == [] then []
    else
      var front, last := ids[..|ids| - 1], ids[|ids| - 1];
      MissingFindings(front, ledgerIds) + if last in ledgerIds then [] else [Finding(Some(last), MissingRow)]
  }

  const MAX_FINDINGS: nat := 256

  /** One finding per path, stopping where the count reaches the maximum. */
  function AddPaths(found: seq<Finding>, paths: nat): seq<Finding>
    decreases paths
  {
    if paths == 0 then found
    else
      var more := found + [Finding(None, UnclassifiedPath)];
      if |more| == MAX_FINDINGS then more else AddPaths(more, paths - 1)
  }

  function BeforePaths(rows: seq<MigrationRow>, obligations: seq<Obligation>): seq<Finding> {
    DuplicateFindings(obligations)
    + AllRowFindings(rows, Discovered(obligations))
    + MissingFindings(DistinctIds(obligations), IdsOf(rows))
  }

  function Truncate(findings: seq<Finding>): seq<Finding> {
    if |findings| > MAX_FINDINGS then findings[..MAX_FINDINGS] else findings
  }

  function Findings(rows: seq<MigrationRow>, obligations: seq<Obligation>, paths: seq<string>): seq<Finding> {
    Truncate(SortBy(FindingLe, AddPaths(BeforePaths(rows, obligations), |paths|)))
  }

  // ----- The method -----

  method Discover(obligations: seq<Obligation>)
    returns (discovered: map<string, Obligation>, keys: seq<string>, findings: seq<Finding>)
    ensures discovered == Discovered(obligations) && keys == DistinctIds(obligations)
    ensures findings == DuplicateFindings(obligations)
  {
    discovered, keys, findings := map[], [], [];
    for i := 0 to |obligations|
      invariant discovered == Discovered(obligations[..i]) && keys == DistinctIds(obligations[..i])
      invariant findings == DuplicateFindings(obligations[..i])
    {
      assert obligations[..i + 1][..i] == obligations[..i];
      var obligation := obligations[i];
      if obligation.logicalId in discovered {
        findings := findings + [Finding(Some(obligation.logicalId), DuplicateObligation)];
      } else {
        keys := keys + [obligation.logicalId];
      }
      discovered := discovered[obligation.logicalId := obligation];
    }
    assert obligations[..|obligations|] == obligations;
  }

  /** The findings one row of the ledger pushes. */
  method CheckRow(ids: set<string>, folded: set<string>, row: MigrationRow, discovered: map<string, Obligation>)
    returns (pushed: seq<Finding>)
    ensures pushed == RowFindings(ids, folded, row, discovered)
  {
    if row.logicalId in ids {
      return [Finding(Some(row.logicalId), DuplicateRow)];
    }
    pushed := [];
    if FoldedId(row) in folded {
      pushed := pushed + [Finding(Some(row.logicalId), CaseCollision)];
    }
    assert pushed == When(FoldedId(row) in folded, row, CaseCollision);
    if row.logicalId !in discovered {
      pushed := pushed + [Finding(Some(row.logicalId), ExtraRow)];
    } else if !SameSource(row, discovered[row.logicalId]) {
      pushed := pushed + [Finding(Some(row.logicalId), SourceMismatch)];
    }
    ghost var matched := When(FoldedId(row) in folded, row, CaseCollision) + SourceFindings(row, discovered);
    assert pushed == matched;
    if !row.currentAuthority.Legacy? {
      pushed := pushed + [Finding(Some(row.logicalId), TransferForbidden)];
    }
    assert pushed == matched + When(!row.currentAuthority.Legacy?, row, TransferForbidden);
    var issue := StateIssue(row);
    if issue.Some? {
      pushed := pushed + [Finding(Some(row.logicalId), issue.value)];
    }
  }

  lemma NextIds(rows: seq<MigrationRow>, n: nat)
    requires n < |rows|
    ensures IdsOf(rows[..n + 1]) == IdsOf(rows[..n]) + {rows[n].logicalId}
    ensures FoldedOf(rows[..n + 1]) == FoldedOf(rows[..n]) + {FoldedId(rows[n])}
  {
    var now, before := rows[..n + 1], rows[..n];
    assert now[n] == rows[n] && forall i :: 0 <= i < n ==> now[i] == before[i];
  }

  method ReconcileInventory(rows: seq<MigrationRow>, obligations: seq<Obligation>, paths: seq<string>)
    returns (findings: seq<Finding>)
    ensures findings == Findings(rows, obligations, paths)
    ensures findings == [] <==> Reconciled(rows, obligations, paths)
  {
    var discovered, keys, found := Discover(obligations);
    ghost var start := found;
    var ids: set<string>, folded: set<string> := {}, {};
    for i := 0 to |rows|
      invariant ids == IdsOf(rows[..i]) && folded == FoldedOf(rows[..i])
      invariant found == start + AllRowFindings(rows[..i], discovered)
    {
      assert rows[..i + 1][..i] == rows[..i];
      NextIds(rows, i);
      var pushed := CheckRow(ids, folded, rows[i], discovered);
      Regroup2(start, AllRowFindings(rows[..i], discovered), pushed);
      found := found + pushed;
      ids := ids + {rows[i].logicalId};
      folded := folded + {FoldedId(rows[i])};
    }
    assert rows[..|rows|] == rows;
    found := AddMissing(keys, ids, found);
    found := AddUnclassified(found, paths);
    NoFindingIff(rows, obligations, paths);
    return Truncate(SortBy(FindingLe, found));
  }

  method AddMissing(keys: seq<string>, ids: set<string>, findings: seq<Finding>) returns (found: seq<Finding>)
    ensures found == findings + MissingFindings(keys, ids)
  {
    found := findings;
    for i := 0 to |keys|
      invariant found == findings + MissingFindings(keys[..i], ids)
    {
      assert keys[..i + 1][..i] == keys[..i];
      if keys[i] !in ids {
        found := found + [Finding(Some(keys[i]), MissingRow)];
      }
    }
    assert keys[..|keys|] == keys;
  }

  method AddUnclassified(findings: seq<Finding>, paths: seq<string>) returns (found: seq<Finding>)
    ensures found == AddPaths(findings, |paths|)
  {
    found := findings;
    for i := 0 to |paths|
      invariant AddPaths(found, |paths| - i) == AddPaths(findings, |paths|)
    {
      found := found + [Finding(None, UnclassifiedPath)];
      if |found| == MAX_FINDINGS {
        break;
      }
    }
  }

  // ----- When nothing is found -----

  /** Rows and obligations are in bijection by identifier with equal sources, identifiers are
      distinct even in lower case, every row is in a legal pre-transfer state, and every path
      is classified. */
  ghost predicate Reconciled(rows: seq<MigrationRow>, obligations: seq<Obligation>, paths: seq<string>) {
    && DistinctObligations(obligations)
    && (forall i, j :: 0 <= i < j < |rows| ==> !SameIgnoringCase(rows[i].logicalId, rows[j].logicalId))
    && (forall i :: 0 <= i < |rows| ==> Matched(rows[i], obligations))
    && (forall k :: 0 <= k < |obligations| ==> Covered(obligations[k], rows))
    && (forall i :: 0 <= i < |rows| ==> rows[i].currentAuthority == Legacy && BeforeParity(rows[i]))
    && paths == []
  }

  /** The texts differ at most in the case of ASCII letters. */
  predicate SameIgnoringCase(a: string, b: string) {
    && |a| == |b|
    && forall i :: 0 <= i < |a| ==>
         || a[i] == b[i]
         || ('A' <= a[i] <= 'Z' && b[i] == (a[i] as int + 32) as char)
         || ('A' <= b[i] <= 'Z' && a[i] == (b[i] as int + 32) as char)
  }

  /** The two legal states of a row: not ported, for a stated reason, or planned. */
  predicate BeforeParity(row: MigrationRow) {
    && row.parityReference == None
    && match row.migrationState
       case Unported =>
         && row.replacementContract == None
         && (|| row.absenceReason == Some("successor_not_implemented")
             || (row.disposition == GlobalCleanup && row.absenceReason == Some("cleanup_not_executed")))
       case Planned => row.replacementContract != None && row.absenceReason == Some("parity_not_proven")
       case _ => false
  }

  /** The row and the obligation describe one source. */
  predicate OneSource(row: MigrationRow, obligation: Obligation) {
    (row.sourceKind, row.sourceLocator, row.sourceDigest)
    == (obligation.sourceKind, obligation.sourceLocator, obligation.sourceDigest)
  }

  ghost predicate Matched(row: MigrationRow, obligations: seq<Obligation>) {
    exists k :: 0 <= k < |obligations| && obligations[k].logicalId == row.logicalId && OneSource(row, obligations[k])
  }

  lemma FoldSame(a: string, b: string)
    ensures Fold(a) == Fold(b) <==> SameIgnoringCase(a, b)
  {
    if Fold(a) == Fold(b) {
      forall i | 0 <= i < |a| ensures FoldChar(a[i]) == FoldChar(b[i]) {
        assert Fold(a)[i] == Fold(b)[i];
      }
    }
    if SameIgnoringCase(a, b) {
      forall i | 0 <= i < |a| ensures Fold(a)[i] == Fold(b)[i] {
      }
    }
  }

  ghost predicate Covered(obligation: Obligation, rows: seq<MigrationRow>) {
    exists i :: 0 <= i < |rows| && rows[i].logicalId == obligation.logicalId
  }

  ghost predicate DistinctObligations(obligations: seq<Obligation>) {
    forall i, j :: 0 <= i < j < |obligations| ==> obligations[i].logicalId != obligations[j].logicalId
  }

  /** The map holds the last obligation of each identifier. */
  lemma {:induction false} DiscoveredExact(obligations: seq<Obligation>, id: string)
    ensures id in Discovered(obligations) <==> exists k :: 0 <= k < |obligations| && obligations[k].logicalId == id
    ensures id in Discovered(obligations) ==>
      (exists k :: 0 <= k < |obligations| && obligations[k].logicalId == id &&
        Discovered(obligations)[id] == obligations[k])
  {
    if obligations != [] {
      var n := |obligations| - 1;
      DiscoveredExact(obligations[..n], id);
      if id in Discovered(obligations[..n]) {
        var k :| 0 <= k < n && obligations[..n][k].logicalId == id &&
          Discovered(obligations[..n])[id] == obligations[..n][k];
        assert obligations[k] == obligations[..n][k];
      }
      if k :| 0 <= k < n && obligations[k].logicalId == id {
        assert obligations[..n][k] == obligations[k];
      }
      assert obligations[n].logicalId == id ==> Discovered(obligations)[id] == obligations[n];
    }
  }

  lemma {:induction false} NoDuplicateFindingIff(obligations: seq<Obligation>)
    ensures DuplicateFindings(obligations) == [] <==> DistinctObligations(obligations)
  {
    if obligations != [] {
      var n := |obligations| - 1;
      var front := obligations[..n];
      NoDuplicateFindingIff(front);
      DiscoveredExact(front, obligations[n].logicalId);
      assert forall i :: 0 <= i < n ==> front[i] == obligations[i];
      if DistinctObligations(obligations) {
        assert obligations[n].logicalId !in Discovered(front);
      }
      if DistinctObligations(front) && obligations[n].logicalId !in Discovered(front) {
        forall i | 0 <= i < n ensures obligations[i].logicalId != obligations[n].logicalId {
          assert front[i].logicalId == obligations[i].logicalId;
        }
      }
    }
  }

  /** A row in order: known to the inventory with the same source, and in a legal state. */
  predicate RowOk(row: MigrationRow, discovered: map<string, Obligation>) {
    && row.logicalId in discovered && OneSource(row, discovered[row.logicalId])
    && row.currentAuthority == Legacy && BeforeParity(row)
  }

  lemma NoRowFindingIff(ids: set<string>, folded: set<string>, row: MigrationRow, discovered: map<string, Obligation>)
    ensures RowFindings(ids, folded, row, discovered) == [] <==>
      row.logicalId !in ids && FoldedId(row) !in folded && RowOk(row, discovered)
  {
  }

  /** A row found before earns that finding alone.  Otherwise each issue is found exactly where
      the row has it: a collision, no obligation, another source, an early transfer, or a
      state that is illegal in its own way. */
  lemma RowFindingExact(ids: set<string>, folded: set<string>, row: MigrationRow, discovered: map<string, Obligation>,
        issue: Issue)
    ensures Finding(Some(row.logicalId), issue) in RowFindings(ids, folded, row, discovered) <==>
      match issue
      case DuplicateRow => row.logicalId in ids
      case CaseCollision => row.logicalId !in ids && FoldedId(row) in folded
      case ExtraRow => row.logicalId !in ids && row.logicalId !in discovered
      case SourceMismatch =>
        row.logicalId !in ids && row.logicalId in discovered && !OneSource(row, discovered[row.logicalId])
      case TransferForbidden => row.logicalId !in ids && row.currentAuthority != Legacy
      case UnportedInvalid => row.logicalId !in ids && row.migrationState == Unported && !BeforeParity(row)
      case PlannedInvalid => row.logicalId !in ids && row.migrationState == Planned && !BeforeParity(row)
      case StateForbidden =>
        row.logicalId !in ids && row.migrationState in {ParityProven, AuthorityTransferred, RetirementComplete}
      case _ => false
    ensures forall finding :: finding in RowFindings(ids, folded, row, discovered) ==>
              finding.logicalId == Some(row.logicalId)
  {
    if row.logicalId !in ids {
      var collision := When(FoldedId(row) in folded, row, CaseCollision);
      var source := SourceFindings(row, discovered);
      var transfer := When(row.currentAuthority != Legacy, row, TransferForbidden);
      assert RowFindings(ids, folded, row, discovered) == collision + source + transfer + StateFindings(row);
    }
  }

  ghost predicate RowsOk(rows: seq<MigrationRow>, discovered: map<string, Obligation>) {
    && (forall i, j :: 0 <= i < j < |rows| ==> !SameIgnoringCase(rows[i].logicalId, rows[j].logicalId))
    && forall i :: 0 <= i < |rows| ==> RowOk(rows[i], discovered)
  }

  lemma RowsOkFront(rows: seq<MigrationRow>, discovered: map<string, Obligation>)
    requires rows != []
    ensures var front, last := rows[..|rows| - 1], rows[|rows| - 1];
      RowsOk(rows, discovered) <==>
        RowsOk(front, discovered) && FoldedId(last) !in FoldedOf(front) && RowOk(last, discovered)
  {
    var n := |rows| - 1;
    var front := rows[..n];
    assert forall i :: 0 <= i < n ==> front[i] == rows[i];
    if RowsOk(front, discovered) && FoldedId(rows[n]) !in FoldedOf(front) {
      forall i | 0 <= i < n ensures !SameIgnoringCase(rows[i].logicalId, rows[n].logicalId) {
        assert FoldedId(front[i]) in FoldedOf(front);
        FoldSame(rows[i].logicalId, rows[n].logicalId);
      }
    }
    if FoldedId(rows[n]) in FoldedOf(front) {
      var i :| 0 <= i < n && FoldedId(front[i]) == FoldedId(rows[n]);
      FoldSame(rows[i].logicalId, rows[n].logicalId);
    }
  }

  lemma {:induction false} NoRowFindingsIff(rows: seq<MigrationRow>, discovered: map<string, Obligation>)
    ensures AllRowFindings(rows, discovered) == [] <==> RowsOk(rows, discovered)
  {
    if rows != [] {
      var front, last := rows[..|rows| - 1], rows[|rows| - 1];
      NoRowFindingsIff(front, discovered);
      NoRowFindingIff(IdsOf(front), FoldedOf(front), last, discovered);
      RowsOkFront(rows, discovered);
      FreshFold(front, last);
    }
  }

  /** A lower-cased identifier not seen before is an identifier not seen before. */
  lemma FreshFold(rows: seq<MigrationRow>, row: MigrationRow)
    ensures FoldedId(row) !in FoldedOf(rows) ==> row.logicalId !in IdsOf(rows)
  {
    if row.logicalId in IdsOf(rows) {
      var i :| 0 <= i < |rows| && rows[i].logicalId == row.logicalId;
      assert FoldedId(rows[i]) in FoldedOf(rows);
    }
  }

  lemma {:induction false} NoMissingIff(ids: seq<string>, ledgerIds: set<string>)
    ensures MissingFindings(ids, ledgerIds) == [] <==> forall i :: 0 <= i < |ids| ==> ids[i] in ledgerIds
  {
    if ids != [] {
      var n := |ids| - 1;
      NoMissingIff(ids[..n], ledgerIds);
      assert forall i :: 0 <= i < n ==> ids[..n][i] == ids[i];
      if forall i :: 0 <= i < n ==> ids[..n][i] in ledgerIds {
        assert forall i :: 0 <= i < n ==> ids[i] in ledgerIds;
      }
    }
  }

  lemma {:induction false} DistinctIdsExact(obligations: seq<Obligation>, id: string)
    ensures id in DistinctIds(obligations) <==> id in Discovered(obligations)
  {
    if obligations != [] {
      DistinctIdsExact(obligations[..|obligations| - 1], id);
    }
  }

  lemma MissingIff(rows: seq<MigrationRow>, obligations: seq<Obligation>)
    ensures MissingFindings(DistinctIds(obligations), IdsOf(rows)) == [] <==>
      forall k :: 0 <= k < |obligations| ==> Covered(obligations[k], rows)
  {
    var ids := DistinctIds(obligations);
    NoMissingIff(ids, IdsOf(rows));
    forall id ensures id in IdsOf(rows) <==> exists i :: 0 <= i < |rows| && rows[i].logicalId == id {
    }
    if forall i :: 0 <= i < |ids| ==> ids[i] in IdsOf(rows) {
      forall k | 0 <= k < |obligations| ensures Covered(obligations[k], rows) {
        DiscoveredExact(obligations, obligations[k].logicalId);
        DistinctIdsExact(obligations, obligations[k].logicalId);
        assert obligations[k].logicalId in ids;
      }
    }
    if forall k :: 0 <= k < |obligations| ==> Covered(obligations[k], rows) {
      forall i | 0 <= i < |ids| ensures ids[i] in IdsOf(rows) {
        DistinctIdsExact(obligations, ids[i]);
        DiscoveredExact(obligations, ids[i]);
        var k :| 0 <= k < |obligations| && obligations[k].logicalId == ids[i];
        assert Covered(obligations[k], rows);
      }
    }
  }

  lemma MatchedIff(row: MigrationRow, obligations: seq<Obligation>)
    requires DistinctObligations(obligations)
    ensures Matched(row, obligations) <==>
      row.logicalId in Discovered(obligations) && OneSource(row, Discovered(obligations)[row.logicalId])
  {
    DiscoveredExact(obligations, row.logicalId);
    if Matched(row, obligations) {
      var k :| 0 <= k < |obligations| && obligations[k].logicalId == row.logicalId && OneSource(row, obligations[k]);
      var m :| 0 <= m < |obligations| && obligations[m].logicalId == row.logicalId &&
        Discovered(obligations)[row.logicalId] == obligations[m];
      assert k == m;
    }
  }

  lemma SortedEmptyIff(found: seq<Finding>)
    ensures Truncate(SortBy(FindingLe, found)) == [] <==> found == []
  {
    SameElements(SortBy(FindingLe, found), found);
  }

  lemma {:induction false} AddPathsGrows(found: seq<Finding>, paths: nat)
    ensures |AddPaths(found, paths)| >= |found| && (paths > 0 ==> AddPaths(found, paths) != [])
    decreases paths
  {
    if paths > 0 {
      AddPathsGrows(found + [Finding(None, UnclassifiedPath)], paths - 1);
    }
  }

  lemma RowsReconciled(rows: seq<MigrationRow>, obligations: seq<Obligation>)
    requires DistinctObligations(obligations)
    ensures RowsOk(rows, Discovered(obligations)) <==>
      && (forall i, j :: 0 <= i < j < |rows| ==> !SameIgnoringCase(rows[i].logicalId, rows[j].logicalId))
      && (forall i :: 0 <= i < |rows| ==> Matched(rows[i], obligations))
      && (forall i :: 0 <= i < |rows| ==> rows[i].currentAuthority == Legacy && BeforeParity(rows[i]))
  {
    forall i | 0 <= i < |rows|
      ensures RowOk(rows[i], Discovered(obligations)) <==>
        Matched(rows[i], obligations) && rows[i].currentAuthority == Legacy && BeforeParity(rows[i])
    {
      MatchedIff(rows[i], obligations);
    }
  }

  lemma ReportEmptyIff(rows: seq<MigrationRow>, obligations: seq<Obligation>, paths: seq<string>)
    ensures Findings(rows, obligations, paths) == [] <==>
      && paths == [] && DuplicateFindings(obligations) == []
      && AllRowFindings(rows, Discovered(obligations)) == []
      && MissingFindings(DistinctIds(obligations), IdsOf(rows)) == []
  {
    var before := BeforePaths(rows, obligations);
    SortedEmptyIff(AddPaths(before, |paths|));
    AddPathsGrows(before, |paths|);
  }

  /** The report is empty exactly when ledger and inventory are reconciled: the cut at 256
      findings never hides the last one. */
  lemma NoFindingIff(rows: seq<MigrationRow>, obligations: seq<Obligation>, paths: seq<string>)
    ensures Findings(rows, obligations, paths) == [] <==> Reconciled(rows, obligations, paths)
  {
    ReportEmptyIff(rows, obligations, paths);
    NoDuplicateFindingIff(obligations);
    NoRowFindingsIff(rows, Discovered(obligations));
    MissingIff(rows, obligations);
    if DistinctObligations(obligations) {
      RowsReconciled(rows, obligations);
    }
  }

  lemma MatchedId(row: MigrationRow, obligations: seq<Obligation>)
    requires Matched(row, obligations)
    ensures row.logicalId in Map(ObligationId, obligations)
  {
    var k :| 0 <= k < |obligations| && obligations[k].logicalId == row.logicalId;
    assert Map(ObligationId, obligations)[k] == row.logicalId;
  }

  lemma CoveredId(obligation: Obligation, rows: seq<MigrationRow>)
    requires Covered(obligation, rows)
    ensures obligation.logicalId in Map(RowId, rows)
  {
    var i :| 0 <= i < |rows| && rows[i].logicalId == obligation.logicalId;
    assert Map(RowId, rows)[i] == obligation.logicalId;
  }

  lemma SameIds(rows: seq<MigrationRow>, obligations: seq<Obligation>)
    requires forall i, j :: 0 <= i < j < |rows| ==> rows[i].logicalId != rows[j].logicalId
    requires DistinctObligations(obligations)
    requires forall i :: 0 <= i < |rows| ==> Matched(rows[i], obligations)
    requires forall k :: 0 <= k < |obligations| ==> Covered(obligations[k], rows)
    ensures multiset(Map(RowId, rows)) == multiset(Map(ObligationId, obligations))
  {
    var a, b := Map(RowId, rows), Map(ObligationId, obligations);
    forall i | 0 <= i < |a| ensures a[i] in b {
      MatchedId(rows[i], obligations);
    }
    forall k | 0 <= k < |b| ensures b[k] in a {
      CoveredId(obligations[k], rows);
    }
    SameMembers(a, b);
  }

  /** A reconciled ledger lists the inventory's identifiers, each once. */
  lemma ReconciledIsABijection(rows: seq<MigrationRow>, obligations: seq<Obligation>, paths: seq<string>)
    requires Reconciled(rows, obligations, paths)
    ensures multiset(Map(RowId, rows)) == multiset(Map(ObligationId, obligations)) && |rows| == |obligations|
  {
    forall i, j | 0 <= i < j < |rows| ensures rows[i].logicalId != rows[j].logicalId {
      assert !SameIgnoringCase(rows[i].logicalId, rows[j].logicalId);
    }
    SameIds(rows, obligations);
    SameElements(Map(RowId, rows), Map(ObligationId, obligations));
  }

  /** Reports are sorted and bounded, and complete unless they reach the bound. */
  lemma ReportShape(rows: seq<MigrationRow>, obligations: seq<Obligation>, paths: seq<string>)
    ensures var report := Findings(rows, obligations, paths);
      var before := BeforePaths(rows, obligations);
      && SortedBy(FindingLe, report) && |report| <= MAX_FINDINGS
      && (|report| < MAX_FINDINGS ==> |report| == |before| + |paths| && forall f :: f in before ==> f in report)
  {
    var before := BeforePaths(rows, obligations);
    var found := AddPaths(before, |paths|);
    var sorted := SortBy(FindingLe, found);
    FindingOrder(found);
    SortSorted(FindingLe, found);
    SameElements(sorted, found);
    AddPathsCount(before, |paths|);
  }

  /** Findings without a row come first, the others by identifier, those of one identifier by
      field, code and remediation. */
  lemma ReportOrder(rows: seq<MigrationRow>, obligations: seq<Obligation>, paths: seq<string>, i: nat, j: nat)
    requires i < j < |Findings(rows, obligations, paths)|
    ensures var a, b := Findings(rows, obligations, paths)[i], Findings(rows, obligations, paths)[j];
      || (a.logicalId == b.logicalId && TextsLe(Texts(a.issue), Texts(b.issue)))
      || (a.logicalId == None && b.logicalId != None)
      || (a.logicalId.Some? && b.logicalId.Some? && StringLe(a.logicalId.value, b.logicalId.value))
  {
    ReportShape(rows, obligations, paths);
    assert FindingLe(Findings(rows, obligations, paths)[i], Findings(rows, obligations, paths)[j]);
  }

  /** No two issues report alike. */
  lemma TextsDistinct(a: Issue, b: Issue)
    requires Texts(a) == Texts(b)
    ensures a == b
  {
    assert Texts(a)[1] == Texts(b)[1];
  }

  lemma {:induction false} AddPathsCount(found: seq<Finding>, paths: nat)
    ensures |AddPaths(found, paths)| < MAX_FINDINGS ==> |AddPaths(found, paths)| == |found| + paths
    ensures found <= AddPaths(found, paths)
    decreases paths
  {
    if paths > 0 {
      AddPathsCount(found + [Finding(None, UnclassifiedPath)], paths - 1);
    }
  }
}
