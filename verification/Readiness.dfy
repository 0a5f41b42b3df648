/** Reconciling the ready and blocked projections with the dependency graph. */
module Readiness {
  import opened Wrappers
  import opened Ordering
  import opened BlockerGraph
  import Text

  datatype QueueIssue = QueueIssue(id: string, status: Status, priority: nat, issueType: string, assignee: string)
  {
    predicate Dispatchable() { issueType != "epic" && Text.Blank(assignee) }
  }

  datatype Reason = NotDispatchable | GraphBlocked | GraphUnknown
  datatype Refused = Refused(issue: QueueIssue, reason: Reason)

  datatype ReadinessReport = ReadinessReport(
    openCandidates: seq<QueueIssue>, admitted: seq<QueueIssue>, recovered: seq<QueueIssue>, refused: seq<Refused>,
    openCount: nat, readyCount: nat, blockedCount: nat, residualCount: nat, projectionGapCount: nat)

  // ----- the two projections

  predicate IsDistinct(ids: seq<string>) { forall i, j | 0 <= i < j < |ids| :: ids[i] != ids[j] }

  /** The first id that is unknown or repeats an earlier one. */
  ghost predicate FirstFault(ids: seq<string>, known: set<string>, e: GraphError) {
    exists k | 0 <= k < |ids| ::
      && IsDistinct(ids[..k]) && (forall i | 0 <= i < k :: ids[i] in known)
      && e == (if ids[k] !in known then UnknownQueueIssue(ids[k]) else DuplicateQueueIssue(ids[k]))
      && (ids[k] in known ==> ids[k] in ids[..k])
  }

  predicate SoundSurface(ids: seq<string>, known: set<string>) { IsDistinct(ids) && forall id | id in ids :: id in known }

  function Members(ids: seq<string>): set<string> { set id | id in ids }

  method ReadSurface(ids: seq<string>, known: set<string>) returns (r: Result<set<string>, GraphError>)
    ensures SoundSurface(ids, known) ==> r == Ok(Members(ids))
    ensures !SoundSurface(ids, known) ==> r.Err? && FirstFault(ids, known, r.error)
  {
    var seen: set<string> := {};
    for k := 0 to |ids|
      invariant seen == Members(ids[..k]) && IsDistinct(ids[..k]) && forall i | 0 <= i < k :: ids[i] in known
    {
      var id := ids[k];
      assert ids[..k + 1] == ids[..k] + [id];
      if id !in known { return Err(UnknownQueueIssue(id)); }
      if id in seen { return Err(DuplicateQueueIssue(id)); }
      seen := seen + {id};
    }
    assert ids[..|ids|] == ids;
    return Ok(seen);
  }

  /** The least id in both, if any. */
  method LeastOverlap(ids: seq<string>, other: set<string>) returns (least: Option<string>)
    ensures least.None? <==> Members(ids) !! other
    ensures least.Some? ==> least.value in ids && least.value in other && forall id | id in ids && id in other :: Leq(least.value, id)
  {
    least := None;
    for k := 0 to |ids|
      invariant least.None? <==> forall i | 0 <= i < k :: ids[i] !in other
      invariant least.Some? ==> least.value in ids && least.value in other && forall i | 0 <= i < k && ids[i] in other :: Leq(least.value, ids[i])
    {
      if ids[k] in other {
        if least.None? {
          LeqTotal(ids[k], ids[k]);
          least := Some(ids[k]);
        } else if Leq(ids[k], least.value) {
          forall i | 0 <= i < k && ids[i] in other ensures Leq(ids[k], ids[i]) { LeqTransitive(ids[k], least.value, ids[i]); }
          LeqTotal(ids[k], ids[k]);
          least := Some(ids[k]);
        } else {
          LeqTotal(ids[k], least.value);
        }
      }
    }
  }

  // ----- what one open row is owed

  datatype Fate = Admit | Recover | ListedBlocked | Refuse(reason: Reason) | NoGraphRow
  {
    predicate Admits() { Admit? || Recover? }
  }

  function GraphRow(graph: seq<Bead>, id: string): (r: Option<Bead>)
    ensures r.None? <==> forall b | b in graph :: b.beadId != id
    ensures r.Some? ==> r.value in graph && r.value.beadId == id
  {
    if graph == [] then None
    else if graph[0].beadId == id then Some(graph[0])
    else
      assert graph == [graph[0]] + graph[1..];
      GraphRow(graph[1..], id)
  }

  /** The three inputs every row is judged against. */
  datatype Surfaces = Surfaces(ready: set<string>, blocked: set<string>, graph: seq<Bead>)

  function FateOf(row: QueueIssue, s: Surfaces): Fate {
    if row.id in s.ready && row.Dispatchable() then Admit
    else if row.id in s.blocked then ListedBlocked
    else
      var g := GraphRow(s.graph, row.id);
      if g.None? then NoGraphRow
      else if !row.Dispatchable() then Refuse(NotDispatchable)
      else match g.value.availability
        case Available => Recover
        case Held => Refuse(GraphBlocked)
        case Undecided => Refuse(GraphUnknown)
  }

  function OpenRows(issues: seq<QueueIssue>): seq<QueueIssue> {
    if issues == [] then []
    else OpenRows(issues[..|issues| - 1]) + (if issues[|issues| - 1].status == Open then [issues[|issues| - 1]] else [])
  }

  function AdmittedRows(rows: seq<QueueIssue>, s: Surfaces): seq<QueueIssue> {
    if rows == [] then []
    else
      var row := rows[|rows| - 1];
      AdmittedRows(rows[..|rows| - 1], s) + (if FateOf(row, s).Admits() then [row] else [])
  }

  function RecoveredRows(rows: seq<QueueIssue>, s: Surfaces): seq<QueueIssue> {
    if rows == [] then []
    else
      var row := rows[|rows| - 1];
      RecoveredRows(rows[..|rows| - 1], s) + (if FateOf(row, s) == Recover then [row] else [])
  }

  function RefusedRows(rows: seq<QueueIssue>, s: Surfaces): seq<Refused> {
    if rows == [] then []
    else
      var row := rows[|rows| - 1];
      RefusedRows(rows[..|rows| - 1], s) + (if FateOf(row, s).Refuse? then [Refused(row, FateOf(row, s).reason)] else [])
  }

  function RowIds(rows: seq<QueueIssue>): set<string> { set row | row in rows :: row.id }

  function CountGap(rows: seq<QueueIssue>, s: Surfaces): nat {
    if rows == [] then 0
    else
      var row := rows[|rows| - 1];
      CountGap(rows[..|rows| - 1], s) + (if row.id !in s.ready && row.id !in s.blocked then 1 else 0)
  }

  function IssueId(row: QueueIssue): string { row.id }
  function RefusedId(r: Refused): string { r.issue.id }

  function ReportOf(rows: seq<QueueIssue>, s: Surfaces): ReadinessReport {
    ReadinessReport(rows, SortBy(AdmittedRows(rows, s), IssueId), SortBy(RecoveredRows(rows, s), IssueId), SortBy(RefusedRows(rows, s), RefusedId),
                    |RowIds(rows)|, |s.ready * RowIds(rows)|, |s.blocked * RowIds(rows)|, CountGap(rows, s), CountGap(rows, s))
  }

  predicate Judged(rows: seq<QueueIssue>, s: Surfaces) { forall row | row in rows :: FateOf(row, s) != NoGraphRow }

  /** The first open row the graph has no answer for. */
  ghost predicate FirstUnjudged(rows: seq<QueueIssue>, s: Surfaces, id: string) {
    exists k | 0 <= k < |rows| :: rows[k].id == id && FateOf(rows[k], s) == NoGraphRow && Judged(rows[..k], s)
  }

  // ----- the program

  method SelectOpen(issues: seq<QueueIssue>) returns (rows: seq<QueueIssue>)
    ensures rows == OpenRows(issues)
  {
    rows := [];
    for k := 0 to |issues|
      invariant rows == OpenRows(issues[..k])
    {
      assert issues[..k + 1][..k] == issues[..k];
      if issues[k].status == Open { rows := rows + [issues[k]]; }
    }
    assert issues[..|issues|] == issues;
  }

  method CountUnlisted(rows: seq<QueueIssue>, s: Surfaces) returns (gap: nat)
    ensures gap == CountGap(rows, s)
  {
    gap := 0;
    for k := 0 to |rows|
      invariant gap == CountGap(rows[..k], s)
    {
      assert rows[..k + 1][..k] == rows[..k];
      if rows[k].id !in s.ready && rows[k].id !in s.blocked { gap := gap + 1; }
    }
    assert rows[..|rows|] == rows;
  }

  method CountUnaccounted(rows: seq<QueueIssue>, accounted: set<string>) returns (residual: nat)
    ensures residual == 0 <==> RowIds(rows) <= accounted
  {
    residual := 0;
    for k := 0 to |rows|
      invariant residual == 0 <==> forall i | 0 <= i < k :: rows[i].id in accounted
    {
      if rows[k].id !in accounted { residual := residual + 1; }
    }
  }

  lemma RowsMove(rows: seq<QueueIssue>, k: nat, s: Surfaces)
    requires k < |rows|
    ensures
      var row := rows[k];
      var f := FateOf(row, s);
      && AdmittedRows(rows[..k + 1], s) == AdmittedRows(rows[..k], s) + (if f.Admits() then [row] else [])
      && RecoveredRows(rows[..k + 1], s) == RecoveredRows(rows[..k], s) + (if f == Recover then [row] else [])
      && RefusedRows(rows[..k + 1], s) == RefusedRows(rows[..k], s) + (if f.Refuse? then [Refused(row, f.reason)] else [])
      && RowIds(rows[..k + 1]) == RowIds(rows[..k]) + {row.id}
      && (Judged(rows[..k + 1], s) <==> Judged(rows[..k], s) && f != NoGraphRow)
  {
    assert rows[..k + 1] == rows[..k] + [rows[k]];
    assert rows[..k + 1][..k] == rows[..k];
  }

  /** One pass over the open rows: admit, recover, refuse, or stop at a row the graph does not know. */
  method Account(rows: seq<QueueIssue>, s: Surfaces)
    returns (failed: Option<string>, admitted: seq<QueueIssue>, recovered: seq<QueueIssue>, refused: seq<Refused>, accounted: set<string>)
    ensures failed.Some? ==> FirstUnjudged(rows, s, failed.value)
    ensures failed.None? ==> Judged(rows, s) && accounted == RowIds(rows)
    ensures failed.None? ==> admitted == AdmittedRows(rows, s) && recovered == RecoveredRows(rows, s) && refused == RefusedRows(rows, s)
  {
    failed, admitted, recovered, refused, accounted := None, [], [], [], {};
    for k := 0 to |rows|
      invariant Judged(rows[..k], s) && accounted == RowIds(rows[..k])
      invariant admitted == AdmittedRows(rows[..k], s)
      invariant recovered == RecoveredRows(rows[..k], s)
      invariant refused == RefusedRows(rows[..k], s)
    {
      var row := rows[k];
      RowsMove(rows, k, s);
      var dispatchable := row.issueType != "epic" && Text.Blank(row.assignee);
      if row.id in s.ready && dispatchable {
        admitted := admitted + [row];
        accounted := accounted + {row.id};
        continue;
      }
      if row.id in s.blocked {
        accounted := accounted + {row.id};
        continue;
      }
      var g := GraphRow(s.graph, row.id);
      if g.None? {
        failed := Some(row.id);
        return;
      }
      if !dispatchable {
        refused := refused + [Refused(row, NotDispatchable)];
      } else {
        match g.value.availability {
          case Available =>
            admitted := admitted + [row];
            recovered := recovered + [row];
          case Held => refused := refused + [Refused(row, GraphBlocked)];
          case Undecided => refused := refused + [Refused(row, GraphUnknown)];
        }
      }
      accounted := accounted + {row.id};
    }
    assert rows[..|rows|] == rows;
  }

  ghost predicate Refuses(issues: seq<QueueIssue>, readyIds: seq<string>, blockedIds: seq<string>, graph: seq<Bead>, e: GraphError) {
    var known := set row | row in issues :: row.id;
    var s := Surfaces(Members(readyIds), Members(blockedIds), graph);
    if issues == [] then e == EmptyIssueSet
    else if readyIds == [] then e == EmptyReadySurface
    else if !SoundSurface(readyIds, known) then FirstFault(readyIds, known, e)
    else if !SoundSurface(blockedIds, known) then FirstFault(blockedIds, known, e)
    else if s.ready * s.blocked != {} then
      e.QueueSurfaceOverlap? && e.id in s.ready * s.blocked && forall id | id in s.ready * s.blocked :: Leq(e.id, id)
    else if OpenRows(issues) == [] then e == EmptyCandidateSet
    else e.MissingGraphIssue? && FirstUnjudged(OpenRows(issues), s, e.id)
  }

  /** When the answer is a report rather than an error. */
  ghost predicate Reconcilable(issues: seq<QueueIssue>, readyIds: seq<string>, blockedIds: seq<string>, graph: seq<Bead>) {
    var known := set row | row in issues :: row.id;
    && issues != [] && readyIds != [] && SoundSurface(readyIds, known) && SoundSurface(blockedIds, known)
    && Members(readyIds) !! Members(blockedIds) && OpenRows(issues) != []
    && Judged(OpenRows(issues), Surfaces(Members(readyIds), Members(blockedIds), graph))
  }

  /** `reconcile_readiness`: errors in the source's order, and no row is ever left unaccounted. */
  method ReconcileReadiness(issues: seq<QueueIssue>, readyIds: seq<string>, blockedIds: seq<string>, graph: seq<Bead>)
    returns (r: Result<ReadinessReport, GraphError>)
    ensures r.Ok? <==> Reconcilable(issues, readyIds, blockedIds, graph)
    ensures r.Ok? ==> r.value == ReportOf(OpenRows(issues), Surfaces(Members(readyIds), Members(blockedIds), graph))
    ensures r.Err? ==> Refuses(issues, readyIds, blockedIds, graph, r.error)
  {
    if issues == [] { return Err(EmptyIssueSet); }
    if readyIds == [] { return Err(EmptyReadySurface); }
    var known := set row | row in issues :: row.id;
    var ready := ReadSurface(readyIds, known);
    if ready.Err? { return Err(ready.error); }
    var blocked := ReadSurface(blockedIds, known);
    if blocked.Err? { return Err(blocked.error); }
    var overlap := LeastOverlap(readyIds, blocked.value);
    if overlap.Some? { return Err(QueueSurfaceOverlap(overlap.value)); }
    var rows := SelectOpen(issues);
    if rows == [] { return Err(EmptyCandidateSet); }
    var s := Surfaces(ready.value, blocked.value, graph);
    var openIds := set row | row in rows :: row.id;
    var gap := CountUnlisted(rows, s);
    var failed, admitted, recovered, refused, accounted := Account(rows, s);
    if failed.Some? {
      UnjudgedIsNotJudged(rows, s, failed.value);
      return Err(MissingGraphIssue(failed.value));
    }
    var residual := CountUnaccounted(rows, accounted);
    var report := ReadinessReport(rows, SortBy(admitted, IssueId), SortBy(recovered, IssueId), SortBy(refused, RefusedId),
                                  |openIds|, |s.ready * openIds|, |s.blocked * openIds|, gap, gap);
    return if residual != 0 then Err(UnaccountedOpenIssue(residual)) else Ok(report);
  }

  lemma UnjudgedIsNotJudged(rows: seq<QueueIssue>, s: Surfaces, id: string)
    requires FirstUnjudged(rows, s, id)
    ensures !Judged(rows, s)
  {
  }

  /** The candidates are the issues whose status is exactly open, each once, in the order given. */
  lemma {:induction false} CandidatesAreTheOpenIssues(issues: seq<QueueIssue>)
    ensures
      var at := Positions(issues, (issue: QueueIssue) => issue.status == Open);
      |OpenRows(issues)| == |at| && forall i | 0 <= i < |at| :: OpenRows(issues)[i] == issues[at[i]]
  {
    if issues != [] { CandidatesAreTheOpenIssues(issues[..|issues| - 1]); }
  }

  // ----- conservation

  /** Whatever id two rows share is on the list. */
  ghost predicate RepeatsOnlyIn(rows: seq<QueueIssue>, ids: set<string>) {
    forall i, j | 0 <= i < j < |rows| && rows[i].id == rows[j].id :: rows[i].id in ids
  }

  function CountListed(rows: seq<QueueIssue>, ids: set<string>): nat {
    if rows == [] then 0
    else CountListed(rows[..|rows| - 1], ids) + (if rows[|rows| - 1].id in ids then 1 else 0)
  }

  /** Rows the ready projection lists that are refused all the same: epics and assigned rows. */
  function CountReadyRefused(rows: seq<QueueIssue>, s: Surfaces): nat {
    if rows == [] then 0
    else
      var row := rows[|rows| - 1];
      CountReadyRefused(rows[..|rows| - 1], s) + (if FateOf(row, s).Refuse? && row.id in s.ready then 1 else 0)
  }

  lemma FateTellsListing(row: QueueIssue, s: Surfaces)
    requires s.ready !! s.blocked
    ensures
      var f := FateOf(row, s);
      && (f.Admit? ==> row.id in s.ready && row.Dispatchable())
      && (f.Recover? ==> row.id !in s.ready && row.Dispatchable())
      && (f.Refuse? && row.id in s.ready ==> f.reason == NotDispatchable)
      && (f.ListedBlocked? <==> row.id in s.blocked)
  {
  }

  /** Every judged row is in exactly one of the three lists. */
  lemma {:induction false} FatesPartition(rows: seq<QueueIssue>, s: Surfaces)
    requires Judged(rows, s) && s.ready !! s.blocked
    ensures |AdmittedRows(rows, s)| + |RefusedRows(rows, s)| + CountListed(rows, s.blocked) == |rows|
  {
    if rows != [] {
      var n := |rows| - 1;
      assert rows[n] in rows && forall row | row in rows[..n] :: row in rows;
      FateTellsListing(rows[n], s);
      FatesPartition(rows[..n], s);
    }
  }

  /** The gap is what was recovered plus what was refused without being listed ready. */
  lemma {:induction false} GapIsRecoveredOrRefused(rows: seq<QueueIssue>, s: Surfaces)
    requires Judged(rows, s) && s.ready !! s.blocked
    ensures CountGap(rows, s) + CountReadyRefused(rows, s) == |RecoveredRows(rows, s)| + |RefusedRows(rows, s)|
  {
    if rows != [] {
      var n := |rows| - 1;
      assert rows[n] in rows && forall row | row in rows[..n] :: row in rows;
      FateTellsListing(rows[n], s);
      GapIsRecoveredOrRefused(rows[..n], s);
    }
  }

  lemma {:induction false} ListedRowsSplit(rows: seq<QueueIssue>, s: Surfaces)
    ensures CountListed(rows, s.ready) + CountListed(rows, s.blocked) + CountGap(rows, s) == |rows| + CountListed(rows, s.ready * s.blocked)
  {
    if rows != [] { ListedRowsSplit(rows[..|rows| - 1], s); }
  }

  lemma {:induction false} NoneListed(rows: seq<QueueIssue>)
    ensures CountListed(rows, {}) == 0
  {
    if rows != [] { NoneListed(rows[..|rows| - 1]); }
  }

  /** Ids off the list counted as a set and row by row: the two counts agree exactly when no id off the list repeats. */
  lemma {:induction false} IdsOffTheList(rows: seq<QueueIssue>, ids: set<string>)
    ensures |RowIds(rows) - ids| + CountListed(rows, ids) <= |rows|
    ensures |RowIds(rows) - ids| + CountListed(rows, ids) == |rows| <==> RepeatsOnlyIn(rows, ids)
  {
    if rows == [] {
      assert RowIds(rows) - ids == {};
    } else {
      hide RowIds, RepeatsOnlyIn;
      var n := |rows| - 1;
      IdsOffTheList(rows[..n], ids);
      RowIdsGrow(rows);
      RepeatsSnoc(rows, ids);
      OneMoreId(ids, RowIds(rows[..n]), rows[n].id);
    }
  }

  lemma {:induction false} IdsOnTheList(rows: seq<QueueIssue>, ids: set<string>)
    ensures |ids * RowIds(rows)| <= CountListed(rows, ids)
  {
    if rows == [] {
      assert ids * RowIds(rows) == {};
    } else {
      hide RowIds;
      var n := |rows| - 1;
      IdsOnTheList(rows[..n], ids);
      RowIdsGrow(rows);
      OneMoreId(ids, RowIds(rows[..n]), rows[n].id);
    }
  }

  lemma RowIdsGrow(rows: seq<QueueIssue>)
    requires rows != []
    ensures RowIds(rows) == RowIds(rows[..|rows| - 1]) + {rows[|rows| - 1].id}
  {
    assert rows == rows[..|rows| - 1] + [rows[|rows| - 1]];
  }

  lemma RepeatsSnoc(rows: seq<QueueIssue>, ids: set<string>)
    requires rows != []
    ensures
      var n := |rows| - 1;
      RepeatsOnlyIn(rows, ids) <==> RepeatsOnlyIn(rows[..n], ids) && (rows[n].id in RowIds(rows[..n]) ==> rows[n].id in ids)
  {
    var n := |rows| - 1;
    assert forall i | 0 <= i < n :: rows[i] == rows[..n][i];
    if RepeatsOnlyIn(rows, ids) {
      forall row | row in rows[..n] && row.id == rows[n].id ensures row.id in ids {
        var i :| 0 <= i < n && rows[..n][i] == row;
      }
    } else if RepeatsOnlyIn(rows[..n], ids) {
      var i, j :| 0 <= i < j < |rows| && rows[i].id == rows[j].id && rows[i].id !in ids;
      assert j == n && rows[..n][i] in rows[..n];
    }
  }

  lemma OneMoreId(ids: set<string>, before: set<string>, id: string)
    ensures |ids * (before + {id})| == |ids * before| + (if id in ids && id !in before then 1 else 0)
    ensures |(before + {id}) - ids| == |before - ids| + (if id in ids || id in before then 0 else 1)
  {
    assert ids * (before + {id}) == if id in ids && id !in before then ids * before + {id} else ids * before;
    assert (before + {id}) - ids == if id in ids || id in before then before - ids else (before - ids) + {id};
  }

  /** Counting apart what two disjoint lists cover. */
  lemma ListsCover(ready: set<string>, blocked: set<string>, ids: set<string>)
    requires ready !! blocked
    ensures |blocked * ids| + |ids - blocked| == |ids|
    ensures |ready * ids| + |blocked * ids| + |ids - (ready + blocked)| == |ids|
  {
    assert ids == blocked * ids + (ids - blocked);
    assert ids - blocked == ready * ids + (ids - (ready + blocked));
  }

  /**
   Row by row nothing is lost and nothing counted twice, whether or not ids repeat.
   The report counts ids, so its own figures add up exactly as long as ids repeat
   only on the lists: the partition by the blocked list, the gap by either list.
   */
  lemma CountsAddUp(rows: seq<QueueIssue>, s: Surfaces)
    requires Judged(rows, s) && s.ready !! s.blocked
    ensures
      var r := ReportOf(rows, s);
      && |r.admitted| + |r.refused| + CountListed(rows, s.blocked) == |rows|
      && CountListed(rows, s.ready) + CountListed(rows, s.blocked) + r.projectionGapCount == |rows|
      && r.projectionGapCount + CountReadyRefused(rows, s) == |r.recovered| + |r.refused|
      && r.readyCount <= CountListed(rows, s.ready) && r.blockedCount <= CountListed(rows, s.blocked)
      && (r.openCount == |rows| <==> RepeatsOnlyIn(rows, {}))
      && (|r.admitted| + |r.refused| + r.blockedCount == r.openCount <==> RepeatsOnlyIn(rows, s.blocked))
      && (r.readyCount + r.blockedCount + r.projectionGapCount == r.openCount <==> RepeatsOnlyIn(rows, s.ready + s.blocked))
  {
    FatesPartition(rows, s);
    GapIsRecoveredOrRefused(rows, s);
    ListedRowsSplit(rows, s);
    assert s.ready * s.blocked == {};
    NoneListed(rows);
    IdsOffTheList(rows, {});
    assert RowIds(rows) - {} == RowIds(rows);
    IdsOnTheList(rows, s.ready);
    IdsOnTheList(rows, s.blocked);
    IdsOffTheList(rows, s.blocked);
    IdsOffTheList(rows, s.ready + s.blocked);
    EitherListed(rows, s.ready, s.blocked);
    ListsCover(s.ready, s.blocked, RowIds(rows));
  }

  lemma {:induction false} EitherListed(rows: seq<QueueIssue>, ready: set<string>, blocked: set<string>)
    requires ready !! blocked
    ensures CountListed(rows, ready + blocked) == CountListed(rows, ready) + CountListed(rows, blocked)
  {
    if rows != [] { EitherListed(rows[..|rows| - 1], ready, blocked); }
  }

  /** One row given twice: while the blocked list names it the figures add up all the same, and off both lists neither does. */
  lemma RowGivenTwice(row: QueueIssue, s: Surfaces)
    requires Judged([row, row], s) && s.ready !! s.blocked
    ensures
      var r := ReportOf([row, row], s);
      && r.openCount == 1
      && (|r.admitted| + |r.refused| + r.blockedCount == 1 <==> row.id in s.blocked)
      && (r.readyCount + r.blockedCount + r.projectionGapCount == 1 <==> row.id in s.ready || row.id in s.blocked)
  {
    hide FateOf, AdmittedRows, RecoveredRows, RefusedRows, CountGap, CountListed, CountReadyRefused, Judged, RepeatsOnlyIn;
    var rows := [row, row];
    CountsAddUp(rows, s);
    assert RowIds(rows) == {row.id};
    TwiceRepeats(row, s.blocked);
    TwiceRepeats(row, s.ready + s.blocked);
  }

  lemma TwiceRepeats(row: QueueIssue, ids: set<string>)
    ensures RepeatsOnlyIn([row, row], ids) <==> row.id in ids
  {
    assert [row, row][0].id == [row, row][1].id;
  }

  /** Where each row ends up. */
  lemma {:induction false} RowsGoWhereTheirFateSays(rows: seq<QueueIssue>, s: Surfaces, row: QueueIssue)
    ensures row in AdmittedRows(rows, s) <==> row in rows && FateOf(row, s).Admits()
    ensures row in RecoveredRows(rows, s) <==> row in rows && FateOf(row, s) == Recover
    ensures forall reason :: Refused(row, reason) in RefusedRows(rows, s) <==> row in rows && FateOf(row, s) == Refuse(reason)
  {
    hide FateOf;
    if rows != [] {
      var n := |rows| - 1;
      RowsGoWhereTheirFateSays(rows[..n], s, row);
      assert rows == rows[..n] + [rows[n]];
    }
  }

  lemma ReportedByFate(rows: seq<QueueIssue>, s: Surfaces, row: QueueIssue)
    ensures row in ReportOf(rows, s).admitted <==> row in rows && FateOf(row, s).Admits()
    ensures row in ReportOf(rows, s).recovered <==> row in rows && FateOf(row, s) == Recover
    ensures forall reason :: Refused(row, reason) in ReportOf(rows, s).refused <==> row in rows && FateOf(row, s) == Refuse(reason)
  {
    hide FateOf, AdmittedRows, RecoveredRows, RefusedRows;
    RowsGoWhereTheirFateSays(rows, s, row);
  }

  /** Recovered means admitted without being listed ready; nothing admitted is an epic or assigned; only those are refused while listed ready. */
  lemma AdmissionIsSound(rows: seq<QueueIssue>, s: Surfaces, row: QueueIssue)
    requires s.ready !! s.blocked
    ensures
      var r := ReportOf(rows, s);
      && (row in r.recovered <==> row in r.admitted && row.id !in s.ready)
      && (row in r.admitted ==> row in rows && row.issueType != "epic" && Text.Blank(row.assignee) && row.id !in s.blocked)
      && (forall reason :: Refused(row, reason) in r.refused && row.id in s.ready ==> reason == NotDispatchable)
  {
    ReportedByFate(rows, s, row);
    FateTellsListing(row, s);
    hide ReportOf;
  }

  /** Every open row is admitted, refused or listed blocked, and which one follows from the inputs alone. */
  lemma AdmissionIsComplete(rows: seq<QueueIssue>, s: Surfaces, row: QueueIssue)
    requires s.ready !! s.blocked && row in rows && Judged(rows, s)
    ensures
      var r, g, free := ReportOf(rows, s), GraphRow(s.graph, row.id), row.issueType != "epic" && forall i | 0 <= i < |row.assignee| :: Text.IsWhitespace(row.assignee[i]);
      && (row in r.admitted <==>
            free && row.id !in s.blocked && (row.id in s.ready || g.value.availability == Available))
      && (Refused(row, NotDispatchable) in r.refused <==> !free && row.id !in s.blocked)
      && (Refused(row, GraphBlocked) in r.refused <==>
            free && row.id !in s.blocked && row.id !in s.ready && g.value.availability == Held)
      && (Refused(row, GraphUnknown) in r.refused <==>
            free && row.id !in s.blocked && row.id !in s.ready && g.value.availability == Undecided)
  {
    hide ReportOf, GraphRow, Text.Blank;
    Text.BlankIff(row.assignee);
    ReportedByFate(rows, s, row);
    FateTellsListing(row, s);
  }

  /** The report lists the open rows as they came and everything else by id; its two gap figures are one. */
  lemma ReportIsSorted(rows: seq<QueueIssue>, s: Surfaces)
    ensures
      var r := ReportOf(rows, s);
      && r.openCandidates == rows && r.residualCount == r.projectionGapCount
      && (forall i, j | 0 <= i < j < |r.admitted| :: Leq(r.admitted[i].id, r.admitted[j].id))
      && (forall i, j | 0 <= i < j < |r.recovered| :: Leq(r.recovered[i].id, r.recovered[j].id))
      && forall i, j | 0 <= i < j < |r.refused| :: Leq(r.refused[i].issue.id, r.refused[j].issue.id)
  {
    var r := ReportOf(rows, s);
    assert SortedBy(r.admitted, IssueId) && SortedBy(r.recovered, IssueId) && SortedBy(r.refused, RefusedId);
    forall i, j | 0 <= i < j < |r.admitted| ensures Leq(r.admitted[i].id, r.admitted[j].id) { assert Leq(IssueId(r.admitted[i]), IssueId(r.admitted[j])); }
    forall i, j | 0 <= i < j < |r.recovered| ensures Leq(r.recovered[i].id, r.recovered[j].id) { assert Leq(IssueId(r.recovered[i]), IssueId(r.recovered[j])); }
    forall i, j | 0 <= i < j < |r.refused| ensures Leq(r.refused[i].issue.id, r.refused[j].issue.id) { assert Leq(RefusedId(r.refused[i]), RefusedId(r.refused[j])); }
  }

  /** No row is both admitted and refused. */
  lemma ListsAreDisjoint(rows: seq<QueueIssue>, s: Surfaces, row: QueueIssue, reason: Reason)
    ensures !(row in ReportOf(rows, s).admitted && Refused(row, reason) in ReportOf(rows, s).refused)
  {
    ReportedByFate(rows, s, row);
    hide ReportOf;
  }

  // ----- composed with the graph

  lemma RecoveredIsAvailable(rows: seq<QueueIssue>, s: Surfaces, row: QueueIssue)
    requires row in ReportOf(rows, s).recovered
    ensures row in rows
    ensures GraphRow(s.graph, row.id).Some? && GraphRow(s.graph, row.id).value.availability == Available
  {
    ReportedByFate(rows, s, row);
    hide ReportOf;
  }

  lemma GraphRowIsReport(beads: seq<Bead>, graph: seq<Bead>, id: string) returns (i: nat)
    requires GraphRow(graph, id).Some? && forall b :: b in graph <==> b in beads
    ensures i < |beads| && beads[i].beadId == id && GraphRow(graph, id) == Some(beads[i])
  {
    var g := GraphRow(graph, id).value;
    i :| i < |beads| && beads[i] == g;
  }

  /** Whatever is recovered has, in the graph it was recovered from, no blocker that is not closed. */
  lemma RecoveredHasOnlyClosedBlockers(records: seq<Issue>, edges: seq<Edge>, rows: seq<QueueIssue>, s: Surfaces, row: QueueIssue)
    requires s.graph == GraphOf(records, edges).issues && row in ReportOf(rows, s).recovered
    ensures OnlyClosedBlockers(StatusMap(records), edges, row.id)
  {
    RecoveredIsAvailable(rows, s, row);
    var i := GraphRowIsReport(ReportBeads(StatusMap(records), edges, records), s.graph, row.id);
    AvailableHasOnlyClosedBlockers(StatusMap(records), edges, records[i]);
  }

  ghost predicate OnlyClosedBlockers(st: Statuses, edges: seq<Edge>, id: string) {
    forall e | e in edges && e.childId == id :: e.blockerId in st && st[e.blockerId] == Closed
  }

  lemma AvailableHasOnlyClosedBlockers(st: Statuses, edges: seq<Edge>, issue: Issue)
    requires ReportBead(st, edges, issue).availability == Available
    ensures OnlyClosedBlockers(st, edges, issue.id)
  {
    AvailabilityIsExact(st, edges, issue);
  }

  lemma BeadIsFound(graph: seq<Bead>, b: Bead)
    requires b in graph
    ensures GraphRow(graph, b.beadId).Some?
  {
  }

  lemma RecordIsInGraph(records: seq<Issue>, edges: seq<Edge>, i: nat)
    requires i < |records|
    ensures GraphRow(GraphOf(records, edges).issues, records[i].id).Some?
  {
    var beads := ReportBeads(StatusMap(records), edges, records);
    assert beads[i] in beads;
    BeadIsFound(SortBy(beads, BeadId), beads[i]);
  }

  lemma KnownRowIsJudged(row: QueueIssue, s: Surfaces)
    requires GraphRow(s.graph, row.id).Some?
    ensures FateOf(row, s) != NoGraphRow
  {
  }

  /** A graph built from records that cover the open rows always has an answer. */
  lemma CoveringGraphJudgesAll(records: seq<Issue>, edges: seq<Edge>, rows: seq<QueueIssue>, s: Surfaces)
    requires s.graph == GraphOf(records, edges).issues
    requires forall row | row in rows :: exists i :: 0 <= i < |records| && records[i].id == row.id
    ensures Judged(rows, s)
  {
    forall row | row in rows ensures FateOf(row, s) != NoGraphRow {
      var i :| 0 <= i < |records| && records[i].id == row.id;
      RecordIsInGraph(records, edges, i);
      KnownRowIsJudged(row, s);
    }
  }
}
