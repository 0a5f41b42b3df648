/** Availability of every bead from the complete issue set and its live `blocks` edges. */
module BlockerGraph {
  import opened Wrappers
  import opened Ordering

  datatype Status = Open | InProgress | Grading | Blocked | Tombstone | Closed | Unrecognised
  {
    predicate IsTerminal() { Closed? || Tombstone? }
  }

  datatype Issue = Issue(id: string, status: Status)
  datatype Edge = Edge(childId: string, blockerId: string)

  datatype BlockerState = Blocking | Released | Stale
  datatype BlockerReport = BlockerReport(blockerId: string, status: Status, state: BlockerState)
  datatype Availability = Available | Held | Undecided

  datatype Bead = Bead(beadId: string, status: Status, availability: Availability, blockers: seq<BlockerReport>, unblocks: nat)

  datatype StaleEdge = ChildAbsent(edge: Edge) | BlockerAbsent(edge: Edge)

  datatype Report = Report(issues: seq<Bead>, staleEdges: seq<StaleEdge>)

  datatype GraphError =
    | EmptyIssueSet
    | EmptyReadySurface
    | EmptyCandidateSet
    | DuplicateIssue(id: string)
    | DuplicateQueueIssue(id: string)
    | UnknownQueueIssue(id: string)
    | QueueSurfaceOverlap(id: string)
    | MissingGraphIssue(id: string)
    | UnaccountedOpenIssue(count: nat)

  type Statuses = map<string, Status>

  ghost predicate DistinctIds(issues: seq<Issue>) { forall i, j | 0 <= i < j < |issues| :: issues[i].id != issues[j].id }

  /** Collected in order: a later issue of the same id wins. */
  function StatusMap(issues: seq<Issue>): Statuses {
    if issues == [] then map[]
    else
      var last := issues[|issues| - 1];
      StatusMap(issues[..|issues| - 1])[last.id := last.status]
  }

  lemma {:induction false} StatusMapKeys(issues: seq<Issue>)
    ensures forall id :: id in StatusMap(issues) <==> exists i | 0 <= i < |issues| :: issues[i].id == id
  {
    if issues != [] {
      var n := |issues| - 1;
      StatusMapKeys(issues[..n]);
      forall id ensures id in StatusMap(issues) <==> exists i | 0 <= i < |issues| :: issues[i].id == id {
        if id in StatusMap(issues) {
          if id != issues[n].id {
            assert id in StatusMap(issues[..n]);
            var i :| 0 <= i < n && issues[..n][i].id == id;
            assert issues[i].id == id;
          }
        }
        forall i | 0 <= i < |issues| && issues[i].id == id ensures id in StatusMap(issues) {
          if i < n { assert issues[..n][i].id == id; }
        }
      }
    }
  }

  /** The map is as large as the list exactly when no id repeats. */
  lemma {:induction false} StatusMapCounts(issues: seq<Issue>)
    ensures |StatusMap(issues)| <= |issues| && (|StatusMap(issues)| == |issues| <==> DistinctIds(issues))
  {
    if issues != [] {
      var n := |issues| - 1;
      var before, id := StatusMap(issues[..n]), issues[n].id;
      StatusMapCounts(issues[..n]);
      StatusMapKeys(issues[..n]);
      KeyCount(before, id, issues[n].status);
      DistinctSnoc(issues);
    }
  }

  lemma KeyCount(m: Statuses, id: string, status: Status)
    ensures |m[id := status]| == |m| + (if id in m then 0 else 1)
  {
    assert m[id := status].Keys == m.Keys + {id};
    assert |m[id := status]| == |m[id := status].Keys| && |m| == |m.Keys|;
  }

  lemma DistinctSnoc(issues: seq<Issue>)
    requires issues != []
    ensures
      var n := |issues| - 1;
      DistinctIds(issues) <==> DistinctIds(issues[..n]) && !exists i | 0 <= i < n :: issues[..n][i].id == issues[n].id
  {
    var n := |issues| - 1;
    assert forall i | 0 <= i < n :: issues[i] == issues[..n][i];
  }

  /** The blockers recorded for a child, in edge order. */
  function BlockersOf(edges: seq<Edge>, child: string): (ids: seq<string>)
    ensures forall b :: b in ids <==> Edge(child, b) in edges
  {
    if edges == [] then []
    else
      var n := |edges| - 1;
      var before := BlockersOf(edges[..n], child);
      assert edges == edges[..n] + [edges[n]];
      if edges[n].childId == child then before + [edges[n].blockerId] else before
  }

  /** An edge that can release something: both ends known, the child not yet finished. */
  predicate Live(st: Statuses, e: Edge) { e.childId in st && e.blockerId in st && !st[e.childId].IsTerminal() }

  function CountLive(st: Statuses, edges: seq<Edge>): nat {
    if edges == [] then 0
    else CountLive(st, edges[..|edges| - 1]) + (if Live(st, edges[|edges| - 1]) then 1 else 0)
  }

  function Dependents(st: Statuses, edges: seq<Edge>, blocker: string): nat {
    if edges == [] then 0
    else
      var e := edges[|edges| - 1];
      Dependents(st, edges[..|edges| - 1], blocker) + (if e.blockerId == blocker && Live(st, e) then 1 else 0)
  }

  function StaleOf(st: Statuses, e: Edge): seq<StaleEdge> {
    if e.childId !in st then [ChildAbsent(e)] else if e.blockerId !in st then [BlockerAbsent(e)] else []
  }

  function StaleEdges(st: Statuses, edges: seq<Edge>): seq<StaleEdge> {
    if edges == [] then [] else StaleEdges(st, edges[..|edges| - 1]) + StaleOf(st, edges[|edges| - 1])
  }

  function ReportBlocker(st: Statuses, id: string): BlockerReport {
    if id !in st then BlockerReport(id, Unrecognised, Stale)
    else if st[id] == Closed then BlockerReport(id, Closed, Released)
    else if !st[id].IsTerminal() then BlockerReport(id, st[id], Blocking)
    else BlockerReport(id, st[id], Stale)
  }

  function ReportBlockers(st: Statuses, ids: seq<string>): (r: seq<BlockerReport>)
    ensures |r| == |ids| && forall i | 0 <= i < |ids| :: r[i] == ReportBlocker(st, ids[i])
  {
    seq(|ids|, i requires 0 <= i < |ids| => ReportBlocker(st, ids[i]))
  }

  function Judge(reports: seq<BlockerReport>): Availability {
    if exists b :: b in reports && b.state == Stale then Undecided
    else if exists b :: b in reports && b.state == Blocking then Held
    else Available
  }

  function ReportBead(st: Statuses, edges: seq<Edge>, issue: Issue): Bead {
    var blockers := ReportBlockers(st, BlockersOf(edges, issue.id));
    Bead(issue.id, issue.status, Judge(blockers), blockers, Dependents(st, edges, issue.id))
  }

  function ReportBeads(st: Statuses, edges: seq<Edge>, issues: seq<Issue>): (r: seq<Bead>)
    ensures |r| == |issues| && forall i | 0 <= i < |issues| :: r[i] == ReportBead(st, edges, issues[i])
  {
    seq(|issues|, i requires 0 <= i < |issues| => ReportBead(st, edges, issues[i]))
  }

  function BeadId(b: Bead): string { b.beadId }

  function GraphOf(issues: seq<Issue>, edges: seq<Edge>): Report {
    var st := StatusMap(issues);
    Report(SortBy(ReportBeads(st, edges, issues), BeadId), StaleEdges(st, edges))
  }

  ghost predicate FirstDuplicate(issues: seq<Issue>, id: string) {
    exists j | 0 <= j < |issues| ::
      issues[j].id == id && DistinctIds(issues[..j]) && exists i | 0 <= i < j :: issues[i].id == id
  }

  // ----- the program

  method FindDuplicate(issues: seq<Issue>) returns (id: string)
    requires !DistinctIds(issues)
    ensures FirstDuplicate(issues, id)
  {
    var seen: set<string> := {};
    assert issues[..|issues|] == issues;
    for k := 0 to |issues|
      invariant DistinctIds(issues[..k])
      invariant forall x :: x in seen <==> exists i | 0 <= i < k :: issues[i].id == x
    {
      if issues[k].id in seen { return issues[k].id; }
      seen := seen + {issues[k].id};
    }
    assert false;
  }

  ghost predicate Recorded(st: Statuses, edges: seq<Edge>, byChild: map<string, seq<string>>) {
    forall c | c in st :: BlockersOf(edges, c) == if c in byChild then byChild[c] else []
  }

  ghost predicate Counted(st: Statuses, edges: seq<Edge>, byBlocker: map<string, nat>) {
    forall b | b in st :: Dependents(st, edges, b) == if b in byBlocker then byBlocker[b] else 0
  }

  lemma RecordedMoves(st: Statuses, edges: seq<Edge>, byChild: map<string, seq<string>>)
    requires edges != [] && Recorded(st, edges[..|edges| - 1], byChild)
    ensures
      var e := edges[|edges| - 1];
      if e.childId !in st then Recorded(st, edges, byChild)
      else Recorded(st, edges, byChild[e.childId := (if e.childId in byChild then byChild[e.childId] else []) + [e.blockerId]])
  {
  }

  lemma CountedMoves(st: Statuses, edges: seq<Edge>, byBlocker: map<string, nat>)
    requires edges != [] && Counted(st, edges[..|edges| - 1], byBlocker)
    ensures
      var e := edges[|edges| - 1];
      if !Live(st, e) then Counted(st, edges, byBlocker)
      else Counted(st, edges, byBlocker[e.blockerId := (if e.blockerId in byBlocker then byBlocker[e.blockerId] else 0) + 1])
  {
  }

  lemma NothingRecorded(st: Statuses)
    ensures Recorded(st, [], map[]) && Counted(st, [], map[])
  {
  }

  method ScanEdges(st: Statuses, edges: seq<Edge>)
    returns (byChild: map<string, seq<string>>, byBlocker: map<string, nat>, stale: seq<StaleEdge>)
    ensures Recorded(st, edges, byChild) && Counted(st, edges, byBlocker) && stale == StaleEdges(st, edges)
  {
    hide Recorded, Counted;
    byChild, byBlocker, stale := map[], map[], [];
    NothingRecorded(st);
    for k := 0 to |edges|
      invariant Recorded(st, edges[..k], byChild)
      invariant Counted(st, edges[..k], byBlocker)
      invariant stale == StaleEdges(st, edges[..k])
    {
      var e := edges[k];
      assert edges[..k + 1][..k] == edges[..k] && edges[..k + 1][k] == e;
      RecordedMoves(st, edges[..k + 1], byChild);
      CountedMoves(st, edges[..k + 1], byBlocker);
      if e.childId !in st {
        stale := stale + [ChildAbsent(e)];
        continue;
      }
      byChild := byChild[e.childId := (if e.childId in byChild then byChild[e.childId] else []) + [e.blockerId]];
      if e.blockerId !in st {
        stale := stale + [BlockerAbsent(e)];
        continue;
      }
      if !st[e.childId].IsTerminal() {
        byBlocker := byBlocker[e.blockerId := (if e.blockerId in byBlocker then byBlocker[e.blockerId] else 0) + 1];
      }
    }
    assert edges[..|edges|] == edges;
  }

  method AssessBlockers(st: Statuses, ids: seq<string>) returns (blockers: seq<BlockerReport>, availability: Availability)
    ensures blockers == ReportBlockers(st, ids) && availability == Judge(blockers)
  {
    blockers := [];
    var hasBlocking, hasUnknown := false, false;
    for k := 0 to |ids|
      invariant blockers == ReportBlockers(st, ids[..k])
      invariant hasBlocking <==> exists b :: b in blockers && b.state == Blocking
      invariant hasUnknown <==> exists b :: b in blockers && b.state == Stale
    {
      var id := ids[k];
      var report;
      if id in st && st[id] == Closed {
        report := BlockerReport(id, Closed, Released);
      } else if id in st && !st[id].IsTerminal() {
        report := BlockerReport(id, st[id], Blocking);
      } else if id in st {
        report := BlockerReport(id, st[id], Stale);
      } else {
        report := BlockerReport(id, Unrecognised, Stale);
      }
      hasBlocking := hasBlocking || report.state == Blocking;
      hasUnknown := hasUnknown || report.state == Stale;
      assert report == ReportBlocker(st, ids[k]);
      assert report in blockers + [report];
      blockers := blockers + [report];
      assert ids[..k + 1] == ids[..k] + [ids[k]];
    }
    assert ids[..|ids|] == ids;
    availability := if hasUnknown then Undecided else if hasBlocking then Held else Available;
  }

  /** `evaluate_graph`. */
  method EvaluateGraph(issues: seq<Issue>, edges: seq<Edge>) returns (r: Result<Report, GraphError>)
    ensures issues == [] ==> r == Err(EmptyIssueSet)
    ensures issues != [] && !DistinctIds(issues) ==> r.Err? && r.error.DuplicateIssue? && FirstDuplicate(issues, r.error.id)
    ensures issues != [] && DistinctIds(issues) ==> r == Ok(GraphOf(issues, edges))
  {
    if issues == [] { return Err(EmptyIssueSet); }
    var st := StatusMap(issues);
    StatusMapCounts(issues);
    if |st| != |issues| {
      var id := FindDuplicate(issues);
      return Err(DuplicateIssue(id));
    }
    var byChild, byBlocker, stale := ScanEdges(st, edges);
    StatusMapKeys(issues);
    var reports := AssessAll(st, edges, issues, byChild, byBlocker);
    return Ok(Report(SortBy(reports, BeadId), stale));
  }

  method AssessAll(st: Statuses, ghost edges: seq<Edge>, issues: seq<Issue>, byChild: map<string, seq<string>>, byBlocker: map<string, nat>)
    returns (reports: seq<Bead>)
    requires forall i | 0 <= i < |issues| :: issues[i].id in st
    requires Recorded(st, edges, byChild) && Counted(st, edges, byBlocker)
    ensures reports == ReportBeads(st, edges, issues)
  {
    reports := [];
    for k := 0 to |issues|
      invariant |reports| == k && forall i | 0 <= i < k :: reports[i] == ReportBead(st, edges, issues[i])
    {
      var issue := issues[k];
      var blockers, availability := AssessBlockers(st, if issue.id in byChild then byChild[issue.id] else []);
      var unblocks := if issue.id in byBlocker then byBlocker[issue.id] else 0;
      reports := reports + [Bead(issue.id, issue.status, availability, blockers, unblocks)];
    }
  }

  // ----- what availability means

  /** Stated on the edges themselves, with no mention of how the reports were gathered. */
  lemma AvailabilityIsExact(st: Statuses, edges: seq<Edge>, issue: Issue)
    ensures
      var a, id := ReportBead(st, edges, issue).availability, issue.id;
      && (a == Available <==> forall e | e in edges && e.childId == id :: e.blockerId in st && st[e.blockerId] == Closed)
      && (a == Held <==>
            (exists e :: e in edges && e.childId == id && e.blockerId in st && !st[e.blockerId].IsTerminal())
            && forall e | e in edges && e.childId == id :: e.blockerId in st && st[e.blockerId] != Tombstone)
      && (a == Undecided <==>
            exists e :: e in edges && e.childId == id && (e.blockerId !in st || st[e.blockerId] == Tombstone))
  {
    ReportsMirrorEdges(st, edges, issue.id);
    ReportsComeFromEdges(st, edges, issue.id);
    hide BlockersOf, ReportBlockers;
  }

  lemma ReportsMirrorEdges(st: Statuses, edges: seq<Edge>, id: string)
    ensures
      var reports := ReportBlockers(st, BlockersOf(edges, id));
      forall e | e in edges && e.childId == id :: ReportBlocker(st, e.blockerId) in reports
  {
    var ids := BlockersOf(edges, id);
    var reports := ReportBlockers(st, ids);
    forall e | e in edges && e.childId == id ensures ReportBlocker(st, e.blockerId) in reports {
      assert e == Edge(id, e.blockerId);
      var i :| 0 <= i < |ids| && ids[i] == e.blockerId;
      assert reports[i] == ReportBlocker(st, e.blockerId);
    }
  }

  lemma ReportsComeFromEdges(st: Statuses, edges: seq<Edge>, id: string)
    ensures
      var reports := ReportBlockers(st, BlockersOf(edges, id));
      forall b | b in reports :: Edge(id, b.blockerId) in edges && b == ReportBlocker(st, b.blockerId)
  {
    var ids := BlockersOf(edges, id);
    var reports := ReportBlockers(st, ids);
    forall b | b in reports ensures Edge(id, b.blockerId) in edges && b == ReportBlocker(st, b.blockerId) {
      var i :| 0 <= i < |reports| && reports[i] == b;
      assert ids[i] in ids;
    }
  }

  /** On distinct ids the graph knows each issue by its own status, and nothing else. */
  lemma {:induction false} StatusesAreTheIssues(issues: seq<Issue>)
    requires DistinctIds(issues)
    ensures forall issue | issue in issues :: issue.id in StatusMap(issues) && StatusMap(issues)[issue.id] == issue.status
    ensures forall id | id in StatusMap(issues) :: Issue(id, StatusMap(issues)[id]) in issues
  {
    if issues != [] {
      var n := |issues| - 1;
      StatusesAreTheIssues(issues[..n]);
      assert issues == issues[..n] + [issues[n]];
      forall issue | issue in issues[..n] ensures issue.id != issues[n].id {
        var i :| 0 <= i < n && issues[..n][i] == issue;
        assert issues[i] == issue;
      }
      assert issues[n] == Issue(issues[n].id, issues[n].status);
    }
  }

  /** The rest of a bead's report: itself, and each recorded blocker in edge order with its own status and what that means. */
  lemma BeadReportIsExact(st: Statuses, edges: seq<Edge>, issue: Issue)
    ensures
      var r, at := ReportBead(st, edges, issue), Positions(edges, (e: Edge) => e.childId == issue.id);
      && r.beadId == issue.id && r.status == issue.status
      && |r.blockers| == |at| && (forall i | 0 <= i < |at| :: r.blockers[i].blockerId == edges[at[i]].blockerId)
      && forall b | b in r.blockers ::
           && b.status == (if b.blockerId in st then st[b.blockerId] else Unrecognised)
           && (b.state == Released <==> b.blockerId in st && st[b.blockerId] == Closed)
           && (b.state == Stale <==> b.blockerId !in st || st[b.blockerId] == Tombstone)
  {
    hide BlockersOf, Judge, Dependents, Positions;
    BlockersKeepEdgeOrder(edges, issue.id);
    ReportsComeFromEdges(st, edges, issue.id);
  }

  lemma {:induction false} BlockersKeepEdgeOrder(edges: seq<Edge>, child: string)
    ensures
      var at := Positions(edges, (e: Edge) => e.childId == child);
      |BlockersOf(edges, child)| == |at| && forall i | 0 <= i < |at| :: BlockersOf(edges, child)[i] == edges[at[i]].blockerId
  {
    hide BlockersOf;
    if edges == [] {
      BlockersStart(child);
    } else {
      var n := |edges| - 1;
      BlockersGrow(edges, child);
      BlockersKeepEdgeOrder(edges[..n], child);
      var test := (e: Edge) => e.childId == child;
      var at, before := Positions(edges, test), Positions(edges[..n], test);
      forall i | 0 <= i < |at| ensures BlockersOf(edges, child)[i] == edges[at[i]].blockerId {
        if i < |before| { assert at[i] == before[i] < n; }
      }
    }
  }

  lemma BlockersStart(child: string)
    ensures BlockersOf([], child) == []
  {
  }

  lemma BlockersGrow(edges: seq<Edge>, child: string)
    requires edges != []
    ensures
      var n := |edges| - 1;
      BlockersOf(edges, child) == BlockersOf(edges[..n], child) + if edges[n].childId == child then [edges[n].blockerId] else []
  {
  }

  /** An edge is reported stale exactly when one of its ends is not a listed issue; the child is looked at first. */
  lemma {:induction false} StaleIsExact(st: Statuses, edges: seq<Edge>, e: Edge)
    ensures ChildAbsent(e) in StaleEdges(st, edges) <==> e in edges && e.childId !in st
    ensures BlockerAbsent(e) in StaleEdges(st, edges) <==> e in edges && e.childId in st && e.blockerId !in st
  {
    if edges != [] {
      var n := |edges| - 1;
      StaleIsExact(st, edges[..n], e);
      assert edges == edges[..n] + [edges[n]];
    }
  }

  /** Which edges a bead's own `unblocks` counts: those it blocks, from a listed child that is neither closed nor a tombstone. */
  lemma {:induction false} UnblocksIsExact(st: Statuses, edges: seq<Edge>, blocker: string)
    ensures Dependents(st, edges, blocker) == |Positions(edges, (e: Edge) =>
      e.blockerId == blocker && blocker in st && e.childId in st && st[e.childId] != Closed && st[e.childId] != Tombstone)|
  {
    if edges != [] { UnblocksIsExact(st, edges[..|edges| - 1], blocker); }
  }

  // ----- conservation

  function SumUnblocks(beads: seq<Bead>): nat {
    if beads == [] then 0 else beads[0].unblocks + SumUnblocks(beads[1..])
  }

  lemma {:induction false} SumSplits(a: seq<Bead>, b: seq<Bead>)
    ensures SumUnblocks(a + b) == SumUnblocks(a) + SumUnblocks(b)
  {
    if a == [] {
      assert a + b == b;
    } else {
      SumSplits(a[1..], b);
      assert (a + b)[1..] == a[1..] + b;
    }
  }

  function Without(b: seq<Bead>, i: nat): (rest: seq<Bead>)
    requires i < |b|
    ensures |rest| == |b| - 1
  {
    b[..i] + b[i + 1..]
  }

  lemma CountWithout(b: seq<Bead>, i: nat)
    requires i < |b|
    ensures multiset(b) == multiset(Without(b, i)) + multiset{b[i]}
  {
    assert b == b[..i] + [b[i]] + b[i + 1..];
  }

  lemma SumWithout(b: seq<Bead>, i: nat)
    requires i < |b|
    ensures SumUnblocks(b) == SumUnblocks(Without(b, i)) + b[i].unblocks
  {
    hide SumUnblocks;
    CutAt(b, i);
    SumSplits(b[..i], [b[i]] + b[i + 1..]);
    SumOfOneMore(b[i], b[i + 1..]);
    SumSplits(b[..i], b[i + 1..]);
  }

  lemma CutAt(b: seq<Bead>, i: nat)
    requires i < |b|
    ensures b == b[..i] + ([b[i]] + b[i + 1..])
  {
  }

  lemma SumOfOneMore(x: Bead, rest: seq<Bead>)
    ensures SumUnblocks([x] + rest) == x.unblocks + SumUnblocks(rest)
  {
    assert ([x] + rest)[1..] == rest;
  }

  lemma Cancel(m: multiset<Bead>, n: multiset<Bead>, x: Bead)
    requires m + multiset{x} == n + multiset{x}
    ensures m == n
  {
    assert m == m + multiset{x} - multiset{x};
    assert n == n + multiset{x} - multiset{x};
  }

  lemma {:induction false} SumIgnoresOrder(a: seq<Bead>, b: seq<Bead>)
    requires multiset(a) == multiset(b)
    ensures SumUnblocks(a) == SumUnblocks(b)
  {
    if a == [] {
      assert |b| == |multiset(b)| == 0;
    } else {
      hide SumUnblocks, Without;
      assert a[0] in multiset(b);
      var i :| 0 <= i < |b| && b[i] == a[0];
      CountWithout(a, 0);
      CountWithout(b, i);
      SumWithout(a, 0);
      SumWithout(b, i);
      Cancel(multiset(Without(a, 0)), multiset(Without(b, i)), a[0]);
      SumIgnoresOrder(Without(a, 0), Without(b, i));
    }
  }

  function SumDependents(st: Statuses, edges: seq<Edge>, issues: seq<Issue>): nat {
    if issues == [] then 0 else Dependents(st, edges, issues[0].id) + SumDependents(st, edges, issues[1..])
  }

  lemma {:induction false} ReportsSumDependents(st: Statuses, edges: seq<Edge>, issues: seq<Issue>)
    ensures SumUnblocks(ReportBeads(st, edges, issues)) == SumDependents(st, edges, issues)
  {
    if issues != [] {
      ReportsSumDependents(st, edges, issues[1..]);
      assert ReportBeads(st, edges, issues)[1..] == ReportBeads(st, edges, issues[1..]);
    }
  }

  /** One more edge adds one to one bead's count, if it is live and that bead is listed. */
  lemma {:induction false} OneEdgeCountsOnce(st: Statuses, edges: seq<Edge>, issues: seq<Issue>)
    requires edges != [] && DistinctIds(issues)
    ensures
      var n := |edges| - 1;
      SumDependents(st, edges, issues) == SumDependents(st, edges[..n], issues)
        + (if Live(st, edges[n]) && exists i :: 0 <= i < |issues| && issues[i].id == edges[n].blockerId then 1 else 0)
  {
    if issues != [] {
      OneEdgeCountsOnce(st, edges, issues[1..]);
      var b := edges[|edges| - 1].blockerId;
      assert (exists i :: 0 <= i < |issues| && issues[i].id == b)
        <==> issues[0].id == b || exists i :: 0 <= i < |issues[1..]| && issues[1..][i].id == b by {
        forall i | 0 < i < |issues| ensures issues[1..][i - 1] == issues[i] {}
      }
    }
  }

  lemma {:induction false} DependentsAddUp(issues: seq<Issue>, edges: seq<Edge>)
    requires DistinctIds(issues)
    ensures SumDependents(StatusMap(issues), edges, issues) == CountLive(StatusMap(issues), edges)
  {
    var st := StatusMap(issues);
    if edges == [] {
      NoEdgesNoDependents(st, issues);
    } else {
      StatusMapKeys(issues);
      OneEdgeCountsOnce(st, edges, issues);
      DependentsAddUp(issues, edges[..|edges| - 1]);
    }
  }

  lemma {:induction false} NoEdgesNoDependents(st: Statuses, issues: seq<Issue>)
    ensures SumDependents(st, [], issues) == 0
  {
    if issues != [] { NoEdgesNoDependents(st, issues[1..]); }
  }

  /** The beads of a graph are the reports of its issues, one each, in id order. */
  lemma GraphListsEveryIssue(issues: seq<Issue>, edges: seq<Edge>)
    ensures
      var g := GraphOf(issues, edges);
      && SortedBy(g.issues, BeadId) && |g.issues| == |issues| && (forall b | b in g.issues :: BeadId(b) == b.beadId)
      && forall issue | issue in issues :: ReportBead(StatusMap(issues), edges, issue) in g.issues
  {
    hide ReportBead;
    var reports := ReportBeads(StatusMap(issues), edges, issues);
    forall issue | issue in issues ensures ReportBead(StatusMap(issues), edges, issue) in reports {
      var i :| 0 <= i < |issues| && issues[i] == issue;
      assert reports[i] == ReportBead(StatusMap(issues), edges, issue);
    }
  }

  /** All `unblocks` counts together are exactly the edges with both ends known and an unfinished child. */
  lemma UnblocksAddUp(issues: seq<Issue>, edges: seq<Edge>)
    requires DistinctIds(issues)
    ensures SumUnblocks(GraphOf(issues, edges).issues) == CountLive(StatusMap(issues), edges)
  {
    var st := StatusMap(issues);
    SumIgnoresOrder(GraphOf(issues, edges).issues, ReportBeads(st, edges, issues));
    ReportsSumDependents(st, edges, issues);
    DependentsAddUp(issues, edges);
  }
}
