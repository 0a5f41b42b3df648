/**
 The three arms, the P0 list and the exit gate, assembled from one search per bead.
 */
module InversionGate {
  import opened Wrappers
  import opened Ordering
  import opened Inversion
  import opened Walks

  // ----- the arms

  function Blocked(r: Row): string { r.blockedId }

  function Ids(rows: seq<Row>): (r: seq<string>)
    ensures |r| == |rows| && forall i | 0 <= i < |rows| :: r[i] == rows[i].blockedId
  {
    seq(|rows|, i requires 0 <= i < |rows| => rows[i].blockedId)
  }

  /** What one search must return for one bead; a bead that is not scanned has no row. */
  ghost predicate Owed(kind: InversionType, byId: Registry, adj: Adjacency, cap: nat, id: string, row: Option<Row>) {
    if !Scanned(byId, id) then row == None
    else if kind == Direct then DirectExact(byId, adj, id, cap, row)
    else TransitiveExact(byId, adj, id, cap, row)
  }

  /** `rows` lists exactly the rows the table `m` holds, one per id. */
  ghost predicate Lists(m: map<string, Option<Row>>, rows: seq<Row>) {
    && DistinctKeys(rows, Blocked)
    && (forall r | r in rows :: r.blockedId in m && m[r.blockedId] == Some(r))
    && (forall id | id in m && id !in Ids(rows) :: m[id] == None)
  }

  lemma IdsGrow(rows: seq<Row>, row: Row)
    ensures Ids(rows + [row]) == Ids(rows) + [row.blockedId]
  {
  }

  function Push<T>(xs: seq<T>, x: Option<T>): seq<T> { if x.Some? then xs + [x.value] else xs }

  lemma ListsGrows(m: map<string, Option<Row>>, rows: seq<Row>, id: string, row: Option<Row>)
    requires Lists(m, rows) && id !in m && (row.Some? ==> row.value.blockedId == id)
    ensures Lists(m[id := row], Push(rows, row))
  {
    if row.Some? { IdsGrow(rows, row.value); }
  }

  lemma ListsSorts(m: map<string, Option<Row>>, rows: seq<Row>)
    requires Lists(m, rows)
    ensures Lists(m, SortBy(rows, Blocked)) && Ascending(Ids(SortBy(rows, Blocked)))
  {
    var sorted := SortBy(rows, Blocked);
    PermutationKeepsDistinct(rows, sorted, Blocked);
    forall id | id in Ids(rows) ensures id in Ids(sorted) {
      var i :| 0 <= i < |rows| && Ids(rows)[i] == id;
      assert rows[i] in sorted;
      var j :| 0 <= j < |sorted| && sorted[j] == rows[i];
      assert Ids(sorted)[j] == id;
    }
  }

  /** The row an id has in an arm, if any. */
  function Find(rows: seq<Row>, id: string): (r: Option<Row>)
    ensures r.Some? <==> id in Ids(rows)
    ensures r.Some? ==> r.value in rows && r.value.blockedId == id
  {
    if rows == [] then None
    else
      assert forall x :: x in Ids(rows) <==> x == rows[0].blockedId || x in Ids(rows[1..]) by {
        assert Ids(rows) == [rows[0].blockedId] + Ids(rows[1..]);
      }
      if rows[0].blockedId == id then Some(rows[0]) else Find(rows[1..], id)
  }

  lemma FindReadsTable(m: map<string, Option<Row>>, rows: seq<Row>)
    requires Lists(m, rows)
    ensures forall id :: Find(rows, id) == if id in m then m[id] else None
  {
  }

  /** In id order, an arm is determined by the row each id has. */
  lemma SameRows(a: seq<Row>, b: seq<Row>)
    requires Ascending(Ids(a)) && Ascending(Ids(b))
    requires forall id :: Find(a, id) == Find(b, id)
    ensures a == b
  {
    forall id ensures id in Ids(a) <==> id in Ids(b) { assert Find(a, id) == Find(b, id); }
    AscendingIsCanonical(Ids(a), Ids(b));
    assert |a| == |Ids(a)| == |Ids(b)| == |b|;
    forall i | 0 <= i < |a| ensures a[i] == b[i] {
      FindAt(a, i);
      FindAt(b, i);
      assert Ids(a)[i] == Ids(b)[i];
    }
  }

  lemma {:induction false} FindAt(rows: seq<Row>, i: nat)
    requires Ascending(Ids(rows)) && i < |rows|
    ensures Find(rows, rows[i].blockedId) == Some(rows[i])
  {
    assert Ids(rows)[0] == rows[0].blockedId && Ids(rows)[i] == rows[i].blockedId;
    if i > 0 {
      assert Ids(rows[1..]) == Ids(rows)[1..];
      FindAt(rows[1..], i - 1);
    }
  }

  /** Ids of the P0 rows, in row order. */
  function P0Ids(rows: seq<Row>): (r: seq<string>)
    ensures forall x :: x in r <==> exists i | 0 <= i < |rows| :: rows[i].blockedId == x && rows[i].blockedPriority == 0
  {
    if rows == [] then []
    else
      var n := |rows| - 1;
      var rest := P0Ids(rows[..n]);
      if rows[n].blockedPriority == 0 then rest + [rows[n].blockedId] else rest
  }

  lemma {:induction false} P0Ascends(rows: seq<Row>)
    requires Ascending(Ids(rows))
    ensures Ascending(P0Ids(rows))
  {
    if rows != [] {
      var n := |rows| - 1;
      assert Ids(rows[..n]) == Ids(rows)[..n];
      P0Ascends(rows[..n]);
      var rest := P0Ids(rows[..n]);
      forall k | 0 <= k < |rest| ensures Leq(rest[k], rows[n].blockedId) && rest[k] != rows[n].blockedId {
        assert rest[k] in rest;
        var i :| 0 <= i < n && rows[..n][i].blockedId == rest[k];
        assert Ids(rows)[i] == rest[k] && Ids(rows)[n] == rows[n].blockedId;
      }
    }
  }

  // ----- the specification of a successful classification

  /** The inheritance arm is the union of the other two, without repeats, in id order. */
  ghost predicate IsUnion(direct: seq<Row>, transitive: seq<Row>, union: seq<Row>) {
    && Ascending(Ids(union))
    && (forall id :: id in Ids(union) <==> id in Ids(direct) || id in Ids(transitive))
    && forall r | r in union ::
      var source := if r.blockedId in Ids(direct) then Find(direct, r.blockedId) else Find(transitive, r.blockedId);
      source.Some? && r == source.value.(kind := InheritanceFailure)
  }

  /** One row per id, in id order, and for every id exactly the row its search owes. */
  ghost predicate ArmExact(kind: InversionType, byId: Registry, adj: Adjacency, cap: nat, rows: seq<Row>) {
    && Ascending(Ids(rows))
    && forall id :: Owed(kind, byId, adj, cap, id, Find(rows, id))
  }

  ghost predicate Exact(issues: seq<DagIssue>, edges: seq<DagEdge>, cap: nat, c: Classification) {
    var byId := IndexById(issues);
    var adj := AdjacencyOf(byId, edges);
    && ArmExact(Direct, byId, adj, cap, c.direct)
    && ArmExact(Transitive, byId, adj, cap, c.transitive)
    && IsUnion(c.direct, c.transitive, c.inheritance)
    && c.p0 == P0Ids(c.inheritance)
    && c.mechanismAbsent
  }

  /** `id` repeats an earlier issue, and nothing before that repeats. */
  ghost predicate FirstDuplicate(issues: seq<DagIssue>, id: string) {
    exists j | 0 <= j < |issues| ::
      issues[j].id == id && DistinctIds(issues[..j]) && exists i | 0 <= i < j :: issues[i].id == id
  }

  // ----- the program

  method IndexIssues(issues: seq<DagIssue>) returns (r: Result<Registry, ScanError>)
    ensures DistinctIds(issues) ==> r == Ok(IndexById(issues))
    ensures !DistinctIds(issues) ==> r.Err? && r.error.DuplicateIssue? && FirstDuplicate(issues, r.error.id)
  {
    var byId: Registry := map[];
    for k := 0 to |issues|
      invariant byId == IndexById(issues[..k]) && DistinctIds(issues[..k])
      invariant forall id :: id in byId <==> exists i | 0 <= i < k :: issues[i].id == id
    {
      assert issues[..k + 1][..k] == issues[..k];
      if issues[k].id in byId {
        assert exists i | 0 <= i < k :: issues[i].id == issues[k].id;
        return Err(DuplicateIssue(issues[k].id));
      }
      byId := byId[issues[k].id := issues[k]];
    }
    assert issues[..|issues|] == issues;
    return Ok(byId);
  }

  method BuildAdjacency(byId: Registry, edges: seq<DagEdge>) returns (adj: Adjacency)
    ensures adj == AdjacencyOf(byId, edges)
  {
    adj := map[];
    for k := 0 to |edges|
      invariant adj == AdjacencyOf(byId, edges[..k])
    {
      assert edges[..k + 1][..k] == edges[..k];
      var e := edges[k];
      if e.depType == "blocks" && Scanned(byId, e.issueId) && Scanned(byId, e.dependsOnId) {
        adj := adj[e.issueId := Next(adj, e.issueId) + [e.dependsOnId]];
      }
    }
    assert edges[..|edges|] == edges;
  }

  method Inherit(direct: seq<Row>, transitive: seq<Row>) returns (union: seq<Row>)
    ensures IsUnion(direct, transitive, union)
  {
    var ids: seq<string> := [];
    var both := direct + transitive;
    for k := 0 to |both|
      invariant Ascending(ids)
      invariant forall id :: id in ids <==> id in Ids(both[..k])
    {
      assert Ids(both[..k + 1]) == Ids(both[..k]) + [both[k].blockedId];
      ids := InsertUnique(both[k].blockedId, ids);
    }
    assert both[..|both|] == both && Ids(both) == Ids(direct) + Ids(transitive);
    union := [];
    for k := 0 to |ids|
      invariant Ids(union) == ids[..k]
      invariant forall r | r in union ::
        var source := if r.blockedId in Ids(direct) then Find(direct, r.blockedId) else Find(transitive, r.blockedId);
        source.Some? && r == source.value.(kind := InheritanceFailure)
    {
      assert ids[k] in ids;
      var source := if Find(direct, ids[k]).Some? then Find(direct, ids[k]) else Find(transitive, ids[k]);
      union := union + [source.value.(kind := InheritanceFailure)];
      assert ids[..k + 1] == ids[..k] + [ids[k]];
    }
    assert ids[..|ids|] == ids;
  }

  /** A bead has a hit exactly when it has a row in one of the two arms. */
  lemma HitMeansRow(byId: Registry, adj: Adjacency, id: string, cap: nat, direct: Option<Row>, trans: Option<Row>)
    requires WellFormed(byId, adj) && Scanned(byId, id)
    requires DirectExact(byId, adj, id, cap, direct) && TransitiveExact(byId, adj, id, cap, trans)
    ensures AnyHit(byId, adj, id, cap) <==> direct.Some? || trans.Some?
    ensures direct.Some? ==> Hit(byId, adj, id, cap, [direct.value.blockingId])
  {
    if direct.Some? {
      DirectEdgeIsHit(byId, adj, id, cap, direct.value.blockingId);
    }
    if trans.None? {
      forall w | Hit(byId, adj, id, cap, w) ensures direct.Some? {
        assert |w| == 1 && w[..0] == [];
        assert Walk(adj, id, w) && End(id, w) in Next(adj, id);
      }
    }
  }

  lemma DirectEdgeIsHit(byId: Registry, adj: Adjacency, id: string, cap: nat, v: string)
    requires Worse(byId, id, v) && v in Next(adj, id) && cap >= 1
    ensures Hit(byId, adj, id, cap, [v])
  {
    var w := [v];
    assert w[..0] == [] && Walk(adj, id, w);
    forall o | Walk(adj, id, o) && End(id, o) == v ensures |o| >= 1 {}
  }

  /** A complete pair of arms names exactly the beads that have a hit, with their own priority. */
  lemma ArmsNameHits(byId: Registry, adj: Adjacency, cap: nat, direct: seq<Row>, transitive: seq<Row>, id: string)
    requires WellFormed(byId, adj)
    requires Owed(Direct, byId, adj, cap, id, Find(direct, id)) && Owed(Transitive, byId, adj, cap, id, Find(transitive, id))
    ensures id in Ids(direct) || id in Ids(transitive) <==> Scanned(byId, id) && AnyHit(byId, adj, id, cap)
    ensures Find(direct, id).Some? ==> Find(direct, id).value.blockedPriority == byId[id].priority.value
    ensures Find(transitive, id).Some? ==> Find(transitive, id).value.blockedPriority == byId[id].priority.value
  {
    if Scanned(byId, id) { HitMeansRow(byId, adj, id, cap, Find(direct, id), Find(transitive, id)); }
  }

  /** Which ids of a union are P0, given the priority every row of it carries. */
  lemma UnionPriority(prio: map<string, int>, direct: seq<Row>, transitive: seq<Row>, union: seq<Row>, id: string)
    requires IsUnion(direct, transitive, union)
    requires forall x | x in Ids(direct) :: x in prio && Find(direct, x).value.blockedPriority == prio[x]
    requires forall x | x in Ids(transitive) :: x in prio && Find(transitive, x).value.blockedPriority == prio[x]
    ensures id in P0Ids(union) <==> (id in Ids(direct) || id in Ids(transitive)) && prio[id] == 0
  {
    if id in Ids(union) {
      var i :| 0 <= i < |union| && Ids(union)[i] == id;
      assert union[i] in union && union[i].blockedPriority == prio[id];
    }
    if id in P0Ids(union) {
      var i :| 0 <= i < |union| && union[i].blockedId == id && union[i].blockedPriority == 0;
      assert Ids(union)[i] == id;
      assert union[i] in union;
    }
  }

  /** What one search returned. */
  datatype Verdict = Verdict(direct: Option<Row>, trans: Option<Row>, lower: bool)

  ghost predicate Correct(byId: Registry, adj: Adjacency, cap: nat, id: string, v: Verdict) {
    && Owed(Direct, byId, adj, cap, id, v.direct)
    && Owed(Transitive, byId, adj, cap, id, v.trans)
    && (v.lower <==> Scanned(byId, id) && AnyHit(byId, adj, id, cap))
  }

  type Table = map<string, Verdict>

  function Directs(t: Table): map<string, Option<Row>> { map id | id in t :: t[id].direct }

  function Transitives(t: Table): map<string, Option<Row>> { map id | id in t :: t[id].trans }

  function Priorities(byId: Registry): map<string, int> { map id | id in byId && byId[id].priority.Some? :: byId[id].priority.value }

  /** The three lists say what the table says. */
  ghost predicate Collected(prio: map<string, int>, t: Table, direct: seq<Row>, transitive: seq<Row>, p0: seq<string>) {
    && Lists(Directs(t), direct) && Lists(Transitives(t), transitive)
    && DistinctKeys(p0, (id: string) => id)
    && forall id :: id in p0 <==> id in t && t[id].lower && id in prio && prio[id] == 0
  }

  lemma {:induction false} P0Grows(prio: map<string, int>, t: Table, p0: seq<string>, id: string, v: Verdict)
    requires DistinctKeys(p0, (id: string) => id) && id !in t
    requires forall x :: x in p0 <==> x in t && t[x].lower && x in prio && prio[x] == 0
    ensures
      var more := if v.lower && id in prio && prio[id] == 0 then p0 + [id] else p0;
      DistinctKeys(more, (id: string) => id) &&
      forall x :: x in more <==> x in t[id := v] && t[id := v][x].lower && x in prio && prio[x] == 0
  {
    var key := (id: string) => id;
    assert id !in p0;
    var more := p0 + [id];
    forall i, j | 0 <= i < j < |more| ensures key(more[i]) != key(more[j]) {
      assert key(more[i]) == more[i] && key(more[j]) == more[j];
      if j < |p0| { assert key(p0[i]) != key(p0[j]); } else { assert p0[i] in p0; }
    }
  }

  lemma Collect(prio: map<string, int>, t: Table, direct: seq<Row>, transitive: seq<Row>, p0: seq<string>, id: string, v: Verdict)
    requires Collected(prio, t, direct, transitive, p0) && id !in t
    requires v.direct.Some? ==> v.direct.value.blockedId == id
    requires v.trans.Some? ==> v.trans.value.blockedId == id
    ensures Collected(prio, t[id := v], Push(direct, v.direct), Push(transitive, v.trans),
                      if v.lower && id in prio && prio[id] == 0 then p0 + [id] else p0)
  {
    hide Lists;
    ListsGrows(Directs(t), direct, id, v.direct);
    ListsGrows(Transitives(t), transitive, id, v.trans);
    P0Grows(prio, t, p0, id, v);
    assert Directs(t[id := v]) == Directs(t)[id := v.direct];
    assert Transitives(t[id := v]) == Transitives(t)[id := v.trans];
  }

  // What the loop over issues accumulates, given each search's verdict.

  function DirectRows(vs: seq<Verdict>): seq<Row> {
    if vs == [] then [] else Push(DirectRows(vs[..|vs| - 1]), vs[|vs| - 1].direct)
  }

  function TransitiveRows(vs: seq<Verdict>): seq<Row> {
    if vs == [] then [] else Push(TransitiveRows(vs[..|vs| - 1]), vs[|vs| - 1].trans)
  }

  function UrgentIds(issues: seq<DagIssue>, vs: seq<Verdict>): seq<string>
    requires |vs| == |issues|
  {
    if vs == [] then []
    else
      var n := |vs| - 1;
      var rest := UrgentIds(issues[..n], vs[..n]);
      if vs[n].lower && issues[n].priority == Some(0) then rest + [issues[n].id] else rest
  }

  function TableOf(issues: seq<DagIssue>, vs: seq<Verdict>): (t: Table)
    requires |vs| == |issues|
    ensures forall id :: id in t <==> exists i | 0 <= i < |issues| :: issues[i].id == id
  {
    if vs == [] then map[] else var n := |vs| - 1; TableOf(issues[..n], vs[..n])[issues[n].id := vs[n]]
  }

  /** Row `i` of the verdicts is the verdict on issue `i`. */
  ghost predicate Verdicts(byId: Registry, adj: Adjacency, cap: nat, issues: seq<DagIssue>, vs: seq<Verdict>) {
    |vs| == |issues| && forall i | 0 <= i < |vs| :: Correct(byId, adj, cap, issues[i].id, vs[i])
  }

  lemma {:induction false} TableIsCollected(prio: map<string, int>, issues: seq<DagIssue>, vs: seq<Verdict>)
    requires DistinctIds(issues) && |vs| == |issues|
    requires forall i | 0 <= i < |issues| :: issues[i].priority == if issues[i].id in prio then Some(prio[issues[i].id]) else None
    requires forall i | 0 <= i < |vs| :: vs[i].direct.Some? ==> vs[i].direct.value.blockedId == issues[i].id
    requires forall i | 0 <= i < |vs| :: vs[i].trans.Some? ==> vs[i].trans.value.blockedId == issues[i].id
    ensures Collected(prio, TableOf(issues, vs), DirectRows(vs), TransitiveRows(vs), UrgentIds(issues, vs))
  {
    if vs != [] {
      var n := |vs| - 1;
      TableIsCollected(prio, issues[..n], vs[..n]);
      Collect(prio, TableOf(issues[..n], vs[..n]), DirectRows(vs[..n]), TransitiveRows(vs[..n]),
              UrgentIds(issues[..n], vs[..n]), issues[n].id, vs[n]);
    }
  }

  lemma {:induction false} TableReads(issues: seq<DagIssue>, vs: seq<Verdict>, i: nat)
    requires DistinctIds(issues) && |vs| == |issues| && i < |issues|
    ensures TableOf(issues, vs)[issues[i].id] == vs[i]
  {
    var n := |vs| - 1;
    if i < n { TableReads(issues[..n], vs[..n], i); }
  }

  /** The sorted P0 list is the union restricted to priority 0. */
  lemma P0IsRestriction(prio: map<string, int>, t: Table, direct: seq<Row>, transitive: seq<Row>, union: seq<Row>, p0: seq<string>)
    requires DistinctKeys(p0, (id: string) => id)
    requires forall id :: id in p0 <==> id in t && t[id].lower && id in prio && prio[id] == 0
    requires Lists(Directs(t), direct) && Lists(Transitives(t), transitive) && IsUnion(direct, transitive, union)
    requires forall id | id in t :: t[id].lower <==> t[id].direct.Some? || t[id].trans.Some?
    requires forall x | x in Ids(direct) :: x in prio && Find(direct, x).value.blockedPriority == prio[x]
    requires forall x | x in Ids(transitive) :: x in prio && Find(transitive, x).value.blockedPriority == prio[x]
    ensures SortBy(p0, (id: string) => id) == P0Ids(union)
  {
    var key := (id: string) => id;
    var sorted := SortBy(p0, key);
    PermutationKeepsDistinct(p0, sorted, key);
    forall i, j | 0 <= i < j < |sorted| ensures Leq(sorted[i], sorted[j]) && sorted[i] != sorted[j] {
      assert Leq(key(sorted[i]), key(sorted[j])) && key(sorted[i]) != key(sorted[j]);
    }
    P0Ascends(union);
    FindReadsTable(Directs(t), direct);
    FindReadsTable(Transitives(t), transitive);
    forall id ensures id in sorted <==> id in P0Ids(union) {
      UnionPriority(prio, direct, transitive, union, id);
      assert Find(direct, id).Some? <==> id in t && t[id].direct.Some?;
      assert Find(transitive, id).Some? <==> id in t && t[id].trans.Some?;
    }
    AscendingIsCanonical(sorted, P0Ids(union));
  }

  /** One search, if the bead is live and prioritised. */
  method SearchOne(byId: Registry, adj: Adjacency, issue: DagIssue, maxDepth: nat) returns (v: Verdict)
    requires WellFormed(byId, adj) && issue.id in byId && byId[issue.id] == issue
    ensures Correct(byId, adj, maxDepth, issue.id, v)
    ensures v.direct.Some? ==> v.direct.value.blockedId == issue.id
    ensures v.trans.Some? ==> v.trans.value.blockedId == issue.id
  {
    if IsLive(issue.status) && issue.priority.Some? {
      var d, t, lower := ScanIssue(byId, adj, issue, maxDepth);
      return Verdict(d, t, lower);
    } else {
      return Verdict(None, None, false);
    }
  }

  lemma VerdictsGrow(byId: Registry, adj: Adjacency, cap: nat, issues: seq<DagIssue>, k: nat, vs: seq<Verdict>, v: Verdict)
    requires k < |issues| && Verdicts(byId, adj, cap, issues[..k], vs) && Correct(byId, adj, cap, issues[k].id, v)
    ensures Verdicts(byId, adj, cap, issues[..k + 1], vs + [v])
    ensures DirectRows(vs + [v]) == Push(DirectRows(vs), v.direct)
    ensures TransitiveRows(vs + [v]) == Push(TransitiveRows(vs), v.trans)
    ensures UrgentIds(issues[..k + 1], vs + [v])
         == UrgentIds(issues[..k], vs) + (if v.lower && issues[k].priority == Some(0) then [issues[k].id] else [])
  {
    hide Correct, DirectRows, TransitiveRows, UrgentIds;
    RowsGrow(vs, v);
    UrgentGrows(issues, k, vs, v);
    assert issues[..k + 1] == issues[..k] + [issues[k]];
  }

  lemma RowsGrow(vs: seq<Verdict>, v: Verdict)
    ensures DirectRows(vs + [v]) == Push(DirectRows(vs), v.direct)
    ensures TransitiveRows(vs + [v]) == Push(TransitiveRows(vs), v.trans)
  {
    assert (vs + [v])[..|vs|] == vs;
  }

  lemma UrgentGrows(issues: seq<DagIssue>, k: nat, vs: seq<Verdict>, v: Verdict)
    requires k < |issues| && |vs| == k
    ensures UrgentIds(issues[..k + 1], vs + [v])
         == UrgentIds(issues[..k], vs) + (if v.lower && issues[k].priority == Some(0) then [issues[k].id] else [])
  {
    assert (vs + [v])[..k] == vs && issues[..k + 1][..k] == issues[..k];
  }

  lemma NoVerdicts()
    ensures DirectRows([]) == [] && TransitiveRows([]) == [] && UrgentIds([], []) == []
  {
  }

  /** One search per bead, in the order given. */
  method ScanAll(issues: seq<DagIssue>, byId: Registry, adj: Adjacency, maxDepth: nat)
    returns (direct: seq<Row>, transitive: seq<Row>, p0: seq<string>, ghost vs: seq<Verdict>)
    requires DistinctIds(issues) && byId == IndexById(issues) && WellFormed(byId, adj)
    ensures Verdicts(byId, adj, maxDepth, issues, vs)
    ensures direct == DirectRows(vs) && transitive == TransitiveRows(vs) && p0 == UrgentIds(issues, vs)
  {
    hide Correct, DirectRows, TransitiveRows, UrgentIds;
    IndexFindsEveryIssue(issues);
    direct, transitive, p0, vs := [], [], [], [];
    NoVerdicts();
    for k := 0 to |issues|
      invariant Verdicts(byId, adj, maxDepth, issues[..k], vs)
      invariant direct == DirectRows(vs) && transitive == TransitiveRows(vs) && p0 == UrgentIds(issues[..k], vs)
    {
      var issue := issues[k];
      var v := SearchOne(byId, adj, issue, maxDepth);
      direct, transitive := Push(direct, v.direct), Push(transitive, v.trans);
      if v.lower && issue.priority == Some(0) { p0 := p0 + [issue.id]; }
      VerdictsGrow(byId, adj, maxDepth, issues, k, vs, v);
      vs := vs + [v];
    }
    assert issues[..|issues|] == issues;
  }

  /** A table of correct verdicts turns listed rows into exact arms. */
  lemma TableIsExact(byId: Registry, adj: Adjacency, cap: nat, t: Table, direct: seq<Row>, transitive: seq<Row>)
    requires WellFormed(byId, adj) && t.Keys == byId.Keys
    requires forall id | id in t :: Correct(byId, adj, cap, id, t[id])
    requires Lists(Directs(t), direct) && Lists(Transitives(t), transitive)
    ensures forall id :: Owed(Direct, byId, adj, cap, id, Find(direct, id))
    ensures forall id :: Owed(Transitive, byId, adj, cap, id, Find(transitive, id))
    ensures forall id | id in t :: t[id].lower <==> t[id].direct.Some? || t[id].trans.Some?
    ensures forall x | x in Ids(direct) :: x in Priorities(byId) && Find(direct, x).value.blockedPriority == Priorities(byId)[x]
    ensures forall x | x in Ids(transitive) :: x in Priorities(byId) && Find(transitive, x).value.blockedPriority == Priorities(byId)[x]
  {
    FindReadsTable(Directs(t), direct);
    FindReadsTable(Transitives(t), transitive);
    forall id
      ensures Owed(Direct, byId, adj, cap, id, Find(direct, id)) && Owed(Transitive, byId, adj, cap, id, Find(transitive, id)) {
      if id in t { assert Correct(byId, adj, cap, id, t[id]); }
    }
    forall id | id in t ensures t[id].lower <==> t[id].direct.Some? || t[id].trans.Some? {
      assert Correct(byId, adj, cap, id, t[id]);
      ArmsNameHits(byId, adj, cap, direct, transitive, id);
    }
    forall x | x in Ids(direct) || x in Ids(transitive) ensures x in Priorities(byId) {
      ArmsNameHits(byId, adj, cap, direct, transitive, x);
    }
    forall x | x in Ids(direct) ensures Find(direct, x).value.blockedPriority == Priorities(byId)[x] {
      ArmsNameHits(byId, adj, cap, direct, transitive, x);
    }
    forall x | x in Ids(transitive) ensures Find(transitive, x).value.blockedPriority == Priorities(byId)[x] {
      ArmsNameHits(byId, adj, cap, direct, transitive, x);
    }
  }

  lemma VerdictsFillTable(issues: seq<DagIssue>, byId: Registry, adj: Adjacency, cap: nat, vs: seq<Verdict>)
    requires DistinctIds(issues) && byId == IndexById(issues) && Verdicts(byId, adj, cap, issues, vs)
    ensures TableOf(issues, vs).Keys == byId.Keys
    ensures forall id | id in TableOf(issues, vs) :: Correct(byId, adj, cap, id, TableOf(issues, vs)[id])
  {
    IndexFindsEveryIssue(issues);
    var t := TableOf(issues, vs);
    forall id | id in t ensures Correct(byId, adj, cap, id, t[id]) {
      var i :| 0 <= i < |issues| && issues[i].id == id;
      TableReads(issues, vs, i);
    }
    forall id ensures id in t <==> id in byId {
      if id in byId { assert byId[id] in issues; }
    }
  }

  lemma VerdictsAreCollected(issues: seq<DagIssue>, byId: Registry, adj: Adjacency, cap: nat, vs: seq<Verdict>)
    requires DistinctIds(issues) && byId == IndexById(issues) && Verdicts(byId, adj, cap, issues, vs)
    ensures Collected(Priorities(byId), TableOf(issues, vs), DirectRows(vs), TransitiveRows(vs), UrgentIds(issues, vs))
  {
    IndexFindsEveryIssue(issues);
    forall i | 0 <= i < |vs|
      ensures vs[i].direct.Some? ==> vs[i].direct.value.blockedId == issues[i].id
      ensures vs[i].trans.Some? ==> vs[i].trans.value.blockedId == issues[i].id {
      assert Correct(byId, adj, cap, issues[i].id, vs[i]);
    }
    TableIsCollected(Priorities(byId), issues, vs);
  }

  method ClassifyWith(issues: seq<DagIssue>, edges: seq<DagEdge>, maxDepth: nat) returns (r: Result<Classification, ScanError>)
    ensures issues == [] ==> r == Err(EmptyIssueSet)
    ensures issues != [] && !DistinctIds(issues) ==>
      r.Err? && r.error.DuplicateIssue? && FirstDuplicate(issues, r.error.id)
    ensures issues != [] && DistinctIds(issues) ==> r.Ok? && Exact(issues, edges, maxDepth, r.value)
  {
    if issues == [] { return Err(EmptyIssueSet); }
    var index := IndexIssues(issues);
    if index.Err? { return Err(index.error); }
    var byId := index.value;
    var adj := BuildAdjacency(byId, edges);
    AdjacencyIsWellFormed(byId, edges);
    var direct, transitive, p0, vs := ScanAll(issues, byId, adj, maxDepth);
    ghost var t := TableOf(issues, vs);
    VerdictsFillTable(issues, byId, adj, maxDepth, vs);
    VerdictsAreCollected(issues, byId, adj, maxDepth, vs);
    ListsSorts(Directs(t), direct);
    ListsSorts(Transitives(t), transitive);
    direct, transitive := SortBy(direct, Blocked), SortBy(transitive, Blocked);
    TableIsExact(byId, adj, maxDepth, t, direct, transitive);
    var union := Inherit(direct, transitive);
    P0IsRestriction(Priorities(byId), t, direct, transitive, union, p0);
    return Ok(Classification(direct, transitive, union, true, SortBy(p0, (id: string) => id)));
  }

  // ----- rows, read off the graph

  /** This bead is in the list, not closed, and carries this priority. */
  ghost predicate Listed(issues: seq<DagIssue>, id: string, priority: int) {
    exists b :: b in issues && b.id == id && b.status != "closed" && b.priority == Some(priority)
  }

  /** Both are listed, the first with the smaller priority number. */
  ghost predicate Outranks(issues: seq<DagIssue>, u: string, v: string) {
    exists p: int, q: int :: Listed(issues, u, p) && Listed(issues, v, q) && p < q
  }

  /** Some edge says that `v` blocks `u`. */
  ghost predicate Blocks(edges: seq<DagEdge>, u: string, v: string) {
    exists e :: e in edges && e.depType == "blocks" && e.issueId == u && e.dependsOnId == v
  }

  /** The step an edge allows: the bead that blocks is listed too. */
  ghost predicate BlockingStep(issues: seq<DagIssue>, edges: seq<DagEdge>, u: string, v: string) {
    Blocks(edges, u, v) && exists p: int :: Listed(issues, v, p)
  }

  /** Each bead of the chain blocks the one before it, the first one the source. */
  ghost predicate BlockingChain(issues: seq<DagIssue>, edges: seq<DagEdge>, src: string, w: seq<string>) {
    forall k | 0 <= k < |w| :: BlockingStep(issues, edges, End(src, w[..k]), w[k])
  }

  /** A row names two listed beads with their own priorities, the blocked one ahead, and a chain of edges from it to the blocker. */
  ghost predicate RealRow(issues: seq<DagIssue>, edges: seq<DagEdge>, cap: nat, r: Row) {
    && 1 <= |r.chain| == r.depth <= cap && r.blockingId == r.chain[|r.chain| - 1]
    && Listed(issues, r.blockedId, r.blockedPriority) && Listed(issues, r.blockingId, r.blockingPriority)
    && r.blockedPriority < r.blockingPriority && BlockingChain(issues, edges, r.blockedId, r.chain)
  }

  lemma ScannedIsListed(issues: seq<DagIssue>, id: string)
    requires DistinctIds(issues)
    ensures Scanned(IndexById(issues), id) <==> exists p: int :: Listed(issues, id, p)
    ensures forall p | Listed(issues, id, p) :: IndexById(issues)[id].priority == Some(p)
    ensures Scanned(IndexById(issues), id) ==> Listed(issues, id, IndexById(issues)[id].priority.value)
  {
    IndexFindsEveryIssue(issues);
    forall p | Listed(issues, id, p) ensures Scanned(IndexById(issues), id) && IndexById(issues)[id].priority == Some(p) {
      var b :| b in issues && b.id == id && b.status != "closed" && b.priority == Some(p);
      var i :| 0 <= i < |issues| && issues[i] == b;
      assert IndexById(issues)[issues[i].id] == issues[i];
    }
    if Scanned(IndexById(issues), id) {
      assert IndexById(issues)[id] in issues;
      assert Listed(issues, id, IndexById(issues)[id].priority.value);
    }
  }

  /** From a listed bead, walks are exactly the blocking chains. */
  lemma {:induction false} WalkIffChain(issues: seq<DagIssue>, edges: seq<DagEdge>, src: string, w: seq<string>)
    requires DistinctIds(issues) && Scanned(IndexById(issues), src)
    ensures Walk(AdjacencyOf(IndexById(issues), edges), src, w) <==> BlockingChain(issues, edges, src, w)
    ensures Walk(AdjacencyOf(IndexById(issues), edges), src, w) ==> Scanned(IndexById(issues), End(src, w))
  {
    if w != [] {
      var n := |w| - 1;
      WalkIffChain(issues, edges, src, w[..n]);
      ChainSnoc(issues, edges, src, w);
      StepIsBlocks(issues, edges, End(src, w[..n]), w[n]);
      hide BlockingChain, BlockingStep, Scanned;
    }
  }

  lemma ChainSnoc(issues: seq<DagIssue>, edges: seq<DagEdge>, src: string, w: seq<string>)
    requires w != []
    ensures
      var n := |w| - 1;
      BlockingChain(issues, edges, src, w) <==> BlockingChain(issues, edges, src, w[..n]) && BlockingStep(issues, edges, End(src, w[..n]), w[n])
  {
    hide BlockingStep;
    var n := |w| - 1;
    forall k | 0 <= k < n ensures w[..n][..k] == w[..k] && w[..n][k] == w[k] {}
    if BlockingChain(issues, edges, src, w) {
      forall k | 0 <= k < n ensures BlockingStep(issues, edges, End(src, w[..n][..k]), w[..n][k]) {
        assert BlockingStep(issues, edges, End(src, w[..k]), w[k]);
      }
    }
    if BlockingChain(issues, edges, src, w[..n]) && BlockingStep(issues, edges, End(src, w[..n]), w[n]) {
      forall k | 0 <= k < |w| ensures BlockingStep(issues, edges, End(src, w[..k]), w[k]) {
        if k < n { assert BlockingStep(issues, edges, End(src, w[..n][..k]), w[..n][k]); }
      }
    }
  }

  lemma StepIsBlocks(issues: seq<DagIssue>, edges: seq<DagEdge>, u: string, v: string)
    requires DistinctIds(issues)
    ensures
      var byId := IndexById(issues);
      Scanned(byId, u) ==>
        (v in Next(AdjacencyOf(byId, edges), u) <==> BlockingStep(issues, edges, u, v))
        && (v in Next(AdjacencyOf(byId, edges), u) ==> Scanned(byId, v))
  {
    var byId := IndexById(issues);
    NextIsAdmittedEdge(byId, edges, u, v);
    ScannedIsListed(issues, v);
    if Scanned(byId, u) && Scanned(byId, v) && Blocks(edges, u, v) {
      var e :| e in edges && e.depType == "blocks" && e.issueId == u && e.dependsOnId == v;
      assert Admitted(byId, e);
    }
  }

  lemma HitRowIsReal(issues: seq<DagIssue>, edges: seq<DagEdge>, cap: nat, kind: InversionType, src: string, w: seq<string>)
    requires DistinctIds(issues) && Hit(IndexById(issues), AdjacencyOf(IndexById(issues), edges), src, cap, w)
    ensures
      var r := RowOf(IndexById(issues), kind, src, w);
      RealRow(issues, edges, cap, r) && r.kind == kind && r.chain == w && r.depth == |w| && r.blockedId == src
  {
    ScannedIsListed(issues, src);
    ScannedIsListed(issues, End(src, w));
    WalkIffChain(issues, edges, src, w);
    hide Listed, BlockingChain;
  }

  lemma ArmRowIsReal(issues: seq<DagIssue>, edges: seq<DagEdge>, cap: nat, kind: InversionType, rows: seq<Row>, r: Row)
    requires DistinctIds(issues) && (kind == Direct || kind == Transitive) && r in rows
    requires ArmExact(kind, IndexById(issues), AdjacencyOf(IndexById(issues), edges), cap, rows)
    ensures RealRow(issues, edges, cap, r) && r.kind == kind && if kind == Direct then r.depth == 1 else r.depth >= 2
  {
    hide RealRow, RowOf, FirstWorse;
    var byId := IndexById(issues);
    var adj := AdjacencyOf(byId, edges);
    var i :| 0 <= i < |rows| && rows[i] == r;
    FindAt(rows, i);
    assert Owed(kind, byId, adj, cap, r.blockedId, Some(r));
    if kind == Direct {
      var v := FirstWorse(byId, r.blockedId, Next(adj, r.blockedId)).value;
      DirectEdgeIsHit(byId, adj, r.blockedId, cap, v);
      HitRowIsReal(issues, edges, cap, kind, r.blockedId, [v]);
    } else {
      HitRowIsReal(issues, edges, cap, kind, r.blockedId, r.chain);
    }
  }

  /** Every row of a classification is true of the issues and edges it was given, and its kind says which arm it stands in. */
  lemma RowsAreReal(issues: seq<DagIssue>, edges: seq<DagEdge>, cap: nat, c: Classification, r: Row)
    requires DistinctIds(issues) && Exact(issues, edges, cap, c)
    requires r in c.direct || r in c.transitive || r in c.inheritance
    ensures RealRow(issues, edges, cap, r)
    ensures r.kind == Direct <==> r in c.direct
    ensures r.kind == Transitive <==> r in c.transitive
    ensures r.kind == InheritanceFailure <==> r in c.inheritance
    ensures r.kind == Direct ==> r.depth == 1
    ensures r.kind == Transitive ==> r.depth >= 2
  {
    hide ArmExact, RealRow;
    if r in c.direct { ArmRowIsReal(issues, edges, cap, Direct, c.direct, r); }
    if r in c.transitive { ArmRowIsReal(issues, edges, cap, Transitive, c.transitive, r); }
    if r in c.inheritance {
      var source := if r.blockedId in Ids(c.direct) then Find(c.direct, r.blockedId) else Find(c.transitive, r.blockedId);
      ArmRowIsReal(issues, edges, cap, if r.blockedId in Ids(c.direct) then Direct else Transitive,
                   if r.blockedId in Ids(c.direct) then c.direct else c.transitive, source.value);
      KindIsNoMatter(issues, edges, cap, source.value, r);
    }
  }

  lemma KindIsNoMatter(issues: seq<DagIssue>, edges: seq<DagEdge>, cap: nat, a: Row, b: Row)
    requires RealRow(issues, edges, cap, a) && b == a.(kind := b.kind)
    ensures RealRow(issues, edges, cap, b)
  {
  }

  /** A bead has a row exactly when a chain of listed beads, within the cap, leads from it to one of larger priority number; a Direct row exactly when one edge does. */
  lemma RowIffChain(issues: seq<DagIssue>, edges: seq<DagEdge>, cap: nat, c: Classification, id: string)
    requires DistinctIds(issues) && Exact(issues, edges, cap, c)
    ensures id in Ids(c.inheritance) <==> exists w :: BlockingChain(issues, edges, id, w) && 1 <= |w| <= cap && Outranks(issues, id, w[|w| - 1])
    ensures id in Ids(c.direct) <==> cap >= 1 && exists v :: Blocks(edges, id, v) && Outranks(issues, id, v)
  {
    var byId := IndexById(issues);
    var adj := AdjacencyOf(byId, edges);
    hide DirectExact, TransitiveExact, RealRow, Listed, Blocks, BlockingChain, P0Ids;
    AdjacencyIsWellFormed(byId, edges);
    ArmsNameHits(byId, adj, cap, c.direct, c.transitive, id) by { assert ArmExact(Direct, byId, adj, cap, c.direct) && ArmExact(Transitive, byId, adj, cap, c.transitive); }
    AnyHitIffChain(issues, edges, cap, id);
    DirectIffEdge(issues, edges, cap, c.direct, id);
  }

  /** A Direct row names the first listed edge that leads from its bead to a worse one. */
  lemma DirectRowIsFirstEdge(issues: seq<DagIssue>, edges: seq<DagEdge>, cap: nat, c: Classification, r: Row)
    requires DistinctIds(issues) && Exact(issues, edges, cap, c) && r in c.direct
    ensures exists k ::
      && 0 <= k < |edges| && edges[k] == DagEdge(r.blockedId, r.blockingId, "blocks")
      && forall j | 0 <= j < k && edges[j].depType == "blocks" && edges[j].issueId == r.blockedId :: !Outranks(issues, r.blockedId, edges[j].dependsOnId)
  {
    var byId := IndexById(issues);
    var adj := AdjacencyOf(byId, edges);
    DirectRowIsFirstWorse(byId, adj, cap, c.direct, r) by { assert ArmExact(Direct, byId, adj, cap, c.direct); }
    hide Exact, Outranks, AdjacencyOf, Next, Positions, Worse, DistinctIds;
    var nexts := Next(adj, r.blockedId);
    var n: nat :| n < |nexts| && nexts[n] == r.blockingId && forall j | 0 <= j < n :: !Worse(byId, r.blockedId, nexts[j]);
    FirstEdgeOf(issues, edges, r.blockedId, n);
  }

  lemma FirstEdgeOf(issues: seq<DagIssue>, edges: seq<DagEdge>, u: string, n: nat)
    requires
      var byId := IndexById(issues);
      var nexts := Next(AdjacencyOf(byId, edges), u);
      DistinctIds(issues) && n < |nexts| && forall j | 0 <= j < n :: !Worse(byId, u, nexts[j])
    ensures
      var v := Next(AdjacencyOf(IndexById(issues), edges), u)[n];
      exists k ::
        && 0 <= k < |edges| && edges[k] == DagEdge(u, v, "blocks")
        && forall j | 0 <= j < k && edges[j].depType == "blocks" && edges[j].issueId == u :: !Outranks(issues, u, edges[j].dependsOnId)
  {
    hide Outranks, AdjacencyOf, Next, Positions, Worse, DistinctIds;
    var byId := IndexById(issues);
    NextKeepsEdgeOrder(byId, edges, u);
    var nexts := Next(AdjacencyOf(byId, edges), u);
    var at := Positions(edges, (e: DagEdge) => Admitted(byId, e) && e.issueId == u);
    var k := at[n];
    assert edges[k] == DagEdge(u, nexts[n], "blocks");
    forall j: nat | j < k && edges[j].depType == "blocks" && edges[j].issueId == u ensures !Outranks(issues, u, edges[j].dependsOnId) {
      EarlierEdgeIsNoWorse(issues, edges, u, at, nexts, n, j);
    }
  }

  lemma DirectRowIsFirstWorse(byId: Registry, adj: Adjacency, cap: nat, direct: seq<Row>, r: Row)
    requires ArmExact(Direct, byId, adj, cap, direct) && r in direct
    ensures
      var nexts := Next(adj, r.blockedId);
      exists n :: 0 <= n < |nexts| && nexts[n] == r.blockingId && forall j | 0 <= j < n :: !Worse(byId, r.blockedId, nexts[j])
  {
    var i :| 0 <= i < |direct| && direct[i] == r;
    FindAt(direct, i);
    assert Owed(Direct, byId, adj, cap, r.blockedId, Some(r));
  }

  lemma EarlierEdgeIsNoWorse(issues: seq<DagIssue>, edges: seq<DagEdge>, u: string, at: seq<nat>, nexts: seq<string>, n: nat, j: nat)
    requires DistinctIds(issues) && n < |at| == |nexts| && j < at[n] && at[n] < |edges|
    requires edges[j].depType == "blocks" && edges[j].issueId == u
    requires forall i | 0 <= i < |at| :: at[i] < |edges| && edges[at[i]].dependsOnId == nexts[i]
    requires forall a, b | 0 <= a < b < |at| :: at[a] < at[b]
    requires forall k: nat | k < |edges| && Admitted(IndexById(issues), edges[k]) && edges[k].issueId == u :: k in at
    requires forall i | 0 <= i < n :: !Worse(IndexById(issues), u, nexts[i])
    ensures !Outranks(issues, u, edges[j].dependsOnId)
  {
    hide Outranks;
    OutranksIffWorse(issues, u, edges[j].dependsOnId);
    if Admitted(IndexById(issues), edges[j]) {
      var i :| 0 <= i < |at| && at[i] == j;
      assert nexts[i] == edges[j].dependsOnId && i < n;
    }
  }

  lemma OutranksIffWorse(issues: seq<DagIssue>, u: string, v: string)
    requires DistinctIds(issues)
    ensures Outranks(issues, u, v) <==> Worse(IndexById(issues), u, v)
  {
    hide Listed;
    ScannedIsListed(issues, u);
    ScannedIsListed(issues, v);
  }

  /** The P0 list, read off the graph: ascending, and exactly the rows' beads of priority 0. */
  lemma P0ListIsExact(issues: seq<DagIssue>, edges: seq<DagEdge>, cap: nat, c: Classification, id: string)
    requires DistinctIds(issues) && Exact(issues, edges, cap, c)
    ensures Ascending(c.p0)
    ensures id in c.p0 <==> id in Ids(c.inheritance) && Listed(issues, id, 0)
  {
    P0Ascends(c.inheritance);
    forall i | 0 <= i < |c.inheritance| && c.inheritance[i].blockedId == id
      ensures c.inheritance[i].blockedPriority == 0 <==> Listed(issues, id, 0) {
      RowsAreReal(issues, edges, cap, c, c.inheritance[i]);
      ScannedIsListed(issues, id);
    }
    hide Exact, Listed;
    if id in Ids(c.inheritance) { var i :| 0 <= i < |c.inheritance| && Ids(c.inheritance)[i] == id; }
  }

  lemma AnyHitIffChain(issues: seq<DagIssue>, edges: seq<DagEdge>, cap: nat, id: string)
    requires DistinctIds(issues)
    ensures
      Scanned(IndexById(issues), id) && AnyHit(IndexById(issues), AdjacencyOf(IndexById(issues), edges), id, cap) <==>
      exists w :: BlockingChain(issues, edges, id, w) && 1 <= |w| <= cap && Outranks(issues, id, w[|w| - 1])
  {
    hide Listed, Blocks, BlockingChain;
    var byId := IndexById(issues);
    var adj := AdjacencyOf(byId, edges);
    ScannedIsListed(issues, id);
    if Scanned(byId, id) && AnyHit(byId, adj, id, cap) {
      var w :| Hit(byId, adj, id, cap, w);
      WalkIffChain(issues, edges, id, w);
      ScannedIsListed(issues, w[|w| - 1]);
    }
    if w :| BlockingChain(issues, edges, id, w) && 1 <= |w| <= cap && Outranks(issues, id, w[|w| - 1]) {
      WalkIffChain(issues, edges, id, w);
      ScannedIsListed(issues, w[|w| - 1]);
      var o := ShortestExists(adj, id, w);
      assert Hit(byId, adj, id, cap, o);
    }
  }

  lemma DirectIffEdge(issues: seq<DagIssue>, edges: seq<DagEdge>, cap: nat, direct: seq<Row>, id: string)
    requires DistinctIds(issues) && ArmExact(Direct, IndexById(issues), AdjacencyOf(IndexById(issues), edges), cap, direct)
    ensures id in Ids(direct) <==> cap >= 1 && exists v :: Blocks(edges, id, v) && Outranks(issues, id, v)
  {
    hide Listed, Blocks;
    var byId := IndexById(issues);
    var adj := AdjacencyOf(byId, edges);
    assert Owed(Direct, byId, adj, cap, id, Find(direct, id));
    ScannedIsListed(issues, id);
    if id in Ids(direct) {
      var v := FirstWorse(byId, id, Next(adj, id)).value;
      StepIsBlocks(issues, edges, id, v);
      ScannedIsListed(issues, v);
    }
    if v :| Blocks(edges, id, v) && Outranks(issues, id, v) {
      StepIsBlocks(issues, edges, id, v);
      ScannedIsListed(issues, v);
    }
  }

  // ----- the gate

  /** Some admitted edge leads from a smaller priority number to a strictly larger one. */
  ghost predicate EdgeInverts(issues: seq<DagIssue>, edges: seq<DagEdge>) {
    var byId := IndexById(issues);
    exists e :: e in edges && Admitted(byId, e) && Worse(byId, e.issueId, e.dependsOnId)
  }

  /** A walk from a small priority number to a larger one must cross an inverting edge. */
  lemma {:induction false} WalkCrosses(issues: seq<DagIssue>, edges: seq<DagEdge>, src: string, w: seq<string>)
    requires
      var byId := IndexById(issues);
      Walk(AdjacencyOf(byId, edges), src, w) && Worse(byId, src, End(src, w))
    ensures EdgeInverts(issues, edges)
  {
    var byId := IndexById(issues);
    var adj := AdjacencyOf(byId, edges);
    var prefix := w[..|w| - 1];
    var u, v := End(src, prefix), End(src, w);
    NextIsAdmittedEdge(byId, edges, u, v);
    var e :| e in edges && Admitted(byId, e) && e.issueId == u && e.dependsOnId == v;
    if !Worse(byId, u, v) { WalkCrosses(issues, edges, src, prefix); }
  }

  /**
   The gate fires exactly when the depth cap admits an edge at all and one edge inverts.
   */
  lemma GateIsAnEdgeProperty(issues: seq<DagIssue>, edges: seq<DagEdge>, cap: nat, c: Classification)
    requires Exact(issues, edges, cap, c)
    ensures c.GateExit() == if cap >= 1 && EdgeInverts(issues, edges) then 1 else 0
  {
    var byId := IndexById(issues);
    var adj := AdjacencyOf(byId, edges);
    AdjacencyIsWellFormed(byId, edges);
    if c.HasInversion() {
      var id := if c.direct != [] then c.direct[0].blockedId else c.transitive[0].blockedId;
      assert id == if c.direct != [] then Ids(c.direct)[0] else Ids(c.transitive)[0];
      ArmsNameHits(byId, adj, cap, c.direct, c.transitive, id);
      var w :| Hit(byId, adj, id, cap, w);
      WalkCrosses(issues, edges, id, w);
    }
    if cap >= 1 && EdgeInverts(issues, edges) {
      var e :| e in edges && Admitted(byId, e) && Worse(byId, e.issueId, e.dependsOnId);
      NextIsAdmittedEdge(byId, edges, e.issueId, e.dependsOnId);
      DirectEdgeIsHit(byId, adj, e.issueId, cap, e.dependsOnId);
      ArmsNameHits(byId, adj, cap, c.direct, c.transitive, e.issueId);
    }
  }

  /** What an inverting edge is, in terms of the lists alone. */
  lemma EdgeInvertsIff(issues: seq<DagIssue>, edges: seq<DagEdge>)
    requires DistinctIds(issues)
    ensures EdgeInverts(issues, edges) <==> exists u, v :: Blocks(edges, u, v) && Outranks(issues, u, v)
  {
    hide Listed;
    var byId := IndexById(issues);
    if EdgeInverts(issues, edges) {
      var e :| e in edges && Admitted(byId, e) && Worse(byId, e.issueId, e.dependsOnId);
      ScannedIsListed(issues, e.issueId);
      ScannedIsListed(issues, e.dependsOnId);
      assert Blocks(edges, e.issueId, e.dependsOnId);
    }
    if u, v :| Blocks(edges, u, v) && Outranks(issues, u, v) {
      ScannedIsListed(issues, u);
      ScannedIsListed(issues, v);
      var e :| e in edges && e.depType == "blocks" && e.issueId == u && e.dependsOnId == v;
      assert Admitted(byId, e);
    }
  }

  /** The depth-1 scan and any deeper scan of one graph give the same exit code. */
  lemma DepthDoesNotMoveTheGate(issues: seq<DagIssue>, edges: seq<DagEdge>, cap: nat, shallow: Classification, deep: Classification)
    requires cap >= 1 && Exact(issues, edges, 1, shallow) && Exact(issues, edges, cap, deep)
    ensures shallow.GateExit() == deep.GateExit()
    ensures shallow.direct == deep.direct && shallow.transitive == []
  {
    GateIsAnEdgeProperty(issues, edges, 1, shallow);
    GateIsAnEdgeProperty(issues, edges, cap, deep);
    var byId := IndexById(issues);
    var adj := AdjacencyOf(byId, edges);
    forall id ensures Find(shallow.transitive, id) == Find([], id) {
      assert Owed(Transitive, byId, adj, 1, id, Find(shallow.transitive, id));
    }
    SameRows(shallow.transitive, []);
    forall id ensures Find(shallow.direct, id) == Find(deep.direct, id) {
      assert Owed(Direct, byId, adj, 1, id, Find(shallow.direct, id));
      assert Owed(Direct, byId, adj, cap, id, Find(deep.direct, id));
    }
    SameRows(shallow.direct, deep.direct);
  }

  /** `a` outranks `c` only two steps away: the deeper scan reports a Transitive row where the depth-1 scan has none. */
  lemma DeeperScanSeesMore(c: Classification)
    requires
      var issues := [DagIssue("a", Some(0), "open"), DagIssue("b", Some(0), "open"), DagIssue("c", Some(1), "open")];
      Exact(issues, [DagEdge("a", "b", "blocks"), DagEdge("b", "c", "blocks")], 2, c)
    ensures c.transitive != []
  {
    var issues := [DagIssue("a", Some(0), "open"), DagIssue("b", Some(0), "open"), DagIssue("c", Some(1), "open")];
    var edges := [DagEdge("a", "b", "blocks"), DagEdge("b", "c", "blocks")];
    var byId, adj := SmallGraph(issues, edges);
    TwoStepsAreShortest(adj, "a", "b", "c");
    assert Hit(byId, adj, "a", 2, ["b", "c"]);
    assert Owed(Transitive, byId, adj, 2, "a", Find(c.transitive, "a"));
  }

  lemma SmallGraph(issues: seq<DagIssue>, edges: seq<DagEdge>) returns (byId: Registry, adj: Adjacency)
    requires issues == [DagIssue("a", Some(0), "open"), DagIssue("b", Some(0), "open"), DagIssue("c", Some(1), "open")]
    requires edges == [DagEdge("a", "b", "blocks"), DagEdge("b", "c", "blocks")]
    ensures byId == IndexById(issues) && adj == AdjacencyOf(byId, edges)
    ensures Scanned(byId, "a") && Scanned(byId, "b") && Scanned(byId, "c") && Worse(byId, "a", "c")
    ensures Next(adj, "a") == ["b"] && Next(adj, "b") == ["c"]
  {
    byId, adj := IndexById(issues), AdjacencyOf(IndexById(issues), edges);
    var two, one, no: seq<DagIssue> := issues[..2], issues[..1], [];
    assert two == [issues[0], issues[1]] && two[..1] == one && one[..0] == no;
    assert IndexById(no) == map[];
    assert IndexById(one) == map["a" := issues[0]];
    assert IndexById(two) == map["a" := issues[0], "b" := issues[1]];
    assert byId == map["a" := issues[0], "b" := issues[1], "c" := issues[2]];
    var first, none: seq<DagEdge> := edges[..1], [];
    assert first[..0] == none && AdjacencyOf(byId, none) == map[];
    assert Scanned(byId, "a") && Scanned(byId, "b") && Scanned(byId, "c") by { LiveIsNotClosed(); }
    assert first == [edges[0]] && Admitted(byId, edges[0]) && Admitted(byId, edges[1]);
    var empty: seq<string> := [];
    assert empty + ["b"] == ["b"] && empty + ["c"] == ["c"];
    assert AdjacencyOf(byId, first) == map["a" := empty + ["b"]];
    assert adj == map["a" := ["b"], "b" := empty + ["c"]];
  }

  lemma LiveIsNotClosed()
    ensures IsLive("open")
  {
    assert |"open"| != |"closed"|;
  }

  lemma TwoStepsAreShortest(adj: Adjacency, a: string, b: string, c: string)
    requires Next(adj, a) == [b] && Next(adj, b) == [c] && a != c && b != c
    ensures Shortest(adj, a, [b, c])
  {
    assert [b, c][..1] == [b] && [b][..0] == [];
    assert Walk(adj, a, [b]);
    assert Walk(adj, a, [b, c]);
    forall o | Walk(adj, a, o) && |o| <= 1 ensures End(a, o) != c {
      if |o| == 1 { assert o[..0] == [] && o[0] in [b]; }
    }
  }

  /** One graph, one cap, one answer: everything in the classification, down to the chains, is determined. */
  lemma ClassificationIsUnique(issues: seq<DagIssue>, edges: seq<DagEdge>, cap: nat, c: Classification, d: Classification)
    requires Exact(issues, edges, cap, c) && Exact(issues, edges, cap, d)
    ensures c == d
  {
    hide DirectExact, TransitiveExact, P0Ids;
    var byId := IndexById(issues);
    var adj := AdjacencyOf(byId, edges);
    forall id ensures Find(c.direct, id) == Find(d.direct, id) {
      assert Owed(Direct, byId, adj, cap, id, Find(c.direct, id)) && Owed(Direct, byId, adj, cap, id, Find(d.direct, id));
      DirectRowIsUnique(byId, adj, cap, id, Find(c.direct, id), Find(d.direct, id));
    }
    SameRows(c.direct, d.direct);
    forall id ensures Find(c.transitive, id) == Find(d.transitive, id) {
      assert Owed(Transitive, byId, adj, cap, id, Find(c.transitive, id)) && Owed(Transitive, byId, adj, cap, id, Find(d.transitive, id));
      OwedTransitiveIsUnique(byId, adj, cap, id, Find(c.transitive, id), Find(d.transitive, id));
    }
    SameRows(c.transitive, d.transitive);
    UnionIsUnique(c.direct, c.transitive, c.inheritance, d.inheritance);
  }

  lemma DirectRowIsUnique(byId: Registry, adj: Adjacency, cap: nat, id: string, a: Option<Row>, b: Option<Row>)
    requires Owed(Direct, byId, adj, cap, id, a) && Owed(Direct, byId, adj, cap, id, b)
    ensures a == b
  {
    hide FirstWorse;
  }

  lemma OwedTransitiveIsUnique(byId: Registry, adj: Adjacency, cap: nat, id: string, a: Option<Row>, b: Option<Row>)
    requires Owed(Transitive, byId, adj, cap, id, a) && Owed(Transitive, byId, adj, cap, id, b)
    ensures a == b
  {
    hide TransitiveExact;
    if Scanned(byId, id) { TransitiveRowIsUnique(byId, adj, id, cap, a, b); }
  }

  lemma UnionIsUnique(direct: seq<Row>, transitive: seq<Row>, a: seq<Row>, b: seq<Row>)
    requires IsUnion(direct, transitive, a) && IsUnion(direct, transitive, b)
    ensures a == b
  {
    forall id ensures Find(a, id) == Find(b, id) {
      assert id in Ids(a) <==> id in Ids(b);
    }
    SameRows(a, b);
  }
}
