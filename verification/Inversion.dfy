/**
 Priority inversions over the bead graph.

 Every live, prioritised bead starts a breadth-first search along admitted
 `blocks` edges.  The specification speaks of walks and of shortest walks; the
 search is proved exact against it, and the gate against single edges.
 */
module Inversion {
  import opened Wrappers
  import opened Ordering
  import opened Walks

  datatype InversionType = Direct | Transitive | InheritanceFailure

  datatype DagIssue = DagIssue(id: string, priority: Option<int>, status: string)

  datatype DagEdge = DagEdge(issueId: string, dependsOnId: string, depType: string)

  datatype Row = Row(
    kind: InversionType, blockedId: string, blockedPriority: int,
    blockingId: string, blockingPriority: int, depth: nat, chain: seq<string>)

  datatype Classification = Classification(
    direct: seq<Row>, transitive: seq<Row>, inheritance: seq<Row>,
    mechanismAbsent: bool, p0: seq<string>)
  {
    predicate HasInversion() { direct != [] || transitive != [] }

    function GateExit(): nat { if HasInversion() then 1 else 0 }
  }

  datatype ScanError = EmptyIssueSet | DuplicateIssue(id: string)

  type Registry = map<string, DagIssue>

  // ----- the graph

  predicate IsLive(status: string) { status != "closed" }

  predicate Scanned(byId: Registry, id: string) {
    id in byId && byId[id].id == id && IsLive(byId[id].status) && byId[id].priority.Some?
  }

  predicate Admitted(byId: Registry, e: DagEdge) {
    e.depType == "blocks" && Scanned(byId, e.issueId) && Scanned(byId, e.dependsOnId)
  }

  function IndexById(issues: seq<DagIssue>): Registry {
    if issues == [] then map[]
    else var n := |issues| - 1; IndexById(issues[..n])[issues[n].id := issues[n]]
  }

  predicate DistinctIds(issues: seq<DagIssue>) {
    forall i, j | 0 <= i < j < |issues| :: issues[i].id != issues[j].id
  }

  function AdjacencyOf(byId: Registry, edges: seq<DagEdge>): Adjacency {
    if edges == [] then map[]
    else
      var n := |edges| - 1;
      var adj := AdjacencyOf(byId, edges[..n]);
      var e := edges[n];
      if Admitted(byId, e) then adj[e.issueId := Next(adj, e.issueId) + [e.dependsOnId]] else adj
  }

  /** `v` follows `u` exactly when some admitted edge says so. */
  lemma {:induction false} NextIsAdmittedEdge(byId: Registry, edges: seq<DagEdge>, u: string, v: string)
    ensures v in Next(AdjacencyOf(byId, edges), u) <==>
            exists e :: e in edges && Admitted(byId, e) && e.issueId == u && e.dependsOnId == v
  {
    if edges != [] {
      var n := |edges| - 1;
      NextIsAdmittedEdge(byId, edges[..n], u, v);
      assert edges == edges[..n] + [edges[n]];
      assert forall e :: e in edges <==> e in edges[..n] || e == edges[n];
    }
  }

  /** A bead's list holds the targets of its admitted edges, one for each, in the order the edges are listed. */
  lemma {:induction false} NextKeepsEdgeOrder(byId: Registry, edges: seq<DagEdge>, u: string)
    ensures
      var at := Positions(edges, (e: DagEdge) => Admitted(byId, e) && e.issueId == u);
      |Next(AdjacencyOf(byId, edges), u)| == |at| && forall i | 0 <= i < |at| :: Next(AdjacencyOf(byId, edges), u)[i] == edges[at[i]].dependsOnId
  {
    hide Admitted, AdjacencyOf, Next;
    if edges == [] {
      NextStarts(byId, u);
    } else {
      var n := |edges| - 1;
      NextGrows(byId, edges, u);
      NextKeepsEdgeOrder(byId, edges[..n], u);
      var test := (e: DagEdge) => Admitted(byId, e) && e.issueId == u;
      var at, before := Positions(edges, test), Positions(edges[..n], test);
      forall i | 0 <= i < |at| ensures Next(AdjacencyOf(byId, edges), u)[i] == edges[at[i]].dependsOnId {
        if i < |before| { assert at[i] == before[i] < n; }
      }
    }
  }

  lemma NextStarts(byId: Registry, u: string)
    ensures Next(AdjacencyOf(byId, []), u) == []
  {
  }

  lemma NextGrows(byId: Registry, edges: seq<DagEdge>, u: string)
    requires edges != []
    ensures
      var n := |edges| - 1;
      Next(AdjacencyOf(byId, edges), u)
      == Next(AdjacencyOf(byId, edges[..n]), u) + if Admitted(byId, edges[n]) && edges[n].issueId == u then [edges[n].dependsOnId] else []
  {
    hide Admitted;
  }

  ghost predicate WellFormed(byId: Registry, adj: Adjacency) {
    forall u, v | v in Next(adj, u) :: Scanned(byId, u) && Scanned(byId, v)
  }

  lemma AdjacencyIsWellFormed(byId: Registry, edges: seq<DagEdge>)
    ensures WellFormed(byId, AdjacencyOf(byId, edges))
  {
    var adj := AdjacencyOf(byId, edges);
    forall u, v | v in Next(adj, u) ensures Scanned(byId, v) {
      NextIsAdmittedEdge(byId, edges, u, v);
    }
    forall u, v | v in Next(adj, u) ensures Scanned(byId, u) {
      NextIsAdmittedEdge(byId, edges, u, v);
    }
  }

  lemma {:induction false} IndexFindsEveryIssue(issues: seq<DagIssue>)
    requires DistinctIds(issues)
    ensures forall i | 0 <= i < |issues| :: issues[i].id in IndexById(issues) && IndexById(issues)[issues[i].id] == issues[i]
    ensures forall id | id in IndexById(issues) :: IndexById(issues)[id].id == id && IndexById(issues)[id] in issues
  {
    if issues != [] {
      var n := |issues| - 1;
      IndexFindsEveryIssue(issues[..n]);
      assert issues == issues[..n] + [issues[n]];
      forall i | 0 <= i < |issues|
        ensures issues[i].id in IndexById(issues) && IndexById(issues)[issues[i].id] == issues[i] {
        if i < n { assert issues[..n][i] == issues[i]; }
      }
    }
  }

  // ----- hits

  predicate Worse(byId: Registry, a: string, b: string) {
    Scanned(byId, a) && Scanned(byId, b) && byId[a].priority.value < byId[b].priority.value
  }

  /** A shortest walk, within the depth cap, to a bead of strictly larger priority number. */
  ghost predicate Hit(byId: Registry, adj: Adjacency, src: string, cap: nat, w: seq<string>) {
    1 <= |w| <= cap && Shortest(adj, src, w) && Worse(byId, src, End(src, w))
  }

  function RowOf(byId: Registry, kind: InversionType, src: string, w: seq<string>): Row
    requires Worse(byId, src, End(src, w))
  {
    Row(kind, src, byId[src].priority.value, End(src, w), byId[End(src, w)].priority.value, |w|, w)
  }

  /** Position of the first bead in `nexts` that `src` outranks. */
  function FirstWorse(byId: Registry, src: string, nexts: seq<string>): (r: Option<string>)
    ensures r.None? <==> forall v | v in nexts :: !Worse(byId, src, v)
    ensures r.Some? ==> r.value in nexts && Worse(byId, src, r.value)
    ensures r.Some? ==> exists k :: 0 <= k < |nexts| && nexts[k] == r.value && forall j | 0 <= j < k :: !Worse(byId, src, nexts[j])
  {
    if nexts == [] then None
    else
      var n := |nexts| - 1;
      var earlier := FirstWorse(byId, src, nexts[..n]);
      assert nexts == nexts[..n] + [nexts[n]];
      if earlier.Some? then earlier
      else if Worse(byId, src, nexts[n]) then Some(nexts[n]) else None
  }

  // ----- what one search must return

  /** At most one Direct row: the first admitted edge to a worse bead, in edge order. */
  ghost predicate DirectExact(byId: Registry, adj: Adjacency, src: string, cap: nat, row: Option<Row>) {
    var first := FirstWorse(byId, src, Next(adj, src));
    if cap >= 1 && first.Some? then row == Some(RowOf(byId, Direct, src, [first.value])) else row == None
  }

  /** At most one Transitive row: of all worse beads at a shortest distance above 1, the one whose walk comes first. */
  ghost predicate TransitiveExact(byId: Registry, adj: Adjacency, src: string, cap: nat, row: Option<Row>) {
    match row
    case None => forall w | Hit(byId, adj, src, cap, w) :: |w| < 2
    case Some(r) =>
      && Hit(byId, adj, src, cap, r.chain) && |r.chain| >= 2
      && r == RowOf(byId, Transitive, src, r.chain)
      && forall w | Hit(byId, adj, src, cap, w) && |w| >= 2 :: NoLater(adj, src, r.chain, w)
  }

  /** So there is only one such row. */
  lemma TransitiveRowIsUnique(byId: Registry, adj: Adjacency, src: string, cap: nat, a: Option<Row>, b: Option<Row>)
    requires TransitiveExact(byId, adj, src, cap, a) && TransitiveExact(byId, adj, src, cap, b)
    ensures a == b
  {
    if a.Some? && b.Some? { NoLaterAntisymmetric(adj, src, a.value.chain, b.value.chain); }
  }

  ghost predicate AnyHit(byId: Registry, adj: Adjacency, src: string, cap: nat) {
    exists w :: Hit(byId, adj, src, cap, w)
  }

  // ----- the search

  datatype Entry = Entry(id: string, depth: nat, chain: seq<string>)

  ghost predicate AllWalks(adj: Adjacency, src: string, cap: nat, found: seq<seq<string>>) {
    forall i | 0 <= i < |found| :: Walk(adj, src, found[i]) && |found[i]| <= cap
  }

  ghost predicate Monotone(found: seq<seq<string>>) {
    forall i, j | 0 <= i < j < |found| :: |found[i]| <= |found[j]|
  }

  ghost predicate DistinctEnds(src: string, found: seq<seq<string>>) {
    forall i, j | 0 <= i < j < |found| :: End(src, found[i]) != End(src, found[j])
  }

  /** `found` lists every discovered chain in order; the first `h` have been expanded. */
  ghost predicate Frontier(adj: Adjacency, src: string, cap: nat, found: seq<seq<string>>, h: nat) {
    && 0 < |found| && h <= |found| && found[0] == []
    && AllWalks(adj, src, cap, found) && Monotone(found) && DistinctEnds(src, found)
  }

  ghost predicate Reached(src: string, found: seq<seq<string>>, v: string, d: nat) {
    exists j | 0 <= j < |found| :: End(src, found[j]) == v && |found[j]| <= d
  }

  /** Every successor of an expanded chain has been reached at most one step later. */
  ghost predicate Expanded(adj: Adjacency, src: string, cap: nat, found: seq<seq<string>>, h: nat) {
    forall i, v | 0 <= i < h && i < |found| && |found[i]| < cap && v in Next(adj, End(src, found[i])) ::
      Reached(src, found, v, |found[i]| + 1)
  }

  lemma ReachedGrows(src: string, found: seq<seq<string>>, c: seq<string>, v: string, d: nat)
    requires Reached(src, found, v, d)
    ensures Reached(src, found + [c], v, d)
  {
    var j :| 0 <= j < |found| && End(src, found[j]) == v && |found[j]| <= d;
    assert (found + [c])[j] == found[j];
  }

  lemma ExpandedGrows(adj: Adjacency, src: string, cap: nat, found: seq<seq<string>>, h: nat, c: seq<string>)
    requires Expanded(adj, src, cap, found, h) && h <= |found|
    ensures Expanded(adj, src, cap, found + [c], h)
  {
    forall i, v | 0 <= i < h && |(found + [c])[i]| < cap && v in Next(adj, End(src, (found + [c])[i]))
      ensures Reached(src, found + [c], v, |(found + [c])[i]| + 1) {
      assert (found + [c])[i] == found[i];
      ReachedGrows(src, found, c, v, |found[i]| + 1);
    }
  }

  /** When the queue is empty, every walk within the cap ends at a bead reached no later. */
  lemma {:induction false} SearchIsComplete(adj: Adjacency, src: string, cap: nat, found: seq<seq<string>>, w: seq<string>)
    requires Frontier(adj, src, cap, found, |found|) && Expanded(adj, src, cap, found, |found|)
    requires Walk(adj, src, w) && |w| <= cap
    ensures Reached(src, found, End(src, w), |w|)
  {
    if w == [] {
      assert End(src, found[0]) == src;
    } else {
      var prefix := w[..|w| - 1];
      SearchIsComplete(adj, src, cap, found, prefix);
      var j :| 0 <= j < |found| && End(src, found[j]) == End(src, prefix) && |found[j]| <= |prefix|;
      assert Reached(src, found, End(src, w), |found[j]| + 1);
    }
  }

  /** Hence every discovered chain is a shortest walk. */
  lemma FoundIsShortest(adj: Adjacency, src: string, cap: nat, found: seq<seq<string>>, i: nat)
    requires Frontier(adj, src, cap, found, |found|) && Expanded(adj, src, cap, found, |found|)
    requires i < |found|
    ensures Shortest(adj, src, found[i])
  {
    forall o | Walk(adj, src, o) && End(src, o) == End(src, found[i]) ensures |found[i]| <= |o| {
      if |o| <= cap {
        SearchIsComplete(adj, src, cap, found, o);
        var j :| 0 <= j < |found| && End(src, found[j]) == End(src, o) && |found[j]| <= |o|;
        assert j == i;
      }
    }
  }

  /** And every hit ends where a discovered chain of the same length ends. */
  lemma HitIsFound(byId: Registry, adj: Adjacency, src: string, cap: nat, found: seq<seq<string>>, w: seq<string>) returns (j: nat)
    requires Frontier(adj, src, cap, found, |found|) && Expanded(adj, src, cap, found, |found|)
    requires Hit(byId, adj, src, cap, w)
    ensures j < |found| && |found[j]| == |w| && End(src, found[j]) == End(src, w)
  {
    SearchIsComplete(adj, src, cap, found, w);
    j :| 0 <= j < |found| && End(src, found[j]) == End(src, w) && |found[j]| <= |w|;
  }

  /** The search's own record: rows and flag summarise the chains found so far. */
  ghost predicate Summary(byId: Registry, src: string, found: seq<seq<string>>, trans: Option<Row>, lower: bool) {
    && (lower <==> exists i | 0 <= i < |found| :: Worse(byId, src, End(src, found[i])))
    && match trans
       case None => forall i | 0 <= i < |found| && |found[i]| >= 2 :: !Worse(byId, src, End(src, found[i]))
       case Some(r) =>
         && r.chain in found && |r.chain| >= 2 && Worse(byId, src, End(src, r.chain))
         && r == RowOf(byId, Transitive, src, r.chain)
         && forall i | 0 <= i < |found| && |found[i]| >= 2 && Worse(byId, src, End(src, found[i])) :: r.depth <= |found[i]|
  }

  lemma SummaryGrows(byId: Registry, src: string, found: seq<seq<string>>, trans: Option<Row>, lower: bool,
                     c: seq<string>, trans': Option<Row>, lower': bool)
    requires Summary(byId, src, found, trans, lower)
    requires forall i | 0 <= i < |found| :: |found[i]| <= |c|
    requires lower' <==> lower || Worse(byId, src, End(src, c))
    requires Worse(byId, src, End(src, c)) && |c| >= 2 && trans.None? ==> trans' == Some(RowOf(byId, Transitive, src, c))
    requires !(Worse(byId, src, End(src, c)) && |c| >= 2 && trans.None?) ==> trans' == trans
    ensures Summary(byId, src, found + [c], trans', lower')
  {
    var more := found + [c];
    assert more[|found|] == c;
    assert forall i | 0 <= i < |found| :: more[i] == found[i];
    if trans.Some? {
      assert trans.value.chain in found;
      var k :| 0 <= k < |found| && found[k] == trans.value.chain;
      assert more[k] == trans.value.chain;
    }
    if lower { var i :| 0 <= i < |found| && Worse(byId, src, End(src, found[i])); assert Worse(byId, src, End(src, more[i])); }
  }

  /** The Transitive row's chain is the first hit of two steps or more among the chains found. */
  ghost predicate FirstHit(byId: Registry, src: string, found: seq<seq<string>>, trans: Option<Row>) {
    trans.Some? ==>
      exists k | 0 <= k < |found| ::
        found[k] == trans.value.chain && forall i | 0 <= i < k && |found[i]| >= 2 :: !Worse(byId, src, End(src, found[i]))
  }

  lemma FirstHitGrows(byId: Registry, src: string, found: seq<seq<string>>, trans: Option<Row>, lower: bool, c: seq<string>, trans': Option<Row>)
    requires Summary(byId, src, found, trans, lower) && FirstHit(byId, src, found, trans)
    requires trans' == trans || (trans.None? && trans'.Some? && trans'.value.chain == c)
    ensures FirstHit(byId, src, found + [c], trans')
  {
    hide Worse;
    var more := found + [c];
    if trans.Some? {
      var k :| 0 <= k < |found| && found[k] == trans.value.chain
        && forall i | 0 <= i < k && |found[i]| >= 2 :: !Worse(byId, src, End(src, found[i]));
      assert more[k] == found[k];
    } else {
      assert more[|found|] == c;
    }
  }

  /** In order, the first hit found comes no later than any hit. */
  lemma FirstHitComesFirst(byId: Registry, adj: Adjacency, src: string, cap: nat, found: seq<seq<string>>, r: Row, w: seq<string>)
    requires Frontier(adj, src, cap, found, |found|) && InOrder(adj, src, found) && Settled(adj, src, cap, found, |found|)
    requires FirstHit(byId, src, found, Some(r)) && Hit(byId, adj, src, cap, w) && |w| >= 2
    ensures NoLater(adj, src, r.chain, w)
  {
    hide Settled, Worse, Earlier, NoLater, Walk, FirstHit, InOrder, Monotone, DistinctEnds;
    assert found[0] == [];
    ShortestArrives(adj, src, cap, found, w);
    var j := Arrival(adj, src, found, w);
    NoShorter(adj, src, w, found[j]);
    hide Shortest, Frontier;
    FirstHitLeads(byId, adj, src, found, r, j);
    NoLaterTransitive(adj, src, r.chain, found[j], w);
  }

  lemma FirstHitLeads(byId: Registry, adj: Adjacency, src: string, found: seq<seq<string>>, r: Row, j: nat)
    requires InOrder(adj, src, found) && FirstHit(byId, src, found, Some(r))
    requires j < |found| && |found[j]| >= 2 && Worse(byId, src, End(src, found[j]))
    ensures NoLater(adj, src, r.chain, found[j])
  {
    hide Worse, Earlier;
    var k :| 0 <= k < |found| && found[k] == r.chain
      && forall i | 0 <= i < k && |found[i]| >= 2 :: !Worse(byId, src, End(src, found[i]));
    assert k <= j;
  }

  lemma SummaryIsExact(byId: Registry, adj: Adjacency, src: string, cap: nat, found: seq<seq<string>>, trans: Option<Row>, lower: bool)
    requires Frontier(adj, src, cap, found, |found|) && Expanded(adj, src, cap, found, |found|)
    requires InOrder(adj, src, found) && Settled(adj, src, cap, found, |found|)
    requires Summary(byId, src, found, trans, lower) && FirstHit(byId, src, found, trans)
    ensures TransitiveExact(byId, adj, src, cap, trans)
    ensures lower <==> AnyHit(byId, adj, src, cap)
  {
    hide InOrder, Settled, NoLater;
    if trans.Some? {
      forall w | Hit(byId, adj, src, cap, w) && |w| >= 2 ensures NoLater(adj, src, trans.value.chain, w) {
        FirstHitComesFirst(byId, adj, src, cap, found, trans.value, w);
      }
    }
    hide FirstHit;
    HitsAreSummarised(byId, adj, src, cap, found, trans, lower);
  }

  lemma HitsAreSummarised(byId: Registry, adj: Adjacency, src: string, cap: nat, found: seq<seq<string>>, trans: Option<Row>, lower: bool)
    requires Frontier(adj, src, cap, found, |found|) && Expanded(adj, src, cap, found, |found|)
    requires Summary(byId, src, found, trans, lower)
    ensures trans.None? ==> forall w | Hit(byId, adj, src, cap, w) :: |w| < 2
    ensures trans.Some? ==> Hit(byId, adj, src, cap, trans.value.chain)
    ensures lower <==> AnyHit(byId, adj, src, cap)
  {
    forall w | Hit(byId, adj, src, cap, w) ensures lower && (|w| >= 2 ==> trans.Some? && trans.value.depth <= |w|) {
      var j := HitIsFound(byId, adj, src, cap, found, w);
      assert Worse(byId, src, End(src, found[j]));
    }
    forall i | 0 <= i < |found| && Worse(byId, src, End(src, found[i])) ensures Hit(byId, adj, src, cap, found[i]) {
      FoundIsShortest(adj, src, cap, found, i);
    }
    if trans.Some? {
      var k :| 0 <= k < |found| && found[k] == trans.value.chain;
      assert Hit(byId, adj, src, cap, found[k]);
    }
  }

  /** The queue holds the discovered chains not yet expanded, in order. */
  ghost predicate Pending(src: string, found: seq<seq<string>>, h: nat, queue: seq<Entry>) {
    && h + |queue| == |found|
    && forall k | 0 <= k < |queue| ::
      queue[k] == Entry(End(src, found[h + k]), |found[h + k]|, found[h + k])
  }

  ghost predicate SeenIs(src: string, found: seq<seq<string>>, seen: set<string>) {
    && (forall i | 0 <= i < |found| :: End(src, found[i]) in seen)
    && forall v | v in seen :: exists i | 0 <= i < |found| :: End(src, found[i]) == v
  }

  /** Discovering an unseen successor of `chain` keeps the search's shape. */
  lemma DiscoverKeepsFrontier(adj: Adjacency, src: string, cap: nat, found: seq<seq<string>>, h: nat,
                              chain: seq<string>, v: string, seen: set<string>)
    requires Frontier(adj, src, cap, found, h) && SeenIs(src, found, seen) && v !in seen
    requires Walk(adj, src, chain) && v in Next(adj, End(src, chain)) && |chain| < cap
    requires forall i | 0 <= i < |found| :: |found[i]| <= |chain| + 1
    ensures Frontier(adj, src, cap, found + [chain + [v]], h)
    ensures SeenIs(src, found + [chain + [v]], seen + {v})
  {
    hide SeenIs, DistinctEnds;
    var c := chain + [v];
    assert c[..|c| - 1] == chain;
    assert Walk(adj, src, c) && End(src, c) == v;
    assert AllWalks(adj, src, cap, found + [c]);
    assert Monotone(found + [c]);
    SeenGrows(src, found, c, seen);
  }

  lemma SeenGrows(src: string, found: seq<seq<string>>, c: seq<string>, seen: set<string>)
    requires SeenIs(src, found, seen) && DistinctEnds(src, found) && End(src, c) !in seen
    ensures SeenIs(src, found + [c], seen + {End(src, c)}) && DistinctEnds(src, found + [c])
  {
    var more := found + [c];
    assert forall i | 0 <= i < |found| :: more[i] == found[i];
    assert more[|found|] == c;
    forall u | u in seen + {End(src, c)} ensures exists i | 0 <= i < |more| :: End(src, more[i]) == u {
      if u == End(src, c) {
        assert End(src, more[|found|]) == u;
      } else {
        var i :| 0 <= i < |found| && End(src, found[i]) == u;
        assert End(src, more[i]) == u;
      }
    }
  }

  ghost predicate DirectSoFar(byId: Registry, src: string, read: seq<string>, row: Option<Row>) {
    var first := FirstWorse(byId, src, read);
    if first.Some? then row == Some(RowOf(byId, Direct, src, [first.value])) else row == None
  }

  /** The mutable state of one search. */
  datatype Search = Search(seen: set<string>, queue: seq<Entry>, direct: Option<Row>, trans: Option<Row>, anyLower: bool)

  /** The shape of the search: what the chains, the queue and the seen set say of each other. */
  ghost predicate Shape(byId: Registry, adj: Adjacency, src: string, cap: nat, found: seq<seq<string>>, h: nat, s: Search,
                        chain: seq<string>, read: seq<string>) {
    && Frontier(adj, src, cap, found, h) && Expanded(adj, src, cap, found, h)
    && h < |found| && chain == found[h] && |chain| < cap
    && Pending(src, found, h + 1, s.queue)
    && (forall i | 0 <= i < |found| :: |found[i]| <= |chain| + 1)
    && SeenIs(src, found, s.seen) && s.seen <= byId.Keys
    && (forall v | v in read :: Reached(src, found, v, |chain| + 1))
  }

  /** The record: rows and flag, with the Direct row still open while the source is expanded. */
  ghost predicate Record(byId: Registry, adj: Adjacency, src: string, cap: nat, found: seq<seq<string>>, h: nat, s: Search,
                         read: seq<string>) {
    && Summary(byId, src, found, s.trans, s.anyLower)
    && (h == 0 ==> DirectSoFar(byId, src, read, s.direct) && forall v | v in s.seen :: v == src || v in read)
    && (h > 0 ==> DirectExact(byId, adj, src, cap, s.direct))
  }

  /** What holds between two expansions; `h` chains have been expanded. */
  ghost predicate Between(byId: Registry, adj: Adjacency, src: string, cap: nat, found: seq<seq<string>>, h: nat, s: Search) {
    && Frontier(adj, src, cap, found, h) && Expanded(adj, src, cap, found, h)
    && Pending(src, found, h, s.queue)
    && (h < |found| ==> forall i | 0 <= i < |found| :: |found[i]| <= |found[h]| + 1)
    && SeenIs(src, found, s.seen) && s.seen <= byId.Keys
    && Record(byId, adj, src, cap, found, h, s, [])
  }

  /** The order of the search: chains come in breadth-first order, and the Transitive row is the first of its hits. */
  ghost predicate Track(byId: Registry, adj: Adjacency, src: string, cap: nat, found: seq<seq<string>>, h: nat, trans: Option<Row>,
                        chain: seq<string>, read: seq<string>) {
    Ordered(adj, src, cap, found, h, chain, read) && FirstHit(byId, src, found, trans)
  }

  function Discover(byId: Registry, src: string, chain: seq<string>, nxt: string, s: Search): Search
    requires Scanned(byId, src) && Scanned(byId, nxt)
  {
    var c := chain + [nxt];
    var lower := Worse(byId, src, nxt);
    s.(seen := s.seen + {nxt},
       queue := s.queue + [Entry(nxt, |c|, c)],
       direct := if lower && |c| == 1 && s.direct.None? then Some(RowOf(byId, Direct, src, c)) else s.direct,
       trans := if lower && |c| >= 2 && s.trans.None? then Some(RowOf(byId, Transitive, src, c)) else s.trans,
       anyLower := s.anyLower || lower)
  }

  lemma DirectStep(byId: Registry, src: string, read: seq<string>, nxt: string, s: Search, chain: seq<string>)
    requires Scanned(byId, src) && Scanned(byId, nxt) && chain == []
    requires DirectSoFar(byId, src, read, s.direct)
    ensures DirectSoFar(byId, src, read + [nxt], Discover(byId, src, chain, nxt, s).direct)
  {
    assert chain + [nxt] == [nxt];
    assert (read + [nxt])[..|read|] == read;
  }

  lemma DirectSkip(byId: Registry, src: string, read: seq<string>, nxt: string, row: Option<Row>)
    requires DirectSoFar(byId, src, read, row) && (nxt == src || nxt in read)
    ensures DirectSoFar(byId, src, read + [nxt], row)
  {
    assert (read + [nxt])[..|read|] == read;
  }

  lemma ReadStep(src: string, found: seq<seq<string>>, chain: seq<string>, read: seq<string>, nxt: string)
    requires forall v | v in read :: Reached(src, found, v, |chain| + 1)
    ensures forall v | v in read + [nxt] :: Reached(src, found + [chain + [nxt]], v, |chain| + 1)
  {
    var c := chain + [nxt];
    forall v | v in read + [nxt] ensures Reached(src, found + [c], v, |chain| + 1) {
      if v in read { ReachedGrows(src, found, c, v, |chain| + 1); } else { assert End(src, (found + [c])[|found|]) == nxt; }
    }
  }

  lemma PendingStep(src: string, found: seq<seq<string>>, h: nat, queue: seq<Entry>, c: seq<string>)
    requires Pending(src, found, h, queue)
    ensures Pending(src, found + [c], h, queue + [Entry(End(src, c), |c|, c)])
  {
  }

  lemma ReadUnseen(byId: Registry, adj: Adjacency, src: string, cap: nat, found: seq<seq<string>>, h: nat, s: Search,
                   chain: seq<string>, read: seq<string>, nxt: string)
    requires Scanned(byId, src) && Scanned(byId, nxt)
    requires Shape(byId, adj, src, cap, found, h, s, chain, read)
    requires nxt in Next(adj, End(src, chain)) && nxt !in s.seen
    ensures Shape(byId, adj, src, cap, found + [chain + [nxt]], h, Discover(byId, src, chain, nxt, s), chain, read + [nxt])
  {
    var c, t := chain + [nxt], Discover(byId, src, chain, nxt, s);
    assert t.seen == s.seen + {nxt} && t.queue == s.queue + [Entry(nxt, |c|, c)];
    UnseenFrontier(byId, adj, src, cap, found, h, s, chain, read, nxt);
    UnseenQueue(byId, adj, src, cap, found, h, s, chain, read, nxt);
    ReadStep(src, found, chain, read, nxt);
  }

  lemma UnseenFrontier(byId: Registry, adj: Adjacency, src: string, cap: nat, found: seq<seq<string>>, h: nat, s: Search,
                       chain: seq<string>, read: seq<string>, nxt: string)
    requires Shape(byId, adj, src, cap, found, h, s, chain, read)
    requires nxt in Next(adj, End(src, chain)) && nxt !in s.seen
    ensures Frontier(adj, src, cap, found + [chain + [nxt]], h) && Expanded(adj, src, cap, found + [chain + [nxt]], h)
    ensures SeenIs(src, found + [chain + [nxt]], s.seen + {nxt})
  {
    assert Walk(adj, src, found[h]);
    DiscoverKeepsFrontier(adj, src, cap, found, h, chain, nxt, s.seen);
    ExpandedGrows(adj, src, cap, found, h, chain + [nxt]);
  }

  lemma UnseenQueue(byId: Registry, adj: Adjacency, src: string, cap: nat, found: seq<seq<string>>, h: nat, s: Search,
                    chain: seq<string>, read: seq<string>, nxt: string)
    requires Shape(byId, adj, src, cap, found, h, s, chain, read)
    ensures
      var c := chain + [nxt];
      && Pending(src, found + [c], h + 1, s.queue + [Entry(nxt, |c|, c)])
      && (found + [c])[h] == chain && forall i | 0 <= i <= |found| :: |(found + [c])[i]| <= |chain| + 1
  {
    PendingStep(src, found, h + 1, s.queue, chain + [nxt]);
    assert End(src, chain + [nxt]) == nxt;
  }

  lemma RecordUnseen(byId: Registry, adj: Adjacency, src: string, cap: nat, found: seq<seq<string>>, h: nat, s: Search,
                     chain: seq<string>, read: seq<string>, nxt: string)
    requires Scanned(byId, src) && Scanned(byId, nxt)
    requires Shape(byId, adj, src, cap, found, h, s, chain, read) && Record(byId, adj, src, cap, found, h, s, read)
    ensures Record(byId, adj, src, cap, found + [chain + [nxt]], h, Discover(byId, src, chain, nxt, s), read + [nxt])
  {
    var c, s' := chain + [nxt], Discover(byId, src, chain, nxt, s);
    SummaryGrows(byId, src, found, s.trans, s.anyLower, c, s'.trans, s'.anyLower);
    if h == 0 { DirectStep(byId, src, read, nxt, s, chain); }
  }

  lemma ReadSeen(byId: Registry, adj: Adjacency, src: string, cap: nat, found: seq<seq<string>>, h: nat, s: Search,
                 chain: seq<string>, read: seq<string>, nxt: string)
    requires Shape(byId, adj, src, cap, found, h, s, chain, read) && nxt in s.seen
    requires Record(byId, adj, src, cap, found, h, s, read)
    ensures Shape(byId, adj, src, cap, found, h, s, chain, read + [nxt])
    ensures Record(byId, adj, src, cap, found, h, s, read + [nxt])
  {
    var i :| 0 <= i < |found| && End(src, found[i]) == nxt;
    assert Reached(src, found, nxt, |chain| + 1);
    if h == 0 { DirectSkip(byId, src, read, nxt, s.direct); }
  }

  lemma TrackUnseen(byId: Registry, adj: Adjacency, src: string, cap: nat, found: seq<seq<string>>, h: nat, s: Search,
                    chain: seq<string>, nexts: seq<string>, k: nat)
    requires Scanned(byId, src) && nexts == Next(adj, End(src, chain)) && k < |nexts| && Scanned(byId, nexts[k]) && nexts[k] !in s.seen
    requires Shape(byId, adj, src, cap, found, h, s, chain, nexts[..k]) && Record(byId, adj, src, cap, found, h, s, nexts[..k])
    requires Track(byId, adj, src, cap, found, h, s.trans, chain, nexts[..k])
    ensures Track(byId, adj, src, cap, found + [chain + [nexts[k]]], h, Discover(byId, src, chain, nexts[k], s).trans, chain, nexts[..k] + [nexts[k]])
  {
    hide Ordered, FirstHit, Summary, Frontier, Expanded, DirectSoFar, DirectExact;
    forall v | v in nexts[..k] ensures v in s.seen {
      var j :| 0 <= j < |found| && End(src, found[j]) == v;
    }
    OrderedUnseen(adj, src, cap, found, h, chain, nexts, k);
    FirstHitGrows(byId, src, found, s.trans, s.anyLower, chain + [nexts[k]], Discover(byId, src, chain, nexts[k], s).trans);
  }

  lemma TrackSeen(byId: Registry, adj: Adjacency, src: string, cap: nat, found: seq<seq<string>>, h: nat, s: Search,
                  chain: seq<string>, read: seq<string>, nxt: string)
    requires Shape(byId, adj, src, cap, found, h, s, chain, read) && nxt in s.seen
    requires Track(byId, adj, src, cap, found, h, s.trans, chain, read)
    ensures Track(byId, adj, src, cap, found, h, s.trans, chain, read + [nxt])
  {
    hide Ordered, FirstHit, Frontier, Expanded;
    var i :| 0 <= i < |found| && End(src, found[i]) == nxt;
    OrderedSeen(adj, src, cap, found, h, chain, read, i);
  }

  /** Dequeue a chain that may still be expanded. */
  lemma Opens(byId: Registry, adj: Adjacency, src: string, cap: nat, found: seq<seq<string>>, h: nat, s: Search)
    requires Between(byId, adj, src, cap, found, h, s) && s.queue != [] && s.queue[0].depth < cap
    requires Track(byId, adj, src, cap, found, h, s.trans, [], [])
    ensures Track(byId, adj, src, cap, found, h, s.trans, found[h], [])
    ensures h < |found| && s.queue[0] == Entry(End(src, found[h]), |found[h]|, found[h])
    ensures Shape(byId, adj, src, cap, found, h, s.(queue := s.queue[1..]), found[h], [])
    ensures Record(byId, adj, src, cap, found, h, s.(queue := s.queue[1..]), [])
  {
    hide Ordered;
    OrderedOpens(adj, src, cap, found, h, found[h]);
  }

  lemma ExpandedNext(adj: Adjacency, src: string, cap: nat, found: seq<seq<string>>, h: nat)
    requires Expanded(adj, src, cap, found, h) && h < |found|
    requires |found[h]| < cap ==> forall v | v in Next(adj, End(src, found[h])) :: Reached(src, found, v, |found[h]| + 1)
    ensures Expanded(adj, src, cap, found, h + 1)
  {
    forall i, v | 0 <= i < h + 1 && |found[i]| < cap && v in Next(adj, End(src, found[i]))
      ensures Reached(src, found, v, |found[i]| + 1) {
    }
  }

  /** All successors of the dequeued chain have been read. */
  lemma Closes(byId: Registry, adj: Adjacency, src: string, cap: nat, found: seq<seq<string>>, h: nat, s: Search, chain: seq<string>)
    requires Shape(byId, adj, src, cap, found, h, s, chain, Next(adj, End(src, chain)))
    requires Record(byId, adj, src, cap, found, h, s, Next(adj, End(src, chain)))
    requires Track(byId, adj, src, cap, found, h, s.trans, chain, Next(adj, End(src, chain)))
    ensures Between(byId, adj, src, cap, found, h + 1, s)
    ensures Track(byId, adj, src, cap, found, h + 1, s.trans, [], [])
  {
    hide Ordered, FirstHit;
    OrderedCloses(adj, src, cap, found, h, chain, Next(adj, End(src, chain)));
    ExpandedNext(adj, src, cap, found, h);
    if h + 1 < |found| { assert |found[h]| <= |found[h + 1]|; }
    if h == 0 { assert chain == [] && End(src, chain) == src; }
  }

  /** Dequeue a chain at the depth cap, or a bead nothing blocks: nothing to read. */
  lemma Skips(byId: Registry, adj: Adjacency, src: string, cap: nat, found: seq<seq<string>>, h: nat, s: Search)
    requires Between(byId, adj, src, cap, found, h, s) && s.queue != []
    requires s.queue[0].depth < cap ==> Next(adj, s.queue[0].id) == []
    requires Track(byId, adj, src, cap, found, h, s.trans, [], [])
    ensures Between(byId, adj, src, cap, found, h + 1, s.(queue := s.queue[1..]))
    ensures Track(byId, adj, src, cap, found, h + 1, s.trans, [], [])
  {
    hide Track, Record, Expanded, SeenIs, AllWalks, DistinctEnds;
    TrackSkips(byId, adj, src, cap, found, h, s.queue, s.trans);
    RecordSkips(byId, adj, src, cap, found, h, s);
    ExpandedNext(adj, src, cap, found, h);
    if h + 1 < |found| { assert |found[h]| <= |found[h + 1]|; }
  }

  lemma RecordSkips(byId: Registry, adj: Adjacency, src: string, cap: nat, found: seq<seq<string>>, h: nat, s: Search)
    requires Record(byId, adj, src, cap, found, h, s, []) && Pending(src, found, h, s.queue) && s.queue != []
    requires found != [] && found[0] == [] && (s.queue[0].depth < cap ==> Next(adj, s.queue[0].id) == [])
    ensures Record(byId, adj, src, cap, found, h + 1, s.(queue := s.queue[1..]), [])
  {
    hide Summary;
  }

  lemma TrackSkips(byId: Registry, adj: Adjacency, src: string, cap: nat, found: seq<seq<string>>, h: nat, queue: seq<Entry>, trans: Option<Row>)
    requires Pending(src, found, h, queue) && queue != [] && (queue[0].depth < cap ==> Next(adj, queue[0].id) == [])
    requires Track(byId, adj, src, cap, found, h, trans, [], [])
    ensures Track(byId, adj, src, cap, found, h + 1, trans, [], [])
  {
    hide Ordered, FirstHit;
    OrderedOpens(adj, src, cap, found, h, found[h]);
    OrderedCloses(adj, src, cap, found, h, found[h], []);
  }

  /** The search begins with the empty chain alone, and nothing recorded. */
  lemma Starts(byId: Registry, adj: Adjacency, src: string, cap: nat, s: Search)
    requires Scanned(byId, src) && s == Search({src}, [Entry(src, 0, [])], None, None, false)
    ensures Between(byId, adj, src, cap, [[]], 0, s)
    ensures Track(byId, adj, src, cap, [[]], 0, s.trans, [], [])
  {
    assert End(src, []) == src;
    assert Walk(adj, src, []);
  }

  /** An empty queue means every chain has been expanded, so the record is final. */
  lemma Ends(byId: Registry, adj: Adjacency, src: string, cap: nat, found: seq<seq<string>>, h: nat, s: Search)
    requires WellFormed(byId, adj) && Scanned(byId, src)
    requires Between(byId, adj, src, cap, found, h, s) && s.queue == []
    requires Track(byId, adj, src, cap, found, h, s.trans, [], [])
    ensures DirectExact(byId, adj, src, cap, s.direct)
    ensures TransitiveExact(byId, adj, src, cap, s.trans)
    ensures s.anyLower <==> AnyHit(byId, adj, src, cap)
  {
    hide Summary, TransitiveExact, AnyHit, InOrder, Settled, FirstHit;
    SummaryIsExact(byId, adj, src, cap, found, s.trans, s.anyLower);
  }

  method ScanIssue(byId: Registry, adj: Adjacency, issue: DagIssue, maxDepth: nat)
    returns (direct: Option<Row>, trans: Option<Row>, anyLower: bool)
    requires WellFormed(byId, adj)
    requires Scanned(byId, issue.id) && byId[issue.id] == issue
    ensures DirectExact(byId, adj, issue.id, maxDepth, direct)
    ensures TransitiveExact(byId, adj, issue.id, maxDepth, trans)
    ensures anyLower <==> AnyHit(byId, adj, issue.id, maxDepth)
  {
    hide Between, Track, DirectExact, TransitiveExact, AnyHit;
    var src := issue.id;
    var s := Search({src}, [Entry(src, 0, [])], None, None, false);
    ghost var found: seq<seq<string>>, h := [[]], 0;
    Starts(byId, adj, src, maxDepth, s);
    while s.queue != []
      invariant Between(byId, adj, src, maxDepth, found, h, s) && s.seen <= byId.Keys
      invariant Track(byId, adj, src, maxDepth, found, h, s.trans, [], [])
      decreases byId.Keys - s.seen, |s.queue|
    {
      s, found := Dequeue(byId, adj, src, maxDepth, s, found, h);
      h := h + 1;
    }
    Ends(byId, adj, src, maxDepth, found, h, s);
    return s.direct, s.trans, s.anyLower;
  }

  /** The loop body: take the oldest entry and, below the depth cap, read what blocks it. */
  method Dequeue(byId: Registry, adj: Adjacency, src: string, maxDepth: nat, start: Search, ghost found0: seq<seq<string>>, ghost h: nat)
    returns (s: Search, ghost found: seq<seq<string>>)
    requires WellFormed(byId, adj) && Scanned(byId, src)
    requires Between(byId, adj, src, maxDepth, found0, h, start) && start.queue != []
    requires Track(byId, adj, src, maxDepth, found0, h, start.trans, [], [])
    ensures Between(byId, adj, src, maxDepth, found, h + 1, s) && s.seen <= byId.Keys
    ensures Track(byId, adj, src, maxDepth, found, h + 1, s.trans, [], [])
    ensures start.seen <= s.seen && (s.seen == start.seen ==> |s.queue| < |start.queue|)
  {
    hide Shape, Record, Between, Track;
    var Entry(id, depth, chain) := start.queue[0];
    s, found := start.(queue := start.queue[1..]), found0;
    if depth < maxDepth && id in adj {
      Opens(byId, adj, src, maxDepth, found, h, start);
      s, found := Expand(byId, adj, src, maxDepth, chain, adj[id], s, found, h);
      Closes(byId, adj, src, maxDepth, found, h, s, chain);
    } else {
      Skips(byId, adj, src, maxDepth, found, h, start);
    }
    SeenIsIndexed(byId, adj, src, maxDepth, found, h + 1, s);
  }

  lemma SeenIsIndexed(byId: Registry, adj: Adjacency, src: string, cap: nat, found: seq<seq<string>>, h: nat, s: Search)
    requires Between(byId, adj, src, cap, found, h, s)
    ensures s.seen <= byId.Keys
  {
  }

  /** One more successor read: already seen, or discovered now. */
  lemma Reads(byId: Registry, adj: Adjacency, src: string, cap: nat, found: seq<seq<string>>, h: nat, s: Search,
              chain: seq<string>, nexts: seq<string>, k: nat)
    requires WellFormed(byId, adj) && Scanned(byId, src)
    requires nexts == Next(adj, End(src, chain)) && k < |nexts|
    requires Shape(byId, adj, src, cap, found, h, s, chain, nexts[..k]) && Record(byId, adj, src, cap, found, h, s, nexts[..k])
    requires Track(byId, adj, src, cap, found, h, s.trans, chain, nexts[..k])
    ensures Scanned(byId, nexts[k])
    ensures nexts[k] in s.seen ==>
      && Shape(byId, adj, src, cap, found, h, s, chain, nexts[..k + 1]) && Record(byId, adj, src, cap, found, h, s, nexts[..k + 1])
      && Track(byId, adj, src, cap, found, h, s.trans, chain, nexts[..k + 1])
    ensures nexts[k] !in s.seen ==>
      var more, t := found + [chain + [nexts[k]]], Discover(byId, src, chain, nexts[k], s);
      && Shape(byId, adj, src, cap, more, h, t, chain, nexts[..k + 1]) && Record(byId, adj, src, cap, more, h, t, nexts[..k + 1])
      && Track(byId, adj, src, cap, more, h, t.trans, chain, nexts[..k + 1])
  {
    hide Shape, Record, Track;
    var nxt := nexts[k];
    assert nexts[..k + 1] == nexts[..k] + [nxt];
    if nxt in s.seen {
      ReadSeen(byId, adj, src, cap, found, h, s, chain, nexts[..k], nxt);
      TrackSeen(byId, adj, src, cap, found, h, s, chain, nexts[..k], nxt);
    } else {
      ReadUnseen(byId, adj, src, cap, found, h, s, chain, nexts[..k], nxt);
      RecordUnseen(byId, adj, src, cap, found, h, s, chain, nexts[..k], nxt);
      TrackUnseen(byId, adj, src, cap, found, h, s, chain, nexts, k);
    }
  }

  /** The inner loop: read the successors of one dequeued bead. */
  method Expand(byId: Registry, adj: Adjacency, src: string, maxDepth: nat, chain: seq<string>, nexts: seq<string>,
                start: Search, ghost found0: seq<seq<string>>, ghost h: nat)
    returns (s: Search, ghost found: seq<seq<string>>)
    requires WellFormed(byId, adj) && Scanned(byId, src)
    requires nexts == Next(adj, End(src, chain))
    requires Shape(byId, adj, src, maxDepth, found0, h, start, chain, [])
    requires Record(byId, adj, src, maxDepth, found0, h, start, [])
    requires Track(byId, adj, src, maxDepth, found0, h, start.trans, chain, [])
    ensures Track(byId, adj, src, maxDepth, found, h, s.trans, chain, nexts)
    ensures Shape(byId, adj, src, maxDepth, found, h, s, chain, nexts)
    ensures Record(byId, adj, src, maxDepth, found, h, s, nexts)
    ensures start.seen <= s.seen && (s.seen == start.seen ==> s.queue == start.queue)
  {
    hide Shape, Record, Track;
    s, found := start, found0;
    for k := 0 to |nexts|
      invariant Shape(byId, adj, src, maxDepth, found, h, s, chain, nexts[..k])
      invariant Record(byId, adj, src, maxDepth, found, h, s, nexts[..k])
      invariant Track(byId, adj, src, maxDepth, found, h, s.trans, chain, nexts[..k])
      invariant start.seen <= s.seen && (s.seen == start.seen ==> s.queue == start.queue)
    {
      var nxt := nexts[k];
      Reads(byId, adj, src, maxDepth, found, h, s, chain, nexts, k);
      if nxt !in s.seen {
        s := Discover(byId, src, chain, nxt, s);
        found := found + [chain + [nxt]];
      }
    }
    assert nexts[..|nexts|] == nexts;
  }
}
