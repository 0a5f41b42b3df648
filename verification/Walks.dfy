/**
 Walks over a bead graph, and the order in which a breadth-first search meets
 them: shorter first, and among walks of one length by the first step at which
 they part, in the order the edges are listed.
 */
module Walks {
  type Adjacency = map<string, seq<string>>

  function Next(adj: Adjacency, u: string): seq<string> {
    if u in adj then adj[u] else []
  }

  function End(src: string, w: seq<string>): string {
    if w == [] then src else w[|w| - 1]
  }

  /** A walk is recorded, as a chain is, without its source. */
  ghost predicate Walk(adj: Adjacency, src: string, w: seq<string>) {
    w == [] || (Walk(adj, src, w[..|w| - 1]) && End(src, w) in Next(adj, End(src, w[..|w| - 1])))
  }

  ghost predicate Shortest(adj: Adjacency, src: string, w: seq<string>) {
    Walk(adj, src, w) && forall o | Walk(adj, src, o) && End(src, o) == End(src, w) :: |w| <= |o|
  }

  /** Dropping the last step of a shortest walk leaves a shortest walk. */
  lemma PrefixIsShortest(adj: Adjacency, src: string, w: seq<string>)
    requires Shortest(adj, src, w) && w != []
    ensures Shortest(adj, src, w[..|w| - 1])
  {
    var prefix := w[..|w| - 1];
    forall o | Walk(adj, src, o) && End(src, o) == End(src, prefix) ensures |prefix| <= |o| {
      var longer := o + [End(src, w)];
      assert longer[..|longer| - 1] == o;
      assert Walk(adj, src, longer) && End(src, longer) == End(src, w);
    }
  }

  /** Some shortest walk leads wherever a walk leads. */
  lemma {:induction false} ShortestExists(adj: Adjacency, src: string, w: seq<string>) returns (o: seq<string>)
    requires Walk(adj, src, w) && w != [] && End(src, w) != src
    ensures Shortest(adj, src, o) && End(src, o) == End(src, w) && 1 <= |o| <= |w|
    decreases |w|
  {
    if Shortest(adj, src, w) {
      o := w;
    } else {
      var shorter :| Walk(adj, src, shorter) && End(src, shorter) == End(src, w) && |shorter| < |w|;
      o := ShortestExists(adj, src, shorter);
    }
  }

  // ----- the order

  /** Where `v` is listed first. */
  function Rank(xs: seq<string>, v: string): (r: nat)
    ensures r <= |xs| && (r < |xs| <==> v in xs)
    ensures r < |xs| ==> xs[r] == v
    ensures forall j | 0 <= j < r :: xs[j] != v
  {
    if xs == [] || xs[0] == v then 0 else Rank(xs[1..], v) + 1
  }

  /** Of two walks of one length, the one that parts by the edge listed first. */
  ghost predicate Earlier(adj: Adjacency, src: string, a: seq<string>, b: seq<string>)
    decreases |a|
  {
    && |a| == |b| && a != []
    && var p, q := a[..|a| - 1], b[..|b| - 1];
       Earlier(adj, src, p, q) || (p == q && Rank(Next(adj, End(src, p)), a[|a| - 1]) < Rank(Next(adj, End(src, p)), b[|b| - 1]))
  }

  /** Breadth-first order. */
  ghost predicate NoLater(adj: Adjacency, src: string, a: seq<string>, b: seq<string>) {
    |a| < |b| || a == b || Earlier(adj, src, a, b)
  }

  lemma {:induction false} EarlierTransitive(adj: Adjacency, src: string, a: seq<string>, b: seq<string>, c: seq<string>)
    requires Earlier(adj, src, a, b) && Earlier(adj, src, b, c)
    ensures Earlier(adj, src, a, c)
    decreases |a|
  {
    var p, q, r := a[..|a| - 1], b[..|b| - 1], c[..|c| - 1];
    if Earlier(adj, src, p, q) && Earlier(adj, src, q, r) { EarlierTransitive(adj, src, p, q, r); }
  }

  lemma {:induction false} EarlierIsStrict(adj: Adjacency, src: string, a: seq<string>, b: seq<string>)
    requires Earlier(adj, src, a, b)
    ensures a != b && !Earlier(adj, src, b, a)
    decreases |a|
  {
    var p, q := a[..|a| - 1], b[..|b| - 1];
    if Earlier(adj, src, p, q) { EarlierIsStrict(adj, src, p, q); }
  }

  /** Two different walks of one length are always ordered. */
  lemma {:induction false} EarlierIsTotal(adj: Adjacency, src: string, a: seq<string>, b: seq<string>)
    requires Walk(adj, src, a) && Walk(adj, src, b) && |a| == |b| && a != b
    ensures Earlier(adj, src, a, b) || Earlier(adj, src, b, a)
    decreases |a|
  {
    var n := |a| - 1;
    var p, q := a[..n], b[..n];
    if p != q {
      EarlierIsTotal(adj, src, p, q);
    } else {
      assert a == p + [a[n]] && b == q + [b[n]];
      RanksDiffer(Next(adj, End(src, p)), a[n], b[n]);
    }
  }

  lemma RanksDiffer(xs: seq<string>, u: string, v: string)
    requires u in xs && v in xs && u != v
    ensures Rank(xs, u) != Rank(xs, v)
  {
    hide Rank;
  }

  lemma NoLaterTransitive(adj: Adjacency, src: string, a: seq<string>, b: seq<string>, c: seq<string>)
    requires NoLater(adj, src, a, b) && NoLater(adj, src, b, c)
    ensures NoLater(adj, src, a, c)
  {
    if Earlier(adj, src, a, b) && Earlier(adj, src, b, c) { EarlierTransitive(adj, src, a, b, c); }
  }

  lemma NoLaterAntisymmetric(adj: Adjacency, src: string, a: seq<string>, b: seq<string>)
    requires NoLater(adj, src, a, b) && NoLater(adj, src, b, a)
    ensures a == b
  {
    if Earlier(adj, src, a, b) { EarlierIsStrict(adj, src, a, b); }
  }

  lemma EarlierExtends(adj: Adjacency, src: string, a: seq<string>, b: seq<string>, u: string, v: string)
    requires Earlier(adj, src, a, b)
    ensures Earlier(adj, src, a + [u], b + [v])
  {
    assert (a + [u])[..|a|] == a && (b + [v])[..|b|] == b;
  }

  lemma RankDecides(adj: Adjacency, src: string, a: seq<string>, u: string, v: string)
    requires Rank(Next(adj, End(src, a)), u) < Rank(Next(adj, End(src, a)), v)
    ensures Earlier(adj, src, a + [u], a + [v])
  {
    assert (a + [u])[..|a|] == a && (a + [v])[..|a|] == a;
  }

  lemma ReadFirstRanksFirst(xs: seq<string>, k: nat, u: string)
    requires k < |xs| && u in xs[..k] && xs[k] !in xs[..k]
    ensures Rank(xs, u) < Rank(xs, xs[k])
  {
    var i :| 0 <= i < k && xs[..k][i] == u;
    assert xs[i] == u;
    forall j | 0 <= j < k ensures xs[j] != xs[k] { assert xs[..k][j] == xs[j]; }
  }

  // ----- the chains of a search, in the order they are found

  ghost predicate InOrder(adj: Adjacency, src: string, found: seq<seq<string>>) {
    forall i, j | 0 <= i < j < |found| :: |found[i]| < |found[j]| || Earlier(adj, src, found[i], found[j])
  }

  /** Some found chain ends where `c` does, and comes no later. */
  ghost predicate Arrived(adj: Adjacency, src: string, found: seq<seq<string>>, c: seq<string>) {
    exists j | 0 <= j < |found| :: End(src, found[j]) == End(src, c) && NoLater(adj, src, found[j], c)
  }

  /** Every step out of the first `h` chains has been answered by a chain no later. */
  ghost predicate Settled(adj: Adjacency, src: string, cap: nat, found: seq<seq<string>>, h: nat) {
    forall i, v | 0 <= i < h && i < |found| && |found[i]| < cap && v in Next(adj, End(src, found[i])) ::
      Arrived(adj, src, found, found[i] + [v])
  }

  ghost predicate HasParent(found: seq<seq<string>>, h: nat, chain: seq<string>, read: seq<string>, c: seq<string>)
    requires c != []
  {
    || (exists p | 0 <= p < h && p < |found| :: found[p] == c[..|c| - 1])
    || (c[..|c| - 1] == chain && c[|c| - 1] in read)
  }

  /** Every found chain extends an expanded one, or the current one by a step already read. */
  ghost predicate Parented(found: seq<seq<string>>, h: nat, chain: seq<string>, read: seq<string>) {
    forall m | 0 <= m < |found| && found[m] != [] :: HasParent(found, h, chain, read, found[m])
  }

  ghost predicate Ordered(adj: Adjacency, src: string, cap: nat, found: seq<seq<string>>, h: nat, chain: seq<string>, read: seq<string>) {
    && InOrder(adj, src, found) && Settled(adj, src, cap, found, h) && Parented(found, h, chain, read)
    && forall v | v in read :: Arrived(adj, src, found, chain + [v])
  }

  lemma ArrivedGrows(adj: Adjacency, src: string, found: seq<seq<string>>, c: seq<string>, w: seq<string>)
    requires Arrived(adj, src, found, w)
    ensures Arrived(adj, src, found + [c], w)
  {
    hide NoLater;
    var j :| 0 <= j < |found| && End(src, found[j]) == End(src, w) && NoLater(adj, src, found[j], w);
    assert (found + [c])[j] == found[j];
  }

  /** A found chain one step longer than the current one is the step just taken, or comes before it. */
  lemma SiblingsComeFirst(adj: Adjacency, src: string, found: seq<seq<string>>, h: nat, chain: seq<string>, read: seq<string>, m: nat, v: string)
    requires h < |found| && found[h] == chain && m < |found| && |found[m]| == |chain| + 1
    requires InOrder(adj, src, found) && Parented(found, h, chain, read)
    ensures Earlier(adj, src, found[m], chain + [v]) || (exists u :: u in read && found[m] == chain + [u])
  {
    hide Earlier, InOrder, Parented;
    var c := found[m];
    var n := |c| - 1;
    assert c == c[..n] + [c[n]];
    var p := ParentOf(found, h, chain, read, m);
    if p < h {
      ShorterOrEarlier(adj, src, found, p, h);
      EarlierExtends(adj, src, found[p], chain, c[n], v);
    }
  }

  /** The expanded chain that `found[m]` extends, or `h` itself for the current one. */
  lemma ParentOf(found: seq<seq<string>>, h: nat, chain: seq<string>, read: seq<string>, m: nat) returns (p: nat)
    requires h < |found| && m < |found| && found[m] != [] && Parented(found, h, chain, read)
    ensures
      var n := |found[m]| - 1;
      p <= h && if p < h then found[p] == found[m][..n] else found[m][..n] == chain && found[m][n] in read
  {
    assert HasParent(found, h, chain, read, found[m]);
    if q :| 0 <= q < h && found[q] == found[m][..|found[m]| - 1] { p := q; } else { p := h; }
  }

  lemma ShorterOrEarlier(adj: Adjacency, src: string, found: seq<seq<string>>, i: nat, j: nat)
    requires InOrder(adj, src, found) && i < j < |found|
    ensures |found[i]| < |found[j]| || Earlier(adj, src, found[i], found[j])
  {
    hide Earlier;
  }

  lemma SeenArrived(adj: Adjacency, src: string, found: seq<seq<string>>, h: nat, chain: seq<string>, read: seq<string>, i: nat, v: string)
    requires h < |found| && found[h] == chain && i < |found| && |found[i]| <= |chain| + 1 && End(src, found[i]) == v
    requires InOrder(adj, src, found) && Parented(found, h, chain, read)
    ensures Arrived(adj, src, found, chain + [v])
  {
    hide Earlier, InOrder, Parented;
    assert End(src, chain + [v]) == v;
    if |found[i]| == |chain| + 1 { SiblingsComeFirst(adj, src, found, h, chain, read, i, v); }
    assert NoLater(adj, src, found[i], chain + [v]);
  }

  lemma OrderedSeen(adj: Adjacency, src: string, cap: nat, found: seq<seq<string>>, h: nat, chain: seq<string>, read: seq<string>, i: nat)
    requires h < |found| && found[h] == chain && i < |found| && |found[i]| <= |chain| + 1
    requires Ordered(adj, src, cap, found, h, chain, read)
    ensures Ordered(adj, src, cap, found, h, chain, read + [End(src, found[i])])
  {
    hide Arrived, InOrder, Settled;
    SeenArrived(adj, src, found, h, chain, read, i, End(src, found[i]));
    ParentsStay(found, h, chain, read, End(src, found[i]));
  }

  lemma ParentsStay(found: seq<seq<string>>, h: nat, chain: seq<string>, read: seq<string>, v: string)
    requires Parented(found, h, chain, read)
    ensures Parented(found, h, chain, read + [v])
  {
  }

  lemma OrderedUnseen(adj: Adjacency, src: string, cap: nat, found: seq<seq<string>>, h: nat, chain: seq<string>, nexts: seq<string>, k: nat)
    requires h < |found| && found[h] == chain && forall i | 0 <= i < |found| :: |found[i]| <= |chain| + 1
    requires nexts == Next(adj, End(src, chain)) && k < |nexts| && nexts[k] !in nexts[..k]
    requires Ordered(adj, src, cap, found, h, chain, nexts[..k])
    ensures Ordered(adj, src, cap, found + [chain + [nexts[k]]], h, chain, nexts[..k] + [nexts[k]])
  {
    var c := chain + [nexts[k]];
    NewComesLast(adj, src, found, h, chain, nexts, k);
    SettledGrows(adj, src, cap, found, h, c);
    ParentsGrow(found, h, chain, nexts[..k], nexts[k]);
    ReadArrives(adj, src, found, chain, nexts[..k], nexts[k]);
  }

  lemma NewComesLast(adj: Adjacency, src: string, found: seq<seq<string>>, h: nat, chain: seq<string>, nexts: seq<string>, k: nat)
    requires h < |found| && found[h] == chain && forall i | 0 <= i < |found| :: |found[i]| <= |chain| + 1
    requires nexts == Next(adj, End(src, chain)) && k < |nexts| && nexts[k] !in nexts[..k]
    requires InOrder(adj, src, found) && Parented(found, h, chain, nexts[..k])
    ensures InOrder(adj, src, found + [chain + [nexts[k]]])
  {
    hide Earlier, Parented;
    var c := chain + [nexts[k]];
    var more := found + [c];
    forall m | 0 <= m < |found| ensures |found[m]| < |c| || Earlier(adj, src, found[m], c) {
      if |found[m]| == |chain| + 1 {
        SiblingsComeFirst(adj, src, found, h, chain, nexts[..k], m, nexts[k]);
        forall u | u in nexts[..k] && found[m] == chain + [u] ensures Earlier(adj, src, found[m], c) {
          ReadFirstRanksFirst(nexts, k, u);
          RankDecides(adj, src, chain, u, nexts[k]);
        }
      }
    }
    assert forall i | 0 <= i < |found| :: more[i] == found[i];
  }

  lemma SettledGrows(adj: Adjacency, src: string, cap: nat, found: seq<seq<string>>, h: nat, c: seq<string>)
    requires Settled(adj, src, cap, found, h) && h <= |found|
    ensures Settled(adj, src, cap, found + [c], h)
  {
    hide Arrived;
    forall i, v | 0 <= i < h && |(found + [c])[i]| < cap && v in Next(adj, End(src, (found + [c])[i]))
      ensures Arrived(adj, src, found + [c], (found + [c])[i] + [v]) {
      assert (found + [c])[i] == found[i];
      ArrivedGrows(adj, src, found, c, found[i] + [v]);
    }
  }

  lemma ParentsGrow(found: seq<seq<string>>, h: nat, chain: seq<string>, read: seq<string>, v: string)
    requires Parented(found, h, chain, read) && h <= |found|
    ensures Parented(found + [chain + [v]], h, chain, read + [v])
  {
    var c := chain + [v];
    var more := found + [c];
    forall m | 0 <= m < |more| && more[m] != [] ensures HasParent(more, h, chain, read + [v], more[m]) {
      if m < |found| {
        assert HasParent(found, h, chain, read, found[m]);
        if p :| 0 <= p < h && found[p] == found[m][..|found[m]| - 1] { assert more[p] == found[p]; }
      } else {
        assert c[..|c| - 1] == chain;
      }
    }
  }

  lemma ReadArrives(adj: Adjacency, src: string, found: seq<seq<string>>, chain: seq<string>, read: seq<string>, v: string)
    requires forall u | u in read :: Arrived(adj, src, found, chain + [u])
    ensures forall u | u in read + [v] :: Arrived(adj, src, found + [chain + [v]], chain + [u])
  {
    var c := chain + [v];
    assert (found + [c])[|found|] == c && NoLater(adj, src, c, c);
    assert Arrived(adj, src, found + [c], c);
    hide Arrived;
    forall u | u in read + [v] ensures Arrived(adj, src, found + [c], chain + [u]) {
      if u in read { ArrivedGrows(adj, src, found, c, chain + [u]); }
    }
  }

  lemma OrderedOpens(adj: Adjacency, src: string, cap: nat, found: seq<seq<string>>, h: nat, chain: seq<string>)
    requires Ordered(adj, src, cap, found, h, [], [])
    ensures Ordered(adj, src, cap, found, h, chain, [])
  {
    hide Settled, InOrder;
  }

  /** All steps of chain `h` are answered, or there is none to take. */
  lemma OrderedCloses(adj: Adjacency, src: string, cap: nat, found: seq<seq<string>>, h: nat, chain: seq<string>, read: seq<string>)
    requires h < |found| && found[h] == chain && Ordered(adj, src, cap, found, h, chain, read)
    requires |chain| < cap ==> read == Next(adj, End(src, chain))
    ensures Ordered(adj, src, cap, found, h + 1, [], [])
  {
    hide Arrived, InOrder;
    forall m | 0 <= m < |found| && found[m] != [] ensures HasParent(found, h + 1, [], [], found[m]) {
      assert HasParent(found, h, chain, read, found[m]);
    }
  }

  /** Once every chain is expanded, each shortest walk within the cap is answered by a chain of its length that comes no later. */
  lemma {:induction false} ShortestArrives(adj: Adjacency, src: string, cap: nat, found: seq<seq<string>>, w: seq<string>)
    requires Settled(adj, src, cap, found, |found|) && [] in found
    requires Shortest(adj, src, w) && |w| <= cap
    requires forall i | 0 <= i < |found| :: Walk(adj, src, found[i])
    ensures Arrived(adj, src, found, w)
    decreases |w|
  {
    if w == [] {
      var i :| 0 <= i < |found| && found[i] == [];
      assert NoLater(adj, src, found[i], w);
    } else {
      var n := |w| - 1;
      var prefix := w[..n];
      PrefixIsShortest(adj, src, w);
      ShortestArrives(adj, src, cap, found, prefix);
      StepArrives(adj, src, cap, found, w);
    }
  }

  lemma StepArrives(adj: Adjacency, src: string, cap: nat, found: seq<seq<string>>, w: seq<string>)
    requires Settled(adj, src, cap, found, |found|) && w != [] && |w| <= cap && Walk(adj, src, w)
    requires Shortest(adj, src, w[..|w| - 1]) && Arrived(adj, src, found, w[..|w| - 1])
    requires forall i | 0 <= i < |found| :: Walk(adj, src, found[i])
    ensures Arrived(adj, src, found, w)
  {
    hide Earlier, Settled, NoLater, Arrived, Shortest;
    var n := |w| - 1;
    var prefix, v := w[..n], w[n];
    assert w == prefix + [v] && v in Next(adj, End(src, prefix));
    var j := Arrival(adj, src, found, prefix);
    NoShorter(adj, src, prefix, found[j]);
    hide Walk;
    StepKeepsOrder(adj, src, found[j], prefix, v);
    StepIsSettled(adj, src, cap, found, j, v);
    var i := Arrival(adj, src, found, found[j] + [v]);
    NoLaterTransitive(adj, src, found[i], found[j] + [v], prefix + [v]);
    ArrivesBy(adj, src, found, i, w);
  }

  lemma Arrival(adj: Adjacency, src: string, found: seq<seq<string>>, c: seq<string>) returns (j: nat)
    requires Arrived(adj, src, found, c)
    ensures j < |found| && End(src, found[j]) == End(src, c) && NoLater(adj, src, found[j], c)
  {
    hide NoLater;
    j :| j < |found| && End(src, found[j]) == End(src, c) && NoLater(adj, src, found[j], c);
  }

  lemma ArrivesBy(adj: Adjacency, src: string, found: seq<seq<string>>, i: nat, c: seq<string>)
    requires i < |found| && End(src, found[i]) == End(src, c) && NoLater(adj, src, found[i], c)
    ensures Arrived(adj, src, found, c)
  {
    hide NoLater;
  }

  lemma NoShorter(adj: Adjacency, src: string, w: seq<string>, o: seq<string>)
    requires Shortest(adj, src, w) && Walk(adj, src, o) && End(src, o) == End(src, w)
    ensures |w| <= |o|
  {
  }

  lemma StepKeepsOrder(adj: Adjacency, src: string, a: seq<string>, b: seq<string>, v: string)
    requires NoLater(adj, src, a, b) && |b| <= |a|
    ensures |a| == |b| && NoLater(adj, src, a + [v], b + [v])
  {
    assert Earlier(adj, src, a, b) ==> |a| == |b|;
    hide Earlier;
    if a != b { EarlierExtends(adj, src, a, b, v, v); }
  }

  lemma StepIsSettled(adj: Adjacency, src: string, cap: nat, found: seq<seq<string>>, j: nat, v: string)
    requires Settled(adj, src, cap, found, |found|) && j < |found| && |found[j]| < cap && v in Next(adj, End(src, found[j]))
    ensures Arrived(adj, src, found, found[j] + [v])
  {
    hide Arrived;
  }
}
