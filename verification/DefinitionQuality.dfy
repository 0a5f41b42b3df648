/**
 The largest shared-suffix cluster and the specificity floor.

 Acceptance texts are UTF-8 byte strings.  The scan looks only at the suffixes
 that two texts have in common; it is proved to find the global optimum over
 every suffix that starts on a character boundary.
 */
module DefinitionQuality {
  import opened Wrappers

  newtype byte = x: int | 0 <= x < 256

  predicate IsContinuation(b: byte) { 0x80 <= b < 0xC0 }

  /** What every Rust string guarantees of its first byte. */
  type Text = s: seq<byte> | s == [] || !IsContinuation(s[0])

  const MIN_SUFFIX := 32

  const FLOOR_MILLI := 365

  datatype BeadBody = BeadBody(id: string, acceptance: Text)

  datatype Vacuity = EmptySet

  datatype FamilyReport = FamilyReport(
    beadCount: nat, total: nat, specific: nat, boilerplate: nat, specificMilli: nat, floorMilli: nat,
    clusterSize: nat, clusterSuffixBytes: nat)
  {
    predicate BelowFloor() { specificMilli < floorMilli }
  }

  // ----- suffixes

  predicate EndsWith(s: seq<byte>, suffix: seq<byte>) {
    |suffix| <= |s| && s[|s| - |suffix|..] == suffix
  }

  predicate IsCharBoundary(s: seq<byte>, i: nat)
    requires i <= |s|
  {
    i == 0 || i == |s| || !IsContinuation(s[i])
  }

  function Tail(s: seq<byte>, n: nat): seq<byte>
    requires n <= |s|
  {
    s[|s| - n..]
  }

  /** The last `n` bytes agree, and they begin on a character boundary. */
  predicate Shares(a: Text, b: Text, n: nat) {
    n <= |a| && n <= |b| && Tail(a, n) == Tail(b, n) && IsCharBoundary(a, |a| - n)
  }

  /** The largest shared length, found from above. */
  function Longest(a: Text, b: Text, bound: nat): (n: nat)
    ensures Shares(a, b, n) && n <= bound
    ensures forall m: nat | n < m <= bound :: !Shares(a, b, m)
  {
    if Shares(a, b, bound) then bound
    else
      assert bound > 0 by { assert Tail(a, 0) == [] == Tail(b, 0); }
      Longest(a, b, bound - 1)
  }

  function LongestShared(a: Text, b: Text): (n: nat)
    ensures Shares(a, b, n)
    ensures forall m: nat | Shares(a, b, m) :: m <= n
  {
    Longest(a, b, |a|)
  }

  lemma SharesIsSymmetric(a: Text, b: Text, n: nat)
    requires Shares(a, b, n)
    ensures Shares(b, a, n)
  {
    if n > 0 { assert Tail(a, n)[0] == Tail(b, n)[0]; }
  }

  lemma LongestIsSymmetric(a: Text, b: Text)
    ensures LongestShared(a, b) == LongestShared(b, a)
  {
    SharesIsSymmetric(a, b, LongestShared(a, b));
    SharesIsSymmetric(b, a, LongestShared(b, a));
  }

  lemma TailsNest(s: seq<byte>, t: seq<byte>, long: nat, short: nat)
    requires short <= long <= |s| && long <= |t| && Tail(s, long) == Tail(t, long)
    ensures Tail(s, short) == Tail(t, short)
  {
    assert Tail(s, short) == Tail(s, long)[long - short..];
    assert Tail(t, short) == Tail(t, long)[long - short..];
  }

  /** Inside a shared suffix all bytes agree, so a disagreement bounds its length. */
  lemma SharedByteAgrees(a: Text, b: Text, m: nat, i: nat)
    requires Shares(a, b, m)
    ensures i < m ==> a[|a| - 1 - i] == b[|b| - 1 - i]
  {
    if i < m {
      assert a[|a| - 1 - i] == Tail(a, m)[m - 1 - i];
      assert b[|b| - 1 - i] == Tail(b, m)[m - 1 - i];
    }
  }

  /** `common_suffix`: count agreeing bytes, then walk back to a boundary. */
  method CommonSuffix(a: Text, b: Text) returns (suffix: seq<byte>)
    ensures suffix == Tail(a, LongestShared(a, b))
  {
    var i := 0;
    while i < |a| && i < |b| && a[|a| - 1 - i] == b[|b| - 1 - i]
      invariant i <= |a| && i <= |b| && Tail(a, i) == Tail(b, i)
    {
      assert Tail(a, i + 1) == [a[|a| - 1 - i]] + Tail(a, i);
      assert Tail(b, i + 1) == [b[|b| - 1 - i]] + Tail(b, i);
      i := i + 1;
    }
    SharedByteAgrees(a, b, LongestShared(a, b), i);
    while i > 0 && !IsCharBoundary(a, |a| - i)
      invariant i <= |a| && i <= |b| && Tail(a, i) == Tail(b, i) && LongestShared(a, b) <= i
    {
      TailsNest(a, b, i, i - 1);
      i := i - 1;
    }
    assert Shares(a, b, i);
    suffix := a[|a| - i..];
  }

  // ----- clusters

  function Nonempty(beads: seq<BeadBody>): (r: seq<Text>)
    ensures forall t | t in r :: t != []
  {
    if beads == [] then []
    else
      var n := |beads| - 1;
      var rest := Nonempty(beads[..n]);
      if beads[n].acceptance != [] then rest + [beads[n].acceptance] else rest
  }

  function CountEnding(texts: seq<Text>, suffix: seq<byte>): (k: nat)
    ensures k <= |texts|
  {
    if texts == [] then 0
    else CountEnding(texts[..|texts| - 1], suffix) + if EndsWith(texts[|texts| - 1], suffix) then 1 else 0
  }

  lemma {:induction false} CountIsMonotone(texts: seq<Text>, strong: seq<byte>, weak: seq<byte>)
    requires forall t | t in texts :: EndsWith(t, strong) ==> EndsWith(t, weak)
    ensures CountEnding(texts, strong) <= CountEnding(texts, weak)
  {
    if texts != [] {
      assert texts[|texts| - 1] in texts;
      CountIsMonotone(texts[..|texts| - 1], strong, weak);
    }
  }

  lemma {:induction false} TwoMembers(texts: seq<Text>, suffix: seq<byte>) returns (i: nat, j: nat)
    requires CountEnding(texts, suffix) >= 2
    ensures i < j < |texts| && EndsWith(texts[i], suffix) && EndsWith(texts[j], suffix)
  {
    var n := |texts| - 1;
    if EndsWith(texts[n], suffix) {
      i := OneMember(texts[..n], suffix);
      j := n;
    } else {
      i, j := TwoMembers(texts[..n], suffix);
    }
  }

  lemma {:induction false} OneMember(texts: seq<Text>, suffix: seq<byte>) returns (i: nat)
    requires CountEnding(texts, suffix) >= 1
    ensures i < |texts| && EndsWith(texts[i], suffix)
  {
    var n := |texts| - 1;
    if EndsWith(texts[n], suffix) { i := n; } else { i := OneMember(texts[..n], suffix); }
  }

  lemma ArgMin(group: set<nat>, f: nat -> nat) returns (j: nat)
    requires group != {}
    ensures j in group && forall m | m in group :: f(j) <= f(m)
  {
    j :| j in group;
    var rest := group - {j};
    if rest != {} {
      var other := ArgMin(rest, f);
      assert group == rest + {j};
      if f(other) < f(j) { j := other; }
    }
  }

  /** The longest suffix of a whole group is already the longest suffix of one pair in it. */
  lemma ShortestPair(texts: seq<Text>, suffix: seq<byte>, i: nat, k: nat) returns (j: nat)
    requires i < |texts| && k < |texts| && k != i && EndsWith(texts[k], suffix)
    ensures j < |texts| && j != i && EndsWith(texts[j], suffix)
    ensures forall m | 0 <= m < |texts| && m != i && EndsWith(texts[m], suffix) ::
      LongestShared(texts[i], texts[j]) <= LongestShared(texts[i], texts[m])
  {
    var group := set m: nat | m < |texts| && m != i && EndsWith(texts[m], suffix);
    var f := (m: nat) => if m < |texts| then LongestShared(texts[i], texts[m]) else 0;
    assert k in group;
    j := ArgMin(group, f);
    forall m | 0 <= m < |texts| && m != i && EndsWith(texts[m], suffix)
      ensures LongestShared(texts[i], texts[j]) <= LongestShared(texts[i], texts[m]) {
      assert m in group && f(j) <= f(m);
    }
  }

  predicate AtLeast(n: nat, len: nat, n': nat, len': nat) {
    n > n' || (n == n' && len >= len')
  }

  /** The best so far is no worse than the common suffix of the pair `(i, j)`. */
  ghost predicate Covers(texts: seq<Text>, n: nat, len: nat, i: nat, j: nat)
    requires i < |texts| && j < |texts|
  {
    var m := LongestShared(texts[i], texts[j]);
    m >= MIN_SUFFIX ==> AtLeast(n, len, CountEnding(texts, Tail(texts[i], m)), m)
  }

  lemma CoversImproves(texts: seq<Text>, n: nat, len: nat, n': nat, len': nat, i: nat, j: nat)
    requires i <= |texts| && j <= |texts| && AtLeast(n', len', n, len)
    requires forall a, b | 0 <= a < b < |texts| && (a < i || (a == i && b < j)) :: Covers(texts, n, len, a, b)
    ensures forall a, b | 0 <= a < b < |texts| && (a < i || (a == i && b < j)) :: Covers(texts, n', len', a, b)
  {
    forall a, b | 0 <= a < b < |texts| && (a < i || (a == i && b < j)) ensures Covers(texts, n', len', a, b) {
      assert Covers(texts, n, len, a, b);
    }
  }

  /** Either nothing was found, or a real cluster of at least two texts. */
  ghost predicate RealCluster(texts: seq<Text>, n: nat, suffix: seq<byte>) {
    || (n == 0 && suffix == [])
    || (n >= 2 && |suffix| >= MIN_SUFFIX && !IsContinuation(suffix[0]) && n == CountEnding(texts, suffix))
  }

  /** No suffix of 32 bytes or more, shared by two texts or more, beats the answer. */
  ghost predicate Optimal(texts: seq<Text>, n: nat, len: nat) {
    forall s: seq<byte> :: |s| >= MIN_SUFFIX && !IsContinuation(s[0]) && CountEnding(texts, s) >= 2 ==>
      CountEnding(texts, s) < n || (CountEnding(texts, s) == n && |s| <= len)
  }

  /** Covering every pair is covering every group. */
  lemma PairsSuffice(texts: seq<Text>, n: nat, len: nat)
    requires forall i, j | 0 <= i < j < |texts| :: Covers(texts, n, len, i, j)
    ensures Optimal(texts, n, len)
  {
    forall s: seq<byte> | |s| >= MIN_SUFFIX && !IsContinuation(s[0]) && CountEnding(texts, s) >= 2
      ensures AtLeast(n, len, CountEnding(texts, s), |s|) {
      var i, k := TwoMembers(texts, s);
      var j := ShortestPair(texts, s, i, k);
      GroupBehindPair(texts, s, i, j);
      if i < j { assert Covers(texts, n, len, i, j); } else { assert Covers(texts, n, len, j, i); }
    }
  }

  /** The pair's suffix is at least as long as the group's, and the whole group ends with it. */
  lemma GroupBehindPair(texts: seq<Text>, s: seq<byte>, i: nat, j: nat)
    requires i < |texts| && j < |texts| && j != i && EndsWith(texts[i], s) && EndsWith(texts[j], s)
    requires s != [] && !IsContinuation(s[0])
    requires forall m | 0 <= m < |texts| && m != i && EndsWith(texts[m], s) ::
      LongestShared(texts[i], texts[j]) <= LongestShared(texts[i], texts[m])
    ensures
      var n := LongestShared(texts[i], texts[j]);
      && n == LongestShared(texts[j], texts[i]) && Tail(texts[j], n) == Tail(texts[i], n)
      && |s| <= n && CountEnding(texts, s) <= CountEnding(texts, Tail(texts[i], n))
  {
    hide Shares, Longest, IsContinuation, CountEnding;
    var n := LongestShared(texts[i], texts[j]);
    LongestIsSymmetric(texts[i], texts[j]);
    LongestCovers(texts[i], texts[j], s);
    LongestIsShared(texts[i], texts[j]);
    forall m | 0 <= m < |texts| && EndsWith(texts[m], s) ensures EndsWith(texts[m], Tail(texts[i], n)) {
      LongestIsShared(texts[i], texts[m]);
      if m != i { TailsNest(texts[i], texts[m], LongestShared(texts[i], texts[m]), n); }
    }
    CountIsMonotone(texts, s, Tail(texts[i], n));
  }

  lemma LongestIsShared(a: Text, b: Text)
    ensures
      var n := LongestShared(a, b);
      n <= |a| && n <= |b| && Tail(a, n) == Tail(b, n)
  {
    assert Shares(a, b, LongestShared(a, b));
  }

  lemma LongestCovers(a: Text, b: Text, s: seq<byte>)
    requires EndsWith(a, s) && EndsWith(b, s) && s != [] && !IsContinuation(s[0])
    ensures |s| <= LongestShared(a, b)
  {
    assert Tail(a, |s|) == s == Tail(b, |s|);
    assert a[|a| - |s|] == s[0];
    assert Shares(a, b, |s|);
  }

  method LargestSuffixCluster(beads: seq<BeadBody>) returns (bestN: nat, bestSuffix: seq<byte>)
    ensures RealCluster(Nonempty(beads), bestN, bestSuffix)
    ensures Optimal(Nonempty(beads), bestN, |bestSuffix|)
  {
    var texts := Nonempty(beads);
    bestN, bestSuffix := 0, [];
    for i := 0 to |texts|
      invariant RealCluster(texts, bestN, bestSuffix)
      invariant forall a, b | 0 <= a < b < |texts| && a < i :: Covers(texts, bestN, |bestSuffix|, a, b)
    {
      for j := i + 1 to |texts|
        invariant RealCluster(texts, bestN, bestSuffix)
        invariant forall a, b | 0 <= a < b < |texts| && (a < i || (a == i && b < j)) :: Covers(texts, bestN, |bestSuffix|, a, b)
      {
        var suffix := CommonSuffix(texts[i], texts[j]);
        if |suffix| >= MIN_SUFFIX {
          var n := CountEnding(texts, suffix);
          PairCounts(texts, suffix, i, j);
          if n > bestN || (n == bestN && |suffix| > |bestSuffix|) {
            CoversImproves(texts, bestN, |bestSuffix|, n, |suffix|, i, j);
            bestN, bestSuffix := n, suffix;
          }
        }
      }
    }
    PairsSuffice(texts, bestN, |bestSuffix|);
  }

  lemma {:induction false} PairCounts(texts: seq<Text>, suffix: seq<byte>, i: nat, j: nat)
    requires i < j < |texts| && EndsWith(texts[i], suffix) && EndsWith(texts[j], suffix)
    ensures CountEnding(texts, suffix) >= 2
  {
    var n := |texts| - 1;
    if j < n { PairCounts(texts[..n], suffix, i, j); } else { OneCounts(texts[..n], suffix, i); }
  }

  lemma {:induction false} OneCounts(texts: seq<Text>, suffix: seq<byte>, i: nat)
    requires i < |texts| && EndsWith(texts[i], suffix)
    ensures CountEnding(texts, suffix) >= 1
  {
    var n := |texts| - 1;
    if i < n { OneCounts(texts[..n], suffix, i); }
  }

  // ----- the byte split and the floor

  function TotalBytes(beads: seq<BeadBody>): nat {
    if beads == [] then 0 else TotalBytes(beads[..|beads| - 1]) + |beads[|beads| - 1].acceptance|
  }

  /** `saturating_mul` ends at `word`, the largest `usize` of the machine. */
  function Saturate(x: nat, word: nat): nat { if x <= word then x else word }

  function SpecificMilli(specific: nat, total: nat, word: nat): nat {
    if total == 0 then 0
    else
      var q := Saturate(specific * 1000, word) / total;
      if q <= 0xFFFF_FFFF then q else 0
  }

  /** How the cluster grows by one bead. */
  lemma ClusterStep(beads: seq<BeadBody>, suffix: seq<byte>, k: nat)
    requires k < |beads| && suffix != []
    ensures CountEnding(Nonempty(beads[..k + 1]), suffix) ==
            CountEnding(Nonempty(beads[..k]), suffix) + if EndsWith(beads[k].acceptance, suffix) then 1 else 0
  {
    assert beads[..k + 1][..k] == beads[..k];
    var texts := Nonempty(beads[..k]);
    assert (texts + [beads[k].acceptance])[..|texts|] == texts;
  }

  lemma NothingCounted(suffix: seq<byte>)
    ensures CountEnding([], suffix) == 0
  {
  }

  lemma OneMoreMember(members: nat, n: nat)
    ensures (members + 1) * n == members * n + n
  {
  }

  /** The `specific` loop: every cluster member gives up exactly the suffix. */
  method SplitBytes(beads: seq<BeadBody>, suffix: seq<byte>) returns (specific: nat)
    ensures specific + (if suffix == [] then 0 else CountEnding(Nonempty(beads), suffix) * |suffix|) == TotalBytes(beads)
  {
    hide CountEnding;
    specific := 0;
    ghost var members := 0;
    NothingCounted(suffix);
    for k := 0 to |beads|
      invariant suffix != [] ==> members == CountEnding(Nonempty(beads[..k]), suffix)
      invariant suffix == [] ==> members == 0
      invariant specific + members * |suffix| == TotalBytes(beads[..k])
    {
      assert beads[..k + 1][..k] == beads[..k];
      if suffix != [] { ClusterStep(beads, suffix, k); }
      if suffix != [] && EndsWith(beads[k].acceptance, suffix) {
        specific := specific + (|beads[k].acceptance| - |suffix|);
        OneMoreMember(members, |suffix|);
        members := members + 1;
      } else {
        specific := specific + |beads[k].acceptance|;
      }
    }
    assert beads[..|beads|] == beads;
  }

  lemma ClusterBytes(beads: seq<BeadBody>, n: nat, suffix: seq<byte>)
    requires RealCluster(Nonempty(beads), n, suffix)
    ensures n * |suffix| == if suffix == [] then 0 else CountEnding(Nonempty(beads), suffix) * |suffix|
  {
  }

  /** What a report owes its corpus, on a machine whose `usize` ends at `word`. */
  ghost predicate Measured(beads: seq<BeadBody>, word: nat, f: FamilyReport) {
    && f.beadCount == |beads| && f.floorMilli == FLOOR_MILLI
    && f.total == TotalBytes(beads)
    && f.specific + f.boilerplate == f.total
    && f.boilerplate == f.clusterSize * f.clusterSuffixBytes
    && f.specificMilli == SpecificMilli(f.specific, f.total, word)
    && exists suffix: seq<byte> ::
      && |suffix| == f.clusterSuffixBytes
      && RealCluster(Nonempty(beads), f.clusterSize, suffix)
      && Optimal(Nonempty(beads), f.clusterSize, |suffix|)
  }

  method MeasureFamily(beads: seq<BeadBody>, word: nat) returns (r: Result<FamilyReport, Vacuity>)
    ensures r.Err? <==> beads == []
    ensures r.Ok? ==> Measured(beads, word, r.value)
  {
    hide RealCluster, Optimal, CountEnding;
    if beads == [] { return Err(EmptySet); }
    var total := TotalBytes(beads);
    var clusterSize, suffix := LargestSuffixCluster(beads);
    var specific := SplitBytes(beads, suffix);
    var boilerplate := if total >= specific then total - specific else 0;
    ClusterBytes(beads, clusterSize, suffix);
    return Ok(FamilyReport(|beads|, total, specific, boilerplate, SpecificMilli(specific, total, word), FLOOR_MILLI,
                           clusterSize, |suffix|));
  }

  /**
   On non-empty text the integer gate decides the exact fraction, except in one
   band: when the multiplication saturates and the true share is at or above the
   floor, the saturated quotient still reads as below it.
   */
  lemma FloorIsExact(specific: nat, total: nat, word: nat)
    requires 0 < total && specific <= total
    ensures (SpecificMilli(specific, total, word) < FLOOR_MILLI <==> 1000 * specific < FLOOR_MILLI * total)
            <==> !(word < FLOOR_MILLI * total <= 1000 * specific)
  {
    var x := Saturate(specific * 1000, word);
    var q := x / total;
    QuotientBelow(x, total, FLOOR_MILLI);
    QuotientBelow(x, total, 1001);
    assert x <= 1000 * specific <= 1000 * total < 1001 * total;
  }

  /** The share a report prints is the exact one in thousandths, rounded down; once the product saturates, the same of the largest word. */
  lemma ShareIsExact(specific: nat, total: nat, word: nat)
    requires 0 < total && specific <= total
    ensures
      var milli := SpecificMilli(specific, total, word);
      var product := if 1000 * specific <= word then 1000 * specific else word;
      milli <= 1000 && milli * total <= product < (milli + 1) * total
  {
    var x := Saturate(specific * 1000, word);
    QuotientBelow(x, total, 1001);
    QuotientBelow(x, total, x / total + 1);
    QuotientBelow(x, total, x / total);
    assert x <= 1000 * specific <= 1000 * total < 1001 * total;
  }

  /** The report's own gate: no text is below the floor, any other corpus exactly when its specific share is, outside the band. */
  lemma GateIsExact(beads: seq<BeadBody>, word: nat, f: FamilyReport)
    requires Measured(beads, word, f)
    ensures f.total == 0 ==> f.BelowFloor()
    ensures f.total > 0 ==>
      ((f.BelowFloor() <==> 1000 * f.specific < FLOOR_MILLI * f.total) <==> !(word < FLOOR_MILLI * f.total <= 1000 * f.specific))
  {
    hide RealCluster, Optimal, SpecificMilli;
    if f.total > 0 { FloorIsExact(f.specific, f.total, word); } else { NoTextReadsZero(word); }
  }

  lemma NoTextReadsZero(word: nat)
    ensures SpecificMilli(0, 0, word) == 0
  {
  }

  /** A single bead shares nothing, so all its bytes are specific; still it reads as below the floor once it is long enough. */
  lemma LoneBeadIsBelowFloorIff(bead: BeadBody, word: nat, f: FamilyReport)
    requires Measured([bead], word, f) && bead.acceptance != []
    ensures f.specific == f.total == |bead.acceptance|
    ensures f.BelowFloor() <==> word < FLOOR_MILLI * |bead.acceptance|
  {
    LoneBeadHasNoCluster(bead, f.clusterSize, f.clusterSuffixBytes);
    assert TotalBytes([bead]) == |bead.acceptance| by { assert [bead][..0] == []; }
    GateIsExact([bead], word, f);
  }

  lemma LoneBeadHasNoCluster(bead: BeadBody, n: nat, len: nat)
    requires exists suffix: seq<byte> :: |suffix| == len && RealCluster(Nonempty([bead]), n, suffix)
    ensures n * len == 0
  {
    var suffix: seq<byte> :| |suffix| == len && RealCluster(Nonempty([bead]), n, suffix);
    assert [bead][..0] == [] && |Nonempty([bead])| <= 1;
    CountIsBounded(Nonempty([bead]), suffix);
  }

  lemma {:induction false} CountIsBounded(texts: seq<Text>, suffix: seq<byte>)
    ensures CountEnding(texts, suffix) <= |texts|
  {
    if texts != [] { CountIsBounded(texts[..|texts| - 1], suffix); }
  }

  const WORD_32: nat := 0xFFFF_FFFF
  const OVERSIZED: nat := 12_000_000

  /** The band is real: on a 32-bit machine one acceptance text of twelve megabytes, wholly specific, reads as below the floor. */
  method SaturationMisreads() returns (beads: seq<BeadBody>, f: FamilyReport)
    ensures |beads| == 1 && f.total == OVERSIZED && Measured(beads, WORD_32, f)
    ensures f.BelowFloor() && f.specific == f.total
  {
    var text := seq(OVERSIZED, _ => 97 as byte);
    var bead := BeadBody("oversized", text);
    beads := [bead];
    var r := MeasureFamily(beads, WORD_32);
    f := r.value;
    LoneBeadIsBelowFloorIff(bead, WORD_32, f);
  }

  lemma QuotientBelow(x: nat, d: nat, k: nat)
    requires d > 0
    ensures x / d < k <==> x < k * d
  {
    var q := x / d;
    assert q * d <= x < (q + 1) * d;
    if q < k { Scales(q + 1, k, d); } else { Scales(k, q, d); }
  }

  lemma Scales(a: nat, b: nat, d: nat)
    requires a <= b
    ensures a * d <= b * d
  {
  }
}
