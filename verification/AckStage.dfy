/**
 The ack stage: which tracker row answers a dispatch, how transport, receiver
 and tracker evidence combine, and the bounded retry.  The receiver's own
 verdict is an input.
 */
module AckStage {
  import opened Wrappers
  import opened Text
  import Receipt
  import SpineModel

  const MAX_RETRY_ATTEMPTS: nat := 3
  const DASHES := " -- "

  datatype Comment = Comment(text: string, createdAt: Option<nat>)

  datatype Readback = Readback(beadId: string, paneId: string, comments: seq<Comment>, dispatchIssuedAt: Option<nat>)

  datatype ReadbackVerdict = Matched(comment: string) | Missing | AckPaneMismatch(expected: string, got: string)

  /** The question asked of a read-back. */
  datatype Query = Query(beadId: string, paneId: string, session: seq<string>)

  // ----- which rows count

  function AckToken(beadId: string): string { LastSegment(beadId, '-') }

  function AckHead(beadId: string): string { "ACK " + AckToken(beadId) + " on " }

  /** The pane named between the head and the first delimiter. */
  function PaneAfter(text: string, head: string): Option<string> {
    if !StartsWith(text, head) then None
    else
      var parts := SplitOnce(text[|head|..], DASHES);
      if parts.None? then None else Some(parts.value.0)
  }

  /** The pane a well-formed ACK row for the bead names. */
  function AckedPane(text: string, beadId: string): Option<string> { PaneAfter(text, AckHead(beadId)) }

  predicate IsFresh(issuedAt: Option<nat>, createdAt: Option<nat>) {
    issuedAt.None? || (createdAt.Some? && createdAt.value > issuedAt.value)
  }

  /** What one row that counts says. */
  datatype Sighting = Sighting(stamp: nat, pane: string, text: string)

  function Stamp(c: Comment): nat { if c.createdAt.Some? then c.createdAt.value else 0 }

  /** A well-formed, fresh, in-session ACK row; any other row is no sighting. */
  function Sight(issuedAt: Option<nat>, q: Query, c: Comment): Option<Sighting> {
    var pane := AckedPane(c.text, q.beadId);
    if pane.Some? && IsFresh(issuedAt, c.createdAt) && (pane.value == q.paneId || pane.value in q.session)
    then Some(Sighting(Stamp(c), pane.value, c.text))
    else None
  }

  predicate Counts(issuedAt: Option<nat>, q: Query, c: Comment) { Sight(issuedAt, q, c).Some? }

  function Sights(issuedAt: Option<nat>, q: Query, cs: seq<Comment>): (r: seq<Option<Sighting>>)
    ensures |r| == |cs| && forall i | 0 <= i < |cs| :: r[i] == Sight(issuedAt, q, cs[i])
  {
    seq(|cs|, i requires 0 <= i < |cs| => Sight(issuedAt, q, cs[i]))
  }

  predicate Precedes(a: nat, i: nat, b: nat, j: nat) { a < b || (a == b && i <= j) }

  /** The greatest (timestamp, index) among the rows that count. */
  ghost predicate IsNewest(seen: seq<Option<Sighting>>, k: nat) {
    && k < |seen| && seen[k].Some?
    && forall j | 0 <= j < |seen| && seen[j].Some? :: Precedes(seen[j].value.stamp, j, seen[k].value.stamp, k)
  }

  function Newest(seen: seq<Option<Sighting>>): (r: Option<nat>)
    ensures r.None? <==> forall j | 0 <= j < |seen| :: seen[j].None?
    ensures r.Some? ==> IsNewest(seen, r.value)
  {
    if seen == [] then None
    else
      var n := |seen| - 1;
      var before := Newest(seen[..n]);
      assert forall j | 0 <= j < n :: seen[j] == seen[..n][j];
      if seen[n].Some? && (before.None? || seen[before.value].value.stamp <= seen[n].value.stamp) then Some(n) else before
  }

  function Judge(q: Query, s: Sighting): ReadbackVerdict {
    if s.pane == q.paneId then Matched(s.text) else AckPaneMismatch(q.paneId, s.pane)
  }

  function Verdict(r: Readback, q: Query): ReadbackVerdict {
    if r.beadId != q.beadId then Missing
    else
      var seen := Sights(r.dispatchIssuedAt, q, r.comments);
      var k := Newest(seen);
      if k.None? then Missing else Judge(q, seen[k.value].value)
  }

  /** `match_verdict_in_session`: one pass, keeping the newest row so far. */
  method MatchVerdictInSession(r: Readback, q: Query) returns (v: ReadbackVerdict)
    ensures v == Verdict(r, q)
    ensures v.Missing? <==> r.beadId != q.beadId || forall c | c in r.comments :: !Counts(r.dispatchIssuedAt, q, c)
    ensures
      var seen := Sights(r.dispatchIssuedAt, q, r.comments);
      !v.Missing? ==> exists k: nat :: IsNewest(seen, k) && v == Judge(q, seen[k].value)
  {
    if r.beadId != q.beadId { return Missing; }
    ghost var seen := Sights(r.dispatchIssuedAt, q, r.comments);
    var head := AckHead(q.beadId);
    var newest: Option<(nat, nat, string, string)> := None;
    for index := 0 to |r.comments|
      invariant Kept(seen[..index], newest)
    {
      var c := r.comments[index];
      KeptMoves(seen, index, newest);
      if !StartsWith(c.text, head) { continue; }
      var parts := SplitOnce(c.text[|head|..], DASHES);
      if parts.None? || !IsFresh(r.dispatchIssuedAt, c.createdAt) { continue; }
      var got := parts.value.0;
      if got != q.paneId && got !in q.session { continue; }
      var ts := if c.createdAt.Some? then c.createdAt.value else 0;
      assert seen[index] == Some(Sighting(ts, got, c.text));
      if newest.None? || ts > newest.value.0 || (ts == newest.value.0 && index > newest.value.1) {
        newest := Some((ts, index, got, c.text));
      }
    }
    assert seen[..|seen|] == seen;
    KeptAnswers(r, q, newest);
    if newest.None? { return Missing; }
    var (_, _, got, text) := newest.value;
    return if got == q.paneId then Matched(text) else AckPaneMismatch(q.paneId, got);
  }

  /** The loop's variable: timestamp, index, pane and text of the newest sighting. */
  type Best = Option<(nat, nat, string, string)>

  ghost predicate Kept(seen: seq<Option<Sighting>>, newest: Best) {
    var k := Newest(seen);
    if k.None? then newest.None?
    else newest == Some((seen[k.value].value.stamp, k.value, seen[k.value].value.pane, seen[k.value].value.text))
  }

  lemma KeptMoves(seen: seq<Option<Sighting>>, index: nat, newest: Best)
    requires index < |seen| && Kept(seen[..index], newest)
    ensures newest.Some? ==> newest.value.1 < index
    ensures seen[index].None? ==> Kept(seen[..index + 1], newest)
    ensures seen[index].Some? ==>
      var s := seen[index].value;
      Kept(seen[..index + 1], if newest.None? || s.stamp >= newest.value.0 then Some((s.stamp, index, s.pane, s.text)) else newest)
  {
    assert seen[..index + 1][..index] == seen[..index];
    assert seen[..index + 1][index] == seen[index];
  }

  lemma KeptAnswers(r: Readback, q: Query, newest: Best)
    requires r.beadId == q.beadId && Kept(Sights(r.dispatchIssuedAt, q, r.comments), newest)
    ensures newest.None? ==> Verdict(r, q) == Missing && forall c | c in r.comments :: !Counts(r.dispatchIssuedAt, q, c)
    ensures newest.Some? ==>
      var (_, index, got, text) := newest.value;
      && IsNewest(Sights(r.dispatchIssuedAt, q, r.comments), index)
      && Verdict(r, q) == Judge(q, Sights(r.dispatchIssuedAt, q, r.comments)[index].value)
      && Verdict(r, q) == (if got == q.paneId then Matched(text) else AckPaneMismatch(q.paneId, got))
      && r.comments[index] in r.comments && Counts(r.dispatchIssuedAt, q, r.comments[index])
  {
    var seen := Sights(r.dispatchIssuedAt, q, r.comments);
    forall c | newest.None? && c in r.comments ensures !Counts(r.dispatchIssuedAt, q, c) {
      var i := FindRow(r.comments, c);
      assert seen[i].None?;
    }
  }

  // ----- what the verdict depends on

  lemma NewestIs(seen: seq<Option<Sighting>>, k: nat)
    requires IsNewest(seen, k)
    ensures Newest(seen) == Some(k)
  {
  }

  ghost predicate Widened(seen: seq<Option<Sighting>>, wide: seq<Option<Sighting>>, i: nat) {
    && i <= |seen| && |wide| == |seen| + 1 && wide[i].None?
    && (forall j | 0 <= j < i :: wide[j] == seen[j])
    && (forall j | i < j < |wide| :: wide[j] == seen[j - 1])
  }

  lemma GapChangesNothing(seen: seq<Option<Sighting>>, wide: seq<Option<Sighting>>, i: nat)
    requires Widened(seen, wide, i)
    ensures
      var k, m := Newest(seen), Newest(wide);
      if k.None? then m.None? else m.Some? && wide[m.value] == seen[k.value]
  {
    var k := Newest(seen);
    if k.Some? {
      var moved := if k.value < i then k.value else k.value + 1;
      assert wide[moved] == seen[k.value];
      forall j | 0 <= j < |wide| && wide[j].Some? ensures Precedes(wide[j].value.stamp, j, wide[moved].value.stamp, moved) {
        var from := if j < i then j else j - 1;
        assert wide[j] == seen[from];
      }
      NewestIs(wide, moved);
    }
  }

  function Inserted(cs: seq<Comment>, i: nat, c: Comment): (ds: seq<Comment>)
    requires i <= |cs|
    ensures |ds| == |cs| + 1 && ds[i] == c
    ensures forall j | 0 <= j < i :: ds[j] == cs[j]
    ensures forall j | i < j < |ds| :: ds[j] == cs[j - 1]
  {
    cs[..i] + [c] + cs[i..]
  }

  /** Putting in, or taking out, a row that does not count changes nothing. */
  lemma OnlyCountingRowsMatter(r: Readback, q: Query, i: nat, c: Comment)
    requires i <= |r.comments| && !Counts(r.dispatchIssuedAt, q, c)
    ensures Verdict(r.(comments := Inserted(r.comments, i, c)), q) == Verdict(r, q)
  {
    var seen, wide := Sights(r.dispatchIssuedAt, q, r.comments), Sights(r.dispatchIssuedAt, q, Inserted(r.comments, i, c));
    assert Widened(seen, wide, i);
    GapChangesNothing(seen, wide, i);
  }

  /** Rows of one timestamp say the same thing. */
  ghost predicate TiesAgree(seen: seq<Option<Sighting>>) {
    forall i, j | 0 <= i < |seen| && 0 <= j < |seen| && seen[i].Some? && seen[j].Some? ::
      seen[i].value.stamp == seen[j].value.stamp ==> seen[i] == seen[j]
  }

  /** The order of the list only ever breaks ties between rows of one timestamp. */
  lemma OrderOnlyBreaksTies(r: Readback, q: Query, ds: seq<Comment>)
    requires forall c :: c in ds <==> c in r.comments
    requires TiesAgree(Sights(r.dispatchIssuedAt, q, r.comments))
    ensures Verdict(r.(comments := ds), q) == Verdict(r, q)
  {
    var seen, other := Sights(r.dispatchIssuedAt, q, r.comments), Sights(r.dispatchIssuedAt, q, ds);
    forall i | 0 <= i < |other| ensures other[i] in seen {
      var k := FindRow(r.comments, ds[i]);
      assert seen[k] == other[i];
    }
    forall i | 0 <= i < |seen| ensures seen[i] in other {
      var k := FindRow(ds, r.comments[i]);
      assert other[k] == seen[i];
    }
    SameSightingsSameNewest(seen, other);
  }

  lemma SameSightingsSameNewest(seen: seq<Option<Sighting>>, other: seq<Option<Sighting>>)
    requires TiesAgree(seen)
    requires forall i | 0 <= i < |other| :: other[i] in seen
    requires forall i | 0 <= i < |seen| :: seen[i] in other
    ensures Newest(seen).None? <==> Newest(other).None?
    ensures Newest(seen).Some? ==> seen[Newest(seen).value] == other[Newest(other).value]
  {
    var k, j := Newest(seen), Newest(other);
    if k.Some? {
      var a :| 0 <= a < |other| && other[a] == seen[k.value];
      assert j.Some?;
      var b :| 0 <= b < |seen| && seen[b] == other[j.value];
      assert Precedes(other[a].value.stamp, a, other[j.value].value.stamp, j.value);
      assert Precedes(seen[b].value.stamp, b, seen[k.value].value.stamp, k.value);
    }
  }

  lemma FindRow(cs: seq<Comment>, c: Comment) returns (i: nat)
    requires c in cs
    ensures i < |cs| && cs[i] == c
  {
    i :| i < |cs| && cs[i] == c;
  }

  /** A row no later than the dispatch it would answer never changes the verdict. */
  lemma StaleRowsDoNotMatter(r: Readback, q: Query, i: nat, c: Comment)
    requires i <= |r.comments| && r.dispatchIssuedAt.Some?
    requires c.createdAt.None? || c.createdAt.value <= r.dispatchIssuedAt.value
    ensures Verdict(r.(comments := Inserted(r.comments, i, c)), q) == Verdict(r, q)
  {
    hide AckedPane, Verdict, Inserted;
    OnlyCountingRowsMatter(r, q, i, c);
  }

  /**
   An acknowledgement posted after the dispatch and after every other row decides: the
   pane's own is the match, another pane's of the session a mismatch.
   */
  lemma FreshAckDecides(r: Readback, q: Query, pane: string, rest: string, at: nat)
    requires r.beadId == q.beadId && CleanPane(pane) && (r.dispatchIssuedAt.Some? ==> at > r.dispatchIssuedAt.value)
    requires forall c | c in r.comments && c.createdAt.Some? :: c.createdAt.value <= at
    requires pane == q.paneId || pane in q.session
    ensures
      var text := AckPrefix(q.beadId, pane) + rest;
      Verdict(r.(comments := r.comments + [Comment(text, Some(at))]), q)
      == if pane == q.paneId then Matched(text) else AckPaneMismatch(q.paneId, pane)
  {
    var text := AckPrefix(q.beadId, pane) + rest;
    var c := Comment(text, Some(at));
    assert StartsWith(text, AckPrefix(q.beadId, pane));
    NamedIffPrefixed(text, q.beadId, pane);
    assert Sight(r.dispatchIssuedAt, q, c) == Some(Sighting(at, pane, text)) by { hide AckedPane, AckPrefix, CleanPane; }
    hide AckedPane, AckPrefix, CleanPane, Newest, IsFresh, StartsWith;
    var seen, n := Sights(r.dispatchIssuedAt, q, r.comments + [c]), |r.comments|;
    forall j | 0 <= j < |seen| && seen[j].Some? ensures Precedes(seen[j].value.stamp, j, at, n) {
      if j < n { assert (r.comments + [c])[j] in r.comments; }
    }
    assert seen[n] == Sight(r.dispatchIssuedAt, q, c);
    NewestIs(seen, n);
  }

  /** A row that names a pane of neither the query nor its session changes nothing. */
  lemma OutsidersDoNotMatter(r: Readback, q: Query, i: nat, c: Comment)
    requires i <= |r.comments| && forall pane | pane == q.paneId || pane in q.session :: !StartsWith(c.text, AckPrefix(q.beadId, pane))
    ensures Verdict(r.(comments := Inserted(r.comments, i, c)), q) == Verdict(r, q)
  {
    hide Verdict, Inserted, AckPrefix, CleanPane, IsFresh, PaneAfter, StartsWith;
    if AckedPane(c.text, q.beadId).Some? { NamedIffPrefixed(c.text, q.beadId, AckedPane(c.text, q.beadId).value); }
    OnlyCountingRowsMatter(r, q, i, c);
  }

  // ----- the second reader

  function AckPrefix(beadId: string, paneId: string): string { AckHead(beadId) + (paneId + DASHES) }

  function FirstMatching(issuedAt: Option<nat>, prefix: string, cs: seq<Comment>): (r: Option<string>)
    ensures r.None? <==> forall c | c in cs :: !(StartsWith(c.text, prefix) && IsFresh(issuedAt, c.createdAt))
    ensures r.Some? ==> exists c :: c in cs && c.text == r.value && StartsWith(c.text, prefix) && IsFresh(issuedAt, c.createdAt)
  {
    if cs == [] then None
    else if StartsWith(cs[0].text, prefix) && IsFresh(issuedAt, cs[0].createdAt) then Some(cs[0].text)
    else
      assert cs == [cs[0]] + cs[1..];
      FirstMatching(issuedAt, prefix, cs[1..])
  }

  function MatchingCommentFor(r: Readback, beadId: string, paneId: string): Option<string> {
    if r.beadId != beadId || r.paneId != paneId then None
    else FirstMatching(r.dispatchIssuedAt, AckPrefix(beadId, paneId), r.comments)
  }

  /** The second reader answers for the read-back's own bead and pane alone, and there exactly when a fresh row has the prefix. */
  lemma SecondReaderIsBound(r: Readback, beadId: string, paneId: string)
    ensures MatchingCommentFor(r, beadId, paneId).Some? <==>
      r.beadId == beadId && r.paneId == paneId
      && exists c :: c in r.comments && StartsWith(c.text, AckPrefix(beadId, paneId)) && IsFresh(r.dispatchIssuedAt, c.createdAt)
  {
    hide StartsWith, AckPrefix, IsFresh;
  }

  /** The first delimiter after the pane id is the one the writer put there. */
  predicate CleanPane(paneId: string) { Find(paneId + DASHES, DASHES) == Some(|paneId|) }

  lemma MatchInPrefix(a: string, b: string, j: nat)
    requires j + |DASHES| <= |a|
    ensures MatchesAt(a + b, j, DASHES) <==> MatchesAt(a, j, DASHES)
  {
    assert (a + b)[j..j + |DASHES|] == a[j..j + |DASHES|];
  }

  /** A row names the pane exactly when it has the pane's prefix and the pane is clean. */
  lemma NamedIffPrefixed(text: string, beadId: string, paneId: string)
    ensures AckedPane(text, beadId) == Some(paneId) <==> StartsWith(text, AckPrefix(beadId, paneId)) && CleanPane(paneId)
  {
    NamedAfterHead(text, AckHead(beadId), paneId);
  }

  lemma NamedAfterHead(text: string, head: string, paneId: string)
    ensures PaneAfter(text, head) == Some(paneId) <==> StartsWith(text, head + (paneId + DASHES)) && CleanPane(paneId)
  {
    var tail := paneId + DASHES;
    PrefixAfterHead(text, head, tail);
    if StartsWith(text, head) { NamedInRest(text[|head|..], paneId); }
  }

  lemma PrefixAfterHead(text: string, head: string, tail: string)
    ensures StartsWith(text, head + tail) <==> StartsWith(text, head) && StartsWith(text[|head|..], tail)
  {
    var whole := head + tail;
    if StartsWith(text, whole) {
      assert text[..|head|] == text[..|whole|][..|head|] == head;
      assert text[|head|..][..|tail|] == text[..|whole|][|head|..] == tail;
    }
    if StartsWith(text, head) && StartsWith(text[|head|..], tail) {
      assert text[..|whole|] == text[..|head|] + text[|head|..][..|tail|];
    }
  }

  lemma NamedInRest(rest: string, paneId: string)
    ensures (Find(rest, DASHES).Some? && rest[..Find(rest, DASHES).value] == paneId)
        <==> (StartsWith(rest, paneId + DASHES) && CleanPane(paneId))
  {
    var whole := paneId + DASHES;
    var n := |paneId|;
    if StartsWith(rest, whole) {
      assert rest == whole + rest[|whole|..];
      forall j: nat | j <= n ensures MatchesAt(rest, j, DASHES) <==> MatchesAt(whole, j, DASHES) { MatchInPrefix(whole, rest[|whole|..], j); }
      assert MatchesAt(whole, n, DASHES);
      assert MatchesAt(rest, n, DASHES);
      if CleanPane(paneId) { FindIs(rest, DASHES, Some(n)); }
    }
    var i := Find(rest, DASHES);
    if i.Some? && rest[..i.value] == paneId {
      assert i.value == n;
      assert rest[..n + |DASHES|] == rest[..n] + rest[n..n + |DASHES|];
      assert StartsWith(rest, whole);
      FindIs(whole, DASHES, Some(n));
    }
  }

  /** On a bound read-back a match is always visible to the second reader too. */
  lemma MatchedIsFound(r: Readback, q: Query)
    requires r.paneId == q.paneId && Verdict(r, q).Matched?
    ensures MatchingCommentFor(r, q.beadId, q.paneId).Some?
  {
    hide Find, SplitOnce, StartsWith, MatchesAt, LastSegment;
    var k := Newest(Sights(r.dispatchIssuedAt, q, r.comments)).value;
    NamedIffPrefixed(r.comments[k].text, q.beadId, q.paneId);
    assert r.comments[k] in r.comments;
  }

  lemma FoundCounts(r: Readback, q: Query) returns (k: nat)
    requires CleanPane(q.paneId) && MatchingCommentFor(r, q.beadId, q.paneId).Some?
    ensures k < |r.comments| && Counts(r.dispatchIssuedAt, q, r.comments[k])
  {
    var c :| c in r.comments && StartsWith(c.text, AckPrefix(q.beadId, q.paneId)) && IsFresh(r.dispatchIssuedAt, c.createdAt);
    NamedIffPrefixed(c.text, q.beadId, q.paneId);
    k := FindRow(r.comments, c);
  }

  lemma AloneNothingMismatches(r: Readback, q: Query)
    requires q.session == []
    ensures !Verdict(r, q).AckPaneMismatch?
    ensures (exists k :: 0 <= k < |r.comments| && Counts(r.dispatchIssuedAt, q, r.comments[k])) && r.beadId == q.beadId ==> Verdict(r, q).Matched?
  {
    hide AckedPane, IsFresh;
    var seen := Sights(r.dispatchIssuedAt, q, r.comments);
    var k := Newest(seen);
    if k.Some? { assert seen[k.value] == Sight(r.dispatchIssuedAt, q, r.comments[k.value]); }
    forall i | 0 <= i < |r.comments| && Counts(r.dispatchIssuedAt, q, r.comments[i]) ensures k.Some? { assert seen[i].Some?; }
  }

  /** The first row that counts. */
  ghost predicate IsFirst(seen: seq<Option<Sighting>>, f: nat) {
    f < |seen| && seen[f].Some? && forall j | 0 <= j < f :: seen[j].None?
  }

  /** Alone in its session, a clean pane's rows are exactly the fresh ones with its prefix. */
  lemma AloneCounts(issuedAt: Option<nat>, q: Query, c: Comment)
    requires q.session == [] && CleanPane(q.paneId)
    ensures Counts(issuedAt, q, c) <==> StartsWith(c.text, AckPrefix(q.beadId, q.paneId)) && IsFresh(issuedAt, c.createdAt)
    ensures Counts(issuedAt, q, c) ==> Sight(issuedAt, q, c) == Some(Sighting(Stamp(c), q.paneId, c.text))
  {
    NamedIffPrefixed(c.text, q.beadId, q.paneId);
    hide AckedPane, StartsWith, AckPrefix, CleanPane;
  }

  lemma {:induction false} FirstMatchingIsFirst(issuedAt: Option<nat>, q: Query, cs: seq<Comment>, f: nat)
    requires q.session == [] && CleanPane(q.paneId) && IsFirst(Sights(issuedAt, q, cs), f)
    ensures FirstMatching(issuedAt, AckPrefix(q.beadId, q.paneId), cs) == Some(cs[f].text)
  {
    hide Sight, Sights, StartsWith, AckPrefix, CleanPane, IsFresh;
    AloneCounts(issuedAt, q, cs[0]);
    var seen := Sights(issuedAt, q, cs);
    assert seen[0] == Sight(issuedAt, q, cs[0]);
    if f > 0 {
      var rest := Sights(issuedAt, q, cs[1..]);
      assert rest == seen[1..];
      FirstMatchingIsFirst(issuedAt, q, cs[1..], f - 1);
    }
  }

  /**
   Alone in its session, a clean pane has a row for one reader exactly when it has one
   for the other; the second reader returns the first such row, the verdict the newest.
   */
  lemma ReadersAgreeAlone(r: Readback, q: Query)
    requires r.paneId == q.paneId && q.session == [] && CleanPane(q.paneId)
    ensures Verdict(r, q).Matched? <==> MatchingCommentFor(r, q.beadId, q.paneId).Some?
    ensures Verdict(r, q).Matched? ==> exists f: nat, k: nat ::
      var seen := Sights(r.dispatchIssuedAt, q, r.comments);
      && IsFirst(seen, f) && MatchingCommentFor(r, q.beadId, q.paneId) == Some(r.comments[f].text)
      && IsNewest(seen, k) && Verdict(r, q) == Matched(r.comments[k].text)
  {
    AloneNothingMismatches(r, q);
    if Verdict(r, q).Matched? {
      MatchedIsFound(r, q);
      var f, k := ReadersReturn(r, q);
    }
    if MatchingCommentFor(r, q.beadId, q.paneId).Some? { var k := FoundCounts(r, q); }
  }

  lemma ReadersReturn(r: Readback, q: Query) returns (f: nat, k: nat)
    requires r.paneId == q.paneId && q.session == [] && CleanPane(q.paneId) && Verdict(r, q).Matched?
    ensures
      var seen := Sights(r.dispatchIssuedAt, q, r.comments);
      && IsFirst(seen, f) && MatchingCommentFor(r, q.beadId, q.paneId) == Some(r.comments[f].text)
      && IsNewest(seen, k) && Verdict(r, q) == Matched(r.comments[k].text)
  {
    var seen := Sights(r.dispatchIssuedAt, q, r.comments);
    k := Newest(seen).value;
    AloneCounts(r.dispatchIssuedAt, q, r.comments[k]);
    f := FirstSeen(seen, k);
    FirstMatchingIsFirst(r.dispatchIssuedAt, q, r.comments, f);
  }

  lemma {:induction false} FirstSeen(seen: seq<Option<Sighting>>, k: nat) returns (f: nat)
    requires k < |seen| && seen[k].Some?
    ensures IsFirst(seen, f) && f <= k
    decreases k
  {
    if forall j | 0 <= j < k :: seen[j].None? {
      f := k;
    } else {
      var j :| 0 <= j < k && seen[j].Some?;
      f := FirstSeen(seen, j);
    }
  }

  /**
   When they return the same comment: exactly when the first row and the newest say
   the same, which between rows of different texts means that every later row is older.
   */
  lemma ReadersCoincideIff(r: Readback, q: Query, f: nat, k: nat)
    requires r.paneId == q.paneId && r.beadId == q.beadId && q.session == [] && CleanPane(q.paneId)
    requires IsFirst(Sights(r.dispatchIssuedAt, q, r.comments), f) && IsNewest(Sights(r.dispatchIssuedAt, q, r.comments), k)
    ensures
      var seen := Sights(r.dispatchIssuedAt, q, r.comments);
      var same := Verdict(r, q).Matched? && MatchingCommentFor(r, q.beadId, q.paneId) == Some(Verdict(r, q).comment);
      && (same <==> r.comments[f].text == r.comments[k].text)
      && (TextsDiffer(seen) ==> (same <==> forall j | f < j < |seen| && seen[j].Some? :: seen[j].value.stamp < seen[f].value.stamp))
  {
    hide Newest, Sight, Sights, FirstMatching, CleanPane, AckPrefix, IsFresh, StartsWith;
    var seen := Sights(r.dispatchIssuedAt, q, r.comments);
    NewestIs(seen, k);
    AloneCounts(r.dispatchIssuedAt, q, r.comments[k]);
    AloneCounts(r.dispatchIssuedAt, q, r.comments[f]);
    FirstMatchingIsFirst(r.dispatchIssuedAt, q, r.comments, f);
    assert seen[f] == Sight(r.dispatchIssuedAt, q, r.comments[f]) && seen[k] == Sight(r.dispatchIssuedAt, q, r.comments[k]);
  }

  /** No two rows that count have one text. */
  ghost predicate TextsDiffer(seen: seq<Option<Sighting>>) {
    forall i, j | 0 <= i < j < |seen| && seen[i].Some? && seen[j].Some? :: seen[i].value.text != seen[j].value.text
  }

  /** Two acknowledgements in the tracker's own order, oldest first, get two answers. */
  lemma OldestFirstParts(q: Query, a: string, b: string, t: nat)
    requires q.session == [] && CleanPane(q.paneId) && a != b
    ensures
      var prefix := AckPrefix(q.beadId, q.paneId);
      var r := Readback(q.beadId, q.paneId, [Comment(prefix + a, Some(t)), Comment(prefix + b, Some(t + 1))], None);
      MatchingCommentFor(r, q.beadId, q.paneId) == Some(prefix + a) && Verdict(r, q) == Matched(prefix + b)
  {
    hide Newest, Sight, Sights, FirstMatching, AckPrefix, CleanPane;
    var prefix := AckPrefix(q.beadId, q.paneId);
    var cs := [Comment(prefix + a, Some(t)), Comment(prefix + b, Some(t + 1))];
    assert StartsWith(prefix + a, prefix) && StartsWith(prefix + b, prefix);
    AloneCounts(None, q, cs[0]);
    AloneCounts(None, q, cs[1]);
    var seen := Sights(None, q, cs);
    assert seen == [Sight(None, q, cs[0]), Sight(None, q, cs[1])];
    assert IsNewest(seen, 1);
    NewestIs(seen, 1);
    FirstMatchingIsFirst(None, q, cs, 0);
  }

  /** A pane id that is not clean is never matched, although the second reader still finds its rows. */
  lemma UncleanPaneNeverMatches(r: Readback, q: Query)
    requires !CleanPane(q.paneId)
    ensures !Verdict(r, q).Matched?
  {
    hide Find, SplitOnce, StartsWith, MatchesAt, LastSegment, CleanPane, PaneAfter;
    if Verdict(r, q).Matched? {
      var k := Newest(Sights(r.dispatchIssuedAt, q, r.comments)).value;
      NamedIffPrefixed(r.comments[k].text, q.beadId, q.paneId);
    }
  }

  // ----- the stage

  datatype Transport =
    | NtmRobotSend(rawJson: string, targets: seq<string>, successful: seq<string>, failed: seq<string>, blocked: bool)
    | TmuxSendKeysLiteral(rawJson: string, command: string, stdout: string, stderr: string, exitCode: Option<int>)
  {
    predicate SupportsDeliveryClaim() { NtmRobotSend? }
    function Label(): string { if NtmRobotSend? then "ntm_robot_send" else "tmux_send_keys_literal" }
  }

  /** `receiver` is what the receiver receipt answered for this pane and these observations. */
  datatype Input = Input(
    beadId: string, paneId: string, transport: Transport, receiver: Receipt.Verdict, ack: Readback,
    attemptsSoFar: nat, session: seq<string>)
  {
    function Answer(): ReadbackVerdict { Verdict(ack, Query(beadId, paneId, session)) }
  }

  datatype Action =
    | RecordReceipt(paneId: string)
    | Retry(paneId: string, attempt: nat, maxAttempts: nat)
    | Unstick(paneId: string, reason: Receipt.Reason)
    | AwaitHuman(paneId: string)
    | AbandonDeadPane(paneId: string)
    | RetryExhausted(paneId: string, attempts: nat)

  function DecideRemeasure(paneId: string, attempts: nat): Action {
    if attempts < MAX_RETRY_ATTEMPTS then Retry(paneId, attempts + 1, MAX_RETRY_ATTEMPTS) else RetryExhausted(paneId, attempts)
  }

  function Decide(v: Receipt.Verdict, attempts: nat): Action {
    match v
    case ReceiptConfirmed(pane, _, _, _) => RecordReceipt(pane)
    case AckConfirmed(pane, _) => RecordReceipt(pane)
    case Dead(pane) => AbandonDeadPane(pane)
    case Indeterminate(pane, _) => if v.OwesAHuman() then AwaitHuman(pane) else DecideRemeasure(pane, attempts)
    case NoReceipt(pane, reason) => if reason.WedgedUnsubmitted? then Unstick(pane, reason) else DecideRemeasure(pane, attempts)
  }

  /** A verdict whose only answer is to measure again. */
  predicate Remeasures(v: Receipt.Verdict) {
    (v.Indeterminate? && !v.reason.DialogOpen?) || (v.NoReceipt? && !v.reason.WedgedUnsubmitted?)
  }

  /** Which verdict leads to which action, for the verdict's own pane. */
  lemma EachVerdictHasOneAction(v: Receipt.Verdict, attempts: nat)
    ensures
      var a := Decide(v, attempts);
      && a.paneId == v.paneId
      && (a.RecordReceipt? <==> v.Label() == "RECEIPT_CONFIRMED")
      && (a.AbandonDeadPane? <==> v.Dead?)
      && (a.AwaitHuman? <==> v.OwesAHuman())
      && (a.Unstick? <==> v.NoReceipt? && v.reason.WedgedUnsubmitted?)
      && (a.Retry? <==> Remeasures(v) && attempts < MAX_RETRY_ATTEMPTS)
      && (a.RetryExhausted? <==> Remeasures(v) && attempts >= MAX_RETRY_ATTEMPTS)
  {
    LabelsTellVerdicts(v);
  }

  /** The published labels: either confirmation has one label, every other verdict its own. */
  lemma LabelsTellVerdicts(v: Receipt.Verdict)
    ensures v.Label() == "RECEIPT_CONFIRMED" <==> v.ReceiptConfirmed? || v.AckConfirmed?
    ensures (v.Label() == "NO_RECEIPT" <==> v.NoReceipt?) && (v.Label() == "DEAD" <==> v.Dead?) && (v.Label() == "INDETERMINATE" <==> v.Indeterminate?)
  {
    assert "RECEIPT_CONFIRMED"[0] == 'R' && "NO_RECEIPT"[0] == 'N' && "DEAD"[0] == 'D' && "INDETERMINATE"[0] == 'I';
  }

  datatype StageResult = StageResult(
    action: Action, delivery: Receipt.Verdict, transport: Transport, ackComment: Option<string>, ackVerdict: ReadbackVerdict)
  {
    predicate IsConfirmed() {
      action.RecordReceipt? && ackComment.Some? && (delivery.ReceiptConfirmed? || delivery.AckConfirmed?) && transport.SupportsDeliveryClaim()
    }
  }

  /** A confirmed receiver on a transport that cannot carry the claim is downgraded. */
  function Downgraded(transport: Transport, receiver: Receipt.Verdict): Receipt.Verdict {
    if receiver.ReceiptConfirmed? && !transport.SupportsDeliveryClaim()
    then Receipt.Indeterminate(receiver.paneId, Receipt.UnprovenTransport(transport.Label()))
    else receiver
  }

  function Assess(input: Input): StageResult {
    var first := Downgraded(input.transport, input.receiver);
    var answer := input.Answer();
    var delivery := match answer
      case AckPaneMismatch(expected, got) => Receipt.Indeterminate(expected, Receipt.AckPaneMismatch(expected, got))
      case Matched(comment) => if input.transport.SupportsDeliveryClaim() then Receipt.AckConfirmed(input.paneId, comment) else first
      case Missing => if first.ReceiptConfirmed? then Receipt.Indeterminate(input.paneId, Receipt.AckReadbackMissing) else first;
    StageResult(Decide(delivery, input.attemptsSoFar), delivery, input.transport,
                if answer.Matched? then Some(answer.comment) else None, answer)
  }

  /** The tracker's answer settles the matter, whatever the receiver said. */
  predicate Settled(transport: Transport, answer: ReadbackVerdict) {
    answer.AckPaneMismatch? || (transport.NtmRobotSend? && answer.Matched?)
  }

  /** What is handed on, from the transport, the receiver's verdict and the tracker's answer. */
  lemma DeliveryIsExact(input: Input)
    ensures
      var r, a, ntm := Assess(input), input.Answer(), input.transport.NtmRobotSend?;
      && r.transport == input.transport && r.ackVerdict == a && (r.ackComment.Some? <==> a.Matched?) && (a.Matched? ==> r.ackComment == Some(a.comment))
      && (a.AckPaneMismatch? ==>
            a.expected == input.paneId && r.delivery == Receipt.Indeterminate(input.paneId, Receipt.AckPaneMismatch(input.paneId, a.got)))
      && (ntm && a.Matched? ==> r.delivery == Receipt.AckConfirmed(input.paneId, a.comment))
      && (ntm && a.Missing? && input.receiver.ReceiptConfirmed? ==> r.delivery == Receipt.Indeterminate(input.paneId, Receipt.AckReadbackMissing))
      && (!ntm && !a.AckPaneMismatch? && input.receiver.ReceiptConfirmed? ==>
            r.delivery == Receipt.Indeterminate(input.receiver.paneId, Receipt.UnprovenTransport("tmux_send_keys_literal")))
      && (!Settled(input.transport, a) && !input.receiver.ReceiptConfirmed? ==> r.delivery == input.receiver)
  {
    MismatchNamesThePane(input.ack, Query(input.beadId, input.paneId, input.session));
    hide Verdict;
  }

  lemma MismatchNamesThePane(r: Readback, q: Query)
    ensures Verdict(r, q).AckPaneMismatch? ==>
      Verdict(r, q).expected == q.paneId && Verdict(r, q).got != q.paneId && Verdict(r, q).got in q.session
  {
    hide Newest, AckedPane, IsFresh;
    var seen := Sights(r.dispatchIssuedAt, q, r.comments);
    var k := Newest(seen);
    if k.Some? { assert seen[k.value] == Sight(r.dispatchIssuedAt, q, r.comments[k.value]); }
  }

  /** Measuring again is all that is left to do. */
  predicate OwesRemeasure(input: Input) {
    input.Answer().AckPaneMismatch?
    || (!Settled(input.transport, input.Answer()) && (input.receiver.ReceiptConfirmed? || Remeasures(input.receiver)))
  }

  /** The action, from the same inputs and the attempts made so far. */
  lemma ActionIsExact(input: Input)
    requires !input.receiver.AckConfirmed?
    ensures
      var action, a := Assess(input).action, input.Answer();
      && (a.AckPaneMismatch? || (a.Matched? && input.transport.NtmRobotSend?) || (a.Missing? && input.transport.NtmRobotSend? && input.receiver.ReceiptConfirmed?)
          ==> action.paneId == input.paneId)
      && (action.RecordReceipt? <==> input.transport.NtmRobotSend? && a.Matched?)
      && (action.AbandonDeadPane? <==> input.receiver.Dead? && !Settled(input.transport, a))
      && (action.AwaitHuman? <==> input.receiver.Indeterminate? && input.receiver.reason.DialogOpen? && !Settled(input.transport, a))
      && (action.Unstick? <==> input.receiver.NoReceipt? && input.receiver.reason.WedgedUnsubmitted? && !Settled(input.transport, a))
      && (action.Retry? <==> OwesRemeasure(input) && input.attemptsSoFar < 3)
      && (action.Retry? ==> action.attempt == input.attemptsSoFar + 1 && action.maxAttempts == 3)
      && (action.RetryExhausted? <==> OwesRemeasure(input) && input.attemptsSoFar >= 3)
      && (action.RetryExhausted? ==> action.attempts == input.attemptsSoFar)
  {
    DeliveryIsExact(input);
    hide Verdict;
  }

  /** Given a receiver that never speaks for the tracker, a receipt is recorded exactly for an ntm send whose ACK matched. */
  lemma ReceiptIffProven(input: Input)
    requires !input.receiver.AckConfirmed?
    ensures Assess(input).action.RecordReceipt? <==> input.transport.NtmRobotSend? && input.Answer().Matched?
    ensures Assess(input).IsConfirmed() <==> Assess(input).action.RecordReceipt?
  {
  }

  /** No verdict this stage hands on is one the ack spine would accept as delivery. */
  lemma StageVerdictIsNeverSpineDelivery(input: Input)
    ensures !SpineModel.Delivered(SpineModel.Observed(Assess(input).delivery))
  {
  }

  // ----- what is published

  datatype DispatchVerdict =
    | Delivered(result: StageResult)
    | Indeterminate(reason: string, transport: Transport)
    | AckPending(afterSecs: nat, attempts: nat)
    | Failed(action: Action)
  {
    function StatusWord(): string {
      match this
      case Delivered(_) => "DISPATCH_DELIVERED"
      case Indeterminate(_, _) => "DISPATCH_INDETERMINATE"
      case AckPending(_, _) => "ACK_PENDING"
      case Failed(_) => "DISPATCH_FAILED"
    }
  }

  function ClassifyDispatch(result: StageResult, windowSecs: nat): DispatchVerdict {
    if result.IsConfirmed() then Delivered(result)
    else if !result.transport.SupportsDeliveryClaim() then Indeterminate(result.delivery.Label(), result.transport)
    else
      match result.action
      case Retry(_, attempt, _) => AckPending(windowSecs, attempt)
      case RetryExhausted(_, attempts) => AckPending(windowSecs, attempts)
      case RecordReceipt(_) => Indeterminate(result.delivery.Label(), result.transport)
      case _ => Failed(result.action)
  }

  /** Delivered means proven, a tmux send is always indeterminate and nothing else is: the record arm is never reached. */
  lemma ProjectionIsExact(input: Input, windowSecs: nat)
    requires !input.receiver.AckConfirmed?
    ensures
      var v, proven := ClassifyDispatch(Assess(input), windowSecs), input.transport.NtmRobotSend? && input.Answer().Matched?;
      && (v.Delivered? <==> proven)
      && (v.Indeterminate? <==> input.transport.TmuxSendKeysLiteral?)
      && (v.AckPending? <==> input.transport.NtmRobotSend? && OwesRemeasure(input))
      && (v.AckPending? ==> v.afterSecs == windowSecs && v.attempts == if input.attemptsSoFar < 3 then input.attemptsSoFar + 1 else input.attemptsSoFar)
      && (v.Failed? <==> input.transport.NtmRobotSend? && !proven && !OwesRemeasure(input))
      && (v.Failed? <==> v.StatusWord() == "DISPATCH_FAILED") && (v.AckPending? <==> v.StatusWord() == "ACK_PENDING")
      && (v.Delivered? <==> v.StatusWord() == "DISPATCH_DELIVERED") && (v.Indeterminate? <==> v.StatusWord() == "DISPATCH_INDETERMINATE")
      && (v.Delivered? ==> v.result == Assess(input)) && (v.Failed? ==> v.action == Assess(input).action)
      && (v.Indeterminate? ==> v.transport == input.transport && v.reason == Assess(input).delivery.Label() != "RECEIPT_CONFIRMED")
  {
    ReceiptIffProven(input);
    ActionIsExact(input);
    LabelsTellVerdicts(Assess(input).delivery);
    DeliveryIsExact(input);
    StatusWords(ClassifyDispatch(Assess(input), windowSecs));
    hide Assess, Verdict;
  }

  lemma StatusWords(v: DispatchVerdict)
    ensures (v.StatusWord() == "DISPATCH_FAILED" <==> v.Failed?) && (v.StatusWord() == "ACK_PENDING" <==> v.AckPending?)
    ensures (v.StatusWord() == "DISPATCH_DELIVERED" <==> v.Delivered?) && (v.StatusWord() == "DISPATCH_INDETERMINATE" <==> v.Indeterminate?)
  {
    assert "DISPATCH_FAILED"[9] == 'F' && "DISPATCH_DELIVERED"[9] == 'D' && "DISPATCH_INDETERMINATE"[9] == 'I' && "ACK_PENDING"[0] == 'A';
  }

  // ----- the retry budget

  /** A matched ACK forbids a resend, except on tmux while the receiver is unconvinced and budget is left. */
  lemma MatchedAckCanStillRetry(input: Input)
    requires !input.receiver.AckConfirmed? && input.Answer().Matched?
    ensures Assess(input).action.Retry? <==>
      input.transport.TmuxSendKeysLiteral? && (Remeasures(input.receiver) || input.receiver.ReceiptConfirmed?)
      && input.attemptsSoFar < MAX_RETRY_ATTEMPTS
  {
  }

  function CountRemeasures(vs: seq<Receipt.Verdict>): nat {
    if vs == [] then 0 else (if Remeasures(vs[0]) then 1 else 0) + CountRemeasures(vs[1..])
  }

  /** The ordinals issued when each retry's ordinal becomes the next attempt count. */
  function Issued(vs: seq<Receipt.Verdict>, attempts: nat): seq<nat> {
    if vs == [] then []
    else
      var action := Decide(vs[0], attempts);
      if action.Retry? then [action.attempt] + Issued(vs[1..], action.attempt) else Issued(vs[1..], attempts)
  }

  function Budget(attempts: nat): nat { if attempts < MAX_RETRY_ATTEMPTS then MAX_RETRY_ATTEMPTS - attempts else 0 }

  /** Whatever the verdicts, the ordinals are consecutive, and there are as many as the verdicts ask for, up to the budget. */
  lemma {:induction false} RetriesAreBounded(vs: seq<Receipt.Verdict>, attempts: nat)
    ensures
      var issued := Issued(vs, attempts);
      && |issued| == (if CountRemeasures(vs) < Budget(attempts) then CountRemeasures(vs) else Budget(attempts))
      && forall i | 0 <= i < |issued| :: issued[i] == attempts + 1 + i
  {
    if vs != [] {
      var action := Decide(vs[0], attempts);
      assert action.Retry? <==> Remeasures(vs[0]) && attempts < MAX_RETRY_ATTEMPTS;
      RetriesAreBounded(vs[1..], if action.Retry? then action.attempt else attempts);
    }
  }
}
