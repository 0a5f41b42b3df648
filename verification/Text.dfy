/** Rust string searching and trimming: `find`, `split_once`, `strip_prefix`, `trim`, `rsplit`. */
module Text {
  import opened Wrappers

  predicate StartsWith(s: string, prefix: string) { |prefix| <= |s| && s[..|prefix|] == prefix }

  predicate MatchesAt(s: string, i: nat, pat: string) { i + |pat| <= |s| && s[i..i + |pat|] == pat }

  ghost predicate Contains(s: string, pat: string) { exists i: nat :: MatchesAt(s, i, pat) }

  /** First match, if any. */
  function Find(s: string, pat: string): (r: Option<nat>)
    requires pat != []
    ensures r.Some? ==> MatchesAt(s, r.value, pat) && forall j | 0 <= j < r.value :: !MatchesAt(s, j, pat)
    ensures r.None? ==> forall j: nat :: !MatchesAt(s, j, pat)
  {
    if |s| < |pat| then None
    else if s[..|pat|] == pat then Some(0)
    else
      var rest := Find(s[1..], pat);
      assert forall j: nat | j >= 1 :: MatchesAt(s, j, pat) <==> MatchesAt(s[1..], j - 1, pat) by {
        forall j: nat | j >= 1 ensures MatchesAt(s, j, pat) <==> MatchesAt(s[1..], j - 1, pat) {
          if j + |pat| <= |s| {
            assert s[1..] == s[1..|s|];
            PieceOfPiece(s, 1, |s|, j - 1, |pat|);
          }
        }
      }
      assert !MatchesAt(s, 0, pat);
      if rest.None? then None else Some(rest.value + 1)
  }

  function SplitOnce(s: string, pat: string): Option<(string, string)>
    requires pat != []
  {
    var i := Find(s, pat);
    if i.None? then None else Some((s[..i.value], s[i.value + |pat|..]))
  }

  // ----- where a pattern can match in a concatenation

  /** The first character of `b` can only be the pattern's first, so no match straddles the seam. */
  predicate SeamBefore(b: string, pat: string) {
    b != [] ==> forall k | 1 <= k < |pat| :: pat[k] != b[0]
  }

  /** The last character of `a` can only be the pattern's last, so no match straddles the seam. */
  predicate SeamAfter(a: string, pat: string) {
    a != [] ==> forall k | 0 <= k < |pat| - 1 :: pat[k] != a[|a| - 1]
  }

  lemma Straddle(a: string, b: string, pat: string, i: nat)
    requires MatchesAt(a + b, i, pat) && i < |a| < i + |pat|
    ensures b != [] && pat[|a| - i] == b[0] && pat[|a| - 1 - i] == a[|a| - 1]
  {
    var s := a + b;
    assert pat[|a| - i] == s[i..i + |pat|][|a| - i] == s[|a|];
    assert pat[|a| - 1 - i] == s[i..i + |pat|][|a| - 1 - i] == s[|a| - 1];
  }

  /** With a clean seam, the matches in `a + b` are those in `a` and those in `b`. */
  lemma MatchInConcat(a: string, b: string, pat: string, i: nat)
    requires pat != [] && (SeamBefore(b, pat) || SeamAfter(a, pat))
    ensures MatchesAt(a + b, i, pat) <==> MatchesAt(a, i, pat) || (i >= |a| && MatchesAt(b, i - |a|, pat))
  {
    var s := a + b;
    if i >= |a| {
      if i + |pat| <= |s| { assert s[i..i + |pat|] == b[i - |a|..i - |a| + |pat|]; }
    } else if i + |pat| <= |a| {
      assert s[i..i + |pat|] == a[i..i + |pat|];
    } else if MatchesAt(s, i, pat) {
      Straddle(a, b, pat, i);
    }
  }

  ghost predicate IsFirst(s: string, pat: string, r: Option<nat>) {
    match r
    case None => forall j: nat :: !MatchesAt(s, j, pat)
    case Some(i) => MatchesAt(s, i, pat) && forall j | 0 <= j < i :: !MatchesAt(s, j, pat)
  }

  lemma FindIs(s: string, pat: string, r: Option<nat>)
    requires pat != [] && IsFirst(s, pat, r)
    ensures Find(s, pat) == r
  {
  }

  function FirstOf(fa: Option<nat>, n: nat, fb: Option<nat>): Option<nat> {
    if fa.Some? then fa else if fb.Some? then Some(n + fb.value) else None
  }

  lemma FirstInConcat(a: string, b: string, pat: string, fa: Option<nat>, fb: Option<nat>)
    requires pat != [] && (SeamBefore(b, pat) || SeamAfter(a, pat))
    requires IsFirst(a, pat, fa) && IsFirst(b, pat, fb)
    ensures IsFirst(a + b, pat, FirstOf(fa, |a|, fb))
  {
    var r := FirstOf(fa, |a|, fb);
    if r.Some? { MatchInConcat(a, b, pat, r.value); }
    forall j: nat | r.None? || j < r.value ensures !MatchesAt(a + b, j, pat) { MatchInConcat(a, b, pat, j); }
  }

  /** With a clean seam, the first match is the first in `a`, else the first in `b`. */
  lemma FindInConcat(a: string, b: string, pat: string)
    requires pat != [] && (SeamBefore(b, pat) || SeamAfter(a, pat))
    ensures Find(a + b, pat) == FirstOf(Find(a, pat), |a|, Find(b, pat))
  {
    FirstInConcat(a, b, pat, Find(a, pat), Find(b, pat));
    FindIs(a + b, pat, FirstOf(Find(a, pat), |a|, Find(b, pat)));
  }

  // ----- trimming

  /** The Unicode `White_Space` property. */
  predicate IsWhitespace(c: char) {
    var n := c as int;
    9 <= n <= 13 || n == 0x20 || n == 0x85 || n == 0xA0 || n == 0x1680 || 0x2000 <= n <= 0x200A
    || n == 0x2028 || n == 0x2029 || n == 0x202F || n == 0x205F || n == 0x3000
  }

  function TrimStart(s: string): (r: string)
    ensures |r| <= |s| && r == s[|s| - |r|..]
    ensures r != [] ==> !IsWhitespace(r[0])
    ensures forall i | 0 <= i < |s| - |r| :: IsWhitespace(s[i])
  {
    if s != [] && IsWhitespace(s[0]) then TrimStart(s[1..]) else s
  }

  function TrimEnd(s: string): (r: string)
    ensures |r| <= |s| && r == s[..|r|]
    ensures r != [] ==> !IsWhitespace(r[|r| - 1])
    ensures forall i | |r| <= i < |s| :: IsWhitespace(s[i])
  {
    if s != [] && IsWhitespace(s[|s| - 1]) then TrimEnd(s[..|s| - 1]) else s
  }

  function Trim(s: string): string { TrimEnd(TrimStart(s)) }

  predicate Blank(s: string) { Trim(s) == [] }

  /** Blank means white space throughout. */
  lemma BlankIff(s: string)
    ensures Blank(s) <==> forall i | 0 <= i < |s| :: IsWhitespace(s[i])
  {
    var a := TrimStart(s);
    var b := TrimEnd(a);
    if b != [] {
      assert b[0] == a[0] == s[|s| - |a|];
    }
  }

  predicate Trimmed(s: string) { s == [] || (!IsWhitespace(s[0]) && !IsWhitespace(s[|s| - 1])) }

  /** Trimming cuts a piece out, and changes nothing exactly when there is nothing to cut. */
  lemma TrimIsTrimmed(s: string) returns (i: nat)
    ensures Trimmed(Trim(s)) && (Trim(s) == s <==> Trimmed(s))
    ensures i + |Trim(s)| <= |s| && Trim(s) == s[i..i + |Trim(s)|]
  {
    var a := TrimStart(s);
    var b := TrimEnd(a);
    i := |s| - |a|;
    assert b == a[..|b|] == s[i..i + |b|];
  }

  lemma PieceOfPiece(s: string, i: nat, j: nat, k: nat, n: nat)
    requires i <= j <= |s| && k + n <= j - i
    ensures s[i..j][k..k + n] == s[i + k..i + k + n]
  {
    var inner, outer := s[i..j][k..k + n], s[i + k..i + k + n];
    forall x | 0 <= x < n ensures inner[x] == outer[x] {
      assert s[i..j][k + x] == s[i + (k + x)];
    }
    assert inner == outer;
  }

  /** A pattern in a piece of a string is in the string. */
  lemma ContainsGrows(s: string, i: nat, j: nat, pat: string)
    requires i <= j <= |s| && Contains(s[i..j], pat)
    ensures Contains(s, pat)
  {
    var k: nat :| MatchesAt(s[i..j], k, pat);
    PieceOfPiece(s, i, j, k, |pat|);
    assert MatchesAt(s, i + k, pat);
  }

  /** `rsplit(c).next()`: what follows the last `c`. */
  function LastSegment(s: string, c: char): (r: string)
    ensures c !in r && |r| <= |s| && r == s[|s| - |r|..]
    ensures |r| < |s| ==> s[|s| - |r| - 1] == c
  {
    if s == [] || s[|s| - 1] == c then []
    else LastSegment(s[..|s| - 1], c) + [s[|s| - 1]]
  }

  lemma {:induction false} LastSegmentIs(head: string, c: char, last: string)
    requires c !in last
    ensures LastSegment(head + [c] + last, c) == last && LastSegment(last, c) == last
  {
    var s, n := head + [c] + last, |last| - 1;
    if last != [] {
      LastSegmentIs(head, c, last[..n]);
      assert s[..|s| - 1] == head + [c] + last[..n];
      assert last[..n] + [last[n]] == last;
    }
  }

  // ----- splitting on one character

  /** `str::split` on a character: always at least one piece. */
  function Split(s: string, c: char): (pieces: seq<string>)
    ensures |pieces| >= 1
  {
    if s == [] then [[]]
    else
      var rest := Split(s[1..], c);
      if s[0] == c then [[]] + rest else [[s[0]] + rest[0]] + rest[1..]
  }

  lemma {:induction false} SplitWhole(s: string, c: char)
    requires c !in s
    ensures Split(s, c) == [s]
  {
    if s != [] { SplitWhole(s[1..], c); assert [s[0]] + s[1..] == s; }
  }

  lemma {:induction false} SplitFirst(a: string, c: char, b: string)
    requires c !in a
    ensures Split(a + [c] + b, c) == [a] + Split(b, c)
  {
    var s := a + [c] + b;
    if a == [] {
      assert s[1..] == b;
    } else {
      SplitFirst(a[1..], c, b);
      assert s[1..] == a[1..] + [c] + b;
      assert [a[0]] + a[1..] == a;
    }
  }

  /** Taking the first piece off again. */
  lemma {:induction false} SplitRejoins(s: string, c: char) returns (tail: string)
    ensures c !in Split(s, c)[0]
    ensures |Split(s, c)| == 1 ==> s == Split(s, c)[0]
    ensures |Split(s, c)| > 1 ==> s == Split(s, c)[0] + [c] + tail && Split(tail, c) == Split(s, c)[1..]
  {
    if s == [] {
      tail := [];
    } else if s[0] == c {
      tail := s[1..];
      assert s == [] + [c] + tail;
    } else {
      tail := SplitRejoins(s[1..], c);
      assert s == [s[0]] + s[1..];
      assert Split(s, c)[1..] == Split(s[1..], c)[1..];
    }
  }
}
