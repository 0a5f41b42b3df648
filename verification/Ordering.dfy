/** Option and Result, and the order behind BTreeMap, BTreeSet and sort_by. */
module Wrappers {
  datatype Option<+T> = None | Some(value: T)

  datatype Result<+T, +E> = Ok(value: T) | Err(error: E)
}

/**
 Ids are strings, compared code point by code point (which is how UTF-8 bytes
 compare).  `SortBy` is a stable sort; `InsertUnique` is insertion into an
 ordered set kept as an ascending sequence.
 */
module Ordering {

  predicate Leq(a: string, b: string) {
    a == [] || (b != [] && (a[0] < b[0] || (a[0] == b[0] && Leq(a[1..], b[1..]))))
  }

  lemma LeqTotal(a: string, b: string)
    ensures Leq(a, b) || Leq(b, a)
  {
    if a != [] && b != [] { LeqTotal(a[1..], b[1..]); }
  }

  lemma LeqTransitive(a: string, b: string, c: string)
    requires Leq(a, b) && Leq(b, c)
    ensures Leq(a, c)
  {
    if a != [] && a[0] == b[0] && b[0] == c[0] { LeqTransitive(a[1..], b[1..], c[1..]); }
  }

  lemma LeqAntisymmetric(a: string, b: string)
    requires Leq(a, b) && Leq(b, a)
    ensures a == b
  {
    if a != [] {
      LeqAntisymmetric(a[1..], b[1..]);
      assert a == [a[0]] + a[1..] && b == [b[0]] + b[1..];
    }
  }

  /** They agree up to `k`, and there the first has the smaller character. */
  ghost predicate SmallerAt(a: string, b: string, k: nat) { k < |a| && k < |b| && a[..k] == b[..k] && a[k] < b[k] }

  /** A prefix comes first, and otherwise the first characters that differ decide. */
  lemma {:induction false} LeqIff(a: string, b: string)
    ensures Leq(a, b) <==> a <= b || exists k: nat :: SmallerAt(a, b, k)
  {
    if a != [] && b != [] {
      if a[0] == b[0] { LeqIff(a[1..], b[1..]); }
      SmallerStarts(a, b);
      assert a[0] == b[0] ==> (a <= b <==> a[1..] <= b[1..]) by { assert a == [a[0]] + a[1..] && b == [b[0]] + b[1..]; }
      hide SmallerAt;
    }
  }

  lemma SmallerStarts(a: string, b: string)
    requires a != [] && b != []
    ensures (exists k: nat :: SmallerAt(a, b, k)) <==> a[0] < b[0] || (a[0] == b[0] && exists k: nat :: SmallerAt(a[1..], b[1..], k))
  {
    if k: nat :| SmallerAt(a, b, k) {
      if k > 0 {
        assert a[..k][0] == b[..k][0];
        assert a[1..][..k - 1] == a[..k][1..] && b[1..][..k - 1] == b[..k][1..];
        assert SmallerAt(a[1..], b[1..], k - 1);
      }
    }
    if a[0] < b[0] {
      assert SmallerAt(a, b, 0);
    }
    if a[0] == b[0] {
      if k: nat :| SmallerAt(a[1..], b[1..], k) {
        assert a[..k + 1] == [a[0]] + a[1..][..k] && b[..k + 1] == [b[0]] + b[1..][..k];
        assert SmallerAt(a, b, k + 1);
      }
    }
  }

  ghost predicate SortedBy<T>(xs: seq<T>, key: T -> string) {
    forall i, j | 0 <= i < j < |xs| :: Leq(key(xs[i]), key(xs[j]))
  }

  /** Ascending without repeats: what iterating a BTreeSet yields. */
  ghost predicate Ascending(ids: seq<string>) {
    forall i, j | 0 <= i < j < |ids| :: Leq(ids[i], ids[j]) && ids[i] != ids[j]
  }

  function InsertBy<T(!new)>(x: T, xs: seq<T>, key: T -> string): (r: seq<T>)
    requires SortedBy(xs, key)
    ensures SortedBy(r, key)
    ensures multiset(r) == multiset([x]) + multiset(xs)
  {
    if xs == [] then [x]
    else if key(x) != key(xs[0]) && Leq(key(x), key(xs[0])) then
      assert SortedBy([x] + xs, key) by {
        forall j | 0 <= j < |xs| ensures Leq(key(x), key(xs[j])) {
          if j > 0 { LeqTransitive(key(x), key(xs[0]), key(xs[j])); }
        }
      }
      [x] + xs
    else
      var rest := InsertBy(x, xs[1..], key);
      assert xs == [xs[0]] + xs[1..];
      assert SortedBy([xs[0]] + rest, key) by {
        LeqTotal(key(x), key(xs[0]));
        forall j | 0 <= j < |rest| ensures Leq(key(xs[0]), key(rest[j])) {
          assert rest[j] in multiset(rest);
          assert rest[j] == x || rest[j] in multiset(xs[1..]);
        }
      }
      [xs[0]] + rest
  }

  /** Inserting the last element last keeps equal keys in their first order. */
  function SortBy<T(!new)>(xs: seq<T>, key: T -> string): (r: seq<T>)
    ensures SortedBy(r, key)
    ensures multiset(r) == multiset(xs)
    ensures |r| == |xs|
    ensures forall x :: x in r <==> x in xs
  {
    if xs == [] then []
    else
      var n := |xs| - 1;
      var r := InsertBy(xs[n], SortBy(xs[..n], key), key);
      assert xs == xs[..n] + [xs[n]];
      assert multiset(r) == multiset(xs);
      assert |multiset(r)| == |r| && |multiset(xs)| == |xs|;
      assert forall x :: x in r <==> x in multiset(r);
      assert forall x :: x in xs <==> x in multiset(xs);
      r
  }

  function InsertUnique(x: string, ids: seq<string>): (r: seq<string>)
    requires Ascending(ids)
    ensures Ascending(r)
    ensures forall y :: y in r <==> y == x || y in ids
  {
    if ids == [] then [x]
    else if x == ids[0] then ids
    else if Leq(x, ids[0]) then
      assert Ascending([x] + ids) by {
        forall j | 0 <= j < |ids| ensures Leq(x, ids[j]) && x != ids[j] {
          if j > 0 {
            LeqTransitive(x, ids[0], ids[j]);
            if x == ids[j] { LeqAntisymmetric(x, ids[0]); }
          }
        }
      }
      [x] + ids
    else
      var rest := InsertUnique(x, ids[1..]);
      assert forall y :: y in ids <==> y == ids[0] || y in ids[1..];
      assert Ascending([ids[0]] + rest) by {
        LeqTotal(x, ids[0]);
        forall j | 0 <= j < |rest| ensures Leq(ids[0], rest[j]) && ids[0] != rest[j] {
          assert rest[j] in rest;
        }
      }
      [ids[0]] + rest
  }

  /** Two ascending sequences over the same elements are the same sequence. */
  lemma {:induction false} AscendingIsCanonical(a: seq<string>, b: seq<string>)
    requires Ascending(a) && Ascending(b)
    requires forall x :: x in a <==> x in b
    ensures a == b
  {
    if b != [] { assert b[0] in a; }
    if a != [] {
      assert a[0] in b;
      assert a[0] == b[0] by {
        if a[0] != b[0] { LeqAntisymmetric(a[0], b[0]); }
      }
      forall x ensures x in a[1..] <==> x in b[1..] {
        assert x in a <==> x == a[0] || x in a[1..];
        assert x in b <==> x == b[0] || x in b[1..];
      }
      AscendingIsCanonical(a[1..], b[1..]);
      assert a == [a[0]] + a[1..] && b == [b[0]] + b[1..];
    }
  }

  ghost predicate DistinctKeys<T>(xs: seq<T>, key: T -> string) {
    forall i, j | 0 <= i < j < |xs| :: key(xs[i]) != key(xs[j])
  }

  lemma {:induction false} DistinctOccursOnce<T>(xs: seq<T>, key: T -> string, x: T)
    requires DistinctKeys(xs, key)
    ensures multiset(xs)[x] <= 1
  {
    if xs != [] {
      DistinctOccursOnce(xs[1..], key, x);
      assert xs == [xs[0]] + xs[1..];
      if xs[0] == x {
        assert forall j | 0 <= j < |xs[1..]| :: xs[1..][j] != x by {
          forall j | 0 <= j < |xs[1..]| ensures xs[1..][j] != x { assert key(xs[0]) != key(xs[j + 1]); }
        }
        assert x !in xs[1..];
      }
    }
  }

  lemma TwiceCountsTwice<T>(ys: seq<T>, i: nat, j: nat)
    requires i < j < |ys| && ys[i] == ys[j]
    ensures multiset(ys)[ys[i]] >= 2
  {
    assert ys == ys[..i] + [ys[i]] + ys[i + 1..j] + [ys[j]] + ys[j + 1..];
  }

  /** Sorting rows with distinct keys leaves the keys distinct. */
  lemma PermutationKeepsDistinct<T>(xs: seq<T>, ys: seq<T>, key: T -> string)
    requires DistinctKeys(xs, key) && multiset(ys) == multiset(xs)
    ensures DistinctKeys(ys, key)
  {
    forall i, j | 0 <= i < j < |ys| ensures key(ys[i]) != key(ys[j]) {
      assert ys[i] in multiset(ys) && ys[j] in multiset(ys);
      var a :| 0 <= a < |xs| && xs[a] == ys[i];
      var b :| 0 <= b < |xs| && xs[b] == ys[j];
      DistinctOccursOnce(xs, key, ys[i]);
      if ys[i] == ys[j] { TwiceCountsTwice(ys, i, j); }
    }
  }

  // ----- filtering in order

  /** Where a test holds: every such position, once, ascending. */
  function Positions<T>(xs: seq<T>, test: T -> bool): (at: seq<nat>)
    ensures forall i | 0 <= i < |at| :: at[i] < |xs| && test(xs[at[i]])
    ensures forall i, j | 0 <= i < j < |at| :: at[i] < at[j]
    ensures forall k: nat | k < |xs| && test(xs[k]) :: k in at
  {
    if xs == [] then []
    else
      var n := |xs| - 1;
      var before := Positions(xs[..n], test);
      if test(xs[n]) then before + [n] else before
  }
}
