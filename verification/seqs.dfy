/** Generic sequence helpers shared by the table-building modules. */
module Seqs {

  /** The elements of `xs` that satisfy `p`, in their original order (a list comprehension's `if`). */
  function Filter<T(!new)>(xs: seq<T>, p: T -> bool): (r: seq<T>)
    ensures |r| <= |xs|
    ensures forall x :: x in r <==> x in xs && p(x)
  {
    if xs == [] then []
    else
      assert forall x :: x in xs <==> x == xs[0] || x in xs[1..];
      (if p(xs[0]) then [xs[0]] else []) + Filter(xs[1..], p)
  }

  /** Filtering keeps the order: it distributes over concatenation. */
  /** A prefix of all but the last element is a prefix of the whole. */
  /** The position of the first element whose key is `k`, or `|xs|` when there is none. */
  function FindKey<T>(xs: seq<T>, key: T -> string, k: string): (i: nat)
    ensures i <= |xs|
    ensures i < |xs| ==> key(xs[i]) == k
    ensures forall j :: 0 <= j < i ==> key(xs[j]) != k
  {
    if xs == [] then 0
    else if key(xs[0]) == k then 0
    else 1 + FindKey(xs[1..], key, k)
  }

  lemma PrefixOfInit<T>(s: seq<T>, m: nat)
    requires s != [] && m <= |s| - 1
    ensures s[..|s| - 1][..m] == s[..m]
  {
  }

  lemma TakeIndex<T>(s: seq<T>, n: nat, x: nat)
    requires x < n <= |s|
    ensures s[..n][x] == s[x]
  {
  }

  /** Some element of `s` satisfies `p` exactly when one before the last does, or the last does. */
  lemma ExistsSnoc<T>(s: seq<T>, init: seq<T>, p: T -> bool)
    requires s != [] && init == s[..|s| - 1]
    ensures (exists x :: 0 <= x < |s| && p(s[x])) <==> (exists x :: 0 <= x < |init| && p(init[x])) || p(s[|s| - 1])
  {
    if exists x :: 0 <= x < |s| && p(s[x]) {
      var x :| 0 <= x < |s| && p(s[x]);
      if x < |init| {
        assert init[x] == s[x];
      }
    }
    if exists x :: 0 <= x < |init| && p(init[x]) {
      var x :| 0 <= x < |init| && p(init[x]);
      assert init[x] == s[x];
    }
  }

  lemma WholePrefix<T>(s: seq<T>)
    ensures s[..|s|] == s
  {
  }

  lemma {:induction false} FilterAppend<T(!new)>(a: seq<T>, b: seq<T>, p: T -> bool)
    ensures Filter(a + b, p) == Filter(a, p) + Filter(b, p)
  {
    if a != [] {
      assert (a + b)[0] == a[0] && (a + b)[1..] == a[1..] + b;
      FilterAppend(a[1..], b, p);
    } else {
      assert a + b == b;
    }
  }

  /** Nothing passes the test, so nothing is kept. */
  lemma {:induction false} FilterNone<T(!new)>(xs: seq<T>, p: T -> bool)
    requires forall x :: x in xs ==> !p(x)
    ensures Filter(xs, p) == []
  {
    if xs != [] {
      assert xs[0] in xs;
      FilterNone(xs[1..], p);
    }
  }

  /** Everything passes the test, so everything is kept. */
  lemma {:induction false} FilterAll<T(!new)>(xs: seq<T>, p: T -> bool)
    requires forall x :: x in xs ==> p(x)
    ensures Filter(xs, p) == xs
  {
    if xs != [] {
      assert xs[0] in xs;
      FilterAll(xs[1..], p);
    }
  }

  /** Sequences with the same members are empty together. */
  lemma SameMembersEmpty<T>(a: seq<T>, b: seq<T>)
    requires forall x :: x in a <==> x in b
    ensures a == [] <==> b == []
  {
    if a != [] {
      assert a[0] in b;
    }
    if b != [] {
      assert b[0] in a;
    }
  }

  /** No two elements share a key. */
  predicate DistinctKeys<T, K(==)>(xs: seq<T>, key: T -> K) {
    forall i, j :: 0 <= i < j < |xs| ==> key(xs[i]) != key(xs[j])
  }

  /** `rel` holds between every element and each one after it. */
  predicate Pairwise<T>(xs: seq<T>, rel: (T, T) -> bool) {
    forall i, j :: 0 <= i < j < |xs| ==> rel(xs[i], xs[j])
  }

  /** Filtering keeps the relative order, so a pairwise relation survives it. */
  lemma {:induction false} FilterPairwise<T(!new)>(xs: seq<T>, p: T -> bool, rel: (T, T) -> bool)
    requires Pairwise(xs, rel)
    ensures Pairwise(Filter(xs, p), rel)
  {
    if xs != [] {
      var rest := Filter(xs[1..], p);
      assert Pairwise(xs[1..], rel) by {
        forall i, j | 0 <= i < j < |xs| - 1 ensures rel(xs[1..][i], xs[1..][j]) {
          assert xs[1..][i] == xs[i + 1] && xs[1..][j] == xs[j + 1];
        }
      }
      FilterPairwise(xs[1..], p, rel);
      if p(xs[0]) {
        forall k | 0 <= k < |rest| ensures rel(xs[0], rest[k]) {
          assert rest[k] in xs[1..];
          var m :| 0 <= m < |xs| - 1 && xs[1..][m] == rest[k];
          assert xs[m + 1] == rest[k];
        }
        var r := [xs[0]] + rest;
        forall i, j | 0 <= i < j < |r| ensures rel(r[i], r[j]) {
          if i > 0 {
            assert r[i] == rest[i - 1] && r[j] == rest[j - 1];
          }
        }
      } else {
        assert Filter(xs, p) == rest;
      }
    }
  }

  /** Filtering a list whose keys are distinct leaves the keys distinct. */
  lemma FilterDistinct<T(!new), K>(xs: seq<T>, p: T -> bool, key: T -> K)
    requires DistinctKeys(xs, key)
    ensures DistinctKeys(Filter(xs, p), key)
  {
    var rel := (a: T, b: T) => key(a) != key(b);
    assert Pairwise(xs, rel);
    FilterPairwise(xs, p, rel);
    var r := Filter(xs, p);
    assert forall i, j :: 0 <= i < j < |r| ==> rel(r[i], r[j]);
  }

  /** The elements of `xs` without repeats, each where it first occurs (what the keys of a JavaScript
      object or the members of a `Set` filled in order come to). */
  function Dedup<T(==,!new)>(xs: seq<T>): (r: seq<T>)
    ensures forall x :: x in r <==> x in xs
    ensures forall i, j :: 0 <= i < j < |r| ==> r[i] != r[j]
  {
    if xs == [] then []
    else
      var init := xs[..|xs| - 1];
      assert forall x :: x in xs <==> x in init || x == xs[|xs| - 1];
      var r := Dedup(init);
      if xs[|xs| - 1] in r then r else r + [xs[|xs| - 1]]
  }

  /** The elements of `xs` at the positions where each occurs for the first time, in order. */
  function FirstOccurrences<T(==)>(xs: seq<T>): (r: seq<T>)
    ensures |r| <= |xs|
  {
    if xs == [] then []
    else
      var init := xs[..|xs| - 1];
      if xs[|xs| - 1] in init then FirstOccurrences(init) else FirstOccurrences(init) + [xs[|xs| - 1]]
  }

  /** Deduplicating keeps the first occurrence of every element, in the order of the input. */
  lemma {:induction false} DedupFirst<T(!new)>(xs: seq<T>)
    ensures Dedup(xs) == FirstOccurrences(xs)
  {
    if xs != [] {
      DedupFirst(xs[..|xs| - 1]);
    }
  }

  /** A list without repeats is its own list of first occurrences. */
  lemma {:induction false} FirstOccurrencesDistinct<T>(xs: seq<T>)
    requires forall i, j :: 0 <= i < j < |xs| ==> xs[i] != xs[j]
    ensures FirstOccurrences(xs) == xs
  {
    if xs != [] {
      var init := xs[..|xs| - 1];
      FirstOccurrencesDistinct(init);
      assert xs[|xs| - 1] !in init;
      assert init + [xs[|xs| - 1]] == xs;
    }
  }
}
