/**
  Python's `sorted(set(xs))`: the distinct elements of a sequence in ascending order,
  for the two orders the pipeline sorts by (code-point order on strings, numeric
  order on document indices).
*/
module Sorting {

  /** `less` is a strict total order. */
  ghost predicate StrictTotalOrder<T(!new)>(less: (T, T) -> bool) {
    && (forall a :: !less(a, a))
    && (forall a, b :: a != b ==> less(a, b) || less(b, a))
    && (forall a, b, c :: less(a, b) && less(b, c) ==> less(a, c))
  }

  /** Ascending without repeats. */
  predicate StrictlySorted<T>(xs: seq<T>, less: (T, T) -> bool) {
    forall i, j :: 0 <= i < j < |xs| ==> less(xs[i], xs[j])
  }

  /** Adds `x` to a strictly sorted sequence unless it is already there. */
  function Insert<T(!new, ==)>(x: T, xs: seq<T>, less: (T, T) -> bool): (r: seq<T>)
    requires StrictTotalOrder(less) && StrictlySorted(xs, less)
    ensures StrictlySorted(r, less)
    ensures forall y :: y in r <==> y == x || y in xs
  {
    if |xs| == 0 then [x]
    else if x == xs[0] then xs
    else if less(x, xs[0]) then [x] + xs
    else
      var tail := Insert(x, xs[1..], less);
      assert forall y :: y in xs <==> y == xs[0] || y in xs[1..];
      forall j | 0 <= j < |tail| ensures less(xs[0], tail[j]) {
        assert tail[j] in tail;
        if tail[j] != x {
          var k :| 0 <= k < |xs| - 1 && xs[1..][k] == tail[j];
          assert xs[k + 1] == tail[j];
        }
      }
      [xs[0]] + tail
  }

  /** The distinct elements of `xs`, ascending. */
  function SortUnique<T(!new, ==)>(xs: seq<T>, less: (T, T) -> bool): (r: seq<T>)
    requires StrictTotalOrder(less)
    ensures StrictlySorted(r, less)
    ensures forall y :: y in r <==> y in xs
    decreases |xs|
  {
    if |xs| == 0 then []
    else
      var r := Insert(xs[|xs| - 1], SortUnique(xs[..|xs| - 1], less), less);
      assert forall y :: y in xs <==> y == xs[|xs| - 1] || y in xs[..|xs| - 1];
      r
  }

  /** Two strictly sorted sequences with the same elements are the same sequence. */
  lemma {:induction false} SortedUnique<T(!new)>(a: seq<T>, b: seq<T>, less: (T, T) -> bool)
    requires StrictTotalOrder(less)
    requires StrictlySorted(a, less) && StrictlySorted(b, less)
    requires forall y :: y in a <==> y in b
    ensures a == b
    decreases |a|
  {
    if |a| > 0 {
      assert a[0] in a;
    }
    if |b| > 0 {
      assert b[0] in b;
    }
    if |a| > 0 && |b| > 0 {
      SortedHead(b, a[0], less);
      SortedHead(a, b[0], less);
      forall y ensures y in a[1..] ==> y in b[1..] {
        if y in a[1..] {
          var k :| 0 <= k < |a| - 1 && a[1..][k] == y;
          assert less(a[0], a[k + 1]);
          assert y in b;
          var m :| 0 <= m < |b| && b[m] == y;
          assert m > 0;
          assert b[1..][m - 1] == y;
        }
      }
      forall y ensures y in b[1..] ==> y in a[1..] {
        if y in b[1..] {
          var k :| 0 <= k < |b| - 1 && b[1..][k] == y;
          assert less(b[0], b[k + 1]);
          assert y in a;
          var m :| 0 <= m < |a| && a[m] == y;
          assert m > 0;
          assert a[1..][m - 1] == y;
        }
      }
      SortedUnique(a[1..], b[1..], less);
      assert a == [a[0]] + a[1..] && b == [b[0]] + b[1..];
    }
  }

  /** The head of a strictly sorted sequence is below every other element. */
  lemma SortedHead<T(!new)>(s: seq<T>, y: T, less: (T, T) -> bool)
    requires StrictlySorted(s, less) && y in s
    ensures y == s[0] || less(s[0], y)
  {
  }

  /** Python's `<` on strings: code-point lexicographic order. */
  predicate StrLess(a: string, b: string) {
    |b| > 0 && (|a| == 0 || a[0] < b[0] || (a[0] == b[0] && StrLess(a[1..], b[1..])))
  }

  lemma {:induction false} StrLessIrreflexive(a: string)
    ensures !StrLess(a, a)
    decreases |a|
  {
    if |a| > 0 {
      StrLessIrreflexive(a[1..]);
    }
  }

  lemma {:induction false} StrLessConnected(a: string, b: string)
    requires a != b
    ensures StrLess(a, b) || StrLess(b, a)
    decreases |a|
  {
    if |a| > 0 && |b| > 0 && a[0] == b[0] {
      assert a == [a[0]] + a[1..] && b == [b[0]] + b[1..];
      StrLessConnected(a[1..], b[1..]);
    }
  }

  lemma {:induction false} StrLessTransitive(a: string, b: string, c: string)
    requires StrLess(a, b) && StrLess(b, c)
    ensures StrLess(a, c)
    decreases |a|
  {
    if |a| > 0 && a[0] == b[0] && b[0] == c[0] {
      StrLessTransitive(a[1..], b[1..], c[1..]);
    }
  }

  lemma StrLessTotal()
    ensures StrictTotalOrder(StrLess)
  {
    forall a ensures !StrLess(a, a) {
      StrLessIrreflexive(a);
    }
    forall a, b | a != b ensures StrLess(a, b) || StrLess(b, a) {
      StrLessConnected(a, b);
    }
    forall a, b, c | StrLess(a, b) && StrLess(b, c) ensures StrLess(a, c) {
      StrLessTransitive(a, b, c);
    }
  }

  predicate IntLess(a: int, b: int) {
    a < b
  }

  lemma IntLessTotal()
    ensures StrictTotalOrder(IntLess)
  {
  }

  /** Python's `sorted(set(xs))` for strings. */
  function SortedStrings(xs: seq<string>): (r: seq<string>)
    ensures StrictlySorted(r, StrLess)
    ensures forall y :: y in r <==> y in xs
  {
    StrLessTotal();
    SortUnique(xs, StrLess)
  }

  /** Python's `sorted(set(xs))` for integers. */
  function SortedInts(xs: seq<int>): (r: seq<int>)
    ensures StrictlySorted(r, IntLess)
    ensures forall y :: y in r <==> y in xs
  {
    IntLessTotal();
    SortUnique(xs, IntLess)
  }
}
