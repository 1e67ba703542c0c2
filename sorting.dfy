/**
 * The row order an SQL `ORDER BY` produces. The database promises only that
 * rows come out ordered by the key; rows with equal keys may come in any order.
 * `SortBy` is one such order (a stable insertion sort); contracts elsewhere
 * speak of "some ordering" through `IsOrderingOf` so that they do not depend
 * on how ties are broken.
 */
module Sorting {

  predicate SortedBy<T>(s: seq<T>, key: T -> int) {
    forall i, j :: 0 <= i < j < |s| ==> key(s[i]) <= key(s[j])
  }

  /** `r` is what `ORDER BY key` may return for the rows `s`. */
  predicate IsOrderingOf<T(==)>(r: seq<T>, s: seq<T>, key: T -> int) {
    multiset(r) == multiset(s) && SortedBy(r, key)
  }

  /** One more element of a prefix. */
  lemma PrefixStep<T>(s: seq<T>, i: nat)
    requires i < |s|
    ensures s[..i + 1] == s[..i] + [s[i]]
  {
  }

  lemma {:induction false} SortedTail<T>(s: seq<T>, key: T -> int)
    requires s != [] && SortedBy(s, key)
    ensures SortedBy(s[1..], key)
  {
    forall i, j | 0 <= i < j < |s| - 1 ensures key(s[1..][i]) <= key(s[1..][j]) {
      assert s[1..][i] == s[i + 1] && s[1..][j] == s[j + 1];
    }
  }

  /** Every element of `s` has a key of at least `lo` (a bound kept by permutations). */
  predicate AllAtLeast<T>(s: seq<T>, key: T -> int, lo: int) {
    forall i :: 0 <= i < |s| ==> lo <= key(s[i])
  }

  lemma {:induction false} AllAtLeastPermutation<T>(s: seq<T>, t: seq<T>, key: T -> int, lo: int)
    requires multiset(s) == multiset(t) && AllAtLeast(t, key, lo)
    ensures AllAtLeast(s, key, lo)
  {
    forall i | 0 <= i < |s| ensures lo <= key(s[i]) {
      assert s[i] in multiset(s);
      assert s[i] in multiset(t);
      var j :| 0 <= j < |t| && t[j] == s[i];
    }
  }

  /** Puts `head` in front of a sorted `rest` whose keys are all at least `head`'s. */
  lemma ConsSorted<T>(head: T, rest: seq<T>, key: T -> int)
    requires SortedBy(rest, key) && AllAtLeast(rest, key, key(head))
    ensures SortedBy([head] + rest, key)
  {
    forall i, j | 0 <= i < j < |rest| + 1 ensures key(([head] + rest)[i]) <= key(([head] + rest)[j]) {
      assert ([head] + rest)[j] == rest[j - 1];
      if i > 0 {
        assert ([head] + rest)[i] == rest[i - 1];
      }
    }
  }

  /** The keys of a sorted `s` are at least its first key, and so is `key(x)` when it is larger. */
  lemma TailAndNewAtLeast<T>(s: seq<T>, x: T, key: T -> int)
    requires s != [] && SortedBy(s, key) && key(s[0]) < key(x)
    ensures AllAtLeast(s[1..] + [x], key, key(s[0]))
  {
    forall i | 0 <= i < |s[1..] + [x]| ensures key(s[0]) <= key((s[1..] + [x])[i]) {
      if i < |s| - 1 {
        assert (s[1..] + [x])[i] == s[i + 1];
      }
    }
  }

  lemma InsertedRows<T>(s: seq<T>, rest: seq<T>, x: T)
    requires s != [] && multiset(rest) == multiset(s[1..]) + multiset{x}
    ensures multiset(rest) == multiset(s[1..] + [x])
    ensures multiset([s[0]] + rest) == multiset(s) + multiset{x}
  {
    assert s == [s[0]] + s[1..];
  }

  function InsertBy<T(==)>(x: T, s: seq<T>, key: T -> int): (r: seq<T>)
    requires SortedBy(s, key)
    ensures multiset(r) == multiset(s) + multiset{x}
    ensures SortedBy(r, key)
  {
    if s == [] then [x]
    else if key(x) <= key(s[0]) then
      ConsSorted(x, s, key);
      [x] + s
    else
      SortedTail(s, key);
      var rest := InsertBy(x, s[1..], key);
      InsertedRows(s, rest, x);
      TailAndNewAtLeast(s, x, key);
      AllAtLeastPermutation(rest, s[1..] + [x], key, key(s[0]));
      ConsSorted(s[0], rest, key);
      [s[0]] + rest
  }

  /** A stable sort of `s` by `key`. */
  function SortBy<T(==)>(s: seq<T>, key: T -> int): (r: seq<T>)
    ensures IsOrderingOf(r, s, key)
  {
    if s == [] then []
    else
      var r := InsertBy(s[0], SortBy(s[1..], key), key);
      assert s == [s[0]] + s[1..];
      r
  }

  /** Keys tell the rows of `s` apart: equal keys only for equal rows. */
  predicate KeysDistinct<T(==)>(s: seq<T>, key: T -> int) {
    forall x, y :: x in s && y in s && key(x) == key(y) ==> x == y
  }

  lemma HeadsAgree<T>(a: seq<T>, b: seq<T>, s: seq<T>, key: T -> int)
    requires IsOrderingOf(a, s, key) && IsOrderingOf(b, s, key) && KeysDistinct(s, key) && a != []
    ensures b != [] && a[0] == b[0]
  {
    assert |a| == |multiset(a)| == |multiset(b)| == |b|;
    assert a[0] in multiset(b) && b[0] in multiset(a);
    var i :| 0 <= i < |b| && b[i] == a[0];
    var j :| 0 <= j < |a| && a[j] == b[0];
    assert key(b[0]) <= key(b[i]) && key(a[0]) <= key(a[j]);
    assert a[0] in multiset(s) && b[0] in multiset(s);
  }

  lemma TailsSameRows<T>(a: seq<T>, b: seq<T>)
    requires a != [] && b != [] && a[0] == b[0] && multiset(a) == multiset(b)
    ensures multiset(a[1..]) == multiset(b[1..])
  {
    assert a == [a[0]] + a[1..] && b == [b[0]] + b[1..];
    assert multiset(a[1..]) == multiset(a) - multiset{a[0]};
    assert multiset(b[1..]) == multiset(b) - multiset{b[0]};
  }

  /** The rows of a permutation of `s` are still told apart by their keys once the first is dropped. */
  lemma KeysDistinctTail<T>(a: seq<T>, s: seq<T>, key: T -> int)
    requires a != [] && multiset(a) == multiset(s) && KeysDistinct(s, key)
    ensures KeysDistinct(a[1..], key)
  {
    forall x, y | x in a[1..] && y in a[1..] && key(x) == key(y) ensures x == y {
      assert x in multiset(a) && y in multiset(a);
    }
  }

  lemma SameHeadSameTail<T>(a: seq<T>, b: seq<T>)
    requires a != [] && b != [] && a[0] == b[0] && a[1..] == b[1..]
    ensures a == b
  {
    assert a == [a[0]] + a[1..] && b == [b[0]] + b[1..];
  }

  /** Without ties there is exactly one ordering. */
  lemma {:induction false} OrderingUnique<T>(a: seq<T>, b: seq<T>, s: seq<T>, key: T -> int)
    requires IsOrderingOf(a, s, key) && IsOrderingOf(b, s, key) && KeysDistinct(s, key)
    ensures a == b
    decreases |a|
  {
    if a == [] {
      assert |multiset(b)| == 0;
    } else {
      HeadsAgree(a, b, s, key);
      TailsSameRows(a, b);
      SortedTail(a, key);
      SortedTail(b, key);
      KeysDistinctTail(a, s, key);
      OrderingUnique(a[1..], b[1..], a[1..], key);
      SameHeadSameTail(a, b);
    }
  }
}
