/**
 * The relational building blocks the route handlers' SQL relies on: a WHERE
 * filter, a column projection and `ORDER BY key DESC`.
 */
module Ordering {

  /** Rows for which `keep` holds, in table order (a WHERE clause). */
  function Filter<T(!new)>(s: seq<T>, keep: T -> bool): (r: seq<T>)
    ensures |r| <= |s|
    ensures forall i :: 0 <= i < |r| ==> keep(r[i])
    ensures forall x :: multiset(r)[x] == if keep(x) then multiset(s)[x] else 0
  {
    if s == [] then []
    else
      var rest := Filter(s[1..], keep);
      assert s == [s[0]] + s[1..];
      if keep(s[0]) then [s[0]] + rest else rest
  }

  /** Row-by-row projection (a SELECT list). */
  function Project<T, U>(s: seq<T>, f: T -> U): (r: seq<U>)
    ensures |r| == |s|
    ensures forall i :: 0 <= i < |s| ==> r[i] == f(s[i])
  {
    if s == [] then [] else [f(s[0])] + Project(s[1..], f)
  }

  /** Every row's key is at least the key of every later row. */
  ghost predicate SortedDesc<T>(s: seq<T>, key: T -> int)
  {
    forall i, j :: 0 <= i < j < |s| ==> key(s[i]) >= key(s[j])
  }

  /** Place x before the first row whose key is strictly smaller than x's. */
  function InsertDesc<T>(x: T, s: seq<T>, key: T -> int): (r: seq<T>)
    requires SortedDesc(s, key)
    ensures multiset(r) == multiset(s) + multiset{x}
    ensures SortedDesc(r, key)
    ensures |r| == |s| + 1
    ensures r[0] == x || (|s| > 0 && r[0] == s[0])
  {
    if s == [] then [x]
    else if key(s[0]) >= key(x) then
      var rest := InsertDesc(x, s[1..], key);
      KeepHead(x, s, rest, key);
      [s[0]] + rest
    else
      ConsSorted(x, s, key);
      [x] + s
  }

  /** The head stays in front of the sorted rest with x inserted into it. */
  lemma KeepHead<T>(x: T, s: seq<T>, rest: seq<T>, key: T -> int)
    requires SortedDesc(s, key) && |s| > 0 && key(s[0]) >= key(x)
    requires multiset(rest) == multiset(s[1..]) + multiset{x} && SortedDesc(rest, key)
    requires |rest| > 0 && (rest[0] == x || (|s| > 1 && rest[0] == s[1]))
    ensures multiset([s[0]] + rest) == multiset(s) + multiset{x}
    ensures SortedDesc([s[0]] + rest, key)
  {
    assert s == [s[0]] + s[1..];
    ConsSorted(s[0], rest, key);
  }

  /** A row keyed at least as high as the head of a sorted sequence may go in front of it. */
  lemma ConsSorted<T>(a: T, s: seq<T>, key: T -> int)
    requires SortedDesc(s, key) && (|s| > 0 ==> key(a) >= key(s[0]))
    ensures SortedDesc([a] + s, key)
  {
    var r := [a] + s;
    forall i, j | 0 <= i < j < |r| ensures key(r[i]) >= key(r[j]) {
      if i == 0 {
        assert r[j] == s[j - 1];
      } else {
        assert r[i] == s[i - 1] && r[j] == s[j - 1];
      }
    }
  }

  /**
   * `ORDER BY key DESC`: a sorted permutation of the rows. Rows with equal keys
   * come out in reverse table order; SQL leaves their order unspecified, so this
   * is one of the orders it allows.
   */
  function SortDesc<T>(s: seq<T>, key: T -> int): (r: seq<T>)
    ensures multiset(r) == multiset(s)
    ensures SortedDesc(r, key)
    ensures |r| == |s|
  {
    if s == [] then []
    else
      assert s == [s[0]] + s[1..];
      InsertDesc(s[0], SortDesc(s[1..], key), key)
  }

  /** A row of a permutation is a row of the original. */
  lemma PermutationMembers<T(!new)>(r: seq<T>, s: seq<T>)
    requires multiset(r) == multiset(s)
    ensures forall x :: x in r <==> x in s
  {
    forall x ensures x in r <==> x in s {
      assert x in r <==> x in multiset(r);
      assert x in s <==> x in multiset(s);
    }
  }

  /** `SELECT f(x) FROM s WHERE keep(x) ORDER BY key DESC`. */
  function Select<T(!new), U>(s: seq<T>, keep: T -> bool, f: T -> U, key: U -> int): (r: seq<U>)
    ensures SortedDesc(r, key)
    ensures |r| == |Filter(s, keep)| <= |s|
    ensures multiset(r) == multiset(Project(Filter(s, keep), f))
  {
    SortDesc(Project(Filter(s, keep), f), key)
  }

  /** A row is selected exactly when it is the projection of a kept row of the table. */
  lemma SelectMembers<T(!new), U(!new)>(s: seq<T>, keep: T -> bool, f: T -> U, key: U -> int, y: U)
    ensures y in Select(s, keep, f, key) <==> exists x :: x in s && keep(x) && y == f(x)
  {
    var kept := Filter(s, keep);
    var rows := Project(kept, f);
    PermutationMembers(Select(s, keep, f, key), rows);
    if y in rows {
      var i :| 0 <= i < |rows| && rows[i] == y;
      assert kept[i] in multiset(kept);
    }
    if exists x :: x in s && keep(x) && y == f(x) {
      var x :| x in s && keep(x) && y == f(x);
      assert multiset(kept)[x] == multiset(s)[x];
      assert x in multiset(kept);
      var i :| 0 <= i < |kept| && kept[i] == x;
      assert rows[i] == y;
    }
  }
}
