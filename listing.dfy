/**
 * Generic selections over a table held as a sequence in insertion order:
 * the first row matching a condition (a `findOne` with a `where` clause),
 * every row matching it (a `find` with a `where` clause) and the
 * descending sort of an `order: { ...: 'DESC' }` clause.
 */
module Listing {
  import opened Common

  /** Index of the first element satisfying `p`, if any. */
  function FirstIndex<T>(s: seq<T>, p: T -> bool): (r: Option<nat>)
    ensures r.None? <==> forall k :: 0 <= k < |s| ==> !p(s[k])
    ensures r.Some? ==> r.value < |s| && p(s[r.value])
    ensures r.Some? ==> forall k :: 0 <= k < r.value ==> !p(s[k])
  {
    if |s| == 0 then None
    else if p(s[0]) then Some(0)
    else
      match FirstIndex(s[1..], p)
      case None => None
      case Some(k) => Some(k + 1)
  }

  /** The elements satisfying `p`, each with its multiplicity, in their original order. */
  function Select<T(!new)>(s: seq<T>, p: T -> bool): (r: seq<T>)
    ensures forall x :: multiset(r)[x] == if p(x) then multiset(s)[x] else 0
    ensures forall k :: 0 <= k < |r| ==> r[k] in s && p(r[k])
  {
    if |s| == 0 then []
    else
      assert s == [s[0]] + s[1..];
      (if p(s[0]) then [s[0]] else []) + Select(s[1..], p)
  }

  /** No two elements share a key. */
  ghost predicate DistinctBy<T>(s: seq<T>, key: T -> int) {
    forall i, j :: 0 <= i < j < |s| ==> key(s[i]) != key(s[j])
  }

  /** Selecting keeps keys distinct. */
  lemma {:induction false} SelectDistinctBy<T(!new)>(s: seq<T>, p: T -> bool, key: T -> int)
    ensures DistinctBy(s, key) ==> DistinctBy(Select(s, p), key)
  {
    if |s| > 0 && DistinctBy(s, key) {
      var rest := Select(s[1..], p);
      SelectDistinctBy(s[1..], p, key);
      forall k | 0 <= k < |rest|
        ensures key(rest[k]) != key(s[0])
      {
        assert rest[k] in s[1..];
        var m :| 0 <= m < |s[1..]| && s[1..][m] == rest[k];
        assert s[m + 1] == rest[k];
      }
    }
  }

  ghost predicate SortedDescBy<T>(s: seq<T>, key: T -> int) {
    forall i, j :: 0 <= i < j < |s| ==> key(s[i]) >= key(s[j])
  }

  /** Inserts `x` into a descending sequence before the first element whose key is not larger. */
  function InsertDescBy<T>(x: T, s: seq<T>, key: T -> int): (r: seq<T>)
    requires SortedDescBy(s, key)
    ensures |r| == |s| + 1
    ensures key(r[0]) == if |s| == 0 || key(x) >= key(s[0]) then key(x) else key(s[0])
    ensures SortedDescBy(r, key)
    ensures multiset(r) == multiset(s) + multiset{x}
  {
    if |s| == 0 then [x]
    else if key(x) >= key(s[0]) then [x] + s
    else
      assert s == [s[0]] + s[1..];
      [s[0]] + InsertDescBy(x, s[1..], key)
  }

  /** The elements of `s` rearranged so that `key` never increases along the result. */
  function SortDescBy<T>(s: seq<T>, key: T -> int): (r: seq<T>)
    ensures SortedDescBy(r, key)
    ensures multiset(r) == multiset(s)
  {
    if |s| == 0 then []
    else
      assert s == [s[0]] + s[1..];
      InsertDescBy(s[0], SortDescBy(s[1..], key), key)
  }
}
