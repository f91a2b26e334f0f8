/** The `ORDER BY` of the two index queries: rows are sorted on a key made of
    the ordering column and, because the database leaves ties unordered, the
    row id as tie-breaker. Insertion sort is the reference ordering. */
module Ordering {

  /** A sort key: the ordering column first, the row id second. */
  datatype Key = Key(primary: int, secondary: int)

  /** Lexicographic order on keys. */
  predicate KeyLe(a: Key, b: Key) {
    a.primary < b.primary || (a.primary == b.primary && a.secondary <= b.secondary)
  }

  /** s is in ascending key order. */
  predicate SortedBy<T>(s: seq<T>, key: T -> Key) {
    forall i, j :: 0 <= i < j < |s| ==> KeyLe(key(s[i]), key(s[j]))
  }

  /** Puts x into sorted s after every element with a smaller key. */
  function InsertBy<T(==)>(x: T, s: seq<T>, key: T -> Key): (r: seq<T>)
    requires SortedBy(s, key)
    ensures |r| == |s| + 1
    ensures forall i :: 0 <= i < |r| ==> r[i] == x || r[i] in s
    ensures SortedBy(r, key)
    ensures multiset(r) == multiset(s) + multiset{x}
  {
    if s == [] then [x]
    else if KeyLe(key(x), key(s[0])) then [x] + s
    else
      var rest := InsertBy(x, s[1..], key);
      assert s == [s[0]] + s[1..];
      HeadBelowRest(s[0], rest, key);
      [s[0]] + rest
  }

  /** Prepending a row whose key is at most every key of a sorted sequence keeps it sorted. */
  lemma HeadBelowRest<T>(h: T, rest: seq<T>, key: T -> Key)
    requires SortedBy(rest, key)
    requires forall i :: 0 <= i < |rest| ==> KeyLe(key(h), key(rest[i]))
    ensures SortedBy([h] + rest, key)
  {
    var r := [h] + rest;
    forall i, j | 0 <= i < j < |r| ensures KeyLe(key(r[i]), key(r[j])) {
      if i > 0 {
        assert r[i] == rest[i - 1] && r[j] == rest[j - 1];
      } else {
        assert r[j] == rest[j - 1];
      }
    }
  }

  /** The rows of s in ascending key order: sorted, and a permutation of s. */
  function SortBy<T(==)>(s: seq<T>, key: T -> Key): (r: seq<T>)
    ensures SortedBy(r, key)
    ensures multiset(r) == multiset(s)
  {
    if s == [] then []
    else
      assert s == [s[0]] + s[1..];
      InsertBy(s[0], SortBy(s[1..], key), key)
  }

  /** Every row of the sorted sequence is a row of the input and vice versa. */
  lemma SortBySameRows<T>(s: seq<T>, key: T -> Key, x: T)
    ensures x in SortBy(s, key) <==> x in s
  {
    var r := SortBy(s, key);
    assert x in r <==> x in multiset(r);
    assert x in s <==> x in multiset(s);
  }

  /** An element at two positions is counted at least twice. */
  lemma RepeatCountsTwice<T>(s: seq<T>, i: nat, j: nat)
    requires i < j < |s| && s[i] == s[j]
    ensures multiset(s)[s[i]] >= 2
  {
    assert s == s[..j] + s[j..];
    assert s[i] == s[..j][i];
    assert s[j] == s[j..][0];
  }

  /** In a sequence without repeats, every element is counted at most once. */
  lemma {:induction false} DistinctCountsOnce<T>(s: seq<T>, x: T)
    requires forall i, j :: 0 <= i < j < |s| ==> s[i] != s[j]
    ensures multiset(s)[x] <= 1
  {
    if s != [] {
      assert s == [s[0]] + s[1..];
      DistinctCountsOnce(s[1..], x);
      if x == s[0] {
        assert forall k :: 0 <= k < |s[1..]| ==> s[1..][k] == s[k + 1];
        assert x !in s[1..];
      }
    }
  }

  /** Sorting a sequence without repeats puts different rows at different positions. */
  lemma SortByNoRepeat<T>(s: seq<T>, key: T -> Key, a: nat, b: nat)
    requires forall i, j :: 0 <= i < j < |s| ==> s[i] != s[j]
    requires a < b < |SortBy(s, key)|
    ensures SortBy(s, key)[a] != SortBy(s, key)[b]
  {
    var r := SortBy(s, key);
    if r[a] == r[b] {
      RepeatCountsTwice(r, a, b);
      DistinctCountsOnce(s, r[a]);
    }
  }
}
