/**
 * `ORDER BY` on one or two columns. A sort key is a pair compared
 * lexicographically; a descending column is sorted on its negation.
 * Rows with equal keys may come out in any order in SQL, so the only
 * promises made are sortedness and being a permutation of the input.
 */
module Sorting {
  import opened Seqs

  datatype Key = Key(major: int, minor: int)

  predicate KeyLe(a: Key, b: Key) {
    a.major < b.major || (a.major == b.major && a.minor <= b.minor)
  }

  ghost predicate SortedBy<T>(s: seq<T>, key: T -> Key) {
    forall i, j :: 0 <= i < j < |s| ==> KeyLe(key(s[i]), key(s[j]))
  }

  /** A row placed in front of a sorted sequence whose keys are all at or above its own keeps it sorted. */
  lemma ConsSorted<T>(h: T, t: seq<T>, key: T -> Key)
    requires SortedBy(t, key)
    requires forall j :: 0 <= j < |t| ==> KeyLe(key(h), key(t[j]))
    ensures SortedBy([h] + t, key)
  {
    var r := [h] + t;
    forall i, j | 0 <= i < j < |r| ensures KeyLe(key(r[i]), key(r[j])) {
      assert r[j] == t[j - 1];
      if i > 0 {
        assert r[i] == t[i - 1];
      }
    }
  }

  /** A bound that holds of every row of `u` holds of every row of a sub-multiset of it. */
  lemma BoundByMembers<T>(b: Key, r: seq<T>, u: multiset<T>, key: T -> Key)
    requires multiset(r) <= u
    requires forall y :: y in u ==> KeyLe(b, key(y))
    ensures forall j :: 0 <= j < |r| ==> KeyLe(b, key(r[j]))
  {
    forall j | 0 <= j < |r| ensures KeyLe(b, key(r[j])) {
      assert r[j] in multiset(r);
    }
  }

  /** The head of a sorted sequence is at or below all of it. */
  lemma HeadIsLeast<T>(s: seq<T>, key: T -> Key)
    requires SortedBy(s, key) && s != []
    ensures forall y :: y in multiset(s[1..]) ==> KeyLe(key(s[0]), key(y))
  {
    forall y | y in multiset(s[1..]) ensures KeyLe(key(s[0]), key(y)) {
      var k :| 0 <= k < |s[1..]| && s[1..][k] == y;
      assert s[k + 1] == y;
    }
  }

  /** Inserts `x` into the sorted `s`, after every row whose key is not above it. */
  function InsertSorted<T>(x: T, s: seq<T>, key: T -> Key): (r: seq<T>)
    requires SortedBy(s, key)
    ensures SortedBy(r, key)
    ensures multiset(r) == multiset(s) + multiset{x}
    ensures |r| == |s| + 1
  {
    if s == [] then [x]
    else
      assert s == [s[0]] + s[1..];
      if KeyLe(key(s[0]), key(x)) then
        var rest := InsertSorted(x, s[1..], key);
        HeadIsLeast(s, key);
        BoundByMembers(key(s[0]), rest, multiset(s[1..]) + multiset{x}, key);
        ConsSorted(s[0], rest, key);
        [s[0]] + rest
      else
        HeadIsLeast(s, key);
        BoundByMembers(key(x), s[1..], multiset(s[1..]), key);
        ConsSorted(x, s, key);
        [x] + s
  }

  /** Sorts `s` by `key` (insertion sort). */
  function SortBy<T>(s: seq<T>, key: T -> Key): (r: seq<T>)
    ensures SortedBy(r, key)
    ensures multiset(r) == multiset(s)
    ensures |r| == |s|
  {
    if s == [] then []
    else
      assert s == [s[0]] + s[1..];
      InsertSorted(s[0], SortBy(s[1..], key), key)
  }

  /** `WHERE p ORDER BY key`: the rows that satisfy `p`, each as often as in `s`, in key order. */
  lemma SortedSelection<T(!new)>(s: seq<T>, p: T -> bool, key: T -> Key, r: seq<T>)
    requires r == SortBy(Filter(s, p), key)
    ensures forall x :: multiset(r)[x] == if p(x) then multiset(s)[x] else 0
    ensures forall x :: x in r <==> x in s && p(x)
    ensures SortedBy(r, key)
  {
    SameMembers(r, Filter(s, p));
  }
}
