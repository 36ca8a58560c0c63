/** Row filtering as a SQL `WHERE` clause sees it: keep the rows that satisfy a predicate, in order. */
module Seqs {
  import opened Wrappers

  /** The rows of `s` that satisfy `p`, in their original order. */
  function Filter<T(!new)>(s: seq<T>, p: T -> bool): (r: seq<T>)
    ensures |r| <= |s|
    ensures forall x :: x in r <==> x in s && p(x)
    ensures forall x :: multiset(r)[x] == if p(x) then multiset(s)[x] else 0
  {
    if s == [] then []
    else
      assert s == [s[0]] + s[1..];
      (if p(s[0]) then [s[0]] else []) + Filter(s[1..], p)
  }

  /** `const [row] = await query`: the first row that satisfies `p`, if any. */
  function First<T(!new)>(s: seq<T>, p: T -> bool): (r: Option<T>)
    ensures r.None? <==> forall x :: x in s ==> !p(x)
    ensures r.Some? ==> r.value in s && p(r.value)
  {
    if s == [] then None
    else if p(s[0]) then Some(s[0])
    else
      assert forall x :: x in s[1..] ==> x in s;
      First(s[1..], p)
  }

  /** No two rows of `s` share a key. */
  ghost predicate UniqueBy<T>(s: seq<T>, key: T -> int) {
    forall i, j :: 0 <= i < j < |s| ==> key(s[i]) != key(s[j])
  }

  /** A row whose key no row of a key-unique sequence has can be put in front of it. */
  lemma ConsUnique<T>(h: T, t: seq<T>, key: T -> int)
    requires UniqueBy(t, key)
    requires forall y :: y in t ==> key(y) != key(h)
    ensures UniqueBy([h] + t, key)
  {
    var r := [h] + t;
    forall i, j | 0 <= i < j < |r| ensures key(r[i]) != key(r[j]) {
      assert r[j] == t[j - 1];
      if i > 0 {
        assert r[i] == t[i - 1];
      }
    }
  }

  /** In a key-unique sequence no later row shares the first row's key. */
  lemma HeadKeyFresh<T>(s: seq<T>, key: T -> int)
    requires UniqueBy(s, key) && s != []
    ensures forall y :: y in s[1..] ==> key(y) != key(s[0])
  {
    forall y | y in s[1..] ensures key(y) != key(s[0]) {
      var k :| 0 <= k < |s[1..]| && s[1..][k] == y;
      assert s[k + 1] == y;
    }
  }

  /** Filtering keeps keys unique. */
  lemma {:induction false} FilterKeepsUnique<T(!new)>(s: seq<T>, p: T -> bool, key: T -> int)
    requires UniqueBy(s, key)
    ensures UniqueBy(Filter(s, p), key)
  {
    if s != [] {
      assert UniqueBy(s[1..], key) by {
        forall i, j | 0 <= i < j < |s[1..]| ensures key(s[1..][i]) != key(s[1..][j]) {
          assert s[1..][i] == s[i + 1] && s[1..][j] == s[j + 1];
        }
      }
      FilterKeepsUnique(s[1..], p, key);
      var tail := Filter(s[1..], p);
      if p(s[0]) {
        HeadKeyFresh(s, key);
        ConsUnique(s[0], tail, key);
      }
    }
  }

  /** With unique keys, a row is determined by its key. */
  lemma UniqueMembers<T>(s: seq<T>, key: T -> int, a: T, b: T)
    requires UniqueBy(s, key) && a in s && b in s && key(a) == key(b)
    ensures a == b
  {
  }

  /** A filter that every row passes keeps the whole sequence. */
  lemma {:induction false} FilterAll<T(!new)>(s: seq<T>, p: T -> bool)
    requires forall x :: x in s ==> p(x)
    ensures Filter(s, p) == s
  {
    if s != [] {
      FilterAll(s[1..], p);
    }
  }

  /** Two filters that agree on every row of `s` select the same rows. */
  lemma {:induction false} FilterCongruent<T(!new)>(s: seq<T>, p: T -> bool, q: T -> bool)
    requires forall x :: x in s ==> p(x) == q(x)
    ensures Filter(s, p) == Filter(s, q)
  {
    if s != [] {
      FilterCongruent(s[1..], p, q);
    }
  }

  /** With unique keys, each row of `s` occurs in it exactly once. */
  lemma {:induction false} UniqueOccursOnce<T>(s: seq<T>, key: T -> int, x: T)
    requires UniqueBy(s, key) && x in s
    ensures multiset(s)[x] == 1
  {
    assert s == [s[0]] + s[1..];
    var tail := s[1..];
    assert UniqueBy(tail, key) by {
      forall i, j | 0 <= i < j < |tail| ensures key(tail[i]) != key(tail[j]) {
        assert tail[i] == s[i + 1] && tail[j] == s[j + 1];
      }
    }
    if x == s[0] {
      assert forall k :: 0 <= k < |tail| ==> tail[k] != x by {
        forall k | 0 <= k < |tail| ensures tail[k] != x {
          assert tail[k] == s[k + 1];
        }
      }
    } else {
      UniqueOccursOnce(tail, key, x);
    }
  }

  /** Sequences with the same multiset have the same members. */
  lemma SameMembers<T>(a: seq<T>, b: seq<T>)
    requires multiset(a) == multiset(b)
    ensures forall x :: x in a <==> x in b
  {
    forall x ensures x in a <==> x in b {
      assert x in a <==> x in multiset(a);
      assert x in b <==> x in multiset(b);
    }
  }

  /** A filter that rejects exactly one row, which occurs once, shortens the sequence by one. */
  lemma {:induction false} FilterDropsOne<T(!new)>(s: seq<T>, p: T -> bool, x: T)
    requires multiset(s)[x] == 1
    requires forall y :: y in s ==> (p(y) <==> y != x)
    ensures |Filter(s, p)| == |s| - 1
  {
    assert x in multiset(s);
    assert s == [s[0]] + s[1..];
    assert multiset(s) == multiset{s[0]} + multiset(s[1..]);
    if s[0] == x {
      assert x !in multiset(s[1..]);
      FilterAll(s[1..], p);
    } else {
      FilterDropsOne(s[1..], p, x);
    }
  }
}
