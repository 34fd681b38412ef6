/** List.sort with a comparator that subtracts integer keys: a stable sort
    into ascending key order. "Newest first" is the ascending order of the
    negated timestamp. Insertion sort stands for the library's merge sort;
    only the order by key and the permutation are relied upon. */
module Sorting {

  ghost predicate SortedBy<T>(s: seq<T>, key: T -> int) {
    forall i, j :: 0 <= i < j < |s| ==> key(s[i]) <= key(s[j])
  }

  /** Places x before the first element whose key is not smaller, so that
      among equal keys the earlier element stays first. */
  function InsertBy<T>(x: T, s: seq<T>, key: T -> int): (r: seq<T>)
    ensures multiset(r) == multiset(s) + multiset{x}
  {
    if s == [] then [x]
    else if key(x) <= key(s[0]) then [x] + s
    else
      assert s == [s[0]] + s[1..];
      [s[0]] + InsertBy(x, s[1..], key)
  }

  /** Inserting into a sorted sequence keeps it sorted. */
  lemma {:induction false} InsertBySorted<T>(x: T, s: seq<T>, key: T -> int)
    requires SortedBy(s, key)
    ensures SortedBy(InsertBy(x, s, key), key)
  {
    if s != [] && key(s[0]) < key(x) {
      var rest := InsertBy(x, s[1..], key);
      InsertBySorted(x, s[1..], key);
      var r := [s[0]] + rest;
      forall i, j | 0 <= i < j < |r| ensures key(r[i]) <= key(r[j]) {
        var y := r[j];
        assert y == rest[j - 1];
        assert y in multiset(rest);
        if y != x {
          assert y in s[1..];
          var k :| 0 <= k < |s[1..]| && s[1..][k] == y;
          assert s[k + 1] == y;
        }
        if i > 0 {
          assert r[i] == rest[i - 1];
        }
      }
    }
  }

  /** The stable sort: a permutation of s in ascending key order. */
  function SortBy<T>(s: seq<T>, key: T -> int): (r: seq<T>)
    ensures multiset(r) == multiset(s)
    ensures SortedBy(r, key)
  {
    if s == [] then []
    else
      assert s == [s[0]] + s[1..];
      InsertBySorted(s[0], SortBy(s[1..], key), key);
      InsertBy(s[0], SortBy(s[1..], key), key)
  }

  function Firsts<A, B>(s: seq<(A, B)>): (r: seq<A>)
    ensures |r| == |s| && forall i :: 0 <= i < |s| ==> r[i] == s[i].0
  {
    if s == [] then [] else [s[0].0] + Firsts(s[1..])
  }

  function Seconds<A, B>(s: seq<(A, B)>): (r: seq<B>)
    ensures |r| == |s| && forall i :: 0 <= i < |s| ==> r[i] == s[i].1
  {
    if s == [] then [] else [s[0].1] + Seconds(s[1..])
  }

  lemma PairsCons<A, B>(x: (A, B), s: seq<(A, B)>)
    ensures Firsts([x] + s) == [x.0] + Firsts(s)
    ensures Seconds([x] + s) == [x.1] + Seconds(s)
  {
    assert ([x] + s)[1..] == s;
  }

  lemma PairsSnoc<A, B>(s: seq<(A, B)>, x: (A, B))
    ensures Firsts(s + [x]) == Firsts(s) + [x.0]
    ensures Seconds(s + [x]) == Seconds(s) + [x.1]
  {
  }

  /** Sorting pairs by a key of their second components sorts the second
      components exactly as sorting them alone would. */
  lemma {:induction false} InsertBySeconds<A, B>(x: (A, B), s: seq<(A, B)>, pairKey: ((A, B)) -> int, key: B -> int)
    requires forall p :: pairKey(p) == key(p.1)
    ensures Seconds(InsertBy(x, s, pairKey)) == InsertBy(x.1, Seconds(s), key)
  {
    if s == [] {
    } else if pairKey(x) <= pairKey(s[0]) {
      PairsCons(x, s);
    } else {
      var rest := InsertBy(x, s[1..], pairKey);
      assert InsertBy(x, s, pairKey) == [s[0]] + rest;
      InsertBySeconds(x, s[1..], pairKey, key);
      PairsCons(s[0], rest);
    }
  }

  /** ... and moves the first components along with them. */
  lemma {:induction false} InsertByFirsts<A, B>(x: (A, B), s: seq<(A, B)>, pairKey: ((A, B)) -> int)
    ensures multiset(Firsts(InsertBy(x, s, pairKey))) == multiset(Firsts(s)) + multiset{x.0}
  {
    if s == [] {
    } else if pairKey(x) <= pairKey(s[0]) {
      PairsCons(x, s);
    } else {
      var rest := InsertBy(x, s[1..], pairKey);
      assert InsertBy(x, s, pairKey) == [s[0]] + rest;
      InsertByFirsts(x, s[1..], pairKey);
      PairsCons(s[0], rest);
    }
  }

  lemma {:induction false} SortBySeconds<A, B>(s: seq<(A, B)>, pairKey: ((A, B)) -> int, key: B -> int)
    requires forall p :: pairKey(p) == key(p.1)
    ensures Seconds(SortBy(s, pairKey)) == SortBy(Seconds(s), key)
  {
    if s != [] {
      var sorted := SortBy(s[1..], pairKey);
      assert SortBy(s, pairKey) == InsertBy(s[0], sorted, pairKey);
      SortBySeconds(s[1..], pairKey, key);
      InsertBySeconds(s[0], sorted, pairKey, key);
      var t := Seconds(s);
      assert t != [] && t[0] == s[0].1 && t[1..] == Seconds(s[1..]);
      assert SortBy(t, key) == InsertBy(t[0], SortBy(t[1..], key), key);
    }
  }

  lemma {:induction false} SortByFirsts<A, B>(s: seq<(A, B)>, pairKey: ((A, B)) -> int)
    ensures multiset(Firsts(SortBy(s, pairKey))) == multiset(Firsts(s))
  {
    if s != [] {
      var sorted := SortBy(s[1..], pairKey);
      assert SortBy(s, pairKey) == InsertBy(s[0], sorted, pairKey);
      SortByFirsts(s[1..], pairKey);
      InsertByFirsts(s[0], sorted, pairKey);
      assert Firsts(s) == [s[0].0] + Firsts(s[1..]);
    }
  }
}
