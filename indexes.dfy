/** Normalisation of random-variable indexes, shared by `marginal` and
    `marginalize` of both sample-space forms (dit/samplespace.py:175, 199-202). */
module Indexes {
  import opened Sequences

  /** Strictly ascending, hence also duplicate-free. */
  ghost predicate Increasing(s: seq<int>) {
    forall i, j :: 0 <= i < j < |s| ==> s[i] < s[j]
  }

  /** `[0, 1, ..., n - 1]`, i.e. `range(n)`. */
  function Range(n: nat): seq<int> {
    seq(n, i requires 0 <= i < n => i)
  }

  /** `[i for i in range(n) if i in keep]`. */
  function Ascending(n: nat, keep: set<int>): (r: seq<int>)
    ensures Increasing(r) && InRange(r, n)
    ensures forall i :: i in r <==> 0 <= i < n && i in keep
  {
    if n == 0 then []
    else
      var r := Ascending(n - 1, keep);
      assert forall k :: 0 <= k < |r| ==> r[k] in r;
      r + (if n - 1 in keep then [n - 1] else [])
  }

  /** The index list `marginal` passes on: `rvs` (which must be duplicate-free
      and in range) in ascending order. */
  function SortIndexes(rvs: seq<int>, n: nat): (r: seq<int>)
    requires InRange(rvs, n) && NoDup(rvs)
    ensures Increasing(r) && InRange(r, n)
    ensures multiset(r) == multiset(rvs)
  {
    var r := Ascending(n, Elems(rvs));
    IncreasingNoDup(r);
    NoDupMultiset(r);
    NoDupMultiset(rvs);
    assert forall x :: multiset(r)[x] == multiset(rvs)[x];
    r
  }

  /** The coordinates `marginalize(rvs)` keeps:
      `[i for i in range(n) if i not in set(rvs)]`. */
  function Kept(n: nat, rvs: seq<int>): (r: seq<int>)
    ensures Increasing(r) && InRange(r, n)
    ensures forall i :: i in r <==> 0 <= i < n && i !in rvs
  {
    Ascending(n, set i | 0 <= i < n && i !in rvs)
  }

  /** The coordinates kept by `marginalize(rvs)`, as a set. */
  lemma KeptElems(n: nat, rvs: seq<int>)
    ensures Elems(Kept(n, rvs)) == set i | 0 <= i < n && i !in rvs
  {
  }

  lemma IncreasingNoDup(s: seq<int>)
    requires Increasing(s)
    ensures NoDup(s)
  {
  }

  /** In a duplicate-free sequence each element occurs exactly once. */
  lemma {:induction false} NoDupMultiset<T>(s: seq<T>)
    requires NoDup(s)
    ensures forall x :: multiset(s)[x] == if x in s then 1 else 0
  {
    if s != [] {
      NoDupMultiset(s[1..]);
      assert s == [s[0]] + s[1..];
      assert s[0] !in s[1..];
      forall x ensures multiset(s)[x] == if x in s then 1 else 0 {
        assert multiset(s) == multiset([s[0]]) + multiset(s[1..]);
      }
    }
  }

  /** An ascending index list is determined by its elements. */
  lemma {:induction false} IncreasingUnique(a: seq<int>, b: seq<int>)
    requires Increasing(a) && Increasing(b)
    requires forall x :: x in a <==> x in b
    ensures a == b
  {
    assert b != [] ==> b[0] in b;
    if a != [] {
      SameHeadSameTail(a, b);
      IncreasingUnique(a[1..], b[1..]);
      assert a == [a[0]] + a[1..] && b == [b[0]] + b[1..];
    }
  }

  /** Two ascending lists with the same elements start with the same (least)
      element, and the rest of each has the same elements. */
  lemma SameHeadSameTail(a: seq<int>, b: seq<int>)
    requires Increasing(a) && Increasing(b) && a != []
    requires forall x :: x in a <==> x in b
    ensures b != [] && a[0] == b[0]
    ensures Increasing(a[1..]) && Increasing(b[1..])
    ensures forall x :: x in a[1..] <==> x in b[1..]
  {
    assert a[0] in a;
    var i :| 0 <= i < |b| && b[i] == a[0];
    assert b[0] in b;
    var j :| 0 <= j < |a| && a[j] == b[0];
    assert b[0] <= b[i] && a[0] <= a[j];
    forall x ensures x in a[1..] <==> x in b[1..] {
      if x in a[1..] {
        var k :| 0 <= k < |a[1..]| && a[1..][k] == x;
        assert a[k + 1] == x && x > a[0] && x in a;
        var m :| 0 <= m < |b| && b[m] == x;
        assert b[1..][m - 1] == x;
      }
      if x in b[1..] {
        var k :| 0 <= k < |b[1..]| && b[1..][k] == x;
        assert b[k + 1] == x && x > b[0] && x in b;
        var m :| 0 <= m < |a| && a[m] == x;
        assert a[1..][m - 1] == x;
      }
    }
  }

  /** `marginal(S)` and `marginalize` of the complement of `S` select the very
      same coordinate list. */
  lemma MarginalizeComplementIsMarginal(rvs: seq<int>, n: nat)
    requires InRange(rvs, n) && NoDup(rvs)
    ensures Kept(n, Kept(n, rvs)) == SortIndexes(rvs, n)
  {
    var s := SortIndexes(rvs, n);
    forall x ensures x in s <==> x in rvs {
      assert x in s <==> x in multiset(s);
    }
    forall x | x in rvs ensures 0 <= x < n {
      var k :| 0 <= k < |rvs| && rvs[k] == x;
    }
    IncreasingUnique(Kept(n, Kept(n, rvs)), s);
  }

  /** An index list that is already ascending is left as it is, so
      `coalesce([S], extract=True)` and `marginal(S)` agree on it. */
  lemma SortKeepsAscending(rvs: seq<int>, n: nat)
    requires InRange(rvs, n) && Increasing(rvs)
    ensures SortIndexes(rvs, n) == rvs
  {
    IncreasingNoDup(rvs);
    var s := SortIndexes(rvs, n);
    forall x ensures x in s <==> x in rvs {
      assert x in s <==> x in multiset(s);
    }
    IncreasingUnique(s, rvs);
  }

  /** Marginalizing nothing keeps every coordinate, in order. */
  lemma KeptNothing(n: nat)
    ensures Kept(n, []) == Range(n)
  {
    var r := Range(n);
    assert Increasing(r);
    forall x ensures x in r <==> 0 <= x < n {
      if 0 <= x < n { assert r[x] == x; }
    }
    IncreasingUnique(Kept(n, []), r);
  }

  /** The elements of `o` whose positions are in `keep`, in their original
      relative order. */
  function Project<T>(o: seq<T>, keep: set<int>): seq<T> {
    if o == [] then []
    else Project(o[..|o| - 1], keep) + (if |o| - 1 in keep then [o[|o| - 1]] else [])
  }

  /** Selecting the positions of `keep` in ascending order is the projection
      onto `keep`: the kept coordinates in their original relative order. */
  lemma {:induction false} SelectAscendingIsProject<T>(o: seq<T>, keep: set<int>)
    ensures Select(o, Ascending(|o|, keep)) == Project(o, keep)
    decreases |o|
  {
    if o != [] {
      var n := |o| - 1;
      var p := o[..n];
      var a := Ascending(n, keep);
      SelectAscendingIsProject(p, keep);
      assert Select(o, a) == Select(p, a);
      if n in keep {
        assert Ascending(|o|, keep) == a + [n];
        assert Select(o, a + [n]) == Select(o, a) + [o[n]];
      } else {
        assert Ascending(|o|, keep) == a;
      }
    }
  }

  /** Projecting onto a set that holds every position changes nothing. */
  lemma {:induction false} ProjectEverything<T>(o: seq<T>, keep: set<int>)
    requires forall i :: 0 <= i < |o| ==> i in keep
    ensures Project(o, keep) == o
    decreases |o|
  {
    if o != [] {
      ProjectEverything(o[..|o| - 1], keep);
      assert o == o[..|o| - 1] + [o[|o| - 1]];
    }
  }
}
