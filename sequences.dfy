/** Small facts about sequences shared by the rest of the model: distinctness,
    selection by a list of positions, and counting distinct elements. */
module Sequences {

  /** No element occurs twice. */
  ghost predicate NoDup<T>(s: seq<T>) {
    forall i, j :: 0 <= i < j < |s| ==> s[i] != s[j]
  }

  /** Every position in `rv` is a valid index into a sequence of length `n`. */
  predicate InRange(rv: seq<int>, n: int) {
    forall k :: 0 <= k < |rv| ==> 0 <= rv[k] < n
  }

  /** `[s[i] for i in rv]`: the elements at the listed positions, in the order
      listed; a repeated position copies its element again. */
  function Select<T>(s: seq<T>, rv: seq<int>): seq<T>
    requires InRange(rv, |s|)
  {
    seq(|rv|, k requires 0 <= k < |rv| => s[rv[k]])
  }

  /** The set of elements of a sequence. */
  function Elems<T>(s: seq<T>): set<T> {
    set x | x in s
  }

  lemma {:induction false} NoDupElemsSize<T>(s: seq<T>)
    requires NoDup(s)
    ensures |Elems(s)| == |s|
  {
    if s != [] {
      NoDupElemsSize(s[1..]);
      assert Elems(s) == {s[0]} + Elems(s[1..]);
      assert s[0] !in Elems(s[1..]);
    }
  }

  lemma {:induction false} ElemsSizeAtMost<T>(s: seq<T>)
    ensures |Elems(s)| <= |s|
  {
    if s != [] {
      ElemsSizeAtMost(s[1..]);
      assert Elems(s) == {s[0]} + Elems(s[1..]);
    }
  }

  /** A duplicate-free sequence whose elements all occur in `t` is no longer
      than `t`. */
  lemma NoDupLengthBound<T>(s: seq<T>, t: seq<T>)
    requires NoDup(s)
    requires Elems(s) <= Elems(t)
    ensures |s| <= |t|
  {
    NoDupElemsSize(s);
    ElemsSizeAtMost(t);
    SubsetSize(Elems(s), Elems(t));
  }

  lemma {:induction false} SubsetSize<T>(a: set<T>, b: set<T>)
    requires a <= b
    ensures |a| <= |b|
    decreases a
  {
    if a != {} {
      var x :| x in a;
      SubsetSize(a - {x}, b - {x});
    }
  }

  /** Two duplicate-free sequences with the same elements have the same length. */
  lemma SameElemsSameLength<T>(s: seq<T>, t: seq<T>)
    requires NoDup(s) && NoDup(t)
    requires Elems(s) == Elems(t)
    ensures |s| == |t|
  {
    NoDupLengthBound(s, t);
    NoDupLengthBound(t, s);
  }

  /** Two distinct sequences with no element in common concatenate to a
      distinct sequence. */
  lemma NoDupAppend<T>(a: seq<T>, b: seq<T>)
    requires NoDup(a) && NoDup(b)
    requires forall x :: x in a ==> x !in b
    ensures NoDup(a + b)
  {
    forall i, j | 0 <= i < j < |a + b| ensures (a + b)[i] != (a + b)[j] {
      if j < |a| {
        assert (a + b)[i] == a[i] && (a + b)[j] == a[j];
      } else if i >= |a| {
        assert (a + b)[i] == b[i - |a|] && (a + b)[j] == b[j - |a|];
      } else {
        assert (a + b)[i] in a && (a + b)[j] in b;
      }
    }
  }
}
