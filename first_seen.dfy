/** Order-preserving deduplication: the keys of an insertion-ordered
    dictionary after setting `d[x] = True` for each `x` of a sequence in turn
    (the `OrderedDict` of dit/samplespace.py:147-153). */
module FirstSeen {
  import opened Sequences

  /** The distinct elements of `s`, each at the place it was first seen. */
  function Dedup<T(==)>(s: seq<T>): (r: seq<T>)
    ensures NoDup(r)
    ensures forall i :: 0 <= i < |r| ==> r[i] in s
    ensures forall i :: 0 <= i < |s| ==> s[i] in r
    ensures |r| <= |s|
    decreases |s|
  {
    if s == [] then []
    else
      var d := Dedup(s[..|s| - 1]);
      assert s == s[..|s| - 1] + [s[|s| - 1]];
      if s[|s| - 1] in d then d else d + [s[|s| - 1]]
  }

  /** Inserting one more key: a key already present keeps its place, a new
      key goes last. */
  lemma DedupSnoc<T>(s: seq<T>, c: T)
    ensures Dedup(s + [c]) == if c in Dedup(s) then Dedup(s) else Dedup(s) + [c]
  {
    assert (s + [c])[..|s|] == s;
  }

  /** One more step of the insertion loop over `s`: its `k`-th element is
      kept at the end when it has not been seen among the first `k`. */
  lemma DedupPrefixStep<T>(s: seq<T>, k: nat)
    requires k < |s|
    ensures Dedup(s[..k + 1]) == if s[k] in Dedup(s[..k]) then Dedup(s[..k]) else Dedup(s[..k]) + [s[k]]
  {
    assert s[..k + 1] == s[..k] + [s[k]];
    DedupSnoc(s[..k], s[k]);
  }

  /** The position where `x` first occurs in `s`. */
  function FirstIndex<T(==)>(s: seq<T>, x: T): (k: nat)
    requires x in s
    ensures k < |s| && s[k] == x && x !in s[..k]
  {
    if s[0] == x then 0
    else
      var k := FirstIndex(s[1..], x);
      assert s[1..][..k] == s[1..k + 1];
      k + 1
  }

  lemma FirstIndexIs<T>(s: seq<T>, x: T, k: nat)
    requires k < |s| && s[k] == x && x !in s[..k]
    ensures FirstIndex(s, x) == k
  {
    var f := FirstIndex(s, x);
    assert forall j :: 0 <= j < k ==> s[..k][j] == s[j];
    assert forall j :: 0 <= j < f ==> s[..f][j] == s[j];
  }

  /** Appending to `s` does not move the first occurrence of an element
      already in `s`. */
  lemma FirstIndexPrefix<T>(s: seq<T>, y: T, x: T)
    requires x in s
    ensures FirstIndex(s + [y], x) == FirstIndex(s, x)
  {
    var k := FirstIndex(s, x);
    assert (s + [y])[..k] == s[..k];
    FirstIndexIs(s + [y], x, k);
  }

  /** The deduplicated sequence lists its elements in the order of their
      first occurrence in the input. */
  lemma {:induction false} DedupFirstSeenOrder<T>(s: seq<T>)
    ensures forall i, j :: 0 <= i < j < |Dedup(s)| ==>
      FirstIndex(s, Dedup(s)[i]) < FirstIndex(s, Dedup(s)[j])
    decreases |s|
  {
    if s != [] {
      var n := |s| - 1;
      assert s == s[..n] + [s[n]];
      DedupFirstSeenOrder(s[..n]);
      FirstSeenOrderStep(s[..n], s[n]);
    }
  }

  /** Appending one element keeps the deduplicated sequence in first-seen
      order. */
  lemma FirstSeenOrderStep<T>(p: seq<T>, y: T)
    requires forall i, j :: 0 <= i < j < |Dedup(p)| ==>
      FirstIndex(p, Dedup(p)[i]) < FirstIndex(p, Dedup(p)[j])
    ensures forall i, j :: 0 <= i < j < |Dedup(p + [y])| ==>
      FirstIndex(p + [y], Dedup(p + [y])[i]) < FirstIndex(p + [y], Dedup(p + [y])[j])
  {
    var s := p + [y];
    var d := Dedup(p);
    DedupSnoc(p, y);
    forall k | 0 <= k < |d| ensures FirstIndex(s, d[k]) == FirstIndex(p, d[k]) < |p| {
      FirstIndexPrefix(p, y, d[k]);
    }
    if y !in d {
      FirstSeenNew(p, y);
    }
  }

  /** A new element goes last and is first seen after every earlier one. */
  lemma FirstSeenNew<T>(p: seq<T>, y: T)
    requires y !in Dedup(p)
    requires forall k :: 0 <= k < |Dedup(p)| ==>
      FirstIndex(p + [y], Dedup(p)[k]) < |p|
    ensures FirstIndex(p + [y], y) == |p|
    ensures forall k :: 0 <= k < |Dedup(p)| ==>
      FirstIndex(p + [y], Dedup(p)[k]) < FirstIndex(p + [y], y)
  {
    var s := p + [y];
    assert y !in p;
    assert s[..|p|] == p;
    FirstIndexIs(s, y, |p|);
  }

  /** Deduplication changes nothing exactly when the input has no repeats. */
  lemma {:induction false} DedupKeepsAllIffDistinct<T>(s: seq<T>)
    ensures |Dedup(s)| == |s| <==> NoDup(s)
    ensures NoDup(s) ==> Dedup(s) == s
    decreases |s|
  {
    if s != [] {
      var n := |s| - 1;
      var p, y := s[..n], s[n];
      assert s == p + [y];
      DedupKeepsAllIffDistinct(p);
      if NoDup(s) {
        assert NoDup(p);
        assert y !in p;
      } else if NoDup(p) {
        var i, j :| 0 <= i < j < |s| && s[i] == s[j];
        assert j == n && s[i] in p;
      }
    }
  }
}
