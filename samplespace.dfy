/** The explicit sample space: a finite, ordered list of outcomes
    (class `SampleSpace`, dit/samplespace.py:51-207). */
module Explicit {
  import opened Sequences
  import opened Indexes
  import opened FirstSeen
  import opened Outcomes

  class SampleSpace<A(==)> {
    /** The outcomes, in construction order (`_samplespace`). */
    const outcomes: seq<Outcome<A>>
    /** `_length`, fixed at construction. */
    const length: nat
    /** `_outcome_length`: the number of coordinates of the first outcome. */
    const outcomeLength: nat
    /** `_set`, kept for constant-time membership. */
    const members: set<Outcome<A>>

    /** What the constructor establishes; the object is never changed after. */
    ghost predicate Valid() {
      && |outcomes| > 0
      && length == |outcomes|
      && outcomeLength == |outcomes[0]|
      && members == Elems(outcomes)
    }

    /** Every outcome has `outcomeLength` coordinates. The source assumes this
        of its callers and does not check it. */
    ghost predicate Uniform() {
      Outcomes.Uniform(outcomes, outcomeLength)
    }

    /** The source reads `samplespace[0]`, so the list must not be empty. */
    constructor (samplespace: seq<Outcome<A>>)
      requires |samplespace| > 0
      ensures Valid()
      ensures Iterate() == samplespace
    {
      outcomes := samplespace;
      length := |samplespace|;
      outcomeLength := |samplespace[0]|;
      members := Elems(samplespace);
    }

    /** `len(space)`: the length of the constructing list. */
    function Len(): (n: nat)
      requires Valid()
      ensures n == |Iterate()|
    {
      length
    }

    /** `x in space`: answered from the derived set, true exactly when `x`
        occurs in the constructing list. */
    predicate Contains(x: Outcome<A>)
      requires Valid()
      ensures Contains(x) <==> x in Iterate()
    {
      assert x in members <==> x in outcomes;
      x in members
    }

    /** `iter(space)`: the outcomes in construction order. */
    function Iterate(): seq<Outcome<A>> {
      outcomes
    }

    /** `outcome_length()`: the length of the first outcome. */
    function OutcomeLength(): (n: nat)
      requires Valid()
      ensures n == |Iterate()[0]|
    {
      outcomeLength
    }

    /** `coalesce(rvs, extract)`: every outcome is mapped to its coalesced form,
        and the forms are kept once each, in first-seen order. The receiver
        is not changed (it has no mutable state). */
    method Coalesce(groups: seq<seq<int>>, extract: bool) returns (ss: SampleSpace<A>)
      requires Valid() && Uniform() && GroupsInRange(groups, outcomeLength)
      ensures fresh(ss) && ss.Valid() && ss.Uniform()
      ensures ss.Iterate() == Dedup(Images(outcomes, groups, extract))
      ensures ss.OutcomeLength() == CoalescedLength(groups, extract)
    {
      ghost var images := Images(outcomes, groups, extract);
      // The OrderedDict: its keys, and the order in which they were inserted.
      var seen: map<Outcome<A>, bool> := map[];
      var order: seq<Outcome<A>> := [];
      for k := 0 to |outcomes|
        invariant order == Dedup(images[..k])
        invariant forall x :: x in seen <==> x in order
      {
        var c := CoalesceOutcome(outcomes[k], groups, extract);
        assert c == images[k];
        DedupPrefixStep(images, k);
        if c !in seen {
          order := order + [c];
        }
        seen := seen[c := true];
      }
      assert images[..|outcomes|] == images;
      CoalescedUniform(outcomes, outcomeLength, groups, extract);
      ss := new SampleSpace(order);
    }

    /** `marginal(rvs)`: the indexes (distinct, in range) are sorted, then
        coalesced as one extracted group; every outcome is thereby cut down to
        the kept coordinates in their original order. */
    method Marginal(rvs: seq<int>) returns (ss: SampleSpace<A>)
      requires Valid() && Uniform() && InRange(rvs, outcomeLength) && NoDup(rvs)
      ensures fresh(ss) && ss.Valid() && ss.Uniform()
      ensures ss.Iterate() == Dedup(Images(outcomes, [SortIndexes(rvs, outcomeLength)], true))
      ensures ss.Iterate() == Dedup(Projections(outcomes, Elems(rvs)))
      ensures ss.OutcomeLength() == |rvs|
    {
      var indexes := SortIndexes(rvs, outcomeLength);
      ss := Coalesce([indexes], true);
      ExtractAscendingIsProjection(outcomes, outcomeLength, Elems(rvs));
      assert |indexes| == |multiset(indexes)| == |rvs|;
    }

    /** `marginalize(rvs)`: keeps the coordinates not named in `rvs`, in
        ascending order; marginalizing nothing gives back a space with the same
        outcomes when those are distinct. */
    method Marginalize(rvs: seq<int>) returns (ss: SampleSpace<A>)
      requires Valid() && Uniform() && InRange(rvs, outcomeLength)
      ensures fresh(ss) && ss.Valid() && ss.Uniform()
      ensures ss.Iterate() == Dedup(Images(outcomes, [Kept(outcomeLength, rvs)], true))
      ensures ss.Iterate() == Dedup(Projections(outcomes, set i | 0 <= i < outcomeLength && i !in rvs))
      ensures ss.OutcomeLength() == |Kept(outcomeLength, rvs)|
      ensures rvs == [] && NoDup(outcomes) ==> ss.Iterate() == outcomes
    {
      var indexes := Kept(outcomeLength, rvs);
      IncreasingNoDup(indexes);
      ss := Marginal(indexes);
      SortKeepsAscending(indexes, outcomeLength);
      KeptElems(outcomeLength, rvs);
      if rvs == [] && NoDup(outcomes) {
        ProjectionsKeepAll(outcomes, outcomeLength, set i | 0 <= i < outcomeLength && i !in rvs);
        DedupKeepsAllIffDistinct(outcomes);
      }
    }
  }

  /** Deduplicating a non-empty list of outcomes of one length leaves a
      non-empty list of outcomes of that length. */
  lemma DedupUniform<A>(os: seq<Outcome<A>>, n: nat)
    requires |os| > 0 && Uniform(os, n)
    ensures |Dedup(os)| > 0 && Uniform(Dedup(os), n)
  {
    assert os[0] in Dedup(os);
    forall k | 0 <= k < |Dedup(os)| ensures |Dedup(os)[k]| == n {
      assert Dedup(os)[k] in os;
    }
  }

  /** Coalescing the outcomes of a uniform, non-empty space gives a
      non-empty list of outcomes of the coalesced length, also after the
      repeats are dropped. */
  lemma CoalescedUniform<A>(os: seq<Outcome<A>>, n: nat, groups: seq<seq<int>>, extract: bool)
    requires |os| > 0 && Uniform(os, n) && GroupsInRange(groups, n)
    ensures |Dedup(Images(os, groups, extract))| > 0
    ensures Uniform(Dedup(Images(os, groups, extract)), CoalescedLength(groups, extract))
  {
    ImagesUniform(os, n, groups, extract);
    DedupUniform(Images(os, groups, extract), CoalescedLength(groups, extract));
  }

  /** Projecting outcomes of length `n` onto every position keeps them as
      they are. */
  lemma ProjectionsKeepAll<A>(os: seq<Outcome<A>>, n: nat, keep: set<int>)
    requires Uniform(os, n) && forall i :: 0 <= i < n ==> i in keep
    ensures Projections(os, keep) == os
  {
    forall k | 0 <= k < |os| ensures Projections(os, keep)[k] == os[k] {
      ProjectEverything(os[k], keep);
    }
  }
}
