/** Outcomes and the coordinate-selection maps that build coalesced outcomes
    (dit/samplespace.py:133-152). */
module Outcomes {
  import opened Sequences
  import opened Indexes

  /** A coordinate value. An `Atom` is a plain symbol; a `Tuple` is a
      coalesced coordinate (the inner outcome of one group) or an outcome of
      a nested Cartesian product. */
  datatype Symbol<A> = Atom(value: A) | Tuple(items: seq<Symbol<A>>)

  /** An outcome: one symbol per coordinate. The inner-outcome constructor of
      the source rebuilds an outcome of the original shape from a list of
      symbols; on sequences that is the list itself. */
  type Outcome<A> = seq<Symbol<A>>

  /** Every index of every group is a coordinate of an outcome of length `n`. */
  predicate GroupsInRange(groups: seq<seq<int>>, n: int) {
    forall j :: 0 <= j < |groups| ==> InRange(groups[j], n)
  }

  /** Every outcome has `n` coordinates. */
  ghost predicate Uniform<A>(os: seq<Outcome<A>>, n: nat) {
    forall k :: 0 <= k < |os| ==> |os[k]| == n
  }

  /** Whether the outer tuple is dropped: `len(rvs) == 1 and extract`. */
  predicate Extracts(groups: seq<seq<int>>, extract: bool) {
    |groups| == 1 && extract
  }

  /** The number of coordinates of a coalesced outcome. */
  function CoalescedLength(groups: seq<seq<int>>, extract: bool): nat {
    if Extracts(groups, extract) then |groups[0]| else |groups|
  }

  /** The coalesced form of one outcome: one inner outcome
      `[o[i] for i in g]` per group `g`, wrapped in an outer tuple unless the
      single group is extracted. */
  function CoalesceOutcome<A>(o: Outcome<A>, groups: seq<seq<int>>, extract: bool): Outcome<A>
    requires GroupsInRange(groups, |o|)
  {
    if Extracts(groups, extract) then Select(o, groups[0])
    else seq(|groups|, j requires 0 <= j < |groups| => Tuple(Select(o, groups[j])))
  }

  /** The coalesced form of each outcome, in the original order, repeats kept. */
  function Images<A>(os: seq<Outcome<A>>, groups: seq<seq<int>>, extract: bool): (r: seq<Outcome<A>>)
    requires forall k :: 0 <= k < |os| ==> GroupsInRange(groups, |os[k]|)
  {
    seq(|os|, k requires 0 <= k < |os| => CoalesceOutcome(os[k], groups, extract))
  }

  /** Each outcome projected onto the positions in `keep`. */
  function Projections<A>(os: seq<Outcome<A>>, keep: set<int>): seq<Outcome<A>> {
    seq(|os|, k requires 0 <= k < |os| => Project(os[k], keep))
  }

  /** Shape of a coalesced outcome: the inner value for group `g` has `|g|`
      coordinates, its k-th being the coordinate `g[k]` of the original (so a
      repeated index copies a coordinate again); there is one inner value per
      group, or the single inner value itself when it is extracted. */
  lemma CoalesceOutcomeShape<A>(o: Outcome<A>, groups: seq<seq<int>>, extract: bool)
    requires GroupsInRange(groups, |o|)
    ensures |CoalesceOutcome(o, groups, extract)| == CoalescedLength(groups, extract)
    ensures Extracts(groups, extract) ==>
      forall k :: 0 <= k < |groups[0]| ==> CoalesceOutcome(o, groups, extract)[k] == o[groups[0][k]]
    ensures !Extracts(groups, extract) ==>
      forall j :: 0 <= j < |groups| ==>
        var c := CoalesceOutcome(o, groups, extract)[j];
        c.Tuple? && |c.items| == |groups[j]| &&
        forall k :: 0 <= k < |groups[j]| ==> c.items[k] == o[groups[j][k]]
  {
  }

  /** `coalesce([[0,1,2,0,1,2]], extract=True)` turns `(X,Y,Z)` into
      `(X,Y,Z,X,Y,Z)`. */
  lemma RepeatAllExample<A>(x: Symbol<A>, y: Symbol<A>, z: Symbol<A>)
    ensures CoalesceOutcome([x, y, z], [[0, 1, 2, 0, 1, 2]], true) == [x, y, z, x, y, z]
  {
  }

  /** `coalesce([[0,1],[1,2]])` turns `(X,Y,Z)` into `((X,Y), (Y,Z))`. */
  lemma OverlappingPairsExample<A>(x: Symbol<A>, y: Symbol<A>, z: Symbol<A>)
    ensures CoalesceOutcome([x, y, z], [[0, 1], [1, 2]], false) == [Tuple([x, y]), Tuple([y, z])]
  {
    assert Select([x, y, z], [0, 1]) == [x, y];
    assert Select([x, y, z], [1, 2]) == [y, z];
  }

  /** A coalesced outcome of a uniform space has the coalesced length. */
  lemma ImagesUniform<A>(os: seq<Outcome<A>>, n: nat, groups: seq<seq<int>>, extract: bool)
    requires Uniform(os, n) && GroupsInRange(groups, n)
    ensures Uniform(Images(os, groups, extract), CoalescedLength(groups, extract))
  {
    forall k | 0 <= k < |os| ensures |Images(os, groups, extract)[k]| == CoalescedLength(groups, extract) {
      CoalesceOutcomeShape(os[k], groups, extract);
    }
  }

  /** Coalescing a single ascending group with extraction is projection. */
  lemma {:induction false} ExtractAscendingIsProjection<A>(os: seq<Outcome<A>>, n: nat, keep: set<int>)
    requires Uniform(os, n)
    ensures GroupsInRange([Ascending(n, keep)], n)
    ensures Images(os, [Ascending(n, keep)], true) == Projections(os, keep)
  {
    forall k | 0 <= k < |os|
      ensures Images(os, [Ascending(n, keep)], true)[k] == Projections(os, keep)[k]
    {
      SelectAscendingIsProject(os[k], keep);
    }
  }
}
