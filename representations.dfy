/** The explicit and the implicit form side by side: coalescing a Cartesian
    product at the alphabet level against coalescing the explicit sample
    space that enumerates it (dit/samplespace.py:139-155 against
    dit/samplespace.py:289-301). */
module Representations {
  import opened Sequences
  import opened FirstSeen
  import opened Outcomes
  import opened Alphabets
  import opened Cartesian

  /** No alphabet, at any depth, lists a symbol twice. */
  ghost predicate Distinct<A>(a: Alphabet<A>) {
    match a
    case Flat(s) => NoDup(s)
    case Product(fs) => forall i :: 0 <= i < |fs| ==> Distinct(fs[i])
  }

  /** No coordinate is named twice, neither within a group nor across groups. */
  predicate Disjoint(groups: seq<seq<int>>) {
    forall j1, k1, j2, k2 |
      0 <= j1 < |groups| && 0 <= k1 < |groups[j1]| && 0 <= j2 < |groups| && 0 <= k2 < |groups[j2]| ::
      groups[j1][k1] == groups[j2][k2] ==> j1 == j2 && k1 == k2
  }

  // ---- the two representations ------------------------------------------

  /** Every coordinate selection of an outcome of the product is an outcome
      of the product of the selected alphabets. */
  lemma SelectInSelected<A>(fs: seq<Alphabet<A>>, o: Outcome<A>, g: seq<int>)
    requires o in Iterate(Product(fs)) && InRange(g, |fs|)
    ensures |o| == |fs|
    ensures Select(o, g) in Iterate(Product(Select(fs, g)))
  {
    EnumerateMember(Lists(fs), o);
    EnumerateMember(Lists(Select(fs, g)), Select(o, g));
  }

  /** Coalescing the implicit product accounts for every outcome that
      coalescing its explicit enumeration yields: each coalesced form of an
      enumerated outcome is an outcome of the coalesced product. */
  lemma ImagesInCoalesced<A>(cp: Alphabet<A>, groups: seq<seq<int>>, extract: bool, o: Outcome<A>)
    requires Constructed(cp) && GroupsInRange(groups, |cp.factors|)
    requires Coalesce(cp, groups, extract).Ok? && o in Iterate(cp)
    ensures GroupsInRange(groups, |o|)
    ensures CoalesceOutcome(o, groups, extract) in Iterate(Coalesce(cp, groups, extract).value)
  {
    var fs := cp.factors;
    EnumerateMember(Lists(fs), o);
    CoalesceResult(cp, groups, extract);
    var c := CoalesceOutcome(o, groups, extract);
    if Extracts(groups, extract) {
      SelectInSelected(fs, o, groups[0]);
    } else {
      var ps := seq(|groups|, j requires 0 <= j < |groups| => Product(Select(fs, groups[j])));
      forall j | 0 <= j < |groups| ensures c[j] in Lists(ps)[j] {
        SelectInSelected(fs, o, groups[j]);
        TupleInElements(ps[j], Select(o, groups[j]));
      }
      EnumerateMember(Lists(ps), c);
    }
  }

  /** The number of outcomes of the explicit coalesce of the enumerated
      product never exceeds the length the implicit coalesce computes. */
  lemma ExplicitNoLargerThanImplicit<A>(cp: Alphabet<A>, groups: seq<seq<int>>, extract: bool)
    requires Constructed(cp) && GroupsInRange(groups, |cp.factors|)
    requires Coalesce(cp, groups, extract).Ok?
    ensures Uniform(Iterate(cp), |cp.factors|)
    ensures |Dedup(Images(Iterate(cp), groups, extract))| <= Length(Coalesce(cp, groups, extract).value)
  {
    var os := Iterate(cp);
    assert Uniform(os, OutcomeLength(cp));
    var images := Images(os, groups, extract);
    var d := Dedup(images);
    var target := Iterate(Coalesce(cp, groups, extract).value);
    forall x | x in Elems(d) ensures x in Elems(target) {
      var k :| 0 <= k < |images| && images[k] == x;
      ImagesInCoalesced(cp, groups, extract, os[k]);
    }
    NoDupLengthBound(d, target);
  }

  /** The outcomes of a product of one list alphabet are its symbols, each
      alone, in list order. */
  lemma {:induction false} PairingsSingletons<T>(xs: seq<T>)
    ensures Pairings(xs, [[]]) == seq(|xs|, k requires 0 <= k < |xs| => [xs[k]])
  {
    if xs != [] {
      PairingsSingletons(xs[1..]);
      assert [xs[0]] + [] == [xs[0]];
    }
  }

  /** The implicit length overcounts when an index repeats. Over one list
      alphabet `s` without repeats, `coalesce([[0, 0]], extract=True)` of
      the explicit enumeration has the `|s|` outcomes `(x, x)`, one per
      symbol `x`, while the implicit product has length `|s| * |s|`: for the
      alphabet `{0, 1}`, 2 against 4. */
  lemma RepeatedIndexOvercounts<A>(s: seq<Symbol<A>>)
    requires |s| > 0 && NoDup(s)
    ensures Constructed(Product([Flat(s)]))
    ensures Coalesce(Product([Flat(s)]), [[0, 0]], true).Ok?
    ensures Uniform(Iterate(Product([Flat(s)])), 1)
    ensures |Dedup(Images(Iterate(Product([Flat(s)])), [[0, 0]], true))| == |s|
    ensures Length(Coalesce(Product([Flat(s)]), [[0, 0]], true).value) == |s| * |s|
  {
    SingleListIterate(s);
    RepeatedImagesDistinct(s);
    RepeatedLength(s);
  }

  lemma SingleListIterate<A>(s: seq<Symbol<A>>)
    requires |s| > 0
    ensures Constructed(Product([Flat(s)]))
    ensures Iterate(Product([Flat(s)])) == seq(|s|, k requires 0 <= k < |s| => [s[k]])
  {
    var cp := Product([Flat(s)]);
    ConstructCases(cp.factors);
    assert Lists(cp.factors) == [s];
    assert Enumerate([s][1..]) == [[]];
    PairingsSingletons(s);
  }

  lemma RepeatedImagesDistinct<A>(s: seq<Symbol<A>>)
    requires NoDup(s)
    ensures |Dedup(Images(seq(|s|, k requires 0 <= k < |s| => [s[k]]), [[0, 0]], true))| == |s|
  {
    var os := seq(|s|, k requires 0 <= k < |s| => [s[k]]);
    var images := Images(os, [[0, 0]], true);
    forall k | 0 <= k < |s| ensures images[k] == [s[k], s[k]] {
    }
    assert NoDup(images) by {
      forall i, j | 0 <= i < j < |images| ensures images[i] != images[j] {
        assert images[i][0] == s[i] && images[j][0] == s[j];
      }
    }
    DedupKeepsAllIffDistinct(images);
  }

  lemma RepeatedLength<A>(s: seq<Symbol<A>>)
    requires |s| > 0
    ensures Constructed(Product([Flat(s)]))
    ensures Coalesce(Product([Flat(s)]), [[0, 0]], true).Ok?
    ensures Length(Coalesce(Product([Flat(s)]), [[0, 0]], true).value) == |s| * |s|
  {
    var cp := Product([Flat(s)]);
    ConstructCases(cp.factors);
    CoalesceResult(cp, [[0, 0]], true);
    var sizes := Sizes(Select(cp.factors, [0, 0]));
    assert sizes == [|s|, |s|];
    ProductOfPair(|s|, |s|);
    var outer := [ProductOf(sizes)];
    assert outer[1..] == [];
    assert seq(1, j requires 0 <= j < 1 => ProductOf(Sizes(Select(cp.factors, [[0, 0]][j])))) == outer;
  }

  lemma ProductOfPair(a: nat, b: nat)
    ensures ProductOf([a, b]) == a * b
  {
    assert [a, b][1..] == [b] && [b][1..] == [];
    assert ProductOf([b]) == b * ProductOf([]) == b;
  }

  // ---- exactness for disjoint groups ------------------------------------

  /** Placing distinct lists behind distinct heads gives distinct lists. */
  lemma {:induction false} PairingsNoDup<T>(xs: seq<T>, rs: seq<seq<T>>)
    requires NoDup(xs) && NoDup(rs)
    ensures NoDup(Pairings(xs, rs))
  {
    if xs != [] {
      var front := seq(|rs|, k requires 0 <= k < |rs| => [xs[0]] + rs[k]);
      var rest := Pairings(xs[1..], rs);
      assert Pairings(xs, rs) == front + rest;
      assert forall m :: 0 <= m < |xs| - 1 ==> xs[1..][m] == xs[m + 1];
      PairingsNoDup(xs[1..], rs);
      forall i, j | 0 <= i < j < |front| ensures front[i] != front[j] {
        assert front[i][1..] == rs[i] && front[j][1..] == rs[j];
      }
      forall x | x in front ensures x !in rest {
        PairingsMember(xs[1..], rs, x);
      }
      NoDupAppend(front, rest);
    }
  }

  /** The product of lists without repeats has no repeats. */
  lemma {:induction false} EnumerateNoDup<T>(ls: seq<seq<T>>)
    requires forall i :: 0 <= i < |ls| ==> NoDup(ls[i])
    ensures NoDup(Enumerate(ls))
  {
    if ls != [] {
      assert forall i :: 0 <= i < |ls[1..]| ==> ls[1..][i] == ls[i + 1];
      EnumerateNoDup(ls[1..]);
      PairingsNoDup(ls[0], Enumerate(ls[1..]));
    }
  }

  /** An alphabet without repeated symbols yields no element twice. */
  lemma {:induction false} ElementsNoDup<A>(a: Alphabet<A>)
    requires Distinct(a)
    ensures NoDup(Elements(a))
  {
    match a
    case Flat(s) =>
    case Product(fs) =>
      IterateNoDup(a);
      var e := Iterate(a);
      assert seq(|fs|, i requires 0 <= i < |fs| => Elements(fs[i])) == Lists(fs);
      assert Elements(a) == seq(|e|, k requires 0 <= k < |e| => Tuple(e[k]));
  }

  /** A product of alphabets without repeated symbols yields no outcome twice. */
  lemma {:induction false} IterateNoDup<A>(p: Alphabet<A>)
    requires p.Product? && Distinct(p)
    ensures NoDup(Iterate(p))
    decreases p, 0
  {
    var ls := Lists(p.factors);
    forall i | 0 <= i < |ls| ensures NoDup(ls[i]) {
      ElementsNoDup(p.factors[i]);
    }
    EnumerateNoDup(ls);
  }

  /** An element of a product alphabet is the tuple of one of its outcomes. */
  lemma ProductElement<A>(p: Alphabet<A>, x: Symbol<A>)
    requires p.Product? && x in Elements(p)
    ensures x.Tuple? && x.items in Iterate(p)
  {
    var e := Iterate(p);
    assert Elements(p) == seq(|e|, k requires 0 <= k < |e| => Tuple(e[k]));
  }

  /** An outcome of the product of `fs` that carries `u[j][k]` at coordinate
      `groups[j][k]`, and some symbol of its alphabet at every coordinate no
      group names. */
  ghost function Fill<A>(fs: seq<Alphabet<A>>, groups: seq<seq<int>>, u: seq<Outcome<A>>): (o: Outcome<A>)
    requires GroupsInRange(groups, |fs|) && Disjoint(groups)
    requires |u| == |groups| && forall j :: 0 <= j < |groups| ==> |u[j]| == |groups[j]|
    requires forall j, k :: 0 <= j < |groups| && 0 <= k < |groups[j]| ==> u[j][k] in Elements(fs[groups[j][k]])
    requires forall i :: 0 <= i < |fs| ==> Size(fs[i]) > 0
    ensures o in Iterate(Product(fs)) && |o| == |fs|
    ensures forall j, k :: 0 <= j < |groups| && 0 <= k < |groups[j]| ==> o[groups[j][k]] == u[j][k]
  {
    forall i | 0 <= i < |fs| ensures |Elements(fs[i])| > 0 {
      ElementsCount(fs[i]);
    }
    var o := seq(|fs|, i requires 0 <= i < |fs| =>
      if exists j, k :: 0 <= j < |groups| && 0 <= k < |groups[j]| && groups[j][k] == i
      then (var j, k :| 0 <= j < |groups| && 0 <= k < |groups[j]| && groups[j][k] == i; u[j][k])
      else Elements(fs[i])[0]);
    forall i | 0 <= i < |fs| ensures o[i] in Lists(fs)[i] {
    }
    EnumerateMember(Lists(fs), o);
    o
  }

  /** The inner outcome of each group inside an outcome `t` of the coalesced
      product: `t` itself when the single group is extracted, otherwise the
      items of the `j`-th coordinate of `t`. Each has one symbol per index of
      its group, drawn from the alphabet that index names. */
  lemma InnerParts<A>(fs: seq<Alphabet<A>>, groups: seq<seq<int>>, extract: bool, t: Outcome<A>)
      returns (u: seq<Outcome<A>>)
    requires GroupsInRange(groups, |fs|) && |groups| > 0
    requires t in Iterate(CoalescedProduct(fs, groups, extract))
    ensures |u| == |groups| && forall j :: 0 <= j < |groups| ==> |u[j]| == |groups[j]|
    ensures forall j, k :: 0 <= j < |groups| && 0 <= k < |groups[j]| ==> u[j][k] in Elements(fs[groups[j][k]])
    ensures Extracts(groups, extract) ==> t == u[0]
    ensures !Extracts(groups, extract) ==> |t| == |groups| && forall j :: 0 <= j < |groups| ==> t[j] == Tuple(u[j])
  {
    if Extracts(groups, extract) {
      u := [t];
      SelectedMember(fs, groups[0], t);
    } else {
      var ps := seq(|groups|, j requires 0 <= j < |groups| => Product(Select(fs, groups[j])));
      EnumerateMember(Lists(ps), t);
      forall j | 0 <= j < |groups| ensures t[j].Tuple? && t[j].items in Iterate(ps[j]) {
        ProductElement(ps[j], t[j]);
      }
      u := seq(|groups|, j requires 0 <= j < |groups| => t[j].items);
      forall j | 0 <= j < |groups|
        ensures |u[j]| == |groups[j]|
        ensures forall k :: 0 <= k < |groups[j]| ==> u[j][k] in Elements(fs[groups[j][k]])
      {
        SelectedMember(fs, groups[j], u[j]);
      }
    }
  }

  /** An outcome carrying the inner outcomes of `t` at the coordinates the
      groups name coalesces to `t`. */
  lemma FilledCoalesces<A>(o: Outcome<A>, groups: seq<seq<int>>, extract: bool, u: seq<Outcome<A>>, t: Outcome<A>)
    requires GroupsInRange(groups, |o|) && |groups| > 0
    requires |u| == |groups| && forall j :: 0 <= j < |groups| ==> |u[j]| == |groups[j]|
    requires forall j, k :: 0 <= j < |groups| && 0 <= k < |groups[j]| ==> o[groups[j][k]] == u[j][k]
    requires Extracts(groups, extract) ==> t == u[0]
    requires !Extracts(groups, extract) ==> |t| == |groups| && forall j :: 0 <= j < |groups| ==> t[j] == Tuple(u[j])
    ensures CoalesceOutcome(o, groups, extract) == t
  {
    forall j | 0 <= j < |groups| ensures Select(o, groups[j]) == u[j] {
    }
  }

  /** With disjoint, repeat-free groups every outcome of the coalesced
      product is the coalesced form of some outcome of the product. */
  lemma CoalescedAreImages<A>(cp: Alphabet<A>, groups: seq<seq<int>>, extract: bool, t: Outcome<A>)
    requires Constructed(cp) && GroupsInRange(groups, |cp.factors|) && Disjoint(groups)
    requires Coalesce(cp, groups, extract).Ok? && t in Iterate(Coalesce(cp, groups, extract).value)
    ensures exists o :: o in Iterate(cp) && |o| == |cp.factors| && CoalesceOutcome(o, groups, extract) == t
  {
    var fs := cp.factors;
    CoalesceResult(cp, groups, extract);
    ConstructedSizes(cp);
    var u := InnerParts(fs, groups, extract, t);
    var o := Fill(fs, groups, u);
    FilledCoalesces(o, groups, extract, u, t);
  }

  /** An outcome of the product of the alphabets a group selects has one
      coordinate per index of the group, drawn from the alphabet that index
      names. */
  lemma SelectedMember<A>(fs: seq<Alphabet<A>>, g: seq<int>, x: Outcome<A>)
    requires InRange(g, |fs|) && x in Iterate(Product(Select(fs, g)))
    ensures |x| == |g| && forall k :: 0 <= k < |g| ==> x[k] in Elements(fs[g[k]])
  {
    EnumerateMember(Lists(Select(fs, g)), x);
  }

  /** With disjoint, repeat-free groups over alphabets that list no symbol
      twice, coalescing the implicit product and coalescing its explicit
      enumeration agree: the same outcomes, and the implicit length is
      exactly the number of explicit outcomes. */
  lemma DisjointGroupsExact<A>(cp: Alphabet<A>, groups: seq<seq<int>>, extract: bool)
    requires Constructed(cp) && Distinct(cp) && GroupsInRange(groups, |cp.factors|) && Disjoint(groups)
    requires Coalesce(cp, groups, extract).Ok?
    ensures Uniform(Iterate(cp), |cp.factors|)
    ensures Elems(Dedup(Images(Iterate(cp), groups, extract)))
         == Elems(Iterate(Coalesce(cp, groups, extract).value))
    ensures |Dedup(Images(Iterate(cp), groups, extract))| == Length(Coalesce(cp, groups, extract).value)
  {
    SameOutcomes(cp, groups, extract);
    CoalescedDistinct(cp, groups, extract);
    var value := Coalesce(cp, groups, extract).value;
    SameElemsSameLength(Dedup(Images(Iterate(cp), groups, extract)), Iterate(value));
    assert Length(value) == |Iterate(value)|;
  }

  /** For disjoint, repeat-free groups the explicit coalesce of the
      enumeration and the implicit coalesce have the same outcomes. */
  lemma SameOutcomes<A>(cp: Alphabet<A>, groups: seq<seq<int>>, extract: bool)
    requires Constructed(cp) && GroupsInRange(groups, |cp.factors|) && Disjoint(groups)
    requires Coalesce(cp, groups, extract).Ok?
    ensures Uniform(Iterate(cp), |cp.factors|)
    ensures Elems(Dedup(Images(Iterate(cp), groups, extract)))
         == Elems(Iterate(Coalesce(cp, groups, extract).value))
  {
    assert Uniform(Iterate(cp), OutcomeLength(cp));
    ExplicitWithinImplicit(cp, groups, extract);
    ImplicitWithinExplicit(cp, groups, extract);
  }

  /** Every explicit coalesced outcome is an implicit one. */
  lemma ExplicitWithinImplicit<A>(cp: Alphabet<A>, groups: seq<seq<int>>, extract: bool)
    requires Constructed(cp) && GroupsInRange(groups, |cp.factors|)
    requires Coalesce(cp, groups, extract).Ok? && Uniform(Iterate(cp), |cp.factors|)
    ensures Elems(Dedup(Images(Iterate(cp), groups, extract)))
         <= Elems(Iterate(Coalesce(cp, groups, extract).value))
  {
    var os := Iterate(cp);
    var images := Images(os, groups, extract);
    forall x | x in Elems(Dedup(images)) ensures x in Elems(Iterate(Coalesce(cp, groups, extract).value)) {
      var k :| 0 <= k < |images| && images[k] == x;
      ImagesInCoalesced(cp, groups, extract, os[k]);
    }
  }

  /** For disjoint, repeat-free groups every implicit coalesced outcome is an
      explicit one. */
  lemma ImplicitWithinExplicit<A>(cp: Alphabet<A>, groups: seq<seq<int>>, extract: bool)
    requires Constructed(cp) && GroupsInRange(groups, |cp.factors|) && Disjoint(groups)
    requires Coalesce(cp, groups, extract).Ok? && Uniform(Iterate(cp), |cp.factors|)
    ensures Elems(Iterate(Coalesce(cp, groups, extract).value))
         <= Elems(Dedup(Images(Iterate(cp), groups, extract)))
  {
    var os := Iterate(cp);
    var images := Images(os, groups, extract);
    forall x | x in Elems(Iterate(Coalesce(cp, groups, extract).value)) ensures x in Elems(Dedup(images)) {
      CoalescedAreImages(cp, groups, extract, x);
      var o :| o in os && |o| == |cp.factors| && CoalesceOutcome(o, groups, extract) == x;
      var k :| 0 <= k < |os| && os[k] == o;
      assert images[k] == x;
    }
  }

  /** Coalescing a product of alphabets without repeated symbols yields no
      outcome twice. */
  lemma CoalescedDistinct<A>(cp: Alphabet<A>, groups: seq<seq<int>>, extract: bool)
    requires Constructed(cp) && Distinct(cp) && GroupsInRange(groups, |cp.factors|)
    requires Coalesce(cp, groups, extract).Ok?
    ensures NoDup(Iterate(Coalesce(cp, groups, extract).value))
  {
    var fs := cp.factors;
    CoalesceResult(cp, groups, extract);
    forall j | 0 <= j < |groups| ensures Distinct(Product(Select(fs, groups[j]))) {
    }
    IterateNoDup(Coalesce(cp, groups, extract).value);
  }
}
