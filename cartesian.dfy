/** The implicit sample space: a Cartesian product of per-coordinate
    alphabets (class `CartesianProduct`, dit/samplespace.py:210-301). A product
    is the alphabet value `Product(alphabets)`, so a product of products is a
    nested value and a coalesced product is built from the alphabets alone. */
module Cartesian {
  import opened Sequences
  import opened Indexes
  import opened FirstSeen
  import opened Outcomes
  import opened Alphabets

  /** `CartesianProduct(alphabets)`. `len` is taken of every alphabet first,
      and fails on a product alphabet too long to report; then
      `reduce(mul, sizes)` fails on an empty list of alphabets, and
      `next(product(*alphabets))` fails when some alphabet is empty;
      otherwise the product is built. */
  function Construct<A>(alphabets: seq<Alphabet<A>>): Result<Alphabet<A>> {
    if Overflows(alphabets) then Err(Overflow)
    else if |alphabets| == 0 then Err(EmptyProduct)
    else if exists i | 0 <= i < |alphabets| :: Size(alphabets[i]) == 0 then Err(EmptyAlphabet)
    else Ok(Product(alphabets))
  }

  /** Some alphabet is a product whose `len` fails. */
  predicate Overflows<A>(alphabets: seq<Alphabet<A>>) {
    exists i | 0 <= i < |alphabets| :: alphabets[i].Product? && Len(alphabets[i]).Err?
  }

  /** A product that the constructor accepted. */
  ghost predicate Constructed<A>(cp: Alphabet<A>) {
    cp.Product? && Construct(cp.factors) == Ok(cp)
  }

  /** `iter(cp)`: the full lexicographic product of the alphabets. */
  function Iterate<A>(cp: Alphabet<A>): seq<Outcome<A>>
    requires cp.Product?
  {
    Enumerate(Lists(cp.factors))
  }

  /** The stored length `reduce(mul, alphabet_sizes)`, an unbounded Python
      integer computed without enumeration; it is the number of outcomes the
      iteration yields. */
  function Length<A>(cp: Alphabet<A>): (n: nat)
    requires cp.Product?
    ensures n == |Iterate(cp)|
  {
    ElementsCount(cp);
    assert Elements(cp) == seq(|Iterate(cp)|, k requires 0 <= k < |Iterate(cp)| => Tuple(Iterate(cp)[k]));
    ProductOf(Sizes(cp.factors))
  }

  /** `len(cp)`: the stored length, which Python refuses to report when it
      exceeds `sys.maxsize`; otherwise the number of outcomes the iteration
      yields. */
  function Len<A>(cp: Alphabet<A>): (r: Result<nat>)
    requires cp.Product?
    ensures r.Ok? <==> |Iterate(cp)| <= MaxSize
    ensures r.Ok? ==> r.value == |Iterate(cp)|
    ensures r.Err? ==> r.error == Overflow
  {
    if Length(cp) > MaxSize then Err(Overflow) else Ok(Length(cp))
  }

  /** `cp.outcome_length()`: the number of alphabets, which is the length of
      every outcome. */
  function OutcomeLength<A>(cp: Alphabet<A>): (n: nat)
    requires cp.Product?
    ensures Uniform(Iterate(cp), n)
  {
    var os := Iterate(cp);
    forall k | 0 <= k < |os| ensures |os[k]| == |cp.factors| {
      EnumerateMember(Lists(cp.factors), os[k]);
    }
    |cp.factors|
  }

  /** `item in cp`: coordinate `i` of `item` against alphabet `i`, for each
      coordinate `item` has, never enumerating the product. */
  function Contains<A(==)>(cp: Alphabet<A>, item: Outcome<A>): Result<bool>
    requires cp.Product?
  {
    MemberOf(cp, Tuple(item))
  }

  /** The per-group products `[CartesianProduct([alphabets[i] for i in g])
      for g in groups]`, built in order; the first failure is raised. */
  function Nested<A>(fs: seq<Alphabet<A>>, groups: seq<seq<int>>): (r: Result<seq<Alphabet<A>>>)
    requires GroupsInRange(groups, |fs|)
    ensures r.Ok? <==> forall j :: 0 <= j < |groups| ==> Construct(Select(fs, groups[j])).Ok?
    ensures r.Ok? ==> |r.value| == |groups|
    ensures r.Ok? ==> forall j :: 0 <= j < |groups| ==> r.value[j] == Product(Select(fs, groups[j]))
  {
    if groups == [] then Ok([])
    else
      match Construct(Select(fs, groups[0]))
      case Err(e) => Err(e)
      case Ok(p) =>
        match Nested(fs, groups[1..])
        case Err(e) =>
          assert !Construct(Select(fs, groups[1..][0])).Ok? || exists j :: 0 <= j < |groups[1..]| && !Construct(Select(fs, groups[1..][j])).Ok?;
          Err(e)
        case Ok(ps) =>
          assert forall j :: 1 <= j < |groups| ==> groups[j] == groups[1..][j - 1];
          Ok([p] + ps)
  }

  /** `cp.coalesce(rvs, extract)`: one nested product per group over the
      alphabets the group selects (a repeated index selects an alphabet
      again); the nested product itself when the single group is extracted,
      otherwise the product of the nested products. */
  function Coalesce<A>(cp: Alphabet<A>, groups: seq<seq<int>>, extract: bool): Result<Alphabet<A>>
    requires cp.Product? && GroupsInRange(groups, |cp.factors|)
  {
    match Nested(cp.factors, groups)
    case Err(e) => Err(e)
    case Ok(ps) => if Extracts(groups, extract) then Ok(ps[0]) else Construct(ps)
  }

  /** `cp.marginal(rvs)`, inherited: sort the (distinct) indexes and coalesce
      them as one extracted group. */
  function Marginal<A>(cp: Alphabet<A>, rvs: seq<int>): Result<Alphabet<A>>
    requires cp.Product? && InRange(rvs, |cp.factors|) && NoDup(rvs)
  {
    Coalesce(cp, [SortIndexes(rvs, |cp.factors|)], true)
  }

  /** `cp.marginalize(rvs)`, inherited: the marginal on the coordinates not
      named in `rvs`. */
  function Marginalize<A>(cp: Alphabet<A>, rvs: seq<int>): Result<Alphabet<A>>
    requires cp.Product? && InRange(rvs, |cp.factors|)
  {
    var kept := Kept(|cp.factors|, rvs);
    IncreasingNoDup(kept);
    Marginal(cp, kept)
  }

  // ---- construction -----------------------------------------------------

  /** A list of alphabets is refused when some product alphabet is too long
      for `len`; otherwise it is accepted exactly when it is non-empty and its
      product has a first element, and the product then has as many outcomes
      as its length, at least one. */
  lemma ConstructCases<A>(fs: seq<Alphabet<A>>)
    ensures Construct(fs) == Err(Overflow) <==>
      exists i :: 0 <= i < |fs| && fs[i].Product? && Size(fs[i]) > MaxSize
    ensures |fs| == 0 ==> Construct(fs) == Err(EmptyProduct)
    ensures |fs| > 0 && !Overflows(fs) ==> (Construct(fs) == Err(EmptyAlphabet) <==> Iterate(Product(fs)) == [])
    ensures |fs| > 0 && !Overflows(fs) && Iterate(Product(fs)) != [] ==> Construct(fs) == Ok(Product(fs))
  {
    var cp := Product(fs);
    ProductOfZero(Sizes(fs));
    assert Length(cp) == ProductOf(Sizes(fs));
    forall i | 0 <= i < |fs| && fs[i].Product?
      ensures Len(fs[i]).Err? <==> Size(fs[i]) > MaxSize
    {
      assert Length(fs[i]) == Size(fs[i]);
    }
    if exists i | 0 <= i < |fs| :: Size(fs[i]) == 0 {
      var i :| 0 <= i < |fs| && Size(fs[i]) == 0;
      assert Sizes(fs)[i] == 0;
    }
  }

  /** Every alphabet of a constructed product has elements and a length `len`
      can report, and so every product has elements. */
  lemma ConstructedSizes<A>(cp: Alphabet<A>)
    requires Constructed(cp)
    ensures |cp.factors| > 0
    ensures forall i :: 0 <= i < |cp.factors| ==> Size(cp.factors[i]) > 0
    ensures forall i :: 0 <= i < |cp.factors| && cp.factors[i].Product? ==> Size(cp.factors[i]) <= MaxSize
    ensures Length(cp) > 0
  {
    ConstructCases(cp.factors);
  }

  // ---- membership -------------------------------------------------------

  /** `item in cp` is true exactly when `item` has no more coordinates than
      there are alphabets and each coordinate it has lies in its alphabet; it
      fails exactly when `item` is too long or some coordinate's check fails. */
  lemma ContainsPerCoordinate<A>(cp: Alphabet<A>, item: Outcome<A>)
    requires cp.Product?
    ensures Contains(cp, item) == Ok(true) <==>
      |item| <= |cp.factors| && forall i :: 0 <= i < |item| ==> MemberOf(cp.factors[i], item[i]) == Ok(true)
    ensures Contains(cp, item).Err? <==>
      |item| > |cp.factors| || exists i :: 0 <= i < |item| && MemberOf(cp.factors[i], item[i]).Err?
  {
    var fs := cp.factors;
    var rs := seq(|item|, i requires 0 <= i < |item| =>
      if i < |fs| then MemberOf(fs[i], item[i]) else Err(IndexOutOfRange));
    assert Contains(cp, item) == AllOf(rs);
    AllOfCases(rs);
    if |item| > |fs| {
      assert rs[|fs|].Err?;
    } else {
      assert forall i :: 0 <= i < |item| ==> rs[i] == MemberOf(fs[i], item[i]);
    }
  }

  /** For an item with one correctly nested coordinate per alphabet, the
      per-coordinate answer is the answer enumeration would give. */
  lemma ContainsAgreesWithIterate<A>(cp: Alphabet<A>, item: Outcome<A>)
    requires cp.Product? && |item| == |cp.factors|
    requires forall i :: 0 <= i < |item| ==> Shaped(cp.factors[i], item[i])
    ensures Contains(cp, item) == Ok(item in Iterate(cp))
  {
    MemberOfShaped(cp, Tuple(item));
    TupleInElements(cp, item);
  }

  /** Every outcome the iteration yields is contained. */
  lemma IteratedAreContained<A>(cp: Alphabet<A>, item: Outcome<A>)
    requires cp.Product? && item in Iterate(cp)
    ensures Contains(cp, item) == Ok(true)
  {
    TupleInElements(cp, item);
    ElementsShaped(cp, Tuple(item));
    ContainsAgreesWithIterate(cp, item);
  }

  /** The length of an item is not checked: a shorter item whose coordinates
      all lie in their alphabets is reported as contained although the
      product has no such outcome. */
  lemma ShortItemAccepted<A>(cp: Alphabet<A>, item: Outcome<A>)
    requires cp.Product? && |item| < |cp.factors|
    requires forall i :: 0 <= i < |item| ==> MemberOf(cp.factors[i], item[i]) == Ok(true)
    ensures Contains(cp, item) == Ok(true)
    ensures item !in Iterate(cp)
  {
    ContainsPerCoordinate(cp, item);
    EnumerateMember(Lists(cp.factors), item);
  }

  /** A longer item makes the check fail. */
  lemma LongItemFails<A>(cp: Alphabet<A>, item: Outcome<A>)
    requires cp.Product? && |item| > |cp.factors|
    ensures Contains(cp, item).Err?
  {
    ContainsPerCoordinate(cp, item);
  }

  lemma TupleInElements<A>(cp: Alphabet<A>, item: Outcome<A>)
    requires cp.Product?
    ensures Tuple(item) in Elements(cp) <==> item in Iterate(cp)
  {
    var e := Iterate(cp);
    assert Elements(cp) == seq(|e|, k requires 0 <= k < |e| => Tuple(e[k]));
    if item in e {
      var k :| 0 <= k < |e| && e[k] == item;
      assert Elements(cp)[k] == Tuple(item);
    }
  }

  // ---- coalescing -------------------------------------------------------

  /** The product that `coalesce` returns when it succeeds. */
  function CoalescedProduct<A>(fs: seq<Alphabet<A>>, groups: seq<seq<int>>, extract: bool): Alphabet<A>
    requires GroupsInRange(groups, |fs|)
  {
    if Extracts(groups, extract) then Product(Select(fs, groups[0]))
    else Product(seq(|groups|, j requires 0 <= j < |groups| => Product(Select(fs, groups[j]))))
  }

  /** Coalescing a constructed product fails as an empty product when there
      is no group or some group is empty (`reduce` over no sizes). Otherwise
      it fails only when the groups are not extracted and some nested product
      is too long for the outer constructor's `len`. On success the result
      is the product of the selected alphabets, has one coordinate per group
      (or per index of the extracted group), and its length is the product
      over the groups of the product of the selected sizes, counting
      repeated indexes again. */
  lemma CoalesceResult<A>(cp: Alphabet<A>, groups: seq<seq<int>>, extract: bool)
    requires Constructed(cp) && GroupsInRange(groups, |cp.factors|)
    ensures Coalesce(cp, groups, extract).Ok? <==>
      && |groups| > 0
      && (forall j :: 0 <= j < |groups| ==> |groups[j]| > 0)
      && (Extracts(groups, extract) ||
          forall j :: 0 <= j < |groups| ==> ProductOf(Sizes(Select(cp.factors, groups[j]))) <= MaxSize)
    ensures (|groups| == 0 || exists j :: 0 <= j < |groups| && |groups[j]| == 0) ==>
      Coalesce(cp, groups, extract) == Err(EmptyProduct)
    ensures |groups| > 0 && (forall j :: 0 <= j < |groups| ==> |groups[j]| > 0) && !Coalesce(cp, groups, extract).Ok? ==>
      Coalesce(cp, groups, extract) == Err(Overflow)
    ensures Coalesce(cp, groups, extract).Ok? ==>
      && Coalesce(cp, groups, extract).value == CoalescedProduct(cp.factors, groups, extract)
      && OutcomeLength(Coalesce(cp, groups, extract).value) == CoalescedLength(groups, extract)
      && Length(Coalesce(cp, groups, extract).value)
         == ProductOf(seq(|groups|, j requires 0 <= j < |groups| => ProductOf(Sizes(Select(cp.factors, groups[j])))))
  {
    var fs := cp.factors;
    ConstructedSizes(cp);
    forall j | 0 <= j < |groups|
      ensures Construct(Select(fs, groups[j])).Ok? <==> |groups[j]| > 0
      ensures Construct(Select(fs, groups[j])).Ok? ==> Size(Product(Select(fs, groups[j]))) > 0
    {
      SelectedSizesPositive(fs, groups[j]);
    }
    NestedFirstError(fs, groups);
    if Nested(fs, groups).Ok? {
      var ps := Nested(fs, groups).value;
      var nested := seq(|groups|, j requires 0 <= j < |groups| => ProductOf(Sizes(Select(fs, groups[j]))));
      forall i | 0 <= i < |ps|
        ensures Size(ps[i]) > 0 && Size(ps[i]) == nested[i]
      {
        assert ps[i] == Product(Select(fs, groups[i]));
      }
      if Extracts(groups, extract) {
        assert nested == [ProductOf(Sizes(Select(fs, groups[0])))];
      } else {
        assert Sizes(ps) == nested;
        assert ps == seq(|groups|, j requires 0 <= j < |groups| => Product(Select(fs, groups[j])));
        ConstructCases(ps);
      }
    }
  }

  /** The product of the alphabets a non-empty group selects is accepted;
      an empty group is refused as an empty product. */
  lemma SelectedSizesPositive<A>(fs: seq<Alphabet<A>>, g: seq<int>)
    requires InRange(g, |fs|) && forall i :: 0 <= i < |fs| ==> Size(fs[i]) > 0
    requires forall i :: 0 <= i < |fs| && fs[i].Product? ==> Size(fs[i]) <= MaxSize
    ensures Construct(Select(fs, g)).Ok? <==> |g| > 0
    ensures |g| == 0 ==> Construct(Select(fs, g)) == Err(EmptyProduct)
    ensures Construct(Select(fs, g)).Ok? ==> Size(Product(Select(fs, g))) > 0
  {
    var sel := Select(fs, g);
    ProductOfZero(Sizes(sel));
    assert forall k :: 0 <= k < |sel| ==> Sizes(sel)[k] == Size(fs[g[k]]);
    ConstructCases(sel);
  }

  /** When a group is empty, building the nested products fails as an empty
      product. */
  lemma {:induction false} NestedFirstError<A>(fs: seq<Alphabet<A>>, groups: seq<seq<int>>)
    requires GroupsInRange(groups, |fs|) && forall i :: 0 <= i < |fs| ==> Size(fs[i]) > 0
    requires forall i :: 0 <= i < |fs| && fs[i].Product? ==> Size(fs[i]) <= MaxSize
    ensures Nested(fs, groups).Err? ==> Nested(fs, groups) == Err(EmptyProduct)
  {
    if groups != [] {
      SelectedSizesPositive(fs, groups[0]);
      NestedFirstError(fs, groups[1..]);
    }
  }

  // ---- marginals --------------------------------------------------------

  /** The marginal of a constructed product is the product of the alphabets
      named in `rvs`, in their original order; with no variable named it is
      refused as an empty product. */
  lemma MarginalKeepsAlphabets<A>(cp: Alphabet<A>, rvs: seq<int>)
    requires Constructed(cp) && InRange(rvs, |cp.factors|) && NoDup(rvs)
    ensures |rvs| == 0 ==> Marginal(cp, rvs) == Err(EmptyProduct)
    ensures |rvs| > 0 ==> Marginal(cp, rvs) == Ok(Product(Project(cp.factors, Elems(rvs))))
  {
    var fs := cp.factors;
    var g := SortIndexes(rvs, |fs|);
    assert |g| == |multiset(g)| == |rvs|;
    CoalesceResult(cp, [g], true);
    SelectAscendingIsProject(fs, Elems(rvs));
  }

  /** Marginalizing nothing gives back the product itself. */
  lemma MarginalizeNothing<A>(cp: Alphabet<A>)
    requires Constructed(cp)
    ensures Marginalize(cp, []) == Ok(cp)
  {
    var fs := cp.factors;
    var kept := Kept(|fs|, []);
    KeptNothing(|fs|);
    IncreasingNoDup(kept);
    SortKeepsAscending(kept, |fs|);
    ConstructedSizes(cp);
    CoalesceResult(cp, [kept], true);
    assert Select(fs, kept) == fs;
  }

  /** Marginalizing `rvs` keeps the alphabets not named in `rvs`, and
      marginalizing the complement of `rvs` is the marginal on `rvs`. */
  lemma MarginalizeKeepsAlphabets<A>(cp: Alphabet<A>, rvs: seq<int>)
    requires Constructed(cp) && InRange(rvs, |cp.factors|)
    ensures NoDup(rvs) ==> Marginalize(cp, Kept(|cp.factors|, rvs)) == Marginal(cp, rvs)
    ensures |Kept(|cp.factors|, rvs)| > 0 ==>
      Marginalize(cp, rvs) == Ok(Product(Project(cp.factors, set i | 0 <= i < |cp.factors| && i !in rvs)))
  {
    var n := |cp.factors|;
    var kept := Kept(n, rvs);
    IncreasingNoDup(kept);
    KeptElems(n, rvs);
    MarginalKeepsAlphabets(cp, kept);
    if NoDup(rvs) {
      MarginalizeComplementIsMarginal(rvs, n);
      var kk := Kept(n, kept);
      IncreasingNoDup(kk);
      SortKeepsAscending(kk, n);
    }
  }
}
