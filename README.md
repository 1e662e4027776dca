# Sample spaces of dit, in Dafny

This project models the sample-space layer of `dit` (`dit/samplespace.py`). A
sample space is the support of a multivariate distribution: a collection of
fixed-length outcomes with no probabilities attached. It has two forms behind
one interface:

- the explicit `SampleSpace`: an ordered list of outcomes;
- the implicit `CartesianProduct`: one alphabet per coordinate, never
  enumerated to answer `len`, `in` or `coalesce`.

Both forms offer `len`, `in`, iteration, `outcome_length`, `coalesce`,
`marginal` and `marginalize`. The model proves what each operation returns, and
it compares the two forms of `coalesce`.

Modules, one per file:

- `Sequences` (`sequences.dfy`): distinctness, selection of positions
  (`[s[i] for i in rv]`) and counting distinct elements.
- `Indexes` (`indexes.dfy`): the index lists that `marginal` and `marginalize`
  compute. That is `rvs` sorted, or the ascending complement of `rvs`, and
  projection onto a set of positions.
- `FirstSeen` (`first_seen.dfy`): the keys of an insertion-ordered dictionary.
  This is `Dedup`: deduplication that keeps first-seen order.
- `Outcomes` (`outcomes.dfy`): symbols, outcomes, and the coalesced form of one
  outcome.
- `Explicit` (`samplespace.dfy`): the class `SampleSpace`. Its constructor sets
  its fields once. `Coalesce` is a method whose loop fills the dictionary of
  seen outcomes. `Marginal` and `Marginalize` call `Coalesce`.
- `Alphabets` (`alphabets.dfy`): alphabets, which are either symbol lists or
  nested products, and their sizes. Also the lexicographic product
  (`itertools.product`) and per-coordinate membership.
- `Cartesian` (`cartesian.dfy`): `CartesianProduct` as a value `Product(alphabets)`,
  with its construction errors, `len`, `in`, iteration, `coalesce`, `marginal`
  and `marginalize`.
- `Representations` (`representations.dfy`): the implicit `coalesce` set
  against the explicit `coalesce` of the enumerated product.

Failures are values of `Result`:

- `EmptyProduct`: `reduce` over no alphabets, i.e. an empty group or no groups.
- `EmptyAlphabet`: `next` on a product with an empty alphabet.
- `IndexOutOfRange`: an item with more coordinates than alphabets.
- `NotASequence`: a plain symbol where a tuple is expected.
- `Overflow`: `len` of a product with more than `sys.maxsize` outcomes
  (2^63 - 1, the value on a 64-bit build). The stored length `_length` is an
  unbounded Python integer. Only `len()` refuses to report it.

The index parser `parse_rvs` appears as preconditions. Every index is a
coordinate; `marginal` also requires distinct indexes, and it sorts them
itself. The inner-outcome constructor is the identity on symbol lists. The
outer tuple of a coalesced outcome is a list of `Tuple` symbols.

Where the code does something its docstrings do not say, the model follows the code:

- `item in cp` builds the whole list of per-coordinate answers before `all`
  looks at it (dit/samplespace.py:228). It does not stop at the first
  coordinate that fails, so a later failure is raised even after an earlier
  `False`.
- It does not check the item's length either (`ShortItemAccepted`,
  `LongItemFails`).
- The `coalesce` docstring says the length of `rvs` must be at least one
  (dit/samplespace.py:91-92), but neither form checks it.
  `SampleSpace.coalesce([])` is accepted and yields the single empty outcome.
  `CartesianProduct.coalesce([])` fails as an empty product.
- `SampleSpace` is declared a `Set` (dit/samplespace.py:50), but its constructor
  does not remove repeated outcomes, so its length counts them.

## Model

| member | source | states |
|---|---|---|
| Explicit.SampleSpace.constructor | dit/samplespace.py:58-67 | a space built from a non-empty list iterates exactly that list and satisfies its invariant: length, first-outcome length and membership set derived from the list |
| Explicit.SampleSpace.Iterate | dit/samplespace.py:75-76 | iteration yields the constructing list itself, in order (stated by the constructor's contract); `Len`, `Contains` and `OutcomeLength` are stated against it |
| Explicit.SampleSpace.Len | dit/samplespace.py:69-70 | the length is the number of outcomes iteration yields |
| Explicit.SampleSpace.Contains | dit/samplespace.py:72-73 | answered from the stored set; true exactly when the outcome occurs in the constructing list |
| Explicit.SampleSpace.OutcomeLength | dit/samplespace.py:206-207 | the outcome length is the length of the first outcome |
| Explicit.SampleSpace.Coalesce | dit/samplespace.py:133-155 | the loop over outcomes and the dictionary of seen keys give a fresh, valid, uniform space. Each step keeps the dictionary's keys equal to `Dedup` of the outcomes seen so far (`FirstSeen.DedupPrefixStep`: a key already seen keeps its place, a new key goes last). Its outcomes are the coalesced forms of the original outcomes, deduplicated in first-seen order; its outcome length is one per group, or the group's length when extracted |
| Explicit.SampleSpace.Marginal | dit/samplespace.py:172-182 | equals `coalesce([sorted rvs], extract=True)`. Every outcome is cut down to the kept coordinates in their original order; the outcome length is the number of indexes |
| Explicit.SampleSpace.Marginalize | dit/samplespace.py:199-204 | equals the marginal on the ascending complement of `rvs`, i.e. the projection onto the coordinates not named. Marginalizing nothing gives back the same outcomes when they are distinct |
| Explicit.CoalescedUniform | dit/samplespace.py:146-155 | coalescing a non-empty uniform space gives a non-empty list whose outcomes all have the coalesced length, also after deduplication |
| FirstSeen.Dedup | dit/samplespace.py:147-155 | the kept keys have no repeats; every key is an input and every input is a key, so there are no more keys than inputs |
| FirstSeen.DedupFirstSeenOrder | dit/samplespace.py:147-155 | keys are listed in the order of their first occurrence in the input |
| FirstSeen.DedupKeepsAllIffDistinct | dit/samplespace.py:147-155 | the result is as long as the input exactly when the input has no repeats, and then it is the input |
| Outcomes.CoalesceOutcome | dit/samplespace.py:139-152 | the coalesced form of one outcome: one inner value per group, extracted when asked; what it holds is stated by `Outcomes.CoalesceOutcomeShape` |
| Outcomes.CoalesceOutcomeShape | dit/samplespace.py:80-96 | the inner value for group `g` has `len(g)` coordinates, the k-th being coordinate `g[k]` (a repeat copies it again). There is one inner value per group, or the single inner value itself when extracted |
| Outcomes.RepeatAllExample | dit/samplespace.py:106-111 | `coalesce([[0,1,2,0,1,2]], extract=True)` turns `(X,Y,Z)` into `(X,Y,Z,X,Y,Z)` |
| Outcomes.OverlappingPairsExample | dit/samplespace.py:113-116 | `coalesce([[0,1],[1,2]])` turns `(X,Y,Z)` into `((X,Y),(Y,Z))` |
| Outcomes.ImagesUniform | dit/samplespace.py:148-152 | all coalesced outcomes of a uniform space have the coalesced length |
| Outcomes.ExtractAscendingIsProjection | dit/samplespace.py:177-181 | coalescing one ascending group with extraction is the projection onto that group's coordinates |
| Indexes.Ascending | dit/samplespace.py:201-202 | `[i for i in range(n) if i in keep]` is strictly ascending and holds exactly the kept indexes below `n` |
| Indexes.SortIndexes | dit/samplespace.py:175 | sorting distinct in-range indexes gives an ascending list that is a permutation of them |
| Indexes.Kept | dit/samplespace.py:199-202 | the kept indexes are ascending and are exactly those in `[0, n)` not named in `rvs` |
| Indexes.IncreasingUnique | dit/samplespace.py:175 | an ascending index list is determined by its set of elements |
| Indexes.MarginalizeComplementIsMarginal | dit/samplespace.py:199-203 | marginalizing the complement of `rvs` selects the same index list as the marginal on `rvs` |
| Indexes.SortKeepsAscending | dit/samplespace.py:175 | sorting an already ascending list changes nothing, so `marginalize` hands `marginal` its list unchanged |
| Indexes.KeptNothing | dit/samplespace.py:200-202 | marginalizing nothing keeps `range(n)` |
| Indexes.SelectAscendingIsProject | dit/samplespace.py:150 | selecting ascending positions keeps those coordinates in their original relative order |
| Alphabets.Size | dit/samplespace.py:220-222 | `len(alphabet)` computed without enumeration; `Alphabets.ElementsCount` states that it counts the elements iteration yields |
| Alphabets.Enumerate | dit/samplespace.py:230-231 | `itertools.product`; its length, order and members are stated by `Alphabets.EnumerateLength`, `Alphabets.FirstVariesSlowest` and `Alphabets.EnumerateMember` |
| Alphabets.MemberOf | dit/samplespace.py:217-228 | `x in alphabet`, per coordinate and without enumerating; `Alphabets.MemberOfShaped` states that it agrees with the enumerated elements, `Alphabets.AllOfCases` how failures propagate |
| Alphabets.ElementsCount | dit/samplespace.py:220-222 | `len(alphabet)`, the product of the sizes for a nested product, is the number of elements its iteration yields |
| Alphabets.EnumerateLength | dit/samplespace.py:230-231 | the product of the lists has as many combinations as the product of their lengths |
| Alphabets.FirstVariesSlowest | dit/samplespace.py:230-231 | lexicographic order: element `i * |R| + j` is the i-th symbol of the first list followed by the j-th combination of the rest |
| Alphabets.EnumerateMember | dit/samplespace.py:230-231 | a list is a combination exactly when it has one coordinate per list and each coordinate comes from its own list |
| Alphabets.ProductOfZero | dit/samplespace.py:222 | the product of the sizes is zero exactly when some size is zero |
| Alphabets.AllOfCases | dit/samplespace.py:228 | `all` over the eagerly built list is true exactly when every entry is true, and fails exactly when some entry failed |
| Alphabets.MemberOfShaped | dit/samplespace.py:217-228 | for a symbol nested like the alphabet, per-coordinate membership never fails and agrees with the enumerated elements |
| Alphabets.ElementsShaped | dit/samplespace.py:230-231 | every element of an alphabet is nested like the alphabet |
| Cartesian.Construct | dit/samplespace.py:215-225 | the constructor's failures in the order the code meets them: `len` of a too-long product alphabet, no alphabets, an empty alphabet; stated by `Cartesian.ConstructCases` |
| Cartesian.Length | dit/samplespace.py:220-222 | the stored length, the product of the alphabet sizes, is the number of outcomes iteration yields |
| Cartesian.Len | dit/samplespace.py:69-70 | `len(cp)` is the number of outcomes iteration yields when that is at most `sys.maxsize`, and fails with `OverflowError` exactly when it is larger |
| Cartesian.Iterate | dit/samplespace.py:230-231 | the lexicographic product of the alphabets' elements; stated by `Alphabets.EnumerateMember`, `Alphabets.FirstVariesSlowest` and `Cartesian.Length` |
| Cartesian.Contains | dit/samplespace.py:227-228 | per-coordinate membership without enumeration; stated by `Cartesian.ContainsPerCoordinate` and `Cartesian.ContainsAgreesWithIterate` |
| Cartesian.Coalesce | dit/samplespace.py:289-301 | nested products per group, extracted or wrapped in an outer product; stated by `Cartesian.CoalesceResult` |
| Cartesian.Marginal | dit/samplespace.py:172-182 | sorted `rvs` coalesced as one extracted group; stated by `Cartesian.MarginalKeepsAlphabets` |
| Cartesian.Marginalize | dit/samplespace.py:199-204 | the marginal on the ascending complement of `rvs`; stated by `Cartesian.MarginalizeKeepsAlphabets` and `Cartesian.MarginalizeNothing` |
| Cartesian.OutcomeLength | dit/samplespace.py:223 | every iterated outcome has one coordinate per alphabet |
| Cartesian.Nested | dit/samplespace.py:293-295 | the per-group products are built in order and succeed exactly when every group's product can be built; then the j-th is the product of the alphabets group j selects |
| Cartesian.ConstructCases | dit/samplespace.py:215-224 | construction fails with `OverflowError` exactly when some product alphabet has more than `sys.maxsize` outcomes; no alphabets fails as an empty product; otherwise construction fails as an empty alphabet exactly when the product has no outcome, and succeeds when it has one |
| Cartesian.ConstructedSizes | dit/samplespace.py:220-224 | a constructed product has at least one alphabet, every alphabet is non-empty and has a length `len` can report, and its length is positive |
| Cartesian.ContainsPerCoordinate | dit/samplespace.py:227-228 | `item in cp` is true exactly when `item` is no longer than the alphabet list and each coordinate lies in its alphabet. It fails exactly when `item` is too long or some coordinate's check fails |
| Cartesian.ContainsAgreesWithIterate | dit/samplespace.py:227-231 | for an item with one well-nested coordinate per alphabet, membership equals occurrence in the iteration |
| Cartesian.IteratedAreContained | dit/samplespace.py:227-231 | every outcome the iteration yields is contained |
| Cartesian.ShortItemAccepted | dit/samplespace.py:228 | a shorter item whose coordinates all match is reported as contained although no outcome equals it |
| Cartesian.LongItemFails | dit/samplespace.py:228 | a longer item makes the membership test raise |
| Cartesian.CoalesceResult | dit/samplespace.py:289-301 | coalescing fails as an empty product when there is no group or some group is empty. Otherwise it fails with `OverflowError` exactly when the groups are not extracted and some nested product has more than `sys.maxsize` outcomes (its `len` is taken by the outer constructor); an extracted group never overflows. The result is the nested product of the selected alphabets (a repeated index selects its alphabet again), with the coalesced outcome length. Its length is the product over groups of the product of the selected sizes |
| Cartesian.MarginalKeepsAlphabets | dit/samplespace.py:175-181 | the marginal on `rvs` is the product of the alphabets named in `rvs`, in their original order; with no index it fails as an empty product |
| Cartesian.MarginalizeNothing | dit/samplespace.py:199-203 | marginalizing nothing gives back the product itself |
| Cartesian.MarginalizeKeepsAlphabets | dit/samplespace.py:199-203 | marginalizing keeps the alphabets not named in `rvs`; marginalizing the complement of `rvs` equals the marginal on `rvs` |
| Representations.ImagesInCoalesced | dit/samplespace.py:293-301 | each coalesced form of an enumerated outcome is an outcome of the implicitly coalesced product |
| Representations.ExplicitNoLargerThanImplicit | dit/samplespace.py:293-301 | the explicit coalesce of the enumeration never has more outcomes than the implicit length |
| Representations.RepeatedIndexOvercounts | dit/samplespace.py:293-301 | with a repeated index the implicit length overcounts. Over one alphabet of `n` distinct symbols, `coalesce([[0,0]], extract=True)` has `n` explicit outcomes but implicit length `n * n` |
| Representations.CoalescedAreImages | dit/samplespace.py:293-301 | with disjoint, repeat-free groups every outcome of the coalesced product is the coalesced form of an outcome of the product |
| Representations.SameOutcomes | dit/samplespace.py:293-301 | with disjoint, repeat-free groups the explicit and implicit coalesce have the same outcomes |
| Representations.DisjointGroupsExact | dit/samplespace.py:293-301 | with disjoint, repeat-free groups over alphabets without repeated symbols, the two have the same outcomes and the implicit length is exactly the explicit count |
| Representations.IterateNoDup | dit/samplespace.py:230-231 | a product of alphabets without repeated symbols yields no outcome twice |

## Left out

- The bodies of `parse_rvs` and `get_outcome_ctor` (`dit/helpers`) are not part of this model. The index parser is a precondition: indexes in range, and distinct for `marginal`. Random-variable names are not modelled.
- Explicit.SampleSpace.constructor: requires a non-empty list. The `IndexError` that `samplespace[0]` raises on an empty list is not modelled.
- Explicit.SampleSpace.Coalesce: requires every outcome to have the first outcome's length (`Uniform()`), which the source does not check. Spaces of mixed outcome lengths are not modelled. For them the code raises `IndexError` only when a group names a coordinate that some shorter outcome lacks. A shorter outcome that has every named coordinate, and any longer outcome, is coalesced without error.
- Explicit.SampleSpace.Marginal, Cartesian.Marginal: require distinct indexes. There the index parser raises an error that is not modelled.
- Outcome shapes (strings versus tuples) and their reconstruction are left out. Outcomes are symbol lists, and an outer coalesced outcome is a list of tuples.
- Symbols that cannot be hashed (a `TypeError` from `set`) are left out.
- A string used as a coordinate of a nested product is iterable in Python. The model treats every plain symbol there as not a sequence.
- An explicit `SampleSpace` used as an alphabet is modelled as a list alphabet of its outcomes as tuples.
- Laziness and restartability of `itertools.product`, and the injectable `product` parameter, are left out. Iteration is the full lexicographic product as a sequence.
- Python 2/3 details are left out, and the model follows the intended semantics:
  - the `Set` import fallback;
  - `reduce` not being imported on Python 3;
  - the non-indexable `keys()` view passed to `SampleSpace`;
  - line 300 passing the module-level `product`.
