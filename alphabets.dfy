/** Alphabets of a Cartesian product sample space, the lexicographic product
    `itertools.product`, and per-coordinate membership
    (dit/samplespace.py:215-231). */
module Alphabets {
  import opened Sequences
  import opened Outcomes

  /** The failures of the product form, each an exception of the source. */
  datatype Error =
    | IndexOutOfRange   // IndexError: an item with more coordinates than alphabets
    | NotASequence      // TypeError: enumerating a symbol that is not a tuple
    | EmptyProduct      // TypeError: `reduce` over an empty list of sizes
    | EmptyAlphabet     // StopIteration: `next` on a product with no element
    | Overflow          // OverflowError: `len` of a product longer than `sys.maxsize`

  /** `sys.maxsize` on a 64-bit build: the largest length `len` reports. */
  const MaxSize: nat := 0x7FFF_FFFF_FFFF_FFFF

  datatype Result<T> = Ok(value: T) | Err(error: Error)

  /** The alphabet of one coordinate: a list of symbols (its length is `len`,
      its membership that of `set(alphabet)`), or a nested Cartesian product
      whose elements are its outcomes as tuples. An explicit sample space used
      as an alphabet is the list of its outcomes as tuples. */
  datatype Alphabet<A> = Flat(symbols: seq<Symbol<A>>) | Product(factors: seq<Alphabet<A>>)

  /** The product of a list of sizes; the empty product is 1. */
  function ProductOf(ns: seq<nat>): nat {
    if ns == [] then 1 else ns[0] * ProductOf(ns[1..])
  }

  /** `len(alphabet)`: the list length, or for a product the product of the
      sizes of its alphabets, computed without enumerating anything. */
  function Size<A>(a: Alphabet<A>): nat {
    match a
    case Flat(s) => |s|
    case Product(fs) => ProductOf(seq(|fs|, i requires 0 <= i < |fs| => Size(fs[i])))
  }

  /** `alphabet_sizes`. */
  function Sizes<A>(fs: seq<Alphabet<A>>): seq<nat> {
    seq(|fs|, i requires 0 <= i < |fs| => Size(fs[i]))
  }

  /** Every list of `xs` placed in front of every list of `rs`: `xs[0]` with
      all of `rs`, then `xs[1]`, and so on. */
  function Pairings<T>(xs: seq<T>, rs: seq<seq<T>>): seq<seq<T>> {
    if xs == [] then []
    else seq(|rs|, k requires 0 <= k < |rs| => [xs[0]] + rs[k]) + Pairings(xs[1..], rs)
  }

  /** `itertools.product(*lists)`: every combination, the first list varying
      slowest and the last fastest. */
  function Enumerate<T>(lists: seq<seq<T>>): seq<seq<T>> {
    if lists == [] then [[]] else Pairings(lists[0], Enumerate(lists[1..]))
  }

  /** What iterating an alphabet yields. */
  function Elements<A>(a: Alphabet<A>): seq<Symbol<A>> {
    match a
    case Flat(s) => s
    case Product(fs) =>
      var e := Enumerate(seq(|fs|, i requires 0 <= i < |fs| => Elements(fs[i])));
      seq(|e|, k requires 0 <= k < |e| => Tuple(e[k]))
  }

  /** The element lists of a list of alphabets. */
  function Lists<A>(fs: seq<Alphabet<A>>): seq<seq<Symbol<A>>> {
    seq(|fs|, i requires 0 <= i < |fs| => Elements(fs[i]))
  }

  /** `all([...])` over a list whose items were computed in order: the first
      exception raised while building the list wins; otherwise the
      conjunction. */
  function AllOf(rs: seq<Result<bool>>): Result<bool> {
    if rs == [] then Ok(true)
    else if rs[0].Err? then rs[0]
    else
      match AllOf(rs[1..])
      case Err(e) => Err(e)
      case Ok(b) => Ok(rs[0].value && b)
  }

  /** `x in alphabet`. A list alphabet answers by set membership. A product
      checks coordinate `i` of `x` against its alphabet `i`, for every
      coordinate `x` has: the whole list is built before `all` looks at it,
      so a later failure is raised even after an earlier `False`, an extra
      coordinate raises `IndexError`, and a missing one is never checked. */
  function MemberOf<A(==)>(a: Alphabet<A>, x: Symbol<A>): Result<bool>
    decreases x
  {
    match a
    case Flat(s) => Ok(x in s)
    case Product(fs) =>
      match x
      case Atom(_) => Err(NotASequence)
      case Tuple(items) =>
        AllOf(seq(|items|, i requires 0 <= i < |items| =>
          if i < |fs| then MemberOf(fs[i], items[i]) else Err(IndexOutOfRange)))
  }

  /** `x` has the nesting of `a`: a tuple of the right length wherever `a` is
      a product. */
  ghost predicate Shaped<A>(a: Alphabet<A>, x: Symbol<A>)
    decreases x
  {
    match a
    case Flat(_) => true
    case Product(fs) =>
      x.Tuple? && |x.items| == |fs| &&
      forall i :: 0 <= i < |fs| ==> Shaped(fs[i], x.items[i])
  }

  // ---- counting ---------------------------------------------------------

  lemma {:induction false} PairingsLength<T>(xs: seq<T>, rs: seq<seq<T>>)
    ensures |Pairings(xs, rs)| == |xs| * |rs|
  {
    if xs != [] {
      PairingsLength(xs[1..], rs);
      assert |xs| * |rs| == |rs| + (|xs| - 1) * |rs|;
    }
  }

  lemma {:induction false} EnumerateLength<T>(ls: seq<seq<T>>)
    ensures |Enumerate(ls)| == ProductOf(seq(|ls|, i requires 0 <= i < |ls| => |ls[i]|))
  {
    if ls != [] {
      EnumerateLength(ls[1..]);
      PairingsLength(ls[0], Enumerate(ls[1..]));
      var lens := seq(|ls|, i requires 0 <= i < |ls| => |ls[i]|);
      assert lens[1..] == seq(|ls[1..]|, i requires 0 <= i < |ls[1..]| => |ls[1..][i]|);
    }
  }

  /** Iterating an alphabet yields exactly `len(alphabet)` elements. */
  lemma {:induction false} ElementsCount<A>(a: Alphabet<A>)
    ensures |Elements(a)| == Size(a)
  {
    match a
    case Flat(s) =>
    case Product(fs) =>
      var ls := Lists(fs);
      forall i | 0 <= i < |fs| ensures |ls[i]| == Size(fs[i]) {
        ElementsCount(fs[i]);
      }
      EnumerateLength(ls);
      assert seq(|ls|, i requires 0 <= i < |ls| => |ls[i]|) == Sizes(fs);
      assert seq(|fs|, i requires 0 <= i < |fs| => Elements(fs[i])) == ls;
  }

  /** The product is empty exactly when one of the lists is. */
  lemma {:induction false} ProductOfZero(ns: seq<nat>)
    ensures ProductOf(ns) == 0 <==> exists i :: 0 <= i < |ns| && ns[i] == 0
  {
    if ns != [] {
      ProductOfZero(ns[1..]);
      if ns[0] != 0 && ProductOf(ns[1..]) != 0 {
        MulNonZero(ns[0], ProductOf(ns[1..]));
      }
      if exists i :: 0 <= i < |ns[1..]| && ns[1..][i] == 0 {
        var i :| 0 <= i < |ns[1..]| && ns[1..][i] == 0;
        assert ns[i + 1] == 0;
      }
      if exists i :: 0 <= i < |ns| && ns[i] == 0 {
        var i :| 0 <= i < |ns| && ns[i] == 0;
        if i > 0 { assert ns[1..][i - 1] == 0; }
      }
    }
  }

  lemma MulNonZero(x: nat, y: nat)
    requires x != 0 && y != 0
    ensures x * y != 0
  {
  }

  // ---- order ------------------------------------------------------------

  /** Element `i * |rs| + j` pairs `xs[i]` with `rs[j]`. */
  lemma {:induction false} PairingsAt<T>(xs: seq<T>, rs: seq<seq<T>>, i: nat, j: nat)
    requires i < |xs| && j < |rs|
    ensures i * |rs| + j < |Pairings(xs, rs)|
    ensures Pairings(xs, rs)[i * |rs| + j] == [xs[i]] + rs[j]
  {
    PairingsLength(xs, rs);
    MulBound(i, |xs|, |rs|, j);
    if i > 0 {
      PairingsAt(xs[1..], rs, i - 1, j);
      assert i * |rs| + j == |rs| + ((i - 1) * |rs| + j);
    }
  }

  lemma MulBound(i: nat, n: nat, m: nat, j: nat)
    requires i < n && j < m
    ensures i * m + j < n * m
  {
    assert i * m + j < (i + 1) * m;
    assert (i + 1) * m <= n * m;
  }

  /** Lexicographic order: the first coordinate varies slowest. With `R` the
      product of the remaining lists, element `i * |R| + j` is the `i`-th
      symbol of the first list followed by the `j`-th element of `R`. */
  lemma FirstVariesSlowest<T>(ls: seq<seq<T>>, i: nat, j: nat)
    requires |ls| > 0 && i < |ls[0]| && j < |Enumerate(ls[1..])|
    ensures i * |Enumerate(ls[1..])| + j < |Enumerate(ls)|
    ensures Enumerate(ls)[i * |Enumerate(ls[1..])| + j] == [ls[0][i]] + Enumerate(ls[1..])[j]
  {
    PairingsAt(ls[0], Enumerate(ls[1..]), i, j);
  }

  // ---- membership -------------------------------------------------------

  lemma {:induction false} PairingsMember<T>(xs: seq<T>, rs: seq<seq<T>>, t: seq<T>)
    ensures t in Pairings(xs, rs) <==> |t| > 0 && t[0] in xs && t[1..] in rs
  {
    if xs != [] {
      PairingsMember(xs[1..], rs, t);
      var front := seq(|rs|, k requires 0 <= k < |rs| => [xs[0]] + rs[k]);
      assert t in Pairings(xs, rs) <==> t in front || t in Pairings(xs[1..], rs);
      if t in front {
        var k :| 0 <= k < |rs| && front[k] == t;
        assert t[1..] == rs[k];
      }
      if |t| > 0 && t[0] == xs[0] && t[1..] in rs {
        var k :| 0 <= k < |rs| && rs[k] == t[1..];
        assert front[k] == t;
      }
      assert |t| > 0 ==> (t[0] in xs <==> t[0] == xs[0] || t[0] in xs[1..]) by {
        assert xs == [xs[0]] + xs[1..];
      }
    }
  }

  /** A list is in the product exactly when it has one coordinate per list
      and each coordinate is drawn from its own list. */
  lemma {:induction false} EnumerateMember<T>(ls: seq<seq<T>>, t: seq<T>)
    ensures t in Enumerate(ls) <==> |t| == |ls| && forall i :: 0 <= i < |ls| ==> t[i] in ls[i]
  {
    if ls != [] {
      PairingsMember(ls[0], Enumerate(ls[1..]), t);
      if |t| > 0 {
        EnumerateMember(ls[1..], t[1..]);
        if |t| == |ls| && forall i :: 0 <= i < |ls| ==> t[i] in ls[i] {
          forall i | 0 <= i < |ls[1..]| ensures t[1..][i] in ls[1..][i] {
            assert t[i + 1] in ls[i + 1];
          }
        }
        if t[0] in ls[0] && t[1..] in Enumerate(ls[1..]) {
          forall i | 0 <= i < |ls| ensures t[i] in ls[i] {
            if i > 0 { assert t[1..][i - 1] in ls[1..][i - 1]; }
          }
        }
      }
    } else {
      assert t in [[]] <==> t == [];
    }
  }

  /** `AllOf` over results that are all values is their conjunction. */
  lemma {:induction false} AllOfValues(rs: seq<Result<bool>>)
    requires forall i :: 0 <= i < |rs| ==> rs[i].Ok?
    ensures AllOf(rs) == Ok(forall i :: 0 <= i < |rs| ==> rs[i].value)
  {
    if rs != [] {
      AllOfValues(rs[1..]);
      assert (forall i :: 0 <= i < |rs| ==> rs[i].value)
         <==> rs[0].value && forall i :: 0 <= i < |rs[1..]| ==> rs[1..][i].value;
    }
  }

  /** `AllOf` is true exactly when every result is true, and fails exactly
      when some result is a failure. */
  lemma {:induction false} AllOfCases(rs: seq<Result<bool>>)
    ensures AllOf(rs) == Ok(true) <==> forall i :: 0 <= i < |rs| ==> rs[i] == Ok(true)
    ensures AllOf(rs).Err? <==> exists i :: 0 <= i < |rs| && rs[i].Err?
  {
    if rs != [] {
      AllOfCases(rs[1..]);
      if exists i :: 0 <= i < |rs[1..]| && rs[1..][i].Err? {
        var i :| 0 <= i < |rs[1..]| && rs[1..][i].Err?;
        assert rs[i + 1].Err?;
      }
      if exists i :: 0 <= i < |rs| && rs[i].Err? {
        var i :| 0 <= i < |rs| && rs[i].Err?;
        if i > 0 { assert rs[1..][i - 1].Err?; }
      }
      if forall i :: 0 <= i < |rs| ==> rs[i] == Ok(true) {
        assert forall i :: 0 <= i < |rs[1..]| ==> rs[1..][i] == rs[i + 1];
      }
      if AllOf(rs) == Ok(true) {
        forall i | 0 <= i < |rs| ensures rs[i] == Ok(true) {
          if i > 0 { assert rs[1..][i - 1] == Ok(true); }
        }
      }
    }
  }

  /** For a symbol of the right nesting, membership answers without failing
      and agrees with the enumerated elements of the alphabet. */
  lemma {:induction false} MemberOfShaped<A>(a: Alphabet<A>, x: Symbol<A>)
    requires Shaped(a, x)
    ensures MemberOf(a, x) == Ok(x in Elements(a))
    decreases x
  {
    match a
    case Flat(s) =>
    case Product(fs) =>
      var items := x.items;
      var rs := seq(|items|, i requires 0 <= i < |items| =>
        if i < |fs| then MemberOf(fs[i], items[i]) else Err(IndexOutOfRange));
      forall i | 0 <= i < |items| ensures rs[i] == Ok(items[i] in Elements(fs[i])) {
        MemberOfShaped(fs[i], items[i]);
      }
      AllOfValues(rs);
      var ls := Lists(fs);
      EnumerateMember(ls, items);
      var e := Enumerate(ls);
      assert seq(|fs|, i requires 0 <= i < |fs| => Elements(fs[i])) == ls;
      var els := seq(|e|, k requires 0 <= k < |e| => Tuple(e[k]));
      assert Elements(a) == els;
      if items in e {
        var k :| 0 <= k < |e| && e[k] == items;
        assert els[k] == x;
      }
      if x in els {
        var k :| 0 <= k < |els| && els[k] == x;
        assert e[k] == items;
      }
  }

  /** Every element of an alphabet has the alphabet's nesting. */
  lemma {:induction false} ElementsShaped<A>(a: Alphabet<A>, x: Symbol<A>)
    requires x in Elements(a)
    ensures Shaped(a, x)
    decreases x
  {
    match a
    case Flat(s) =>
    case Product(fs) =>
      var ls := Lists(fs);
      var e := Enumerate(ls);
      assert seq(|fs|, i requires 0 <= i < |fs| => Elements(fs[i])) == ls;
      var k :| 0 <= k < |e| && Tuple(e[k]) == x;
      EnumerateMember(ls, e[k]);
      forall i | 0 <= i < |fs| ensures Shaped(fs[i], x.items[i]) {
        ElementsShaped(fs[i], x.items[i]);
      }
  }
}
