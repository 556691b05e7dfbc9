/** The meaning of the generated `EnumRotate` implementation (src/lib.rs:136-207).

    The generator emits one of two implementations. For an enum without variants
    every method but `iter` is unreachable, since no value of the type exists.
    Otherwise `map_from` is the resolved order and `map_to` is that order rotated
    left by one; `next` is the match table `map_from[i] => map_to[i]`, `prev` the
    table `map_to[i] => map_from[i]`, `iter` yields `map_from`, and `iter_from`
    yields `map_from` rotated left to start at the receiver.

    A variant is identified by its name. The source compares discriminants in
    `iter_from`; for unit variants with distinct names that is the same test.
 */
module Rotation {
  import opened Seqs

  type Name = string

  /** The two shapes of generated implementation. */
  datatype Impl =
    | EmptyImpl
    | Tables(mapFrom: seq<Name>, mapTo: seq<Name>)

  /** The members of the type in iteration order: the generated `iter()`. */
  function Iter(impl: Impl): (r: seq<Name>)
    ensures Valid(impl) ==> (|r| == 0 <==> impl.EmptyImpl?) && NoDuplicates(r)
  {
    match impl
    case EmptyImpl => []
    case Tables(mapFrom, _) => mapFrom
  }

  /** What every implementation built from a validated order satisfies: the
      match arms cover each member exactly once and the successor table is the
      order shifted by one. */
  predicate Valid(impl: Impl) {
    impl.Tables? ==>
      && |impl.mapFrom| > 0
      && NoDuplicates(impl.mapFrom)
      && impl.mapTo == RotateLeft(impl.mapFrom, 1)
  }

  /** Builds the implementation for a resolved order: the empty special case,
      or the two tables, the successor table being the order moved up by one
      place with the first member wrapping round to the end. */
  function Synthesize(order: seq<Name>): (impl: Impl)
    ensures impl.EmptyImpl? <==> |order| == 0
    ensures Iter(impl) == order
    ensures impl.Tables? ==> |impl.mapTo| == |order| && impl.mapTo[|order| - 1] == order[0]
    ensures impl.Tables? ==> forall i :: 0 <= i < |order| - 1 ==> impl.mapTo[i] == order[i + 1]
    ensures NoDuplicates(order) ==> Valid(impl)
  {
    if |order| == 0 then EmptyImpl
    else Tables(order, RotateLeft(order, 1))
  }

  /** A generated `match m { keys[0] => vals[0], ... }`: the first arm whose
      pattern is `m` decides. */
  function Lookup(keys: seq<Name>, vals: seq<Name>, m: Name): (r: Name)
    requires |keys| == |vals| && m in keys
  {
    vals[IndexOf(keys, m)]
  }

  /** The generated `next`: the member one place after `m` in iteration order,
      the first member after the last. */
  function Next(impl: Impl, m: Name): (r: Name)
    requires Valid(impl) && m in Iter(impl)
    ensures r in Iter(impl)
    ensures r == Iter(impl)[Ahead(IndexOf(Iter(impl), m), 1, |Iter(impl)|)]
  {
    Lookup(impl.mapFrom, impl.mapTo, m)
  }

  /** The generated `prev`: the member one place before `m` in iteration
      order (`n - 1` places after it on the cycle), the last member before the
      first. */
  function Prev(impl: Impl, m: Name): (r: Name)
    requires Valid(impl) && m in Iter(impl)
    ensures r in Iter(impl)
    ensures r == Iter(impl)[Ahead(IndexOf(Iter(impl), m), |Iter(impl)| - 1, |Iter(impl)|)]
  {
    var n, i := |impl.mapFrom|, IndexOf(impl.mapFrom, m);
    var j := Ahead(i, n - 1, n);
    assert impl.mapTo[j] == m;
    RotateLeftNoDuplicates(impl.mapFrom, 1);
    IndexOfNoDuplicates(impl.mapTo, j);
    Lookup(impl.mapTo, impl.mapFrom, m)
  }

  /** The generated `iter_from`: `iter()` rotated so that it starts at `m`. Its
      `k`-th entry is the member `k` places after `m` in iteration order,
      counting round from the last member to the first. */
  function IterFrom(impl: Impl, m: Name): (r: seq<Name>)
    requires Valid(impl) && m in Iter(impl)
    ensures |r| == |Iter(impl)| && r[0] == m
    ensures forall k :: 0 <= k < |r| ==> r[k] == Iter(impl)[Ahead(IndexOf(Iter(impl), m), k, |r|)]
    ensures NoDuplicates(r)
  {
    var i := IndexOf(impl.mapFrom, m);
    RotateLeftNoDuplicates(impl.mapFrom, i);
    RotateLeft(impl.mapFrom, i)
  }

  /** The successor table lists the same members as the order. */
  lemma TablesPermutation(impl: Impl)
    requires Valid(impl) && impl.Tables?
    ensures IsPermutation(impl.mapTo, impl.mapFrom)
  {
    RotateLeftPermutation(impl.mapFrom, 1);
  }

  /** `iter_from(m)` lists every member exactly as often as `iter()` does. */
  lemma IterFromPermutation(impl: Impl, m: Name)
    requires Valid(impl) && m in Iter(impl)
    ensures IsPermutation(IterFrom(impl, m), Iter(impl))
  {
    RotateLeftPermutation(impl.mapFrom, IndexOf(impl.mapFrom, m));
  }

  /** The generated `next` as a function on all names, leaving names that
      are not members alone. */
  function Successor(impl: Impl): Name -> Name {
    m => if Valid(impl) && m in Iter(impl) then Next(impl, m) else m
  }

  /** `k` applications of `next` to `m`. */
  function NextN(impl: Impl, m: Name, k: nat): Name
    requires Valid(impl) && m in Iter(impl)
  {
    Iterate(Successor(impl), m, k)
  }

  /** The successor of the member at position `i` is the member at `i + 1`,
      wrapping round to the first member after the last. */
  lemma NextAt(impl: Impl, i: nat)
    requires Valid(impl) && i < |Iter(impl)|
    ensures Next(impl, Iter(impl)[i]) == Iter(impl)[Ahead(i, 1, |Iter(impl)|)]
  {
    IndexOfNoDuplicates(impl.mapFrom, i);
  }

  /** The predecessor of the member at position `i` is the member at `i - 1`,
      wrapping round to the last member before the first (`n - 1` places
      ahead on the cycle is one place back). */
  lemma PrevAt(impl: Impl, i: nat)
    requires Valid(impl) && i < |Iter(impl)|
    ensures Prev(impl, Iter(impl)[i]) == Iter(impl)[Ahead(i, |Iter(impl)| - 1, |Iter(impl)|)]
  {
    var order, n := impl.mapFrom, |impl.mapFrom|;
    var j := Ahead(i, n - 1, n);
    assert impl.mapTo[j] == order[i];
    RotateLeftNoDuplicates(order, 1);
    IndexOfNoDuplicates(impl.mapTo, j);
  }

  /** In a one-member enum both directions map the member to itself. */
  lemma SingleMember(impl: Impl, m: Name)
    requires Valid(impl) && Iter(impl) == [m]
    ensures Next(impl, m) == m && Prev(impl, m) == m
  {
    NextAt(impl, 0);
    PrevAt(impl, 0);
  }

  /** `prev` undoes `next`. */
  lemma PrevNext(impl: Impl, m: Name)
    requires Valid(impl) && m in Iter(impl)
    ensures Prev(impl, Next(impl, m)) == m
  {
    var order, n := Iter(impl), |Iter(impl)|;
    var i := IndexOf(order, m);
    NextAt(impl, i);
    PrevAt(impl, Ahead(i, 1, n));
  }

  /** `next` undoes `prev`. */
  lemma NextPrev(impl: Impl, m: Name)
    requires Valid(impl) && m in Iter(impl)
    ensures Next(impl, Prev(impl, m)) == m
  {
    var order, n := Iter(impl), |Iter(impl)|;
    var i := IndexOf(order, m);
    PrevAt(impl, i);
    NextAt(impl, Ahead(i, n - 1, n));
  }

  /** Up to one full round, `k` steps of `next` from position `i` reach position
      `i + k`, counted round the cycle of members. */
  lemma NextNAt(impl: Impl, i: nat, k: nat)
    requires Valid(impl) && i < |Iter(impl)| && k <= |Iter(impl)|
    ensures NextN(impl, Iter(impl)[i], k) == Iter(impl)[Ahead(i, k, |Iter(impl)|)]
  {
    var s := Iter(impl);
    forall j | 0 <= j < |s|
      ensures Successor(impl)(s[j]) == s[Ahead(j, 1, |s|)]
    {
      NextAt(impl, j);
    }
    IterateAlong(Successor(impl), s, i, k);
  }

  /** `next` is a single cycle through all members: the first `n` members
      reached from `m` are pairwise distinct, so they are all `n` members, and
      the `n`-th step returns to `m`. */
  lemma SingleCycle(impl: Impl, m: Name)
    requires Valid(impl) && m in Iter(impl)
    ensures NextN(impl, m, |Iter(impl)|) == m
    ensures forall k, k' :: 0 <= k < k' < |Iter(impl)| ==> NextN(impl, m, k) != NextN(impl, m, k')
  {
    var order, n := Iter(impl), |Iter(impl)|;
    var i := IndexOf(order, m);
    NextNAt(impl, i, n);
    forall k, k' | 0 <= k < k' < n
      ensures NextN(impl, m, k) != NextN(impl, m, k')
    {
      NextNAt(impl, i, k);
      NextNAt(impl, i, k');
    }
  }

  /** Every member is reached from every other by fewer than `n` steps of
      `next`. */
  lemma Reaches(impl: Impl, m: Name, x: Name) returns (k: nat)
    requires Valid(impl) && m in Iter(impl) && x in Iter(impl)
    ensures k < |Iter(impl)| && NextN(impl, m, k) == x
  {
    var order, n := Iter(impl), |Iter(impl)|;
    var i, j := IndexOf(order, m), IndexOf(order, x);
    k := if i <= j then j - i else j + n - i;
    NextNAt(impl, i, k);
  }

  /** `iter_from(m)` lists `m`, `next(m)`, `next(next(m))`, ... once round. */
  lemma IterFromFollowsNext(impl: Impl, m: Name)
    requires Valid(impl) && m in Iter(impl)
    ensures forall k :: 0 <= k < |IterFrom(impl, m)| ==> IterFrom(impl, m)[k] == NextN(impl, m, k)
  {
    var order := Iter(impl);
    var i := IndexOf(order, m);
    forall k | 0 <= k < |order|
      ensures IterFrom(impl, m)[k] == NextN(impl, m, k)
    {
      NextNAt(impl, i, k);
    }
  }
}
