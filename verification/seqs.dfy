/** Sequence facts shared by the parser, the validator and the rotation tables:
    the first index satisfying a predicate (Rust's `filter(..).next()` and
    `position(..)`), rotation (Rust's `rotate_left`), duplicate-freedom and
    permutation.
 */
module Seqs {
  import opened Wrappers

  /** No element of `s` occurs twice. */
  predicate NoDuplicates<T(==)>(s: seq<T>) {
    forall i, j :: 0 <= i < j < |s| ==> s[i] != s[j]
  }

  /** `a` holds exactly the elements of `b`, each as often as `b` does. */
  predicate IsPermutation<T(==)>(a: seq<T>, b: seq<T>) {
    multiset(a) == multiset(b)
  }

  /** The set of elements of `s`. */
  function Elements<T>(s: seq<T>): set<T> {
    set x | x in s
  }

  /** The index of the first element of `s` satisfying `p`, if any. This is
      `s.iter().position(p)`, and also `s.iter().filter(p).next()` reported by
      position rather than by value. */
  function FindFirst<T>(s: seq<T>, p: T -> bool): (r: Option<nat>)
    ensures r.Some? ==> r.value < |s| && p(s[r.value])
    ensures r.Some? ==> forall j :: 0 <= j < r.value ==> !p(s[j])
    ensures r.None? <==> forall j :: 0 <= j < |s| ==> !p(s[j])
  {
    if |s| == 0 then None
    else if p(s[0]) then Some(0)
    else
      match FindFirst(s[1..], p)
      case None => None
      case Some(i) => Some(i + 1)
  }

  /** The position of the first occurrence of `x` in `s`, as Rust's
      `position(|y| y == x)` when the element is known to be present. */
  function IndexOf<T(==)>(s: seq<T>, x: T): (i: nat)
    requires x in s
    ensures i < |s| && s[i] == x
    ensures forall j :: 0 <= j < i ==> s[j] != x
  {
    if s[0] == x then 0
    else
      assert x in s[1..] by {
        var k :| 0 <= k < |s| && s[k] == x;
        assert s[1..][k - 1] == x;
      }
      1 + IndexOf(s[1..], x)
  }

  /** In a duplicate-free sequence the position of `s[i]` is `i`. */
  lemma IndexOfNoDuplicates<T>(s: seq<T>, i: nat)
    requires NoDuplicates(s) && i < |s|
    ensures IndexOf(s, s[i]) == i
  {
    var k := IndexOf(s, s[i]);
    assert s[k] == s[i];
  }

  /** `s` rotated left by `k` positions, as Rust's `slice::rotate_left(k)`,
      which panics unless `k <= |s|`: the entries from position `k` on move to
      the front, the first `k` entries to the back. */
  function RotateLeft<T>(s: seq<T>, k: nat): (r: seq<T>)
    requires k <= |s|
    ensures |r| == |s|
    ensures forall j :: 0 <= j < |s| - k ==> r[j] == s[j + k]
    ensures forall j :: |s| - k <= j < |s| ==> r[j] == s[j + k - |s|]
  {
    s[k..] + s[..k]
  }

  /** Rotation only reorders: it is a permutation. */
  lemma RotateLeftPermutation<T>(s: seq<T>, k: nat)
    requires k <= |s|
    ensures IsPermutation(RotateLeft(s, k), s)
  {
    assert s == s[..k] + s[k..];
    assert RotateLeft(s, k) == s[k..] + s[..k];
  }

  /** Position `i + d` on a cycle of `n` positions, for a step `d` of at most
      one round: `(i + d) % n` written without the division. */
  function Ahead(i: nat, d: nat, n: nat): nat
    requires i < n && d <= n
  {
    if i + d < n then i + d else i + d - n
  }

  /** `f` applied `k` times to `x`. */
  function Iterate<T>(f: T -> T, x: T, k: nat): T {
    if k == 0 then x else f(Iterate(f, x, k - 1))
  }

  /** When `f` takes every entry of `s` to the next one, the last wrapping round
      to the first, then up to one full round `k` applications of `f` move
      position `i` forward by `k` places. */
  lemma {:induction false} IterateAlong<T>(f: T -> T, s: seq<T>, i: nat, k: nat)
    requires i < |s| && k <= |s|
    requires forall j :: 0 <= j < |s| ==> f(s[j]) == s[Ahead(j, 1, |s|)]
    ensures Iterate(f, s[i], k) == s[Ahead(i, k, |s|)]
  {
    if k > 0 {
      IterateAlong(f, s, i, k - 1);
    }
  }

  /** Rotation keeps a sequence duplicate-free. */
  lemma RotateLeftNoDuplicates<T>(s: seq<T>, k: nat)
    requires k <= |s| && NoDuplicates(s)
    ensures NoDuplicates(RotateLeft(s, k))
  {
    var r := RotateLeft(s, k);
    forall i, j | 0 <= i < j < |r|
      ensures r[i] != r[j]
    {
      if i < |s| - k <= j {
        assert r[i] == s[i + k] && r[j] == s[j + k - |s|];
      }
    }
  }

  /** A sequence has at most as many distinct elements as entries, and exactly as
      many precisely when it is duplicate-free. */
  lemma {:induction false} ElementsCount<T>(s: seq<T>)
    ensures |Elements(s)| <= |s|
    ensures |Elements(s)| == |s| <==> NoDuplicates(s)
  {
    if |s| > 0 {
      var t := s[1..];
      ElementsCount(t);
      assert Elements(s) == {s[0]} + Elements(t);
      if s[0] in t {
        assert Elements(s) == Elements(t);
        var j :| 0 <= j < |t| && t[j] == s[0];
        assert s[0] == s[j + 1];
      } else {
        assert Elements(s) == Elements(t) + {s[0]};
        assert s[0] !in Elements(t);
        if NoDuplicates(t) {
          forall i, j | 0 <= i < j < |s|
            ensures s[i] != s[j]
          {
            if i > 0 {
              assert s[i] == t[i - 1] && s[j] == t[j - 1];
            } else {
              assert s[j] == t[j - 1];
            }
          }
        }
        if NoDuplicates(s) {
          forall i, j | 0 <= i < j < |t|
            ensures t[i] != t[j]
          {
            assert t[i] == s[i + 1] && t[j] == s[j + 1];
          }
        }
      }
    } else {
      assert Elements(s) == {};
    }
  }

  /** In a duplicate-free sequence every element occurs exactly once. */
  lemma {:induction false} NoDuplicatesMultiplicity<T>(s: seq<T>, x: T)
    requires NoDuplicates(s)
    ensures multiset(s)[x] == (if x in s then 1 else 0)
  {
    if |s| > 0 {
      var t := s[1..];
      assert s == [s[0]] + t;
      assert NoDuplicates(t) by {
        forall i, j | 0 <= i < j < |t|
          ensures t[i] != t[j]
        {
          assert t[i] == s[i + 1] && t[j] == s[j + 1];
        }
      }
      NoDuplicatesMultiplicity(t, x);
      if x == s[0] {
        assert x !in t by {
          forall j | 0 <= j < |t|
            ensures t[j] != x
          {
            assert t[j] == s[j + 1];
          }
        }
      }
    }
  }

  /** The three checks of a custom order -- equal length, nothing foreign,
      nothing missing -- make `a` a duplicate-free permutation of `b` when `b`
      itself is duplicate-free. */
  lemma ChecksGivePermutation<T>(a: seq<T>, b: seq<T>)
    requires NoDuplicates(b)
    requires |a| == |b|
    requires forall x :: x in a ==> x in b
    requires forall x :: x in b ==> x in a
    ensures NoDuplicates(a)
    ensures IsPermutation(a, b)
  {
    assert Elements(a) == Elements(b);
    ElementsCount(a);
    ElementsCount(b);
    forall x
      ensures multiset(a)[x] == multiset(b)[x]
    {
      NoDuplicatesMultiplicity(a, x);
      NoDuplicatesMultiplicity(b, x);
    }
    assert multiset(a) == multiset(b);
  }

  /** Conversely, a permutation passes all three checks. */
  lemma PermutationPassesChecks<T>(a: seq<T>, b: seq<T>)
    requires IsPermutation(a, b)
    ensures |a| == |b|
    ensures forall x :: x in a <==> x in b
  {
    assert |multiset(a)| == |multiset(b)|;
    forall x
      ensures x in a <==> x in b
    {
      assert x in a <==> x in multiset(a);
      assert x in b <==> x in multiset(b);
    }
  }
}
