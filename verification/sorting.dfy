/**
  Ordered, duplicate-free sequences over an arbitrary strict total order.

  The planner keeps component labels and interval boundaries as Python's
  `sorted(set(xs))`; this module gives that operation once, for any element
  type and comparison, together with the fact that it is the only strictly
  increasing sequence with a given element set.
 */
module Sorting {

  /** `lt` is irreflexive, transitive and total on distinct elements. */
  ghost predicate IsStrictTotalOrder<T(!new)>(lt: (T, T) -> bool) {
    && (forall x :: !lt(x, x))
    && (forall x, y, z :: lt(x, y) && lt(y, z) ==> lt(x, z))
    && (forall x, y :: x != y ==> lt(x, y) || lt(y, x))
  }

  /** Every element is below every later element, so there are no duplicates. */
  predicate StrictlyIncreasing<T>(s: seq<T>, lt: (T, T) -> bool) {
    forall i, j :: 0 <= i < j < |s| ==> lt(s[i], s[j])
  }

  function Elements<T>(s: seq<T>): set<T> {
    set x | x in s
  }

  /** Inserts `x` into a strictly increasing sequence unless it is already there. */
  function InsertUnique<T(==,!new)>(x: T, s: seq<T>, lt: (T, T) -> bool): (r: seq<T>)
    requires IsStrictTotalOrder(lt)
    requires StrictlyIncreasing(s, lt)
    ensures StrictlyIncreasing(r, lt)
    ensures Elements(r) == Elements(s) + {x}
    ensures x in s ==> r == s
    ensures |r| == if x in s then |s| else |s| + 1
  {
    if |s| == 0 then [x]
    else if x == s[0] then s
    else if lt(x, s[0]) then
      assert x !in s by {
        forall i | 0 <= i < |s| ensures s[i] != x {
          if i > 0 { assert lt(s[0], s[i]); }
        }
      }
      [x] + s
    else
      var rest := InsertUnique(x, s[1..], lt);
      assert Elements(s) == {s[0]} + Elements(s[1..]) by {
        assert s == [s[0]] + s[1..];
      }
      assert forall k :: 0 <= k < |rest| ==> lt(s[0], rest[k]) by {
        forall k | 0 <= k < |rest| ensures lt(s[0], rest[k]) {
          assert rest[k] in Elements(rest);
          if rest[k] != x {
            var i :| 0 <= i < |s[1..]| && s[1..][i] == rest[k];
            assert s[i + 1] == rest[k];
          }
        }
      }
      assert x in s <==> x in s[1..] by {
        assert s == [s[0]] + s[1..];
      }
      [s[0]] + rest
  }

  /** Python's `sorted(set(xs))` for the order `lt`. */
  function SortUnique<T(==,!new)>(xs: seq<T>, lt: (T, T) -> bool): (r: seq<T>)
    requires IsStrictTotalOrder(lt)
    ensures StrictlyIncreasing(r, lt)
    ensures Elements(r) == Elements(xs)
    ensures |r| <= |xs|
  {
    if |xs| == 0 then []
    else
      var r := InsertUnique(xs[|xs| - 1], SortUnique(xs[..|xs| - 1], lt), lt);
      assert xs == xs[..|xs| - 1] + [xs[|xs| - 1]];
      assert Elements(xs) == Elements(xs[..|xs| - 1]) + {xs[|xs| - 1]};
      r
  }

  /** A sequence has no elements exactly when it is empty. */
  lemma ElementsEmpty<T>(s: seq<T>)
    ensures Elements(s) == {} <==> |s| == 0
  {
    if |s| > 0 { assert s[0] in Elements(s); }
  }

  /** The head of a strictly increasing sequence is below every other element. */
  lemma HeadIsLeast<T(!new)>(s: seq<T>, lt: (T, T) -> bool, x: T)
    requires IsStrictTotalOrder(lt)
    requires StrictlyIncreasing(s, lt)
    requires x in Elements(s)
    ensures |s| > 0 && (x == s[0] || lt(s[0], x))
  {
    var i :| 0 <= i < |s| && s[i] == x;
    if i > 0 { assert lt(s[0], s[i]); }
  }

  /** Dropping the head of a strictly increasing sequence drops exactly that element. */
  lemma TailElements<T(!new)>(s: seq<T>, lt: (T, T) -> bool)
    requires IsStrictTotalOrder(lt)
    requires StrictlyIncreasing(s, lt)
    requires |s| > 0
    ensures Elements(s[1..]) == Elements(s) - {s[0]}
  {
    assert s == [s[0]] + s[1..];
    forall k | 0 <= k < |s[1..]| ensures s[1..][k] != s[0] {
      assert lt(s[0], s[k + 1]);
    }
  }

  /**
    A strictly increasing sequence is determined by its element set: this is
    why equality of sorted, de-duplicated label lists is set equality.
   */
  lemma {:induction false} StrictlyIncreasingUnique<T(!new)>(a: seq<T>, b: seq<T>, lt: (T, T) -> bool)
    requires IsStrictTotalOrder(lt)
    requires StrictlyIncreasing(a, lt) && StrictlyIncreasing(b, lt)
    requires Elements(a) == Elements(b)
    ensures a == b
  {
    ElementsEmpty(a);
    ElementsEmpty(b);
    if |a| > 0 {
      HeadIsLeast(a, lt, b[0]);
      HeadIsLeast(b, lt, a[0]);
      assert a[0] == b[0];
      TailElements(a, lt);
      TailElements(b, lt);
      StrictlyIncreasingUnique(a[1..], b[1..], lt);
      assert a == [a[0]] + a[1..];
      assert b == [b[0]] + b[1..];
    }
  }

  /** A strictly increasing sequence holds no element twice. */
  lemma StrictlyIncreasingDistinct<T(!new)>(s: seq<T>, lt: (T, T) -> bool, i: int, j: int)
    requires IsStrictTotalOrder(lt)
    requires StrictlyIncreasing(s, lt)
    requires 0 <= i < |s| && 0 <= j < |s| && i != j
    ensures s[i] != s[j]
  {
    if i < j { assert lt(s[i], s[j]); } else { assert lt(s[j], s[i]); }
  }

  /** Sorting an already strictly increasing sequence leaves it unchanged. */
  lemma SortUniqueOfSorted<T(!new)>(s: seq<T>, lt: (T, T) -> bool)
    requires IsStrictTotalOrder(lt)
    requires StrictlyIncreasing(s, lt)
    ensures SortUnique(s, lt) == s
  {
    StrictlyIncreasingUnique(SortUnique(s, lt), s, lt);
  }
}
