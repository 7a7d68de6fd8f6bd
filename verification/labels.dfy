/**
  Component labels and the order Python's `sorted` puts them in.

  Every component is known to the planner only through its label, a string.
  Python compares strings code point by code point, and a proper prefix
  comes first; `LexLess` is that comparison.
 */
module Labels {
  import opened Sorting

  type Label = string

  /** Python's `a < b` on strings. */
  predicate LexLess(a: Label, b: Label) {
    if |a| == 0 then |b| > 0
    else if |b| == 0 then false
    else if a[0] < b[0] then true
    else if a[0] == b[0] then LexLess(a[1..], b[1..])
    else false
  }

  lemma {:induction false} LexLessIrreflexive(a: Label)
    ensures !LexLess(a, a)
  {
    if |a| > 0 { LexLessIrreflexive(a[1..]); }
  }

  lemma {:induction false} LexLessTransitive(a: Label, b: Label, c: Label)
    requires LexLess(a, b) && LexLess(b, c)
    ensures LexLess(a, c)
  {
    if |a| > 0 && |b| > 0 && |c| > 0 && a[0] == b[0] && b[0] == c[0] {
      LexLessTransitive(a[1..], b[1..], c[1..]);
    }
  }

  lemma {:induction false} LexLessTotal(a: Label, b: Label)
    requires a != b
    ensures LexLess(a, b) || LexLess(b, a)
  {
    if |a| > 0 && |b| > 0 && a[0] == b[0] {
      assert a == [a[0]] + a[1..];
      assert b == [b[0]] + b[1..];
      LexLessTotal(a[1..], b[1..]);
    }
  }

  /** String comparison is a strict total order, so sorting labels is well defined. */
  lemma LexLessIsStrictTotalOrder()
    ensures IsStrictTotalOrder(LexLess)
  {
    forall a: Label ensures !LexLess(a, a) { LexLessIrreflexive(a); }
    forall a: Label, b: Label, c: Label | LexLess(a, b) && LexLess(b, c)
      ensures LexLess(a, c)
    {
      LexLessTransitive(a, b, c);
    }
    forall a: Label, b: Label | a != b ensures LexLess(a, b) || LexLess(b, a) {
      LexLessTotal(a, b);
    }
  }

  /** Python's `sorted(set(labels))`. */
  function SortLabels(labels: seq<Label>): (r: seq<Label>)
    ensures StrictlyIncreasing(r, LexLess)
    ensures Elements(r) == Elements(labels)
  {
    LexLessIsStrictTotalOrder();
    SortUnique(labels, LexLess)
  }

  /** Python's `tuple(sorted([a, b]))`: the two labels, smaller one first. */
  function SortedPair(a: Label, b: Label): (p: (Label, Label))
    ensures {p.0, p.1} == {a, b}
    ensures !LexLess(p.1, p.0)
  {
    LexLessIsStrictTotalOrder();
    if LexLess(b, a) then (b, a) else (a, b)
  }

  /** The sorted pair forgets the order of its arguments. */
  lemma SortedPairSymmetric(a: Label, b: Label)
    ensures SortedPair(a, b) == SortedPair(b, a)
  {
    LexLessIsStrictTotalOrder();
  }
}
