/**
  The workbench's `Subassembly` value: a sorted list of component labels
  without duplicates, compared by that list.
 */
module Subassemblies {
  import opened Sorting
  import opened Labels
  import opened Wrappers

  datatype Subassembly = Subassembly(components: seq<Label>) {

    /** The invariant every constructor and mutator keeps. */
    predicate Valid() {
      StrictlyIncreasing(components, LexLess)
    }

    function Members(): set<Label> {
      Elements(components)
    }

    /** `add_component`: a no-op for a present label, a sorted insert otherwise. */
    function AddComponent(c: Label): (r: Subassembly)
      requires Valid()
      ensures r.Valid()
      ensures r.Members() == Members() + {c}
      ensures c in components ==> r == this
    {
      if c in components then this
      else Subassembly(SortLabels(components + [c]))
    }

    /** `remove_component`: `list.remove` raises when the label is absent. */
    function RemoveComponent(c: Label): (r: Result<Subassembly, string>)
      requires Valid()
      ensures r.Success? <==> c in components
      ensures r.Success? ==> r.value.Valid() && r.value.Members() == Members() - {c}
    {
      if c !in components then Failure("list.remove(x): x not in list")
      else
        var rest := RemoveFirst(components, c);
        assert StrictlyIncreasing(rest, LexLess) && Elements(rest) == Members() - {c} by {
          var i :| 0 <= i < |components| && components[i] == c && rest == components[..i] + components[i + 1..];
          RemoveAtKeepsOrder(components, i);
        }
        Success(Subassembly(rest))
    }
  }

  /** Python's `list.remove`: drops the first occurrence of `c`. */
  function RemoveFirst(s: seq<Label>, c: Label): (r: seq<Label>)
    requires c in s
    ensures exists i :: 0 <= i < |s| && s[i] == c && c !in s[..i] && r == s[..i] + s[i + 1..]
  {
    if s[0] == c then
      assert s[..0] == [];
      s[1..]
    else
      var rest := RemoveFirst(s[1..], c);
      RemoveFirstStep(s, c, rest);
      [s[0]] + rest
  }

  /** The recursive step of `RemoveFirst`: a removal from the tail, behind the head, is a removal from the list. */
  lemma RemoveFirstStep(s: seq<Label>, c: Label, rest: seq<Label>)
    requires |s| > 0 && s[0] != c
    requires exists i :: 0 <= i < |s[1..]| && s[1..][i] == c && c !in s[1..][..i] && rest == s[1..][..i] + s[1..][i + 1..]
    ensures exists i :: 0 <= i < |s| && s[i] == c && c !in s[..i] && [s[0]] + rest == s[..i] + s[i + 1..]
  {
    var i :| 0 <= i < |s[1..]| && s[1..][i] == c && c !in s[1..][..i] && rest == s[1..][..i] + s[1..][i + 1..];
    assert s[..i + 1] == [s[0]] + s[1..][..i];
    assert s[i + 2..] == s[1..][i + 1..];
    assert s[i + 1] == c && c !in s[..i + 1];
    assert [s[0]] + rest == s[..i + 1] + s[i + 2..];
  }

  /** Removing one position of a strictly increasing list keeps it ordered and drops one label. */
  lemma RemoveAtKeepsOrder(s: seq<Label>, i: int)
    requires StrictlyIncreasing(s, LexLess)
    requires 0 <= i < |s|
    ensures StrictlyIncreasing(s[..i] + s[i + 1..], LexLess)
    ensures Elements(s[..i] + s[i + 1..]) == Elements(s) - {s[i]}
  {
    RemoveAtOrdered(s, i);
    RemoveAtElements(s, i);
  }

  lemma RemoveAtOrdered(s: seq<Label>, i: int)
    requires StrictlyIncreasing(s, LexLess)
    requires 0 <= i < |s|
    ensures StrictlyIncreasing(s[..i] + s[i + 1..], LexLess)
  {
    var rest := s[..i] + s[i + 1..];
    forall a, b | 0 <= a < b < |rest| ensures LexLess(rest[a], rest[b]) {
      var a' := if a < i then a else a + 1;
      var b' := if b < i then b else b + 1;
      assert rest[a] == s[a'] && rest[b] == s[b'];
    }
  }

  lemma RemoveAtElements(s: seq<Label>, i: int)
    requires StrictlyIncreasing(s, LexLess)
    requires 0 <= i < |s|
    ensures Elements(s[..i] + s[i + 1..]) == Elements(s) - {s[i]}
  {
    LexLessIsStrictTotalOrder();
    assert s == s[..i] + [s[i]] + s[i + 1..];
    forall k | 0 <= k < |s| && k != i ensures s[k] != s[i] {
      StrictlyIncreasingDistinct(s, LexLess, k, i);
    }
  }

  /** The constructor: `sorted(list(set(components)))`. */
  function NewSubassembly(components: seq<Label>): (s: Subassembly)
    ensures s.Valid()
    ensures s.Members() == Elements(components)
  {
    Subassembly(SortLabels(components))
  }

  /** Two valid subassemblies are equal exactly when they hold the same labels. */
  lemma EqualIffSameMembers(s: Subassembly, t: Subassembly)
    requires s.Valid() && t.Valid()
    ensures s == t <==> s.Members() == t.Members()
  {
    LexLessIsStrictTotalOrder();
    if s.Members() == t.Members() {
      StrictlyIncreasingUnique(s.components, t.components, LexLess);
    }
  }

  /** Construction depends only on the set of labels given, not their order or repeats. */
  lemma NewSubassemblyCanonical(xs: seq<Label>, ys: seq<Label>)
    ensures NewSubassembly(xs) == NewSubassembly(ys) <==> Elements(xs) == Elements(ys)
  {
    EqualIffSameMembers(NewSubassembly(xs), NewSubassembly(ys));
  }

  /** Adding a component twice is the same as adding it once. */
  lemma AddComponentIdempotent(s: Subassembly, c: Label)
    requires s.Valid()
    ensures s.AddComponent(c).AddComponent(c) == s.AddComponent(c)
  {
  }

  /** Adding a component yields what the constructor builds from the enlarged list. */
  lemma AddComponentIsConstruction(s: Subassembly, c: Label)
    requires s.Valid()
    ensures s.AddComponent(c) == NewSubassembly(s.components + [c])
  {
    assert Elements(s.components + [c]) == s.Members() + {c};
    EqualIffSameMembers(s.AddComponent(c), NewSubassembly(s.components + [c]));
  }
}
