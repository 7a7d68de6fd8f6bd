/**
  Obstruction-interval refinement of the OCCT obstruction detector.

  For a target component and a positive motion axis, the target's box is
  stretched along the axis up to the end of the whole assembly. Every other
  component whose box overlaps that stretched box by more than 0.01 on all
  three axes is a potential obstacle. Its overlap, projected on the motion
  axis and pulled back by the target's own length, is the stretch of the
  target's travel during which the two can touch. The travel is cut at every
  end point of these stretches, and each piece is paired with the obstacles
  whose stretch strictly overlaps it; pieces with no obstacle are dropped.
 */
module Refinement {
  import opened Wrappers
  import opened Sorting
  import opened Labels
  import opened Directions
  import opened Boxes
  import Multiproc

  /** A component as the solver sees it: a label and a bounding box. */
  datatype Component = Component(id: Label, box: Box)

  /** A closed stretch `[lo, hi]` of the motion axis. */
  datatype Interval = Interval(lo: real, hi: real)

  /** One refinement result entry: the potential obstacles during one interval. */
  datatype Pair = Pair(obstacles: seq<Label>, interval: Interval)

  /** Overlaps thinner than this, on any axis, are grazing contacts and are ignored. */
  const GrazingTolerance: real := 0.01

  function RealLess(x: real, y: real): bool { x < y }

  lemma RealLessIsStrictTotalOrder()
    ensures IsStrictTotalOrder(RealLess)
  {
  }

  /** The two intervals share more than an end point. */
  predicate StrictOverlap(i: Interval, s: Interval) {
    i.lo < s.hi && s.lo < i.hi
  }

  function LabelSet(cs: seq<Component>): set<Label> {
    set c | c in cs :: c.id
  }

  /** The last component in `cs` carrying label `l`. */
  function LastWithLabel(cs: seq<Component>, l: Label): (c: Component)
    requires l in LabelSet(cs)
    ensures c in cs && c.id == l
  {
    if cs[|cs| - 1].id == l then cs[|cs| - 1]
    else
      assert l in LabelSet(cs[..|cs| - 1]) by {
        var c :| c in cs && c.id == l;
        assert cs == cs[..|cs| - 1] + [cs[|cs| - 1]];
      }
      LastWithLabel(cs[..|cs| - 1], l)
  }

  /**
    `setComponents`: the dictionary `{component.Label: component}`. Each
    label appears once, at the position of its first occurrence, holding the
    last component given with that label.
   */
  function ComponentTable(components: seq<Component>): (t: seq<Component>)
    ensures LabelSet(t) == LabelSet(components)
    ensures forall i, j :: 0 <= i < j < |t| ==> t[i].id != t[j].id
    ensures forall i :: 0 <= i < |t| ==> t[i] == LastWithLabel(components, t[i].id)
  {
    if |components| == 0 then []
    else
      var prefix := components[..|components| - 1];
      var last := components[|components| - 1];
      var t := ComponentTable(prefix);
      assert components == prefix + [last];
      if last.id in LabelSet(t) then
        var i :| 0 <= i < |t| && t[i].id == last.id;
        TableReplace(prefix, last, t, i);
        t[i := last]
      else
        TableAppend(prefix, last, t);
        t + [last]
  }

  /** `t` is a table of `components`: every label once, holding its last component. */
  ghost predicate TableOf(t: seq<Component>, components: seq<Component>) {
    && LabelSet(t) == LabelSet(components)
    && (forall i, j :: 0 <= i < j < |t| ==> t[i].id != t[j].id)
    && forall i :: 0 <= i < |t| ==> t[i].id in LabelSet(components) && t[i] == LastWithLabel(components, t[i].id)
  }

  /** A component given after `prefix` is the last one with its label; other labels keep theirs. */
  lemma LastWithLabelSnoc(prefix: seq<Component>, last: Component, l: Label)
    requires l in LabelSet(prefix + [last])
    ensures l == last.id ==> LastWithLabel(prefix + [last], l) == last
    ensures l != last.id ==> l in LabelSet(prefix) && LastWithLabel(prefix + [last], l) == LastWithLabel(prefix, l)
  {
    var cs := prefix + [last];
    assert cs[..|cs| - 1] == prefix;
    if l != last.id {
      var c :| c in cs && c.id == l;
      assert c in prefix;
    }
  }

  /** A label seen before is overwritten in place. */
  lemma TableReplace(prefix: seq<Component>, last: Component, t: seq<Component>, i: int)
    requires TableOf(t, prefix) && 0 <= i < |t| && t[i].id == last.id
    ensures TableOf(t[i := last], prefix + [last])
  {
    var cs := prefix + [last];
    var r := t[i := last];
    assert LabelSet(cs) == LabelSet(prefix) + {last.id} by {
      forall l | l in LabelSet(cs) ensures l in LabelSet(prefix) + {last.id} {
        var c :| c in cs && c.id == l;
      }
    }
    forall l | l in LabelSet(cs) ensures l in LabelSet(r) {
      if l != last.id {
        var m :| 0 <= m < |t| && t[m].id == l;
        assert r[m] == t[m];
      } else {
        assert r[i] == last;
      }
    }
    forall m | 0 <= m < |r| ensures r[m].id in LabelSet(cs) && r[m] == LastWithLabel(cs, r[m].id) {
      LastWithLabelSnoc(prefix, last, r[m].id);
    }
  }

  /** A new label is added at the end. */
  lemma TableAppend(prefix: seq<Component>, last: Component, t: seq<Component>)
    requires TableOf(t, prefix) && last.id !in LabelSet(t)
    ensures TableOf(t + [last], prefix + [last])
  {
    var cs := prefix + [last];
    var r := t + [last];
    assert LabelSet(cs) == LabelSet(prefix) + {last.id} by {
      forall l | l in LabelSet(cs) ensures l in LabelSet(prefix) + {last.id} {
        var c :| c in cs && c.id == l;
      }
    }
    assert LabelSet(r) == LabelSet(t) + {last.id};
    forall m | 0 <= m < |r| ensures r[m].id in LabelSet(cs) && r[m] == LastWithLabel(cs, r[m].id) {
      LastWithLabelSnoc(prefix, last, r[m].id);
    }
  }

  /**
    The box the target sweeps when moved along `axis` to the end of the
    assembly: the target's own box, reaching the assembly's far side.
   */
  function Elongated(target: Box, overall: Box, axis: Axis): (e: Box)
    ensures forall a: Axis :: a != axis ==> e.Min(a) == target.Min(a) && e.Max(a) == target.Max(a)
    ensures e.Min(axis) == target.Min(axis) && e.Max(axis) == overall.Max(axis)
  {
    FromBounds(a => target.Min(a), a => if a == axis then overall.Max(a) else target.Max(a))
  }

  /** Kept as a potential obstacle: overlaps the swept box by more than the tolerance on every axis. */
  predicate IsPotentialObstacle(elongated: Box, b: Box) {
    && Intersects(elongated, b)
    && forall a: Axis :: Intersected(elongated, b).Length(a) > GrazingTolerance
  }

  /** The intersection test before the thickness test never decides anything on its own. */
  lemma ThickOverlapIntersects(e: Box, b: Box)
    requires forall a: Axis :: Intersected(e, b).Length(a) > GrazingTolerance
    ensures IsPotentialObstacle(e, b)
  {
    forall a: Axis ensures b.Min(a) <= e.Max(a) && e.Min(a) <= b.Max(a) {
      assert Intersected(e, b).Length(a) > GrazingTolerance;
    }
  }

  /** The other components that are potential obstacles, in their given order. */
  function PotentialObstacles(elongated: Box, others: seq<Component>): (r: seq<Component>)
    ensures forall c :: c in r <==> c in others && IsPotentialObstacle(elongated, c.box)
    ensures |r| <= |others|
  {
    if |others| == 0 then []
    else
      var rest := PotentialObstacles(elongated, others[1..]);
      assert forall c :: c in others <==> c == others[0] || c in others[1..] by {
        assert others == [others[0]] + others[1..];
      }
      if IsPotentialObstacle(elongated, others[0].box) then [others[0]] + rest else rest
  }

  /**
    The stretch of the target's travel during which it can touch `obstacle`:
    the overlap's extent on the axis, its start moved back by the target's
    length but not before the target's own start.
   */
  function ShiftedInterval(target: Box, elongated: Box, obstacle: Box, axis: Axis): Interval {
    var overlap := Intersected(elongated, obstacle);
    Interval(RealMax(target.Min(axis), overlap.Min(axis) - target.Length(axis)), overlap.Max(axis))
  }

  predicate ValidBox(b: Box) {
    forall a: Axis :: b.Min(a) <= b.Max(a)
  }

  /**
    A shifted interval starts no earlier than the target, no later than the
    overlap itself, and is never empty.
   */
  lemma ShiftedIntervalBounds(target: Box, overall: Box, obstacle: Box, axis: Axis)
    requires ValidBox(target)
    requires IsPotentialObstacle(Elongated(target, overall, axis), obstacle)
    ensures var e := Elongated(target, overall, axis);
            var s := ShiftedInterval(target, e, obstacle, axis);
            var overlap := Intersected(e, obstacle);
            target.Min(axis) <= s.lo <= overlap.Min(axis) < overlap.Max(axis) == s.hi
  {
    var e := Elongated(target, overall, axis);
    assert Intersected(e, obstacle).Length(axis) > GrazingTolerance;
  }

  /** All end points of the intervals, `chain.from_iterable`. */
  function Endpoints(s: seq<Interval>): (r: seq<real>)
    ensures forall x :: x in r <==> exists k :: 0 <= k < |s| && (x == s[k].lo || x == s[k].hi)
  {
    if |s| == 0 then []
    else
      var rest := Endpoints(s[1..]);
      var r := [s[0].lo, s[0].hi] + rest;
      assert forall x :: x in r ==> exists k :: 0 <= k < |s| && (x == s[k].lo || x == s[k].hi) by {
        forall x | x in r ensures exists k :: 0 <= k < |s| && (x == s[k].lo || x == s[k].hi) {
          if x in rest {
            var k :| 0 <= k < |s[1..]| && (x == s[1..][k].lo || x == s[1..][k].hi);
            assert s[k + 1] == s[1..][k];
          }
        }
      }
      assert forall k, x :: 0 <= k < |s| && (x == s[k].lo || x == s[k].hi) ==> x in r by {
        forall k, x | 0 <= k < |s| && (x == s[k].lo || x == s[k].hi) ensures x in r {
          if k > 0 {
            assert s[1..][k - 1] == s[k];
            assert x in rest;
          }
        }
      }
      r
  }

  /** The pieces between consecutive boundaries, `zip(b, b[1:])`. */
  function Consecutive(b: seq<real>): (r: seq<Interval>)
    ensures |r| == if |b| == 0 then 0 else |b| - 1
    ensures forall i :: 0 <= i < |r| ==> r[i] == Interval(b[i], b[i + 1])
  {
    if |b| == 0 then [] else seq(|b| - 1, i requires 0 <= i < |b| - 1 => Interval(b[i], b[i + 1]))
  }

  /** The labels of the obstacles whose shifted interval strictly overlaps `piece`. */
  function OverlappingObstacles(piece: Interval, obstacles: seq<Component>, shifted: seq<Interval>): (r: seq<Label>)
    requires |shifted| == |obstacles|
    ensures forall l :: l in r <==> exists k :: 0 <= k < |obstacles| && obstacles[k].id == l && StrictOverlap(piece, shifted[k])
  {
    if |obstacles| == 0 then []
    else
      var rest := OverlappingObstacles(piece, obstacles[1..], shifted[1..]);
      var r := if StrictOverlap(piece, shifted[0]) then [obstacles[0].id] + rest else rest;
      assert forall l :: l in r ==> exists k :: 0 <= k < |obstacles| && obstacles[k].id == l && StrictOverlap(piece, shifted[k]) by {
        forall l | l in r ensures exists k :: 0 <= k < |obstacles| && obstacles[k].id == l && StrictOverlap(piece, shifted[k]) {
          if l in rest {
            var k :| 0 <= k < |obstacles[1..]| && obstacles[1..][k].id == l && StrictOverlap(piece, shifted[1..][k]);
            assert obstacles[k + 1] == obstacles[1..][k] && shifted[k + 1] == shifted[1..][k];
          }
        }
      }
      assert forall k :: 0 <= k < |obstacles| && StrictOverlap(piece, shifted[k]) ==> obstacles[k].id in r by {
        forall k | 0 <= k < |obstacles| && StrictOverlap(piece, shifted[k]) ensures obstacles[k].id in r {
          if k > 0 {
            assert obstacles[1..][k - 1] == obstacles[k] && shifted[1..][k - 1] == shifted[k];
          }
        }
      }
      r
  }

  /** Interval `i` ends no later than any later one starts. */
  predicate Ascending(pairs: seq<Pair>) {
    forall j, k :: 0 <= j < k < |pairs| ==> pairs[j].interval.hi <= pairs[k].interval.lo
  }

  /** Putting a pair that ends before every pair of an ascending list in front keeps it ascending. */
  lemma AscendingCons(p: Pair, rest: seq<Pair>)
    requires Ascending(rest)
    requires forall q :: q in rest ==> p.interval.hi <= q.interval.lo
    ensures Ascending([p] + rest)
  {
    forall j, k | 0 <= j < k < |[p] + rest|
      ensures ([p] + rest)[j].interval.hi <= ([p] + rest)[k].interval.lo
    {
      assert ([p] + rest)[k] == rest[k - 1];
      if j > 0 { assert ([p] + rest)[j] == rest[j - 1]; }
    }
  }

  /** The head of an ascending list ends before every later pair starts. */
  lemma AscendingHead(pairs: seq<Pair>, q: Pair)
    requires |pairs| > 0 && Ascending(pairs)
    requires q in pairs[1..]
    ensures pairs[0].interval.hi <= q.interval.lo
  {
    var m :| 0 <= m < |pairs[1..]| && pairs[1..][m] == q;
    assert pairs[m + 1] == q;
  }

  /** `[(o, i) for o, i in zip(candidates, pieces) if o]`: drops pieces without obstacles. */
  function DropEmpty(pairs: seq<Pair>): (r: seq<Pair>)
    ensures forall p :: p in r <==> p in pairs && |p.obstacles| > 0
    ensures Ascending(pairs) ==> Ascending(r)
  {
    if |pairs| == 0 then []
    else
      var rest := DropEmpty(pairs[1..]);
      assert pairs == [pairs[0]] + pairs[1..];
      if |pairs[0].obstacles| > 0 then
        assert Ascending(pairs) ==> Ascending([pairs[0]] + rest) by {
          if Ascending(pairs) {
            assert Ascending(pairs[1..]);
            forall q | q in rest ensures pairs[0].interval.hi <= q.interval.lo {
              AscendingHead(pairs, q);
            }
            AscendingCons(pairs[0], rest);
          }
        }
        [pairs[0]] + rest
      else
        rest
  }

  /** The travel stretch of every potential obstacle, in order. */
  function Stretches(target: Box, elongated: Box, obstacles: seq<Component>, axis: Axis): (r: seq<Interval>)
    ensures |r| == |obstacles|
    ensures forall k :: 0 <= k < |r| ==> r[k] == ShiftedInterval(target, elongated, obstacles[k].box, axis)
  {
    seq(|obstacles|, k requires 0 <= k < |obstacles| => ShiftedInterval(target, elongated, obstacles[k].box, axis))
  }

  /** `sorted(set(chain.from_iterable(shifted)))`: the cut points of the travel. */
  function Boundaries(shifted: seq<Interval>): (b: seq<real>)
    ensures StrictlyIncreasing(b, RealLess)
    ensures forall x :: x in b <==> exists k :: 0 <= k < |shifted| && (x == shifted[k].lo || x == shifted[k].hi)
  {
    RealLessIsStrictTotalOrder();
    var b := SortUnique(Endpoints(shifted), RealLess);
    assert forall x :: x in b <==> x in Elements(b);
    assert forall x :: x in Endpoints(shifted) <==> x in Elements(Endpoints(shifted));
    b
  }

  /** Every piece between consecutive cut points, paired with the obstacles whose stretch overlaps it. */
  function Pieces(b: seq<real>, obstacles: seq<Component>, shifted: seq<Interval>): (r: seq<Pair>)
    requires |shifted| == |obstacles|
    ensures |r| == if |b| == 0 then 0 else |b| - 1
    ensures forall i :: 0 <= i < |r| ==>
              r[i] == Pair(OverlappingObstacles(Interval(b[i], b[i + 1]), obstacles, shifted), Interval(b[i], b[i + 1]))
  {
    var pieces := Consecutive(b);
    seq(|pieces|, i requires 0 <= i < |pieces| => Pair(OverlappingObstacles(pieces[i], obstacles, shifted), pieces[i]))
  }

  /** A cut point above `b[i]` is at or above `b[i + 1]`. */
  lemma NextBoundary(b: seq<real>, i: int, y: real)
    requires StrictlyIncreasing(b, RealLess)
    requires 0 <= i < |b| - 1 && y in b && b[i] < y
    ensures b[i + 1] <= y
  {
    var k :| 0 <= k < |b| && b[k] == y;
    if i + 1 < k { assert RealLess(b[i + 1], b[k]); }
  }

  /** A cut point below `b[i + 1]` is at or below `b[i]`. */
  lemma PreviousBoundary(b: seq<real>, i: int, y: real)
    requires StrictlyIncreasing(b, RealLess)
    requires 0 <= i < |b| - 1 && y in b && y < b[i + 1]
    ensures y <= b[i]
  {
    var k :| 0 <= k < |b| && b[k] == y;
    if k < i { assert RealLess(b[k], b[i]); }
  }

  /** A stretch that strictly overlaps a piece covers all of it, since no cut point lies inside a piece. */
  lemma PieceInsideStretch(shifted: seq<Interval>, i: int, k: int)
    requires 0 <= k < |shifted|
    requires var b := Boundaries(shifted); 0 <= i < |b| - 1 && StrictOverlap(Interval(b[i], b[i + 1]), shifted[k])
    ensures var b := Boundaries(shifted); shifted[k].lo <= b[i] && b[i + 1] <= shifted[k].hi
  {
    var b := Boundaries(shifted);
    assert shifted[k].lo in b && shifted[k].hi in b;
    PreviousBoundary(b, i, shifted[k].lo);
    NextBoundary(b, i, shifted[k].hi);
  }

  /** `o` is kept as a potential obstacle of `target` moved along `axis`. */
  predicate Kept(target: Component, o: Component, axis: Axis, overall: Box) {
    IsPotentialObstacle(Elongated(target.box, overall, axis), o.box)
  }

  /** The stretch of `target`'s travel along `axis` during which it can touch `o`. */
  function Stretch(target: Component, o: Component, axis: Axis, overall: Box): Interval {
    ShiftedInterval(target.box, Elongated(target.box, overall, axis), o.box, axis)
  }

  /** The potential obstacles of `target` among `others`. */
  function KeptObstacles(target: Component, others: seq<Component>, axis: Axis, overall: Box): seq<Component> {
    PotentialObstacles(Elongated(target.box, overall, axis), others)
  }

  /** Their travel stretches, position by position. */
  function KeptStretches(target: Component, others: seq<Component>, axis: Axis, overall: Box): (r: seq<Interval>)
    ensures |r| == |KeptObstacles(target, others, axis, overall)|
  {
    Stretches(target.box, Elongated(target.box, overall, axis), KeptObstacles(target, others, axis, overall), axis)
  }

  /**
    `__findPotentialObstacles` for a positive direction along `axis`: the
    pieces of the target's travel, in ascending order, each with the labels
    of the potential obstacles it may hit there. `others` stands for the set
    of all other components.
   */
  function FindPotentialObstacles(target: Component, others: seq<Component>, axis: Axis, overall: Box): (r: seq<Pair>)
    ensures Ascending(r)
    ensures forall p :: p in r ==> p.interval.lo < p.interval.hi && |p.obstacles| > 0
    ensures (forall o :: o in others ==> !Kept(target, o, axis, overall)) ==> r == []
  {
    var obstacles := KeptObstacles(target, others, axis, overall);
    if |obstacles| == 0 then []
    else
      var shifted := KeptStretches(target, others, axis, overall);
      var b := Boundaries(shifted);
      var pieces := Pieces(b, obstacles, shifted);
      PiecesAscending(b, obstacles, shifted);
      assert obstacles[0] in others && Kept(target, obstacles[0], axis, overall);
      DropEmpty(pieces)
  }

  /** The pieces between strictly increasing cut points are non-empty and ascending. */
  lemma PiecesAscending(b: seq<real>, obstacles: seq<Component>, shifted: seq<Interval>)
    requires StrictlyIncreasing(b, RealLess) && |shifted| == |obstacles|
    ensures var pieces := Pieces(b, obstacles, shifted);
            Ascending(pieces) && forall p :: p in pieces ==> p.interval.lo < p.interval.hi
  {
    var pieces := Pieces(b, obstacles, shifted);
    forall j, k | 0 <= j < k < |pieces| ensures pieces[j].interval.hi <= pieces[k].interval.lo {
      if j + 1 < k { assert RealLess(b[j + 1], b[k]); }
    }
    forall p | p in pieces ensures p.interval.lo < p.interval.hi {
      var i :| 0 <= i < |pieces| && pieces[i] == p;
      assert RealLess(b[i], b[i + 1]);
    }
  }

  /** The piece of `FindPotentialObstacles`'s result at position `i` of the cut points. */
  predicate IsPieceAt(target: Component, others: seq<Component>, axis: Axis, overall: Box, p: Pair, i: int) {
    var obstacles := KeptObstacles(target, others, axis, overall);
    var shifted := KeptStretches(target, others, axis, overall);
    var b := Boundaries(shifted);
    && 0 <= i < |b| - 1
    && p == Pair(OverlappingObstacles(Interval(b[i], b[i + 1]), obstacles, shifted), Interval(b[i], b[i + 1]))
  }

  /** Every result entry is the piece between two consecutive cut points. */
  lemma PieceAt(target: Component, others: seq<Component>, axis: Axis, overall: Box, p: Pair)
    requires p in FindPotentialObstacles(target, others, axis, overall)
    ensures exists i :: IsPieceAt(target, others, axis, overall, p, i)
  {
    var obstacles := KeptObstacles(target, others, axis, overall);
    var shifted := KeptStretches(target, others, axis, overall);
    var pieces := Pieces(Boundaries(shifted), obstacles, shifted);
    assert p in pieces;
    var i :| 0 <= i < |pieces| && pieces[i] == p;
    assert IsPieceAt(target, others, axis, overall, p, i);
  }

  /** A kept component sits at some position of the potential-obstacle list, with its own stretch. */
  lemma KeptAt(target: Component, others: seq<Component>, axis: Axis, overall: Box, o: Component)
    requires o in others && Kept(target, o, axis, overall)
    ensures exists k :: 0 <= k < |KeptObstacles(target, others, axis, overall)|
                        && KeptObstacles(target, others, axis, overall)[k] == o
                        && KeptStretches(target, others, axis, overall)[k] == Stretch(target, o, axis, overall)
  {
    var obstacles := KeptObstacles(target, others, axis, overall);
    assert o in obstacles;
    var k :| 0 <= k < |obstacles| && obstacles[k] == o;
    assert KeptStretches(target, others, axis, overall)[k] == Stretch(target, o, axis, overall);
  }

  /** Positions in the potential-obstacle list and kept components are the same thing. */
  lemma KeptIndex(target: Component, others: seq<Component>, axis: Axis, overall: Box, piece: Interval, l: Label)
    ensures var obstacles := KeptObstacles(target, others, axis, overall);
            var shifted := KeptStretches(target, others, axis, overall);
            (exists k :: 0 <= k < |obstacles| && obstacles[k].id == l && StrictOverlap(piece, shifted[k]))
            <==> (exists o :: o in others && o.id == l && Kept(target, o, axis, overall)
                              && StrictOverlap(piece, Stretch(target, o, axis, overall)))
  {
    var obstacles := KeptObstacles(target, others, axis, overall);
    var shifted := KeptStretches(target, others, axis, overall);
    forall o | o in others && o.id == l && Kept(target, o, axis, overall) && StrictOverlap(piece, Stretch(target, o, axis, overall))
      ensures exists k :: 0 <= k < |obstacles| && obstacles[k].id == l && StrictOverlap(piece, shifted[k])
    {
      KeptAt(target, others, axis, overall, o);
    }
    forall k | 0 <= k < |obstacles| && obstacles[k].id == l && StrictOverlap(piece, shifted[k])
      ensures exists o :: o in others && o.id == l && Kept(target, o, axis, overall)
                          && StrictOverlap(piece, Stretch(target, o, axis, overall))
    {
      assert obstacles[k] in obstacles;
      assert shifted[k] == Stretch(target, obstacles[k], axis, overall);
    }
  }

  /**
    The obstacles listed for a piece are exactly the labels of the potential
    obstacles whose travel stretch strictly overlaps the piece.
   */
  lemma PieceObstacles(target: Component, others: seq<Component>, axis: Axis, overall: Box, p: Pair, l: Label)
    requires p in FindPotentialObstacles(target, others, axis, overall)
    ensures l in p.obstacles <==>
            exists o :: o in others && o.id == l && Kept(target, o, axis, overall)
                        && StrictOverlap(p.interval, Stretch(target, o, axis, overall))
  {
    PieceAt(target, others, axis, overall, p);
    var i :| IsPieceAt(target, others, axis, overall, p, i);
    KeptIndex(target, others, axis, overall, p.interval, l);
  }

  /** A potential obstacle listed for a piece can be hit anywhere in that piece: its stretch covers the piece. */
  lemma PieceWithinStretch(target: Component, others: seq<Component>, axis: Axis, overall: Box, p: Pair, o: Component)
    requires p in FindPotentialObstacles(target, others, axis, overall)
    requires o in others && Kept(target, o, axis, overall)
    requires StrictOverlap(p.interval, Stretch(target, o, axis, overall))
    ensures var s := Stretch(target, o, axis, overall); s.lo <= p.interval.lo && p.interval.hi <= s.hi
  {
    PieceAt(target, others, axis, overall, p);
    var i :| IsPieceAt(target, others, axis, overall, p, i);
    KeptAt(target, others, axis, overall, o);
    var k :| 0 <= k < |KeptObstacles(target, others, axis, overall)|
             && KeptObstacles(target, others, axis, overall)[k] == o
             && KeptStretches(target, others, axis, overall)[k] == Stretch(target, o, axis, overall);
    PieceInsideStretch(KeptStretches(target, others, axis, overall), i, k);
  }

  /** Between two cut points `b[j] <= x <= b[m]` there is a piece holding `x`. */
  lemma {:induction false} FindSlot(b: seq<real>, j: int, m: int, x: real) returns (i: int)
    requires StrictlyIncreasing(b, RealLess)
    requires 0 <= j < m < |b| && b[j] <= x <= b[m]
    ensures j <= i < m && b[i] <= x <= b[i + 1]
    decreases m - j
  {
    if x > b[j + 1] {
      i := FindSlot(b, j + 1, m, x);
    } else {
      i := j;
    }
  }

  /** The position of a cut point. */
  lemma CutIndex(b: seq<real>, v: real) returns (j: int)
    requires v in b
    ensures 0 <= j < |b| && b[j] == v
  {
    j :| 0 <= j < |b| && b[j] == v;
  }

  /** A point of a non-empty interval between two cut points lies in a piece overlapping that interval. */
  lemma CoveringPiece(b: seq<real>, s: Interval, x: real) returns (i: int)
    requires StrictlyIncreasing(b, RealLess)
    requires s.lo in b && s.hi in b && s.lo < s.hi && s.lo <= x <= s.hi
    ensures 0 <= i < |b| - 1 && b[i] <= x <= b[i + 1] && StrictOverlap(Interval(b[i], b[i + 1]), s)
  {
    var j := CutIndex(b, s.lo);
    var m := CutIndex(b, s.hi);
    i := FindSlot(b, j, m, x);
    if j < i { assert RealLess(b[j], b[i]); }
    if i + 1 < m { assert RealLess(b[i + 1], b[m]); }
    assert RealLess(b[i], b[i + 1]);
  }

  /** The piece at position `i` is kept and lists every obstacle whose stretch overlaps it. */
  lemma PieceListed(b: seq<real>, obstacles: seq<Component>, shifted: seq<Interval>, i: int, k: int)
    requires |shifted| == |obstacles| && 0 <= k < |obstacles| && 0 <= i < |b| - 1
    requires StrictOverlap(Interval(b[i], b[i + 1]), shifted[k])
    ensures var piece := Interval(b[i], b[i + 1]);
            var p := Pair(OverlappingObstacles(piece, obstacles, shifted), piece);
            p in DropEmpty(Pieces(b, obstacles, shifted)) && obstacles[k].id in p.obstacles
  {
    var piece := Interval(b[i], b[i + 1]);
    var p := Pair(OverlappingObstacles(piece, obstacles, shifted), piece);
    assert obstacles[k].id in p.obstacles;
    assert Pieces(b, obstacles, shifted)[i] == p;
  }

  /** Every point of a listed obstacle's non-empty stretch lies in a kept piece that lists it. */
  lemma ListedInPiece(b: seq<real>, obstacles: seq<Component>, shifted: seq<Interval>, k: int, x: real)
    requires StrictlyIncreasing(b, RealLess)
    requires |shifted| == |obstacles| && 0 <= k < |obstacles|
    requires shifted[k].lo in b && shifted[k].hi in b && shifted[k].lo < shifted[k].hi
    requires shifted[k].lo <= x <= shifted[k].hi
    ensures exists p :: p in DropEmpty(Pieces(b, obstacles, shifted))
                        && p.interval.lo <= x <= p.interval.hi && obstacles[k].id in p.obstacles
  {
    var i := CoveringPiece(b, shifted[k], x);
    PieceListed(b, obstacles, shifted, i, k);
    var piece := Interval(b[i], b[i + 1]);
    var p := Pair(OverlappingObstacles(piece, obstacles, shifted), piece);
    assert p.interval.lo <= x <= p.interval.hi;
  }

  /**
    Nothing is lost by the cut: every point of a potential obstacle's stretch
    lies in a result piece that lists the obstacle.
   */
  lemma StretchCovered(target: Component, others: seq<Component>, axis: Axis, overall: Box, o: Component, x: real)
    requires ValidBox(target.box)
    requires o in others && Kept(target, o, axis, overall)
    requires var s := Stretch(target, o, axis, overall); s.lo <= x <= s.hi
    ensures exists p :: p in FindPotentialObstacles(target, others, axis, overall)
                        && p.interval.lo <= x <= p.interval.hi && o.id in p.obstacles
  {
    var obstacles := KeptObstacles(target, others, axis, overall);
    var shifted := KeptStretches(target, others, axis, overall);
    var b := Boundaries(shifted);
    KeptAt(target, others, axis, overall, o);
    var k :| 0 <= k < |obstacles| && obstacles[k] == o && shifted[k] == Stretch(target, o, axis, overall);
    ShiftedIntervalBounds(target.box, overall, o.box, axis);
    assert shifted[k].lo in b && shifted[k].hi in b;
    ListedInPiece(b, obstacles, shifted, k, x);
  }

  /** A target has no result pieces exactly when no other component is a potential obstacle. */
  lemma NoPiecesIffNoObstacle(target: Component, others: seq<Component>, axis: Axis, overall: Box)
    requires ValidBox(target.box)
    ensures FindPotentialObstacles(target, others, axis, overall) == [] <==>
            forall o :: o in others ==> !Kept(target, o, axis, overall)
  {
    if o :| o in others && Kept(target, o, axis, overall) {
      ShiftedIntervalBounds(target.box, overall, o.box, axis);
      StretchCovered(target, others, axis, overall, o, Stretch(target, o, axis, overall).lo);
    }
  }

  /** What `sorted` orders a potential obstacle by: its overlap with the swept box, on the motion axis. */
  function OverlapOn(target: Component, o: Component, axis: Axis, overall: Box): (r: Interval)
    ensures Kept(target, o, axis, overall) ==> r.lo < r.hi && Stretch(target, o, axis, overall).hi == r.hi
  {
    var overlap := Intersected(Elongated(target.box, overall, axis), o.box);
    assert Kept(target, o, axis, overall) ==> overlap.Length(axis) > GrazingTolerance;
    Interval(overlap.Min(axis), overlap.Max(axis))
  }

  /**
    Two potential obstacles, at different positions of `others`, share their
    overlap on the motion axis. Sorting the `(overlap, component)` pairs
    then compares the two components themselves, which have no order.
   */
  predicate TiedOverlaps(target: Component, others: seq<Component>, axis: Axis, overall: Box) {
    exists i, j :: 0 <= i < j < |others| && Kept(target, others[i], axis, overall) && Kept(target, others[j], axis, overall)
                   && OverlapOn(target, others[i], axis, overall) == OverlapOn(target, others[j], axis, overall)
  }

  /**
    `__findPotentialObstacles` as written: `sorted(zip(intersections,
    potentialObstacles))` raises `TypeError` on tied overlaps; otherwise the
    pieces are those of the intended search.
   */
  function FindPotentialObstaclesAsWritten(target: Component, others: seq<Component>, axis: Axis, overall: Box)
    : (r: Result<seq<Pair>, string>)
    ensures r.Failure? <==> TiedOverlaps(target, others, axis, overall)
    ensures r.Failure? ==> |others| >= 2
    ensures r.Success? ==> r.value == FindPotentialObstacles(target, others, axis, overall)
  {
    if TiedOverlaps(target, others, axis, overall) then Failure("TypeError: '<' not supported between two components")
    else Success(FindPotentialObstacles(target, others, axis, overall))
  }

  /** Two equal parts side by side in front of a target, all moved along `X`. */
  const TieTarget := Component("A", Box(0.0, 0.0, 0.0, 1.0, 2.0, 1.0))
  const TieLeft := Component("B", Box(2.0, 0.0, 0.0, 3.0, 1.0, 1.0))
  const TieRight := Component("C", Box(2.0, 1.0, 0.0, 3.0, 2.0, 1.0))
  const TieOverall := Box(0.0, 0.0, 0.0, 3.0, 2.0, 1.0)

  /** A box inside another is its own intersection with it. */
  lemma IntersectedInside(b: Box, c: Box)
    requires b.Contains(c) && ValidBox(c)
    ensures Intersected(b, c) == c
  {
    var r := Intersected(b, c);
    assert r.Min(X) == c.Min(X) && r.Min(Y) == c.Min(Y) && r.Min(Z) == c.Min(Z);
    assert r.Max(X) == c.Max(X) && r.Max(Y) == c.Max(Y) && r.Max(Z) == c.Max(Z);
  }

  /** Swept along `X`, the target covers the whole assembly. */
  lemma TieSwept()
    ensures Elongated(TieTarget.box, TieOverall, X) == TieOverall
  {
    var e := Elongated(TieTarget.box, TieOverall, X);
    assert e.Min(X) == 0.0 && e.Min(Y) == 0.0 && e.Min(Z) == 0.0;
    assert e.Max(X) == 3.0 && e.Max(Y) == 2.0 && e.Max(Z) == 1.0;
  }

  /**
    Both parts side by side are potential obstacles with the same overlap,
    `[2, 3]`, so `TiedObstaclesRaise` applies to them (with `TieTargetValid`).
   */
  lemma SideBySideTied(o: Component)
    requires o == TieLeft || o == TieRight
    ensures Kept(TieTarget, o, X, TieOverall)
    ensures OverlapOn(TieTarget, o, X, TieOverall) == Interval(2.0, 3.0)
    ensures Stretch(TieTarget, o, X, TieOverall) == Interval(1.0, 3.0)
  {
    TieSwept();
    IntersectedInside(TieOverall, o.box);
    assert forall a: Axis :: o.box.Length(a) == 1.0;
  }

  /** The target's box is a proper box. */
  lemma TieTargetValid()
    ensures ValidBox(TieTarget.box)
  {
    var box := TieTarget.box;
    assert box.Min(X) <= box.Max(X) && box.Min(Y) <= box.Max(Y) && box.Min(Z) <= box.Max(Z);
  }

  /**
    Whenever two potential obstacles tie, the search as written raises,
    while the intended one lists both in the same piece.
   */
  lemma TiedObstaclesRaise(target: Component, others: seq<Component>, axis: Axis, overall: Box, i: int, j: int)
    requires ValidBox(target.box)
    requires 0 <= i < j < |others| && Kept(target, others[i], axis, overall) && Kept(target, others[j], axis, overall)
    requires OverlapOn(target, others[i], axis, overall) == OverlapOn(target, others[j], axis, overall)
    ensures FindPotentialObstaclesAsWritten(target, others, axis, overall).Failure?
    ensures exists p :: p in FindPotentialObstacles(target, others, axis, overall)
                        && others[i].id in p.obstacles && others[j].id in p.obstacles
  {
    var s := Stretch(target, others[i], axis, overall);
    ShiftedIntervalBounds(target.box, overall, others[i].box, axis);
    assert Stretch(target, others[j], axis, overall) == s;
    var x := (s.lo + s.hi) / 2.0;
    StretchCovered(target, others, axis, overall, others[i], x);
    var p :| p in FindPotentialObstacles(target, others, axis, overall) && p.interval.lo <= x <= p.interval.hi && others[i].id in p.obstacles;
    assert StrictOverlap(p.interval, Stretch(target, others[j], axis, overall));
    PieceObstacles(target, others, axis, overall, p, others[j].id);
  }

  /** The labels of the given components, in order. */
  function Ids(cs: seq<Component>): (r: seq<Label>)
    ensures |r| == |cs|
    ensures forall i :: 0 <= i < |cs| ==> r[i] == cs[i].id
  {
    seq(|cs|, i requires 0 <= i < |cs| => cs[i].id)
  }

  /** The components of `table` other than `target`, in table order. */
  function Others(table: seq<Component>, target: Component): (r: seq<Component>)
    ensures forall c :: c in r <==> c in table && c.id != target.id
  {
    if |table| == 0 then []
    else
      var rest := Others(table[1..], target);
      assert forall c :: c in table <==> c == table[0] || c in table[1..] by {
        assert table == [table[0]] + table[1..];
      }
      if table[0].id != target.id then [table[0]] + rest else rest
  }

  /**
    The `None_` method as written: the list of all other components is zipped
    with a one-element list of intervals, so only the first other component
    is paired with the target's whole travel.
   */
  function WholeTravelAsWritten(target: Component, others: seq<Component>, axis: Axis, overall: Box): (r: seq<Pair>)
    ensures |r| <= 1
    ensures forall p :: p in r ==> |others| > 0 && p.obstacles == [others[0].id]
  {
    var intervals := [Interval(target.box.Min(axis), overall.Max(axis))];
    if |others| == 0 then [] else [Pair([others[0].id], intervals[0])]
  }

  /** With two other components, the as-written `None_` result never mentions the second. */
  lemma WholeTravelDropsObstacles()
    ensures var cube := Box(0.0, 0.0, 0.0, 1.0, 1.0, 1.0);
            var r := WholeTravelAsWritten(Component("A", cube), [Component("B", cube), Component("C", cube)], X, cube);
            |r| == 1 && "C" !in r[0].obstacles
  {
  }

  /**
    The `None_` method as intended: every other component is a potential
    obstacle over the target's whole travel, from its start to the far side
    of the assembly.
   */
  function WholeTravel(target: Component, others: seq<Component>, axis: Axis, overall: Box): (r: seq<Pair>)
    ensures |r| == if |others| == 0 then 0 else 1
    ensures forall p :: p in r ==> p.interval == Interval(target.box.Min(axis), overall.Max(axis))
    ensures forall p, l :: p in r ==> (l in p.obstacles <==> exists o :: o in others && o.id == l)
  {
    if |others| == 0 then []
    else
      var ids := Ids(others);
      assert forall l :: l in ids <==> exists o :: o in others && o.id == l by {
        forall l | l in ids ensures exists o :: o in others && o.id == l {
          var i :| 0 <= i < |ids| && ids[i] == l;
          assert others[i] in others;
        }
        forall o | o in others ensures o.id in ids {
          var i :| 0 <= i < |others| && others[i] == o;
          assert ids[i] == o.id;
        }
      }
      [Pair(ids, Interval(target.box.Min(axis), overall.Max(axis)))]
  }

  /** The pieces a refinement method reports for one target. */
  function Entry(refinement: Multiproc.RefinementMethod, target: Component, others: seq<Component>, axis: Axis, overall: Box): seq<Pair> {
    match refinement
    case NoRefinement => WholeTravel(target, others, axis, overall)
    case BoundBox => FindPotentialObstacles(target, others, axis, overall)
  }

  /**
    The pieces a refinement method reports for one target, as written: the
    `None_` entry keeps only the first other component. Bounding-box
    entries are those of the intended search; ties are handled by
    `RefineAsWritten`.
   */
  function EntryAsWritten(refinement: Multiproc.RefinementMethod, target: Component, others: seq<Component>, axis: Axis, overall: Box): seq<Pair> {
    match refinement
    case NoRefinement => WholeTravelAsWritten(target, others, axis, overall)
    case BoundBox => FindPotentialObstacles(target, others, axis, overall)
  }

  /** The entry as written is the intended one exactly for bounding boxes, or when at most one other component exists. */
  lemma EntryAsWrittenAgrees(refinement: Multiproc.RefinementMethod, target: Component, others: seq<Component>, axis: Axis, overall: Box)
    ensures EntryAsWritten(refinement, target, others, axis, overall) == Entry(refinement, target, others, axis, overall)
            <==> refinement.BoundBox? || |others| <= 1
  {
    if refinement.NoRefinement? && |others| > 0 {
      var ids := Ids(others);
      assert WholeTravel(target, others, axis, overall)[0].obstacles == ids;
      if |others| == 1 {
        assert ids == [others[0].id];
      } else {
        assert |ids| != |[others[0].id]|;
      }
    }
  }

  /** Whichever the method, a target's pieces only list other components. */
  lemma EntryListsOnlyOthers(refinement: Multiproc.RefinementMethod, table: seq<Component>, target: Component,
                             axis: Axis, overall: Box, p: Pair, l: Label)
    requires p in Entry(refinement, target, Others(table, target), axis, overall)
    requires l in p.obstacles
    ensures l != target.id && exists o :: o in table && o.id == l
  {
    if refinement.BoundBox? {
      PieceObstacles(target, Others(table, target), axis, overall, p, l);
    }
  }

  /** `OCCTSolver`: the component dictionary, the directions to solve, and the running flag. */
  datatype Solver = Solver(table: seq<Component>, directions: set<Cartesian>, running: bool) {
    /** The dictionary has one entry per label, and only positive directions are solved. */
    predicate Valid() {
      && (forall i, j :: 0 <= i < j < |table| ==> table[i].id != table[j].id)
      && (forall d :: d in directions ==> d.positive)
    }
  }

  /** `OCCTSolver.__init__`: running, with the component dictionary and the absolute requested directions. */
  function NewSolver(components: seq<Component>, requested: set<Cartesian>): (s: Solver)
    ensures s.Valid() && s.running
    ensures LabelSet(s.table) == LabelSet(components)
    ensures forall c :: c in s.table ==> c == LastWithLabel(components, c.id)
    ensures forall d :: d in s.directions <==> d.positive && exists e :: e in requested && e.axis == d.axis
  {
    Solver(ComponentTable(components), NonRedundantDirections(requested), true)
  }

  /** `setComponents`: replaces the dictionary and keeps the rest. */
  function SetComponents(s: Solver, components: seq<Component>): (r: Solver)
    requires s.Valid()
    ensures r.Valid()
    ensures LabelSet(r.table) == LabelSet(components)
    ensures forall c :: c in r.table ==> c == LastWithLabel(components, c.id)
    ensures r.directions == s.directions && r.running == s.running
  {
    s.(table := ComponentTable(components))
  }

  function BoxesOf(cs: seq<Component>): (r: seq<Box>)
    ensures |r| == |cs| && forall i :: 0 <= i < |cs| ==> r[i] == cs[i].box
  {
    seq(|cs|, i requires 0 <= i < |cs| => cs[i].box)
  }

  /** The component of the dictionary with label `l`. */
  function Lookup(table: seq<Component>, l: Label): (c: Component)
    requires l in LabelSet(table)
    ensures c in table && c.id == l
  {
    LastWithLabel(table, l)
  }

  /** One direction's dictionary `{target.Label: pairs}`. */
  function TargetEntries(table: seq<Component>, refinement: Multiproc.RefinementMethod, axis: Axis, overall: Box)
    : (r: map<Label, seq<Pair>>)
    ensures r.Keys == LabelSet(table)
  {
    map l | l in LabelSet(table) :: l := Entry(refinement, Lookup(table, l), Others(table, Lookup(table, l)), axis, overall)
  }

  /**
    `refine` as intended: `{}` once stopped; otherwise, for every solved
    direction, a dictionary with an entry for every component label, where
    `None_` pairs every other component with the whole travel and the
    bounding-box search does not trip over ties (see `RefineAsWritten`). The source keys
    the outer dictionary by the direction's name, which identifies the
    direction (`Directions.NameInjective`); here it is keyed by the direction.
   */
  function Refine(s: Solver, refinement: Multiproc.RefinementMethod): (r: map<Cartesian, map<Label, seq<Pair>>>)
    ensures !s.running ==> r == map[]
    ensures s.running ==> r.Keys == s.directions
    ensures s.running ==> forall d :: d in s.directions ==> r[d].Keys == LabelSet(s.table)
  {
    if !s.running then map[]
    else
      match OverallBox(BoxesOf(s.table))
      case None => map d | d in s.directions :: map[]
      case Some(overall) => map d | d in s.directions :: TargetEntries(s.table, refinement, d.axis, overall)
  }

  /** One direction's dictionary as written. */
  function TargetEntriesAsWritten(table: seq<Component>, refinement: Multiproc.RefinementMethod, axis: Axis, overall: Box)
    : (r: map<Label, seq<Pair>>)
    ensures r.Keys == LabelSet(table)
  {
    map l | l in LabelSet(table) :: l := EntryAsWritten(refinement, Lookup(table, l), Others(table, Lookup(table, l)), axis, overall)
  }

  /** With bounding-box refinement, some component has tied potential obstacles in some solved direction. */
  predicate RefineRaises(s: Solver, refinement: Multiproc.RefinementMethod) {
    && s.running && refinement.BoundBox? && |s.table| > 0
    && exists d, l :: d in s.directions && l in LabelSet(s.table)
         && TiedOverlaps(Lookup(s.table, l), Others(s.table, Lookup(s.table, l)), d.axis, OverallBox(BoxesOf(s.table)).value)
  }

  /**
    `refine` as written: `{}` once stopped; `TypeError` when a bounding-box
    search meets tied overlaps; otherwise one dictionary per solved
    direction, whose `None_` entries keep only the first other component.
   */
  function RefineAsWritten(s: Solver, refinement: Multiproc.RefinementMethod): (r: Result<map<Cartesian, map<Label, seq<Pair>>>, string>)
    ensures r.Failure? <==> RefineRaises(s, refinement)
    ensures r.Success? && !s.running ==> r.value == map[]
    ensures r.Success? && s.running ==> r.value.Keys == s.directions
    ensures r.Success? && s.running ==> forall d :: d in s.directions ==> r.value[d].Keys == LabelSet(s.table)
  {
    if !s.running then Success(map[])
    else
      match OverallBox(BoxesOf(s.table))
      case None => Success(map d | d in s.directions :: map[])
      case Some(overall) =>
        if RefineRaises(s, refinement) then Failure("TypeError: '<' not supported between two components")
        else Success(map d | d in s.directions :: TargetEntriesAsWritten(s.table, refinement, d.axis, overall))
  }

  /**
    Where `refine` as written returns, a component's entry is the intended
    one exactly for bounding-box refinement, or when there is at most one
    other component.
   */
  lemma RefineAsWrittenAgrees(s: Solver, refinement: Multiproc.RefinementMethod, d: Cartesian, c: Component)
    requires s.running && s.Valid() && d in s.directions && c in s.table
    requires RefineAsWritten(s, refinement).Success?
    ensures RefineAsWritten(s, refinement).value[d][c.id] == Refine(s, refinement)[d][c.id]
            <==> refinement.BoundBox? || |Others(s.table, c)| <= 1
  {
    RefineAt(s, refinement, d);
    LookupDistinct(s.table, c);
    var overall := OverallBox(BoxesOf(s.table)).value;
    assert RefineAsWritten(s, refinement).value[d][c.id] == EntryAsWritten(refinement, c, Others(s.table, c), d.axis, overall);
    assert Refine(s, refinement)[d][c.id] == Entry(refinement, c, Others(s.table, c), d.axis, overall);
    EntryAsWrittenAgrees(refinement, c, Others(s.table, c), d.axis, overall);
  }

  /** `stop`: clears the running flag, after which `refine` reports nothing. */
  function Stop(s: Solver): (r: Solver)
    ensures !r.running && r.table == s.table && r.directions == s.directions
    ensures forall m :: Refine(r, m) == map[] && RefineAsWritten(r, m) == Success(map[])
  {
    s.(running := false)
  }

  /** For a running solver with components, one direction's dictionary. */
  lemma RefineAt(s: Solver, refinement: Multiproc.RefinementMethod, d: Cartesian)
    requires s.running && d in s.directions && |s.table| > 0
    ensures OverallBox(BoxesOf(s.table)).Some?
    ensures Refine(s, refinement)[d] == TargetEntries(s.table, refinement, d.axis, OverallBox(BoxesOf(s.table)).value)
  {
    assert BoxesOf(s.table)[0] == s.table[0].box;
  }

  /** No target is ever listed among its own potential obstacles, and only components are listed. */
  lemma RefineNeverListsTarget(s: Solver, refinement: Multiproc.RefinementMethod, d: Cartesian, c: Component, p: Pair, l: Label)
    requires s.running && d in s.directions && c in s.table
    requires p in Refine(s, refinement)[d][c.id] && l in p.obstacles
    ensures l != c.id && l in LabelSet(s.table)
  {
    RefineAt(s, refinement, d);
    var overall := OverallBox(BoxesOf(s.table)).value;
    var target := Lookup(s.table, c.id);
    assert c.id in LabelSet(s.table);
    assert Refine(s, refinement)[d][c.id] == Entry(refinement, target, Others(s.table, target), d.axis, overall);
    EntryListsOnlyOthers(refinement, s.table, target, d.axis, overall, p, l);
  }

  /**
    With bounding-box refinement, the obstacles listed for a piece of a
    component's travel are exactly the other components it may hit there.
   */
  lemma RefineBoundBoxObstacles(s: Solver, d: Cartesian, c: Component, p: Pair, l: Label)
    requires s.running && s.Valid() && d in s.directions && c in s.table
    requires p in Refine(s, Multiproc.BoundBox)[d][c.id]
    ensures var overall := OverallBox(BoxesOf(s.table)).value;
            l in p.obstacles <==>
            exists o :: o in s.table && o.id == l && l != c.id && Kept(c, o, d.axis, overall)
                        && StrictOverlap(p.interval, Stretch(c, o, d.axis, overall))
  {
    RefineAt(s, Multiproc.BoundBox, d);
    var overall := OverallBox(BoxesOf(s.table)).value;
    LookupDistinct(s.table, c);
    assert c.id in LabelSet(s.table);
    assert p in FindPotentialObstacles(c, Others(s.table, c), d.axis, overall);
    PieceObstacles(c, Others(s.table, c), d.axis, overall, p, l);
  }

  /** In a dictionary with one entry per label, looking a component's label up finds that component. */
  lemma LookupDistinct(table: seq<Component>, c: Component)
    requires forall i, j :: 0 <= i < j < |table| ==> table[i].id != table[j].id
    requires c in table
    ensures c.id in LabelSet(table) && Lookup(table, c.id) == c
  {
    var i :| 0 <= i < |table| && table[i] == c;
    var j :| 0 <= j < |table| && table[j] == Lookup(table, c.id);
    if i < j { assert table[i].id != table[j].id; }
    if j < i { assert table[j].id != table[i].id; }
  }
}
