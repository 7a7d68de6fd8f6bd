/**
  The workbench's virtual-motion obstruction detector.

  Each target is moved through the pieces of its travel found by the
  bounding-box refinement. In a piece `[lo, hi]` the target starts with its
  box at `lo` and advances by `max((hi - lo) / 10, min_step_size)`; after
  every step the candidates of the piece that do not collide yet are tested,
  and those that collide are recorded. The piece ends once the target's box
  start has reached `hi`, or earlier when every candidate of the piece
  already collides. The target is then put back where it was.

  The geometric test (bounding boxes, shape distance and point
  classification) is the oracle `collides(target, obstacle, axis, position)`,
  where `position` is where the target's box starts on `axis`.
 */
module VirtualMotion {
  import opened Wrappers
  import opened Labels
  import opened Directions
  import opened Boxes
  import opened Refinement
  import opened Graphs

  /** The collision oracle: does `target`, with its box starting at `position` on `axis`, collide with `obstacle`? */
  type Collides = (Label, Label, Axis, real) -> bool

  /** `max((interval[1] - interval[0]) / 10, min_step_size)` */
  function StepSize(i: Interval, minStep: real): (step: real)
    ensures step >= minStep && step >= (i.hi - i.lo) / 10.0
    ensures step == minStep || step == (i.hi - i.lo) / 10.0
  {
    RealMax((i.hi - i.lo) / 10.0, minStep)
  }

  /** Where the target's box starts after `k` steps into the piece. */
  function Position(i: Interval, step: real, k: int): real {
    i.lo + (k as real) * step
  }

  /** Each step moves the position by exactly `step`. */
  lemma PositionNext(i: Interval, step: real, k: int)
    ensures Position(i, step, k + 1) == Position(i, step, k) + step
  {
    assert (k + 1) as real == (k as real) + 1.0;
    assert ((k as real) + 1.0) * step == (k as real) * step + step;
  }

  /** With a positive step, later steps are further along. */
  lemma PositionMonotone(i: Interval, step: real, j: int, k: int)
    requires step > 0.0
    ensures Position(i, step, j) < Position(i, step, k) <==> j < k
  {
    if j < k {
      assert (k as real) * step - (j as real) * step == ((k - j) as real) * step;
    } else if k < j {
      assert (j as real) * step - (k as real) * step == ((j - k) as real) * step;
    }
  }

  /** A piece is walked in at most ten steps. */
  lemma AtMostTenSteps(i: Interval, minStep: real, k: int)
    requires i.lo < i.hi && 0 <= k
    requires Position(i, StepSize(i, minStep), k) < i.hi
    ensures k < 10
  {
    var step := StepSize(i, minStep);
    if k >= 10 {
      PositionMonotone(i, step, 10, k);
    }
  }

  /**
    `c` collides with `target` somewhere in piece `p`: it is a candidate of
    the piece, and the oracle reports a collision after some step taken
    while the target had not yet reached the piece's end.
   */
  ghost predicate HitIn(target: Label, axis: Axis, p: Pair, minStep: real, collides: Collides, c: Label) {
    var step := StepSize(p.interval, minStep);
    && c in p.obstacles
    && p.interval.lo < p.interval.hi
    && exists k :: 1 <= k && Position(p.interval, step, k - 1) < p.interval.hi
                   && collides(target, c, axis, Position(p.interval, step, k))
  }

  /** `c` collides with `target` in one of the pieces. */
  ghost predicate Obstructs(target: Label, axis: Axis, pieces: seq<Pair>, minStep: real, collides: Collides, c: Label) {
    exists i :: 0 <= i < |pieces| && HitIn(target, axis, pieces[i], minStep, collides, c)
  }

  /** `c` collides within the first `k` steps of piece `p`. */
  ghost predicate HitWithin(target: Label, axis: Axis, p: Pair, step: real, k: int, collides: Collides, c: Label) {
    && c in p.obstacles
    && exists j :: 1 <= j <= k && collides(target, c, axis, Position(p.interval, step, j))
  }

  predicate NoDuplicates(s: seq<Label>) {
    forall i, j :: 0 <= i < j < |s| ==> s[i] != s[j]
  }

  /** `[obst for obst in candidates if obst not in colliding]` */
  function NotIn(candidates: seq<Label>, colliding: seq<Label>): (r: seq<Label>)
    ensures forall c :: c in r <==> c in candidates && c !in colliding
    ensures NoDuplicates(candidates) ==> NoDuplicates(r)
  {
    if |candidates| == 0 then []
    else
      var rest := NotIn(candidates[1..], colliding);
      assert forall c :: c in candidates <==> c == candidates[0] || c in candidates[1..] by {
        assert candidates == [candidates[0]] + candidates[1..];
      }
      if candidates[0] !in colliding then [candidates[0]] + rest else rest
  }

  /** The obstacles the oracle reports as colliding at `position`, in order. */
  function Hits(target: Label, axis: Axis, obstacles: seq<Label>, collides: Collides, position: real): (r: seq<Label>)
    ensures forall c :: c in r <==> c in obstacles && collides(target, c, axis, position)
    ensures NoDuplicates(obstacles) ==> NoDuplicates(r)
  {
    if |obstacles| == 0 then []
    else
      var rest := Hits(target, axis, obstacles[1..], collides, position);
      assert forall c :: c in obstacles <==> c == obstacles[0] || c in obstacles[1..] by {
        assert obstacles == [obstacles[0]] + obstacles[1..];
      }
      if collides(target, obstacles[0], axis, position) then [obstacles[0]] + rest else rest
  }

  /** `detect_collisions`: appends the colliding obstacles to the collisions found so far. */
  function DetectCollisions(target: Label, axis: Axis, obstacles: seq<Label>, colliding: seq<Label>,
                            collides: Collides, position: real): (r: seq<Label>)
    ensures forall c :: c in r <==> c in colliding || (c in obstacles && collides(target, c, axis, position))
    ensures |colliding| <= |r| && r[..|colliding|] == colliding
    ensures NoDuplicates(colliding) && NoDuplicates(obstacles) && (forall c :: c in obstacles ==> c !in colliding)
            ==> NoDuplicates(r)
  {
    var hits := Hits(target, axis, obstacles, collides, position);
    var r := colliding + hits;
    assert r[..|colliding|] == colliding;
    assert NoDuplicates(colliding) && NoDuplicates(obstacles) && (forall c :: c in obstacles ==> c !in colliding)
           ==> NoDuplicates(r) by {
      if NoDuplicates(colliding) && NoDuplicates(obstacles) && (forall c :: c in obstacles ==> c !in colliding) {
        forall i, j | 0 <= i < j < |r| ensures r[i] != r[j] {
          if i < |colliding| && j >= |colliding| {
            assert r[j] in hits;
          } else if i >= |colliding| {
            assert r[i] == hits[i - |colliding|] && r[j] == hits[j - |colliding|];
          }
        }
      }
    }
    r
  }

  /** One more step adds the candidates hit at the new position. */
  lemma HitWithinStep(target: Label, axis: Axis, p: Pair, step: real, k: int, collides: Collides, c: Label)
    requires 0 <= k
    ensures HitWithin(target, axis, p, step, k + 1, collides, c) <==>
              HitWithin(target, axis, p, step, k, collides, c)
              || (c in p.obstacles && collides(target, c, axis, Position(p.interval, step, k + 1)))
  {
  }

  lemma PrefixOfPrefix(a: seq<Label>, b: seq<Label>, c: seq<Label>)
    requires |a| <= |b| <= |c| && b[..|a|] == a && c[..|b|] == b
    ensures c[..|a|] == a
  {
    assert c[..|a|] == c[..|b|][..|a|];
  }

  /** Every candidate of the piece is already colliding (the `sum(...) == len(...)` test). */
  predicate AllColliding(candidates: seq<Label>, colliding: seq<Label>) {
    forall c :: c in candidates ==> c in colliding
  }

  /** One piece's walk ends: what was found so far is exactly what the whole piece finds. */
  lemma PieceDone(target: Label, axis: Axis, p: Pair, minStep: real, collides: Collides, k: int,
                  colliding: seq<Label>, c: Label)
    requires 0 <= k && (k > 0 ==> p.interval.lo < p.interval.hi)
    requires k > 0 ==> Position(p.interval, StepSize(p.interval, minStep), k - 1) < p.interval.hi
    requires AllColliding(p.obstacles, colliding) || Position(p.interval, StepSize(p.interval, minStep), k) >= p.interval.hi
    ensures HitWithin(target, axis, p, StepSize(p.interval, minStep), k, collides, c) ==> HitIn(target, axis, p, minStep, collides, c)
    ensures HitIn(target, axis, p, minStep, collides, c) ==>
              HitWithin(target, axis, p, StepSize(p.interval, minStep), k, collides, c) || c in colliding
  {
    var step := StepSize(p.interval, minStep);
    if HitWithin(target, axis, p, step, k, collides, c) {
      var j :| 1 <= j <= k && collides(target, c, axis, Position(p.interval, step, j));
      EarlierStepInside(p.interval, step, j, k);
    }
    if HitIn(target, axis, p, minStep, collides, c) && !AllColliding(p.obstacles, colliding) {
      var j := HitStep(target, axis, p, minStep, collides, c);
      StepBeforeEnd(p.interval, step, j, k);
    }
  }

  /** A step at which a candidate of the piece is hit. */
  lemma HitStep(target: Label, axis: Axis, p: Pair, minStep: real, collides: Collides, c: Label) returns (j: int)
    requires HitIn(target, axis, p, minStep, collides, c)
    ensures var step := StepSize(p.interval, minStep);
            1 <= j && Position(p.interval, step, j - 1) < p.interval.hi && collides(target, c, axis, Position(p.interval, step, j))
  {
    var step := StepSize(p.interval, minStep);
    j :| 1 <= j && Position(p.interval, step, j - 1) < p.interval.hi && collides(target, c, axis, Position(p.interval, step, j));
  }

  /** A step no later than the last one taken was taken inside the interval. */
  lemma EarlierStepInside(i: Interval, step: real, j: int, k: int)
    requires i.lo < i.hi && step >= (i.hi - i.lo) / 10.0
    requires 1 <= j <= k && Position(i, step, k - 1) < i.hi
    ensures Position(i, step, j - 1) < i.hi
  {
    if j < k {
      PositionMonotone(i, step, j - 1, k - 1);
    }
  }

  /** A step taken inside the interval comes before the one that reached its end. */
  lemma StepBeforeEnd(i: Interval, step: real, j: int, k: int)
    requires i.lo < i.hi && step >= (i.hi - i.lo) / 10.0
    requires Position(i, step, j - 1) < i.hi <= Position(i, step, k)
    ensures j <= k
  {
    PositionMonotone(i, step, j - 1, k);
  }

  /** One step of the walk adds exactly the candidates hit at the new position, without duplicating any. */
  lemma StepFindsHits(target: Label, axis: Axis, p: Pair, step: real, k: int, collides: Collides,
                      found: seq<Label>, before: seq<Label>, position: real, after: seq<Label>)
    requires 0 <= k && position == Position(p.interval, step, k + 1)
    requires forall c :: c in before <==> c in found || HitWithin(target, axis, p, step, k, collides, c)
    requires after == DetectCollisions(target, axis, NotIn(p.obstacles, before), before, collides, position)
    ensures forall c :: c in after <==> c in found || HitWithin(target, axis, p, step, k + 1, collides, c)
    ensures NoDuplicates(before) && NoDuplicates(p.obstacles) ==> NoDuplicates(after)
    ensures |before| <= |after| && after[..|before|] == before
  {
    forall c ensures c in after <==> c in found || HitWithin(target, axis, p, step, k + 1, collides, c) {
      HitWithinStep(target, axis, p, step, k, collides, c);
    }
  }

  /** One step of the walk: move by `step`, then test the candidates not yet colliding. */
  method WalkStep(target: Label, axis: Axis, p: Pair, step: real, ghost k: int, collides: Collides,
                  found: seq<Label>, before: seq<Label>, start: real, diff: real)
    returns (after: seq<Label>, placement: real)
    requires 0 <= k && start - diff == Position(p.interval, step, k)
    requires forall c :: c in before <==> c in found || HitWithin(target, axis, p, step, k, collides, c)
    requires |found| <= |before| && before[..|found|] == found
    ensures placement - diff == Position(p.interval, step, k + 1)
    ensures forall c :: c in after <==> c in found || HitWithin(target, axis, p, step, k + 1, collides, c)
    ensures NoDuplicates(before) && NoDuplicates(p.obstacles) ==> NoDuplicates(after)
    ensures |found| <= |after| && after[..|found|] == found
  {
    placement := start + step;
    PositionNext(p.interval, step, k);
    var obstacles := NotIn(p.obstacles, before);
    after := DetectCollisions(target, axis, obstacles, before, collides, placement - diff);
    StepFindsHits(target, axis, p, step, k, collides, found, before, placement - diff, after);
    PrefixOfPrefix(found, before, after);
  }

  /**
    The walk through one piece: starting from the collisions found so far,
    adds exactly the candidates of `p` hit in `p`; the placement ends where
    the last step left it.
   */
  method WalkPiece(target: Label, axis: Axis, p: Pair, minStep: real, collides: Collides,
                   found: seq<Label>, diff: real)
    returns (colliding: seq<Label>, placement: real)
    ensures forall c :: c in colliding <==> c in found || HitIn(target, axis, p, minStep, collides, c)
    ensures NoDuplicates(found) && NoDuplicates(p.obstacles) ==> NoDuplicates(colliding)
    ensures |found| <= |colliding| && colliding[..|found|] == found
  {
    ghost var distinct := NoDuplicates(found) && NoDuplicates(p.obstacles);
    colliding := found;
    var step := StepSize(p.interval, minStep);
    placement := p.interval.lo + diff;
    var pos := p.interval.lo;
    ghost var k := 0;
    while pos < p.interval.hi
      invariant 0 <= k && (k > 0 ==> p.interval.lo < p.interval.hi)
      invariant pos == Position(p.interval, step, k) && placement == pos + diff
      invariant k > 0 ==> Position(p.interval, step, k - 1) < p.interval.hi
      invariant forall c :: c in colliding <==> c in found || HitWithin(target, axis, p, step, k, collides, c)
      invariant distinct ==> NoDuplicates(colliding)
      invariant |found| <= |colliding| && colliding[..|found|] == found
      decreases 10 - k
    {
      AtMostTenSteps(p.interval, minStep, k);
      if AllColliding(p.obstacles, colliding) {
        break;
      }
      colliding, placement := WalkStep(target, axis, p, step, k, collides, found, colliding, placement, diff);
      pos := placement - diff;
      k := k + 1;
    }
    forall c ensures c in colliding <==> c in found || HitIn(target, axis, p, minStep, collides, c) {
      PieceDone(target, axis, p, minStep, collides, k, colliding, c);
    }
  }

  /**
    One target's share of `get_obstructions`: walks every piece and returns
    the labels found colliding, together with the target's placement
    coordinate on `axis` at the end, which is where it started.
    `targetMin` is where the target's box starts when it is at `start`.
   */
  method SolveTarget(target: Label, axis: Axis, pieces: seq<Pair>, minStep: real, collides: Collides,
                     start: real, targetMin: real)
    returns (colliding: seq<Label>, placement: real)
    ensures forall c :: c in colliding <==> Obstructs(target, axis, pieces, minStep, collides, c)
    ensures (forall i :: 0 <= i < |pieces| ==> NoDuplicates(pieces[i].obstacles)) ==> NoDuplicates(colliding)
    ensures placement == start
  {
    ghost var distinct := forall i :: 0 <= i < |pieces| ==> NoDuplicates(pieces[i].obstacles);
    colliding := [];
    var diff := start - targetMin;
    var i := 0;
    while i < |pieces|
      invariant 0 <= i <= |pieces|
      invariant forall c :: c in colliding <==> exists j :: 0 <= j < i && HitIn(target, axis, pieces[j], minStep, collides, c)
      invariant distinct ==> NoDuplicates(colliding)
    {
      colliding, placement := WalkPiece(target, axis, pieces[i], minStep, collides, colliding, diff);
      i := i + 1;
    }
    placement := start;
  }

  /** `[part for part in self.parts if part is not target]` for the part at index `i`. */
  function OthersAt(parts: seq<Component>, i: int): (r: seq<Component>)
    requires 0 <= i < |parts|
    ensures |r| == |parts| - 1
    ensures forall o :: o in r ==> o in parts
  {
    parts[..i] + parts[i + 1..]
  }

  /** The only directions `get_obstructions` can move a part along. */
  predicate IsPositive(d: MotionDirection) {
    d.Along? && d.direction.positive
  }

  /** The part at index `i` is blocked by `b` along `axis`. */
  ghost predicate Blocks(parts: seq<Component>, i: int, axis: Axis, overall: Box, minStep: real,
                         collides: Collides, b: Label)
    requires 0 <= i < |parts|
  {
    Obstructs(parts[i].id, axis, FindPotentialObstacles(parts[i], OthersAt(parts, i), axis, overall), minStep, collides, b)
  }

  /** Only other parts' labels are found colliding. */
  lemma BlockerIsPart(parts: seq<Component>, i: int, axis: Axis, overall: Box, minStep: real,
                      collides: Collides, b: Label)
    requires 0 <= i < |parts|
    requires Blocks(parts, i, axis, overall, minStep, collides, b)
    ensures b in LabelSet(parts)
  {
    var pieces := FindPotentialObstacles(parts[i], OthersAt(parts, i), axis, overall);
    var j :| 0 <= j < |pieces| && HitIn(parts[i].id, axis, pieces[j], minStep, collides, b);
    PieceObstacles(parts[i], OthersAt(parts, i), axis, overall, pieces[j], b);
  }

  /** One target's edges, and its placement afterwards. */
  method TargetEdges(parts: seq<Component>, i: int, axis: Axis, overall: Box, minStep: real, collides: Collides,
                     placementBase: (Label, Axis) -> real)
    returns (added: set<Edge>, placement: real)
    requires 0 <= i < |parts|
    ensures forall a, b :: (a, b) in added <==> a == parts[i].id && Blocks(parts, i, axis, overall, minStep, collides, b)
    ensures Closed(LabelSet(parts), added)
    ensures placement == placementBase(parts[i].id, axis)
  {
    var target := parts[i];
    var pieces := FindPotentialObstacles(target, OthersAt(parts, i), axis, overall);
    var colliding;
    colliding, placement := SolveTarget(target.id, axis, pieces, minStep, collides,
                                        placementBase(target.id, axis), target.box.Min(axis));
    added := set c | c in colliding :: (target.id, c);
    forall e | e in added ensures e.0 in LabelSet(parts) && e.1 in LabelSet(parts) {
      BlockerIsPart(parts, i, axis, overall, minStep, collides, e.1);
    }
  }

  /**
    The edges of one direction's obstruction graph: `(a, b)` for every part
    `a` and every `b` found colliding with it. Every part's placement is
    back at `placementBase` afterwards.
   */
  method ObstructionEdges(parts: seq<Component>, axis: Axis, overall: Box, minStep: real, collides: Collides,
                          placementBase: (Label, Axis) -> real)
    returns (edges: set<Edge>, placements: seq<real>)
    ensures forall a, b :: (a, b) in edges <==>
              exists i :: 0 <= i < |parts| && parts[i].id == a && Blocks(parts, i, axis, overall, minStep, collides, b)
    ensures Closed(LabelSet(parts), edges)
    ensures |placements| == |parts|
    ensures forall i :: 0 <= i < |parts| ==> placements[i] == placementBase(parts[i].id, axis)
  {
    edges := {};
    placements := [];
    var i := 0;
    while i < |parts|
      invariant 0 <= i <= |parts|
      invariant forall a, b :: (a, b) in edges <==>
                  exists j :: 0 <= j < i && parts[j].id == a && Blocks(parts, j, axis, overall, minStep, collides, b)
      invariant Closed(LabelSet(parts), edges)
      invariant |placements| == i
      invariant forall j :: 0 <= j < i ==> placements[j] == placementBase(parts[j].id, axis)
    {
      var added, placement := TargetEdges(parts, i, axis, overall, minStep, collides, placementBase);
      forall a, b ensures (a, b) in edges + added <==>
          exists j :: 0 <= j < i + 1 && parts[j].id == a && Blocks(parts, j, axis, overall, minStep, collides, b) {
        if (a, b) in added {
          assert parts[i].id == a && Blocks(parts, i, axis, overall, minStep, collides, b);
        }
      }
      edges := edges + added;
      placements := placements + [placement];
      i := i + 1;
    }
  }

  /** What one entry of `get_obstructions`'s result holds for direction `d`. */
  ghost predicate GraphOf(parts: seq<Component>, d: MotionDirection, minStep: real, collides: Collides, g: ObstructionGraph) {
    && g.direction == d
    && g.nodes == LabelSet(parts)
    && (|parts| == 0 || !IsPositive(d) ==> g.edges == {})
    && (|parts| > 0 && IsPositive(d) ==>
          forall a, b :: (a, b) in g.edges <==>
            exists i :: 0 <= i < |parts| && parts[i].id == a
                        && Blocks(parts, i, d.direction.axis, OverallBox(BoxesOf(parts)).value, minStep, collides, b))
  }

  /** The graph built from one direction's edges over all part labels is that direction's entry. */
  lemma BuiltGraphOf(parts: seq<Component>, d: MotionDirection, minStep: real, collides: Collides, edges: set<Edge>)
    requires OverallBox(BoxesOf(parts)).Some? && IsPositive(d) ==>
               && Closed(LabelSet(parts), edges)
               && forall a, b :: (a, b) in edges <==>
                    exists i :: 0 <= i < |parts| && parts[i].id == a
                                && Blocks(parts, i, d.direction.axis, OverallBox(BoxesOf(parts)).value, minStep, collides, b)
    requires !(OverallBox(BoxesOf(parts)).Some? && IsPositive(d)) ==> edges == {}
    ensures GraphOf(parts, d, minStep, collides, BuildDirected(LabelSet(parts), edges, d))
  {
    BuildDirectedClosed(LabelSet(parts), edges, d);
  }

  /** One entry of `get_obstructions`: the obstruction graph over all part labels for direction `d`. */
  method DirectionGraph(parts: seq<Component>, d: MotionDirection, minStep: real, collides: Collides,
                        placementBase: (Label, Axis) -> real)
    returns (g: ObstructionGraph)
    ensures GraphOf(parts, d, minStep, collides, g)
  {
    var overall := OverallBox(BoxesOf(parts));
    var edges: set<Edge> := {};
    if overall.Some? && IsPositive(d) {
      var placements;
      edges, placements := ObstructionEdges(parts, d.direction.axis, overall.value, minStep, collides, placementBase);
    }
    BuiltGraphOf(parts, d, minStep, collides, edges);
    g := BuildDirected(LabelSet(parts), edges, d);
  }

  /** The graphs of every requested direction, keyed by direction. */
  method DirectionGraphs(parts: seq<Component>, directions: seq<MotionDirection>, minStep: real,
                         collides: Collides, placementBase: (Label, Axis) -> real)
    returns (graphs: map<MotionDirection, ObstructionGraph>)
    ensures graphs.Keys == set d | d in directions
    ensures forall d :: d in graphs ==> GraphOf(parts, d, minStep, collides, graphs[d])
  {
    graphs := map[];
    var k := 0;
    while k < |directions|
      invariant 0 <= k <= |directions|
      invariant forall e :: e in graphs ==> e in directions
      invariant forall j :: 0 <= j < k ==> directions[j] in graphs
      invariant forall d :: d in graphs ==> GraphOf(parts, d, minStep, collides, graphs[d])
    {
      var g := DirectionGraph(parts, directions[k], minStep, collides, placementBase);
      graphs := graphs[directions[k] := g];
      k := k + 1;
    }
    forall e | e in directions ensures e in graphs {
      var j :| 0 <= j < |directions| && directions[j] == e;
    }
  }

  /**
    Along the positive direction `d`, some part has two potential obstacles
    with the same overlap, so `find_obstacles` sorting them by overlap
    compares the two parts themselves and raises `TypeError`.
   */
  predicate SortRaises(parts: seq<Component>, d: MotionDirection) {
    && IsPositive(d) && |parts| > 0
    && exists i :: 0 <= i < |parts| && TiedOverlaps(parts[i], OthersAt(parts, i), d.direction.axis, OverallBox(BoxesOf(parts)).value)
  }

  /**
    `Assembly.get_obstructions`: one obstruction graph per requested
    direction, over all part labels. Moving along a direction that is not a
    positive axis leaves the elongated box undefined, which raises as soon
    as a target has another part to test against; tied overlaps make the
    sort in `find_obstacles` raise.
   */
  method GetObstructions(parts: seq<Component>, directions: seq<MotionDirection>, minStep: real,
                         collides: Collides, placementBase: (Label, Axis) -> real)
    returns (r: Result<map<MotionDirection, ObstructionGraph>, string>)
    ensures r.Failure? <==> (|parts| >= 2 && exists d :: d in directions && !IsPositive(d))
                            || exists d :: d in directions && SortRaises(parts, d)
    ensures r.Success? ==> r.value.Keys == set d | d in directions
    ensures r.Success? ==> forall d :: d in r.value ==> GraphOf(parts, d, minStep, collides, r.value[d])
  {
    var unbound := |parts| >= 2 && exists d :: d in directions && !IsPositive(d);
    if unbound || exists d :: d in directions && SortRaises(parts, d) {
      return Failure(if unbound then "UnboundLocalError: no elongated box for a direction that is not positive"
                     else "TypeError: '<' not supported between two parts");
    }
    var graphs := DirectionGraphs(parts, directions, minStep, collides, placementBase);
    return Success(graphs);
  }
}
