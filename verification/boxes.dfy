/**
  Axis-aligned bounding boxes with real coordinates, as FreeCAD's `BoundBox`
  provides them to the planner. Floating-point rounding is not modelled.
 */
module Boxes {
  import opened Wrappers
  import opened Directions

  /** `FreeCAD.BoundBox(XMin, YMin, ZMin, XMax, YMax, ZMax)` */
  datatype Box = Box(xMin: real, yMin: real, zMin: real, xMax: real, yMax: real, zMax: real) {

    function Min(a: Axis): real {
      match a
      case X => xMin
      case Y => yMin
      case Z => zMin
    }

    function Max(a: Axis): real {
      match a
      case X => xMax
      case Y => yMax
      case Z => zMax
    }

    /** `XLength`, `YLength`, `ZLength` */
    function Length(a: Axis): real {
      Max(a) - Min(a)
    }

    /** `b` lies inside this box on every axis. */
    predicate Contains(b: Box) {
      forall a: Axis :: Min(a) <= b.Min(a) && b.Max(a) <= Max(a)
    }
  }

  /** Builds a box from its per-axis bounds. */
  function FromBounds(lo: Axis -> real, hi: Axis -> real): (b: Box)
    ensures forall a: Axis :: b.Min(a) == lo(a) && b.Max(a) == hi(a)
  {
    Box(lo(X), lo(Y), lo(Z), hi(X), hi(Y), hi(Z))
  }

  /** `BoundBox.intersect`: the closed boxes share a point. */
  predicate Intersects(b: Box, c: Box) {
    forall a: Axis :: c.Min(a) <= b.Max(a) && b.Min(a) <= c.Max(a)
  }

  function RealMax(x: real, y: real): real { if x < y then y else x }

  function RealMin(x: real, y: real): real { if x < y then x else y }

  /** `BoundBox.intersected`: the common part of two boxes. */
  function Intersected(b: Box, c: Box): (r: Box)
    ensures forall a: Axis :: r.Min(a) == RealMax(b.Min(a), c.Min(a)) && r.Max(a) == RealMin(b.Max(a), c.Max(a))
  {
    FromBounds(a => RealMax(b.Min(a), c.Min(a)), a => RealMin(b.Max(a), c.Max(a)))
  }

  /** `BoundBox.add`: the smallest box holding both. */
  function Union(b: Box, c: Box): (r: Box)
    ensures r.Contains(b) && r.Contains(c)
    ensures forall a: Axis :: r.Min(a) in {b.Min(a), c.Min(a)} && r.Max(a) in {b.Max(a), c.Max(a)}
  {
    FromBounds(a => RealMin(b.Min(a), c.Min(a)), a => RealMax(b.Max(a), c.Max(a)))
  }

  /**
    The box of the whole assembly: every box added to an empty `BoundBox()`.
    FreeCAD's empty box is invalid; it is `None` here.
   */
  function OverallBox(boxes: seq<Box>): (r: Option<Box>)
    ensures r.None? <==> |boxes| == 0
    ensures r.Some? ==> forall i :: 0 <= i < |boxes| ==> r.value.Contains(boxes[i])
    ensures r.Some? ==> forall a: Axis :: exists i :: 0 <= i < |boxes| && r.value.Max(a) == boxes[i].Max(a)
    ensures r.Some? ==> forall a: Axis :: exists i :: 0 <= i < |boxes| && r.value.Min(a) == boxes[i].Min(a)
  {
    if |boxes| == 0 then None
    else if |boxes| == 1 then Some(boxes[0])
    else
      var rest := OverallBox(boxes[..|boxes| - 1]).value;
      var r := Union(rest, boxes[|boxes| - 1]);
      UnionMaxListed(boxes, boxes[..|boxes| - 1], rest, r);
      UnionMinListed(boxes, boxes[..|boxes| - 1], rest, r);
      assert forall i :: 0 <= i < |boxes| ==> r.Contains(boxes[i]) by {
        forall i | 0 <= i < |boxes| ensures r.Contains(boxes[i]) {
          if i < |boxes| - 1 {
            assert rest.Contains(boxes[..|boxes| - 1][i]);
          }
        }
      }
      Some(r)
  }

  /** Each maximum of the union with the last box is the maximum of some box. */
  lemma UnionMaxListed(boxes: seq<Box>, prefix: seq<Box>, rest: Box, r: Box)
    requires |boxes| >= 2 && prefix == boxes[..|boxes| - 1] && r == Union(rest, boxes[|boxes| - 1])
    requires forall a: Axis :: exists i :: 0 <= i < |prefix| && rest.Max(a) == prefix[i].Max(a)
    ensures forall a: Axis :: exists i :: 0 <= i < |boxes| && r.Max(a) == boxes[i].Max(a)
  {
    forall a: Axis ensures exists i :: 0 <= i < |boxes| && r.Max(a) == boxes[i].Max(a) {
      if r.Max(a) == rest.Max(a) {
        var i :| 0 <= i < |prefix| && rest.Max(a) == prefix[i].Max(a);
        assert r.Max(a) == boxes[i].Max(a);
      } else {
        assert r.Max(a) == boxes[|boxes| - 1].Max(a);
      }
    }
  }

  /** Each minimum of the union with the last box is the minimum of some box. */
  lemma UnionMinListed(boxes: seq<Box>, prefix: seq<Box>, rest: Box, r: Box)
    requires |boxes| >= 2 && prefix == boxes[..|boxes| - 1] && r == Union(rest, boxes[|boxes| - 1])
    requires forall a: Axis :: exists i :: 0 <= i < |prefix| && rest.Min(a) == prefix[i].Min(a)
    ensures forall a: Axis :: exists i :: 0 <= i < |boxes| && r.Min(a) == boxes[i].Min(a)
  {
    forall a: Axis ensures exists i :: 0 <= i < |boxes| && r.Min(a) == boxes[i].Min(a) {
      if r.Min(a) == rest.Min(a) {
        var i :| 0 <= i < |prefix| && rest.Min(a) == prefix[i].Min(a);
        assert r.Min(a) == boxes[i].Min(a);
      } else {
        assert r.Min(a) == boxes[|boxes| - 1].Min(a);
      }
    }
  }
}
