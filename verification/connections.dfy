/**
  The workbench's connection detector. A pair of parts is a candidate when
  the first part's box, grown by half the swell distance on every side,
  meets the second part's box; a candidate pair is a connection when the
  shapes are closer than 0.01. Shape distance is the oracle `dist`.
 */
module Connections {
  import opened Labels
  import opened Directions
  import opened Boxes
  import opened Refinement
  import opened Graphs

  /** `distToShape(...)[0]` between two parts, by label. */
  type Distance = (Label, Label) -> real

  /** Shapes closer than this touch. */
  const ContactTolerance: real := 0.01

  /** The box grown by `swell / 2` on every side. */
  function Swollen(b: Box, swell: real): (r: Box)
    ensures forall a: Axis :: r.Min(a) == b.Min(a) - swell / 2.0 && r.Max(a) == b.Max(a) + swell / 2.0
  {
    FromBounds(a => b.Min(a) - swell / 2.0, a => b.Max(a) + swell / 2.0)
  }

  /** The refinement test of `get_connections`: the swollen first box meets the second. */
  predicate IsCandidate(a: Box, b: Box, swell: real) {
    Intersects(Swollen(a, swell), b)
  }

  /** Swelling the first box or the second one is the same test. */
  lemma CandidateSymmetric(a: Box, b: Box, swell: real)
    ensures IsCandidate(a, b, swell) <==> IsCandidate(b, a, swell)
  {
    assert IsCandidate(a, b, swell) <==> forall x: Axis :: b.Min(x) - swell / 2.0 <= a.Max(x) && a.Min(x) - swell / 2.0 <= b.Max(x);
  }

  /** Without swelling the test is plain box intersection, and more swelling admits more pairs. */
  lemma CandidateMonotone(a: Box, b: Box, swell: real, more: real)
    requires swell <= more
    ensures IsCandidate(a, b, 0.0) <==> Intersects(a, b)
    ensures IsCandidate(a, b, swell) ==> IsCandidate(a, b, more)
  {
  }

  /** The pair of parts at indices `i < j` is reported as a connection. */
  predicate Connected(parts: seq<Component>, i: int, j: int, swell: real, dist: Distance)
    requires 0 <= i < j < |parts|
  {
    IsCandidate(parts[i].box, parts[j].box, swell) && dist(parts[i].id, parts[j].id) < ContactTolerance
  }

  /** The set of sorted label pairs built from the refined combinations. */
  function Connections(parts: seq<Component>, swell: real, dist: Distance): (r: set<Edge>)
    ensures forall e :: e in r <==>
              exists i, j :: 0 <= i < j < |parts| && Connected(parts, i, j, swell, dist)
                             && e == SortedPair(parts[i].id, parts[j].id)
    ensures forall e :: e in r ==> !LexLess(e.1, e.0) && e.0 in LabelSet(parts) && e.1 in LabelSet(parts)
  {
    var r := set i, j | 0 <= i < j < |parts| && Connected(parts, i, j, swell, dist) :: SortedPair(parts[i].id, parts[j].id);
    assert forall e :: e in r ==> e.0 in LabelSet(parts) && e.1 in LabelSet(parts) by {
      forall e | e in r ensures e.0 in LabelSet(parts) && e.1 in LabelSet(parts) {
        var i, j :| 0 <= i < j < |parts| && Connected(parts, i, j, swell, dist) && e == SortedPair(parts[i].id, parts[j].id);
        assert parts[i] in parts && parts[j] in parts;
      }
    }
    r
  }

  /** `Assembly.get_connections`: every part label is a node, isolated ones included. */
  function GetConnections(parts: seq<Component>, swell: real, dist: Distance): (g: ConnectionGraph)
    ensures g.Valid()
    ensures g.nodes == LabelSet(parts)
    ensures g.edges == Connections(parts, swell, dist)
  {
    Build(LabelSet(parts), Connections(parts, swell, dist))
  }

  /**
    With a symmetric distance the order of the parts does not matter: two
    parts at any two distinct positions whose boxes pass the swollen test
    and whose shapes touch are adjacent in the connection graph.
   */
  lemma ConnectedEitherOrder(parts: seq<Component>, swell: real, dist: Distance, i: int, j: int)
    requires forall x, y :: dist(x, y) == dist(y, x)
    requires 0 <= i < |parts| && 0 <= j < |parts| && i != j
    requires IsCandidate(parts[i].box, parts[j].box, swell) && dist(parts[i].id, parts[j].id) < ContactTolerance
    ensures GetConnections(parts, swell, dist).Adjacent(parts[i].id, parts[j].id)
  {
    SortedPairSymmetric(parts[i].id, parts[j].id);
    var p := SortedPair(parts[i].id, parts[j].id);
    if i < j {
      assert Connected(parts, i, j, swell, dist);
    } else {
      CandidateSymmetric(parts[i].box, parts[j].box, swell);
      assert Connected(parts, j, i, swell, dist);
    }
    assert p in Connections(parts, swell, dist);
    assert p == (parts[i].id, parts[j].id) || p == (parts[j].id, parts[i].id);
  }

  /** Conversely every connection comes from two parts at distinct positions that pass both tests. */
  lemma AdjacentOnlyIfConnected(parts: seq<Component>, swell: real, dist: Distance, x: Label, y: Label)
    requires GetConnections(parts, swell, dist).Adjacent(x, y)
    ensures exists i, j :: 0 <= i < j < |parts| && Connected(parts, i, j, swell, dist)
                           && {parts[i].id, parts[j].id} == {x, y}
  {
    var e := if (x, y) in Connections(parts, swell, dist) then (x, y) else (y, x);
    var i, j :| 0 <= i < j < |parts| && Connected(parts, i, j, swell, dist) && e == SortedPair(parts[i].id, parts[j].id);
    assert {e.0, e.1} == {x, y};
  }
}
