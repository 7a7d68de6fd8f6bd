/**
  The planner's graphs over component labels: the undirected connection
  graph and the directed obstruction graph of one motion direction. Both are
  kept as a node set and an edge set; an undirected edge is stored in one
  orientation and read in both.
 */
module Graphs {
  import opened Wrappers
  import opened Labels
  import opened Directions

  type Edge = (Label, Label)

  /** Every edge end is a node. */
  predicate Closed(nodes: set<Label>, edges: set<Edge>) {
    forall e :: e in edges ==> e.0 in nodes && e.1 in nodes
  }

  /** `ConnectionGraph` (an undirected `networkx.Graph`). */
  datatype ConnectionGraph = ConnectionGraph(nodes: set<Label>, edges: set<Edge>) {
    predicate Valid() {
      Closed(nodes, edges)
    }

    predicate Adjacent(x: Label, y: Label) {
      (x, y) in edges || (y, x) in edges
    }
  }

  /** `ObstructionGraph` (a `networkx.DiGraph`): an edge `(a, b)` means `b` blocks `a` along `direction`. */
  datatype ObstructionGraph = ObstructionGraph(nodes: set<Label>, edges: set<Edge>, direction: MotionDirection) {
    predicate Valid() {
      Closed(nodes, edges)
    }
  }

  /** The end points of a set of edges. */
  function EdgeEnds(edges: set<Edge>): (r: set<Label>)
    ensures forall l :: l in r <==> exists e :: e in edges && (e.0 == l || e.1 == l)
  {
    (set e | e in edges :: e.0) + (set e | e in edges :: e.1)
  }

  /** `add_nodes_from` followed by `add_edges_from`: edges bring their end points along as nodes. */
  function Build(nodes: set<Label>, edges: set<Edge>): (r: ConnectionGraph)
    ensures r.Valid()
    ensures r.nodes == nodes + EdgeEnds(edges) && r.edges == edges
  {
    ConnectionGraph(nodes + EdgeEnds(edges), edges)
  }

  /** The directed counterpart of `Build`. */
  function BuildDirected(nodes: set<Label>, edges: set<Edge>, direction: MotionDirection): (r: ObstructionGraph)
    ensures r.Valid()
    ensures r.nodes == nodes + EdgeEnds(edges) && r.edges == edges && r.direction == direction
  {
    ObstructionGraph(nodes + EdgeEnds(edges), edges, direction)
  }

  /** Edges between given nodes bring no new nodes along. */
  lemma BuildDirectedClosed(nodes: set<Label>, edges: set<Edge>, direction: MotionDirection)
    requires Closed(nodes, edges)
    ensures BuildDirected(nodes, edges, direction).nodes == nodes
  {
    forall l | l in EdgeEnds(edges) ensures l in nodes {
      var e :| e in edges && (e.0 == l || e.1 == l);
    }
  }

  /** `{edge[::-1] for edge in edges}` */
  function Swapped(edges: set<Edge>): (r: set<Edge>)
    ensures forall a, b :: (a, b) in r <==> (b, a) in edges
  {
    set e | e in edges :: (e.1, e.0)
  }

  /** `ObstructionGraph.reverse`: same nodes, every edge turned round, the direction negated. */
  function Reverse(g: ObstructionGraph): (r: ObstructionGraph)
    requires g.Valid()
    ensures r.Valid()
    ensures r.nodes == g.nodes
    ensures forall a, b :: (a, b) in r.edges <==> (b, a) in g.edges
    ensures r.direction.Value() == -g.direction.Value()
  {
    var edges := Swapped(g.edges);
    assert EdgeEnds(edges) <= g.nodes by {
      forall l | l in EdgeEnds(edges) ensures l in g.nodes {
        var e :| e in edges && (e.0 == l || e.1 == l);
        assert (e.1, e.0) in g.edges;
      }
    }
    BuildDirected(g.nodes, edges, g.direction.Negated())
  }

  /** Reversing twice gives the original graph back. */
  lemma ReverseTwice(g: ObstructionGraph)
    requires g.Valid()
    ensures Reverse(Reverse(g)) == g
  {
    NegatedTwice(g.direction);
    var r := Reverse(Reverse(g));
    forall e | e in r.edges ensures e in g.edges {
      assert (e.1, e.0) in Reverse(g).edges;
    }
    forall e | e in g.edges ensures e in r.edges {
      assert (e.1, e.0) in Reverse(g).edges;
    }
  }

  /** `DiGraph.successors`, which raises `NetworkXError` for a node not in the graph. */
  function Successors(g: ObstructionGraph, c: Label): (r: Result<set<Label>, string>)
    ensures r.Failure? <==> c !in g.nodes
    ensures r.Success? ==> forall y :: y in r.value <==> (c, y) in g.edges
  {
    if c !in g.nodes then Failure("NetworkXError: the node is not in the digraph")
    else Success(set e | e in g.edges && e.0 == c :: e.1)
  }

  /** `Graph.neighbors`, which raises `NetworkXError` for a node not in the graph. */
  function Neighbors(g: ConnectionGraph, c: Label): (r: Result<set<Label>, string>)
    ensures r.Failure? <==> c !in g.nodes
    ensures r.Success? ==> forall y :: y in r.value <==> g.Adjacent(c, y)
  {
    if c !in g.nodes then Failure("NetworkXError: the node is not in the graph")
    else Success((set e | e in g.edges && e.0 == c :: e.1) + (set e | e in g.edges && e.1 == c :: e.0))
  }

  /** The members of `s` joined to a member of `seen` by an edge. */
  function Expand(g: ConnectionGraph, s: set<Label>, seen: set<Label>): (r: set<Label>)
    ensures forall y :: y in r <==> y in s && exists x :: x in seen && g.Adjacent(x, y)
  {
    set y, e | y in s && e in g.edges && ((e.0 in seen && e.1 == y) || (e.1 in seen && e.0 == y)) :: y
  }

  /** No edge leaves `c` towards the rest of `s`. */
  predicate ClosedWithin(g: ConnectionGraph, s: set<Label>, c: set<Label>) {
    forall x, y :: x in c && y in s && g.Adjacent(x, y) ==> y in c
  }

  lemma ProperSubsetSmaller(s: set<Label>, seen: set<Label>, next: set<Label>)
    requires seen <= next <= s && next != seen
    ensures |s - next| < |s - seen|
  {
    var y :| y in next && y !in seen;
    assert s - seen == (s - next) + (next - seen);
    assert (s - next) * (next - seen) == {};
    assert y in next - seen;
  }

  /** What can be reached from `seen` inside `s`, one ring of neighbours at a time. */
  function Reach(g: ConnectionGraph, s: set<Label>, seen: set<Label>): (r: set<Label>)
    requires seen <= s
    ensures seen <= r <= s
    ensures ClosedWithin(g, s, r)
    decreases |s - seen|
  {
    var next := seen + Expand(g, s, seen);
    if next == seen then seen
    else
      ProperSubsetSmaller(s, seen, next);
      Reach(g, s, next)
  }

  /** Reaching stays inside every closed part of `s` that holds the start. */
  lemma {:induction false} ReachLeast(g: ConnectionGraph, s: set<Label>, seen: set<Label>, c: set<Label>)
    requires seen <= c <= s
    requires ClosedWithin(g, s, c)
    ensures Reach(g, s, seen) <= c
    decreases |s - seen|
  {
    var next := seen + Expand(g, s, seen);
    if next != seen {
      ProperSubsetSmaller(s, seen, next);
      ReachLeast(g, s, next, c);
    }
  }

  /**
    `nx.is_connected(g.subgraph(s))` for a non-empty list `s` of nodes:
    everything in `s` is reachable from its first member inside `s`.
   */
  function IsConnected(g: ConnectionGraph, s: seq<Label>): bool
    requires |s| > 0
  {
    var members := set x | x in s;
    Reach(g, members, {s[0]}) == members
  }

  /** `s` falls into two non-empty parts with no edge between them. */
  ghost predicate Splits(g: ConnectionGraph, s: set<Label>) {
    exists a: set<Label> :: a <= s && a != {} && a != s && ClosedWithin(g, s, a)
  }

  /** Connected exactly when there is no split, so the start member does not matter. */
  lemma ConnectedIffNoSplit(g: ConnectionGraph, s: seq<Label>)
    requires |s| > 0
    ensures IsConnected(g, s) <==> !Splits(g, set x | x in s)
  {
    var members := set x | x in s;
    var r := Reach(g, members, {s[0]});
    if r != members {
      assert r <= members && r != {} && ClosedWithin(g, members, r);
    } else if Splits(g, members) {
      var a: set<Label> :| a <= members && a != {} && a != members && ClosedWithin(g, members, a);
      if s[0] in a {
        ReachLeast(g, members, {s[0]}, a);
      } else {
        var b := members - a;
        assert ClosedWithin(g, members, b) by {
          forall x, y | x in b && y in members && g.Adjacent(x, y) ensures y in b {
            if y in a {
              assert g.Adjacent(y, x);
            }
          }
        }
        ReachLeast(g, members, {s[0]}, b);
      }
    }
  }
}
