/**
  The `{nodes, links}` record both graph classes of the planner package
  write with `exportToFile` and read back with `createFromJSON` and
  `importFromFile`. Files and JSON text are left out: a record is the parsed
  value, with the fields a link may lack made optional.
 */
module Records {
  import opened Wrappers
  import opened Labels
  import opened Directions
  import opened Graphs

  /** `{"source": ..., "target": ...}`; reading a missing key raises `KeyError`. */
  datatype Link = Link(source: Option<Label>, target: Option<Label>)

  /** `{"nodes": [{"name": ...}, ...], "links": [...]}`; the `"links"` key may be missing. */
  datatype GraphRecord = GraphRecord(nodes: seq<Label>, links: Option<seq<Link>>)

  /** `xs` lists every member of `s` exactly once. */
  predicate Enumerates<T>(xs: seq<T>, s: set<T>) {
    |xs| == |s| && (forall x :: x in xs ==> x in s) && (forall x :: x in s ==> x in xs)
  }

  /** The record of the given node and edge listings. */
  function Record(nodes: seq<Label>, edges: seq<Edge>): (r: GraphRecord)
    ensures r.nodes == nodes && r.links.Some? && |r.links.value| == |edges|
    ensures forall i :: 0 <= i < |edges| ==> r.links.value[i] == Link(Some(edges[i].0), Some(edges[i].1))
  {
    GraphRecord(nodes, Some(seq(|edges|, i requires 0 <= i < |edges| => Link(Some(edges[i].0), Some(edges[i].1)))))
  }

  /** Some listing of a finite set, in whatever order the graph iterates it. */
  method Enumerate<T>(s: set<T>) returns (xs: seq<T>)
    ensures Enumerates(xs, s)
  {
    xs := [];
    var rest := s;
    while rest != {}
      invariant rest <= s
      invariant forall x :: x in xs <==> x in s && x !in rest
      invariant |xs| + |rest| == |s|
      decreases |rest|
    {
      var x :| x in rest;
      xs := xs + [x];
      rest := rest - {x};
    }
  }

  /** `exportToFile` without the file: one `name` per node and one link per edge, in the graph's order. */
  method Export(nodes: set<Label>, edges: set<Edge>) returns (r: GraphRecord)
    ensures Enumerates(r.nodes, nodes)
    ensures r.links.Some? && |r.links.value| == |edges|
    ensures forall l :: l in r.links.value <==> exists e :: e in edges && l == Link(Some(e.0), Some(e.1))
  {
    var ns := Enumerate(nodes);
    var es := Enumerate(edges);
    r := Record(ns, es);
    forall l | l in r.links.value ensures exists e :: e in edges && l == Link(Some(e.0), Some(e.1)) {
      var i :| 0 <= i < |es| && r.links.value[i] == l;
      assert es[i] in edges;
    }
    forall e | e in edges ensures Link(Some(e.0), Some(e.1)) in r.links.value {
      var i :| 0 <= i < |es| && es[i] == e;
      assert r.links.value[i] == Link(Some(e.0), Some(e.1));
    }
  }

  /** The edges of the links, or `None` when reading one of them raises `KeyError`. */
  function LinkEdges(links: seq<Link>): (r: Option<seq<Edge>>)
    ensures r.None? <==> exists i :: 0 <= i < |links| && (links[i].source.None? || links[i].target.None?)
    ensures r.Some? ==> |r.value| == |links|
    ensures r.Some? ==> forall i :: 0 <= i < |links| ==> r.value[i] == (links[i].source.value, links[i].target.value)
  {
    if |links| == 0 then Some([])
    else if links[0].source.None? || links[0].target.None? then None
    else
      match LinkEdges(links[1..])
      case None =>
        assert forall i :: 0 <= i < |links| - 1 ==> links[1..][i] == links[i + 1];
        None
      case Some(rest) => Some([(links[0].source.value, links[0].target.value)] + rest)
  }

  /** The record can be read: `"links"` is present and every link has both ends. */
  predicate Readable(record: GraphRecord) {
    record.links.Some? && LinkEdges(record.links.value).Some?
  }

  /** The edge set a readable record lists. */
  function RecordEdges(record: GraphRecord): (r: set<Edge>)
    requires Readable(record)
    ensures forall e :: e in r <==> exists i :: 0 <= i < |record.links.value| && record.links.value[i] == Link(Some(e.0), Some(e.1))
  {
    var es := LinkEdges(record.links.value).value;
    var r := set e | e in es;
    assert forall e :: e in r ==> exists i :: 0 <= i < |record.links.value| && record.links.value[i] == Link(Some(e.0), Some(e.1)) by {
      forall e | e in r ensures exists i :: 0 <= i < |record.links.value| && record.links.value[i] == Link(Some(e.0), Some(e.1)) {
        var i :| 0 <= i < |es| && es[i] == e;
      }
    }
    r
  }

  /**
    `ConnectionGraph.createFromJSON`: the edge list is read before
    `clear()`, so a record that cannot be read leaves the graph as it was;
    otherwise the graph holds exactly the listed edges and their ends. The
    `nodes` entries are not read.
   */
  function CreateConnectionGraph(g: ConnectionGraph, record: GraphRecord): (r: ConnectionGraph)
    ensures !Readable(record) ==> r == g
    ensures Readable(record) ==> r.Valid() && r.edges == RecordEdges(record) && r.nodes == EdgeEnds(r.edges)
  {
    if Readable(record) then Build({}, RecordEdges(record)) else g
  }

  /**
    `ObstructionGraph.createFromJSON`: as for the connection graph, with each
    link read as the directed edge from `source` to `target`. The class has
    no direction attribute, so the modelled direction is kept.
   */
  function CreateObstructionGraph(g: ObstructionGraph, record: GraphRecord): (r: ObstructionGraph)
    ensures !Readable(record) ==> r == g
    ensures Readable(record) ==> r.Valid() && r.nodes == EdgeEnds(r.edges) && r.direction == g.direction
    ensures Readable(record) ==> forall a, b :: (a, b) in r.edges <==>
              exists i :: 0 <= i < |record.links.value| && record.links.value[i].source == Some(a) && record.links.value[i].target == Some(b)
  {
    if Readable(record) then BuildDirected({}, RecordEdges(record), g.direction) else g
  }

  /** A record listing the edges of a graph is readable and lists exactly those edges. */
  lemma RecordEdgesOfListing(nodes: seq<Label>, edges: seq<Edge>, s: set<Edge>)
    requires Enumerates(edges, s)
    ensures Readable(Record(nodes, edges))
    ensures RecordEdges(Record(nodes, edges)) == s
  {
    var record := Record(nodes, edges);
    forall e | e in s ensures e in RecordEdges(record) {
      var i :| 0 <= i < |edges| && edges[i] == e;
      assert record.links.value[i] == Link(Some(e.0), Some(e.1));
    }
  }

  /**
    Reading back an exported obstruction graph restores its edges exactly;
    its nodes come back only where an edge touches them.
   */
  lemma ObstructionRoundTrip(g: ObstructionGraph, h: ObstructionGraph, nodes: seq<Label>, edges: seq<Edge>)
    requires g.Valid()
    requires Enumerates(nodes, g.nodes) && Enumerates(edges, g.edges)
    ensures var r := CreateObstructionGraph(h, Record(nodes, edges));
            && r.edges == g.edges
            && r.nodes <= g.nodes
            && forall x :: x in g.nodes && x !in r.nodes <==> x in g.nodes && forall e :: e in g.edges ==> e.0 != x && e.1 != x
  {
    RecordEdgesOfListing(nodes, edges, g.edges);
    UntouchedLost(g.nodes, g.edges);
  }

  /** Rebuilding from the edges alone keeps the nodes some edge touches and loses the others. */
  lemma UntouchedLost(nodes: set<Label>, edges: set<Edge>)
    requires Closed(nodes, edges)
    ensures EdgeEnds(edges) <= nodes
    ensures forall x :: x in nodes && x !in EdgeEnds(edges) <==> x in nodes && forall e :: e in edges ==> e.0 != x && e.1 != x
  {
    forall x | x in EdgeEnds(edges) ensures x in nodes {
      var e :| e in edges && (e.0 == x || e.1 == x);
    }
  }

  /** The same for a connection graph: the adjacency comes back, isolated components do not. */
  lemma ConnectionRoundTrip(g: ConnectionGraph, h: ConnectionGraph, nodes: seq<Label>, edges: seq<Edge>)
    requires g.Valid()
    requires Enumerates(nodes, g.nodes) && Enumerates(edges, g.edges)
    ensures var r := CreateConnectionGraph(h, Record(nodes, edges));
            && (forall x, y :: r.Adjacent(x, y) <==> g.Adjacent(x, y))
            && r.nodes <= g.nodes
            && forall x :: x in g.nodes && x !in r.nodes <==> x in g.nodes && forall e :: e in g.edges ==> e.0 != x && e.1 != x
  {
    RecordEdgesOfListing(nodes, edges, g.edges);
    UntouchedLost(g.nodes, g.edges);
  }
}
