/**
  AND/OR graph generation by growing subassemblies bottom-up and splitting
  them into pairs.

  Level 1 holds every component on its own, level 2 the feasible
  connections, level `n` the whole assembly, and each level `L` in between
  the feasible extensions of a level `L - 1` subassembly by one adjoining
  component. An AND edge splits a subassembly of size `L >= 3` into two
  disjoint listed subassemblies whose union it is, the first of size at
  least `ceil(L / 2)`; every two-component subassembly splits into its two
  components. Both generators of the repository follow this scheme: the
  workbench's `AndOrGraph.generate` and the solver package's
  `ReverseCutset.generate`.

  Subassemblies are identified by their member sets, the canonical form of
  a sorted duplicate-free list.
 */
module AndOr {
  import opened Wrappers
  import opened Sorting
  import opened Labels
  import opened Graphs
  import opened Rules

  type Part = set<Label>

  /** An AND edge of the hypergraph: the parent and the set of its two children. */
  datatype AndEdge = AndEdge(parent: Part, children: set<Part>)

  datatype AndOrGraph = AndOrGraph(nodes: set<Part>, edges: set<AndEdge>)

  /** The connection graph has no edge from a component to itself. */
  predicate LoopFree(topo: ConnectionGraph) {
    forall e :: e in topo.edges ==> e.0 != e.1
  }

  /** `__get_adjoining_components`: the neighbours of members of `s` that are not in `s`. */
  function Adjoining(topo: ConnectionGraph, s: Part): (r: set<Label>)
    ensures forall y :: y in r <==> y !in s && exists x :: x in s && topo.Adjacent(x, y)
  {
    var r := (set e | e in topo.edges && e.0 in s && e.1 !in s :: e.1) + (set e | e in topo.edges && e.1 in s && e.0 !in s :: e.0);
    assert forall y :: y !in s && (exists x :: x in s && topo.Adjacent(x, y)) ==> y in r by {
      forall y | y !in s && exists x :: x in s && topo.Adjacent(x, y) ensures y in r {
        var x :| x in s && topo.Adjacent(x, y);
        if (x, y) in topo.edges {
          assert (x, y).1 == y;
        } else {
          assert (y, x).0 == y;
        }
      }
    }
    r
  }

  /** `[[node] for node in nodes]` */
  function Singletons(nodes: set<Label>): (r: set<Part>)
    ensures forall p :: p in r <==> exists x :: x in nodes && p == {x}
  {
    set x | x in nodes :: {x}
  }

  /** `[list(edge) for edge in topo.edges if feasible(edge)]` */
  function Pairs(topo: ConnectionGraph, feasible: Part -> bool): (r: set<Part>)
    ensures forall p :: p in r <==> exists e :: e in topo.edges && p == {e.0, e.1} && feasible(p)
  {
    set e | e in topo.edges && feasible({e.0, e.1}) :: {e.0, e.1}
  }

  /** One growth step: every feasible extension of a subassembly of `level` by one adjoining component. */
  function Grow(level: set<Part>, topo: ConnectionGraph, feasible: Part -> bool): (r: set<Part>)
    ensures forall p :: p in r <==> exists s, x :: s in level && x in Adjoining(topo, s) && p == s + {x} && feasible(p)
  {
    set s, x | s in level && x in Adjoining(topo, s) && feasible(s + {x}) :: s + {x}
  }

  /**
    The subassemblies listed with size `L`. Sizes 1, 2 and `n = |nodes|` are
    set first, the whole assembly overriding when `n <= 2`; the sizes from 3
    to `n - 1` are grown from the size below; no other size is listed.
   */
  function Level(nodes: set<Label>, topo: ConnectionGraph, feasible: Part -> bool, L: int): set<Part>
    decreases L
  {
    if L == |nodes| then {nodes}
    else if L == 1 then Singletons(nodes)
    else if L == 2 then Pairs(topo, feasible)
    else if 3 <= L < |nodes| then Grow(Level(nodes, topo, feasible, L - 1), topo, feasible)
    else {}
  }

  /** `p` is listed with some size. */
  predicate Listed(nodes: set<Label>, topo: ConnectionGraph, feasible: Part -> bool, p: Part) {
    exists L :: 0 <= L <= |nodes| + 2 && p in Level(nodes, topo, feasible, L)
  }

  /** Every listed subassembly. */
  function Parts(nodes: set<Label>, topo: ConnectionGraph, feasible: Part -> bool): (r: set<Part>)
    ensures forall p :: p in r <==> Listed(nodes, topo, feasible, p)
  {
    var r := set L, p | 0 <= L <= |nodes| + 2 && p in Level(nodes, topo, feasible, L) :: p;
    assert forall p :: Listed(nodes, topo, feasible, p) ==> p in r by {
      forall p | Listed(nodes, topo, feasible, p) ensures p in r {
        var L :| 0 <= L <= |nodes| + 2 && p in Level(nodes, topo, feasible, L);
      }
    }
    r
  }

  /** `a` of size `k` and `b` of size `L - k` are disjoint listed parts whose union is listed with size `L`. */
  predicate IsTriplet(nodes: set<Label>, topo: ConnectionGraph, feasible: Part -> bool, L: int, k: int, a: Part, b: Part) {
    && 3 <= L <= |nodes| && (L + 1) / 2 <= k < L
    && a in Level(nodes, topo, feasible, k) && b in Level(nodes, topo, feasible, L - k)
    && a + b in Level(nodes, topo, feasible, L) && a * b == {}
  }

  /** The triplet edges: a listed parent of size `L >= 3` split into two disjoint listed parts. */
  function TripletEdges(nodes: set<Label>, topo: ConnectionGraph, feasible: Part -> bool): (r: set<AndEdge>)
    ensures forall e :: e in r <==> exists L, k, a, b :: IsTriplet(nodes, topo, feasible, L, k, a, b) && e == AndEdge(a + b, {a, b})
  {
    set L, k, a, b | 3 <= L <= |nodes| && (L + 1) / 2 <= k < L && a in Level(nodes, topo, feasible, k)
                     && b in Level(nodes, topo, feasible, L - k) && IsTriplet(nodes, topo, feasible, L, k, a, b)
                  :: AndEdge(a + b, {a, b})
  }

  /** Every listed two-component subassembly splits into its components. */
  function PairEdges(nodes: set<Label>, topo: ConnectionGraph, feasible: Part -> bool): (r: set<AndEdge>)
    ensures forall e :: e in r <==> e.parent in Level(nodes, topo, feasible, 2) && e.children == Singletons(e.parent)
  {
    set p | p in Level(nodes, topo, feasible, 2) :: AndEdge(p, Singletons(p))
  }

  /** All edges of the generated graph. */
  function Edges(nodes: set<Label>, topo: ConnectionGraph, feasible: Part -> bool): set<AndEdge> {
    TripletEdges(nodes, topo, feasible) + PairEdges(nodes, topo, feasible)
  }

  // ---------------------------------------------------------------------
  // What the levels hold.

  /** A single component is its own only singleton. */
  lemma OneComponent(nodes: set<Label>)
    requires |nodes| == 1
    ensures Singletons(nodes) == {nodes}
  {
    var c :| c in nodes;
    assert nodes == {c} by {
      forall y | y in nodes ensures y == c {
        if y != c {
          assert {c, y} <= nodes;
          SubsetCardinality({c, y}, nodes);
        }
      }
    }
  }

  /**
    The fixed sizes: level 1 holds every component on its own, level 2 the
    feasible connections unless there are exactly two components, level `n`
    only the whole assembly.
   */
  lemma FixedLevels(nodes: set<Label>, topo: ConnectionGraph, feasible: Part -> bool)
    ensures forall p :: p in Level(nodes, topo, feasible, 1) <==> exists x :: x in nodes && p == {x}
    ensures |nodes| != 2 ==> forall p :: p in Level(nodes, topo, feasible, 2) <==> exists e :: e in topo.edges && p == {e.0, e.1} && feasible(p)
    ensures Level(nodes, topo, feasible, |nodes|) == {nodes}
  {
    if |nodes| == 1 {
      OneComponent(nodes);
    }
  }

  /** How a subassembly comes to be listed with size `L`. */
  lemma LevelCases(nodes: set<Label>, topo: ConnectionGraph, feasible: Part -> bool, L: int, p: Part)
    requires p in Level(nodes, topo, feasible, L)
    ensures L == |nodes| ==> p == nodes
    ensures L != |nodes| && L == 1 ==> exists x :: x in nodes && p == {x}
    ensures L != |nodes| && L == 2 ==> exists e :: e in topo.edges && p == {e.0, e.1} && feasible(p)
    ensures L != |nodes| && L != 1 && L != 2 ==>
              && 3 <= L < |nodes|
              && exists s, x :: s in Level(nodes, topo, feasible, L - 1) && x in Adjoining(topo, s) && p == s + {x} && feasible(p)
  {
  }

  lemma PairSizes(topo: ConnectionGraph, feasible: Part -> bool)
    requires LoopFree(topo)
    ensures forall p :: p in Pairs(topo, feasible) ==> |p| == 2
  {
    forall p | p in Pairs(topo, feasible) ensures |p| == 2 {
      var e :| e in topo.edges && p == {e.0, e.1} && feasible(p);
      assert e.0 != e.1;
    }
  }

  /** Every subassembly in `level` has `k` members. */
  ghost predicate AllOfSize(level: set<Part>, k: int) {
    forall p :: p in level ==> |p| == k
  }

  lemma GrowSizes(level: set<Part>, topo: ConnectionGraph, feasible: Part -> bool, k: int)
    requires AllOfSize(level, k)
    ensures AllOfSize(Grow(level, topo, feasible), k + 1)
  {
    forall p | p in Grow(level, topo, feasible) ensures |p| == k + 1 {
      var s, x :| s in level && x in Adjoining(topo, s) && p == s + {x} && feasible(p);
      assert x !in s;
    }
  }

  /** Without self-loops every subassembly listed with size `L` has exactly `L` members. */
  lemma LevelSizes(nodes: set<Label>, topo: ConnectionGraph, feasible: Part -> bool, L: int)
    requires LoopFree(topo)
    ensures forall p :: p in Level(nodes, topo, feasible, L) ==> |p| == L
  {
    LevelOfSize(nodes, topo, feasible, L);
  }

  /** The induction behind `LevelSizes`, on the size. */
  lemma {:induction false} LevelOfSize(nodes: set<Label>, topo: ConnectionGraph, feasible: Part -> bool, L: int)
    requires LoopFree(topo)
    ensures AllOfSize(Level(nodes, topo, feasible, L), L)
    decreases L
  {
    if 3 <= L < |nodes| {
      LevelOfSize(nodes, topo, feasible, L - 1);
      GrowLevelOfSize(nodes, topo, feasible, L);
    } else {
      FixedLevelOfSize(nodes, topo, feasible, L);
    }
  }

  /** A grown level has one more member than the level below. */
  lemma GrowLevelOfSize(nodes: set<Label>, topo: ConnectionGraph, feasible: Part -> bool, L: int)
    requires 3 <= L < |nodes|
    requires AllOfSize(Level(nodes, topo, feasible, L - 1), L - 1)
    ensures AllOfSize(Level(nodes, topo, feasible, L), L)
  {
    GrowSizes(Level(nodes, topo, feasible, L - 1), topo, feasible, L - 1);
  }

  /** The levels that are not grown: the whole assembly, single components, pairs, and the empty levels. */
  lemma FixedLevelOfSize(nodes: set<Label>, topo: ConnectionGraph, feasible: Part -> bool, L: int)
    requires LoopFree(topo)
    requires !(3 <= L < |nodes|)
    ensures AllOfSize(Level(nodes, topo, feasible, L), L)
  {
    if L == 2 && L != |nodes| {
      PairSizes(topo, feasible);
    }
  }

  /** Adding a component adjoining a connected subassembly keeps it connected. */
  lemma AdjoiningKeepsConnected(topo: ConnectionGraph, s: Part, x: Label)
    requires !Splits(topo, s)
    requires x in Adjoining(topo, s)
    ensures !Splits(topo, s + {x})
  {
    var z :| z in s && topo.Adjacent(z, x);
    if Splits(topo, s + {x}) {
      var a :| a <= s + {x} && a != {} && a != s + {x} && ClosedWithin(topo, s + {x}, a);
      var inner := a * s;
      assert ClosedWithin(topo, s, inner);
      if inner != s {
        assert a == {x};
        assert topo.Adjacent(x, z);
      }
    }
  }

  lemma SingletonConnected(topo: ConnectionGraph, x: Label)
    ensures !Splits(topo, {x})
  {
  }

  /** The two ends of a connection form a connected subassembly. */
  lemma PairConnected(topo: ConnectionGraph, e: Edge)
    requires e in topo.edges
    ensures !Splits(topo, {e.0, e.1})
  {
    SingletonConnected(topo, e.0);
    if e.1 != e.0 {
      assert e.1 in Adjoining(topo, {e.0});
      AdjoiningKeepsConnected(topo, {e.0}, e.1);
      assert {e.0} + {e.1} == {e.0, e.1};
    } else {
      assert {e.0, e.1} == {e.0};
    }
  }

  /**
    Every subassembly listed with a size from 1 to `n - 1` is connected in
    the connection graph, and from size 2 on it passed the feasibility test.
   */
  lemma GrownConnectedAndFeasible(nodes: set<Label>, topo: ConnectionGraph, feasible: Part -> bool, L: int, p: Part)
    requires 1 <= L < |nodes|
    requires p in Level(nodes, topo, feasible, L)
    ensures !Splits(topo, p)
    ensures L >= 2 ==> feasible(p)
  {
    GrownConnected(nodes, topo, feasible, L);
    LevelCases(nodes, topo, feasible, L, p);
  }

  /** Every subassembly in `level` is connected. */
  ghost predicate AllConnected(topo: ConnectionGraph, level: set<Part>) {
    forall p :: p in level ==> !Splits(topo, p)
  }

  /** The connectivity half, for a whole level at once, by induction on the size. */
  lemma {:induction false} GrownConnected(nodes: set<Label>, topo: ConnectionGraph, feasible: Part -> bool, L: int)
    requires 1 <= L < |nodes|
    ensures AllConnected(topo, Level(nodes, topo, feasible, L))
    decreases L
  {
    if L <= 2 {
      SmallLevelsConnected(nodes, topo, feasible, L);
    } else {
      GrownConnected(nodes, topo, feasible, L - 1);
      GrowLevelConnected(nodes, topo, feasible, L);
    }
  }

  /** Every subassembly of size 1 or 2 is connected. */
  lemma SmallLevelsConnected(nodes: set<Label>, topo: ConnectionGraph, feasible: Part -> bool, L: int)
    requires 1 <= L <= 2 && L < |nodes|
    ensures AllConnected(topo, Level(nodes, topo, feasible, L))
  {
    forall p | p in Level(nodes, topo, feasible, L) ensures !Splits(topo, p) {
      SmallLevelConnected(nodes, topo, feasible, L, p);
    }
  }

  /** A grown level is connected when the level below is. */
  lemma GrowLevelConnected(nodes: set<Label>, topo: ConnectionGraph, feasible: Part -> bool, L: int)
    requires 3 <= L < |nodes|
    requires AllConnected(topo, Level(nodes, topo, feasible, L - 1))
    ensures AllConnected(topo, Level(nodes, topo, feasible, L))
  {
    GrowKeepsConnected(Level(nodes, topo, feasible, L - 1), topo, feasible);
  }

  /** Growing a level of connected subassemblies gives connected subassemblies. */
  lemma GrowKeepsConnected(level: set<Part>, topo: ConnectionGraph, feasible: Part -> bool)
    requires AllConnected(topo, level)
    ensures AllConnected(topo, Grow(level, topo, feasible))
  {
    forall p | p in Grow(level, topo, feasible) ensures !Splits(topo, p) {
      var s, x :| s in level && x in Adjoining(topo, s) && p == s + {x} && feasible(p);
      AdjoiningKeepsConnected(topo, s, x);
    }
  }

  /** Single components and connected pairs are connected. */
  lemma SmallLevelConnected(nodes: set<Label>, topo: ConnectionGraph, feasible: Part -> bool, L: int, p: Part)
    requires 1 <= L <= 2 && L < |nodes|
    requires p in Level(nodes, topo, feasible, L)
    ensures !Splits(topo, p)
  {
    LevelCases(nodes, topo, feasible, L, p);
    if L == 1 {
      var x :| x in nodes && p == {x};
      SingletonConnected(topo, x);
    } else {
      var e :| e in topo.edges && p == {e.0, e.1} && feasible(p);
      PairConnected(topo, e);
    }
  }

  /** The two children of an edge: disjoint, non-empty, covering the parent, the first at least as large as the second. */
  predicate ValidSplit(e: AndEdge) {
    exists a, b :: a in e.children && b in e.children && e.children == {a, b} && a * b == {} && a + b == e.parent && 1 <= |b| <= |a|
  }

  /** A set of two members is the pair of them. */
  lemma TwoMembers(p: Part) returns (x: Label, y: Label)
    requires |p| == 2
    ensures p == {x, y} && x != y
  {
    x :| x in p;
    assert |p - {x}| == 1;
    y :| y in p - {x};
    forall z | z in p ensures z == x || z == y {
      if z != x && z != y {
        assert {x, y, z} <= p;
        SubsetCardinality({x, y, z}, p);
      }
    }
  }

  lemma TripletIsSplit(nodes: set<Label>, topo: ConnectionGraph, feasible: Part -> bool, L: int, k: int, a: Part, b: Part)
    requires LoopFree(topo)
    requires IsTriplet(nodes, topo, feasible, L, k, a, b)
    ensures ValidSplit(AndEdge(a + b, {a, b}))
  {
    LevelSizes(nodes, topo, feasible, k);
    LevelSizes(nodes, topo, feasible, L - k);
    assert |a| == k && |b| == L - k;
    assert 1 <= L - k <= k;
    assert a in {a, b} && b in {a, b};
  }

  lemma PairIsSplit(nodes: set<Label>, topo: ConnectionGraph, feasible: Part -> bool, p: Part)
    requires LoopFree(topo)
    requires p in Level(nodes, topo, feasible, 2)
    ensures ValidSplit(AndEdge(p, Singletons(p)))
  {
    LevelSizes(nodes, topo, feasible, 2);
    var x, y := TwoMembers(p);
    assert Singletons(p) == {{x}, {y}};
    assert {x} * {y} == {};
  }

  /** Without self-loops every generated edge is a valid split of its parent. */
  lemma EdgesAreSplits(nodes: set<Label>, topo: ConnectionGraph, feasible: Part -> bool, e: AndEdge)
    requires LoopFree(topo)
    requires e in Edges(nodes, topo, feasible)
    ensures ValidSplit(e)
  {
    if e in TripletEdges(nodes, topo, feasible) {
      var L, k, a, b :| IsTriplet(nodes, topo, feasible, L, k, a, b) && e == AndEdge(a + b, {a, b});
      TripletIsSplit(nodes, topo, feasible, L, k, a, b);
    } else {
      PairIsSplit(nodes, topo, feasible, e.parent);
    }
  }

  // ---------------------------------------------------------------------
  // The workbench generator.

  /** The subassemblies the workbench's feasibility check accepts (see `Rules.ScanOrderFree`). */
  function WorkbenchFeasible(graphs: seq<ObstructionGraph>, rules: map<Label, set<Rule>>): Part -> bool {
    s => |graphs| == 0 || GeometricallyFeasible(rules, s)
  }

  /** The parents and children of a set of edges: the nodes a hypergraph gets from its edges. */
  function EdgeNodes(edges: set<AndEdge>): (r: set<Part>)
    ensures forall p :: p in r <==> exists e :: e in edges && (p == e.parent || p in e.children)
  {
    (set e | e in edges :: e.parent) + (set e, c | e in edges && c in e.children :: c)
  }

  /**
    `AndOrGraph.generate` of the workbench: the components are the
    connection graph's nodes; asking an obstruction graph for the successors
    of a component it lacks raises.
   */
  function WorkbenchGenerate(topo: ConnectionGraph, graphs: seq<ObstructionGraph>): (r: Result<AndOrGraph, string>)
    ensures r.Failure? <==> !Present(topo.nodes, graphs)
    ensures r.Success? ==>
              && r.value.edges == Edges(topo.nodes, topo, WorkbenchFeasible(graphs, BlockingRules(topo.nodes, graphs).value))
              && r.value.nodes == EdgeNodes(r.value.edges)
  {
    match BlockingRules(topo.nodes, graphs)
    case Failure(e) => Failure(e)
    case Success(rules) =>
      var edges := Edges(topo.nodes, topo, WorkbenchFeasible(graphs, rules));
      Success(AndOrGraph(EdgeNodes(edges), edges))
  }

  /**
    Every feasible connection of an assembly that has not exactly two
    components becomes a two-component subassembly with an edge to its two
    singletons.
   */
  lemma WorkbenchPairEdges(topo: ConnectionGraph, graphs: seq<ObstructionGraph>, x: Label, y: Label)
    requires WorkbenchGenerate(topo, graphs).Success?
    requires |topo.nodes| != 2 && (x, y) in topo.edges
    requires WorkbenchFeasible(graphs, BlockingRules(topo.nodes, graphs).value)({x, y})
    ensures AndEdge({x, y}, Singletons({x, y})) in WorkbenchGenerate(topo, graphs).value.edges
  {
    var feasible := WorkbenchFeasible(graphs, BlockingRules(topo.nodes, graphs).value);
    FixedLevels(topo.nodes, topo, feasible);
    assert {(x, y).0, (x, y).1} in Level(topo.nodes, topo, feasible, 2);
  }

  /** Every node of the workbench's graph is a listed subassembly; each parent of an edge has more than one member. */
  lemma WorkbenchNodesListed(topo: ConnectionGraph, graphs: seq<ObstructionGraph>, p: Part)
    requires topo.Valid()
    requires WorkbenchGenerate(topo, graphs).Success?
    requires p in WorkbenchGenerate(topo, graphs).value.nodes
    ensures p in Parts(topo.nodes, topo, WorkbenchFeasible(graphs, BlockingRules(topo.nodes, graphs).value))
  {
    var feasible := WorkbenchFeasible(graphs, BlockingRules(topo.nodes, graphs).value);
    var g := WorkbenchGenerate(topo, graphs).value;
    var e :| e in g.edges && (p == e.parent || p in e.children);
    EdgeEndListed(topo, feasible, e, p);
  }

  /** The parent and the children of an edge are listed subassemblies. */
  lemma EdgeEndListed(topo: ConnectionGraph, feasible: Part -> bool, e: AndEdge, p: Part)
    requires topo.Valid()
    requires e in Edges(topo.nodes, topo, feasible) && (p == e.parent || p in e.children)
    ensures p in Parts(topo.nodes, topo, feasible)
  {
    FixedLevels(topo.nodes, topo, feasible);
    if e in TripletEdges(topo.nodes, topo, feasible) {
      var L, k, a, b :| IsTriplet(topo.nodes, topo, feasible, L, k, a, b) && e == AndEdge(a + b, {a, b});
      assert 0 <= L - k <= |topo.nodes| + 2;
    } else if p == e.parent {
      assert p in Level(topo.nodes, topo, feasible, 2);
    } else {
      var x :| x in e.parent && p == {x};
      assert x in topo.nodes by {
        if |topo.nodes| != 2 {
          var edge :| edge in topo.edges && e.parent == {edge.0, edge.1} && feasible(e.parent);
        }
      }
      assert p in Level(topo.nodes, topo, feasible, 1);
    }
  }

  // ---------------------------------------------------------------------
  // The reverse-cutset generator.

  /** The feasibility filter of the reverse-cutset generator: the verdict of `Rules.CheckGeometricalFeasibility`. */
  function CutsetFeasible(rules: map<Label, set<Rule>>): Part -> bool {
    s => GeometricallyFeasible(rules, s)
  }

  /** Growing from some listed subassembly looks up a label that is not a component. */
  predicate GrowthLooksUpStranger(gen: Generator) {
    exists L, s :: 2 <= L < |gen.components| - 1 && s in Level(gen.components, gen.topo, CutsetFeasible(gen.rules), L)
                   && !(s <= gen.components)
  }

  /**
    `ReverseCutset.generate` as intended: the level-2 and growth filters use
    the geometric verdict. `neighbors` raises for a component missing from
    the connection graph, and growing from a subassembly with a label
    outside the components raises `KeyError` in `neighbor_dict`.
   */
  function ReverseCutsetGenerate(gen: Generator): (r: Result<AndOrGraph, string>)
    ensures r.Failure? <==> !(gen.components <= gen.topo.nodes) || GrowthLooksUpStranger(gen)
    ensures r.Success? ==>
              && r.value.edges == Edges(gen.components, gen.topo, CutsetFeasible(gen.rules))
              && r.value.nodes == Parts(gen.components, gen.topo, CutsetFeasible(gen.rules))
  {
    if !(gen.components <= gen.topo.nodes) then Failure("NetworkXError: a component is not in the connection graph")
    else if GrowthLooksUpStranger(gen) then Failure("KeyError: a subassembly holds a label that is not a component")
    else
      var feasible := CutsetFeasible(gen.rules);
      Success(AndOrGraph(Parts(gen.components, gen.topo, feasible), Edges(gen.components, gen.topo, feasible)))
  }

  /**
    `ReverseCutset.generate` as written: the call
    `self.__checkGeometricalFeasibility` inside the class is name-mangled to
    an attribute the class does not have, so the first connection evaluated
    for level 2 raises `AttributeError`. Without connections the check is
    never reached.
   */
  function ReverseCutsetGenerateAsWritten(gen: Generator): (r: Result<AndOrGraph, string>)
    ensures |gen.topo.edges| > 0 ==> r.Failure?
    ensures gen.topo.edges == {} ==> r == ReverseCutsetGenerate(gen)
  {
    if |gen.topo.edges| > 0 then Failure("AttributeError: no attribute '_ReverseCutset__checkGeometricalFeasibility'")
    else ReverseCutsetGenerate(gen)
  }

  /** With the default complete connection graph and at least two components, the generator as written always raises. */
  lemma DefaultTopologyFails(components: set<Label>, geometrical: Option<seq<ObstructionGraph>>)
    requires |components| >= 2
    requires NewGenerator(components, Constraints(None, geometrical)).Success?
    ensures ReverseCutsetGenerateAsWritten(NewGenerator(components, Constraints(None, geometrical)).value).Failure?
  {
    var gen := NewGenerator(components, Constraints(None, geometrical)).value;
    var c :| c in components;
    var d := OtherMember(components, c);
    assert gen.topo.Adjacent(c, d);
    assert |gen.topo.edges| > 0;
  }

  /**
    When the connection graph's nodes are exactly the components, every edge
    of the intended reverse-cutset graph joins listed subassemblies.
   */
  lemma ReverseCutsetEdgesClosed(gen: Generator, e: AndEdge)
    requires gen.topo.Valid() && gen.topo.nodes == gen.components
    requires ReverseCutsetGenerate(gen).Success?
    requires e in ReverseCutsetGenerate(gen).value.edges
    ensures e.parent in ReverseCutsetGenerate(gen).value.nodes
    ensures forall c :: c in e.children ==> c in ReverseCutsetGenerate(gen).value.nodes
  {
    var feasible := CutsetFeasible(gen.rules);
    var n := gen.components;
    FixedLevels(n, gen.topo, feasible);
    if e in TripletEdges(n, gen.topo, feasible) {
      var L, k, a, b :| IsTriplet(n, gen.topo, feasible, L, k, a, b) && e == AndEdge(a + b, {a, b});
      assert 0 <= L - k <= |n| + 2;
    } else {
      assert e.parent in Level(n, gen.topo, feasible, 2);
      assert e.parent <= n by {
        if |n| != 2 {
          var edge :| edge in gen.topo.edges && e.parent == {edge.0, edge.1} && feasible(e.parent);
        }
      }
      forall c | c in e.children ensures c in Parts(n, gen.topo, feasible) {
        var x :| x in e.parent && c == {x};
        assert c in Level(n, gen.topo, feasible, 1);
      }
    }
  }
}
