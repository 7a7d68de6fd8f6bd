/**
  Blocking rules and the feasibility checks of the AND/OR graph generators.

  A blocking rule of component `c` picks one successor of `c` in every
  obstruction graph: while all the picked components are present, `c`
  cannot leave along any direction. A subassembly that lacks `c` but holds
  all of one of its rules cannot be assembled, so it is geometrically
  infeasible. It is topologically feasible when it is connected in the
  connection graph.
 */
module Rules {
  import opened Wrappers
  import opened Sorting
  import opened Labels
  import opened Directions
  import opened Graphs

  type Rule = set<Label>

  /** The successors of `c` in `g`, i.e. the components blocking `c` along `g`'s direction. */
  function SuccOf(g: ObstructionGraph, c: Label): (r: set<Label>)
    ensures forall y :: y in r <==> (c, y) in g.edges
  {
    set e | e in g.edges && e.0 == c :: e.1
  }

  /** `[g.successors(c) for g in graphs]`, for a component present in every graph. */
  function SuccessorSets(graphs: seq<ObstructionGraph>, c: Label): (r: seq<set<Label>>)
    ensures |r| == |graphs|
    ensures forall i :: 0 <= i < |graphs| ==> r[i] == SuccOf(graphs[i], c)
  {
    seq(|graphs|, i requires 0 <= i < |graphs| => SuccOf(graphs[i], c))
  }

  /** The sets `set(prod)` for `prod` in `itertools.product(*succ)`. */
  function Choices(succ: seq<set<Label>>): (r: set<Rule>)
    ensures |succ| > 0 ==> forall rule :: rule in r ==> rule != {}
    ensures |succ| == 0 ==> r == {{}}
    decreases |succ|
  {
    if |succ| == 0 then {{}}
    else set y, rule | y in succ[0] && rule in Choices(succ[1..]) :: {y} + rule
  }

  /** Some choice lies inside `s` exactly when every set in `succ` meets `s`. */
  lemma ChoicesInside(succ: seq<set<Label>>, s: set<Label>)
    ensures (exists rule :: rule in Choices(succ) && rule <= s) <==>
            forall i :: 0 <= i < |succ| ==> exists y :: y in succ[i] && y in s
  {
    if exists rule :: rule in Choices(succ) && rule <= s {
      var rule :| rule in Choices(succ) && rule <= s;
      ChoiceMeetsAll(succ, s, rule);
    }
    if forall i :: 0 <= i < |succ| ==> exists y :: y in succ[i] && y in s {
      forall i | 0 <= i < |succ| ensures succ[i] * s != {} {
        var y :| y in succ[i] && y in s;
        assert y in succ[i] * s;
      }
      var rule := ChoiceInside(succ, s);
    }
  }

  /** A choice inside `s` picks a member of `s` from every set. */
  lemma {:induction false} ChoiceMeetsAll(succ: seq<set<Label>>, s: set<Label>, rule: Rule)
    requires rule in Choices(succ) && rule <= s
    ensures forall i :: 0 <= i < |succ| ==> exists y :: y in succ[i] && y in s
    decreases |succ|
  {
    if |succ| > 0 {
      var y, rest :| y in succ[0] && rest in Choices(succ[1..]) && rule == {y} + rest;
      ChoiceMeetsAll(succ[1..], s, rest);
      forall i | 0 <= i < |succ| ensures exists y :: y in succ[i] && y in s {
        if i > 0 {
          assert succ[i] == succ[1..][i - 1];
        } else {
          assert y in succ[0] && y in s;
        }
      }
    }
  }

  /** When every set meets `s`, picking a member of `s` from each gives a choice inside `s`. */
  lemma {:induction false} ChoiceInside(succ: seq<set<Label>>, s: set<Label>) returns (rule: Rule)
    requires forall i :: 0 <= i < |succ| ==> succ[i] * s != {}
    ensures rule in Choices(succ) && rule <= s
    decreases |succ|
  {
    if |succ| == 0 {
      rule := {};
    } else {
      var tail := succ[1..];
      assert forall i :: 0 <= i < |tail| ==> tail[i] == succ[i + 1];
      var rest := ChoiceInside(tail, s);
      var y :| y in succ[0] * s;
      rule := {y} + rest;
    }
  }

  /** There is no choice at all exactly when one of the sets is empty. */
  lemma {:induction false} ChoicesEmpty(succ: seq<set<Label>>)
    ensures Choices(succ) == {} <==> exists i :: 0 <= i < |succ| && succ[i] == {}
    decreases |succ|
  {
    if |succ| > 0 {
      ChoicesEmpty(succ[1..]);
      if Choices(succ[1..]) == {} {
        var i :| 0 <= i < |succ[1..]| && succ[1..][i] == {};
        assert succ[i + 1] == {};
      } else if succ[0] != {} {
        var rest :| rest in Choices(succ[1..]);
        var y :| y in succ[0];
        assert {y} + rest in Choices(succ);
        forall i | 0 <= i < |succ| ensures succ[i] != {} {
          if i > 0 {
            assert succ[i] == succ[1..][i - 1];
          }
        }
      }
    }
  }

  /** Every component of `components` is a node of every graph, so `successors` never raises. */
  predicate Present(components: set<Label>, graphs: seq<ObstructionGraph>) {
    forall c, i :: c in components && 0 <= i < |graphs| ==> c in graphs[i].nodes
  }

  /**
    The blocking rules, as sets: `successors` raises for a component missing
    from a graph, and components without any rule are left out.
   */
  function BlockingRules(components: set<Label>, graphs: seq<ObstructionGraph>): (r: Result<map<Label, set<Rule>>, string>)
    ensures r.Failure? <==> !Present(components, graphs)
    ensures r.Success? ==> forall c :: c in r.value <==> c in components && forall i :: 0 <= i < |graphs| ==> SuccOf(graphs[i], c) != {}
    ensures r.Success? ==> forall c :: c in r.value ==> r.value[c] == Choices(SuccessorSets(graphs, c))
  {
    if !Present(components, graphs) then Failure("NetworkXError: a component is not in an obstruction graph")
    else Success(RuleMap(components, graphs))
  }

  /** The rules of every component that has some, keyed by component. */
  function RuleMap(components: set<Label>, graphs: seq<ObstructionGraph>): (rules: map<Label, set<Rule>>)
    ensures forall c :: c in rules <==> c in components && forall i :: 0 <= i < |graphs| ==> SuccOf(graphs[i], c) != {}
    ensures forall c :: c in rules ==> rules[c] == Choices(SuccessorSets(graphs, c))
  {
    var rules := map c | c in components && Choices(SuccessorSets(graphs, c)) != {} :: Choices(SuccessorSets(graphs, c));
    assert forall c :: c in rules <==> c in components && forall i :: 0 <= i < |graphs| ==> SuccOf(graphs[i], c) != {} by {
      forall c ensures c in rules <==> c in components && forall i :: 0 <= i < |graphs| ==> SuccOf(graphs[i], c) != {} {
        SomeChoiceIffAllBlocked(graphs, c);
      }
    }
    rules
  }

  /** A component has some rule exactly when every graph gives it a successor. */
  lemma SomeChoiceIffAllBlocked(graphs: seq<ObstructionGraph>, c: Label)
    ensures Choices(SuccessorSets(graphs, c)) != {} <==> forall i :: 0 <= i < |graphs| ==> SuccOf(graphs[i], c) != {}
  {
    ChoicesEmpty(SuccessorSets(graphs, c));
  }

  /**
    The rule-based meaning of a blocking rule: `c` has a rule inside `s`
    exactly when it is a component and every obstruction graph has a
    successor of `c` in `s`, i.e. every direction is blocked by `s`.
   */
  lemma RuleInsideIffBlocked(components: set<Label>, graphs: seq<ObstructionGraph>, c: Label, s: set<Label>)
    requires BlockingRules(components, graphs).Success?
    ensures var rules := BlockingRules(components, graphs).value;
            (c in rules && exists rule :: rule in rules[c] && rule <= s) <==>
            c in components && forall i :: 0 <= i < |graphs| ==> exists y :: (c, y) in graphs[i].edges && y in s
  {
    var succ := SuccessorSets(graphs, c);
    ChoicesInside(succ, s);
    if c in components && forall i :: 0 <= i < |graphs| ==> exists y :: (c, y) in graphs[i].edges && y in s {
      forall i | 0 <= i < |graphs| ensures SuccOf(graphs[i], c) != {} {
        var y :| (c, y) in graphs[i].edges && y in s;
        assert y in SuccOf(graphs[i], c);
      }
    }
  }

  /** No rule of a component outside `s` lies inside `s`. */
  predicate GeometricallyFeasible(rules: map<Label, set<Rule>>, s: set<Label>) {
    forall c, rule :: c in rules && rule in rules[c] && rule <= s ==> c in s
  }

  /** What a feasibility check reports: whether it ran, its message, and the verdict. */
  datatype Check = Check(succeeded: bool, message: string, feasible: bool)

  /** `IAndOrGraphGenerator.__checkGeometricalFeasibility`: looks at every rule and always succeeds. */
  function CheckGeometricalFeasibility(rules: map<Label, set<Rule>>, subassembly: seq<Label>): (r: Check)
    ensures r.succeeded && r.message == ""
    ensures r.feasible <==> forall c, rule :: c in rules && rule in rules[c] && rule <= Elements(subassembly) ==> c in subassembly
  {
    var s := Elements(subassembly);
    Check(true, "", forall c | c in rules :: forall rule | rule in rules[c] :: !(rule <= s && c !in subassembly))
  }

  /** A subassembly holding every component with a rule passes the check; in particular the whole assembly does. */
  lemma WholeAssemblyFeasible(components: set<Label>, graphs: seq<ObstructionGraph>, subassembly: seq<Label>)
    requires BlockingRules(components, graphs).Success?
    requires components <= Elements(subassembly)
    ensures CheckGeometricalFeasibility(BlockingRules(components, graphs).value, subassembly).feasible
  {
  }

  // ---------------------------------------------------------------------
  // How the base generator stores its rules.

  /**
    `np.unique(np.array(rules, dtype=object))`: when all rule lists have the
    same length the array is two-dimensional, and `np.unique` flattens it to
    the distinct labels; otherwise it keeps the distinct lists.
   */
  datatype StoredRules = Flattened(labels: set<Label>) | Nested(rules: set<Rule>)

  predicate SameSize(rules: set<Rule>) {
    forall a, b :: a in rules && b in rules ==> |a| == |b|
  }

  function Unique(rules: set<Rule>): (r: StoredRules)
    ensures r.Flattened? <==> SameSize(rules)
    ensures r.Flattened? ==> forall l :: l in r.labels <==> exists rule :: rule in rules && l in rule
    ensures r.Nested? ==> r.rules == rules
  {
    if SameSize(rules) then Flattened(set rule, l | rule in rules && l in rule :: l) else Nested(rules)
  }

  /** `set(l)` of a label string: its characters, each as a one-character label. */
  function Characters(l: Label): (r: set<Label>)
    ensures forall x :: x in r <==> |x| == 1 && x[0] in l
  {
    var r := set i | 0 <= i < |l| :: [l[i]];
    assert forall x :: x in r <==> |x| == 1 && x[0] in l by {
      forall x | |x| == 1 && x[0] in l ensures x in r {
        var i :| 0 <= i < |l| && l[i] == x[0];
        assert x == [l[i]];
      }
    }
    r
  }

  /** The sets `set(rule)` that the check actually compares with the subassembly. */
  function EffectiveRules(stored: StoredRules): set<Rule> {
    match stored
    case Flattened(labels) => set l | l in labels :: Characters(l)
    case Nested(rules) => rules
  }

  /** `__getBlockingRules` as written, seen through `set(rule)`. */
  function BlockingRulesAsWritten(components: set<Label>, graphs: seq<ObstructionGraph>): (r: Result<map<Label, set<Rule>>, string>)
    ensures r.Failure? <==> BlockingRules(components, graphs).Failure?
    ensures r.Success? ==> r.value.Keys == BlockingRules(components, graphs).value.Keys
    ensures r.Success? ==> forall c :: c in r.value ==>
              r.value[c] == EffectiveRules(Unique(BlockingRules(components, graphs).value[c]))
  {
    match BlockingRules(components, graphs)
    case Failure(e) => Failure(e)
    case Success(rules) => Success(map c | c in rules :: EffectiveRules(Unique(rules[c])))
  }

  // ---------------------------------------------------------------------
  // The generator's constraints.

  /** The optional entries of the `constraints` dictionary. */
  datatype Constraints = Constraints(topological: Option<ConnectionGraph>, geometrical: Option<seq<ObstructionGraph>>)

  /** The generator's state after `__init__`. */
  datatype Generator = Generator(components: set<Label>, topo: ConnectionGraph, geom: seq<ObstructionGraph>,
                                 rules: map<Label, set<Rule>>)

  /** The connection graph built when no topological constraint is given: an edge between every two components. */
  function CompleteTopology(components: set<Label>): (g: ConnectionGraph)
    ensures g.Valid()
    ensures forall x, y :: g.Adjacent(x, y) <==> x in components && y in components && x != y
  {
    Build({}, set x, y | x in components && y in components && x != y :: (x, y))
  }

  /** Edges bring their ends along, so a single component gives a graph with no node at all. */
  lemma CompleteTopologyNodes(components: set<Label>)
    ensures CompleteTopology(components).nodes == if |components| >= 2 then components else {}
  {
    var g := CompleteTopology(components);
    forall c | c in g.nodes ensures c in components && |components| >= 2 {
      var e :| e in g.edges && (e.0 == c || e.1 == c);
      assert g.Adjacent(e.0, e.1);
      SubsetCardinality({e.0, e.1}, components);
    }
    if |components| >= 2 {
      forall c | c in components ensures c in g.nodes {
        var d := OtherMember(components, c);
        assert g.Adjacent(c, d);
      }
    }
  }

  lemma OtherMember(s: set<Label>, c: Label) returns (d: Label)
    requires |s| >= 2
    ensures d in s && d != c
  {
    assert |s - {c}| >= 1;
    d :| d in s - {c};
  }

  lemma SubsetCardinality(a: set<Label>, b: set<Label>)
    requires a <= b
    ensures |a| <= |b|
  {
    assert b == a + (b - a);
  }

  function TopologyOf(constraints: Constraints, components: set<Label>): ConnectionGraph {
    if constraints.topological.Some? then constraints.topological.value else CompleteTopology(components)
  }

  function GeometryOf(constraints: Constraints, default: seq<ObstructionGraph>): seq<ObstructionGraph> {
    if constraints.geometrical.Some? then constraints.geometrical.value else default
  }

  /** The obstruction graph list used when none is given: one empty graph. */
  const DefaultGeometrical: seq<ObstructionGraph> := [ObstructionGraph({}, {}, Undef)]

  /**
    `IAndOrGraphGenerator.__init__` as written: without geometrical
    constraints it asks an empty graph for successors, and the rules go
    through `np.unique`.
   */
  function NewGeneratorAsWritten(components: set<Label>, constraints: Constraints): (r: Result<Generator, string>)
    ensures r.Failure? <==> !Present(components, GeometryOf(constraints, DefaultGeometrical))
    ensures r.Success? ==> r.value.components == components
  {
    var topo := TopologyOf(constraints, components);
    var geom := GeometryOf(constraints, DefaultGeometrical);
    if |geom| == 0 then Success(Generator(components, topo, geom, map[]))
    else
      match BlockingRulesAsWritten(components, geom)
      case Failure(e) => Failure(e)
      case Success(rules) => Success(Generator(components, topo, geom, rules))
  }

  /** With no geometrical constraints, the constructor as written fails for any non-empty component set. */
  lemma DefaultGeometricalFails(components: set<Label>, topological: Option<ConnectionGraph>, c: Label)
    requires c in components
    ensures NewGeneratorAsWritten(components, Constraints(topological, None)).Failure?
  {
    assert c !in DefaultGeometrical[0].nodes;
  }

  /**
    `__init__` as intended: a missing geometrical constraint means no
    obstruction information, and rules are kept as sets.
   */
  function NewGenerator(components: set<Label>, constraints: Constraints): (r: Result<Generator, string>)
    ensures r.Failure? <==> !Present(components, GeometryOf(constraints, []))
    ensures r.Success? ==> r.value.components == components && r.value.geom == GeometryOf(constraints, [])
    ensures r.Success? ==> r.value.topo == TopologyOf(constraints, components)
    ensures r.Success? && |r.value.geom| > 0 ==> r.value.rules == BlockingRules(components, r.value.geom).value
    ensures r.Success? && |r.value.geom| == 0 ==> r.value.rules == map[]
  {
    var topo := TopologyOf(constraints, components);
    var geom := GeometryOf(constraints, []);
    if |geom| == 0 then Success(Generator(components, topo, geom, map[]))
    else
      match BlockingRules(components, geom)
      case Failure(e) => Failure(e)
      case Success(rules) => Success(Generator(components, topo, geom, rules))
  }

  /**
    A subassembly is geometrically feasible for the intended generator
    exactly when no component outside it is blocked by it along every
    direction.
   */
  lemma FeasibleIffUnblocked(components: set<Label>, constraints: Constraints, s: set<Label>)
    requires NewGenerator(components, constraints).Success?
    ensures var gen := NewGenerator(components, constraints).value;
            GeometricallyFeasible(gen.rules, s) <==>
            |gen.geom| == 0 ||
            forall c :: c in components && c !in s ==>
              exists i :: 0 <= i < |gen.geom| && forall y :: (c, y) in gen.geom[i].edges ==> y !in s
  {
    var gen := NewGenerator(components, constraints).value;
    if |gen.geom| > 0 {
      RulesFeasibleIffUnblocked(components, gen.geom, s);
    }
  }

  /** The same for the blocking rules of a non-empty list of obstruction graphs. */
  lemma RulesFeasibleIffUnblocked(components: set<Label>, graphs: seq<ObstructionGraph>, s: set<Label>)
    requires BlockingRules(components, graphs).Success?
    ensures GeometricallyFeasible(BlockingRules(components, graphs).value, s) <==>
            forall c :: c in components && c !in s ==>
              exists i :: 0 <= i < |graphs| && forall y :: (c, y) in graphs[i].edges ==> y !in s
  {
    var rules := BlockingRules(components, graphs).value;
    if GeometricallyFeasible(rules, s) {
      forall c | c in components && c !in s
        ensures exists i :: 0 <= i < |graphs| && forall y :: (c, y) in graphs[i].edges ==> y !in s
      {
        RuleInsideIffBlocked(components, graphs, c, s);
      }
    }
    if forall c :: c in components && c !in s ==>
         exists i :: 0 <= i < |graphs| && forall y :: (c, y) in graphs[i].edges ==> y !in s {
      forall c, rule | c in rules && rule in rules[c] && rule <= s ensures c in s {
        RuleInsideIffBlocked(components, graphs, c, s);
      }
    }
  }

  /** The example's only obstruction graph: `AB` is blocked by `CD` along the positive X axis. */
  function ExampleGraph(): ObstructionGraph {
    ObstructionGraph({"AB", "CD"}, {("AB", "CD")}, Along(Cartesian(X, true)))
  }

  lemma ExampleRules()
    ensures var r := BlockingRules({"AB", "CD"}, [ExampleGraph()]);
            r.Success? && r.value.Keys == {"AB"} && r.value["AB"] == {{"CD"}}
  {
    var g := ExampleGraph();
    ExampleSuccessors();
    ChoicesOfOne("CD");
    assert Present({"AB", "CD"}, [g]);
    var r := BlockingRules({"AB", "CD"}, [g]).value;
    assert "CD" !in r by {
      assert SuccOf([g][0], "CD") == {};
    }
    assert "AB" in r by {
      assert forall i :: 0 <= i < 1 ==> SuccOf([g][i], "AB") != {};
    }
  }

  /** In the example graph `AB` has the one successor `CD`, and `CD` has none. */
  lemma ExampleSuccessors()
    ensures SuccOf(ExampleGraph(), "AB") == {"CD"} && SuccOf(ExampleGraph(), "CD") == {}
    ensures SuccessorSets([ExampleGraph()], "AB") == [{"CD"}]
  {
    assert SuccOf(ExampleGraph(), "AB") == {"CD"};
  }

  /** One set holding one label gives one rule: that label alone. */
  lemma ChoicesOfOne(l: Label)
    ensures Choices([{l}]) == {{l}}
  {
    assert Choices([{l}][1..]) == {{}};
    assert {l} == {l} + {};
    assert {l} in Choices([{l}]);
  }

  lemma ExampleRulesAsWritten()
    ensures var r := BlockingRulesAsWritten({"AB", "CD"}, [ExampleGraph()]);
            r.Success? && r.value.Keys == {"AB"} && r.value["AB"] == {{"C", "D"}}
  {
    ExampleRules();
    ExampleEffectiveRules();
  }

  /** `np.unique` flattens the single one-label rule, and `set` then splits the label into characters. */
  lemma ExampleEffectiveRules()
    ensures EffectiveRules(Unique({{"CD"}})) == {{"C", "D"}}
  {
    assert Unique({{"CD"}}) == Flattened({"CD"}) by {
      assert SameSize({{"CD"}});
      var u := Unique({{"CD"}});
      assert u.labels == {"CD"};
    }
    CharactersOfCD();
    var e := EffectiveRules(Flattened({"CD"}));
    assert Characters("CD") in e;
    forall rule | rule in e ensures rule == Characters("CD") {
      var l :| l in {"CD"} && rule == Characters(l);
    }
    assert e == {Characters("CD")};
  }

  lemma CharactersOfCD()
    ensures Characters("CD") == {"C", "D"}
  {
    assert "CD"[0] == 'C' && "CD"[1] == 'D';
    assert "C" in Characters("CD") && "D" in Characters("CD");
    forall x | x in Characters("CD") ensures x == "C" || x == "D" {
      assert x == [x[0]];
    }
  }

  /**
    With `np.unique` flattening, components `AB` and `CD` with `AB` blocked by
    `CD` along the only direction: the subassembly `[CD]` passes the check
    as written, although `AB` cannot leave it, and the intended generator
    rejects it.
   */
  lemma UniqueFlatteningHidesBlocking()
    ensures var c := Constraints(None, Some([ExampleGraph()]));
            && NewGeneratorAsWritten({"AB", "CD"}, c).Success?
            && CheckGeometricalFeasibility(NewGeneratorAsWritten({"AB", "CD"}, c).value.rules, ["CD"]).feasible
            && NewGenerator({"AB", "CD"}, c).Success?
            && !CheckGeometricalFeasibility(NewGenerator({"AB", "CD"}, c).value.rules, ["CD"]).feasible
  {
    ExampleAsWrittenPasses();
    ExampleIntendedRejects();
  }

  lemma ExampleAsWrittenPasses()
    ensures var c := Constraints(None, Some([ExampleGraph()]));
            && NewGeneratorAsWritten({"AB", "CD"}, c).Success?
            && CheckGeometricalFeasibility(NewGeneratorAsWritten({"AB", "CD"}, c).value.rules, ["CD"]).feasible
  {
    ExampleGeneratorAsWritten();
    CharacterRulePasses(NewGeneratorAsWritten({"AB", "CD"}, Constraints(None, Some([ExampleGraph()]))).value.rules);
  }

  /** With only the rule `{C, D}` for `AB`, the subassembly `[CD]` passes the check. */
  lemma CharacterRulePasses(rules: map<Label, set<Rule>>)
    requires rules.Keys == {"AB"} && rules["AB"] == {{"C", "D"}}
    ensures CheckGeometricalFeasibility(rules, ["CD"]).feasible
  {
    assert Elements(["CD"]) == {"CD"};
    NoCharacterRuleInside(rules);
  }

  /** The as-written generator of the example stores the rule `{C, D}` for `AB` only. */
  lemma ExampleGeneratorAsWritten()
    ensures var r := NewGeneratorAsWritten({"AB", "CD"}, Constraints(None, Some([ExampleGraph()])));
            r.Success? && r.value.rules.Keys == {"AB"} && r.value.rules["AB"] == {{"C", "D"}}
  {
    ExampleRulesAsWritten();
    var r := NewGeneratorAsWritten({"AB", "CD"}, Constraints(None, Some([ExampleGraph()])));
    assert r.value.rules == BlockingRulesAsWritten({"AB", "CD"}, [ExampleGraph()]).value;
  }

  /** The one-character rule `{C, D}` does not lie inside `{CD}`. */
  lemma NoCharacterRuleInside(rules: map<Label, set<Rule>>)
    requires rules.Keys == {"AB"} && rules["AB"] == {{"C", "D"}}
    ensures forall c, rule :: c in rules && rule in rules[c] ==> !(rule <= {"CD"})
  {
    forall c, rule | c in rules && rule in rules[c] ensures !(rule <= {"CD"}) {
      assert c == "AB";
      assert rule == {"C", "D"};
      assert "C" in rule && "C" != "CD";
    }
  }

  lemma ExampleIntendedRejects()
    ensures var c := Constraints(None, Some([ExampleGraph()]));
            && NewGenerator({"AB", "CD"}, c).Success?
            && !CheckGeometricalFeasibility(NewGenerator({"AB", "CD"}, c).value.rules, ["CD"]).feasible
  {
    ExampleGenerator();
    BlockingRuleRejects(NewGenerator({"AB", "CD"}, Constraints(None, Some([ExampleGraph()]))).value.rules);
  }

  /** The intended generator of the example stores the rule `{CD}` for `AB` only. */
  lemma ExampleGenerator()
    ensures var r := NewGenerator({"AB", "CD"}, Constraints(None, Some([ExampleGraph()])));
            r.Success? && r.value.rules.Keys == {"AB"} && r.value.rules["AB"] == {{"CD"}}
  {
    ExampleRules();
    var c := Constraints(None, Some([ExampleGraph()]));
    assert GeometryOf(c, []) == [ExampleGraph()];
  }

  /** With the rule `{CD}` for `AB`, the subassembly `[CD]` fails the check. */
  lemma BlockingRuleRejects(rules: map<Label, set<Rule>>)
    requires rules.Keys == {"AB"} && rules["AB"] == {{"CD"}}
    ensures !CheckGeometricalFeasibility(rules, ["CD"]).feasible
  {
    assert Elements(["CD"]) == {"CD"};
    assert {"CD"} in rules["AB"] && {"CD"} <= Elements(["CD"]) && "AB" !in ["CD"];
  }

  // ---------------------------------------------------------------------
  // The workbench's early-returning check.

  /**
    `AndOrGraph.__check_geometrical_feasibility` over the constraint
    dictionary's items flattened to `(target, rule)` pairs in iteration
    order: an empty rule answers "feasible" at once, a rule inside the
    subassembly whose target is outside answers "infeasible".
   */
  function ScanFeasible(items: seq<(Label, Rule)>, s: set<Label>): (r: bool)
    ensures r <==> forall k :: 0 <= k < |items| && items[k].0 !in s && items[k].1 <= s ==>
                     exists m :: 0 <= m <= k && items[m].1 == {}
  {
    if |items| == 0 then true
    else if items[0].1 == {} then true
    else if items[0].0 !in s && items[0].1 <= s then false
    else
      var rest := ScanFeasible(items[1..], s);
      assert rest <==> forall k :: 1 <= k < |items| && items[k].0 !in s && items[k].1 <= s ==>
                         exists m :: 0 <= m <= k && items[m].1 == {} by {
        forall k | 1 <= k < |items| && items[k].0 !in s && items[k].1 <= s
          ensures (exists m :: 0 <= m <= k && items[m].1 == {}) <==> (exists m :: 0 <= m <= k - 1 && items[1..][m].1 == {}) {
          if exists m :: 0 <= m <= k && items[m].1 == {} {
            var m :| 0 <= m <= k && items[m].1 == {};
            assert items[1..][m - 1] == items[m];
          }
        }
      }
      rest
  }

  /** `items` lists exactly the rules of `rules`, in some order. */
  predicate Lists(rules: map<Label, set<Rule>>, items: seq<(Label, Rule)>) {
    && (forall k :: 0 <= k < |items| ==> items[k].0 in rules && items[k].1 in rules[items[k].0])
    && (forall c, rule :: c in rules && rule in rules[c] ==> (c, rule) in items)
  }

  /**
    The workbench builds its constraints like `BlockingRules`. Without
    obstruction graphs every rule is empty and everything is feasible; with
    some, no rule is empty. So the early return never decides, and the
    scan agrees with the order-free check whatever the dictionary order.
   */
  lemma ScanOrderFree(nodes: set<Label>, graphs: seq<ObstructionGraph>, items: seq<(Label, Rule)>, s: set<Label>)
    requires BlockingRules(nodes, graphs).Success?
    requires Lists(BlockingRules(nodes, graphs).value, items)
    ensures ScanFeasible(items, s) <==> |graphs| == 0 || GeometricallyFeasible(BlockingRules(nodes, graphs).value, s)
  {
    var rules := BlockingRules(nodes, graphs).value;
    if |graphs| == 0 {
      forall k | 0 <= k < |items| ensures items[k].1 == {} {
        assert SuccessorSets(graphs, items[k].0) == [];
      }
    } else {
      forall k | 0 <= k < |items| ensures items[k].1 != {} {
        assert items[k].1 in Choices(SuccessorSets(graphs, items[k].0));
      }
      if !GeometricallyFeasible(rules, s) {
        var c, rule :| c in rules && rule in rules[c] && rule <= s && c !in s;
        var k :| 0 <= k < |items| && items[k] == (c, rule);
      }
    }
  }

  // ---------------------------------------------------------------------
  // The topological check.

  /** Why the topological check could not decide. */
  datatype TopoError = Excess(labels: set<Label>) | PointlessConcept

  /**
    `IAndOrGraphGenerator.__checkTopologicalFeasibility`: labels outside the
    connection graph are reported; `nx.is_connected` raises on the empty
    subgraph; otherwise the verdict is whether the induced subgraph is
    connected.
   */
  function CheckTopologicalFeasibility(topo: ConnectionGraph, subassembly: seq<Label>): (r: Result<bool, TopoError>)
    ensures (r.Failure? && r.error.Excess?) <==> !(Elements(subassembly) <= topo.nodes)
    ensures r.Failure? && r.error.Excess? ==> r.error.labels == Elements(subassembly) - topo.nodes
    ensures r == Failure(PointlessConcept) <==> |subassembly| == 0
    ensures r.Success? ==> (r.value <==> !Splits(topo, Elements(subassembly)))
  {
    var excess := Elements(subassembly) - topo.nodes;
    assert excess == {} <==> Elements(subassembly) <= topo.nodes by {
      if excess == {} {
        forall x | x in Elements(subassembly) ensures x in topo.nodes {
          assert x !in excess;
        }
      }
    }
    if excess != {} then Failure(Excess(excess))
    else if |subassembly| == 0 then Failure(PointlessConcept)
    else
      ConnectedIffNoSplit(topo, subassembly);
      Success(IsConnected(topo, subassembly))
  }
}
