# FreeCAD-APLAN assembly-planning core, modelled in Dafny

FreeCAD-APLAN plans how an assembly of CAD parts can be put together. Its
core does four things:

- It finds which parts touch. This gives the *connection graph*.
- It finds which parts block which others when one is moved along a
  Cartesian direction. This gives one *obstruction graph* per direction.
- It derives *blocking rules* from the obstruction graphs.
- It enumerates the feasible subassemblies and the ways to split each one
  into two. This gives the *AND/OR graph* of assembly sequences.

The project models these pieces as pure functions over immutable data and
proves what they compute.

| module | file | what it models |
|---|---|---|
| `Wrappers` | wrappers.dfy | `Option` and `Result`, for the source's exceptions and early returns |
| `Sorting` | sorting.dfy | `sorted(set(xs))` under a strict total order |
| `Labels` | labels.dfy | labels as strings, Python's string order, sorted label pairs |
| `Subassemblies` | subassembly.dfy | the workbench's `Subassembly`: a sorted, duplicate-free component list |
| `Directions` | directions.dfy | the six Cartesian motion directions and their integer codes, `UNDEF`, the solver's non-redundant directions |
| `Multiproc` | multiproc.dfy | the multi-process obstruction detector's `main`: method-name lookup, which directions are solved, how opposite directions are filled in |
| `Boxes` | boxes.dfy | axis-aligned bounding boxes: intersection, union, overall box |
| `Refinement` | refinement.dfy | `OCCTSolver`: component table, `refine`, `stop`, and the bounding-box search for potential obstacles |
| `VirtualMotion` | motion.dfy | the workbench's `Assembly.get_obstructions`: stepping each part through its travel and recording collisions |
| `Connections` | connections.dfy | `Assembly.get_connections` |
| `Graphs` | graphs.dfy | connection and obstruction graphs as sets, `reverse`, `successors`, `neighbors`, connectivity |
| `Rules` | rules.dfy | blocking rules, the generators' constructor, and the geometric and topological feasibility checks |
| `AndOr` | andor.dfy | the level-by-level subassembly growth and AND-edge generation of both AND/OR generators |
| `Records` | records.dfy | the `{nodes, links}` record that both graph classes export and read back |
| `FilePaths` | filepaths.dfy | the C++ helpers `splitFilePath` and `mergeIntoFilePath` |

Modelling choices:

- Geometry is reduced to bounding boxes with real coordinates.
- The operations the model cannot see become function parameters:
  - the shape collision test (`Collides`);
  - the shape distance (`Distance`);
  - the per-direction solver process (`solve`).
- Part placement is a number per part and axis, and the model shows that it is restored.
- A subassembly is identified by its member set. This is the canonical form of
  the sorted, duplicate-free lists the source uses.
- Python's per-level lists become sets:
  - the source removes duplicates within each level;
  - for disjoint duplicate-free parts, "the sorted concatenation equals the parent" means "the union is the parent".
- Integer overflow does not arise; the only integers are the direction codes -3 to 3.

Where the code does something other than what it evidently intends, the
model gives both behaviours and proves the difference. Where the quirk
sits inside a larger operation, that operation is modelled both ways too:
`Refinement.RefineAsWritten` is `refine` as the code runs, beside the
intended `Refinement.Refine`. Examples:
- the `None_` refinement pairs only the first other component with the target's travel;
- sorting potential obstacles by their overlap raises when two of them tie;
- the reverse-cutset generator raises on its own feasibility call.

These and three more are listed under "## Findings".

## Model

| member | source | states |
|---|---|---|
| Directions.FromValue | freecad/aplan_workbench/graphs.py:77-84 | a code names a direction exactly when it is one of ±1, ±2, ±3, and the named direction has that code |
| Directions.FromValueOfValue | freecad/aplan_workbench/graphs.py:77-84 | decoding a direction's code gives the direction back |
| Directions.NameInjective | aplansolvers/aplan_obstruction_detectors/occt.py:517 | different directions have different names, so the result keys by name never collide |
| Directions.NonRedundantDirections | aplansolvers/aplan_obstruction_detectors/occt.py:500-501 | the solver keeps exactly the positive direction of every axis that some requested direction lies on |
| Directions.NonRedundantMergesOpposites | aplansolvers/aplan_obstruction_detectors/occt.py:500-501 | also requesting a requested direction's opposite changes nothing |
| Directions.NegatedTwice | freecad/aplan_workbench/graphs.py:54 | negating a motion direction twice gives it back, `UNDEF` included |
| Multiproc.LookupRefinement | aplansolvers/aplan_obstruction_detectors/occt_multiproc.py:92-97 | a refinement method is found exactly by its name; an unknown name finds none |
| Multiproc.LookupSolver | aplansolvers/aplan_obstruction_detectors/occt_multiproc.py:100-104 | a solver method is found exactly by its name; an unknown name finds none |
| Multiproc.SolvedDirections | aplansolvers/aplan_obstruction_detectors/occt_multiproc.py:82-89 | a requested direction is solved by a process exactly when it is positive or its opposite was not requested |
| Multiproc.ReversePairsInvolution | aplansolvers/aplan_obstruction_detectors/occt_multiproc.py:126 | swapping every constraint pair twice gives the pairs back |
| Multiproc.Collect | aplansolvers/aplan_obstruction_detectors/occt_multiproc.py:78-128 | an early return iff a method name is unknown; otherwise `ValueError` iff no direction is requested (a pool with no worker); otherwise one entry per requested code, the solved directions hold their process output, and every other direction holds its opposite's pairs swapped, with time 0 |
| Multiproc.DerivedIsSwappedSolve | aplansolvers/aplan_obstruction_detectors/occt_multiproc.py:123-126 | when both directions of an axis are requested, the negative one's pairs are the positive one's pairs reversed |
| Boxes.Intersected | freecad/aplan_workbench/assembly.py:115 | the intersection box takes the larger minimum and the smaller maximum on every axis |
| Boxes.OverallBox | aplansolvers/aplan_obstruction_detectors/occt.py:507-509 | the overall box exists iff there is a component; it contains every component's box, and each of its minima and maxima is some component's minimum or maximum |
| Labels.SortLabels | freecad/aplan_workbench/graphs.py:89 | `sorted(list(set(xs)))` is strictly increasing and holds exactly the labels of `xs` |
| Labels.SortedPair | freecad/aplan_workbench/assembly.py:22 | a connection is stored as the two labels in non-decreasing order |
| Labels.SortedPairSymmetric | freecad/aplan_workbench/assembly.py:22 | the stored connection does not depend on the order the two parts are met |
| Labels.LexLessIsStrictTotalOrder | freecad/aplan_workbench/graphs.py:89 | the string order used for sorting is a strict total order |
| Subassemblies.NewSubassembly | freecad/aplan_workbench/graphs.py:88-89 | a new subassembly is sorted without duplicates and holds exactly the given components |
| Subassemblies.EqualIffSameMembers | freecad/aplan_workbench/graphs.py:102-109 | two subassemblies are equal iff they hold the same components |
| Subassemblies.NewSubassemblyCanonical | freecad/aplan_workbench/graphs.py:88-109 | building from two lists gives equal subassemblies iff the lists hold the same components |
| Subassemblies.Subassembly.AddComponent | freecad/aplan_workbench/graphs.py:94-97 | adding keeps the list sorted and duplicate-free, adds exactly the component, and leaves a present component's subassembly unchanged |
| Subassemblies.Subassembly.RemoveComponent | freecad/aplan_workbench/graphs.py:99-100 | removing fails with `ValueError` iff the component is absent; otherwise the list stays sorted and loses exactly that component |
| Subassemblies.RemoveAtKeepsOrder | freecad/aplan_workbench/graphs.py:99-100 | deleting one entry of a strictly increasing list keeps it strictly increasing and removes exactly that label |
| Subassemblies.AddComponentIdempotent | freecad/aplan_workbench/graphs.py:94-97 | adding the same component twice is adding it once |
| Subassemblies.AddComponentIsConstruction | freecad/aplan_workbench/graphs.py:88-97 | adding a component gives the subassembly built from the extended list |
| Graphs.Build | freecad/aplan_workbench/assembly.py:24-26 | a graph built from nodes and edges has those edges, and as nodes the given nodes plus every edge end |
| Graphs.Reverse | freecad/aplan_workbench/graphs.py:53-58 | the reversed obstruction graph has the same nodes, every edge turned round, and the negated direction |
| Graphs.ReverseTwice | freecad/aplan_workbench/graphs.py:53-58 | reversing twice gives the graph back |
| Graphs.Successors | aplansolvers/aplan_aog_generators/base_aog_generator.py:100 | `successors` raises iff the component is not a node; otherwise it gives exactly the components the component points to |
| Graphs.Neighbors | aplansolvers/aplan_aog_generators/reverse_cutset.py:51 | `neighbors` raises iff the component is not a node; otherwise it gives exactly the adjacent components |
| Graphs.ReachLeast | aplansolvers/aplan_aog_generators/base_aog_generator.py:82 | the components reached from a start set lie within every set that contains the start and is closed under adjacency |
| Graphs.ConnectedIffNoSplit | aplansolvers/aplan_aog_generators/base_aog_generator.py:82 | the connectivity search says connected iff the subassembly cannot be split into two non-empty parts with no edge between them |
| Connections.Swollen | freecad/aplan_workbench/assembly.py:18 | the swollen box grows by half the swell distance on every side |
| Connections.CandidateSymmetric | freecad/aplan_workbench/assembly.py:18-20 | the swollen-box test gives the same verdict for either order of the two parts |
| Connections.CandidateMonotone | freecad/aplan_workbench/assembly.py:18-20 | with no swell the test is plain box intersection, and a larger swell keeps every candidate |
| Connections.Connections | freecad/aplan_workbench/assembly.py:20-22 | a pair is a connection iff two distinct parts pass the swollen-box test and are closer than 0.01, stored in label order |
| Connections.GetConnections | freecad/aplan_workbench/assembly.py:17-29 | the connection graph has every part label as a node and exactly the connections as edges |
| Connections.ConnectedEitherOrder | freecad/aplan_workbench/assembly.py:20-26 | two touching parts are adjacent in the connection graph whichever of them comes first |
| Connections.AdjacentOnlyIfConnected | freecad/aplan_workbench/assembly.py:20-26 | every adjacency comes from a pair of parts that passed both tests |
| Refinement.ComponentTable | aplansolvers/aplan_obstruction_detectors/occt.py:503-504 | the table keyed by label holds every label once, with the last component that carries it |
| Refinement.NewSolver | aplansolvers/aplan_obstruction_detectors/occt.py:497-501 | a new solver is running, holds the component table, and keeps one positive direction per requested axis |
| Refinement.SetComponents | aplansolvers/aplan_obstruction_detectors/occt.py:503-504 | replacing the components rebuilds the table and changes nothing else |
| Refinement.Elongated | aplansolvers/aplan_obstruction_detectors/occt.py:545-559 | the elongated box is the target's box stretched along the motion axis to the far side of the overall box |
| Refinement.ThickOverlapIntersects | aplansolvers/aplan_obstruction_detectors/occt.py:566-568 | an overlap thicker than 0.01 on every axis implies that the boxes intersect |
| Refinement.PotentialObstacles | aplansolvers/aplan_obstruction_detectors/occt.py:563-569 | a component is kept iff it intersects the elongated box with an overlap thicker than 0.01 on every axis |
| Refinement.ShiftedIntervalBounds | aplansolvers/aplan_obstruction_detectors/occt.py:587-588 | an obstacle's travel stretch starts no earlier than the target and no later than the overlap, and ends where the overlap ends |
| Refinement.Boundaries | aplansolvers/aplan_obstruction_detectors/occt.py:589 | the boundaries are strictly increasing and are exactly the stretches' end points |
| Refinement.Consecutive | aplansolvers/aplan_obstruction_detectors/occt.py:590 | the pieces are the intervals between consecutive boundaries |
| Refinement.OverlappingObstacles | aplansolvers/aplan_obstruction_detectors/occt.py:593-595 | a piece lists exactly the obstacles whose stretch strictly overlaps it |
| Refinement.DropEmpty | aplansolvers/aplan_obstruction_detectors/occt.py:596-597 | exactly the pieces with an obstacle are kept, in order |
| Refinement.FindPotentialObstacles | aplansolvers/aplan_obstruction_detectors/occt.py:540-599 | the search as intended: the pieces are ascending and non-overlapping, each non-empty and with an obstacle, and there are none when nothing is a potential obstacle |
| Refinement.OverlapOn | aplansolvers/aplan_obstruction_detectors/occt.py:567-575 | a potential obstacle's overlap on the motion axis is non-empty and ends where its travel stretch ends |
| Refinement.FindPotentialObstaclesAsWritten | aplansolvers/aplan_obstruction_detectors/occt.py:584 | the search as written raises `TypeError` iff two potential obstacles share their overlap on the motion axis, which needs two other components; otherwise it gives the intended pieces |
| Refinement.TiedObstaclesRaise | aplansolvers/aplan_obstruction_detectors/occt.py:584 | whenever two potential obstacles tie, the search as written raises while the intended one lists both in one piece |
| Refinement.SideBySideTied | aplansolvers/aplan_obstruction_detectors/occt.py:584 | example: two equal parts side by side in front of the target are potential obstacles with the same overlap `[2, 3]` |
| Refinement.PieceObstacles | aplansolvers/aplan_obstruction_detectors/occt.py:577-597 | a piece lists a label iff it is a potential obstacle whose stretch strictly overlaps the piece |
| Refinement.PieceWithinStretch | aplansolvers/aplan_obstruction_detectors/occt.py:589-595 | a listed obstacle's stretch covers the whole piece |
| Refinement.StretchCovered | aplansolvers/aplan_obstruction_detectors/occt.py:577-599 | every point of a potential obstacle's stretch lies in a result piece that lists it |
| Refinement.NoPiecesIffNoObstacle | aplansolvers/aplan_obstruction_detectors/occt.py:563-599 | there are no pieces iff no other component is a potential obstacle |
| Refinement.Others | aplansolvers/aplan_obstruction_detectors/occt.py:521 | the other components are exactly the table entries with a different label |
| Refinement.WholeTravelAsWritten | aplansolvers/aplan_obstruction_detectors/occt.py:521-534 | the `None_` entry as written holds at most one pair, naming only the first other component |
| Refinement.WholeTravelDropsObstacles | aplansolvers/aplan_obstruction_detectors/occt.py:534 | example: with two other components, the second is missing from the as-written entry |
| Refinement.WholeTravel | aplansolvers/aplan_obstruction_detectors/occt.py:521-529 | the intended `None_` entry pairs every other component with the target's whole travel, from its start to the overall box's far side |
| Refinement.EntryListsOnlyOthers | aplansolvers/aplan_obstruction_detectors/occt.py:518-534 | an entry never names the target itself, only other components of the table |
| Refinement.Refine | aplansolvers/aplan_obstruction_detectors/occt.py:506-535 | `refine` as intended: a stopped solver returns `{}`; otherwise there is one entry per solver direction, each keyed by every component label |
| Refinement.RefineAsWritten | aplansolvers/aplan_obstruction_detectors/occt.py:506-535 | `refine` as written: `{}` once stopped; `TypeError` iff bounding-box refinement meets two potential obstacles of one component with the same overlap in some solved direction; otherwise one entry per solver direction, each keyed by every component label |
| Refinement.EntryAsWrittenAgrees | aplansolvers/aplan_obstruction_detectors/occt.py:518-534 | one target's entry as written equals the intended one iff the method is bounding-box refinement or there is at most one other component |
| Refinement.RefineAsWrittenAgrees | aplansolvers/aplan_obstruction_detectors/occt.py:518-534 | where `refine` as written returns, a component's entry equals the intended one iff the method is bounding-box refinement or the component has at most one other component beside it |
| Refinement.Stop | aplansolvers/aplan_obstruction_detectors/occt.py:537-538 | after `stop` the solver is not running, and every later `refine` returns `{}` |
| Refinement.RefineAt | aplansolvers/aplan_obstruction_detectors/occt.py:506-534 | each direction's entry of the intended `refine` is computed against the overall box of all components |
| Refinement.RefineNeverListsTarget | aplansolvers/aplan_obstruction_detectors/occt.py:518-534 | no component is ever listed as its own potential obstacle |
| Refinement.RefineBoundBoxObstacles | aplansolvers/aplan_obstruction_detectors/occt.py:530-534 | with bounding-box refinement a piece lists exactly the other components that may be hit in it |
| VirtualMotion.StepSize | freecad/aplan_workbench/assembly.py:55 | the step is the larger of a tenth of the piece and the minimum step size |
| VirtualMotion.PositionMonotone | freecad/aplan_workbench/assembly.py:66-80 | with a positive step, positions after more steps are strictly further along |
| VirtualMotion.AtMostTenSteps | freecad/aplan_workbench/assembly.py:55-67 | in a non-empty piece the target is still inside after fewer than ten steps, so the walk ends |
| VirtualMotion.NotIn | freecad/aplan_workbench/assembly.py:72 | the candidates still tested are exactly those not colliding yet |
| VirtualMotion.DetectCollisions | freecad/aplan_workbench/assembly.py:149-161 | collisions only grow: the old list is a prefix, and the new entries are exactly the tested obstacles that collide |
| VirtualMotion.PieceDone | freecad/aplan_workbench/assembly.py:67-69 | stopping early because every candidate already collides loses no collision of the piece |
| VirtualMotion.WalkPiece | freecad/aplan_workbench/assembly.py:57-80 | after a piece, the colliding list is the previous one followed by exactly the candidates hit at some step of the piece, without duplicates |
| VirtualMotion.SolveTarget | freecad/aplan_workbench/assembly.py:43-82 | a component collides iff it is hit in some piece of the target's travel; no component is listed twice; the target's placement is restored |
| VirtualMotion.OthersAt | freecad/aplan_workbench/assembly.py:44 | the obstacles tested are all parts except the target |
| VirtualMotion.BlockerIsPart | freecad/aplan_workbench/assembly.py:86 | every recorded blocker is one of the assembly's parts |
| VirtualMotion.TargetEdges | freecad/aplan_workbench/assembly.py:41-86 | the edges added for a target are exactly target → blocker, and the placement is restored |
| VirtualMotion.ObstructionEdges | freecad/aplan_workbench/assembly.py:40-88 | one direction's edges are exactly part → blocker over all parts, and every placement is restored |
| VirtualMotion.DirectionGraph | freecad/aplan_workbench/assembly.py:37-95 | one direction's graph as intended: all part labels, and for a positive direction exactly the blocking edges, whatever the overlaps |
| VirtualMotion.GetObstructions | freecad/aplan_workbench/assembly.py:32-98 | fails iff a direction is not a positive axis and there are two or more parts, or along some requested positive direction a part has two potential obstacles with the same overlap (`find_obstacles` then raises `TypeError` at assembly.py:135); otherwise one graph per requested direction over all part labels with exactly the blocking edges |
| Rules.Choices | aplansolvers/aplan_aog_generators/base_aog_generator.py:100 | the product of successor sets gives non-empty rules, and the product of no sets gives one empty rule |
| Rules.ChoicesInside | aplansolvers/aplan_aog_generators/base_aog_generator.py:91-100 | some rule lies inside a set iff every successor set meets it |
| Rules.ChoicesEmpty | aplansolvers/aplan_aog_generators/base_aog_generator.py:101 | the product is empty iff some successor set is empty |
| Rules.BlockingRules | aplansolvers/aplan_aog_generators/base_aog_generator.py:99-101 | fails iff a component is missing from a graph; otherwise exactly the components with a successor in every graph get rules, namely the choices of one successor per graph |
| Rules.RuleInsideIffBlocked | aplansolvers/aplan_aog_generators/base_aog_generator.py:91-101 | a component has a rule inside a set iff every graph has a successor of it in that set |
| Rules.CheckGeometricalFeasibility | aplansolvers/aplan_aog_generators/base_aog_generator.py:86-97 | the check always succeeds with no message, and it says feasible iff no rule inside the subassembly belongs to a component outside it |
| Rules.WholeAssemblyFeasible | aplansolvers/aplan_aog_generators/base_aog_generator.py:86-97 | a subassembly holding every component is feasible |
| Rules.Unique | aplansolvers/aplan_aog_generators/base_aog_generator.py:101 | `np.unique` flattens the rules to their labels iff all rules have the same size, and otherwise keeps them |
| Rules.Characters | aplansolvers/aplan_aog_generators/base_aog_generator.py:93 | `set` of a label gives its characters |
| Rules.BlockingRulesAsWritten | aplansolvers/aplan_aog_generators/base_aog_generator.py:99-101 | the stored rules fail and are keyed as the intended ones, but hold what `np.unique` and then `set` make of them |
| Rules.UniqueFlatteningHidesBlocking | aplansolvers/aplan_aog_generators/base_aog_generator.py:93-101 | with `AB` blocked by `CD`, the stored rules pass `[CD]`, which the intended rules reject |
| Rules.CompleteTopology | aplansolvers/aplan_aog_generators/base_aog_generator.py:56-63 | the default connection graph joins every two distinct components |
| Rules.CompleteTopologyNodes | aplansolvers/aplan_aog_generators/base_aog_generator.py:56-63 | the default graph's nodes are the components when there are two or more, and there are none otherwise, because nodes come only from edges |
| Rules.NewGeneratorAsWritten | aplansolvers/aplan_aog_generators/base_aog_generator.py:51-69 | the constructor as written fails iff some component is missing from the obstruction graphs, the default one empty graph included |
| Rules.DefaultGeometricalFails | aplansolvers/aplan_aog_generators/base_aog_generator.py:65-69 | without geometrical constraints the constructor as written fails for any component |
| Rules.NewGenerator | aplansolvers/aplan_aog_generators/base_aog_generator.py:51-69 | the intended constructor keeps the given or complete topology; it has no rules without obstruction graphs, and otherwise fails or builds the rules as sets |
| Rules.FeasibleIffUnblocked | aplansolvers/aplan_aog_generators/base_aog_generator.py:86-101 | a subassembly is feasible iff no component outside it is blocked by it along every direction |
| Rules.ScanFeasible | freecad/aplan_workbench/graphs.py:182-189 | the scan rejects iff some rule inside the subassembly whose target is outside comes before any empty rule |
| Rules.ScanOrderFree | freecad/aplan_workbench/graphs.py:164-189 | for the workbench's rules, the scan's verdict does not depend on the order: everything is feasible without obstruction graphs, and otherwise it is the order-free check |
| Rules.CheckTopologicalFeasibility | aplansolvers/aplan_aog_generators/base_aog_generator.py:71-84 | reports exactly the labels missing from the connection graph, raises on an empty subassembly, and otherwise says feasible iff the induced subgraph is connected |
| AndOr.Adjoining | freecad/aplan_workbench/graphs.py:157-162 | the adjoining components are exactly the neighbours of members that are not members |
| AndOr.Pairs | freecad/aplan_workbench/graphs.py:129 | level 2 holds exactly the feasible connections as two-member sets |
| AndOr.Grow | freecad/aplan_workbench/graphs.py:134-140 | a growth step gives exactly the feasible extensions of a subassembly by one adjoining component |
| AndOr.FixedLevels | freecad/aplan_workbench/graphs.py:127-130 | level 1 holds the singletons, level 2 the feasible connections, unless the assembly has two parts, and level `n` the whole assembly |
| AndOr.LevelCases | freecad/aplan_workbench/graphs.py:127-140 | levels 3 to `n - 1` are grown from the level below, and no size outside 1 to `n` is listed |
| AndOr.LevelSizes | freecad/aplan_workbench/graphs.py:127-140 | without self-loops, every subassembly listed at level `L` has exactly `L` members |
| AndOr.AdjoiningKeepsConnected | freecad/aplan_workbench/graphs.py:137-138 | adding an adjoining component to a connected subassembly keeps it connected |
| AndOr.GrownConnectedAndFeasible | freecad/aplan_workbench/graphs.py:127-140 | every subassembly below the whole assembly is connected, and from level 2 up it is feasible |
| AndOr.Parts | aplansolvers/aplan_aog_generators/reverse_cutset.py:60 | the subassembly list holds exactly the subassemblies listed at some level |
| AndOr.TripletEdges | freecad/aplan_workbench/graphs.py:143-151 | an edge splits a listed subassembly of size `L >= 3` into two disjoint listed parts, the first of size at least `ceil(L / 2)` |
| AndOr.PairEdges | freecad/aplan_workbench/graphs.py:154-155 | every listed two-component subassembly has an edge to its two singletons |
| AndOr.TripletIsSplit | freecad/aplan_workbench/graphs.py:198-201 | a triplet edge splits its parent into two disjoint non-empty children, the larger first |
| AndOr.PairIsSplit | freecad/aplan_workbench/graphs.py:154-155 | a pair edge splits its parent into its two components |
| AndOr.EdgesAreSplits | aplansolvers/aplan_aog_generators/reverse_cutset.py:62-68 | without self-loops, every generated edge is a valid split of its parent into two children |
| AndOr.EdgeNodes | freecad/aplan_workbench/graphs.py:116-117 | the hypergraph's nodes are exactly the parents and children of its edges |
| AndOr.WorkbenchGenerate | freecad/aplan_workbench/graphs.py:123-155 | fails iff a component is missing from an obstruction graph; otherwise the edges are the triplet and pair edges under the workbench's feasibility check, and the nodes are their ends |
| AndOr.WorkbenchPairEdges | freecad/aplan_workbench/graphs.py:129-155 | every feasible connection gets an edge to its two singletons, unless the assembly has exactly two parts |
| AndOr.WorkbenchNodesListed | freecad/aplan_workbench/graphs.py:116-155 | every node of the workbench's graph is a listed subassembly |
| AndOr.ReverseCutsetGenerate | aplansolvers/aplan_aog_generators/reverse_cutset.py:46-84 | the intended generator fails iff a component is not in the connection graph or growth meets a label that is not a component; otherwise its nodes are the listed subassemblies and its edges the triplet and pair edges |
| AndOr.ReverseCutsetGenerateAsWritten | aplansolvers/aplan_aog_generators/reverse_cutset.py:50 | the generator as written raises whenever the connection graph has an edge, and otherwise agrees with the intended one, built on the model's own hypergraph types |
| AndOr.DefaultTopologyFails | aplansolvers/aplan_aog_generators/reverse_cutset.py:50 | with the default complete connection graph and two or more components, the generator as written always raises |
| AndOr.ReverseCutsetEdgesClosed | aplansolvers/aplan_aog_generators/reverse_cutset.py:72-82 | every edge's parent and children are nodes of the generated graph |
| Records.Export | aplanobjects/graphs.py:45-50 | the export lists every node once, and one link per edge naming exactly that edge's ends |
| Records.LinkEdges | aplanobjects/graphs.py:73-74 | reading the links fails iff some link lacks `source` or `target`; otherwise it gives one edge per link, in order |
| Records.RecordEdges | aplanobjects/graphs.py:73-76 | a readable record gives exactly the edges its links name |
| Records.CreateConnectionGraph | aplanobjects/graphs.py:71-80 | an unreadable record leaves the graph as it was; otherwise the graph holds exactly the listed edges and their ends |
| Records.CreateObstructionGraph | aplanobjects/graphs.py:113-122 | the same for obstruction graphs, each link read as the edge from `source` to `target` |
| Records.RecordEdgesOfListing | aplanobjects/graphs.py:48-50 | a record written from an edge listing is readable and gives exactly those edges |
| Records.ObstructionRoundTrip | aplanobjects/graphs.py:87-122 | reading back an exported obstruction graph restores its edges; the only nodes lost are those no edge touches |
| Records.ConnectionRoundTrip | aplanobjects/graphs.py:45-80 | reading back an exported connection graph restores its adjacency; the only nodes lost are those no edge touches |
| FilePaths.FieldsNoSlash | App/AplanTools.cpp:39-42 | `getline` cuts at every `/`, so no field holds one |
| FilePaths.JoinFields | App/AplanTools.cpp:39-42 | the fields joined with `/` give the string back |
| FilePaths.GetlinePieces | App/AplanTools.cpp:36-42 | `getline` gives no piece iff the string is empty, gives every field when there is no trailing `/`, and otherwise every field but the last, empty one |
| FilePaths.Split | App/AplanTools.cpp:34-48 | splitting fails iff the path is empty; otherwise it gives the `getline` pieces, less one leading empty piece |
| FilePaths.MergeIsJoin | App/AplanTools.cpp:50-64 | merging with `/` is joining behind a leading `/` |
| FilePaths.MergeSplit | App/AplanTools.cpp:34-64 | on Linux, merging gives back a split path that starts with `/` and does not end with one |
| FilePaths.TrailingSlashIgnored | App/AplanTools.cpp:39-42 | a trailing `/` does not change the split |
| FilePaths.LeadingEmptyRemovedOnce | App/AplanTools.cpp:43-46 | example: only the first empty piece is erased: `//a` splits into an empty piece and `a` |
| FilePaths.WindowsMergeDiffers | App/AplanTools.cpp:52-57 | example: with the Windows delimiter, merging the split `/a` gives `\a` |

## Left out

- The geometry kernel: shape distance, point classification and box intersection are oracles or real arithmetic on bounding boxes. Floating-point rounding is not modelled.
- `VirtualMotion.SolveTarget`: the oracle `Collides` is a pure function of the target's position. After `k` steps the model places the target's box start at `lo + k * step`. The source re-reads the moved shape's bounding box, which can differ by floating-point drift.
- `OCCTSolver.solve` is called by the per-direction process and is not part of this model; `Multiproc.Collect` takes its result as the parameter `solve`. The process pool, argument parsing with `eval`, JSON configuration and printing are left out.
- `Refinement.Refine`: the source checks `_isRunning` between steps, so a `stop` from another thread can cut a call short. The model has no concurrency: it checks the flag once, at the start of the call. The same holds for `Refinement.RefineAsWritten`.
- The UI: task panels, view providers, commands, the web app and the `save`/`load` plotting helpers of the workbench's obstruction graph.
- File I/O and JSON text. `importFromFile` is `createFromJSON` after the file is read; a file that cannot be read leaves the graph unchanged. The graph's `name` attribute is left out.
- The workbench's `__check_technical_feasibility` is never called, so it is not modelled.
- `AndOr` levels are sets, not lists. The reverse-cutset generator sorts the subassembly list by length and groups cutsets with `groupby`. Both only order and merge entries, so the sets are unchanged.
- `get_node` and the hypergraph library: nodes are identified by their member sets.
- AndOr.ReverseCutsetGenerateAsWritten: `aplanobjects/graphs.py` defines only `ConnectionGraph` and `ObstructionGraph`, so `graphs.AndOrGraph`, `graphs.Node` and `graphs.AndEdge`, which `reverse_cutset.py` names in the return annotation of `generate` (line 46) and uses at lines 72-80, do not exist there. The annotation is evaluated when the class is defined, so as written the module cannot even be imported. The model supplies its own hypergraph types and models only the name-mangling failure.
- `AndOr.LevelSizes` and `AndOr.EdgesAreSplits`: both assume the connection graph has no self-loops. A self-loop `(a, a)` would list the one-member set `{a}` at level 2.
- `FilePaths.Merge`: the delimiter is a parameter. The model does not select it by platform.
- `Labels.LexLess`: Python compares strings by code point. The model compares characters by Dafny's `char` order, which is the same.

## Findings

| source | as written | input that shows it | evidently intended | confidence | as-written member | corrected member |
|---|---|---|---|---|---|---|
| aplansolvers/aplan_obstruction_detectors/occt.py:521-534 | with `None_` refinement, the list of every other component is zipped with a one-element list of intervals | target `A` with other components `B` and `C`: the entry is `[(B, interval)]` and `C` is lost | every other component is a potential obstacle over the whole travel | high, not executed | Refinement.WholeTravelAsWritten | Refinement.WholeTravel |
| aplansolvers/aplan_obstruction_detectors/occt.py:584 | the potential obstacles are sorted as `(overlap, component)` pairs, so two obstacles with the same overlap on the motion axis make Python compare the components themselves, which raises `TypeError` | target `A` with the equal parts `B` and `C` side by side in front of it, both overlapping its sweep on `[2, 3]` (`Refinement.SideBySideTied`) | order the obstacles by their overlap alone and list tied obstacles together | high, not executed | Refinement.FindPotentialObstaclesAsWritten | Refinement.FindPotentialObstacles |
| freecad/aplan_workbench/assembly.py:135 | `find_obstacles` sorts `(overlap, part)` pairs in the same way, so `get_obstructions` raises `TypeError` for the same input | the same three parts, moved along `+X` | the graph of the blocking edges, whatever the overlaps | high, not executed | VirtualMotion.GetObstructions | VirtualMotion.DirectionGraph |
| aplansolvers/aplan_aog_generators/base_aog_generator.py:65 | without geometrical constraints the default is one empty `ObstructionGraph`, whose `successors` raises for every component | any generator built without a `"geometrical"` entry and with at least one component (`Rules.DefaultGeometricalFails`) | no obstruction information means no blocking rules | high, not executed | Rules.NewGeneratorAsWritten | Rules.NewGenerator |
| aplansolvers/aplan_aog_generators/base_aog_generator.py:101 | `np.unique(np.array(rule, dtype=object))` flattens equal-length rules into single labels, and `set(rule)` then splits each label into characters | components `AB` and `CD`, with `AB` blocked by `CD`: `[CD]` passes the check (`Rules.UniqueFlatteningHidesBlocking`) | keep each rule as a set of labels | high, not executed | Rules.BlockingRulesAsWritten | Rules.BlockingRules |
| aplansolvers/aplan_aog_generators/reverse_cutset.py:50 | `self.__checkGeometricalFeasibility` inside `ReverseCutset` is name-mangled to `_ReverseCutset__checkGeometricalFeasibility`, which does not exist | any connection graph with an edge, such as the default complete graph on two components (`AndOr.DefaultTopologyFails`) | call the base class's check and filter on its verdict | high, not executed | AndOr.ReverseCutsetGenerateAsWritten | AndOr.ReverseCutsetGenerate |
