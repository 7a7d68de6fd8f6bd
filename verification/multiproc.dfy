/**
  The method enumerations of the OCCT obstruction detector and the
  direction bookkeeping of its process-parallel entry point.

  The entry point solves as few directions as it can: a direction requested
  together with its opposite is solved once, along the positive axis, and the
  negative direction's obstruction pairs are obtained by swapping every pair
  of the positive one. The per-direction solves themselves run in separate
  processes; here their outputs are a parameter.
 */
module Multiproc {
  import opened Wrappers
  import opened Labels
  import opened Directions

  /** `RefinementMethod`; the label is the enum value's first element. */
  datatype RefinementMethod = NoRefinement | BoundBox {
    function Name(): string {
      match this
      case NoRefinement => "None_"
      case BoundBox => "BoundBox"
    }
    function Label(): string {
      match this
      case NoRefinement => "None"
      case BoundBox => "BoundBox_Intersection"
    }
  }

  /** `SolverMethod`; the label is the enum value's first element. */
  datatype SolverMethod = DistToShape | MeshInside | GeoDataInside | Common | Fuse {
    function Name(): string {
      match this
      case DistToShape => "DistToShape"
      case MeshInside => "MeshInside"
      case GeoDataInside => "GeoDataInside"
      case Common => "Common"
      case Fuse => "Fuse"
    }
    function Label(): string {
      match this
      case DistToShape => "BRepExtrema_DistShapeShape"
      case MeshInside => "BRepMesh_SolidClassifier"
      case GeoDataInside => "GeoData_SolidClassifier"
      case Common => "Common"
      case Fuse => "Fuse"
    }
  }

  /** `next(r for r in RefinementMethod if r.name == name)`, `None` on `StopIteration`. */
  function LookupRefinement(name: string): (r: Option<RefinementMethod>)
    ensures r.Some? ==> r.value.Name() == name
    ensures r.None? ==> forall m: RefinementMethod :: m.Name() != name
  {
    if name == NoRefinement.Name() then Some(NoRefinement)
    else if name == BoundBox.Name() then Some(BoundBox)
    else None
  }

  /** `next(s for s in SolverMethod if s.name == name)`, `None` on `StopIteration`. */
  function LookupSolver(name: string): (r: Option<SolverMethod>)
    ensures r.Some? ==> r.value.Name() == name
    ensures r.None? ==> forall m: SolverMethod :: m.Name() != name
  {
    if name == DistToShape.Name() then Some(DistToShape)
    else if name == MeshInside.Name() then Some(MeshInside)
    else if name == GeoDataInside.Name() then Some(GeoDataInside)
    else if name == Common.Name() then Some(Common)
    else if name == Fuse.Name() then Some(Fuse)
    else None
  }

  type Pair = (Label, Label)

  /** What one solve process reports: the obstruction pairs and the time taken. */
  type Output = (set<Pair>, real)

  /**
    The directions solved by a process of their own: a requested direction
    whose opposite is also requested is replaced by its absolute value;
    any other requested direction is solved as itself.
   */
  function SolvedDirections(requested: set<Cartesian>): (r: set<Cartesian>)
    ensures forall d :: d in r <==> d in requested && (d.positive || d.Opposite() !in requested)
  {
    var r := set d | d in requested :: if d.Opposite() in requested then d.Abs() else d;
    assert forall d :: d in requested && (d.positive || d.Opposite() !in requested) ==> d in r by {
      forall d | d in requested && (d.positive || d.Opposite() !in requested) ensures d in r {
        if d.Opposite() in requested { assert d.Abs() == d; }
      }
    }
    assert forall d :: d in r ==> d in requested && (d.positive || d.Opposite() !in requested) by {
      forall d | d in r ensures d in requested && (d.positive || d.Opposite() !in requested) {
        var e :| e in requested && d == (if e.Opposite() in requested then e.Abs() else e);
        if e.Opposite() in requested {
          assert d == e || d == e.Opposite();
        }
      }
    }
    r
  }

  /** The integer code identifies the direction. */
  lemma ValueInjective()
    ensures forall d: Cartesian, e: Cartesian :: d.Value() == e.Value() ==> d == e
  {
    forall d: Cartesian, e: Cartesian | d.Value() == e.Value() ensures d == e {
      FromValueOfValue(d);
      FromValueOfValue(e);
    }
  }

  /** `{constraint[::-1] for constraint in pairs}` */
  function ReversePairs(pairs: set<Pair>): (r: set<Pair>)
    ensures forall a, b :: (a, b) in r <==> (b, a) in pairs
  {
    set p | p in pairs :: (p.1, p.0)
  }

  /** Swapping every pair twice gives the original pairs back. */
  lemma ReversePairsInvolution(pairs: set<Pair>)
    ensures ReversePairs(ReversePairs(pairs)) == pairs
  {
    forall p | p in ReversePairs(ReversePairs(pairs)) ensures p in pairs {
      assert (p.1, p.0) in ReversePairs(pairs);
    }
    forall p | p in pairs ensures p in ReversePairs(ReversePairs(pairs)) {
      assert (p.1, p.0) in ReversePairs(pairs);
    }
  }

  /**
    How `main` ends: returning early on an unknown method name, raising, or
    printing the dictionary from direction codes to outputs.
   */
  datatype Ending = UnknownMethod | Raised(error: string) | Printed(outputs: map<int, Output>)

  /**
    `main` after argument parsing. An unknown method name ends it early.
    With no requested direction the pool is created with no worker, which
    raises `ValueError`. Otherwise the result maps each requested direction's
    code to its output. `solve` stands for the process pool: it is asked
    only for directions in `SolvedDirections(requested)`.
   */
  function Collect(requested: set<Cartesian>, refinementName: string, solverName: string,
                solve: Cartesian -> Output): (r: Ending)
    ensures r.UnknownMethod? <==> LookupRefinement(refinementName).None? || LookupSolver(solverName).None?
    ensures r.Raised? <==> !r.UnknownMethod? && requested == {}
    ensures r.Printed? ==> r.outputs.Keys == set d | d in requested :: d.Value()
    ensures r.Printed? ==> forall d :: d in SolvedDirections(requested) ==> r.outputs[d.Value()] == solve(d)
    ensures r.Printed? ==> forall d :: d in requested && d !in SolvedDirections(requested) ==>
              && d.Opposite() in SolvedDirections(requested)
              && r.outputs[d.Value()] == (ReversePairs(solve(d.Opposite()).0), 0.0)
  {
    if LookupRefinement(refinementName).None? || LookupSolver(solverName).None? then UnknownMethod
    else if requested == {} then Raised("ValueError: max_workers must be greater than 0")
    else
      var solved := SolvedDirections(requested);
      ValueInjective();
      // Every requested code starts as (set(), 0.0); the solved directions are
      // overwritten by their process's output, and the remaining ones by the
      // swapped pairs of their opposite, which is always among the solved ones.
      Printed(map d | d in requested :: d.Value() :=
                if d in solved then solve(d) else (ReversePairs(solve(d.Opposite()).0), 0.0))
  }

  /**
    The derived negative-direction pairs are exactly the solved positive
    direction's pairs with source and target swapped, so swapping them again
    recovers the solved pairs.
   */
  lemma DerivedIsSwappedSolve(requested: set<Cartesian>, refinementName: string, solverName: string,
                              solve: Cartesian -> Output, d: Cartesian)
    requires Collect(requested, refinementName, solverName, solve).Printed?
    requires d in requested && d.Opposite() in requested && !d.positive
    ensures var m := Collect(requested, refinementName, solverName, solve).outputs;
            && d.Value() in m && d.Opposite().Value() in m
            && ReversePairs(m[d.Value()].0) == m[d.Opposite().Value()].0
  {
    ReversePairsInvolution(solve(d.Opposite()).0);
  }
}
