/**
  Motion directions.

  A Cartesian motion direction is a signed axis with the integer code
  +-1 (X), +-2 (Y), +-3 (Z); the workbench's `MotionDirection` adds the
  code 0 for "undefined". Obstructions are only computed along positive
  axes; the OCCT solver turns every requested direction into its absolute
  value.
 */
module Directions {
  import opened Wrappers

  datatype Axis = X | Y | Z

  function AxisCode(a: Axis): (k: int)
    ensures 1 <= k <= 3
  {
    match a
    case X => 1
    case Y => 2
    case Z => 3
  }

  /** `CartesianMotionDirection`: POS_X = 1, NEG_X = -1, ..., NEG_Z = -3. */
  datatype Cartesian = Cartesian(axis: Axis, positive: bool) {

    function Value(): (v: int)
      ensures v != 0 && -3 <= v <= 3
      ensures (v > 0) == positive
    {
      if positive then AxisCode(axis) else -AxisCode(axis)
    }

    /** The enum member's name, e.g. `POS_X`. */
    function Name(): string {
      (if positive then "POS_" else "NEG_") + match axis case X => "X" case Y => "Y" case Z => "Z"
    }

    /** `CartesianMotionDirection(-d.value)` */
    function Opposite(): (o: Cartesian)
      ensures o.Value() == -Value()
    {
      Cartesian(axis, !positive)
    }

    /** `CartesianMotionDirection(abs(d.value))` */
    function Abs(): (a: Cartesian)
      ensures a.Value() == if Value() < 0 then -Value() else Value()
    {
      Cartesian(axis, true)
    }
  }

  /** `CartesianMotionDirection(v)`, which raises `ValueError` for any other code. */
  function FromValue(v: int): (r: Option<Cartesian>)
    ensures r.Some? <==> v in {-3, -2, -1, 1, 2, 3}
    ensures r.Some? ==> r.value.Value() == v
  {
    if v == 1 then Some(Cartesian(X, true))
    else if v == -1 then Some(Cartesian(X, false))
    else if v == 2 then Some(Cartesian(Y, true))
    else if v == -2 then Some(Cartesian(Y, false))
    else if v == 3 then Some(Cartesian(Z, true))
    else if v == -3 then Some(Cartesian(Z, false))
    else None
  }

  /** The integer code identifies the direction. */
  lemma FromValueOfValue(d: Cartesian)
    ensures FromValue(d.Value()) == Some(d)
  {
  }

  /** Distinct directions have distinct names. */
  lemma NameInjective(d: Cartesian, e: Cartesian)
    ensures d.Name() == e.Name() ==> d == e
  {
    if d.Name() == e.Name() {
      assert d.Name()[0] == e.Name()[0];
      assert d.Name()[4] == e.Name()[4];
    }
  }

  /**
    The directions the OCCT solver actually solves: the absolute value of
    every requested direction.
   */
  function NonRedundantDirections(requested: set<Cartesian>): (r: set<Cartesian>)
    ensures forall p :: p in r <==> p.positive && exists d :: d in requested && d.axis == p.axis
  {
    set d | d in requested :: d.Abs()
  }

  /** A request and its opposite need one solve between them. */
  lemma NonRedundantMergesOpposites(requested: set<Cartesian>, d: Cartesian)
    requires d in requested
    ensures NonRedundantDirections(requested) == NonRedundantDirections(requested + {d.Opposite()})
  {
    assert d.Opposite().Abs() == d.Abs();
  }

  /** The workbench's `MotionDirection` enum, which also has `UNDEF = 0`. */
  datatype MotionDirection = Undef | Along(direction: Cartesian) {

    function Value(): int {
      match this
      case Undef => 0
      case Along(d) => d.Value()
    }

    /** `MotionDirection(-d)` as used when an obstruction graph is reversed. */
    function Negated(): (n: MotionDirection)
      ensures n.Value() == -Value()
    {
      match this
      case Undef => Undef
      case Along(d) => Along(d.Opposite())
    }
  }

  /** Negating a workbench direction twice gives it back. */
  lemma NegatedTwice(m: MotionDirection)
    ensures m.Negated().Negated() == m
  {
  }
}
