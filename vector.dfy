/** Three-component vectors over the reals: the value operators of the
    renderer's Vector class and, in MutableVector, its compound assignments
    that overwrite the receiver's fields. */
module Vectors {

  datatype Vector = Vector(x: real, y: real, z: real)

  const Zero := Vector(0.0, 0.0, 0.0)

  /** Component selection by axis number: 0 is x, 1 is y, anything else z. */
  function AxisValue(v: Vector, axis: int): (r: real)
    ensures axis == 0 ==> r == v.x
    ensures axis == 1 ==> r == v.y
    ensures axis != 0 && axis != 1 ==> r == v.z
  {
    if axis == 0 then v.x else if axis == 1 then v.y else v.z
  }

  function Add(a: Vector, b: Vector): (r: Vector)
    ensures forall i :: AxisValue(r, i) == AxisValue(a, i) + AxisValue(b, i)
  {
    Vector(a.x + b.x, a.y + b.y, a.z + b.z)
  }

  function Sub(a: Vector, b: Vector): (r: Vector)
    ensures forall i :: AxisValue(r, i) == AxisValue(a, i) - AxisValue(b, i)
  {
    Vector(a.x - b.x, a.y - b.y, a.z - b.z)
  }

  function Neg(a: Vector): (r: Vector)
    ensures Add(a, r) == Zero
  {
    Vector(-a.x, -a.y, -a.z)
  }

  /** Multiplication by a scalar. */
  function Scale(v: Vector, f: real): (r: Vector)
    ensures forall i :: AxisValue(r, i) == AxisValue(v, i) * f
  {
    Vector(v.x * f, v.y * f, v.z * f)
  }

  /** Division by a scalar. */
  function Div(v: Vector, f: real): (r: Vector)
    requires f != 0.0
    ensures forall i :: AxisValue(r, i) * f == AxisValue(v, i)
  {
    Vector(v.x / f, v.y / f, v.z / f)
  }

  /** The same scalar added to every component (the effect of `+= f`; `-= f` is Shift(v, -f)). */
  function Shift(v: Vector, d: real): (r: Vector)
    ensures forall i :: AxisValue(r, i) == AxisValue(v, i) + d
  {
    Vector(v.x + d, v.y + d, v.z + d)
  }

  /** The inner product written as `operator*(Vector)`. A vector's product
      with itself, its squared length, is never negative. */
  function Dot(a: Vector, b: Vector): (r: real)
    ensures a == b ==> r >= 0.0
  {
    a.x * b.x + a.y * b.y + a.z * b.z
  }

  /** The inner product written as `dotProduct`, summing the per-axis products. */
  function DotProduct(a: Vector, b: Vector): (r: real)
    ensures r == Dot(a, b)
  {
    var dx := a.x * b.x;
    var dy := a.y * b.y;
    var dz := a.z * b.z;
    dx + dy + dz
  }

  /** The cross product written as `operator%`. */
  function Cross(a: Vector, b: Vector): (r: Vector)
    ensures Dot(r, a) == 0.0 && Dot(r, b) == 0.0
  {
    Vector(a.y * b.z - a.z * b.y, a.z * b.x - a.x * b.z, a.x * b.y - a.y * b.x)
  }

  /** The cross product written as `crossProduct`. */
  function CrossProduct(a: Vector, b: Vector): (r: Vector)
    ensures r == Cross(a, b)
  {
    var cx := a.y * b.z - a.z * b.y;
    var cy := a.z * b.x - a.x * b.z;
    var cz := a.x * b.y - a.y * b.x;
    Vector(cx, cy, cz)
  }

  lemma AddSubCancel(a: Vector, b: Vector)
    ensures Sub(Add(a, b), b) == a
  {
  }

  lemma ScaleDivCancel(v: Vector, f: real)
    requires f != 0.0
    ensures Div(Scale(v, f), f) == v
  {
  }

  lemma ShiftCancel(v: Vector, d: real)
    ensures Shift(Shift(v, d), -d) == v
  {
  }

  lemma DotSymmetric(a: Vector, b: Vector)
    ensures Dot(a, b) == Dot(b, a)
  {
  }

  lemma CrossSelfIsZero(a: Vector)
    ensures Cross(a, a) == Zero
  {
  }

  lemma CrossAntiCommutative(a: Vector, b: Vector)
    ensures Cross(a, b) == Neg(Cross(b, a))
  {
  }

  /** The receiver of the compound assignments `-=`, `+=` and `*=`, whose
      three fields are overwritten in place. */
  class MutableVector {
    var x: real
    var y: real
    var z: real

    function Value(): Vector
      reads this
    {
      Vector(x, y, z)
    }

    constructor (v: Vector)
      ensures Value() == v
    {
      x, y, z := v.x, v.y, v.z;
    }

    /** `v -= w`: componentwise subtraction. */
    method SubAssign(w: Vector)
      modifies this
      ensures Value() == Sub(old(Value()), w)
    {
      x := x - w.x;
      y := y - w.y;
      z := z - w.z;
    }

    /** `v -= f`: the scalar is subtracted from every component. */
    method SubAssignScalar(f: real)
      modifies this
      ensures Value() == Shift(old(Value()), -f)
    {
      x := x - f;
      y := y - f;
      z := z - f;
    }

    /** `v += f`: the scalar is added to every component. */
    method AddAssignScalar(f: real)
      modifies this
      ensures Value() == Shift(old(Value()), f)
    {
      x := x + f;
      y := y + f;
      z := z + f;
    }

    /** `v *= f`: every component is multiplied by the scalar. */
    method MulAssignScalar(f: real)
      modifies this
      ensures Value() == Scale(old(Value()), f)
    {
      x := x * f;
      y := y * f;
      z := z * f;
    }
  }
}
