/** The `Vector` value type of the ray tracer: points and directions in 3-space. */
module Vectors {
  import opened Numerics

  datatype Vector = Vector(x: real, y: real, z: real)

  const Zero: Vector := Vector(0.0, 0.0, 0.0)

  /** `Vector.times`: scaling by a scalar. */
  function Times(k: real, v: Vector): Vector
  {
    Vector(k * v.x, k * v.y, k * v.z)
  }

  /** `Vector.minus` */
  function Minus(v1: Vector, v2: Vector): Vector
  {
    Vector(v1.x - v2.x, v1.y - v2.y, v1.z - v2.z)
  }

  /** `Vector.plus` */
  function Plus(v1: Vector, v2: Vector): Vector
  {
    Vector(v1.x + v2.x, v1.y + v2.y, v1.z + v2.z)
  }

  /** `Vector.dot` */
  function Dot(v1: Vector, v2: Vector): real
  {
    v1.x * v2.x + v1.y * v2.y + v1.z * v2.z
  }

  /** `Vector.cross`: the result is orthogonal to both arguments. */
  function Cross(v1: Vector, v2: Vector): (r: Vector)
    ensures Dot(r, v1) == 0.0 && Dot(r, v2) == 0.0
  {
    Vector(v1.y * v2.z - v1.z * v2.y,
           v1.z * v2.x - v1.x * v2.z,
           v1.x * v2.y - v1.y * v2.x)
  }

  /** `Vector.mag`: with a sound square root, the non-negative root of v·v. */
  function Mag(m: MathLib, v: Vector): (r: real)
    ensures Sound(m) ==> 0.0 <= r && r * r == Dot(v, v)
  {
    DotSelfNonNegative(v);
    m.sqrt(Dot(v, v))
  }

  /** `Vector.norm`: with a sound square root, a non-zero vector becomes the unit
      vector pointing the same way. A zero-magnitude vector is returned as it is,
      where the source scales it by Infinity. */
  function Norm(m: MathLib, v: Vector): (r: Vector)
    ensures Sound(m) && Mag(m, v) != 0.0 ==> Dot(r, r) == 1.0 && Cross(r, v) == Zero && 0.0 < Dot(r, v)
  {
    ScaledByInverseMagnitude(m, v);
    var mag := Mag(m, v);
    if mag == 0.0 then v else Times(1.0 / mag, v)
  }

  /** The point reached from `start` after time `t` along `dir`. */
  function At(start: Vector, dir: Vector, t: real): Vector
  {
    Plus(start, Times(t, dir))
  }

  lemma DotSymmetric(a: Vector, b: Vector)
    ensures Dot(a, b) == Dot(b, a)
  {
  }

  /** `minus` undoes `plus`. */
  lemma MinusUndoesPlus(a: Vector, b: Vector)
    ensures Minus(Plus(a, b), b) == a
  {
  }

  lemma DotSelfNonNegative(v: Vector)
    ensures 0.0 <= Dot(v, v)
  {
    assert 0.0 <= v.x * v.x && 0.0 <= v.y * v.y && 0.0 <= v.z * v.z;
  }

  /** Scaling either argument by k scales the dot product by k. */
  lemma DotTimes(k: real, a: Vector, b: Vector)
    ensures Dot(Times(k, a), b) == k * Dot(a, b)
    ensures Dot(a, Times(k, b)) == k * Dot(a, b)
  {
  }

  /** The dot product distributes over `minus` in its first argument. */
  lemma DotMinus(a: Vector, b: Vector, c: Vector)
    ensures Dot(Minus(a, b), c) == Dot(a, c) - Dot(b, c)
  {
  }

  /** A vector is parallel to any multiple of itself. */
  lemma CrossOfMultiple(k: real, v: Vector)
    ensures Cross(Times(k, v), v) == Zero
  {
    assert (k * v.y) * v.z == (k * v.z) * v.y;
    assert (k * v.z) * v.x == (k * v.x) * v.z;
    assert (k * v.x) * v.y == (k * v.y) * v.x;
  }

  lemma ScaledByInverseMagnitude(m: MathLib, v: Vector)
    ensures Sound(m) && m.sqrt(Dot(v, v)) != 0.0 ==>
      var k := 1.0 / m.sqrt(Dot(v, v));
      Dot(Times(k, v), Times(k, v)) == 1.0 && Cross(Times(k, v), v) == Zero && 0.0 < Dot(Times(k, v), v)
  {
    var dd := Dot(v, v);
    var s := m.sqrt(dd);
    if Sound(m) && s != 0.0 {
      DotSelfNonNegative(v);
      var k := 1.0 / s;
      var u := Times(k, v);
      CrossOfMultiple(k, v);
      DotTimes(k, v, u);
      DotTimes(k, v, v);
      DotSymmetric(v, u);
      InverseSquare(s, dd);
    }
  }

  /** For s > 0 with s² = dd: (1/s)²·dd = 1 and (1/s)·dd > 0. */
  lemma InverseSquare(s: real, dd: real)
    requires 0.0 < s && s * s == dd
    ensures (1.0 / s) * ((1.0 / s) * dd) == 1.0 && 0.0 < (1.0 / s) * dd
  {
    var k := 1.0 / s;
    assert k * s == 1.0;
    assert k * dd == s;
  }

  /** With a sound square root, `norm` leaves a unit vector as it is. */
  lemma NormOfUnit(m: MathLib, v: Vector)
    requires Sound(m) && Dot(v, v) == 1.0
    ensures Norm(m, v) == v
  {
    assert 1.0 * 1.0 == 1.0;
    SqrtOfSquare(m, 1.0);
    assert Mag(m, v) == 1.0;
  }

  /** With a sound square root, `norm` fixes the unit axes +z and +y. */
  lemma AxesAreUnit(m: MathLib)
    ensures Sound(m) ==> Norm(m, Vector(0.0, 0.0, 1.0)) == Vector(0.0, 0.0, 1.0)
    ensures Sound(m) ==> Norm(m, Vector(0.0, 1.0, 0.0)) == Vector(0.0, 1.0, 0.0)
  {
    if Sound(m) {
      NormOfUnit(m, Vector(0.0, 0.0, 1.0));
      NormOfUnit(m, Vector(0.0, 1.0, 0.0));
    }
  }
}
