/** Rays and the two primitives (`Sphere`, `Disk`) with their intersection and
    normal queries, and the nearest-hit rule of the tracer's scan. */
module Geometry {
  import opened Numerics
  import opened Vectors
  import Colors

  datatype Ray = Ray(start: Vector, dir: Vector)

  /** A primitive. The source's base class `Geo` is never instantiated, so only
      its two subclasses appear. Fields shared by both constructors are the base
      class's fields. */
  datatype Geo =
    | Sphere(radius: real, center: Vector, kd: Colors.Color, ka: real, ks: real, specularPow: real)
    | Disk(radius: real, center: Vector, normal: Vector, kd: Colors.Color, ka: real, ks: real, specularPow: real)

  /** The point of `ray` at time `t`. */
  function PointAt(ray: Ray, t: real): Vector
  {
    At(ray.start, ray.dir, t)
  }

  // ---------------------------------------------------------------- Sphere

  /** (d·(e−c))² − (d·d)((e−c)·(e−c) − R²) */
  function Discriminant(center: Vector, radius: real, ray: Ray): real
  {
    var e_c := Minus(ray.start, center);
    var b := Dot(ray.dir, e_c);
    b * b - Dot(ray.dir, ray.dir) * (Dot(e_c, e_c) - radius * radius)
  }

  /** The root taken with +√: `t1` in the source. */
  function RootT1(m: MathLib, center: Vector, radius: real, ray: Ray): real
    requires Dot(ray.dir, ray.dir) != 0.0
  {
    (-Dot(ray.dir, Minus(ray.start, center)) + m.sqrt(Discriminant(center, radius, ray))) / Dot(ray.dir, ray.dir)
  }

  /** The root taken with −√: `t2` in the source. */
  function RootT2(m: MathLib, center: Vector, radius: real, ray: Ray): real
    requires Dot(ray.dir, ray.dir) != 0.0
  {
    (-Dot(ray.dir, Minus(ray.start, center)) - m.sqrt(Discriminant(center, radius, ray))) / Dot(ray.dir, ray.dir)
  }

  /** `Sphere.collide`. No hit for a negative discriminant, for a zero direction
      (the source divides 0 by 0) and when both roots are negative; a reported
      time is one of the two roots and never negative. */
  function SphereCollide(m: MathLib, center: Vector, radius: real, ray: Ray): (r: Option<real>)
    ensures Discriminant(center, radius, ray) < 0.0 ==> r.None?
    ensures Dot(ray.dir, ray.dir) == 0.0 ==> r.None?
    ensures Dot(ray.dir, ray.dir) != 0.0 && RootT1(m, center, radius, ray) < 0.0 && RootT2(m, center, radius, ray) < 0.0 ==> r.None?
    ensures r.Some? ==> 0.0 <= r.value && Dot(ray.dir, ray.dir) != 0.0 &&
                        (r.value == RootT1(m, center, radius, ray) || r.value == RootT2(m, center, radius, ray))
  {
    var delta := Discriminant(center, radius, ray);
    var dd := Dot(ray.dir, ray.dir);
    if delta < 0.0 then None
    else if dd == 0.0 then None
    else
      var t1 := RootT1(m, center, radius, ray);
      var t2 := RootT2(m, center, radius, ray);
      if t1 < 0.0 && t2 < 0.0 then None
      else if t1 > 0.0 && t2 > 0.0 then Some(Min(t1, t2))
      else Some(Max(t1, t2))
  }

  /** Which root `Sphere.collide` reports: the near root when it is positive, the
      far root when the near one is not positive but the far one is not negative
      (the ray starts inside or on the sphere), and nothing when the far root is
      negative (the sphere is behind the ray). */
  lemma SphereRootChoice(m: MathLib, center: Vector, radius: real, ray: Ray)
    requires Sound(m) && 0.0 < Dot(ray.dir, ray.dir) && 0.0 <= Discriminant(center, radius, ray)
    ensures RootT2(m, center, radius, ray) <= RootT1(m, center, radius, ray)
    ensures 0.0 < RootT2(m, center, radius, ray) ==>
              SphereCollide(m, center, radius, ray) == Some(RootT2(m, center, radius, ray))
    ensures RootT2(m, center, radius, ray) <= 0.0 <= RootT1(m, center, radius, ray) ==>
              SphereCollide(m, center, radius, ray) == Some(RootT1(m, center, radius, ray))
    ensures RootT1(m, center, radius, ray) < 0.0 ==> SphereCollide(m, center, radius, ray) == None
  {
    var dd := Dot(ray.dir, ray.dir);
    var s := m.sqrt(Discriminant(center, radius, ray));
    var nb := -Dot(ray.dir, Minus(ray.start, center));
    assert 0.0 <= s;
    DivideMonotone(nb - s, nb + s, dd);
  }

  /** Dividing by a positive number keeps the order. */
  lemma DivideMonotone(a: real, b: real, d: real)
    requires a <= b && 0.0 < d
    ensures a / d <= b / d
  {
    assert b / d - a / d == (b - a) / d;
  }

  /** A ray that starts strictly inside the sphere reports the far intersection,
      at a positive time. */
  lemma SphereFromInside(m: MathLib, center: Vector, radius: real, ray: Ray)
    requires Sound(m) && 0.0 < Dot(ray.dir, ray.dir)
    requires Dot(Minus(ray.start, center), Minus(ray.start, center)) < radius * radius
    ensures 0.0 < RootT1(m, center, radius, ray)
    ensures SphereCollide(m, center, radius, ray) == Some(RootT1(m, center, radius, ray))
  {
    var e_c := Minus(ray.start, center);
    var dd := Dot(ray.dir, ray.dir);
    var b := Dot(ray.dir, e_c);
    var s := m.sqrt(Discriminant(center, radius, ray));
    InsideRoots(b, dd, Dot(e_c, e_c) - radius * radius, Discriminant(center, radius, ray), s);
    SignOfQuotient(-b + s, -b - s, dd);
    SphereRootChoice(m, center, radius, ray);
  }

  /** With the ray's origin inside (gap < 0), the two numerators of the roots
      have opposite signs. */
  lemma InsideRoots(b: real, dd: real, gap: real, delta: real, s: real)
    requires 0.0 < dd && gap < 0.0 && delta == b * b - dd * gap
    requires 0.0 <= s && s * s == delta
    ensures -b - s < 0.0 < -b + s
  {
    assert 0.0 < dd * (-gap);
    assert b * b < s * s;
    AbsBelowRoot(b, s);
  }

  /** If b² < s² and s ≥ 0 then −s < b < s. */
  lemma AbsBelowRoot(b: real, s: real)
    requires 0.0 <= s && b * b < s * s
    ensures -s < b < s
  {
    if s <= b {
      SquareMonotone(s, b);
    } else if b <= -s {
      SquareMonotone(s, -b);
    }
  }

  /** Squaring is monotone on the non-negative reals. */
  lemma SquareMonotone(a: real, b: real)
    requires 0.0 <= a <= b
    ensures a * a <= b * b
  {
    assert 0.0 <= (b - a) * b;
    assert 0.0 <= a * (b - a);
    assert b * b - a * a == (b - a) * b + a * (b - a);
  }

  lemma SignOfQuotient(p: real, n: real, d: real)
    requires n < 0.0 < p && 0.0 < d
    ensures 0.0 < p / d && n / d < 0.0
  {
  }

  /** A ray aimed straight at the centre from a distance `dist` beyond the radius
      (with a unit direction) hits the sphere after `dist − radius`. */
  lemma SphereHeadOn(m: MathLib, center: Vector, radius: real, dist: real, ray: Ray)
    requires Sound(m) && Dot(ray.dir, ray.dir) == 1.0 && 0.0 < radius < dist
    requires Minus(ray.start, center) == Times(-dist, ray.dir)
    ensures SphereCollide(m, center, radius, ray) == Some(dist - radius)
  {
    var e_c := Minus(ray.start, center);
    DotTimes(-dist, ray.dir, ray.dir);
    DotTimes(-dist, ray.dir, e_c);
    assert Dot(ray.dir, e_c) == -dist;
    assert Dot(e_c, e_c) == dist * dist;
    assert Discriminant(center, radius, ray) == radius * radius;
    SqrtOfSquare(m, radius);
    assert RootT2(m, center, radius, ray) == dist - radius;
    SphereRootChoice(m, center, radius, ray);
  }

  /** With a sound square root, a reported sphere time is a true intersection:
      the point reached lies at distance `radius` from the centre. */
  lemma SphereHitOnSurface(m: MathLib, center: Vector, radius: real, ray: Ray)
    requires Sound(m) && SphereCollide(m, center, radius, ray).Some?
    ensures var p := Minus(PointAt(ray, SphereCollide(m, center, radius, ray).value), center);
            Dot(p, p) == radius * radius
  {
    RootOnSurface(m, center, radius, ray, SphereCollide(m, center, radius, ray).value);
  }

  /** Either root of a ray with a non-zero direction and a non-negative
      discriminant reaches the sphere's surface. */
  lemma RootOnSurface(m: MathLib, center: Vector, radius: real, ray: Ray, t: real)
    requires Sound(m) && Dot(ray.dir, ray.dir) != 0.0 && 0.0 <= Discriminant(center, radius, ray)
    requires t == RootT1(m, center, radius, ray) || t == RootT2(m, center, radius, ray)
    ensures var p := Minus(PointAt(ray, t), center);
            Dot(p, p) == radius * radius
  {
    RootSolvesQuadratic(m, center, radius, ray, t);
    OnSphere(center, radius, ray, t);
  }

  /** A time solving the sphere's quadratic gives a point at distance `radius`
      from the centre. */
  lemma OnSphere(center: Vector, radius: real, ray: Ray, t: real)
    requires var e_c := Minus(ray.start, center);
             Dot(e_c, e_c) + 2.0 * Dot(ray.dir, e_c) * t + t * t * Dot(ray.dir, ray.dir) == radius * radius
    ensures var p := Minus(PointAt(ray, t), center);
            Dot(p, p) == radius * radius
  {
    PointFromCenter(center, ray, t);
    DotOfSum(Minus(ray.start, center), ray.dir, t);
  }

  /** Either root t satisfies (d·d)t² + 2(d·(e−c))t + (e−c)·(e−c) − R² = 0. */
  lemma RootSolvesQuadratic(m: MathLib, center: Vector, radius: real, ray: Ray, t: real)
    requires Sound(m) && Dot(ray.dir, ray.dir) != 0.0 && 0.0 <= Discriminant(center, radius, ray)
    requires t == RootT1(m, center, radius, ray) || t == RootT2(m, center, radius, ray)
    ensures var e_c := Minus(ray.start, center);
            Dot(e_c, e_c) + 2.0 * Dot(ray.dir, e_c) * t + t * t * Dot(ray.dir, ray.dir) == radius * radius
  {
    var delta := Discriminant(center, radius, ray);
    SqrtSquared(m, delta);
    var e_c := Minus(ray.start, center);
    QuadraticRoot(t, Dot(ray.dir, ray.dir), Dot(ray.dir, e_c), Dot(e_c, e_c) - radius * radius, m.sqrt(delta));
  }

  /** The point at time t, seen from the centre. */
  lemma PointFromCenter(center: Vector, ray: Ray, t: real)
    ensures Minus(PointAt(ray, t), center) == Plus(Minus(ray.start, center), Times(t, ray.dir))
  {
  }

  /** Both roots (−b ± s)/dd, with s² = b² − dd·gap, solve dd·t² + 2b·t + gap = 0. */
  lemma QuadraticRoot(t: real, dd: real, b: real, gap: real, s: real)
    requires dd != 0.0 && s * s == b * b - dd * gap
    requires t == (-b + s) / dd || t == (-b - s) / dd
    ensures t * t * dd + 2.0 * b * t + gap == 0.0
  {
    assert t * dd == -b + s || t * dd == -b - s;
    assert (t * dd) * (t * dd) + 2.0 * b * (t * dd) == s * s - b * b;
    assert dd * (t * t * dd + 2.0 * b * t + gap) == 0.0;
  }

  /** |e + t·d|² expanded. */
  lemma DotOfSum(e: Vector, d: Vector, t: real)
    ensures var p := Plus(e, Times(t, d));
            Dot(p, p) == Dot(e, e) + 2.0 * Dot(d, e) * t + t * t * Dot(d, d)
  {
  }

  // ---------------------------------------------------------------- Disk

  /** The time at which `ray` meets the disk's plane. */
  function PlaneTime(center: Vector, normal: Vector, ray: Ray): real
    requires Dot(ray.dir, normal) != 0.0
  {
    Dot(Minus(center, ray.start), normal) / Dot(ray.dir, normal)
  }

  /** `Disk.collide`. A ray parallel to the plane never hits (the source divides
      by zero and every comparison with the result fails). Otherwise the plane
      time is reported exactly when it is not negative and the plane point lies
      within `radius` of the centre; that point lies in the disk's plane. */
  function DiskCollide(m: MathLib, center: Vector, normal: Vector, radius: real, ray: Ray): (r: Option<real>)
    ensures Dot(ray.dir, normal) == 0.0 ==> r.None?
    ensures Dot(ray.dir, normal) != 0.0 ==>
              (r.Some? <==> 0.0 <= PlaneTime(center, normal, ray) &&
                            Mag(m, Minus(PointAt(ray, PlaneTime(center, normal, ray)), center)) <= radius)
    ensures r.Some? ==> Dot(ray.dir, normal) != 0.0 && r.value == PlaneTime(center, normal, ray)
    ensures r.Some? ==> 0.0 <= r.value && Mag(m, Minus(PointAt(ray, r.value), center)) <= radius
    ensures r.Some? ==> Dot(Minus(PointAt(ray, r.value), center), normal) == 0.0
  {
    var den := Dot(ray.dir, normal);
    if den == 0.0 then None
    else
      var t := Dot(Minus(center, ray.start), normal) / den;
      var mag := Mag(m, Minus(Plus(ray.start, Times(t, ray.dir)), center));
      PlaneTimeInPlane(center, normal, ray);
      if t >= 0.0 && mag <= radius then Some(t) else None
  }

  /** The point at the plane time lies in the plane through `center` with normal `normal`. */
  lemma PlaneTimeInPlane(center: Vector, normal: Vector, ray: Ray)
    ensures Dot(ray.dir, normal) != 0.0 ==>
              Dot(Minus(PointAt(ray, PlaneTime(center, normal, ray)), center), normal) == 0.0
  {
    var den := Dot(ray.dir, normal);
    if den != 0.0 {
      var t := PlaneTime(center, normal, ray);
      var num := Dot(Minus(center, ray.start), normal);
      assert t * den == num;
      var p := Minus(PointAt(ray, t), center);
      assert p == Plus(Minus(ray.start, center), Times(t, ray.dir));
      DotTimes(t, ray.dir, normal);
      assert Dot(p, normal) == Dot(Minus(ray.start, center), normal) + t * den;
    }
  }

  // ---------------------------------------------------------------- dispatch

  /** `Geo.collide`, dispatched on the kind of primitive: a reported time is
      never negative. */
  function Collide(m: MathLib, g: Geo, ray: Ray): (r: Option<real>)
    ensures r.Some? ==> 0.0 <= r.value
  {
    match g
    case Sphere(radius, center, _, _, _, _) => SphereCollide(m, center, radius, ray)
    case Disk(radius, center, normal, _, _, _, _) => DiskCollide(m, center, normal, radius, ray)
  }

  /** `Geo.getNorm`: a disk's stored normal at every point; for a sphere, with a
      sound square root, the unit vector from the centre towards the point. */
  function GetNorm(m: MathLib, g: Geo, pos: Vector): (n: Vector)
    ensures g.Disk? ==> n == g.normal
    ensures g.Sphere? && Sound(m) && Mag(m, Minus(pos, g.center)) != 0.0 ==>
              Dot(n, n) == 1.0 && Cross(n, Minus(pos, g.center)) == Zero && 0.0 < Dot(n, Minus(pos, g.center))
  {
    match g
    case Sphere(_, center, _, _, _, _) => Norm(m, Minus(pos, center))
    case Disk(_, _, normal, _, _, _, _) => normal
  }

  // ---------------------------------------------------------------- nearest hit

  /** The collision time of every primitive with `ray`, in scene order. */
  function HitTimes(m: MathLib, geos: seq<Geo>, ray: Ray): (r: seq<Option<real>>)
  {
    seq(|geos|, j requires 0 <= j < |geos| => Collide(m, geos[j], ray))
  }

  /** Entry `i` holds the nearest hit among the first `n` collision times: it is
      a hit, no hit among them is earlier, and every entry before it that is a
      hit is strictly later (the first of equal minima wins). */
  ghost predicate IsNearest(hits: seq<Option<real>>, n: nat, i: nat)
    requires n <= |hits|
  {
    i < n && hits[i].Some? &&
    forall j :: 0 <= j < n && hits[j].Some? ==>
      hits[i].value <= hits[j].value && (j < i ==> hits[i].value < hits[j].value)
  }

  /** None of the first `n` collision times is a hit. */
  ghost predicate NoHit(hits: seq<Option<real>>, n: nat)
    requires n <= |hits|
  {
    forall j :: 0 <= j < n ==> hits[j].None?
  }

  /** The nearest hit is unique. */
  lemma NearestUnique(hits: seq<Option<real>>, n: nat, i: nat, k: nat)
    requires n <= |hits| && IsNearest(hits, n, i) && IsNearest(hits, n, k)
    ensures i == k
  {
  }

  /** Unless nothing is hit, there is a nearest hit. */
  lemma {:induction false} NearestExists(hits: seq<Option<real>>, n: nat)
    requires n <= |hits| && !NoHit(hits, n)
    ensures exists i :: IsNearest(hits, n, i)
  {
    if NoHit(hits, n - 1) {
      assert IsNearest(hits, n, n - 1);
    } else {
      NearestExists(hits, n - 1);
      var i: nat :| IsNearest(hits, n - 1, i);
      if hits[n - 1].Some? && hits[n - 1].value < hits[i].value {
        assert IsNearest(hits, n, n - 1);
      } else {
        assert IsNearest(hits, n, i);
      }
    }
  }
}
