/** `Sphere::hit` of raytracer/src/sphere.rs: the ray `O + tD` meets the sphere of centre `C`
    and radius `r` where `a t^2 + 2 b t + c = 0`, with `a = |D|^2`, `b = D.(O - C)` and
    `c = |O - C|^2 - r^2`. The earlier snapshot src/sphere.rs computes the same hit but its
    record has no material; it is `Sphere<()>` here. */
module Spheres {
  import opened Roots
  import opened Options
  import opened Vectors
  import opened Rays
  import opened Hits

  datatype Sphere<M> = Sphere(center: Vector3, radius: real, material: M)

  /** What `Sphere::hit` needs to avoid dividing by zero: a ray with a direction, and a
      sphere with a radius. */
  predicate CanHit<M>(s: Sphere<M>, ray: Ray) {
    ray.direction != Zero && s.radius != 0.0
  }

  function QuadA(ray: Ray): real {
    LengthSquared(ray.direction)
  }

  function QuadB<M>(s: Sphere<M>, ray: Ray): real {
    Dot(ray.direction, Sub(ray.origin, s.center))
  }

  function QuadC<M>(s: Sphere<M>, ray: Ray): real {
    LengthSquared(Sub(ray.origin, s.center)) - s.radius * s.radius
  }

  /** The quarter discriminant `b^2 - a c` of the half-`b` quadratic. */
  function Discriminant<M>(s: Sphere<M>, ray: Ray): real {
    QuadB(s, ray) * QuadB(s, ray) - QuadA(ray) * QuadC(s, ray)
  }

  /** `a t^2 + 2 b t + c`, which is zero exactly where the ray meets the sphere. */
  function Quadratic(a: real, b: real, c: real, t: real): real {
    a * (t * t) + 2.0 * b * t + c
  }

  /** The point `p` lies on the surface of the sphere. */
  predicate OnSphere<M>(s: Sphere<M>, p: Vector3) {
    LengthSquared(Sub(p, s.center)) == s.radius * s.radius
  }

  /** `(-b - sqrt_d) / a`, tried first. */
  ghost function NearRoot<M>(s: Sphere<M>, ray: Ray): real
    requires CanHit(s, ray) && Discriminant(s, ray) >= 0.0
  {
    LengthSquaredPositive(ray.direction);
    (-QuadB(s, ray) - Sqrt(Discriminant(s, ray))) / QuadA(ray)
  }

  /** `(-b + sqrt_d) / a`, tried when the near root is outside the interval. */
  ghost function FarRoot<M>(s: Sphere<M>, ray: Ray): real
    requires CanHit(s, ray) && Discriminant(s, ray) >= 0.0
  {
    LengthSquaredPositive(ray.direction);
    (-QuadB(s, ray) + Sqrt(Discriminant(s, ray))) / QuadA(ray)
  }

  /** `(point - center) / radius`: the outward normal for a positive radius. */
  function OutwardNormal<M>(s: Sphere<M>, p: Vector3): Vector3
    requires s.radius != 0.0
  {
    DivS(Sub(p, s.center), s.radius)
  }

  /** The record for a hit at `t`: the point on the ray, the face the ray meets, and the
      normal turned to face the ray. */
  function HitAt<M>(s: Sphere<M>, ray: Ray, t: real): (h: HitData<M>)
    requires s.radius != 0.0
    ensures h.t == t && h.point == At(ray, t) && h.material == s.material
    ensures h.face == GetFace(ray, OutwardNormal(s, h.point))
    ensures h.face == Outwards ==> h.normal == OutwardNormal(s, h.point)
    ensures h.face == Inwards ==> h.normal == Neg(OutwardNormal(s, h.point))
    ensures Dot(ray.direction, h.normal) <= 0.0
  {
    var point := At(ray, t);
    var outward := OutwardNormal(s, point);
    var face := GetFace(ray, outward);
    var normal := match face
      case Outwards => outward
      case Inwards => Neg(outward);
    DotNegated(ray.direction, outward);
    HitData(t, normal, point, face, s.material)
  }

  /** `Sphere::hit` on the closed interval `[tMin, tMax]`. */
  ghost function SphereHit<M>(s: Sphere<M>, ray: Ray, tMin: real, tMax: Bound): (r: Option<HitData<M>>)
    requires CanHit(s, ray)
    ensures Discriminant(s, ray) < 0.0 ==> r.None?
    ensures r.Some? ==> InInterval(r.value.t, tMin, tMax)
    ensures r.Some? ==> r.value.t == NearRoot(s, ray) || r.value.t == FarRoot(s, ray)
    ensures r.Some? ==> r.value == HitAt(s, ray, r.value.t)
    ensures r.Some? ==> r.value.material == s.material && r.value.point == At(ray, r.value.t)
    ensures r.Some? ==> Dot(ray.direction, r.value.normal) <= 0.0
  {
    if Discriminant(s, ray) < 0.0 then None
    else
      var near := NearRoot(s, ray);
      if InInterval(near, tMin, tMax) then Some(HitAt(s, ray, near))
      else
        var far := FarRoot(s, ray);
        if InInterval(far, tMin, tMax) then Some(HitAt(s, ray, far))
        else None
  }

  // ---- root selection -------------------------------------------------------------

  /** The near root wins whenever it lies in the interval. */
  lemma NearRootPreferred<M>(s: Sphere<M>, ray: Ray, tMin: real, tMax: Bound)
    requires CanHit(s, ray) && Discriminant(s, ray) >= 0.0
    requires InInterval(NearRoot(s, ray), tMin, tMax)
    ensures SphereHit(s, ray, tMin, tMax) == Some(HitAt(s, ray, NearRoot(s, ray)))
  {
  }

  /** With the near root outside the interval, the far root is returned exactly when it is
      inside, and otherwise there is no hit. */
  lemma FarRootFallback<M>(s: Sphere<M>, ray: Ray, tMin: real, tMax: Bound)
    requires CanHit(s, ray) && Discriminant(s, ray) >= 0.0
    requires !InInterval(NearRoot(s, ray), tMin, tMax)
    ensures InInterval(FarRoot(s, ray), tMin, tMax) ==>
      SphereHit(s, ray, tMin, tMax) == Some(HitAt(s, ray, FarRoot(s, ray)))
    ensures !InInterval(FarRoot(s, ray), tMin, tMax) ==> SphereHit(s, ray, tMin, tMax).None?
  {
  }

  /** The near root never exceeds the far root, since `a > 0` and `sqrt_d >= 0`. */
  lemma NearNotAfterFar<M>(s: Sphere<M>, ray: Ray)
    requires CanHit(s, ray) && Discriminant(s, ray) >= 0.0
    ensures NearRoot(s, ray) <= FarRoot(s, ray)
  {
    LengthSquaredPositive(ray.direction);
    var a, b, sq := QuadA(ray), QuadB(s, ray), Sqrt(Discriminant(s, ray));
    DivideMonotone(-b - sq, -b + sq, a);
  }

  lemma DivideMonotone(x: real, y: real, a: real)
    requires a > 0.0 && x <= y
    ensures x / a <= y / a
  {
    var p, q := x / a, y / a;
    assert p * a == x && q * a == y;
  }

  /** Querying with a smaller upper bound finds the same hit if it lies below the new
      bound, and nothing otherwise: a smaller interval can only lose the hit. */
  lemma ShrinkBound<M>(s: Sphere<M>, ray: Ray, tMin: real, b: Bound, c: Bound)
    requires CanHit(s, ray) && BoundLe(b, c)
    ensures SphereHit(s, ray, tMin, b) ==
      (var h := SphereHit(s, ray, tMin, c);
       if h.Some? && Below(h.value.t, b) then h else None)
  {
    if Discriminant(s, ray) >= 0.0 {
      NearNotAfterFar(s, ray);
      var near, far := NearRoot(s, ray), FarRoot(s, ray);
      if Below(near, b) {
        BelowMonotone(near, b, c);
      }
      if Below(far, b) {
        BelowMonotone(far, b, c);
      }
    }
  }

  // ---- geometry of the roots ------------------------------------------------------

  /** The squared distance from the centre of the point at `t` is a quadratic in `t`. */
  lemma DistanceQuadratic<M>(s: Sphere<M>, ray: Ray, t: real)
    ensures LengthSquared(Sub(At(ray, t), s.center)) - s.radius * s.radius ==
      Quadratic(QuadA(ray), QuadB(s, ray), QuadC(s, ray), t)
  {
    var d, e := ray.direction, Sub(ray.origin, s.center);
    assert Sub(At(ray, t), s.center) == Add(e, MulS(d, t));
    ExpandOffset(e, d, t);
  }

  /** The squared length of `e + t d`, expanded in powers of `t`. */
  lemma ExpandOffset(e: Vector3, d: Vector3, t: real)
    ensures LengthSquared(Add(e, MulS(d, t))) ==
      LengthSquared(d) * (t * t) + 2.0 * Dot(d, e) * t + LengthSquared(e)
  {
    ExpandOffsets(e.x, e.y, e.z, d.x, d.y, d.z, t);
  }

  lemma ExpandOffsets(ex: real, ey: real, ez: real, dx: real, dy: real, dz: real, t: real)
    ensures (ex + dx * t) * (ex + dx * t) + (ey + dy * t) * (ey + dy * t) + (ez + dz * t) * (ez + dz * t)
      == (dx * dx + dy * dy + dz * dz) * (t * t) + 2.0 * (dx * ex + dy * ey + dz * ez) * t
         + (ex * ex + ey * ey + ez * ez)
  {
    OffsetSquare(ex, dx, t);
    OffsetSquare(ey, dy, t);
    OffsetSquare(ez, dz, t);
    var tt := t * t;
    assert (dx * dx) * tt + (dy * dy) * tt + (dz * dz) * tt == (dx * dx + dy * dy + dz * dz) * tt;
    assert 2.0 * (dx * ex) * t + 2.0 * (dy * ey) * t + 2.0 * (dz * ez) * t
      == 2.0 * (dx * ex + dy * ey + dz * ez) * t;
  }

  lemma OffsetSquare(e: real, d: real, t: real)
    ensures (e + d * t) * (e + d * t) == e * e + 2.0 * (d * e) * t + (d * d) * (t * t)
  {
  }

  /** Multiplying the quadratic by `a` completes the square. */
  lemma CompleteSquare(a: real, b: real, c: real, t: real)
    ensures a * Quadratic(a, b, c, t) == (a * t + b) * (a * t + b) - (b * b - a * c)
  {
    var at := a * t;
    assert a * (a * (t * t)) == at * at;
    assert a * (2.0 * b * t) == 2.0 * b * at;
  }

  /** For `a != 0` and `sq` a root of the discriminant, the quadratic vanishes exactly at
      `(-b - sq) / a` and `(-b + sq) / a`. */
  lemma QuadraticRoots(a: real, b: real, c: real, sq: real, t: real)
    requires a != 0.0 && sq >= 0.0 && sq * sq == b * b - a * c
    ensures Quadratic(a, b, c, t) == 0.0 <==> (t == (-b - sq) / a || t == (-b + sq) / a)
  {
    var u := a * t + b;
    CompleteSquare(a, b, c, t);
    ZeroProduct(a, Quadratic(a, b, c, t));
    DifferenceOfSquares(u, sq);
    ZeroProduct(u - sq, u + sq);
    SolveLinear(a, b, t, -sq);
    SolveLinear(a, b, t, sq);
  }

  /** Without a real root of the discriminant the quadratic never vanishes. */
  lemma NoRealRoots(a: real, b: real, c: real, t: real)
    requires a != 0.0 && b * b - a * c < 0.0
    ensures Quadratic(a, b, c, t) != 0.0
  {
    CompleteSquare(a, b, c, t);
    var u := a * t + b;
    assert u * u >= 0.0;
  }

  lemma ZeroProduct(x: real, y: real)
    ensures x * y == 0.0 <==> (x == 0.0 || y == 0.0)
  {
  }

  lemma DifferenceOfSquares(u: real, v: real)
    ensures (u - v) * (u + v) == u * u - v * v
  {
  }

  lemma SolveLinear(a: real, b: real, t: real, v: real)
    requires a != 0.0
    ensures a * t + b == v <==> t == (v - b) / a
  {
    if t == (v - b) / a {
      assert a * t == v - b;
    }
  }

  /** The roots are the parameters at which the ray meets the sphere. */
  lemma RootsOnSphere<M>(s: Sphere<M>, ray: Ray, t: real)
    requires SquareRootsExist()
    requires CanHit(s, ray)
    ensures OnSphere(s, At(ray, t)) <==>
      Discriminant(s, ray) >= 0.0 && (t == NearRoot(s, ray) || t == FarRoot(s, ray))
  {
    LengthSquaredPositive(ray.direction);
    OnSphereQuadratic(s, ray, t);
    RootsByCoefficients(s, ray);
    QuadraticZeroes(QuadA(ray), QuadB(s, ray), QuadC(s, ray), Discriminant(s, ray), t);
  }

  /** The discriminant and the two roots in terms of the coefficients. */
  lemma RootsByCoefficients<M>(s: Sphere<M>, ray: Ray)
    requires CanHit(s, ray)
    ensures Discriminant(s, ray) == QuadB(s, ray) * QuadB(s, ray) - QuadA(ray) * QuadC(s, ray)
    ensures QuadA(ray) != 0.0
    ensures Discriminant(s, ray) >= 0.0 ==>
      NearRoot(s, ray) == (-QuadB(s, ray) - Sqrt(Discriminant(s, ray))) / QuadA(ray) &&
      FarRoot(s, ray) == (-QuadB(s, ray) + Sqrt(Discriminant(s, ray))) / QuadA(ray)
  {
    LengthSquaredPositive(ray.direction);
  }

  /** The point at `t` is on the sphere exactly where the quadratic vanishes. */
  lemma OnSphereQuadratic<M>(s: Sphere<M>, ray: Ray, t: real)
    ensures OnSphere(s, At(ray, t)) <==> Quadratic(QuadA(ray), QuadB(s, ray), QuadC(s, ray), t) == 0.0
  {
    DistanceQuadratic(s, ray, t);
  }

  /** With `a != 0` the quadratic vanishes exactly at its two roots, and only when its
      discriminant `disc` is not negative. */
  lemma QuadraticZeroes(a: real, b: real, c: real, disc: real, t: real)
    requires SquareRootsExist()
    requires a != 0.0 && disc == b * b - a * c
    ensures Quadratic(a, b, c, t) == 0.0 <==>
      disc >= 0.0 && (t == (-b - Sqrt(disc)) / a || t == (-b + Sqrt(disc)) / a)
  {
    if disc >= 0.0 {
      SqrtSquared(disc);
      QuadraticRoots(a, b, c, Sqrt(disc), t);
    } else {
      NoRealRoots(a, b, c, t);
    }
  }

  /** A hit lies on the sphere, and its normal has unit length. */
  lemma HitOnSphere<M>(s: Sphere<M>, ray: Ray, tMin: real, tMax: Bound)
    requires SquareRootsExist()
    requires CanHit(s, ray)
    ensures var r := SphereHit(s, ray, tMin, tMax);
      r.Some? ==> OnSphere(s, r.value.point) && LengthSquared(r.value.normal) == 1.0
  {
    var r := SphereHit(s, ray, tMin, tMax);
    if r.Some? {
      RootsOnSphere(s, ray, r.value.t);
      OutwardNormalUnit(s, r.value.point);
      NegatedLength(OutwardNormal(s, r.value.point));
    }
  }

  /** On the surface, the outward normal `(p - center) / radius` has unit length. */
  lemma OutwardNormalUnit<M>(s: Sphere<M>, p: Vector3)
    requires s.radius != 0.0 && OnSphere(s, p)
    ensures LengthSquared(OutwardNormal(s, p)) == 1.0
  {
    var v := Sub(p, s.center);
    LengthSquaredDivS(v, s.radius);
    CancelSquare(LengthSquared(DivS(v, s.radius)), s.radius, LengthSquared(v));
  }

  lemma NegatedLength(v: Vector3)
    ensures LengthSquared(Neg(v)) == LengthSquared(v)
  {
    var w := Neg(v);
    assert w.x * w.x == v.x * v.x && w.y * w.y == v.y * v.y && w.z * w.z == v.z * v.z;
  }

  /** `Sphere::hit` returns the least parameter in `[tMin, tMax]` at which the ray meets the
      sphere, and nothing exactly when the ray does not meet it inside the interval. */
  lemma LeastRoot<M>(s: Sphere<M>, ray: Ray, tMin: real, tMax: Bound)
    requires SquareRootsExist()
    requires CanHit(s, ray)
    ensures var r := SphereHit(s, ray, tMin, tMax);
      r.Some? ==> forall t :: InInterval(t, tMin, tMax) && OnSphere(s, At(ray, t)) ==> r.value.t <= t
    ensures SphereHit(s, ray, tMin, tMax).None? <==>
      forall t :: InInterval(t, tMin, tMax) ==> !OnSphere(s, At(ray, t))
  {
    var r := SphereHit(s, ray, tMin, tMax);
    forall t | InInterval(t, tMin, tMax) && OnSphere(s, At(ray, t))
      ensures r.Some? && r.value.t <= t
    {
      RootsOnSphere(s, ray, t);
      NearNotAfterFar(s, ray);
    }
    if r.Some? {
      RootsOnSphere(s, ray, r.value.t);
    }
  }
}
