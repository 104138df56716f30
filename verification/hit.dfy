/** The hit record and the `Hit` contract of raytracer/src/hit.rs; `Face::get` is identical
    in the earlier snapshot src/hit.rs. */
module Hits {
  import opened Vectors
  import opened Rays

  /** Which side of the surface the ray arrives from: `Outwards` when it meets the outward
      normal head-on, `Inwards` otherwise. */
  datatype Face = Inwards | Outwards

  /** `Face::get`: the sign of `direction . normal` decides the face; a grazing ray, with a
      dot product of zero, counts as `Inwards`. */
  function GetFace(ray: Ray, normal: Vector3): (f: Face)
    ensures f == Outwards <==> Dot(ray.direction, normal) < 0.0
    ensures f == Inwards <==> Dot(ray.direction, normal) >= 0.0
  {
    if Dot(ray.direction, normal) < 0.0 then Outwards else Inwards
  }

  /** The record an intersection produces. `M` is the material type; the source stores a
      borrowed reference to the object's material. */
  datatype HitData<M> = HitData(t: real, normal: Vector3, point: Vector3, face: Face, material: M)

  /** The upper end of a query interval; `Unbounded` stands for `f64::INFINITY`. */
  datatype Bound = AtMost(limit: real) | Unbounded

  /** `t` does not exceed the bound. */
  predicate Below(t: real, b: Bound) {
    b.Unbounded? || t <= b.limit
  }

  /** The closed query interval `[t_min, t_max]` of `Hit::hit`. */
  predicate InInterval(t: real, tMin: real, tMax: Bound) {
    tMin <= t && Below(t, tMax)
  }

  /** Bound `b` is at most bound `c`. */
  predicate BoundLe(b: Bound, c: Bound) {
    c.Unbounded? || (b.AtMost? && b.limit <= c.limit)
  }

  lemma BelowMonotone(t: real, b: Bound, c: Bound)
    requires Below(t, b) && BoundLe(b, c)
    ensures Below(t, c)
  {
  }

  /** Scaling the normal by a positive factor keeps the face. */
  lemma FaceScaleInvariant(ray: Ray, normal: Vector3, k: real)
    requires k > 0.0
    ensures GetFace(ray, MulS(normal, k)) == GetFace(ray, normal)
  {
    DotScaled(ray.direction, normal, k);
    SignOfScaled(Dot(ray.direction, normal), k);
  }

  /** Negating the normal swaps the faces unless the ray grazes the surface. */
  lemma FaceNegation(ray: Ray, normal: Vector3)
    ensures Dot(ray.direction, normal) != 0.0 ==> GetFace(ray, Neg(normal)) != GetFace(ray, normal)
    ensures Dot(ray.direction, normal) == 0.0 ==> GetFace(ray, Neg(normal)) == Inwards
    ensures Dot(ray.direction, normal) == 0.0 ==> GetFace(ray, normal) == Inwards
  {
    DotNegated(ray.direction, normal);
  }

  lemma DotScaled(u: Vector3, v: Vector3, k: real)
    ensures Dot(u, MulS(v, k)) == Dot(u, v) * k
  {
    var w := MulS(v, k);
    assert u.x * w.x == (u.x * v.x) * k;
    assert u.y * w.y == (u.y * v.y) * k;
    assert u.z * w.z == (u.z * v.z) * k;
  }

  lemma SignOfScaled(a: real, k: real)
    requires k > 0.0
    ensures a * k < 0.0 <==> a < 0.0
  {
    if a < 0.0 {
      assert a * k < 0.0 * k;
    } else {
      assert a * k >= 0.0 * k;
    }
  }
}
