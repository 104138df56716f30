/** `Ray` of raytracer/src/ray.rs (and of the `ray` module of expanded.rs): a half-line
    from `origin` along `direction`, parameterised by `t`. */
module Rays {
  import opened Vectors

  datatype Ray = Ray(origin: Vector3, direction: Vector3)

  /** `at(t)`: the point reached after travelling `t` times the direction. */
  function At(ray: Ray, t: real): (p: Vector3)
    ensures p.x == ray.origin.x + ray.direction.x * t
    ensures p.y == ray.origin.y + ray.direction.y * t
    ensures p.z == ray.origin.z + ray.direction.z * t
  {
    Add(ray.origin, MulS(ray.direction, t))
  }

  /** The ray starts at its origin, and a ray without direction never leaves it. */
  lemma AtOrigin(ray: Ray, t: real)
    ensures At(ray, 0.0) == ray.origin
    ensures ray.direction == Zero ==> At(ray, t) == ray.origin
  {
  }

  /** Travelling `t` and then `s` further is travelling `t + s`. */
  lemma AtShift(ray: Ray, t: real, s: real)
    ensures At(ray, t + s) == Add(At(ray, t), MulS(ray.direction, s))
  {
    ShiftComponent(ray.origin.x, ray.direction.x, t, s);
    ShiftComponent(ray.origin.y, ray.direction.y, t, s);
    ShiftComponent(ray.origin.z, ray.direction.z, t, s);
  }

  lemma ShiftComponent(o: real, d: real, t: real, s: real)
    ensures o + d * (t + s) == (o + d * t) + d * s
  {
  }
}
