/** `Material::scatter` of raytracer/src/material.rs: how a surface turns an incoming ray
    into an attenuated outgoing ray, or absorbs it. */
module Materials {
  import opened Options
  import opened Roots
  import opened Rng
  import Colors
  import opened Vectors
  import opened Rays
  import opened Hits

  datatype Material = Lambertian(albedo: Colors.Color) | Metal(albedo: Colors.Color, fuzz: real)

  datatype ScatterResult = Absorbed | Scattered(attenuation: Colors.Color, scattered: Ray)

  /** The diffuse direction `normal + sample`, replaced by the normal itself when the sum
      is near zero. The result is near zero only if the normal is. */
  function LambertianDirection(normal: Vector3, sample: Vector3): (dir: Vector3)
    ensures NearZero(Add(normal, sample)) ==> dir == normal
    ensures !NearZero(Add(normal, sample)) ==> dir == Add(normal, sample)
    ensures NearZero(dir) ==> dir == normal
  {
    var direction := Add(normal, sample);
    if NearZero(direction) then normal else direction
  }

  /** The mirror direction of the normalised incoming direction, perturbed by the sample
      scaled by `fuzz`. */
  ghost function MetalDirection(incoming: Vector3, normal: Vector3, sample: Vector3, fuzz: real): Vector3
    requires incoming != Zero
  {
    Add(Reflect(Normalize(incoming), normal), MulS(sample, fuzz))
  }

  /** `Material::scatter`, drawing its sample from `d`. A Metal normalises the incoming
      direction, so that direction must not be zero. Every scattered ray leaves from the
      hit point, carries the albedo as attenuation, and has a direction that is not zero
      when the normal is not near zero. */
  ghost function Scatter(m: Material, ray: Ray, hit: HitData<Material>, d: Draws): (r: Option<Sample<ScatterResult>>)
    requires m.Metal? ==> ray.direction != Zero
    ensures r.None? <==> RandomInUnitSphere(d).None?
    ensures r.Some? ==> Consumed(d, r.value.rest)
    ensures m.Lambertian? && r.Some? ==> r.value.value.Scattered?
    ensures r.Some? && r.value.value.Scattered? ==>
      r.value.value.attenuation == m.albedo && r.value.value.scattered.origin == hit.point
    ensures r.Some? && r.value.value.Scattered? && !NearZero(hit.normal) ==>
      r.value.value.scattered.direction != Zero
  {
    match m
    case Lambertian(albedo) =>
      (match RandomNormalized(d)
       case None => None
       case Some(Sample(sample, rest)) =>
         var direction := LambertianDirection(hit.normal, sample);
         NearZeroProperties(direction);
         Some(Sample(Scattered(albedo, Ray(hit.point, direction)), rest)))
    case Metal(albedo, fuzz) =>
      match RandomInUnitSphere(d)
      case None => None
      case Some(Sample(sample, rest)) =>
        var direction := MetalDirection(ray.direction, hit.normal, sample, fuzz);
        if Dot(direction, hit.normal) > 0.0 then
          Some(Sample(Scattered(albedo, Ray(hit.point, direction)), rest))
        else
          Some(Sample(Absorbed, rest))
  }

  /** A Lambertian surface scatters along `normal + sample` for the unit-sphere sample it
      draws, or along the normal when that sum is near zero. */
  lemma LambertianScatter(albedo: Colors.Color, ray: Ray, hit: HitData<Material>, d: Draws)
    requires RandomNormalized(d).Some?
    ensures var v := RandomNormalized(d).value.value;
      var r := Scatter(Lambertian(albedo), ray, hit, d);
      r.Some? && r.value.rest == RandomNormalized(d).value.rest &&
      r.value.value == Scattered(albedo, Ray(hit.point, r.value.value.scattered.direction)) &&
      (if NearZero(Add(hit.normal, v)) then r.value.value.scattered.direction == hit.normal
       else r.value.value.scattered.direction == Add(hit.normal, v))
  {
  }

  /** About a unit normal, the diffuse direction for a sample inside the unit sphere
      leaves on the normal's side: its normal component is `1 + sample·normal > 0`, or 1
      when the normal itself is used. */
  lemma LambertianLeavesSurface(normal: Vector3, sample: Vector3)
    requires LengthSquared(normal) == 1.0 && LengthSquared(sample) < 1.0
    ensures Dot(LambertianDirection(normal, sample), normal) > 0.0
  {
    LengthSquaredIsDot(normal);
    ShortComponent(sample, normal);
  }

  /** About a unit normal, a Lambertian surface that has draws left always scatters, and
      into the half-space the normal points to. */
  lemma LambertianScattersOutward(albedo: Colors.Color, ray: Ray, hit: HitData<Material>, d: Draws)
    requires LengthSquared(hit.normal) == 1.0
    ensures var r := Scatter(Lambertian(albedo), ray, hit, d);
      r.Some? ==> r.value.value.Scattered? && Dot(r.value.value.scattered.direction, hit.normal) > 0.0
  {
    if RandomNormalized(d).Some? {
      LambertianScatter(albedo, ray, hit, d);
      LambertianLeavesSurface(hit.normal, RandomNormalized(d).value.value);
    }
  }

  /** A Metal scatters exactly when the perturbed mirror direction leaves on the side the
      normal points to, and then along that direction. */
  lemma MetalScatter(albedo: Colors.Color, fuzz: real, ray: Ray, hit: HitData<Material>, d: Draws)
    requires ray.direction != Zero && RandomInUnitSphere(d).Some?
    ensures var v := RandomInUnitSphere(d).value.value;
      var direction := MetalDirection(ray.direction, hit.normal, v, fuzz);
      var r := Scatter(Metal(albedo, fuzz), ray, hit, d);
      r.Some? && (r.value.value.Scattered? <==> Dot(direction, hit.normal) > 0.0) &&
      (r.value.value.Scattered? ==> r.value.value.scattered == Ray(hit.point, direction))
  {
  }

  /** Without fuzz a Metal is a mirror: it reflects the normalised incoming direction, and
      about a unit normal it scatters exactly when the ray arrives against the normal. */
  lemma MirrorMetal(albedo: Colors.Color, ray: Ray, hit: HitData<Material>, d: Draws)
    requires ray.direction != Zero && RandomInUnitSphere(d).Some?
    requires LengthSquared(hit.normal) == 1.0
    ensures var r := Scatter(Metal(albedo, 0.0), ray, hit, d);
      r.Some? &&
      (r.value.value.Scattered? <==> Dot(ray.direction, hit.normal) < 0.0) &&
      (r.value.value.Scattered? ==>
        r.value.value.scattered.direction == Reflect(Normalize(ray.direction), hit.normal))
  {
    var v := RandomInUnitSphere(d).value.value;
    var unit := Normalize(ray.direction);
    assert MulS(v, 0.0) == Zero;
    assert MetalDirection(ray.direction, hit.normal, v, 0.0) == Reflect(unit, hit.normal);
    ReflectAboutUnit(unit, hit.normal);
    NormalizeSameSide(ray.direction, hit.normal);
  }

  /** Normalising a direction does not change which side of a plane it points to. */
  lemma NormalizeSameSide(v: Vector3, n: Vector3)
    requires v != Zero
    ensures Dot(Normalize(v), n) < 0.0 <==> Dot(v, n) < 0.0
  {
    LengthSquaredPositive(v);
    var len := Length(v);
    var w := Normalize(v);
    assert w == DivS(v, len);
    var k := 1.0 / len;
    assert k > 0.0;
    assert w == MulS(v, k);
    DotScaled(n, v, k);
    DotSymmetric(n, v);
    DotSymmetric(n, w);
    SignOfScaled(Dot(v, n), k);
  }
}
