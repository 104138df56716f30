/** `ray_color` of headless/src/main.rs: follow a ray through the scene for at most `depth`
    bounces, multiplying the attenuations of the surfaces it scatters from, and end on the
    sky, on black when absorbed, or on black when the depth runs out. The earlier snapshot
    src/main.rs has the same recursion with the sky colours written into it. */
module Render {
  import opened Options
  import opened Roots
  import opened Rng
  import Colors
  import opened Vectors
  import opened Rays
  import opened Hits
  import opened Spheres
  import opened Materials
  import opened Scenes

  /** The lower end of every scene query, which keeps a scattered ray from hitting the
      surface it leaves. */
  const TMin: real := 0.001

  /** Every sphere has a radius, so every query with a directed ray is defined. */
  predicate ValidScene(scene: Scene<Material>) {
    forall i :: 0 <= i < |scene.objects| ==> scene.objects[i].radius != 0.0
  }

  /** The colour of the sky behind a ray that hits nothing. */
  ghost function SkyColor(sky: Sky, ray: Ray): Colors.Color
    requires ray.direction != Zero
  {
    var unit := Normalize(ray.direction);
    GetColor(sky, (unit.y + 1.0) * 0.5)
  }

  /** A scene hit carries a unit normal, which is never near zero. */
  lemma SceneHitNormal(scene: Scene<Material>, ray: Ray)
    requires SquareRootsExist()
    requires ValidScene(scene) && ray.direction != Zero
    ensures var r := SceneHit(scene.objects, ray, TMin, Unbounded);
      r.Some? ==>
        LengthSquared(r.value.normal) == 1.0 && !NearZero(r.value.normal) &&
        exists k :: 0 <= k < |scene.objects| && r.value.material == scene.objects[k].material
  {
    var r := SceneHit(scene.objects, ray, TMin, Unbounded);
    SceneHitNearest(scene.objects, ray, TMin, Unbounded);
    if r.Some? {
      var k :| IsLastMinimum(Queries(scene.objects, ray, TMin, Unbounded), k) &&
               r == SphereHit(scene.objects[k], ray, TMin, Unbounded);
      HitOnSphere(scene.objects[k], ray, TMin, Unbounded);
      NearZeroProperties(r.value.normal);
      assert 3.0 * Tolerance * Tolerance < 1.0;
    }
  }

  /** `ray_color(ray, scene, depth, rand)`, drawing from `d`; `None` when the draws run
      out. At depth zero it is black whatever the scene, and it never consumes more draws
      than it has. */
  ghost function RayColor(ray: Ray, scene: Scene<Material>, depth: nat, d: Draws): (r: Option<Sample<Colors.Color>>)
    requires SquareRootsExist()
    requires ValidScene(scene) && ray.direction != Zero
    ensures depth == 0 ==> r == Some(Sample(Colors.Black, d))
    ensures r.Some? ==> Remains(d, r.value.rest)
    ensures r.Some? && UnitScene(scene) ==> Colors.InUnitCube(r.value.value)
    decreases depth
  {
    if depth == 0 then Some(Sample(Colors.Black, d))
    else
      match SceneHit(scene.objects, ray, TMin, Unbounded)
      case None =>
        SkyInUnitCube(scene, ray);
        Some(Sample(SkyColor(scene.sky, ray), d))
      case Some(hit) =>
        SceneHitNormal(scene, ray);
        HitAlbedoInUnitCube(scene, ray);
        match Scatter(hit.material, ray, hit, d)
        case None => None
        case Some(Sample(Absorbed, rest)) => Some(Sample(Colors.Black, rest))
        case Some(Sample(Scattered(attenuation, scattered), rest)) =>
          match RayColor(scattered, scene, depth - 1, rest)
          case None => None
          case Some(Sample(c, rest2)) =>
            RemainsTransitive(d, rest, rest2);
            TintInUnitCube(attenuation, c);
            Some(Sample(Colors.Mul(attenuation, c), rest2))
  }

  /** The number of scatter steps `ray_color` takes: one per level of recursion, so never
      more than the depth. */
  ghost function ScatterSteps(ray: Ray, scene: Scene<Material>, depth: nat, d: Draws): (n: nat)
    requires SquareRootsExist()
    requires ValidScene(scene) && ray.direction != Zero
    ensures n <= depth
    ensures n > 0 ==> SceneHit(scene.objects, ray, TMin, Unbounded).Some?
    decreases depth
  {
    if depth == 0 then 0
    else
      match SceneHit(scene.objects, ray, TMin, Unbounded)
      case None => 0
      case Some(hit) =>
        SceneHitNormal(scene, ray);
        match Scatter(hit.material, ray, hit, d)
        case Some(Sample(Scattered(_, scattered), rest)) => 1 + ScatterSteps(scattered, scene, depth - 1, rest)
        case _ => 1
  }

  /** A path that scatters at every level of the recursion runs into the depth limit, so it
      contributes black whatever the attenuations, unless the draws run out first. */
  lemma {:induction false} DepthLimitIsBlack(ray: Ray, scene: Scene<Material>, depth: nat, d: Draws)
    requires SquareRootsExist()
    requires ValidScene(scene) && ray.direction != Zero
    ensures var r := RayColor(ray, scene, depth, d);
      ScatterSteps(ray, scene, depth, d) == depth ==> r.None? || r.value.value == Colors.Black
    decreases depth
  {
    if depth > 0 {
      match SceneHit(scene.objects, ray, TMin, Unbounded)
      case None =>
      case Some(hit) =>
        ScatteredDirected(scene, ray, d);
        match Scatter(hit.material, ray, hit, d)
        case None =>
        case Some(Sample(Absorbed, rest)) =>
        case Some(Sample(Scattered(attenuation, scattered), rest)) =>
          DepthLimitIsBlack(scattered, scene, depth - 1, rest);
          Colors.MulIdentities(attenuation);
    }
  }

  /** The ray a surface of the scene scatters is directed, since the hit normal is a unit
      vector. */
  lemma ScatteredDirected(scene: Scene<Material>, ray: Ray, d: Draws)
    requires SquareRootsExist()
    requires ValidScene(scene) && ray.direction != Zero
    ensures var h := SceneHit(scene.objects, ray, TMin, Unbounded);
      h.Some? ==>
        var s := Scatter(h.value.material, ray, h.value, d);
        s.Some? && s.value.value.Scattered? ==> s.value.value.scattered.direction != Zero
  {
    SceneHitNormal(scene, ray);
  }

  // ---- the iterative reference ------------------------------------------------------

  /** Multiply a sampled colour by `k`. */
  function Tint(k: Colors.Color, r: Option<Sample<Colors.Color>>): Option<Sample<Colors.Color>> {
    match r
    case None => None
    case Some(Sample(c, rest)) => Some(Sample(Colors.Mul(k, c), rest))
  }

  /** The path traced as a loop: carry the product of the attenuations met so far and
      apply it to the colour the path ends on. */
  ghost function TraceFrom(throughput: Colors.Color, ray: Ray, scene: Scene<Material>, depth: nat, d: Draws): (r: Option<Sample<Colors.Color>>)
    requires SquareRootsExist()
    requires ValidScene(scene) && ray.direction != Zero
    ensures r == Tint(throughput, RayColor(ray, scene, depth, d))
    decreases depth
  {
    Colors.MulIdentities(throughput);
    if depth == 0 then Some(Sample(Colors.Black, d))
    else
      match SceneHit(scene.objects, ray, TMin, Unbounded)
      case None => Some(Sample(Colors.Mul(throughput, SkyColor(scene.sky, ray)), d))
      case Some(hit) =>
        SceneHitNormal(scene, ray);
        match Scatter(hit.material, ray, hit, d)
        case None => None
        case Some(Sample(Absorbed, rest)) => Some(Sample(Colors.Black, rest))
        case Some(Sample(Scattered(attenuation, scattered), rest)) =>
          TintTwice(throughput, attenuation, RayColor(scattered, scene, depth - 1, rest));
          TraceFrom(Colors.Mul(throughput, attenuation), scattered, scene, depth - 1, rest)
  }

  /** Tinting by two colours in turn is tinting by their product. */
  lemma TintTwice(k: Colors.Color, k': Colors.Color, r: Option<Sample<Colors.Color>>)
    ensures Tint(k, Tint(k', r)) == Tint(Colors.Mul(k, k'), r)
  {
    if r.Some? {
      Colors.MulAssociative(k, k', r.value.value);
    }
  }

  /** Started from white, the loop computes exactly `ray_color`. */
  lemma TraceFromWhite(ray: Ray, scene: Scene<Material>, depth: nat, d: Draws)
    requires SquareRootsExist()
    requires ValidScene(scene) && ray.direction != Zero
    ensures TraceFrom(Colors.White, ray, scene, depth, d) == RayColor(ray, scene, depth, d)
  {
    TintWhite(RayColor(ray, scene, depth, d));
  }

  lemma TintWhite(r: Option<Sample<Colors.Color>>)
    ensures Tint(Colors.White, r) == r
  {
    if r.Some? {
      Colors.MulIdentities(r.value.value);
    }
  }

  // ---- what the colour can be ---------------------------------------------------------

  /** A ray that hits nothing and points straight up shows the top of the sky; straight
      down, the bottom. */
  lemma MissShowsSky(scene: Scene<Material>, origin: Vector3, k: real, depth: nat, d: Draws)
    requires SquareRootsExist()
    requires ValidScene(scene) && k > 0.0 && depth > 0
    ensures var up := Ray(origin, Vector3(0.0, k, 0.0));
      SceneHit(scene.objects, up, TMin, Unbounded).None? ==>
        RayColor(up, scene, depth, d) == Some(Sample(scene.sky.top, d))
    ensures var down := Ray(origin, Vector3(0.0, -k, 0.0));
      SceneHit(scene.objects, down, TMin, Unbounded).None? ==>
        RayColor(down, scene, depth, d) == Some(Sample(scene.sky.bottom, d))
  {
    NormalizeVertical(k);
  }

  /** The sky colour lies between the bottom and top of the sky, channel by channel. */
  lemma SkyColorBetween(sky: Sky, ray: Ray)
    requires SquareRootsExist()
    requires ray.direction != Zero
    requires Colors.InUnitCube(sky.top) && Colors.InUnitCube(sky.bottom)
    ensures Colors.InUnitCube(SkyColor(sky, ray))
  {
    var unit := Normalize(ray.direction);
    NormalizeUnit(ray.direction);
    UnitComponent(unit.x, unit.y, unit.z);
    SkyBetween(sky, (unit.y + 1.0) * 0.5);
  }

  lemma UnitComponent(x: real, y: real, z: real)
    requires x * x + y * y + z * z == 1.0
    ensures -1.0 <= y <= 1.0
  {
    if y > 1.0 {
      SquareMonotone(1.0, y);
    } else if y < -1.0 {
      SquareMonotone(1.0, -y);
    }
  }

  /** Every albedo of the scene and both ends of the sky have channels in `[0, 1]`. */
  predicate UnitScene(scene: Scene<Material>) {
    Colors.InUnitCube(scene.sky.top) && Colors.InUnitCube(scene.sky.bottom) &&
    forall i :: 0 <= i < |scene.objects| ==> Colors.InUnitCube(scene.objects[i].material.albedo)
  }

  /** With a sky in `[0, 1]`, the colour behind a missed ray is in `[0, 1]`. */
  lemma SkyInUnitCube(scene: Scene<Material>, ray: Ray)
    requires SquareRootsExist()
    requires ray.direction != Zero
    ensures UnitScene(scene) ==> Colors.InUnitCube(SkyColor(scene.sky, ray))
  {
    if UnitScene(scene) {
      SkyColorBetween(scene.sky, ray);
    }
  }

  /** The surface a ray hits is one of the scene's, so with albedos in `[0, 1]` its albedo
      is in `[0, 1]`. */
  lemma HitAlbedoInUnitCube(scene: Scene<Material>, ray: Ray)
    requires SquareRootsExist()
    requires ValidScene(scene) && ray.direction != Zero
    ensures var h := SceneHit(scene.objects, ray, TMin, Unbounded);
      h.Some? && UnitScene(scene) ==> Colors.InUnitCube(h.value.material.albedo)
  {
    SceneHitNormal(scene, ray);
    var h := SceneHit(scene.objects, ray, TMin, Unbounded);
    if h.Some? && UnitScene(scene) {
      var k :| 0 <= k < |scene.objects| && h.value.material == scene.objects[k].material;
      assert Colors.InUnitCube(scene.objects[k].material.albedo);
    }
  }

  /** Tinting a colour of `[0, 1]` by an attenuation of `[0, 1]` stays in `[0, 1]`. */
  lemma TintInUnitCube(attenuation: Colors.Color, c: Colors.Color)
    ensures Colors.InUnitCube(attenuation) && Colors.InUnitCube(c) ==>
      Colors.InUnitCube(Colors.Mul(attenuation, c))
  {
    if Colors.InUnitCube(attenuation) && Colors.InUnitCube(c) {
      Colors.MulInUnitCube(attenuation, c);
    }
  }

  // ---- the earlier snapshot -----------------------------------------------------------

  /** The sky src/main.rs writes into its `ray_color`: white at the bottom, light blue at
      the top. */
  const EarlySky := Sky(Colors.Color(0.5, 0.7, 1.0), Colors.White)

  /** `ray_color` of src/main.rs, over a scene of spheres without a sky of its own. */
  ghost function EarlyRayColor(ray: Ray, objects: seq<Sphere<Material>>, depth: nat, d: Draws): (r: Option<Sample<Colors.Color>>)
    requires SquareRootsExist()
    requires ValidScene(Scene(objects, EarlySky)) && ray.direction != Zero
    ensures depth == 0 ==> r == Some(Sample(Colors.Black, d))
  {
    RayColor(ray, Scene(objects, EarlySky), depth, d)
  }

  /** The written-in gradient: straight up gives `(0.5, 0.7, 1.0)`, straight down white,
      and every colour of it lies in `[0, 1]`. */
  lemma EarlySkyGradient(ray: Ray)
    requires SquareRootsExist()
    requires ray.direction != Zero
    ensures GetColor(EarlySky, 1.0) == Colors.Color(0.5, 0.7, 1.0)
    ensures GetColor(EarlySky, 0.0) == Colors.White
    ensures Colors.InUnitCube(SkyColor(EarlySky, ray))
  {
    SkyColorBetween(EarlySky, ray);
  }
}
