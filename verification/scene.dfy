/** `Sky` and `Scene::hit` of raytracer/src/scene.rs. The scan over the objects is the same
    in the earlier snapshot src/scene.rs, whose scene has no sky. */
module Scenes {
  import opened Options
  import opened Roots
  import Colors
  import opened Vectors
  import opened Rays
  import opened Hits
  import opened Spheres

  // ---- sky ------------------------------------------------------------------------

  datatype Sky = Sky(top: Colors.Color, bottom: Colors.Color)

  /** `get_color(t)`: the blend `bottom (1 - t) + top t`. */
  function GetColor(sky: Sky, t: real): (c: Colors.Color)
    ensures t == 0.0 ==> c == sky.bottom
    ensures t == 1.0 ==> c == sky.top
  {
    Colors.Add(Colors.MulS(sky.bottom, 1.0 - t), Colors.MulS(sky.top, t))
  }

  /** `x` lies between `a` and `b`, in either order. */
  predicate Between(x: real, a: real, b: real) {
    (a <= x <= b) || (b <= x <= a)
  }

  /** For `t` in `[0, 1]` each channel of the sky lies between the bottom and top channels. */
  lemma SkyBetween(sky: Sky, t: real)
    requires 0.0 <= t <= 1.0
    ensures Between(GetColor(sky, t).r, sky.bottom.r, sky.top.r)
    ensures Between(GetColor(sky, t).g, sky.bottom.g, sky.top.g)
    ensures Between(GetColor(sky, t).b, sky.bottom.b, sky.top.b)
  {
    Blend(GetColor(sky, t).r, sky.bottom.r, sky.top.r, t);
    Blend(GetColor(sky, t).g, sky.bottom.g, sky.top.g, t);
    Blend(GetColor(sky, t).b, sky.bottom.b, sky.top.b, t);
  }

  lemma Blend(x: real, a: real, b: real, t: real)
    requires 0.0 <= t <= 1.0 && x == a * (1.0 - t) + b * t
    ensures Between(x, a, b)
  {
    var lo := if a <= b then a else b;
    var hi := if a <= b then b else a;
    WeightedBounds(a, b, 1.0 - t, t, lo, hi);
    SplitWeight(lo, t);
    SplitWeight(hi, t);
  }

  /** The two weights of a blend add up to one. */
  lemma SplitWeight(x: real, t: real)
    ensures x * (1.0 - t) + x * t == x
  {
  }

  /** With non-negative weights, a weighted sum of values in `[lo, hi]` lies between the
      same weighted sums of `lo` and of `hi`. */
  lemma WeightedBounds(a: real, b: real, u: real, t: real, lo: real, hi: real)
    requires 0.0 <= u && 0.0 <= t
    requires lo <= a <= hi && lo <= b <= hi
    ensures lo * u + lo * t <= a * u + b * t <= hi * u + hi * t
  {
    WeightedMonotone(lo, lo, a, b, u, t);
    WeightedMonotone(a, b, hi, hi, u, t);
  }

  /** A weighted sum with non-negative weights grows with its values. */
  lemma WeightedMonotone(a: real, b: real, a': real, b': real, u: real, t: real)
    requires 0.0 <= u && 0.0 <= t
    requires a <= a' && b <= b'
    ensures a * u + b * t <= a' * u + b' * t
  {
    ScaleMonotone(a, a', u);
    ScaleMonotone(b, b', t);
    AddBounds(a * u, b * t, a' * u, b' * t);
  }

  /** Scaling by a non-negative factor keeps the order. */
  lemma ScaleMonotone(x: real, y: real, c: real)
    requires x <= y && 0.0 <= c
    ensures x * c <= y * c
  {
    assert (y - x) * c >= 0.0;
  }

  lemma AddBounds(p: real, q: real, p': real, q': real)
    requires p <= p' && q <= q'
    ensures p + q <= p' + q'
  {
  }

  // ---- the scene and its nearest-hit scan --------------------------------------------

  datatype Scene<M> = Scene(objects: seq<Sphere<M>>, sky: Sky)

  /** Every object can be queried with the ray. */
  predicate AllCanHit<M>(objects: seq<Sphere<M>>, ray: Ray) {
    forall i :: 0 <= i < |objects| ==> CanHit(objects[i], ray)
  }

  /** The loop state of `Scene::hit`: the best hit so far and the upper bound for the next
      query. */
  datatype ScanState<M> = ScanState(best: Option<HitData<M>>, bestDistance: Bound)

  /** The state the scan starts from, or reaches after finding `best`. */
  function StateOf<M>(best: Option<HitData<M>>, tMax: Bound): ScanState<M> {
    match best
    case None => ScanState(None, tMax)
    case Some(h) => ScanState(best, AtMost(h.t))
  }

  /** One iteration: query the object up to the current best distance, and keep its hit
      if there is one. The bound never grows. */
  ghost function Step<M>(st: ScanState<M>, o: Sphere<M>, ray: Ray, tMin: real): (next: ScanState<M>)
    requires CanHit(o, ray)
    ensures BoundLe(next.bestDistance, st.bestDistance)
    ensures next.best != st.best ==>
      next.best.Some? && next.best == SphereHit(o, ray, tMin, st.bestDistance) &&
      next.bestDistance == AtMost(next.best.value.t)
  {
    match SphereHit(o, ray, tMin, st.bestDistance)
    case None => st
    case Some(h) => ScanState(Some(h), AtMost(h.t))
  }

  /** The `for` loop over the objects, from `st`. */
  ghost function Scan<M>(objects: seq<Sphere<M>>, ray: Ray, tMin: real, st: ScanState<M>): (final: ScanState<M>)
    requires AllCanHit(objects, ray)
    ensures BoundLe(final.bestDistance, st.bestDistance)
    decreases |objects|
  {
    if |objects| == 0 then st
    else Scan(objects[1..], ray, tMin, Step(st, objects[0], ray, tMin))
  }

  /** `Scene::hit`: scan the objects starting from no hit and the caller's bound. */
  ghost function SceneHit<M>(objects: seq<Sphere<M>>, ray: Ray, tMin: real, tMax: Bound): (r: Option<HitData<M>>)
    requires AllCanHit(objects, ray)
  {
    Scan(objects, ray, tMin, ScanState(None, tMax)).best
  }

  // ---- the reference: the nearest of the independent queries -------------------------

  /** Each object queried on its own with the full interval. */
  ghost function Queries<M>(objects: seq<Sphere<M>>, ray: Ray, tMin: real, tMax: Bound): (hits: seq<Option<HitData<M>>>)
    requires AllCanHit(objects, ray)
    ensures |hits| == |objects|
    ensures forall i :: 0 <= i < |objects| ==> hits[i] == SphereHit(objects[i], ray, tMin, tMax)
    decreases |objects|
  {
    if |objects| == 0 then []
    else Queries(objects[..|objects| - 1], ray, tMin, tMax) + [SphereHit(objects[|objects| - 1], ray, tMin, tMax)]
  }

  /** Keep `h` over `acc` when it is at least as near. */
  function Nearer<M>(acc: Option<HitData<M>>, h: Option<HitData<M>>): Option<HitData<M>> {
    if h.Some? && (acc.None? || h.value.t <= acc.value.t) then h else acc
  }

  /** The nearest of a list of hits, preferring the later one on equal `t`. */
  function Nearest<M>(hits: seq<Option<HitData<M>>>): (r: Option<HitData<M>>)
    ensures r.Some? ==> r in hits
    decreases |hits|
  {
    if |hits| == 0 then None
    else Nearer(Nearest(hits[..|hits| - 1]), hits[|hits| - 1])
  }

  /** Position `k` holds a hit no farther than any other, and strictly nearer than every
      hit after it. */
  predicate IsLastMinimum<M>(hits: seq<Option<HitData<M>>>, k: int) {
    0 <= k < |hits| && hits[k].Some? &&
    (forall j :: 0 <= j < |hits| && hits[j].Some? ==> hits[k].value.t <= hits[j].value.t) &&
    (forall j :: k < j < |hits| && hits[j].Some? ==> hits[k].value.t < hits[j].value.t)
  }

  /** `Nearest` is `None` exactly when there is no hit, and otherwise the hit at the last
      position with the least `t`. */
  lemma {:induction false} NearestIsLastMinimum<M>(hits: seq<Option<HitData<M>>>)
    ensures Nearest(hits).None? <==> forall i :: 0 <= i < |hits| ==> hits[i].None?
    ensures Nearest(hits).Some? ==> exists k :: IsLastMinimum(hits, k) && hits[k] == Nearest(hits)
    decreases |hits|
  {
    if |hits| > 0 {
      var n := |hits| - 1;
      var front, last := hits[..n], hits[n];
      assert hits == front + [last];
      NearestIsLastMinimum(front);
      var acc := Nearest(front);
      if acc.None? {
        if last.Some? {
          LastIsMinimum(front, last);
        }
      } else {
        var k :| IsLastMinimum(front, k) && front[k] == acc;
        if last.Some? && last.value.t <= acc.value.t {
          LastBeatsMinimum(front, k, last);
        } else {
          MinimumSurvives(front, k, last);
        }
      }
    }
  }

  lemma LastIsMinimum<M>(front: seq<Option<HitData<M>>>, last: Option<HitData<M>>)
    requires forall i :: 0 <= i < |front| ==> front[i].None?
    requires last.Some?
    ensures IsLastMinimum(front + [last], |front|)
  {
  }

  lemma LastBeatsMinimum<M>(front: seq<Option<HitData<M>>>, k: int, last: Option<HitData<M>>)
    requires IsLastMinimum(front, k)
    requires last.Some? && last.value.t <= front[k].value.t
    ensures IsLastMinimum(front + [last], |front|)
  {
    var hits := front + [last];
    forall j | 0 <= j < |hits| && hits[j].Some?
      ensures last.value.t <= hits[j].value.t
    {
      if j < |front| {
        assert hits[j] == front[j];
      }
    }
  }

  lemma MinimumSurvives<M>(front: seq<Option<HitData<M>>>, k: int, last: Option<HitData<M>>)
    requires IsLastMinimum(front, k)
    requires last.None? || last.value.t > front[k].value.t
    ensures IsLastMinimum(front + [last], k) && (front + [last])[k] == front[k]
  {
    var hits := front + [last];
    forall j | 0 <= j < |hits| && hits[j].Some?
      ensures front[k].value.t <= hits[j].value.t
    {
      if j < |front| {
        assert hits[j] == front[j];
      }
    }
    forall j | k < j < |hits| && hits[j].Some?
      ensures front[k].value.t < hits[j].value.t
    {
      if j < |front| {
        assert hits[j] == front[j];
      }
    }
  }

  // ---- the scan computes the reference -------------------------------------------

  /** One step of the shrinking-bound scan takes the nearer of the state's hit and the
      object's own full-interval hit. */
  lemma StepIsNearer<M>(best: Option<HitData<M>>, o: Sphere<M>, ray: Ray, tMin: real, tMax: Bound)
    requires CanHit(o, ray)
    requires best.Some? ==> InInterval(best.value.t, tMin, tMax)
    ensures Step(StateOf(best, tMax), o, ray, tMin) ==
      StateOf(Nearer(best, SphereHit(o, ray, tMin, tMax)), tMax)
  {
    ShrinkBound(o, ray, tMin, StateOf(best, tMax).bestDistance, tMax);
  }

  /** Loop invariant of the scan: after the first `k` objects the state is that of the
      nearest of their full-interval hits. */
  lemma {:induction false} ScanFrom<M>(objects: seq<Sphere<M>>, ray: Ray, tMin: real, tMax: Bound, k: nat)
    requires AllCanHit(objects, ray) && k <= |objects|
    ensures AllCanHit(objects[k..], ray) && AllCanHit(objects[..k], ray)
    ensures Scan(objects[k..], ray, tMin, StateOf(Nearest(Queries(objects[..k], ray, tMin, tMax)), tMax)) ==
      StateOf(Nearest(Queries(objects, ray, tMin, tMax)), tMax)
    decreases |objects| - k
  {
    SlicesCanHit(objects, ray, k);
    if k == |objects| {
      assert objects[..k] == objects;
      assert |objects[k..]| == 0;
    } else {
      ScanUnroll(objects, ray, tMin, tMax, k);
      ScanFrom(objects, ray, tMin, tMax, k + 1);
    }
  }

  /** Scanning from object `k` with the state of the first `k` hits is scanning from
      object `k + 1` with the state of the first `k + 1`. */
  lemma ScanUnroll<M>(objects: seq<Sphere<M>>, ray: Ray, tMin: real, tMax: Bound, k: nat)
    requires AllCanHit(objects, ray) && k < |objects|
    ensures AllCanHit(objects[k..], ray) && AllCanHit(objects[..k], ray)
    ensures AllCanHit(objects[k + 1..], ray) && AllCanHit(objects[..k + 1], ray)
    ensures Scan(objects[k..], ray, tMin, StateOf(Nearest(Queries(objects[..k], ray, tMin, tMax)), tMax)) ==
      Scan(objects[k + 1..], ray, tMin, StateOf(Nearest(Queries(objects[..k + 1], ray, tMin, tMax)), tMax))
  {
    SlicesCanHit(objects, ray, k);
    SlicesCanHit(objects, ray, k + 1);
    PrefixStep(objects, ray, tMin, tMax, k);
    var rest := objects[k..];
    assert rest[0] == objects[k];
    assert rest[1..] == objects[k + 1..];
  }

  lemma SlicesCanHit<M>(objects: seq<Sphere<M>>, ray: Ray, k: nat)
    requires AllCanHit(objects, ray) && k <= |objects|
    ensures AllCanHit(objects[k..], ray) && AllCanHit(objects[..k], ray)
  {
    forall i | 0 <= i < |objects| - k ensures CanHit(objects[k..][i], ray) {
      assert objects[k..][i] == objects[k + i];
    }
  }

  /** Stepping past object `k` from the nearest of the first `k` hits gives the nearest of
      the first `k + 1`. */
  lemma PrefixStep<M>(objects: seq<Sphere<M>>, ray: Ray, tMin: real, tMax: Bound, k: nat)
    requires AllCanHit(objects, ray) && k < |objects|
    ensures AllCanHit(objects[..k], ray) && AllCanHit(objects[..k + 1], ray)
    ensures Step(StateOf(Nearest(Queries(objects[..k], ray, tMin, tMax)), tMax), objects[k], ray, tMin) ==
      StateOf(Nearest(Queries(objects[..k + 1], ray, tMin, tMax)), tMax)
  {
    QueriesExtend(objects, ray, tMin, tMax, k);
    var pre := Queries(objects[..k], ray, tMin, tMax);
    NearestInInterval(objects[..k], ray, tMin, tMax);
    StepIsNearer(Nearest(pre), objects[k], ray, tMin, tMax);
    NearestExtend(pre, SphereHit(objects[k], ray, tMin, tMax));
  }

  lemma QueriesExtend<M>(objects: seq<Sphere<M>>, ray: Ray, tMin: real, tMax: Bound, k: nat)
    requires AllCanHit(objects, ray) && k < |objects|
    ensures AllCanHit(objects[..k], ray) && AllCanHit(objects[..k + 1], ray)
    ensures Queries(objects[..k + 1], ray, tMin, tMax) ==
      Queries(objects[..k], ray, tMin, tMax) + [SphereHit(objects[k], ray, tMin, tMax)]
  {
    SlicesCanHit(objects, ray, k);
    SlicesCanHit(objects, ray, k + 1);
    assert objects[..k + 1][..k] == objects[..k];
  }

  lemma NearestExtend<M>(front: seq<Option<HitData<M>>>, last: Option<HitData<M>>)
    ensures Nearest(front + [last]) == Nearer(Nearest(front), last)
  {
    assert (front + [last])[..|front|] == front;
  }

  /** The nearest of the full-interval hits lies in the interval. */
  lemma NearestInInterval<M>(objects: seq<Sphere<M>>, ray: Ray, tMin: real, tMax: Bound)
    requires AllCanHit(objects, ray)
    ensures var best := Nearest(Queries(objects, ray, tMin, tMax));
      best.Some? ==> InInterval(best.value.t, tMin, tMax)
  {
    var hits := Queries(objects, ray, tMin, tMax);
    if Nearest(hits).Some? {
      var i :| 0 <= i < |hits| && hits[i] == Nearest(hits);
    }
  }

  /** The scan with a shrinking bound returns the nearest of the objects' independent hits
      on the full interval. */
  lemma SceneHitIsNearest<M>(objects: seq<Sphere<M>>, ray: Ray, tMin: real, tMax: Bound)
    requires AllCanHit(objects, ray)
    ensures SceneHit(objects, ray, tMin, tMax) == Nearest(Queries(objects, ray, tMin, tMax))
  {
    ScanFrom(objects, ray, tMin, tMax, 0);
    assert objects[0..] == objects;
    assert Queries(objects[..0], ray, tMin, tMax) == [];
  }

  /** What `Scene::hit` returns: nothing for an empty scene; otherwise a hit in the
      interval, at least as near as every object's hit, coming from the last object that
      is hit that near. */
  lemma SceneHitNearest<M>(objects: seq<Sphere<M>>, ray: Ray, tMin: real, tMax: Bound)
    requires AllCanHit(objects, ray)
    ensures |objects| == 0 ==> SceneHit(objects, ray, tMin, tMax).None?
    ensures var r := SceneHit(objects, ray, tMin, tMax);
      r.None? <==> forall i :: 0 <= i < |objects| ==> SphereHit(objects[i], ray, tMin, tMax).None?
    ensures var r := SceneHit(objects, ray, tMin, tMax);
      r.Some? ==>
        InInterval(r.value.t, tMin, tMax) &&
        exists k :: IsLastMinimum(Queries(objects, ray, tMin, tMax), k) &&
                    r == SphereHit(objects[k], ray, tMin, tMax)
  {
    SceneHitIsNearest(objects, ray, tMin, tMax);
    NearestIsLastMinimum(Queries(objects, ray, tMin, tMax));
  }

  /** On equal distances the later object wins: when object `j` is hit as near as the
      scene's hit, no earlier object can be the one returned unless `j` is hit identically. */
  lemma LaterObjectWinsTies<M>(objects: seq<Sphere<M>>, ray: Ray, tMin: real, tMax: Bound, j: nat)
    requires AllCanHit(objects, ray) && j < |objects|
    requires SphereHit(objects[j], ray, tMin, tMax).Some?
    ensures var r := SceneHit(objects, ray, tMin, tMax);
      r.Some? && r.value.t <= SphereHit(objects[j], ray, tMin, tMax).value.t
    ensures var r := SceneHit(objects, ray, tMin, tMax);
      r.value.t == SphereHit(objects[j], ray, tMin, tMax).value.t ==>
        exists k :: j <= k < |objects| && r == SphereHit(objects[k], ray, tMin, tMax)
  {
    var hits := Queries(objects, ray, tMin, tMax);
    SceneHitIsNearest(objects, ray, tMin, tMax);
    NearestIsLastMinimum(hits);
    assert hits[j].Some?;
    var k :| IsLastMinimum(hits, k) && hits[k] == Nearest(hits);
  }

  /** With spheres, the scene returns the least parameter in `[tMin, tMax]` at which the
      ray meets any object, and nothing exactly when it meets none in the interval. */
  lemma SceneHitLeast<M>(objects: seq<Sphere<M>>, ray: Ray, tMin: real, tMax: Bound)
    requires SquareRootsExist()
    requires AllCanHit(objects, ray)
    ensures var r := SceneHit(objects, ray, tMin, tMax);
      r.Some? ==>
        forall i, t :: 0 <= i < |objects| && InInterval(t, tMin, tMax) && OnSphere(objects[i], At(ray, t))
          ==> r.value.t <= t
    ensures SceneHit(objects, ray, tMin, tMax).None? <==>
      forall i, t :: 0 <= i < |objects| && InInterval(t, tMin, tMax) ==> !OnSphere(objects[i], At(ray, t))
  {
    HitBeforeEveryCrossing(objects, ray, tMin, tMax);
    MissIffNoCrossing(objects, ray, tMin, tMax);
  }

  lemma HitBeforeEveryCrossing<M>(objects: seq<Sphere<M>>, ray: Ray, tMin: real, tMax: Bound)
    requires SquareRootsExist()
    requires AllCanHit(objects, ray)
    ensures var r := SceneHit(objects, ray, tMin, tMax);
      r.Some? ==>
        forall i, t :: 0 <= i < |objects| && InInterval(t, tMin, tMax) && OnSphere(objects[i], At(ray, t))
          ==> r.value.t <= t
  {
    var r := SceneHit(objects, ray, tMin, tMax);
    if r.Some? {
      var hits := Queries(objects, ray, tMin, tMax);
      SceneHitIsNearest(objects, ray, tMin, tMax);
      NearestIsLastMinimum(hits);
      var k :| IsLastMinimum(hits, k) && hits[k] == r;
      forall i, t | 0 <= i < |objects| && InInterval(t, tMin, tMax) && OnSphere(objects[i], At(ray, t))
        ensures r.value.t <= t
      {
        LeastRoot(objects[i], ray, tMin, tMax);
        assert hits[i].Some? && hits[i].value.t <= t;
      }
    }
  }

  lemma MissIffNoCrossing<M>(objects: seq<Sphere<M>>, ray: Ray, tMin: real, tMax: Bound)
    requires SquareRootsExist()
    requires AllCanHit(objects, ray)
    ensures SceneHit(objects, ray, tMin, tMax).None? <==>
      forall i, t :: 0 <= i < |objects| && InInterval(t, tMin, tMax) ==> !OnSphere(objects[i], At(ray, t))
  {
    var hits := Queries(objects, ray, tMin, tMax);
    SceneHitIsNearest(objects, ray, tMin, tMax);
    NearestIsLastMinimum(hits);
    forall i | 0 <= i < |objects|
      ensures hits[i].None? <==> forall t :: InInterval(t, tMin, tMax) ==> !OnSphere(objects[i], At(ray, t))
    {
      LeastRoot(objects[i], ray, tMin, tMax);
    }
  }
}
