# Path tracer kernel in Dafny

This project models the rendering kernel of a small Rust path tracer, in the style of
"Ray Tracing in One Weekend". The kernel covers:

- 3-vectors and colours with component-wise operators;
- rays, and ray–sphere intersection;
- the nearest-hit scan over a scene;
- Lambertian and metal scattering;
- the recursive `ray_color` with a sky gradient;
- a pinhole camera;
- the plain (`P3`) PPM writer;
- the headless renderer's pixel buffer, its passes and its final write.

The repository holds three snapshots of this logic:

- `raytracer/src/*` is the canonical library.
- `src/*` is an earlier version.
- `expanded.rs` is macro-expanded early code.

One set of definitions serves all three. Where a snapshot differs, the difference is a definition of its own:

- the early writer quantises without the sample division or the square root;
- the early `ray_color` has the sky written into it;
- the early `main` functions each have their own loop.

Numbers are `real`. The modules follow the source files:

| module | models |
|---|---|
| `Roots` | `f64::sqrt` |
| `Colors` | `color.rs` |
| `Vectors` | `vector.rs` |
| `Rays` | `ray.rs` |
| `Hits` | `hit.rs` |
| `Spheres` | `sphere.rs` |
| `Materials` | `material.rs` |
| `Scenes` | `scene.rs` |
| `Cameras` | `camera.rs` |
| `Ppm` | `image_writer.rs` |
| `Render` | `ray_color` of `headless/src/main.rs` and of `src/main.rs` |
| `Pixels` and `Headless` | the buffer layout, passes and output of `headless/src/main.rs` |
| `EarlyMain` | the loops of `src/main.rs` and `expanded.rs` |

Three choices run through the whole model.

**Randomness.** The random number generator is replaced by an explicit finite sequence of draws (`Rng.Draws`). An operation that draws returns the value together with the draws it left over. It returns `None` when the draws run out, because the source's rejection loop has no bound.

**Square roots.** `Roots.Sqrt` is the non-negative root, defined by choice. The fact that every non-negative real has a root is the named hypothesis `Roots.SquareRootsExist()`. It is true of the reals, so it rules out no input. It is required only where an exact root is needed.

**An unbounded `t_max`.** `f64::INFINITY` as an upper bound is modelled as `Hits.Bound.Unbounded`.

## Model

| member | source | states |
|---|---|---|
| `Roots.Sqrt` | raytracer/src/vector.rs:62-64 | The root is non-negative and is zero exactly for zero; when `x` has a root, it squares back to `x`. |
| `Roots.SqrtSquared` | raytracer/src/vector.rs:62-64 | Given that roots exist, `sqrt(x)² == x` for every `x >= 0`. |
| `Roots.SqrtOfSquare` | raytracer/src/vector.rs:62-64 | `sqrt(r²) == r` for every `r >= 0`. |
| `Roots.SqrtAtLeastOne` | raytracer/src/image_writer.rs:26-28 | The root of a number of at least 1 is at least 1. |
| `Colors.MakeColor` | raytracer/src/color.rs:11-13 | `color(r, g, b)` stores its three arguments unchanged. The same holds for src/color.rs:10-12. |
| `Colors.OperatorsComponentwise` | raytracer/src/color.rs:15-39 | `+ - * /` act channel by channel, both Color×Color and Color×scalar. The same holds for src/color.rs:14-38. |
| `Colors.CombineAssign` | raytracer/src/color.rs:41-47 | The Color compound-assign forms leave the receiver equal to the binary operator's result. |
| `Colors.ScaleAssign` | raytracer/src/color.rs:49-55 | The scalar compound-assign forms (`*= k`, …) leave the receiver equal to the binary operator's result. |
| `Colors.MulIdentities` | raytracer/src/color.rs:20-37 | Multiplying by black gives black, on either side. Multiplying by white, or by the scalar 1, is the identity. |
| `Colors.MulAssociative` | raytracer/src/color.rs:20-26 | The channel-wise product is associative. |
| `Colors.InverseOperators` | raytracer/src/color.rs:15-39 | Subtraction undoes addition. Division by a non-zero scalar undoes multiplication by it. |
| `Colors.MulInUnitCube` | raytracer/src/color.rs:20-26 | The product of two colours with channels in `[0, 1]` has channels in `[0, 1]`. |
| `Vectors.MakeVector` | raytracer/src/vector.rs:15-17 | `vector3(x, y, z)` stores its arguments unchanged. |
| `Vectors.OperatorsComponentwise` | raytracer/src/vector.rs:97-146 | Every binary operator acts component by component, both vector×vector and vector×scalar. The same holds for src/vector.rs:80-129 and expanded.rs:155-290. |
| `Vectors.CombineAssign` | raytracer/src/vector.rs:123-129 | `v op= w` leaves `v` equal to `v op w`. |
| `Vectors.ScaleAssign` | raytracer/src/vector.rs:131-137 | `v op= k` leaves `v` equal to `v op k`. |
| `Vectors.IntoColor` | raytracer/src/vector.rs:91-95 | `into()` maps `(x, y, z)` to `(r, g, b)` unchanged. The same holds for src/vector.rs:74-78. |
| `Vectors.RandomVector` | raytracer/src/vector.rs:20-26 | `random` takes exactly three draws as `(x, y, z)` and fails only when fewer than three are left. When every draw lies in `[-1, 1)`, so does every component. The same holds for src/vector.rs:17-23. |
| `Vectors.RandomInUnitSphere` | raytracer/src/vector.rs:28-38 | An accepted sample has `length_squared < 1`, and it consumes at least one draw. The same holds for src/vector.rs:25-35. |
| `Vectors.RejectionReturnsFirstAccepted` | raytracer/src/vector.rs:28-38 | After rejected triples, the first triple with `length_squared < 1` is returned with the draws after it. A triple with `length_squared >= 1` is rejected, and sampling continues with the next three draws. |
| `Vectors.UnitSphereSampleInCube` | raytracer/src/vector.rs:20-38 | When every draw lies in `[-1, 1)`, every component of the accepted sample does too. |
| `Vectors.RandomNormalized` | raytracer/src/vector.rs:44-46 | `random_normalized` returns exactly what `random_in_unit_sphere` returns. |
| `Vectors.RandomNormalizedIsNotUnit` | raytracer/src/vector.rs:44-46 | Draws `0, 0, 0` make `random_normalized` return the zero vector, of length 0. So it does not normalise. |
| `Vectors.DotSymmetric` | raytracer/src/vector.rs:54-56 | `u·v == v·u`. The same holds for src/vector.rs:37-39 and expanded.rs:131-133. |
| `Vectors.LengthSquaredIsDot` | raytracer/src/vector.rs:54-60 | `length_squared(v) == v·v >= 0`. The same holds for src/vector.rs:37-43. |
| `Vectors.LengthSquaredZero` | raytracer/src/vector.rs:58-60 | `length_squared` is non-negative and is zero exactly for the zero vector. |
| `Vectors.CrossOrthogonal` | raytracer/src/vector.rs:66-72 | `a·(a×b) == 0` and `b·(a×b) == 0`. The same holds for src/vector.rs:49-55 and expanded.rs:134-140. |
| `Vectors.CauchySchwarz` | raytracer/src/vector.rs:54-72 | Lagrange's identity `(u·u)(v·v) − (u·v)² == (u×v)·(u×v)`, and with it `(u·v)² <= (u·u)(v·v)`. |
| `Vectors.DotNegated` | raytracer/src/vector.rs:79-89 | Negating one operand negates the dot product. |
| `Vectors.ReflectFormula` | raytracer/src/vector.rs:40-42 | For every `n`, `reflect(v, n) == v − 2(v·n)n`. |
| `Vectors.ReflectAboutUnit` | raytracer/src/vector.rs:40-42 | For a unit normal, `reflect(v, n)·n == −(v·n)`: the normal component is negated. |
| `Vectors.ReflectTwice` | raytracer/src/vector.rs:40-42 | For a unit normal, reflecting twice gives back `v`. |
| `Vectors.NearZeroProperties` | raytracer/src/vector.rs:48-52 | The zero vector is near zero. A component of exactly ±1e-8 is not. A vector that is not near zero is not zero. A near-zero vector has `length_squared < 3·10⁻¹⁶`. |
| `Vectors.NormalizeUnit` | raytracer/src/vector.rs:74-76 | For `v ≠ 0`, `normalize(v)` has squared length 1 and length 1. The same holds for src/vector.rs:45-59. |
| `Vectors.NormalizeVertical` | raytracer/src/vector.rs:74-76 | `(0, k, 0)` normalises to `(0, 1, 0)` and `(0, −k, 0)` to `(0, −1, 0)`, for every `k > 0`. |
| `Vectors.LengthByDot` | expanded.rs:128-130 | `sqrt(dot(self, self))` is the length, non-negative, and zero exactly for the zero vector. |
| `Rays.At` | raytracer/src/ray.rs:10-12 | `at(t)` is `origin + direction·t`, component by component. The same holds for expanded.rs:76-78. |
| `Rays.AtOrigin` | raytracer/src/ray.rs:10-12 | `at(0) == origin`. With a zero direction, `at(t) == origin` for every `t`. |
| `Rays.AtShift` | raytracer/src/ray.rs:10-12 | `at(t + s) == at(t) + direction·s`. |
| `Hits.GetFace` | raytracer/src/hit.rs:15-21 | The face is `Outwards` exactly when `direction·normal < 0`, and `Inwards` exactly when `direction·normal >= 0`. The same holds for src/hit.rs:11-19. |
| `Hits.FaceScaleInvariant` | raytracer/src/hit.rs:16 | Scaling the normal by any `k > 0` leaves the face unchanged. |
| `Hits.FaceNegation` | raytracer/src/hit.rs:16-20 | Negating the normal swaps the face whenever `direction·normal ≠ 0`. A grazing ray (dot 0) is `Inwards` for both normals. |
| `Spheres.HitAt` | raytracer/src/sphere.rs:36-50 | The hit record has `point == at(t)`, the sphere's own material, and the face of the outward normal. Its normal is the outward normal for `Outwards` and the negated one for `Inwards`, so `direction·normal <= 0`. |
| `Spheres.SphereHit` | raytracer/src/sphere.rs:16-51 | A negative discriminant gives `None`. A returned `t` lies in the closed interval `[t_min, t_max]` and is one of the two roots. The record is the hit at `t`, with the sphere's material and `direction·normal <= 0`. The same holds for src/sphere.rs:12-46. |
| `Spheres.NearRootPreferred` | raytracer/src/sphere.rs:27-29 | When the near root `(−b−√Δ)/a` is in the interval, it is the one returned. |
| `Spheres.FarRootFallback` | raytracer/src/sphere.rs:29-34 | When the near root is outside the interval, the far root is returned if it is inside, and `None` otherwise. |
| `Spheres.NearNotAfterFar` | raytracer/src/sphere.rs:27-30 | The near root is never greater than the far root. |
| `Spheres.ShrinkBound` | raytracer/src/sphere.rs:28-34 | Querying with a smaller upper bound returns the same hit when it lies below the new bound, and `None` otherwise. |
| `Spheres.DistanceQuadratic` | raytracer/src/sphere.rs:17-21 | The squared distance from `at(t)` to the centre, minus `r²`, equals the quadratic `a t² + 2 b t + c` with the source's `a`, `b` and `c`. |
| `Spheres.QuadraticRoots` | raytracer/src/sphere.rs:21-30 | With `sq² == b² − a c`, the quadratic vanishes at `t` exactly when `t` is `(−b − sq)/a` or `(−b + sq)/a`. |
| `Spheres.NoRealRoots` | raytracer/src/sphere.rs:21-25 | A negative discriminant leaves the quadratic without roots. |
| `Spheres.RootsOnSphere` | raytracer/src/sphere.rs:17-34 | `at(t)` lies on the sphere exactly when `Δ >= 0` and `t` is the near or the far root. |
| `Spheres.HitOnSphere` | raytracer/src/sphere.rs:36-42 | The returned point lies on the sphere: its squared distance from the centre is `radius²`. The returned normal has length 1. The same holds for src/sphere.rs:32-38. |
| `Spheres.OutwardNormalUnit` | raytracer/src/sphere.rs:37 | For a point on the sphere, `(point − center) / radius` has length 1. |
| `Spheres.LeastRoot` | raytracer/src/sphere.rs:27-34 | The returned `t` is the least `t` in `[t_min, t_max]` with `at(t)` on the sphere. `None` is returned exactly when no such `t` exists. |
| `Materials.LambertianDirection` | raytracer/src/material.rs:22-26 | The direction is `normal + sample`, or exactly `normal` when that sum is near zero. The result is near zero only if it is the normal. |
| `Materials.Scatter` | raytracer/src/material.rs:19-53 | It runs out of draws exactly when the unit-sphere sample does, and otherwise consumes draws. A Lambertian surface never absorbs. A scattered ray carries the albedo as attenuation and leaves from the hit point. Its direction is non-zero when the normal is not near zero. |
| `Materials.LambertianScatter` | raytracer/src/material.rs:21-35 | A Lambertian surface scatters along `normal + sample`, or along `normal` when that sum is near zero, with its albedo and from the hit point. |
| `Materials.LambertianLeavesSurface` | raytracer/src/material.rs:22-26 | About a unit normal, `normal + sample` for a sample inside the unit sphere, or the normal when that sum is near zero, has a positive component along the normal. |
| `Materials.LambertianScattersOutward` | raytracer/src/material.rs:21-35 | About a unit normal, a Lambertian surface with draws left scatters, and into the half-space the normal points to. |
| `Materials.MetalScatter` | raytracer/src/material.rs:37-51 | A metal returns `Scattered` exactly when the perturbed mirror direction has `direction·normal > 0`, and then scatters along it from the hit point. |
| `Materials.MirrorMetal` | raytracer/src/material.rs:38-39 | With fuzz 0 and a unit normal, a metal reflects `normalize(direction)` and scatters exactly when `direction·normal < 0`. |
| `Scenes.GetColor` | raytracer/src/scene.rs:11-13 | `get_color(0) == bottom` and `get_color(1) == top`. |
| `Scenes.SkyBetween` | raytracer/src/scene.rs:11-13 | For `t` in `[0, 1]`, every channel of `bottom·(1−t) + top·t` lies between `bottom`'s and `top`'s. |
| `Scenes.Step` | raytracer/src/scene.rs:27-30 | One scan step never increases `best_distance`. When it changes the best hit, the new hit is the object's hit on `[t_min, best_distance]`. |
| `Scenes.Scan` | raytracer/src/scene.rs:24-31 | The scan never increases `best_distance`. |
| `Scenes.NearestIsLastMinimum` | raytracer/src/scene.rs:26-31 | The reference fold returns `None` exactly when no object hits. Otherwise it returns the hit of least `t`, taking the last such object on ties. |
| `Scenes.StepIsNearer` | raytracer/src/scene.rs:27-29 | Querying with the current `best_distance` as upper bound picks the nearer of the best hit so far and the object's own hit on the full interval. A tie goes to the object. |
| `Scenes.ScanFrom` | raytracer/src/scene.rs:26-31 | The loop invariant: after the first `k` objects, the scan state is the nearest of their hits. |
| `Scenes.SceneHitIsNearest` | raytracer/src/scene.rs:22-34 | `Scene::hit` equals the reference: the nearest of every object's own hit on `[t_min, t_max]`. |
| `Scenes.SceneHitNearest` | raytracer/src/scene.rs:22-34 | No objects gives `None`. The result is `None` exactly when every object misses. A result lies in `[t_min, t_max]` and is some object's hit, of least `t` and last among ties. The same holds for src/scene.rs:9-21. |
| `Scenes.LaterObjectWinsTies` | raytracer/src/scene.rs:27-29 | The result is at least as near as object `j`'s hit. When the two tie, the result is the hit of object `j` or of a later object. |
| `Scenes.SceneHitLeast` | raytracer/src/scene.rs:26-31 | The result's `t` is the least `t` over all objects with `at(t)` in the interval and on a sphere. `None` is returned exactly when there is no such `t`. |
| `Scenes.HitBeforeEveryCrossing` | raytracer/src/scene.rs:26-31 | No object is met in the interval before the returned `t`. |
| `Scenes.MissIffNoCrossing` | raytracer/src/scene.rs:26-31 | `None` is returned exactly when no object is met anywhere in `[t_min, t_max]`. |
| `Render.SceneHitNormal` | headless/src/main.rs:31-32 | A hit of the scene query has a unit normal, which is not near zero, and carries one of the scene's materials. |
| `Render.RayColor` | headless/src/main.rs:26-44 | Depth 0 gives black whatever the scene. The result never consumes more draws than it has. If the sky and every albedo have channels in `[0, 1]`, so does every colour it returns. |
| `Render.ScatterSteps` | headless/src/main.rs:37 | Since each call passes `depth − 1`, a call performs at most `depth` scatter steps, and a step happens only after the ray hits the scene. |
| `Render.DepthLimitIsBlack` | headless/src/main.rs:27-38 | When the path scatters `depth` times, it reaches the depth limit and `ray_color` returns black. |
| `Render.TraceFrom` | headless/src/main.rs:32-38 | A loop that carries the product of attenuations, started from any throughput, returns that throughput times the recursion `attenuation * ray_color(scattered, depth−1)`, black when absorbed. |
| `Render.TraceFromWhite` | headless/src/main.rs:26-44 | Started from white, that loop computes exactly `ray_color`. |
| `Render.MissShowsSky` | headless/src/main.rs:39-43 | From any origin, a missing ray straight up gives `sky.top`, and straight down gives `sky.bottom`. |
| `Render.SkyColorBetween` | headless/src/main.rs:39-43 | With sky colours in `[0, 1]`, the colour behind any missing ray is in `[0, 1]`. |
| `Render.EarlyRayColor` | src/main.rs:27-45 | The early `ray_color`, whose sky is fixed, returns black at depth 0. |
| `Render.EarlySkyGradient` | src/main.rs:40-44 | The fixed sky is `(0.5, 0.7, 1.0)` at `t = 1` and white at `t = 0`, and every colour it shows is in `[0, 1]`. |
| `Cameras.NewCamera` | raytracer/src/camera.rs:20-34 | `horizontal == (w, 0, 0)`, `vertical == (0, h, 0)` and `bottom_left == position − (w/2, h/2, focal_length)`. The same holds for src/camera.rs:19-33. |
| `Cameras.GetRay` | raytracer/src/camera.rs:36-41 | `get_ray(u, v).origin == position`. |
| `Cameras.RayDirection` | raytracer/src/camera.rs:39 | `get_ray(u, v).direction == (w(u−½), h(v−½), −focal_length)`, whatever the position. The same holds for src/camera.rs:38. |
| `Cameras.CentreRay` | raytracer/src/camera.rs:39 | `get_ray(0.5, 0.5)` points along `(0, 0, −f)`, and has length `f` when `f > 0`. |
| `Ppm.Dec` | raytracer/src/image_writer.rs:17 | `{}` of a `usize` is a non-empty run of decimal digits without a leading zero. |
| `Ppm.ParseDecOfDec` | raytracer/src/image_writer.rs:17 | Reading the digits back gives the number. |
| `Ppm.HeaderRoundTrip` | raytracer/src/image_writer.rs:14-21 | The header `"P3 " ++ dec(w) ++ " " ++ dec(h) ++ " 255\n"` parses back to `(w, h)`. The same holds for src/image_writer.rs:15-22 and expanded.rs:21-39. |
| `Ppm.DigitsRoundTrip` | raytracer/src/image_writer.rs:34-39 | Three digits decode to `c` exactly when they are the zero-padded digits of `c`. |
| `Ppm.DigitsUnique` | raytracer/src/image_writer.rs:34-39 | Only the digits of `c` decode to `c`. |
| `Ppm.DigitsZeroPadded` | raytracer/src/image_writer.rs:34-39 | The digits are zero-padded: a byte below 100 starts with `0`, and one below 10 with `00`. So 7 is written `007`. |
| `Ppm.ChannelToDigits` | raytracer/src/image_writer.rs:30-42 | The loop returns `s == 0` and three bytes in `'0'..'9'` with `100·(v0−'0') + 10·(v1−'0') + (v2−'0') == c`. The same holds for src/image_writer.rs:25-37 and expanded.rs:41-50. |
| `Ppm.Record` | raytracer/src/image_writer.rs:51-56 | A pixel record is exactly 12 bytes. |
| `Ppm.RecordRoundTrip` | raytracer/src/image_writer.rs:44-56 | The record `rrr ggg bbb\n` reads back as its channels in R, G, B order, and only that record does. |
| `Ppm.SaturatingCast` | raytracer/src/image_writer.rs:44-48 | `f as u8` is 0 below 0 and 255 from 256 on. In between, it is the integer part. |
| `Ppm.GammaByte` | raytracer/src/image_writer.rs:26-28 | A channel of 0 or less prints as 0. For a negative channel the source's root is NaN, which `as u8` casts to 0. |
| `Ppm.WritePixel` | raytracer/src/image_writer.rs:23-57 | The canonical pixel write is one 12-byte record. |
| `Ppm.EarlyWritePixel` | src/image_writer.rs:24-52 | The early pixel write is one 12-byte record. The same holds for expanded.rs:40-63. |
| `Ppm.GammaSaturates` | raytracer/src/image_writer.rs:24-28 | A channel whose ratio to the sample count is 1 or more prints as 255. |
| `Ppm.WritePixelContents` | raytracer/src/image_writer.rs:23-57 | The record holds `(sqrt(channel/samples)·256) as u8` for each channel. A sum of `samples` white samples prints as `255 255 255`. |
| `Ppm.WhiteSamples` | raytracer/src/image_writer.rs:24-48 | A sum of `samples` white samples is written as the bytes `255 255 255\n`. |
| `Ppm.EarlyWritePixelContents` | src/image_writer.rs:39-44 | The early record reads back as `(r·256) as u8`, `(g·256) as u8` and `(b·256) as u8`, with no division and no root. |
| `Ppm.EarlyChannel` | src/image_writer.rs:39-44 | The early cast of any channel `x`, so of each of `r`, `g` and `b`, is `floor(256x)` for `x` in `[0, 1)` and 255 from 1 on. |
| `Ppm.ConcatLayout` | headless/src/main.rs:166-175 | Records written one after another put record `k` at bytes `12k..12k+12`. |
| `Ppm.RecordAfterHeader` | headless/src/main.rs:165-175 | After the header, record `k` starts `12k` bytes past the header's end, and the header is left intact. |
| `Pixels.PixelIndex` | headless/src/main.rs:136 | For `i < w` and `j < h`, `(h−j−1)·w + i` lies in `[0, w·h)`. |
| `Pixels.PixelAt` | headless/src/main.rs:125-136 | Cell `k` belongs to a column below `w` and a row below `h`. |
| `Pixels.IndexBijection` | headless/src/main.rs:125-136 | The index map and its inverse undo each other, so the index is a bijection between the pixels and `[0, w·h)`. |
| `Pixels.IndexInjective` | headless/src/main.rs:136 | Distinct `(i, j)` get distinct indices. |
| `Pixels.ScanOrder` | headless/src/main.rs:125-136 | The `i`-th column of the `row`-th row scanned, counting rows from the top, is cell `row·w + i`. So a pass fills the buffer in order. |
| `Headless.AccumulatePass` | headless/src/main.rs:125-149 | After one pass, every cell equals its old value plus the pass's sample of its own pixel. No cell is missed or hit twice. |
| `Headless.AccumulateRow` | headless/src/main.rs:126-149 | One row of a pass adds the samples of that row's pixels to their cells and leaves the later cells untouched. |
| `Headless.RenderThread` | headless/src/main.rs:124-151 | Starting from black, after `samples_per_thread` passes every cell holds the sum of its own pixel's samples. |
| `Headless.HeadlessImage` | headless/src/main.rs:165-175 | The file is the header followed by one 12-byte record per cell. |
| `Headless.HeadlessImageLayout` | headless/src/main.rs:166-175 | Record `k` of the file is cell `k` written with divisor `samples_per_thread · thread_count`, which is positive. |
| `EarlyMain.SumSamples` | src/main.rs:92-101 | `reduce` gives `None`, where `unwrap` panics, exactly when there are no samples. |
| `EarlyMain.SumMatchesPasses` | src/main.rs:93-99 | The `reduce` sum of a pixel's samples equals the headless renderer's sum of the same samples started from black. |
| `EarlyMain.EarlyWriteOrder` | src/main.rs:90-92 | Rows are written from `h−1` down to 0, and columns from 0 to `w−1`: exactly `w·h` writes. Write `k` is the pixel of headless cell `k`. |
| `EarlyMain.ExpandedLineAt` | expanded.rs:311-320 | After the loops reach column `j` of row `i`, record `i'·w + j'` is the record of pixel `(i', j')` for every earlier pixel. |
| `EarlyMain.RowsStartIsProduct` | expanded.rs:311-320 | The records of `i` full rows number `i·w`. |
| `EarlyMain.ExpandedLayout` | expanded.rs:311-320 | The header followed by the records of rows `0..height`, columns `0..width`, puts pixel `(i, j)` at record `i·w + j`. |
| `EarlyMain.WriteExpandedImage` | expanded.rs:311-320 | `main` writes the header and then exactly `height·width` records, pixel `(i, j)` at record `i·width + j`. |

## Left out

- Threads and atomics are not modelled: `thread::spawn`, `Arc`, `join`, and the relaxed load-then-store accumulation into `AtomicPixel`. `Headless.RenderThread` is one thread's sequential work, and the thread count is a parameter of the divisor.
- IEEE-754 behaviour is not modelled: rounding, NaN, infinities, and the `f32`/`f64` `Number` switch of raytracer/src/lib.rs. Numbers are reals, and an unbounded `t_max` is `Bound.Unbounded`.
- Spheres.SphereHit: requires a non-zero direction and radius. Otherwise the source divides by zero and continues with NaN or infinities.
- Materials.Scatter: requires a non-zero incoming direction for a metal. Otherwise `normalize` divides by a zero length.
- Render.RayColor: requires a non-zero direction and no zero radius in the scene, for the same reason.
- Ppm.WritePixel: requires a positive sample count. With zero samples the source multiplies by an infinite `1.0 / 0`.
- Scenes.Scene: the objects are spheres only. The source's `Vec<Box<dyn Hit>>` dispatch through the `Hit` trait, and a scene nested as an object of another scene (raytracer/src/scene.rs:16-22), are not modelled.
- `Roots.SquareRootsExist()` is a hypothesis of the members that need an exact square root. Dafny cannot build a real root itself.
- RNG internals are not modelled: `rand`, `thread_rng` and `XorShiftRng`. Draws are a finite sequence. A rejection loop that exhausts it returns `None`, where the source would keep drawing.
- The per-sample colours of the passes and of the early `main`, and the jittered `(u, v)` behind them, are parameters. They are `sample` in `Headless.RenderThread` and the sample list of `EarlyMain.SumSamples`.
- File I/O is not modelled: `File::create`, `BufWriter` writes and flushes, and the panics of `expect`. Output is a byte sequence.
- Outside the kernel:
  - the GUI (gui/src/main.rs);
  - `Hit::name`;
  - timing and `println!` output;
  - the scene literals and image constants of the `main` functions;
  - the module re-exports of raytracer/src/lib.rs;
  - expanded.rs's derived `Debug` and `Clone`.
- expanded.rs's colour gradient in `main` is not modelled: the colour of each pixel is a parameter of `EarlyMain.WriteExpandedImage`.
- The earlier snapshot does not build as it stands, and its inconsistencies are not reconciled:
  - src/sphere.rs omits the `material` field of its hit record;
  - src/main.rs builds a `Metal` without `fuzz`;
  - src/main.rs passes two arguments to the one-argument `write_pixel` of src/image_writer.rs.

  The same definitions serve it, with the material type left generic in `Spheres` and `Scenes`.
- src/material.rs and src/ray.rs are not part of this model.
