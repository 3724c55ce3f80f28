# Ray tracer core, modelled in Dafny

This project models the ray-tracing engine of `src/rayTracer.ts`. That engine is a small distribution ray tracer with these parts:

- **Vector and colour algebra.**
- **Two primitives**, spheres and disks, each with an intersection test and a normal query.
- **A nearest-hit scan** over the scene's primitives (`traceRay`).
- **A shadow test** (`isBlocked`).
- **A sample-grid generator** (`createDistribution`). It produces regular or jittered samples, used for area lights.
- **Phong-style shading** (`getColorPtLight`, `getColor`):
  - ambient, diffuse and specular terms;
  - area-light diffuse averaged over the n² samples;
  - area-light specular kept by a max-lightness reducer.
- **The `RayTracer` object's scene commands**:
  - `new_sphere`, `new_disk`, `new_light` and `area_light` append to the scene lists;
  - `reset_scene` clears them;
  - the setters change the camera, the ambient and background colours, the sample level and jitter.

Numbers are exact reals. The host's math library enters the model as a parameter, a `MathLib` value holding `sqrt`, `pow`, `tan` and `PI`. Lemmas that need the square root to be the true one require `Sound(m)`. `Math.random` is a parameter too: `draws(k)` is the k-th value it returns during one `createDistribution` call. A NaN "no hit" becomes `None`.

Modules, in dependency order:

- `Numerics` (numerics.dfy): `Option`, the `MathLib` oracle, and `greaterEpsilon`.
- `Vectors` (vectors.dfy): the `Vector` class of the source.
- `Colors` (colors.dfy): the `Color` class of the source.
- `Geometry` (geometry.dfy):
  - rays, and `Sphere`/`Disk` as one datatype `Geo`;
  - `collide` and `getNorm`;
  - the nearest-hit rule, stated over the list of collision times.
- `Sampling` (sampling.dfy): the grid that `createDistribution` builds, as a specification function with its lemmas.
- `Shading` (shading.dfy):
  - lights and the shadow predicate;
  - `getColorPtLight`;
  - the folds that `getColor`'s loops compute, with their lemmas.
- `Tracer` (tracer.dfy): class `RayTracer`.
  - It holds the mutable fields and the scene commands as methods.
  - `createDistribution`, `isBlocked`, `getColor` and `traceRay` are methods with loops, each proved against the specification functions above.
  - `eyeRay` is a function of the object's state.

In three places the code's behaviour is easy to misread; the model follows the code:

- **Zero-length direction.** The code does not check for a zero denominator in `Disk.collide` and `Sphere.collide`. For a sphere and a zero-length direction, the time is 0/0 = NaN, which fails both time comparisons. For a disk and a parallel direction, the time may be ±Infinity; +Infinity passes `t >= 0`, but the hit point's distance from the centre is then NaN or Infinity and fails `mag <= radius` (src/rayTracer.ts:534). Either way the outcome is "no hit", and the model returns `None` in those cases.
- **Sample level.** The code stores the sample level as a plain number, and `createDistribution` counts rows and columns with the tolerance test `greaterEpsilon(1 - i)`. In exact arithmetic, a positive integer n with 2/n above that tolerance gives exactly n·n samples. The tracing methods require such a level. In exact arithmetic other levels give other sample counts (a level within the tolerance of an integer stops early, a very large integer stops after n−1 rows) or never stop.
- **Nearest hit.** `traceRay` starts its scan with the bound `Number.MAX_VALUE`. The model starts with "no candidate yet" instead (see Left out).

## Model

| member | source | states |
|---|---|---|
| Vectors.Cross | src/rayTracer.ts:24-28 | the cross product is orthogonal to both arguments |
| Vectors.DotSymmetric | src/rayTracer.ts:17 | the dot product is symmetric |
| Vectors.MinusUndoesPlus | src/rayTracer.ts:15-16 | `minus` undoes `plus` |
| Vectors.DotTimes | src/rayTracer.ts:14-17 | scaling either argument scales the dot product by the same factor |
| Vectors.DotMinus | src/rayTracer.ts:15-17 | the dot product distributes over `minus` |
| Vectors.CrossOfMultiple | src/rayTracer.ts:24-28 | the cross product of a multiple of v with v is the zero vector |
| Vectors.Mag | src/rayTracer.ts:18 | with a sound square root, the magnitude is non-negative and squares to v·v |
| Vectors.ScaledByInverseMagnitude | src/rayTracer.ts:19-23 | scaling a vector of non-zero magnitude by 1/mag gives a unit vector parallel to it, pointing the same way |
| Vectors.Norm | src/rayTracer.ts:19-23 | for a non-zero magnitude, `norm` is a unit vector parallel to v and pointing the same way (positive dot product) |
| Vectors.NormOfUnit | src/rayTracer.ts:19-23 | `norm` leaves a unit vector unchanged |
| Vectors.AxesAreUnit | src/rayTracer.ts:102-103 | `norm` fixes the initial +z look and +y up vectors, so `reset_scene` restores the initial camera axes |
| Colors.Lightness | src/rayTracer.ts:42 | lightness is non-negative, and zero for black |
| Colors.PlusBlack | src/rayTracer.ts:37-41 | black is the identity of `Color.plus` |
| Colors.PlusNonNegative | src/rayTracer.ts:37 | adding a non-negative colour does not decrease any component |
| Colors.ScaleNonNegative | src/rayTracer.ts:36 | a non-negative scale of a non-negative colour is non-negative |
| Colors.TimesNonNegative | src/rayTracer.ts:38 | the component-wise product of non-negative colours is non-negative |
| Geometry.SphereCollide | src/rayTracer.ts:549-566 | no hit for a negative discriminant, for a zero direction, or when both roots are negative; a reported time is one of the two roots and is ≥ 0 |
| Geometry.SphereRootChoice | src/rayTracer.ts:561-565 | t2 ≤ t1. Both roots positive gives the smaller root t2. t2 ≤ 0 ≤ t1 gives the larger root t1. t1 < 0 gives no hit |
| Geometry.SphereFromInside | src/rayTracer.ts:561-565 | a ray starting strictly inside the sphere reports the far root, and that root is positive |
| Geometry.SphereHeadOn | src/rayTracer.ts:549-566 | a unit ray aimed at the centre from distance `dist` > radius hits at `dist − radius` |
| Geometry.SphereHitOnSurface | src/rayTracer.ts:554-565 | a reported sphere time is a true intersection: the point lies at distance `radius` from the centre |
| Geometry.RootOnSurface | src/rayTracer.ts:557-562 | both roots t1 and t2 land on the sphere's surface |
| Geometry.RootSolvesQuadratic | src/rayTracer.ts:554-562 | both roots solve the sphere's quadratic \|e + t·d − c\|² = R² |
| Geometry.QuadraticRoot | src/rayTracer.ts:561-562 | (−b ± √Δ)/(d·d) solves (d·d)t² + 2bt + gap = 0 |
| Geometry.DiskCollide | src/rayTracer.ts:531-535 | a ray parallel to the plane never hits. Otherwise the plane time is reported iff it is ≥ 0 and the plane point lies within `radius` of the centre. A reported point lies in the disk's plane |
| Geometry.PlaneTimeInPlane | src/rayTracer.ts:532 | the point at the plane time lies in the plane through the centre |
| Geometry.Collide | src/rayTracer.ts:531-566 | dispatch on the primitive's kind; a reported time is never negative |
| Geometry.GetNorm | src/rayTracer.ts:537-570 | a disk's normal is its stored normal at every point; a sphere's is a unit vector parallel to (zero cross product with) and pointing the same way as the vector from the centre to the point |
| Geometry.NearestUnique | src/rayTracer.ts:327-337 | at most one index holds the nearest hit (first index among equal minima) |
| Geometry.NearestExists | src/rayTracer.ts:327-337 | unless no primitive is hit, a nearest hit exists |
| Sampling.CellLoClosedForm | src/rayTracer.ts:134-135 | after k steps the loop counter is −1 + k·(2/n) |
| Sampling.LoopTest | src/rayTracer.ts:134-135 | the loop test `greaterEpsilon(1 − i)` holds exactly for the first n counter values, so each loop runs n times |
| Sampling.RowAt | src/rayTracer.ts:135-149 | the l-th sample pushed by the inner loop is cell (k, l) |
| Sampling.GridSize | src/rayTracer.ts:134-150 | k rows hold k·n samples |
| Sampling.GridPrefix | src/rayTracer.ts:134-150 | later rows never change samples pushed earlier |
| Sampling.LastRowAt | src/rayTracer.ts:134-150 | the row pushed last holds its cells in order |
| Sampling.GridAt | src/rayTracer.ts:134-150 | the l-th sample of row k is cell (k, l), at index \|first k rows\| + l |
| Sampling.SampleOfCell | src/rayTracer.ts:131-151 | there are exactly n² samples; sample k·n + l is cell (k, l), with s from the outer loop and t from the inner loop, using draws 2(k·n + l) and 2(k·n + l) + 1 |
| Sampling.RegularSampleIsCentre | src/rayTracer.ts:143-146 | without jitter, sample (k, l) is (−1 + (k + ½)·2/n, −1 + (l + ½)·2/n) |
| Sampling.CentreOfCell | src/rayTracer.ts:144-145 | an offset of one half is the cell centre |
| Sampling.JitteredSampleInCell | src/rayTracer.ts:136-141 | with jitter and draws in [0, 1), sample (k, l) lies in its own cell |
| Sampling.WithinCell | src/rayTracer.ts:138-139 | an offset in [0, 1) stays inside the cell |
| Sampling.CellInSquare | src/rayTracer.ts:132-135 | every cell lies inside [−1, 1] |
| Shading.ShadowRay | src/rayTracer.ts:406-410 | time 1 on the shadow ray is the light position shifted by the start offset, and that offset has length 0.001 |
| Shading.BlockedOrderFree | src/rayTracer.ts:413-418 | the shadow test does not depend on the order of the primitives |
| Shading.MirrorReflects | src/rayTracer.ts:394-395 | about a unit normal, R = 2(N·L)N − L makes the same angle with N as L, has the same length, and R + L is along N |
| Shading.GetColorPtLight | src/rayTracer.ts:390-401 | diffuse is black when N·L < 0; specular is black when R·V < 0; both terms are non-negative for non-negative inputs |
| Shading.ShotsDiffuseNonNegative | src/rayTracer.ts:355-358 | every area-light sample's diffuse term is non-negative for non-negative colours |
| Shading.BrightestSpecularIsMax | src/rayTracer.ts:360-364 | the kept specular term is at least as light as every lit sample's; with all samples blocked it is black |
| Shading.BrightestSpecularIsFirst | src/rayTracer.ts:360-364 | the kept specular term is black or the first lit sample of greatest lightness |
| Shading.LitDiffuseSumBounds | src/rayTracer.ts:360-361 | shadows only darken: the lit diffuse sum lies between black and the all-lit sum |
| Shading.LitDiffuseSumExtremes | src/rayTracer.ts:360-361 | with all samples lit the sum is the full sum; with none lit it is black |
| Shading.FullSumOfConstant | src/rayTracer.ts:355-366 | the full sum of m equal diffuse terms d is m·d |
| Shading.LitSumOfConstant | src/rayTracer.ts:355-366 | the lit sum of m lit samples with equal diffuse term d is m·d |
| Shading.AreaDiffuseUniform | src/rayTracer.ts:355-367 | if all n² samples are lit with the same diffuse term d, the averaged diffuse term is d |
| Shading.AreaTotalsStep | src/rayTracer.ts:369-370 | adding one area light's terms extends both running sums |
| Shading.PointTotalsStep | src/rayTracer.ts:373-378 | one point light adds its two terms when it is visible and nothing otherwise |
| Shading.AreaTotalsDark | src/rayTracer.ts:352-371 | area lights whose samples are all blocked contribute black |
| Shading.PointTotalsDark | src/rayTracer.ts:373-379 | blocked point lights contribute black |
| Shading.ShadeInShadow | src/rayTracer.ts:346-388 | a point blocked from every light and every area-light sample gets the ambient term ka·Ia·kd alone |
| Tracer.RayTracer.constructor | src/rayTracer.ts:81-103 | the initial field values: no jitter, sample level 1, empty lists, black ambient and background, fov 90, camera at the origin with lookAtVec +z (so the camera looks along −z) and +y up |
| Tracer.RayTracer.NewSphere | src/rayTracer.ts:287-294 | appends exactly one sphere; the other lists and settings are unchanged |
| Tracer.RayTracer.NewDisk | src/rayTracer.ts:166-173 | appends exactly one disk; the other lists and settings are unchanged |
| Tracer.RayTracer.NewLight | src/rayTracer.ts:241-247 | appends exactly one point light; the other lists and settings are unchanged |
| Tracer.RayTracer.AreaLight | src/rayTracer.ts:176-185 | appends exactly one area light; the other lists and settings are unchanged |
| Tracer.RayTracer.AmbientLight | src/rayTracer.ts:250-252 | sets `Ia`; nothing else changes |
| Tracer.RayTracer.SetBackground | src/rayTracer.ts:255-257 | sets the background colour; nothing else changes |
| Tracer.RayTracer.SetFov | src/rayTracer.ts:262-264 | sets the field of view; nothing else changes |
| Tracer.RayTracer.SetEye | src/rayTracer.ts:272-279 | sets the camera position, the normalised eye-minus-target look vector and the normalised up vector; nothing else changes |
| Tracer.RayTracer.ResetScene | src/rayTracer.ts:230-238 | empties all three lists, black ambient, white background, fov 90, camera at the origin with `norm` of +z and +y; jitter and sample level unchanged |
| Tracer.RayTracer.SetSampleLevel | src/rayTracer.ts:188-190 | sets the sample level; nothing else changes |
| Tracer.RayTracer.JitterOn | src/rayTracer.ts:192-194 | turns jitter on; nothing else changes |
| Tracer.RayTracer.JitterOff | src/rayTracer.ts:196-198 | turns jitter off; nothing else changes |
| Tracer.RayTracer.CreateDistribution | src/rayTracer.ts:131-152 | the two loops return exactly the specified grid, whose shape the `Sampling` lemmas describe |
| Tracer.RayTracer.PushRow | src/rayTracer.ts:135-149 | the inner loop appends row k of the grid to what was pushed before |
| Tracer.RayTracer.IsBlocked | src/rayTracer.ts:403-420 | true iff some primitive reports a hit before time 1 on the shadow ray |
| Tracer.RayTracer.GetColor | src/rayTracer.ts:346-388 | the result is ambient + (area then point diffuse) + (area then point specular), as specified by `Shading.Shade` |
| Tracer.RayTracer.AreaLightsTerms | src/rayTracer.ts:352-371 | the two sums over the area lights, in list order |
| Tracer.RayTracer.AreaLightTerms | src/rayTracer.ts:353-367 | one area light: the lit diffuse sum divided by n², and the kept brightest lit specular term |
| Tracer.RayTracer.PointLightsTerms | src/rayTracer.ts:373-379 | the running sums gain the terms of every visible point light, in list order |
| Tracer.RayTracer.AddPointLight | src/rayTracer.ts:373-378 | one point light adds both its terms when visible and nothing otherwise |
| Tracer.RayTracer.TraceRay | src/rayTracer.ts:320-344 | background colour when nothing (or no primitive at all) is hit. Otherwise the shading of the nearest hit, which is the first index among equal minima |
| Tracer.RayTracer.EyeRay | src/rayTracer.ts:299-317 | the ray starts at the camera; through the screen centre, column screenWidth/2 and row screenHeight·width/(2·height), its direction is `norm(−d·lookAtVec)` with d = 1/tan(fov·DEG2RAD/2), which for d > 0 (0 < fov < 180 with the true tan) is straight along −lookAtVec |

## Left out

- Canvas and DOM set-up, `draw_scene`, `clear_screen` and `Color.toDrawingColor` are not modelled. They are display output and row scheduling.
- Floating point is not modelled: rounding, overflow, NaN and Infinity. Reals are exact, and NaN "no hit" results are `None`.
- Vectors.Norm: the source scales a zero-magnitude vector by Infinity. The model returns the vector unchanged, so its contract covers only non-zero magnitudes.
- Tracer.RayTracer.TraceRay: the source's scan starts with the bound `Number.MAX_VALUE`, so it ignores hits at or beyond that value. The model has no largest number; it starts with "no candidate" (`geoIdx < 0`) and takes the first hit.
- Tracer.RayTracer.TraceRay: for a hit, the model requires a sample level that makes `createDistribution` terminate: a positive integer with 2/n above the `greaterEpsilon` tolerance. Other levels are left out because, in exact arithmetic, the source's counting loops then give other sample counts: a level within the tolerance of an integer stops early, a very large integer stops after n−1 rows, and other levels never stop. `GetColor` and `CreateDistribution` have the same precondition.
- Tracer.RayTracer.CreateDistribution: the model counts in exact arithmetic. It ignores the rounding drift of the IEEE counter `i += step`, which for levels in the millions can exceed the 1e-10 tolerance so the loops never stop. It also ignores the JavaScript array-length limit of 2³²−1, which `res.push` exceeds for levels of 65536 and above. `SampleLevelOk` admits those levels.
- Tracer.RayTracer.EyeRay: the contract states only that the ray starts at the camera, and what the direction is at the screen centre. The rest of the perspective projection is not stated.
- Tracer.RayTracer.EyeRay: requires a non-zero `tan(fov/2)`, screen size and width, where the source would divide by zero.
- Math.sqrt, Math.pow, Math.tan and Math.PI are oracle fields of `MathLib`. The only law assumed about them is `Sound`, which makes `sqrt` the exact non-negative root. It is assumed only where a lemma says so.
- Math.random is the parameter `draws`.
- Some code is not modelled because nothing in the engine reads it:
  - the motion-blur velocity parameters of `new_sphere` and `new_disk`;
  - the reflection, blur and depth toggles;
  - `enableShadows`, `maxDepth` and `canvasColor`;
  - `depth` in `traceRay`;
  - the empty `testRay` and `lessEpsilon`.
- The base class `Geo` is not modelled. It is never instantiated, and its placeholder `collide`/`getNorm` are never called.
- Tracer.RayTracer.SetSampleLevel: the level is an `int`. The source accepts any number; non-integer levels are left out for the reasons given under TraceRay.
