# Ray Tracing in One Weekend: a Dafny model of the renderer's core

This project models the decision logic and bookkeeping of a small C++ ray
tracer in the style of "Ray Tracing in One Weekend". It covers:

- the interval type with closed `contains`, open `surrounds` and `clamp`;
- hit records and `set_face_normal`;
- sphere and triangle intersection;
- the scene list, whose `hit` keeps the nearest hit while narrowing the
  range it hands to each object;
- the three materials' `scatter` and Schlick's `reflectance`;
- the camera's viewport layout, pixel rays and shading;
- the first single-sphere renderer of `main.cc`;
- the multi-pass `image_memory` buffer;
- the two `write_color` variants and the plain PPM ("P3") text they emit.

Doubles are modelled as Dafny `real`. A value the C++ code gets from
`sqrt` or `unit_vector` is passed in as a parameter. The parameter is tied
to its defining equation, for example `0 <= sqrtd && sqrtd * sqrtd == disc`,
or `len > 0 && len * len == |v|^2` for a length. Every random draw
(`random_unit_vector`, `random_double`) and the result of `refract` is an
input too.

The scene's `hit` is modelled over an abstract per-object hit function,
`Hittable.HitFunction`. The scene lemmas state which properties of that
function they rely on:

- `Honest`: a reported hit lies in the range asked for.
- `RecordBlind`: whether, and where, an object is hit does not depend on
  the record passed in.
- `Narrowable`: shrinking the range's upper end to just above a hit keeps
  that hit.
- `Widenable`: a hit in a sub-range also counts in the wider range, where the hit reported is no farther away.

Spheres, and triangles both as written and with the interior test gating the hit, are proved to satisfy all four.
The colour bound of `ray_color` also relies on `UnitNormals`, that every reported hit carries a unit normal. This is proved for spheres of non-zero radius (`SolidSphere`) and for non-degenerate triangles (`SpanningTriangle`).
C++'s in/out
`hit_record&` parameter becomes an input record and a returned
`HitOutcome(hit, rec)`, so "the record is unchanged on a miss" is an
equality.

Modules, one per file:

- `Numeric`, `Options`, `Vectors`: truncation toward zero, `min`, and the
  vector and ray helpers. They stand in for `vec3.hh`, `ray.hh` and
  `rtweekend.hh`.
- `Intervals`: `interval.hh`.
- `Hittable`, `HittableList`: `hittable.hh`, `hittable_list.hh`.
- `Spheres`: `sphere.hh`. `Triangles`: `triangle.hh`.
- `Materials`, `Scatter`: `material.hh`. `Scatter` holds the `scatter`
  functions and the virtual dispatch.
- `Camera`: `camera.hh`, plus the viewport and pixel-ray arithmetic that
  `main.cc` repeats.
- `SphereDemo`: `hit_sphere` and `ray_color` of `main.cc`.
- `ImageMemory`: `parallel.hh`, modelled sequentially.
- `PpmText`: the header and pixel-line grammar, with a reader for it.
- `GammaColor`: `src/cpp/color.hh`. `ByteColor`: `color.hh`.

## Model

| member | source | states |
|---|---|---|
| Intervals.Interval.Surrounds | interval.hh:19-27 | open membership implies closed membership |
| Intervals.EmptyHoldsNothing | interval.hh:15-17 | the default/empty interval (+inf, -inf) neither contains nor surrounds any value |
| Intervals.UniverseHoldsEverything | interval.hh:42 | the universe (-inf, +inf) contains and surrounds every real |
| Intervals.Interval.Clamp | interval.hh:29-36 | when min <= max the result lies in [min, max]; a contained value is returned unchanged; the result is always min, max or x |
| Intervals.ClampIdempotent | interval.hh:29-36 | clamping a clamped value changes nothing |
| Intervals.ClampMonotone | interval.hh:29-36 | clamp never reorders two values when min <= max |
| Intervals.ClampFinite | interval.hh:29-36 | a finite interval clamps every value to a finite value inside it |
| Hittable.SetFaceNormal | hittable.hh:26-30 | front_face iff dot(direction, outward) < 0; the stored normal is outward or its negation accordingly, faces the ray (dot <= 0), has the outward normal's length, and no other field changes |
| HittableList.EmptyList | hittable_list.hh:21 | the default list has no objects |
| HittableList.FromObject | hittable_list.hh:22 | the one-object constructor holds exactly that object |
| HittableList.Clear | hittable_list.hh:25-28 | clear leaves the list empty |
| HittableList.AddObject | hittable_list.hh:31-34 | add appends one object at the end and keeps the earlier objects in order |
| HittableList.Step | hittable_list.hh:43-51 | one iteration asks the object for a hit in [min, closest] through temp_rec; only on a hit do closest and rec move, to that hit |
| HittableList.ListHit | hittable_list.hh:37-53 | the loop computes the scene hit; an empty list gives false; on false the caller's record is unchanged |
| HittableList.ListHitResult | hittable_list.hh:37-53 | an empty list gives false, and on false the caller's record is unchanged |
| HittableList.NoHitKeepsRecord | hittable_list.hh:45-52 | rec is written only when some object reports a hit |
| HittableList.ScanConsistent | hittable_list.hh:39-51 | throughout the loop closest_so_far never exceeds ray_t.max; after a hit it equals the kept record's t, which lies in ray_t; before one it is ray_t.max and rec is the caller's |
| HittableList.StepCloser | hittable_list.hh:41-48 | the upper bound handed to the next object never increases, and once something is hit the kept hit only gets closer |
| HittableList.ScanIsNearest | hittable_list.hh:43-51 | any object the ray hits in the full range makes the loop report a hit no farther than that object's |
| HittableList.ScanHitIff | hittable_list.hh:40-52 | the loop reports a hit exactly when some object is hit in the full range |
| HittableList.ScanAttained | hittable_list.hh:41-50 | after a hit, the kept record's t is the t that one of the scanned objects reports for the whole of ray_t |
| HittableList.ListHitNearest | hittable_list.hh:37-53 | the scene reports a hit iff some object is hit in ray_t; the reported t lies in ray_t, is at most the t of every object's own hit, and equals the t some object reports for ray_t, so it is the nearest hit |
| HittableList.ScanKeepsUnitNormal | hittable_list.hh:45-49 | when every object reports unit normals, so does the scene |
| Spheres.SphereHit | sphere.hh:11-41 | a negative discriminant is a miss; a miss leaves rec unchanged; a hit has t strictly inside ray_t, is the near or far root, solves a t^2 + 2 half_b t + c = 0, sits at p = r.at(t), carries the face-oriented outward normal and keeps rec.mat |
| Spheres.RootsSolveQuadratic | sphere.hh:27-32 | both roots the half-b formula gives solve the quadratic |
| Spheres.OnlyTwoRoots | sphere.hh:17-32 | every solution of the quadratic is the near or the far root |
| Spheres.NearBeforeFar | sphere.hh:27-32 | the near root is tried first and is not larger than the far one |
| Spheres.NoRootWhenNegative | sphere.hh:22-23 | a negative discriminant leaves the quadratic with no real solution |
| Spheres.SphereHitIsNearestRoot | sphere.hh:27-32 | if some root lies strictly inside ray_t the sphere is hit (for a non-zero direction), at a root no larger than it |
| Spheres.RootOnSurface | sphere.hh:35-37 | the point at a root lies on the sphere |
| Spheres.OutwardNormalOrientation | sphere.hh:37 | the normal (p - center) / radius is a unit vector whose projection on p - center is the radius, so a negative radius points it inward |
| Spheres.SurfaceNormalIsUnit | sphere.hh:37 | the normal of a surface point has unit length |
| Spheres.HeadOnHit | sphere.hh:11-41 | a unit ray aimed at the centre from distance d hits the sphere at t = d - radius |
| Spheres.SphereHitFunctionQualifies | sphere.hh:11-41 | the sphere hit reports only hits in range, ignores the incoming record, survives narrowing the range to its hit, and still hits in a wider range, no farther away |
| Spheres.SolidSphereUnitNormals | sphere.hh:35-38 | every hit on a sphere of non-zero radius carries a unit normal, (p - center) / radius or its negation, so a scene of such spheres satisfies `UnitNormals` |
| Triangles.MakeTriangle | triangle.hh:10-15 | the constructor keeps Q, u, v and the material; for a non-degenerate triangle the normal is u x v divided by its length (so a unit vector orthogonal to u and v, oriented like u x v), the plane constant puts Q, Q+u and Q+v on the plane, and w is u x v divided by its squared length |
| Triangles.BarycentricRoundTrip | triangle.hh:27-30 | alpha and beta recover a and b from the plane point Q + a u + b v |
| Triangles.PlaneTOnPlane | triangle.hh:23 | the ray meets the plane at t = (D - normal . origin) / denom |
| Triangles.IsInterior | triangle.hh:42-49 | succeeds exactly when 0 <= a + b <= 1, and then stores a and b as u and v; otherwise the record is unchanged |
| Triangles.TriangleHit | triangle.hh:18-40 | as written: a hit exactly when the ray is not parallel (abs(denom) >= 1e-8) and ray_t contains the plane parameter, with no interior gate; the record gets t, p = r.at(t) on the plane and the material; front_face holds iff the ray runs against the triangle's normal, and the stored normal is that normal or its negation accordingly |
| Triangles.DegenerateNeverHit | triangle.hh:10-21 | a triangle with u x v = 0 is never hit |
| Triangles.TriangleHitIgnoresInterior | triangle.hh:32 | as written, a ray through a plane point outside the triangle is still reported as a hit at that point |
| Triangles.PerpendicularRayIgnoresInterior | triangle.hh:32 | for every spanning triangle and every outside point, a concrete perpendicular ray hits it as written |
| Triangles.IsInteriorAcceptsOutside | triangle.hh:43 | the sum-only test accepts (-1, 1), a point outside the triangle |
| Triangles.TriangleHitInside | triangle.hh:18-40 | the corrected hit: only points inside the triangle are hit, with the same record the unguarded code writes; misses leave the record unchanged |
| Triangles.TriangleHitInsideIff | triangle.hh:27-32 | for a non-parallel ray meeting the plane in range at Q + a u + b v, the corrected hit reports a hit iff a >= 0, b >= 0 and a + b <= 1 |
| Triangles.TriangleHitAsWrittenFunctionQualifies | triangle.hh:18-40 | the triangle hit as written also meets the four assumptions of the scene's nearest-hit proof, so a scene of such triangles reports the nearest plane crossing in range |
| Triangles.TriangleHitFunctionQualifies | triangle.hh:18-40 | the triangle hit meets the four assumptions the scene's nearest-hit proof makes |
| Triangles.SpanningTriangleUnitNormals | triangle.hh:11-12 | every hit on a non-degenerate triangle, as written or gated, carries the unit normal of u x v or its negation, so a scene of such triangles satisfies `UnitNormals` |
| Materials.MakeMetal | material.hh:57 | the stored fuzz is f when f < 1 and 1 otherwise, so never above 1 |
| Materials.ReflectMirrors | material.hh:61 | reflecting about a unit normal negates the component along it |
| Materials.ReflectInvolutive | material.hh:61 | reflecting twice about a unit normal gives the vector back |
| Materials.ReflectKeepsLength | material.hh:61 | reflection about a unit normal keeps the length |
| Materials.ReflectanceAtNormalIncidence | material.hh:108-113 | reflectance(1, r) = ((1 - r) / (1 + r))^2 |
| Materials.ReflectanceBounds | material.hh:108-113 | for cos in [0, 1] and r >= 0 the reflectance lies in [r0, 1] |
| Materials.ReflectanceFaceSymmetric | material.hh:108-113 | the reflectance for ratio r equals that for 1/r |
| Scatter.LambertianScatter | material.hh:30-41 | always scatters from rec.p with attenuation albedo; the direction is normal + random unit vector, replaced by the normal when that sum is near zero |
| Scatter.MetalScatter | material.hh:59-65 | scatters from rec.p with attenuation albedo; the direction differs from the reflected unit direction by fuzz times the random vector; it scatters iff the direction leaves the surface |
| Scatter.MetalWithoutFuzzMirrors | material.hh:61-64 | with fuzz 0 the direction is the exact reflection, which for a unit normal scatters iff the ray came in against the normal |
| Scatter.RefractionRatio | material.hh:86 | the ratio is 1/ir on the front face and ir on the back face |
| Scatter.CosTheta | material.hh:89 | cos_theta is min(-unit_direction . normal, 1): at most each of the two, and equal to one of them |
| Scatter.DielectricScatter | material.hh:83-102 | always scatters from rec.p with attenuation (1, 1, 1); with sin_theta the square root of 1 - cos_theta^2, it reflects when refraction is impossible or the reflectance exceeds the draw, and otherwise takes the refracted direction |
| Scatter.NoTotalReflectionEnteringDenser | material.hh:86-92 | entering a medium with ir >= 1 never triggers the cannot-refract branch |
| Scatter.NormalIncidenceRefracts | material.hh:89-92 | at cos_theta = 1 refraction is always possible |
| Scatter.LowDrawReflects | material.hh:95-96 | a draw below r0 always reflects |
| Scatter.ScatterBy | material.hh:30-102 | the dispatched scatter starts at rec.p; only metal can absorb; the attenuation is the albedo, or white for glass |
| Camera.ImageHeight | camera.hh:53-54 | image_height is trunc(width / aspect) when that is at least 1, and 1 otherwise, so always at least 1 |
| Camera.Viewport | camera.hh:57-72 | viewport_width * h = 2 w (width / height ratio), pixel_delta_u * w = viewport_u, pixel_delta_v * h = viewport_v, and pixel00 is the upper-left corner plus half a pixel step each way |
| Camera.Initialize | camera.hh:52-73 | the layout has the computed height and the viewport above for it |
| Camera.PixelRay | camera.hh:33-35 | the ray starts at the camera centre and reaches the pixel centre pixel00 + i du + j dv at t = 1 |
| Camera.PixelCentersInViewport | camera.hh:33 | every pixel centre of the image lies strictly inside the viewport, on the plane z = -1 |
| Camera.PixelGridCentred | camera.hh:63-72 | pixel (i, j) and pixel (w-1-i, h-1-j) are mirror images through the viewport centre |
| Camera.PixelRaysInOrder | camera.hh:28-35 | the image holds one ray per pixel, and the ray of pixel (i, j) is at index j * width + i |
| Camera.PixelRayForward | camera.hh:33-35 | every pixel ray points into the scene (direction z = -1) and has a non-zero direction |
| Camera.MainImageHeight | main.cc:39-42 | an 800-pixel-wide 16:9 image is 450 rows high |
| Camera.MainViewport | main.cc:45-60 | for 800 x 450 the viewport is 32/9 wide and a pixel step is 1/225 each way |
| Camera.NormalShade | camera.hh:79 | the shade 0.5 (n + (1, 1, 1)) encodes the normal: 2 c - (1, 1, 1) = n |
| Camera.NormalShadeInUnitCube | camera.hh:79 | the shade of a unit normal lies in [0, 1]^3 |
| Camera.Sky | camera.hh:82-84 | the background blends white and (0.5, 0.7, 1) by a = 0.5 (y + 1) |
| Camera.SkyBounds | camera.hh:82-84 | for a unit direction a is in [0, 1] and the colour is in the unit cube |
| Camera.SkyEnds | camera.hh:82-84 | straight up gives (0.5, 0.7, 1) and straight down gives white |
| Camera.SkyMonotone | camera.hh:82-84 | a ray pointing higher gets a sky no redder and no greener |
| Camera.RayColorInUnitCube | camera.hh:75-85 | `ray_color` shades a hit on (0, +inf) by its normal and otherwise gives the sky; when the objects report unit normals, either colour lies in [0, 1]^3 |
| SphereDemo.HitSphere | main.cc:6-22 | a negative discriminant gives -1; a positive result solves the quadratic |
| SphereDemo.HitSphereIsNearestRoot | main.cc:18-21 | when the quadratic has a root, the result is a root no larger than any other |
| SphereDemo.HitSphereMissIsSentinel | main.cc:18-19 | a ray that meets no point of the sphere gets -1 |
| SphereDemo.SentinelIsAlsoARoot | main.cc:16-21 | -1 can also be a genuine root, with a non-negative discriminant, so -1 does not mean a miss |
| SphereDemo.DemoRayColor | main.cc:25-35 | for t > 0 the colour is the shade of the unit normal at the hit (the normal's length is the radius 0.5); otherwise the sky |
| SphereDemo.DemoRayColorInUnitCube | main.cc:25-35 | every colour of the demo lies in [0, 1]^3 |
| ImageMemory.New | parallel.hh:15-20 | both buffers have lines * rows slots of the default colour; linesLeft = lines and iterations = 0 |
| ImageMemory.ClaimsCount | parallel.hh:27-30 | n calls lower linesLeft by n and return consecutive line numbers |
| ImageMemory.FreshPassClaimsEachLineOnce | parallel.hh:16-30 | after construction or get_image the calls return 1, 2, ... in strictly increasing order; every line is returned once; calls beyond the last line return values above lines |
| ImageMemory.PixelIndexInRange | parallel.hh:24 | (line - 1) * rows + row lies in [0, lines * rows), and line and row can be read back from it |
| ImageMemory.PixelIndexInjective | parallel.hh:24 | two different pixels never share a slot |
| ImageMemory.WritePixel | parallel.hh:22-25 | exactly the pixel's slot of the shared buffer is set; every other slot and field is unchanged |
| ImageMemory.WritePixelOthersSurvive | parallel.hh:22-25 | writing another pixel keeps an earlier write |
| ImageMemory.Mix | parallel.hh:33-36 | (n + 1) times the mixed colour equals n times the old colour plus the new one |
| ImageMemory.Merge | parallel.hh:35-36 | each slot of the image becomes the running-average mix of its old value and the shared value |
| ImageMemory.CopyImage | parallel.hh:32-37 | the loop replaces the image with the merged image and changes nothing else |
| ImageMemory.FirstPassCopies | parallel.hh:33-36 | with iterations = 0 the copy makes the image equal to the shared buffer, whatever it held before |
| ImageMemory.GetImage | parallel.hh:39-44 | iterations goes up by one, linesLeft is reset to lines, the shared buffer is untouched, and the returned image is the running average |
| ImageMemory.PassesAverage | parallel.hh:32-44 | after n passes, n times each slot equals the sum of that slot over the n snapshots |
| ImageMemory.PassesMean | parallel.hh:32-44 | after n > 0 passes each slot is the mean of its snapshots |
| PpmText.HeaderRoundTrip | src/cpp/color.hh:20-25 | the header "P3\n" + width + " " + height + "\n255\n" reads back as the two dimensions |
| PpmText.ReadIntToString | src/cpp/color.hh:21-23 | the decimal text of any int reads back as that int |
| PpmText.PixelLineRoundTrip | src/cpp/color.hh:47-49 | a pixel line "r g b\n" reads back as its three numbers |
| PpmText.LinesRoundTrip | src/cpp/color.hh:27-49 | the pixel lines read back as the pixels in order |
| PpmText.ImageRoundTrip | src/cpp/color.hh:20-49 | a header and width * height pixel lines read back as the dimensions and the pixels |
| GammaColor.GammaMonotone | src/cpp/color.hh:11-14 | the square root never reorders two intensities |
| GammaColor.GammaFixesEnds | src/cpp/color.hh:11-14 | the square root fixes 0 and 1 |
| GammaColor.ComponentByte | src/cpp/color.hh:35-49 | the byte is in [0, 255]; below the clamp limit it is trunc(256 * gamma), at or above it 255 |
| GammaColor.ComponentByteMonotone | src/cpp/color.hh:35-49 | a brighter component never gets a smaller byte |
| GammaColor.ComponentByteEnds | src/cpp/color.hh:35-49 | 0 maps to 0, and an average of at least 1 maps to 255 |
| GammaColor.WriteColor | src/cpp/color.hh:16-52 | the text is the header followed by one line per pixel, for width * height pixels in buffer order |
| GammaColor.WritePixels | src/cpp/color.hh:27-50 | the loop writes the lines of the first n pixels in order |
| GammaColor.WriteColorReadsBack | src/cpp/color.hh:16-52 | the written file reads back as its dimensions and width * height byte triples, each in [0, 255] |
| ByteColor.ByteOf | color.hh:11-13 | the byte is trunc(255.999 c) and lies in [0, 255] for c in [0, 1] |
| ByteColor.ByteOfEnds | color.hh:11-13 | 0 maps to 0 and 1 maps to 255 |
| ByteColor.ByteOfMonotone | color.hh:11-13 | the mapping never decreases |
| ByteColor.ByteOfOnto | color.hh:11-13 | every byte value 0..255 is produced by some c in [0, 1] |
| ByteColor.ColorLineReadsBack | color.hh:10-14 | a colour in the unit cube is written as three bytes that read back from its line |

## Left out

- `vec3.hh`, `ray.hh` and `rtweekend.hh` are not part of this model. `Vectors` defines the minimal vector and ray operations the core uses.
- `unit_vector`, `sqrt` and `pow`: `sqrt` and the length in `unit_vector` are parameters with their defining equation. `pow(x, 5)` is exact multiplication.
- `refract`, `random_unit_vector` and `random_double` are inputs. Their definitions are in files that are not part of this model.
- IEEE rounding, NaN and infinity are not modelled. Where the C++ result would be NaN the model chooses the observable behaviour:
  - a zero ray direction makes the sphere roots NaN, which no interval surrounds, so the model treats it as a miss;
  - a zero radius makes the sphere normal NaN; the model uses the zero vector;
  - a degenerate triangle (u x v = 0) gets a NaN normal in C++; `fabs(NaN) < 1e-8` is false, so the parallel test passes, and `ray_t.contains(NaN)` then fails, so it is never hit. The model stores a zero normal, which its parallel test rejects, with the same outcome;
  - `hit_sphere` divides by a = 0 for a zero direction; then half_b and the discriminant are 0 as well, so the result is 0/0 = NaN. The model returns -1, which the caller treats the same way (`t > 0` fails).
- Infinity is kept only as an interval bound (`ExtReal`).
- SphereDemo.HitSphere: "returns -1 exactly when the discriminant is negative" holds in one direction only. A genuine root can be -1, as SphereDemo.SentinelIsAlsoARoot shows, so the converse is not stated.
- GammaColor.ComponentByte: requires a non-negative component and a positive sample count. A negative component, or a positive component with a negative sample count, makes the `sqrt` argument negative and the result NaN, and casting NaN to `int` is undefined behaviour. Zero samples makes the scale 1.0 / 0 = +inf: a positive component becomes +inf, whose root +inf clamps to 0.999 and gives the byte 255, while a zero component gives 0 * inf = NaN. None of these cases is modelled.
- ByteColor.ByteOf: the [0, 255] range is stated for c in [0, 1]. Outside that range `static_cast<int>` can leave the byte range, which the code does not guard.
- Scatter.DielectricScatter: the refracted direction is an input and is not computed.
- Scatter.DielectricScatter: excludes ir = -1, and ir = 0 on the front face. With ir = -1 the ratio is -1 on either face, Schlick's r0 divides by 1 + ir = 0 and the reflectance is NaN, which never exceeds the draw. With ir = 0 on the front face the ratio 1.0 / 0 is +inf, so `cannot_refract` holds whenever sin_theta > 0, and r0 is NaN. The model does not give these IEEE outcomes.
- `hittable_list`'s `temp_rec` is uninitialised in C++. Its starting value is a parameter of `HittableList.ListHit`.
- `image_memory` stores `new color[...]` slots holding whatever `vec3`'s default constructor gives. That value is the `blank` parameter of `ImageMemory.New`.
- ImageMemory.New: requires both sizes to be non-negative. With one negative size `new color[lines * rows]` gets a negative count and throws. With two the product is positive, so a buffer of that size is allocated and `copy_image` visits it, but `get_render_line` never hands out a valid scanline. Neither case is modelled.
- The mutexes of `parallel.hh` and all threading are not modelled; the operations are modelled one after another. The locks alone do not make that sound: `get_image` runs `iterations++` and `linesLeft = lines` under no lock, and `copy_image` reads `iterations` before taking `lock_img`, so a `get_image` that overlaps a worker's `get_render_line` or `write_pixel` is a data race. The sequential model relies on callers invoking `get_image` only after every worker of the pass has finished.
- File output is not modelled: the `std::ofstream` writes, `std::clog` progress and `out.close()`.
  - `write_color` of `color.hh` takes its `std::ofstream` by value, while `camera.hh:38` and `main.cc:83` pass `&out`, a pointer; as written neither call compiles, and a stream cannot be copied. `ByteColor.ColorLine` and `ByteColor.ColorLineReadsBack` model the evident intent: the line is written to the caller's stream.
  - The text that `write_color` and `main` write is modelled as a string (`PpmText`, `GammaColor.WriteColor`).
  - The pixel loop of `camera::render` and `main` is modelled by the ray it builds for each pixel (`Camera.PixelRays`, `Camera.PixelRaysInOrder`).
- `main.cpp` (a gradient demo), `src/main.cc` (window and event handling) and `src/cpp/cpu_render.cpp`/`.hh` (random scene set-up) are not part of this model.
- `sphere::hit` never sets `rec.mat`. The model keeps the caller's material (`Spheres.SphereHit` states `o.rec.mat == rec.mat`). The material is an `Option` because a fresh record has none.
- `triangle.hh` writes `rec.u` and `rec.v`, which `hit_record` in `hittable.hh` lacks. The model adds `u` and `v` fields to `HitRecord`.
- Integer width: `int` is unbounded. `lines * rows`, `image_width * image_height` and the pixel index are assumed not to overflow.

## Findings

| source | as written | input that shows it | evidently intended | confidence | as-written member | corrected member |
|---|---|---|---|---|---|---|
| triangle.hh:32 | `if(!is_interior(alpha, beta, rec));` ends in a semicolon, so the interior test gates nothing and every non-parallel ray whose plane parameter is in range is a hit | the ray from Q - u + v + normal along -normal, range [0, 2]: it meets the plane at t = 1 at the point with alpha = -1, beta = 1, outside the triangle, and is reported as a hit | return false when the point is outside the triangle | high (not executed) | Triangles.TriangleHitIgnoresInterior | Triangles.TriangleHitInsideIff |
| triangle.hh:43 | `is_interior` tests only `a + b < 0 \|\| a + b > 1`, not a >= 0 and b >= 0 | a = -1, b = 1 passes the test but lies outside the triangle | 0 <= a, 0 <= b and a + b <= 1 | high (not executed) | Triangles.IsInteriorAcceptsOutside | Triangles.TriangleHitInside |

The scene model (`Triangles.TriangleHitFunction`) uses the corrected `Triangles.TriangleHitInside`.
