# Ray-quiem geometric core in Dafny

This project models the geometric core of a small ray tracer written in
Rust, and proves properties of the model:

- `Vec3`, the three-component vector, with its operators (sum, difference,
  negation, scaling, division by a scalar, dot and cross product, length,
  unit vector) and the in-place compound operators `+=`, `-=`, `*=` and `/=`
  (`vec3.dfy`);
- the ray and its point evaluation `at(t)` (`ray.dfy`);
- the hit record, its derived default, and `set_face_normal`, which stores
  the outward normal turned against the incoming ray (`hittable.dfy`);
- `Sphere::new` and the ray-sphere intersection `Sphere::hit`: the
  discriminant test, the nearer root tried before the farther one, the
  strict interval `(t_min, t_max)`, and a record written only for an
  accepted root (`sphere.dfy`);
- `HittableList` with `new`, `add`, `clear` and its `hit`, the loop that
  lowers `closest_time` at every success and copies each successful record
  out (`hittable_list.dfy`);
- `PI` and `degrees_to_radians` (`common.dfy`).

All arithmetic is over Dafny's exact `real`. `f64::sqrt` is passed in as a
function `sqrt` known only to return the non-negative root of a
non-negative argument (`Vectors.IsSqrt`). `Box<dyn Hittable>` is the closed
datatype `HittableLists.Hittable`, with one variant per implementor of the
trait in the source: a sphere, or a list (a `HittableList` is itself
hittable, so lists nest). The mutable hit record is the class
`Hittables.HitRecord`; `Value()` reads its four fields as a `HitData` value.

The main results: `Spheres.HitIsNearest` shows the sphere reports the
nearest intersection inside the interval, and only when one exists.
`HittableLists.NearestInScene` lifts this to any scene, however its lists
nest. `HittableLists.ClosestIsMinimum` shows the list loop keeps the least
parameter any member reports. `HittableLists.ClosestOrderIndependent` shows
that parameter does not depend on insertion order.

`HitRecord` derives `Default` (src/lib/hittable/hittable.rs:4), so the
default record has `t == 0.0` and `facing_front == false`
(`Hittables.DefaultHit`).

## Model

| member | source | states |
|---|---|---|
| `Vectors.Add` | vec3.rs:56-65 | the component-wise sum; its laws are `AddCommutative`, `AddAssociative` and `SubUndoesAdd` |
| `Vectors.AddCommutative` | vec3.rs:56-65 | `a + b == b + a` |
| `Vectors.AddAssociative` | vec3.rs:56-65 | `(a + b) + c == a + (b + c)` |
| `Vectors.Sub` | vec3.rs:67-76 | the difference `a - b` is the vector that, added to `b`, gives `a` |
| `Vectors.SubUndoesAdd` | vec3.rs:56-76 | `(a + b) - b == a` |
| `Vectors.SubZeroIffEqual` | vec3.rs:67-76 | `a - b` is the zero vector exactly when `a == b` |
| `Vectors.Neg` | vec3.rs:106-115 | `-v` is the additive inverse: `v + (-v) == 0` and `-v == 0 - v` |
| `Vectors.NegInvolution` | vec3.rs:106-115 | `-(-v) == v` |
| `Vectors.Scale` | vec3.rs:78-87 | each component multiplied by `t`; its laws are `ScaleDistributes`, `ScaleSquaresDot` and `DivUndoesScale` |
| `Vectors.ScaleDistributes` | vec3.rs:78-87 | scaling distributes over sums, and scaling by `s` then `t` is scaling by `s * t` |
| `Vectors.Dot` | vec3.rs:90-97 | the sum of the component products; its laws are `DotSymmetric`, `DotSelf` and `ScaleSquaresDot` |
| `Vectors.DotSymmetric` | vec3.rs:90-97 | `a · b == b · a` |
| `Vectors.DotSelf` | vec3.rs:90-97 | `v · v >= 0`, and `v · v > 0` exactly when `v` is not the zero vector |
| `Vectors.ScaleSquaresDot` | vec3.rs:78-97 | `(v * t) · (v * t) == t * t * (v · v)` |
| `Vectors.Div` | vec3.rs:99-104 | scaling by `1 / t`; `DivUndoesScale` shows it divides each component and inverts `Scale` |
| `Vectors.DivUndoesScale` | vec3.rs:99-104 | `v / t` divides each component by `t`, and `/ t` and `* t` undo each other (`t != 0`) |
| `Vectors.Cross` | vec3.rs:23-29 | `a × b` is orthogonal to `a` and to `b` |
| `Vectors.CrossAntiCommutative` | vec3.rs:23-29 | `a × b == -(b × a)` |
| `Vectors.Length` | vec3.rs:31-33 | the length is non-negative, its square is `v · v`, and it is positive for every non-zero vector |
| `Vectors.Unit` | vec3.rs:34-36 | for non-zero `v`, `unit(v)` has `unit(v) · unit(v) == 1`, length 1, and scaled by `length(v)` gives back `v` |
| `Vectors.OperatorExamples` | vec3.rs:157-228 | the worked examples of the unit tests, e.g. `(1,2,3) · (4,-5,6) == 12` and `(1,2,3) × (4,5,6) == (-3,6,-3)` |
| `Vectors.LengthExample` | vec3.rs:213-219 | `length((3,4,0)) == 5` and the unit vector of `(3,4,0)` has length exactly 1 |
| `Vectors.MutableVec3.constructor` | vec3.rs:13-20 | `new` stores `(x, y, z)` in a fresh three-slot buffer, and the getters `x()`, `y()`, `z()` (read through `Value()`) give back exactly those components, as the test at vec3.rs:150-155 checks |
| `Vectors.MutableVec3.AddAssign` | vec3.rs:117-123 | after `a += b` the buffer holds `old(a) + b` |
| `Vectors.MutableVec3.SubAssign` | vec3.rs:124-130 | after `a -= b` the buffer holds `old(a) - b` |
| `Vectors.MutableVec3.MulAssign` | vec3.rs:131-137 | after `a *= t` the buffer holds `old(a) * t` |
| `Vectors.MutableVec3.DivAssign` | vec3.rs:138-142 | after `a /= t` the buffer holds `old(a) / t`, computed as `*= 1/t` |
| `Rays.Ray.At` | src/lib/hittable/sphere.rs:43 | the point at `t` is the origin displaced by `direction * t` |
| `Hittables.FacesFront` | src/lib/hittable/hittable.rs:18 | the ray strikes the outer side when `direction · outward < 0`; `OrientedNormal`, `SetFaceNormal` and `Spheres.FacesFrontAtPoint` are stated with it |
| `Hittables.OrientedNormal` | src/lib/hittable/hittable.rs:18-23 | the stored normal is the outward normal or its negation, never points along the ray, and keeps the outward normal's length |
| `Hittables.OrientedNormalFacts` | src/lib/hittable/hittable.rs:18-23 | for a non-zero outward normal, the stored normal equals it exactly when the ray strikes the outer side, and has the same length |
| `Hittables.HitRecord.constructor` | src/lib/hittable/hittable.rs:4-15 | `HitRecord::new()` is the derived default: zero point and normal, `t == 0.0`, not facing front |
| `Hittables.HitRecord.SetFaceNormal` | src/lib/hittable/hittable.rs:17-24 | `facing_front` holds exactly when `direction · outward < 0`; the normal is `outward` when facing front and `-outward` otherwise; `direction · normal <= 0`; `point` and `t` are unchanged |
| `Hittables.HitRecord.CopyFrom` | src/lib/hittable/hittable_list.rs:37 | `*hit_record = temp_record.clone()` makes every field equal to the other record's |
| `Spheres.New` | src/lib/hittable/sphere.rs:13-16 | a sphere is built exactly when `radius > 0`, with the given center and radius; otherwise the assertion's message is the error |
| `Spheres.NearRoot` | src/lib/hittable/sphere.rs:34 | the nearer root `r` solves `a * r == h - sqrt(discriminant)` |
| `Spheres.FarRoot` | src/lib/hittable/sphere.rs:36 | the farther root `r` solves `a * r == h + sqrt(discriminant)` |
| `Spheres.HitTime` | src/lib/hittable/sphere.rs:27-40 | the parameter `hit` accepts, always strictly inside `(t_min, t_max)`; `MissIffNoRootInInterval`, `NearerRootPreferred` and `HitIsNearest` prove that it is the nearer in-interval root and the nearest surface point in the interval |
| `Spheres.OutwardNormal` | src/lib/hittable/sphere.rs:45 | `(point - center) / radius`, the vector that scaled by the radius is the offset of the point from the center |
| `Spheres.FacesFrontAtPoint` | src/lib/hittable/sphere.rs:45-46 | the ray strikes the outer side at a point exactly when it travels against the offset of that point from the center |
| `Spheres.HitAt` | src/lib/hittable/sphere.rs:42-46 | the record written for an accepted `t`: `t` itself, the point `ray.at(t)`, a normal that never points along the ray and that, scaled by the radius, is plus or minus the offset from the center, and `facing_front` exactly when the ray travels against that offset |
| `Spheres.SphereHit` | src/lib/hittable/sphere.rs:20-49 | what `hit` reports: a record exactly when `HitTime` accepts a parameter, and then one whose `t` is that parameter, lies in the interval, whose point is `ray.at(t)` and whose normal opposes the ray |
| `Spheres.SphereHitAtTime` | src/lib/hittable/sphere.rs:42-46 | when `HitTime` accepts `t`, `SphereHit` reports the record `HitAt` writes for `t` |
| `Spheres.Hit` | src/lib/hittable/sphere.rs:20-49 | returns true exactly when the sphere reports a hit; then the record holds that hit (point, oriented normal, `t`, side); otherwise the record is unchanged |
| `Spheres.DistanceAlongRay` | src/lib/hittable/sphere.rs:21-25 | the squared distance from the center to the ray point at `t` is `a*t*t - 2*h*t + oc·oc` |
| `Spheres.OnSphereIffQuadratic` | src/lib/hittable/sphere.rs:21-25 | the ray point at `t` is on the sphere exactly when `a*t*t - 2*h*t + c == 0` |
| `Spheres.QuadraticZero` | src/lib/hittable/sphere.rs:23-27 | for `a != 0` the quadratic vanishes exactly when `(a*t - h)^2` equals the discriminant `h*h - a*c` |
| `Spheres.RootsOfSquare` | src/lib/hittable/sphere.rs:32-36 | `(a*t - h)^2` equals the discriminant exactly when `t` is one of the two roots |
| `Spheres.QuadraticRoots` | src/lib/hittable/sphere.rs:27-36 | with a non-negative discriminant the quadratic vanishes exactly at the two roots |
| `Spheres.QuadraticNoRoots` | src/lib/hittable/sphere.rs:27-30 | with a negative discriminant the quadratic never vanishes |
| `Spheres.NoPointOnSphere` | src/lib/hittable/sphere.rs:27-30 | with a negative discriminant no point of the ray is on the sphere |
| `Spheres.QuadraticAtRoots` | src/lib/hittable/sphere.rs:32-36 | the ray-sphere quadratic vanishes exactly at `(h - sqrt(d)) / a` and `(h + sqrt(d)) / a` |
| `Spheres.PointsOnSphere` | src/lib/hittable/sphere.rs:32-36 | with a non-negative discriminant the ray meets the sphere exactly at the two roots |
| `Spheres.RootsOfSphere` | src/lib/hittable/sphere.rs:21-36 | the ray meets the sphere exactly at the roots, and only when the discriminant is non-negative |
| `Spheres.NearNotAfterFar` | src/lib/hittable/sphere.rs:34-36 | `(h - sqrt(d)) / a <= (h + sqrt(d)) / a` since `a > 0` |
| `Spheres.MissWhenDiscriminantNegative` | src/lib/hittable/sphere.rs:27-30 | a negative discriminant is a miss |
| `Spheres.MissIffNoRootInInterval` | src/lib/hittable/sphere.rs:34-39 | with a non-negative discriminant, a miss happens exactly when neither root lies strictly inside `(t_min, t_max)` |
| `Spheres.NearerRootPreferred` | src/lib/hittable/sphere.rs:34-35 | when both roots lie in the interval the nearer root is taken, and it is the smaller |
| `Spheres.HitTimeInInterval` | src/lib/hittable/sphere.rs:35-42 | a reported hit has `t_min < t < t_max` |
| `Spheres.HitIsNearest` | src/lib/hittable/sphere.rs:27-40 | a hit is reported exactly when the ray meets the sphere inside the interval, and then at the nearest such parameter |
| `Spheres.HitPointOnSphere` | src/lib/hittable/sphere.rs:42-43 | the reported point is `ray.at(t)` and lies on the sphere |
| `Spheres.OutwardNormalIsUnit` | src/lib/hittable/sphere.rs:45 | at a point on the sphere `(point - center) / radius` has unit length |
| `Spheres.OrientedNormalAt` | src/lib/hittable/sphere.rs:45-46 | at a point on the sphere the stored normal has unit length and is the outward normal exactly on a front hit |
| `Spheres.HitNormal` | src/lib/hittable/sphere.rs:42-46 | a reported normal has unit length, never points along the ray, and is the outward normal exactly when the ray strikes the outer side |
| `Spheres.HitNarrowing` | src/lib/hittable/sphere.rs:34-39 | lowering `t_max` keeps the reported hit if it is below the new bound and loses it otherwise |
| `Spheres.FrontSurfaceExample` | src/lib/hittable/sphere.rs:20-49 | a ray down the z axis from `(0,0,5)` meets a sphere of radius `r` about the origin at `(0,0,r)`, `t == 5 - r`, normal `(0,0,1)`, front side, for any `sqrt` with `sqrt(r*r) == r` |
| `Spheres.FrontSurfaceTime` | src/lib/hittable/sphere.rs:27-40 | in that example the accepted parameter is the nearer root `5 - r` |
| `Spheres.FrontSurfaceRecord` | src/lib/hittable/sphere.rs:42-46 | in that example the record written for `5 - r` is point `(0,0,r)`, normal `(0,0,1)`, front side |
| `Spheres.ExampleRoot` | src/lib/hittable/sphere.rs:32 | an exact square root returns `r` for `r * r` when `r > 0`, so the example applies to every exact `sqrt` |
| `HittableLists.HitOf` | src/lib/hittable/hittable.rs:29-31 | the record an object reports: a sphere's is `SphereHit`, a list's is `ClosestHit`; `ObjectHitInInterval`, `ObjectNarrowing` and `NearestInScene` are proved about it |
| `HittableLists.ClosestHit` | src/lib/hittable/hittable_list.rs:31-41 | the record the loop holds after visiting the objects in order, each asked with the bound lowered to the held parameter; `ClosestIsMinimum` proves it is the least hit of any member, and `HitAll` is proved equal to it |
| `HittableLists.HitObject` | src/lib/hittable/hittable.rs:29-31 | the `Hittable::hit` contract through dynamic dispatch: true exactly when the object reports a hit, the record then holds it, and is otherwise unchanged |
| `HittableLists.HitAll` | src/lib/hittable/hittable_list.rs:27-42 | the loop returns true exactly when the reduction over all objects holds a record, copies that record out, and leaves the record alone otherwise |
| `HittableLists.ClosestStep` | src/lib/hittable/hittable_list.rs:33-38 | one turn of the loop: a success replaces the held record and lies strictly below the previous `closest_time`, so the held parameter never grows |
| `HittableLists.HittableList.constructor` | src/lib/hittable/hittable_list.rs:11-15 | a new list has no objects |
| `HittableLists.HittableList.Add` | src/lib/hittable/hittable_list.rs:17-19 | `objects == old(objects) + [o]` |
| `HittableLists.HittableList.Clear` | src/lib/hittable/hittable_list.rs:21-23 | `objects` becomes empty |
| `HittableLists.HittableList.Hit` | src/lib/hittable/hittable_list.rs:26-43 | true exactly when the reduction over the list's objects holds a record; the record then holds it, and is otherwise unchanged |
| `HittableLists.EmptyListMisses` | src/lib/hittable/hittable_list.rs:28-41 | an empty list reports no hit |
| `HittableLists.ObjectHitInInterval` | src/lib/hittable/hittable.rs:29-31 | any object's reported parameter lies strictly inside `(t_min, t_max)` |
| `HittableLists.ClosestHitInInterval` | src/lib/hittable/hittable_list.rs:31-41 | the list's reported parameter lies strictly inside `(t_min, t_max)` |
| `HittableLists.ObjectNarrowing` | src/lib/hittable/hittable.rs:29-31 | lowering `t_max` keeps any object's reported hit if it is below the new bound and loses it otherwise |
| `HittableLists.ClosestNarrowing` | src/lib/hittable/hittable_list.rs:31-41 | the same for a list's reduction |
| `HittableLists.ClosestIsMinimum` | src/lib/hittable/hittable_list.rs:31-41 | the list reports a hit exactly when some object does on the whole interval; the record is one object's, and its parameter is at most every object's |
| `HittableLists.NearestInScene` | src/lib/hittable/hittable_list.rs:26-42 | any scene reports a hit exactly when the ray meets one of its spheres inside the interval, and then at the nearest such parameter |
| `HittableLists.HitFromSomeSphere` | src/lib/hittable/hittable_list.rs:33-38 | a scene's record is the record one of its spheres reports for the same interval |
| `HittableLists.SceneHitGeometry` | src/lib/hittable/hittable_list.rs:33-38 | a scene's record has its parameter in the interval, its point at `ray.at(t)` on one of the spheres, and a unit normal that never points along the ray |
| `HittableLists.SupersetHitsNoLater` | src/lib/hittable/hittable_list.rs:31-41 | a list holding every object of another reports a hit whenever that one does, and no later |
| `HittableLists.ClosestOrderIndependent` | src/lib/hittable/hittable_list.rs:31-41 | reordering the objects changes neither whether a hit is reported nor its parameter |
| `Common.DegreesToRadians` | src/lib/utils/common.rs:5-7 | the result is the same fraction of `PI` as the angle in degrees is of 180 |
| `Common.ConversionExamples` | src/lib/utils/common.rs:6 | 0 degrees is 0, 90 is `PI / 2`, 180 is `PI`, 360 is `2 * PI` |
| `Common.ConversionAdditive` | src/lib/utils/common.rs:6 | `f(a + b) == f(a) + f(b)` |
| `Common.ConversionIncreasing` | src/lib/utils/common.rs:6 | `a < b` exactly when `f(a) < f(b)` |

## Left out

- IEEE `f64` behaviour: rounding, NaN and infinities. Components are exact reals, so the unit tests' `1e-10` tolerance (vec3.rs:218) is not needed and the length of a unit vector is exactly 1.
- `INFINITY` (src/lib/utils/common.rs:2): reals have no infinity. Callers pass any real `t_max`; an unbounded query is one whose `t_max` exceeds every root.
- `f64::sqrt` is a foreign call. It is a parameter `sqrt` with `Vectors.IsSqrt(sqrt)`: the exact non-negative root.
- Rays with a zero direction: the source divides `0.0 / 0.0` at src/lib/hittable/sphere.rs:34. The NaN root then fails both comparisons at line 35, so the source accepts it. The model requires a non-zero direction instead.
- `unit` of the zero vector (vec3.rs:35) divides by zero; `Vectors.Unit` requires a non-zero vector.
- `Sphere::new` panics on a non-positive radius. The model returns `Err` with the panic message. Sphere fields are private, so every sphere the rest of the model sees is valid (`Sphere.Valid`). For the same reason `HittableList.Add` requires a valid object, and `HittableList.Valid` (every sphere in the list is valid) is the class invariant.
- `Hittable` is an open trait in Rust. The model closes it over the two implementors in the source: spheres and lists.
- `Vec3::write_color` (vec3.rs:40-52): writing to an `io::Write` sink.
- main.rs (PPM output, progress bar, float-to-byte conversion) and src/main.rs (window, event loop, pixel buffer) are not part of this model.
- src/hittable.rs is an older, unused declaration of `HitRecord` and `Hittable` with no logic.
- The ray type's own source file is not part of this model. `Rays.Ray` defines only what sphere.rs uses: `origin`, `direction` and `at`.
- Camera, colour and shading code are not part of this model.
