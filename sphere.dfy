/** Spheres and their ray intersection by the closed-form quadratic.

    A ray point `origin + direction * t` lies on the sphere when
    `|origin + direction * t - center|^2 == radius^2`, a quadratic in `t`.
    With `oc = center - origin`, `a = direction · direction`,
    `h = direction · oc` and `c = oc · oc - radius^2` its roots are
    `(h - sqrt(h*h - a*c)) / a` and `(h + sqrt(h*h - a*c)) / a`. */
module Spheres {
  import opened Wrappers
  import opened RealArith
  import opened Vectors
  import opened Rays
  import opened Hittables

  datatype Sphere = Sphere(center: Vec3, radius: real) {
    /** What `Sphere::new` guarantees of every sphere it returns. */
    predicate Valid() {
      0.0 < radius
    }
  }

  const NonPositiveRadius: string := "Cannot create a sphere with a negative or zero radius."

  /** `Sphere::new`: the source asserts `radius > 0`; the failed assertion
      is the `Err` case. */
  function New(center: Vec3, radius: real): (r: Result<Sphere, string>)
    ensures r.Ok? <==> 0.0 < radius
    ensures r.Ok? ==> r.value.Valid() && r.value.center == center && r.value.radius == radius
    ensures r.Err? ==> r.error == NonPositiveRadius
  {
    if 0.0 < radius then Ok(Sphere(center, radius)) else Err(NonPositiveRadius)
  }

  // ---------------------------------------------------------------------
  // The quadratic
  // ---------------------------------------------------------------------

  function CenterOffset(s: Sphere, ray: Ray): Vec3 {
    Sub(s.center, ray.origin)
  }

  function QuadA(ray: Ray): real {
    Dot(ray.direction, ray.direction)
  }

  function QuadH(s: Sphere, ray: Ray): real {
    Dot(ray.direction, CenterOffset(s, ray))
  }

  function QuadC(s: Sphere, ray: Ray): real {
    Dot(CenterOffset(s, ray), CenterOffset(s, ray)) - s.radius * s.radius
  }

  function Discriminant(s: Sphere, ray: Ray): real {
    QuadH(s, ray) * QuadH(s, ray) - QuadA(ray) * QuadC(s, ray)
  }

  /** The nearer root, tried first: the solution `r` of
      `a * r == h - sqrt(discriminant)`. */
  function NearRoot(s: Sphere, ray: Ray, sqrt: real -> real): (r: real)
    requires ray.direction != Zero
    requires 0.0 <= Discriminant(s, ray)
    ensures QuadA(ray) * r == QuadH(s, ray) - sqrt(Discriminant(s, ray))
  {
    DotSelf(ray.direction);
    (QuadH(s, ray) - sqrt(Discriminant(s, ray))) / QuadA(ray)
  }

  /** The farther root, tried second: the solution `r` of
      `a * r == h + sqrt(discriminant)`. */
  function FarRoot(s: Sphere, ray: Ray, sqrt: real -> real): (r: real)
    requires ray.direction != Zero
    requires 0.0 <= Discriminant(s, ray)
    ensures QuadA(ray) * r == QuadH(s, ray) + sqrt(Discriminant(s, ray))
  {
    DotSelf(ray.direction);
    (QuadH(s, ray) + sqrt(Discriminant(s, ray))) / QuadA(ray)
  }

  /** The point `p` is on the surface of `s`. */
  ghost predicate OnSphere(s: Sphere, p: Vec3) {
    Dot(Sub(p, s.center), Sub(p, s.center)) == s.radius * s.radius
  }

  /** `t` is an acceptable intersection: strictly inside `(tMin, tMax)` and
      on the surface. */
  ghost predicate IsHitTime(s: Sphere, ray: Ray, tMin: real, tMax: real, t: real) {
    tMin < t < tMax && OnSphere(s, ray.At(t))
  }

  // ---------------------------------------------------------------------
  // Sphere::hit
  // ---------------------------------------------------------------------

  /** The parameter `Sphere::hit` accepts: none for a negative discriminant,
      else the nearer root if it is strictly inside `(tMin, tMax)`, else
      the farther root if it is, else none. */
  function HitTime(s: Sphere, ray: Ray, tMin: real, tMax: real, sqrt: real -> real): (r: Option<real>)
    requires ray.direction != Zero
    ensures r.Some? ==> tMin < r.value < tMax
  {
    if Discriminant(s, ray) < 0.0 then None
    else
      var near := NearRoot(s, ray, sqrt);
      var far := FarRoot(s, ray, sqrt);
      if !(tMin >= near || near >= tMax) then Some(near)
      else if !(tMin >= far || far >= tMax) then Some(far)
      else None
  }

  /** The outward normal at `p`: `(p - center) / radius`, the vector that,
      scaled by the radius, is the offset of `p` from the center. */
  function OutwardNormal(s: Sphere, p: Vec3): (n: Vec3)
    requires s.Valid()
    ensures Scale(n, s.radius) == Sub(p, s.center)
  {
    DivUndoesScale(Sub(p, s.center), s.radius);
    Div(Sub(p, s.center), s.radius)
  }

  /** The ray strikes the outer side at `p` exactly when it travels against
      the offset of `p` from the center, since the radius is positive. */
  lemma FacesFrontAtPoint(s: Sphere, ray: Ray, p: Vec3)
    requires s.Valid()
    ensures FacesFront(ray, OutwardNormal(s, p)) <==> Dot(ray.direction, Sub(p, s.center)) < 0.0
  {
    var n := OutwardNormal(s, p);
    var d := ray.direction;
    var k := Dot(d, n);
    assert Dot(d, Sub(p, s.center)) == Dot(d, Scale(n, s.radius));
    assert Dot(d, Scale(n, s.radius)) == s.radius * k;
    if k < 0.0 {
      MulMixed(s.radius, k, s.radius * k);
    } else if 0.0 < k {
      MulPositive(s.radius, k, s.radius * k);
    }
  }

  /** The record written for an accepted parameter `t`: the point on the
      ray, and the normal `(point - center) / radius` oriented against the
      ray. */
  function HitAt(s: Sphere, ray: Ray, t: real): (r: HitData)
    requires s.Valid()
    ensures r.t == t && r.point == ray.At(t)
    ensures Dot(ray.direction, r.normal) <= 0.0
    ensures r.facingFront <==> Dot(ray.direction, Sub(r.point, s.center)) < 0.0
    ensures Scale(r.normal, s.radius) == Sub(r.point, s.center)
            || Scale(r.normal, s.radius) == Sub(s.center, r.point)
  {
    var p := ray.At(t);
    var outward := OutwardNormal(s, p);
    FacesFrontAtPoint(s, ray, p);
    HitData(p, OrientedNormal(ray, outward), t, FacesFront(ray, outward))
  }

  /** What `Sphere::hit` reports: the record for the accepted parameter. */
  function SphereHit(s: Sphere, ray: Ray, tMin: real, tMax: real, sqrt: real -> real): (r: Option<HitData>)
    requires s.Valid() && ray.direction != Zero
    ensures r.Some? <==> HitTime(s, ray, tMin, tMax, sqrt).Some?
    ensures r.Some? ==> HitTime(s, ray, tMin, tMax, sqrt) == Some(r.value.t)
    ensures r.Some? ==> tMin < r.value.t < tMax && r.value.point == ray.At(r.value.t)
    ensures r.Some? ==> Dot(ray.direction, r.value.normal) <= 0.0
  {
    match HitTime(s, ray, tMin, tMax, sqrt)
    case None => None
    case Some(t) => Some(HitAt(s, ray, t))
  }

  /** `impl Hittable for Sphere`: on success writes `t`, the point and the
      oriented normal into `rec`; on failure leaves `rec` untouched. */
  method Hit(s: Sphere, ray: Ray, tMin: real, tMax: real, rec: HitRecord, sqrt: real -> real)
    returns (hit: bool)
    requires s.Valid() && ray.direction != Zero
    modifies rec
    ensures hit == SphereHit(s, ray, tMin, tMax, sqrt).Some?
    ensures hit ==> rec.Value() == SphereHit(s, ray, tMin, tMax, sqrt).value
    ensures !hit ==> rec.Value() == old(rec.Value())
  {
    var cmq := Sub(s.center, ray.origin);
    var a := Dot(ray.direction, ray.direction);
    var h := Dot(ray.direction, cmq);
    var c := Dot(cmq, cmq) - s.radius * s.radius;

    var discriminant := h * h - a * c;
    assert discriminant == Discriminant(s, ray);
    if discriminant < 0.0 {
      return false;
    }

    var dSqrt := sqrt(discriminant);
    DotSelf(ray.direction);

    var root := (h - dSqrt) / a;
    assert root == NearRoot(s, ray, sqrt);
    if tMin >= root || root >= tMax {
      root := (h + dSqrt) / a;
      assert root == FarRoot(s, ray, sqrt);
      if tMin >= root || root >= tMax {
        return false;
      }
    }
    assert HitTime(s, ray, tMin, tMax, sqrt) == Some(root);

    rec.t := root;
    rec.point := ray.At(root);

    var outwardNormal := OutwardNormal(s, rec.point);
    rec.SetFaceNormal(ray, outwardNormal);
    assert rec.Value() == HitAt(s, ray, root);

    hit := true;
  }

  // ---------------------------------------------------------------------
  // Roots of the quadratic
  // ---------------------------------------------------------------------

  /** The squared distance from the center to the ray point at `t`, as a
      quadratic in `t`. */
  lemma DistanceAlongRay(s: Sphere, ray: Ray, t: real)
    ensures Dot(Sub(ray.At(t), s.center), Sub(ray.At(t), s.center))
            == QuadA(ray) * (t * t) - 2.0 * QuadH(s, ray) * t + Dot(CenterOffset(s, ray), CenterOffset(s, ray))
  {
    var d, oc := ray.direction, CenterOffset(s, ray);
    var w := Sub(ray.At(t), s.center);
    OffsetSquare(w.x, d.x, oc.x, t);
    OffsetSquare(w.y, d.y, oc.y, t);
    OffsetSquare(w.z, d.z, oc.z, t);
    Distribute(d.x * d.x, d.y * d.y, d.z * d.z, t * t);
    Distribute(d.x * oc.x, d.y * oc.y, d.z * oc.z, t);
  }

  /** One component of the offset from the center along the ray. */
  lemma OffsetSquare(w: real, d: real, o: real, t: real)
    requires w == d * t - o
    ensures w * w == d * d * (t * t) - 2.0 * (d * o) * t + o * o
  {
    ExpandSquare(d, o, t);
  }

  /** For `a != 0`, `a*t*t - 2*h*t + c` vanishes exactly when
      `(a*t - h)^2` equals the discriminant `h*h - a*c`. */
  lemma QuadraticZero(a: real, h: real, c: real, t: real)
    requires a != 0.0
    ensures a * (t * t) - 2.0 * h * t + c == 0.0 <==> (a * t - h) * (a * t - h) == h * h - a * c
  {
    CompleteSquare(a, h, c, t);
    ProductZero(a, a * (t * t) - 2.0 * h * t + c, a * (a * (t * t) - 2.0 * h * t + c));
  }

  /** The point at `t` is on the sphere exactly when `t` solves
      `a*t*t - 2*h*t + c == 0`. */
  lemma OnSphereIffQuadratic(s: Sphere, ray: Ray, t: real)
    ensures OnSphere(s, ray.At(t))
            <==> QuadA(ray) * (t * t) - 2.0 * QuadH(s, ray) * t + QuadC(s, ray) == 0.0
  {
    DistanceAlongRay(s, ray, t);
  }

  /** For `a != 0`, `sq` the non-negative root of `disc`, and `near`, `far`
      the solutions of `a * near == h - sq` and `a * far == h + sq`,
      `(a*t - h)^2` equals `disc` exactly when `t` is `near` or `far`. */
  lemma RootsOfSquare(a: real, h: real, t: real, u: real, disc: real, sq: real, near: real, far: real)
    requires a != 0.0 && u == a * t - h
    requires 0.0 <= sq && sq * sq == disc
    requires a * near == h - sq && a * far == h + sq
    ensures u * u == disc <==> t == near || t == far
  {
    SquaresEqual(u, sq);
    ProductZero(a, t - near, a * t - a * near);
    ProductZero(a, t - far, a * t - a * far);
  }

  /** With `sq` the non-negative root of the discriminant `h*h - a*c` and
      `near`, `far` the solutions of `a * near == h - sq` and
      `a * far == h + sq`, the quadratic `a*t*t - 2*h*t + c` (`a != 0`)
      vanishes exactly at `near` and `far`. */
  lemma QuadraticRoots(a: real, h: real, c: real, t: real, sq: real, near: real, far: real)
    requires a != 0.0
    requires 0.0 <= sq && sq * sq == h * h - a * c
    requires a * near == h - sq && a * far == h + sq
    ensures a * (t * t) - 2.0 * h * t + c == 0.0 <==> t == near || t == far
  {
    QuadraticZero(a, h, c, t);
    RootsOfSquare(a, h, t, a * t - h, h * h - a * c, sq, near, far);
  }

  /** A quadratic with a negative discriminant has no real root. */
  lemma QuadraticNoRoots(a: real, h: real, c: real, t: real)
    requires a != 0.0 && h * h - a * c < 0.0
    ensures a * (t * t) - 2.0 * h * t + c != 0.0
  {
    QuadraticZero(a, h, c, t);
    Square(a * t - h, (a * t - h) * (a * t - h));
  }

  /** With a negative discriminant no point of the ray is on the sphere. */
  lemma NoPointOnSphere(s: Sphere, ray: Ray, t: real)
    requires ray.direction != Zero && Discriminant(s, ray) < 0.0
    ensures !OnSphere(s, ray.At(t))
  {
    OnSphereIffQuadratic(s, ray, t);
    DotSelf(ray.direction);
    QuadraticNoRoots(QuadA(ray), QuadH(s, ray), QuadC(s, ray), t);
  }

  /** Otherwise the points of the ray on the sphere are those at the roots. */
  lemma PointsOnSphere(s: Sphere, ray: Ray, t: real, sqrt: real -> real)
    requires ray.direction != Zero && IsSqrt(sqrt) && 0.0 <= Discriminant(s, ray)
    ensures OnSphere(s, ray.At(t)) <==> t == NearRoot(s, ray, sqrt) || t == FarRoot(s, ray, sqrt)
  {
    OnSphereIffQuadratic(s, ray, t);
    QuadraticAtRoots(s, ray, t, sqrt);
  }

  /** The quadratic of a ray and a sphere vanishes exactly at the two
      roots. */
  lemma QuadraticAtRoots(s: Sphere, ray: Ray, t: real, sqrt: real -> real)
    requires ray.direction != Zero && IsSqrt(sqrt) && 0.0 <= Discriminant(s, ray)
    ensures QuadA(ray) * (t * t) - 2.0 * QuadH(s, ray) * t + QuadC(s, ray) == 0.0
            <==> t == NearRoot(s, ray, sqrt) || t == FarRoot(s, ray, sqrt)
  {
    DotSelf(ray.direction);
    SqrtFacts(sqrt, Discriminant(s, ray));
    QuadraticRoots(QuadA(ray), QuadH(s, ray), QuadC(s, ray), t, sqrt(Discriminant(s, ray)),
                   NearRoot(s, ray, sqrt), FarRoot(s, ray, sqrt));
  }

  /** The two roots are the only points of the ray on the sphere, and there
      are none when the discriminant is negative. */
  lemma RootsOfSphere(s: Sphere, ray: Ray, t: real, sqrt: real -> real)
    requires ray.direction != Zero && IsSqrt(sqrt)
    ensures OnSphere(s, ray.At(t))
            <==> 0.0 <= Discriminant(s, ray) && (t == NearRoot(s, ray, sqrt) || t == FarRoot(s, ray, sqrt))
  {
    if Discriminant(s, ray) < 0.0 {
      NoPointOnSphere(s, ray, t);
    } else {
      PointsOnSphere(s, ray, t, sqrt);
    }
  }

  /** The nearer root is never beyond the farther one. */
  lemma NearNotAfterFar(s: Sphere, ray: Ray, sqrt: real -> real)
    requires ray.direction != Zero && IsSqrt(sqrt)
    requires 0.0 <= Discriminant(s, ray)
    ensures NearRoot(s, ray, sqrt) <= FarRoot(s, ray, sqrt)
  {
    var a, near, far := QuadA(ray), NearRoot(s, ray, sqrt), FarRoot(s, ray, sqrt);
    DotSelf(ray.direction);
    SqrtFacts(sqrt, Discriminant(s, ray));
    if far < near {
      MulPositive(a, near - far, a * near - a * far);
    }
  }

  // ---------------------------------------------------------------------
  // What Sphere::hit promises
  // ---------------------------------------------------------------------

  /** A negative discriminant is a miss. */
  lemma MissWhenDiscriminantNegative(s: Sphere, ray: Ray, tMin: real, tMax: real, sqrt: real -> real)
    requires s.Valid() && ray.direction != Zero
    requires Discriminant(s, ray) < 0.0
    ensures SphereHit(s, ray, tMin, tMax, sqrt) == None
  {
  }

  /** With a real root pair, the hit is missed exactly when neither root is
      strictly inside the interval. */
  lemma MissIffNoRootInInterval(s: Sphere, ray: Ray, tMin: real, tMax: real, sqrt: real -> real)
    requires s.Valid() && ray.direction != Zero
    requires 0.0 <= Discriminant(s, ray)
    ensures SphereHit(s, ray, tMin, tMax, sqrt) == None
            <==> !(tMin < NearRoot(s, ray, sqrt) < tMax) && !(tMin < FarRoot(s, ray, sqrt) < tMax)
  {
  }

  /** When both roots are acceptable the nearer one is taken. */
  lemma NearerRootPreferred(s: Sphere, ray: Ray, tMin: real, tMax: real, sqrt: real -> real)
    requires s.Valid() && ray.direction != Zero && IsSqrt(sqrt)
    requires 0.0 <= Discriminant(s, ray)
    requires tMin < NearRoot(s, ray, sqrt) < tMax && tMin < FarRoot(s, ray, sqrt) < tMax
    ensures HitTime(s, ray, tMin, tMax, sqrt) == Some(NearRoot(s, ray, sqrt))
    ensures NearRoot(s, ray, sqrt) <= FarRoot(s, ray, sqrt)
  {
    NearNotAfterFar(s, ray, sqrt);
  }

  /** An accepted parameter lies strictly inside the interval. */
  lemma HitTimeInInterval(s: Sphere, ray: Ray, tMin: real, tMax: real, sqrt: real -> real)
    requires s.Valid() && ray.direction != Zero
    requires SphereHit(s, ray, tMin, tMax, sqrt).Some?
    ensures tMin < SphereHit(s, ray, tMin, tMax, sqrt).value.t < tMax
  {
  }

  /** `Sphere::hit` finds the nearest intersection inside the interval: it
      reports one exactly when one exists, and no intersection inside the
      interval comes before the one it reports. */
  lemma {:induction false} HitIsNearest(s: Sphere, ray: Ray, tMin: real, tMax: real, sqrt: real -> real)
    requires s.Valid() && ray.direction != Zero && IsSqrt(sqrt)
    ensures HitTime(s, ray, tMin, tMax, sqrt).Some? <==> exists t :: IsHitTime(s, ray, tMin, tMax, t)
    ensures HitTime(s, ray, tMin, tMax, sqrt).Some? ==>
              var t0 := HitTime(s, ray, tMin, tMax, sqrt).value;
              IsHitTime(s, ray, tMin, tMax, t0) && forall t :: IsHitTime(s, ray, tMin, tMax, t) ==> t0 <= t
  {
    forall t | IsHitTime(s, ray, tMin, tMax, t)
      ensures HitTime(s, ray, tMin, tMax, sqrt).Some?
      ensures HitTime(s, ray, tMin, tMax, sqrt).value <= t
    {
      RootsOfSphere(s, ray, t, sqrt);
      NearNotAfterFar(s, ray, sqrt);
    }
    var r := HitTime(s, ray, tMin, tMax, sqrt);
    if r.Some? {
      RootsOfSphere(s, ray, r.value, sqrt);
      assert IsHitTime(s, ray, tMin, tMax, r.value);
    }
  }

  /** The reported point is the ray point at the reported parameter, and it
      lies on the sphere. */
  lemma HitPointOnSphere(s: Sphere, ray: Ray, tMin: real, tMax: real, sqrt: real -> real)
    requires s.Valid() && ray.direction != Zero && IsSqrt(sqrt)
    requires SphereHit(s, ray, tMin, tMax, sqrt).Some?
    ensures var h := SphereHit(s, ray, tMin, tMax, sqrt).value;
            h.point == ray.At(h.t) && OnSphere(s, h.point)
  {
    var t := HitTime(s, ray, tMin, tMax, sqrt).value;
    RootsOfSphere(s, ray, t, sqrt);
  }

  /** The outward normal at a point on the sphere has unit length. */
  lemma OutwardNormalIsUnit(s: Sphere, p: Vec3)
    requires s.Valid() && OnSphere(s, p)
    ensures Dot(OutwardNormal(s, p), OutwardNormal(s, p)) == 1.0
  {
    var k := 1.0 / s.radius;
    ScaleSquaresDot(Sub(p, s.center), k);
    assert k * k * (s.radius * s.radius) == 1.0;
  }

  /** At a point on the sphere, the stored normal has unit length and is
      the outward normal exactly when the ray strikes the outer side. */
  lemma OrientedNormalAt(s: Sphere, ray: Ray, p: Vec3, sqrt: real -> real)
    requires s.Valid() && OnSphere(s, p) && IsSqrt(sqrt)
    ensures var n := OrientedNormal(ray, OutwardNormal(s, p));
            && Dot(n, n) == 1.0
            && Length(n, sqrt) == 1.0
            && (n == OutwardNormal(s, p) <==> FacesFront(ray, OutwardNormal(s, p)))
  {
    var outward := OutwardNormal(s, p);
    OutwardNormalIsUnit(s, p);
    DotSelf(outward);
    OrientedNormalFacts(ray, outward, sqrt);
    SqrtOfOne(sqrt);
  }

  /** The reported normal has unit length, never points along the ray, and
      is the outward normal exactly on a front hit. */
  lemma HitNormal(s: Sphere, ray: Ray, tMin: real, tMax: real, sqrt: real -> real)
    requires s.Valid() && ray.direction != Zero && IsSqrt(sqrt)
    requires SphereHit(s, ray, tMin, tMax, sqrt).Some?
    ensures var h := SphereHit(s, ray, tMin, tMax, sqrt).value;
            var outward := OutwardNormal(s, h.point);
            && Dot(h.normal, h.normal) == 1.0
            && Length(h.normal, sqrt) == 1.0
            && Dot(ray.direction, h.normal) <= 0.0
            && (h.facingFront <==> Dot(ray.direction, outward) < 0.0)
            && (h.facingFront <==> h.normal == outward)
  {
    var h := SphereHit(s, ray, tMin, tMax, sqrt).value;
    HitPointOnSphere(s, ray, tMin, tMax, sqrt);
    OrientedNormalAt(s, ray, h.point, sqrt);
  }

  /** Lowering the upper bound to `tMax'` keeps the reported hit when it is
      still below the new bound, and loses it otherwise. */
  lemma HitNarrowing(s: Sphere, ray: Ray, tMin: real, tMax: real, tMax': real, sqrt: real -> real)
    requires s.Valid() && ray.direction != Zero && IsSqrt(sqrt)
    requires tMax' <= tMax
    ensures var wide := SphereHit(s, ray, tMin, tMax, sqrt);
            SphereHit(s, ray, tMin, tMax', sqrt)
            == if wide.Some? && wide.value.t < tMax' then wide else None
  {
    if 0.0 <= Discriminant(s, ray) {
      NearNotAfterFar(s, ray, sqrt);
    }
  }

  /** A ray fired down the z axis from `(0, 0, 5)` at a sphere of radius
      `r < 5` about the origin meets its front surface at `(0, 0, r)`, with
      normal `(0, 0, 1)`. The only root taken is that of `r * r`, so any
      `sqrt` that returns `r` there will do (`ExampleRoot`: every exact
      square root does). */
  lemma FrontSurfaceExample(r: real, tMax: real, sqrt: real -> real)
    requires 0.0 < r < 5.0 && 5.0 - r < tMax && sqrt(r * r) == r
    ensures var s := Sphere(Zero, r);
            var ray := Ray(Vec3(0.0, 0.0, 5.0), Vec3(0.0, 0.0, -1.0));
            SphereHit(s, ray, 0.0, tMax, sqrt)
            == Some(HitData(Vec3(0.0, 0.0, r), Vec3(0.0, 0.0, 1.0), 5.0 - r, true))
  {
    var s := Sphere(Zero, r);
    var ray := Ray(Vec3(0.0, 0.0, 5.0), Vec3(0.0, 0.0, -1.0));
    var t := 5.0 - r;
    var data := HitData(Vec3(0.0, 0.0, r), Vec3(0.0, 0.0, 1.0), t, true);
    assert HitTime(s, ray, 0.0, tMax, sqrt) == Some(t) by {
      FrontSurfaceTime(r, tMax, sqrt);
    }
    assert HitAt(s, ray, t) == data by {
      FrontSurfaceRecord(r);
    }
    SphereHitAtTime(s, ray, 0.0, tMax, sqrt, t);
  }

  /** `SphereHit` reports the record for the parameter `HitTime` accepts. */
  lemma SphereHitAtTime(s: Sphere, ray: Ray, tMin: real, tMax: real, sqrt: real -> real, t: real)
    requires s.Valid() && ray.direction != Zero
    requires HitTime(s, ray, tMin, tMax, sqrt) == Some(t)
    ensures SphereHit(s, ray, tMin, tMax, sqrt) == Some(HitAt(s, ray, t))
  {
  }

  /** In that example the nearer root, `5 - r`, is the accepted parameter. */
  lemma FrontSurfaceTime(r: real, tMax: real, sqrt: real -> real)
    requires 0.0 < r < 5.0 && 5.0 - r < tMax && sqrt(r * r) == r
    ensures HitTime(Sphere(Zero, r), Ray(Vec3(0.0, 0.0, 5.0), Vec3(0.0, 0.0, -1.0)), 0.0, tMax, sqrt)
            == Some(5.0 - r)
  {
    var s := Sphere(Zero, r);
    var ray := Ray(Vec3(0.0, 0.0, 5.0), Vec3(0.0, 0.0, -1.0));
    assert QuadA(ray) == 1.0;
    assert QuadH(s, ray) == 5.0;
    assert Discriminant(s, ray) == r * r;
  }

  /** An exact square root returns `r` for `r * r` when `r > 0`. */
  lemma ExampleRoot(r: real, sqrt: real -> real)
    requires 0.0 < r && IsSqrt(sqrt)
    ensures sqrt(r * r) == r
  {
    RootUnique(sqrt(r * r), r);
  }

  /** ... and the record written for it. */
  lemma FrontSurfaceRecord(r: real)
    requires 0.0 < r
    ensures HitAt(Sphere(Zero, r), Ray(Vec3(0.0, 0.0, 5.0), Vec3(0.0, 0.0, -1.0)), 5.0 - r)
            == HitData(Vec3(0.0, 0.0, r), Vec3(0.0, 0.0, 1.0), 5.0 - r, true)
  {
    var ray := Ray(Vec3(0.0, 0.0, 5.0), Vec3(0.0, 0.0, -1.0));
    assert ray.At(5.0 - r) == Vec3(0.0, 0.0, r);
    assert Div(Vec3(0.0, 0.0, r), r) == Vec3(0.0, 0.0, 1.0);
  }
}
