/** The hit record that intersection routines fill in, and the rule that
    orients its normal against the incoming ray. */
module Hittables {
  import opened Vectors
  import opened Rays

  /** The contents of a hit record: where the ray met the surface, the
      stored (ray-facing) normal, the ray parameter, and whether the ray
      struck the outer side. */
  datatype HitData = HitData(point: Vec3, normal: Vec3, t: real, facingFront: bool)

  /** The derived default record: zero vectors, `t == 0.0`, not facing front. */
  const DefaultHit: HitData := HitData(Zero, Zero, 0.0, false)

  /** The ray strikes the outer side when it travels against the outward normal. */
  predicate FacesFront(ray: Ray, outwardNormal: Vec3) {
    Dot(ray.direction, outwardNormal) < 0.0
  }

  /** The normal to store: the outward normal when the ray strikes the outer
      side, its negation otherwise. Either way it never points along the
      ray and it keeps the outward normal's length. */
  function OrientedNormal(ray: Ray, outwardNormal: Vec3): (n: Vec3)
    ensures Dot(ray.direction, n) <= 0.0
    ensures n == outwardNormal || n == Neg(outwardNormal)
    ensures Dot(n, n) == Dot(outwardNormal, outwardNormal)
  {
    if FacesFront(ray, outwardNormal) then outwardNormal else Neg(outwardNormal)
  }

  /** The stored normal agrees with the outward normal exactly on front hits
      (for a non-zero outward normal), and has the same length. */
  lemma OrientedNormalFacts(ray: Ray, outwardNormal: Vec3, sqrt: real -> real)
    requires IsSqrt(sqrt)
    requires outwardNormal != Zero
    ensures OrientedNormal(ray, outwardNormal) == outwardNormal <==> FacesFront(ray, outwardNormal)
    ensures Length(OrientedNormal(ray, outwardNormal), sqrt) == Length(outwardNormal, sqrt)
  {
    var n := OrientedNormal(ray, outwardNormal);
    if !FacesFront(ray, outwardNormal) {
      assert n == Neg(outwardNormal);
      assert n != outwardNormal;
    }
  }

  /** A mutable hit record, written in place by the intersection routines. */
  class HitRecord {
    var point: Vec3
    var normal: Vec3
    var t: real
    var facingFront: bool

    function Value(): HitData
      reads this
    {
      HitData(point, normal, t, facingFront)
    }

    /** `HitRecord::new`, the derived default. */
    constructor ()
      ensures Value() == DefaultHit
    {
      point, normal, t, facingFront := Zero, Zero, 0.0, false;
    }

    /** Records on which side the ray struck and stores the oriented normal;
        the point and the parameter are left alone. */
    method SetFaceNormal(ray: Ray, outwardNormal: Vec3)
      modifies this
      ensures facingFront <==> Dot(ray.direction, outwardNormal) < 0.0
      ensures normal == OrientedNormal(ray, outwardNormal)
      ensures facingFront ==> normal == outwardNormal
      ensures !facingFront ==> normal == Neg(outwardNormal)
      ensures Dot(ray.direction, normal) <= 0.0
      ensures point == old(point) && t == old(t)
    {
      facingFront := Dot(ray.direction, outwardNormal) < 0.0;
      normal := if facingFront then outwardNormal else Neg(outwardNormal);
    }

    /** `*self = other.clone()`: every field takes the other record's value. */
    method CopyFrom(other: HitRecord)
      modifies this
      ensures Value() == old(other.Value())
    {
      point, normal, t, facingFront := other.point, other.normal, other.t, other.facingFront;
    }
  }
}
