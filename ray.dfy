/** The ray: a half-line from `origin` along `direction`. Only the point
    evaluation that sphere intersection uses is modelled. */
module Rays {
  import opened Vectors

  datatype Ray = Ray(origin: Vec3, direction: Vec3) {

    /** The point `origin + direction * t`; it lies `t` direction-lengths
        away from the origin. */
    function At(t: real): (p: Vec3)
      ensures Sub(p, origin) == Scale(direction, t)
    {
      Add(origin, Scale(direction, t))
    }
  }
}
