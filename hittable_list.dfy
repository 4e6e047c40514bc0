/** A scene: a list of hittable objects, possibly holding further lists,
    and the closest-hit reduction over it.

    `Box<dyn Hittable>` is modelled as the closed datatype `Hittable`,
    with one variant per implementor of the trait: a sphere, or a list
    (a `HittableList` is itself hittable). The method `HitObject` is the
    dynamic dispatch; `HitOf` is the value it reports. */
module HittableLists {
  import opened Wrappers
  import opened Vectors
  import opened Rays
  import opened Hittables
  import opened Spheres

  datatype Hittable = SphereObject(sphere: Sphere) | ListObject(objects: seq<Hittable>)

  /** Every sphere in the object was built by `Sphere::new`, so has a
      positive radius. */
  predicate ValidObject(o: Hittable)
    decreases o
  {
    match o
    case SphereObject(s) => s.Valid()
    case ListObject(objects) => AllValid(objects)
  }

  predicate AllValid(objects: seq<Hittable>)
    decreases objects
  {
    forall i | 0 <= i < |objects| :: ValidObject(objects[i])
  }

  /** The record an object reports for a ray and the open interval
      `(tMin, tMax)`, or `None` when it reports no hit. */
  function HitOf(o: Hittable, ray: Ray, tMin: real, tMax: real, sqrt: real -> real): Option<HitData>
    requires ValidObject(o) && ray.direction != Zero
    decreases o
  {
    match o
    case SphereObject(s) => SphereHit(s, ray, tMin, tMax, sqrt)
    case ListObject(objects) => ClosestHit(objects, ray, tMin, tMax, sqrt)
  }

  /** The record held after the loop of `HittableList::hit` has visited
      `objects` in order: each object is asked with the upper bound
      lowered to the parameter of the record held so far, and a hit
      replaces that record. */
  function ClosestHit(objects: seq<Hittable>, ray: Ray, tMin: real, tMax: real, sqrt: real -> real)
    : Option<HitData>
    requires AllValid(objects) && ray.direction != Zero
    decreases objects
  {
    if |objects| == 0 then None
    else
      var held := ClosestHit(objects[..|objects| - 1], ray, tMin, tMax, sqrt);
      var bound := if held.Some? then held.value.t else tMax;
      match HitOf(objects[|objects| - 1], ray, tMin, bound, sqrt)
      case Some(h) => Some(h)
      case None => held
  }

  // ---------------------------------------------------------------------
  // The hit methods
  // ---------------------------------------------------------------------

  /** `object.hit(...)` through `Box<dyn Hittable>`: the contract of the
      `Hittable` trait. On success `rec` holds the reported record; on
      failure it is untouched. */
  method HitObject(o: Hittable, ray: Ray, tMin: real, tMax: real, rec: HitRecord, sqrt: real -> real)
    returns (hit: bool)
    requires ValidObject(o) && ray.direction != Zero
    modifies rec
    ensures hit == HitOf(o, ray, tMin, tMax, sqrt).Some?
    ensures hit ==> rec.Value() == HitOf(o, ray, tMin, tMax, sqrt).value
    ensures !hit ==> rec.Value() == old(rec.Value())
    decreases o, 1
  {
    match o
    case SphereObject(s) =>
      hit := Spheres.Hit(s, ray, tMin, tMax, rec, sqrt);
    case ListObject(objects) =>
      hit := HitAll(objects, ray, tMin, tMax, rec, sqrt);
  }

  /** The loop of `HittableList::hit`: a scratch record is passed to each
      object with the bound `closestTime`, which every success lowers to
      the parameter it found; each success is copied out to `rec`. */
  method HitAll(objects: seq<Hittable>, ray: Ray, tMin: real, tMax: real, rec: HitRecord,
                sqrt: real -> real)
    returns (hitSomething: bool)
    requires AllValid(objects) && ray.direction != Zero
    modifies rec
    ensures hitSomething == ClosestHit(objects, ray, tMin, tMax, sqrt).Some?
    ensures hitSomething ==> rec.Value() == ClosestHit(objects, ray, tMin, tMax, sqrt).value
    ensures !hitSomething ==> rec.Value() == old(rec.Value())
    decreases objects, 0
  {
    hitSomething := false;
    var tempRecord := new HitRecord();
    var closestTime := tMax;
    for i := 0 to |objects|
      invariant AllValid(objects[..i])
      invariant hitSomething == ClosestHit(objects[..i], ray, tMin, tMax, sqrt).Some?
      invariant closestTime == if hitSomething then ClosestHit(objects[..i], ray, tMin, tMax, sqrt).value.t
                               else tMax
      invariant hitSomething ==> rec.Value() == ClosestHit(objects[..i], ray, tMin, tMax, sqrt).value
      invariant hitSomething ==> tempRecord.Value() == rec.Value()
      invariant !hitSomething ==> rec.Value() == old(rec.Value())
      invariant closestTime <= tMax
    {
      ClosestStep(objects, i, ray, tMin, tMax, sqrt);
      var h := HitObject(objects[i], ray, tMin, closestTime, tempRecord, sqrt);
      if h {
        hitSomething := true;
        closestTime := tempRecord.t;
        rec.CopyFrom(tempRecord);
      }
    }
    assert objects[..|objects|] == objects;
  }

  /** One turn of the loop: the record held after `objects[i]` is that
      object's hit below the held bound if it has one, else the record held
      before. A new record lies strictly below the bound, so the held
      parameter never grows. */
  lemma ClosestStep(objects: seq<Hittable>, i: int, ray: Ray, tMin: real, tMax: real, sqrt: real -> real)
    requires AllValid(objects) && ray.direction != Zero && 0 <= i < |objects|
    ensures AllValid(objects[..i]) && AllValid(objects[..i + 1])
    ensures var held := ClosestHit(objects[..i], ray, tMin, tMax, sqrt);
            var bound := if held.Some? then held.value.t else tMax;
            var h := HitOf(objects[i], ray, tMin, bound, sqrt);
            var after := ClosestHit(objects[..i + 1], ray, tMin, tMax, sqrt);
            && after == (if h.Some? then h else held)
            && (h.Some? ==> tMin < h.value.t < bound)
            && (held.Some? ==> after.Some? && after.value.t <= held.value.t)
  {
    assert objects[..i + 1][..i] == objects[..i];
    var held := ClosestHit(objects[..i], ray, tMin, tMax, sqrt);
    var bound := if held.Some? then held.value.t else tMax;
    if HitOf(objects[i], ray, tMin, bound, sqrt).Some? {
      ObjectHitInInterval(objects[i], ray, tMin, bound, sqrt);
    }
  }

  /** A growable list of objects (`HittableList`). Its invariant is that
      every sphere it holds, however deeply nested, was built by
      `Sphere::new`: the source keeps sphere fields private, so no other
      sphere can reach `add`. */
  class HittableList {
    var objects: seq<Hittable>

    predicate Valid()
      reads this
    {
      AllValid(objects)
    }

    /** `HittableList::new`: no objects. */
    constructor ()
      ensures Valid()
      ensures objects == []
    {
      objects := [];
    }

    /** `add`: appends `o`, keeping the objects already there. */
    method Add(o: Hittable)
      requires Valid() && ValidObject(o)
      modifies this
      ensures Valid()
      ensures objects == old(objects) + [o]
    {
      objects := objects + [o];
      assert forall i | 0 <= i < |objects| - 1 :: objects[i] == old(objects)[i];
    }

    /** `clear`: removes every object. */
    method Clear()
      modifies this
      ensures Valid()
      ensures objects == []
    {
      objects := [];
    }

    /** `impl Hittable for HittableList`. */
    method Hit(ray: Ray, tMin: real, tMax: real, rec: HitRecord, sqrt: real -> real)
      returns (hit: bool)
      requires Valid() && ray.direction != Zero
      modifies rec
      ensures hit == ClosestHit(objects, ray, tMin, tMax, sqrt).Some?
      ensures hit ==> rec.Value() == ClosestHit(objects, ray, tMin, tMax, sqrt).value
      ensures !hit ==> rec.Value() == old(rec.Value())
    {
      hit := HitAll(objects, ray, tMin, tMax, rec, sqrt);
    }
  }

  // ---------------------------------------------------------------------
  // Properties of the reduction
  // ---------------------------------------------------------------------

  /** Every reported parameter lies strictly inside `(tMin, tMax)`. */
  lemma {:induction false} ObjectHitInInterval(o: Hittable, ray: Ray, tMin: real, tMax: real,
                                               sqrt: real -> real)
    requires ValidObject(o) && ray.direction != Zero
    requires HitOf(o, ray, tMin, tMax, sqrt).Some?
    ensures tMin < HitOf(o, ray, tMin, tMax, sqrt).value.t < tMax
    decreases o
  {
    match o
    case SphereObject(s) =>
      HitTimeInInterval(s, ray, tMin, tMax, sqrt);
    case ListObject(objects) =>
      ClosestHitInInterval(objects, ray, tMin, tMax, sqrt);
  }

  lemma {:induction false} ClosestHitInInterval(objects: seq<Hittable>, ray: Ray, tMin: real, tMax: real,
                                                sqrt: real -> real)
    requires AllValid(objects) && ray.direction != Zero
    requires ClosestHit(objects, ray, tMin, tMax, sqrt).Some?
    ensures tMin < ClosestHit(objects, ray, tMin, tMax, sqrt).value.t < tMax
    decreases objects
  {
    var n := |objects|;
    var init := objects[..n - 1];
    var held := ClosestHit(init, ray, tMin, tMax, sqrt);
    if held.Some? {
      ClosestHitInInterval(init, ray, tMin, tMax, sqrt);
    }
    var bound := if held.Some? then held.value.t else tMax;
    var last := HitOf(objects[n - 1], ray, tMin, bound, sqrt);
    if last.Some? {
      ObjectHitInInterval(objects[n - 1], ray, tMin, bound, sqrt);
    }
  }

  /** An empty list reports no hit, so `HittableList::hit` on it leaves the
      record alone. */
  lemma EmptyListMisses(ray: Ray, tMin: real, tMax: real, sqrt: real -> real)
    requires ray.direction != Zero
    ensures HitOf(ListObject([]), ray, tMin, tMax, sqrt) == None
  {
  }

  /** Asking with a lower bound `tMax'` reports the same record when its
      parameter is still below `tMax'`, and nothing otherwise. */
  lemma {:induction false} ObjectNarrowing(o: Hittable, ray: Ray, tMin: real, tMax: real, tMax': real,
                                           sqrt: real -> real)
    requires ValidObject(o) && ray.direction != Zero && IsSqrt(sqrt)
    requires tMax' <= tMax
    ensures var wide := HitOf(o, ray, tMin, tMax, sqrt);
            HitOf(o, ray, tMin, tMax', sqrt) == if wide.Some? && wide.value.t < tMax' then wide else None
    decreases o
  {
    match o
    case SphereObject(s) =>
      HitNarrowing(s, ray, tMin, tMax, tMax', sqrt);
    case ListObject(objects) =>
      ClosestNarrowing(objects, ray, tMin, tMax, tMax', sqrt);
  }

  lemma {:induction false} ClosestNarrowing(objects: seq<Hittable>, ray: Ray, tMin: real, tMax: real,
                                            tMax': real, sqrt: real -> real)
    requires AllValid(objects) && ray.direction != Zero && IsSqrt(sqrt)
    requires tMax' <= tMax
    ensures var wide := ClosestHit(objects, ray, tMin, tMax, sqrt);
            ClosestHit(objects, ray, tMin, tMax', sqrt) == if wide.Some? && wide.value.t < tMax' then wide else None
    decreases objects
  {
    if |objects| > 0 {
      var n := |objects|;
      var init := objects[..n - 1];
      var x := objects[n - 1];
      ClosestNarrowing(init, ray, tMin, tMax, tMax', sqrt);
      var held := ClosestHit(init, ray, tMin, tMax, sqrt);
      var held' := ClosestHit(init, ray, tMin, tMax', sqrt);
      var bound := if held.Some? then held.value.t else tMax;
      var bound' := if held'.Some? then held'.value.t else tMax';
      if held.Some? {
        ClosestHitInInterval(init, ray, tMin, tMax, sqrt);
      }
      if held'.Some? {
        assert bound' == bound;
        if HitOf(x, ray, tMin, bound, sqrt).Some? {
          ObjectHitInInterval(x, ray, tMin, bound, sqrt);
        }
      } else {
        assert bound' <= bound;
        ObjectNarrowing(x, ray, tMin, bound, bound', sqrt);
      }
    }
  }

  // ---------------------------------------------------------------------
  // The nearest hit
  // ---------------------------------------------------------------------

  /** The loop's result is the record of one of the objects, asked with the
      whole interval; it reports one exactly when some object does, and its
      parameter is the least that any object reports. */
  lemma {:induction false} ClosestIsMinimum(objects: seq<Hittable>, ray: Ray, tMin: real, tMax: real,
                                            sqrt: real -> real)
    requires AllValid(objects) && ray.direction != Zero && IsSqrt(sqrt)
    ensures var r := ClosestHit(objects, ray, tMin, tMax, sqrt);
            && (r.Some? <==> exists i | 0 <= i < |objects| :: HitOf(objects[i], ray, tMin, tMax, sqrt).Some?)
            && (r.Some? ==> exists j | 0 <= j < |objects| :: HitOf(objects[j], ray, tMin, tMax, sqrt) == r)
            && (r.Some? ==> forall i | 0 <= i < |objects| && HitOf(objects[i], ray, tMin, tMax, sqrt).Some? ::
                              r.value.t <= HitOf(objects[i], ray, tMin, tMax, sqrt).value.t)
    decreases objects
  {
    if |objects| > 0 {
      var n := |objects|;
      var init := objects[..n - 1];
      var x := objects[n - 1];
      assert forall i | 0 <= i < n - 1 :: init[i] == objects[i];
      ClosestIsMinimum(init, ray, tMin, tMax, sqrt);
      var held := ClosestHit(init, ray, tMin, tMax, sqrt);
      var bound := if held.Some? then held.value.t else tMax;
      if held.Some? {
        ClosestHitInInterval(init, ray, tMin, tMax, sqrt);
      }
      ObjectNarrowing(x, ray, tMin, tMax, bound, sqrt);
      var r := ClosestHit(objects, ray, tMin, tMax, sqrt);
      if HitOf(x, ray, tMin, bound, sqrt).Some? {
        assert HitOf(objects[n - 1], ray, tMin, tMax, sqrt) == r;
      } else if held.Some? {
        var j :| 0 <= j < n - 1 && HitOf(init[j], ray, tMin, tMax, sqrt) == held;
        assert HitOf(objects[j], ray, tMin, tMax, sqrt) == r;
      }
    }
  }

  /** `t` is a parameter strictly inside `(tMin, tMax)` at which the ray
      meets the surface of some sphere of `o`. */
  ghost predicate Meets(o: Hittable, ray: Ray, tMin: real, tMax: real, t: real)
    decreases o
  {
    match o
    case SphereObject(s) => IsHitTime(s, ray, tMin, tMax, t)
    case ListObject(objects) => exists i | 0 <= i < |objects| :: Meets(objects[i], ray, tMin, tMax, t)
  }

  /** Any object, however its lists are nested, reports a hit exactly when
      the ray meets one of its spheres inside the interval, and then the
      nearest such meeting. */
  lemma {:induction false} NearestInScene(o: Hittable, ray: Ray, tMin: real, tMax: real, sqrt: real -> real)
    requires ValidObject(o) && ray.direction != Zero && IsSqrt(sqrt)
    ensures HitOf(o, ray, tMin, tMax, sqrt).Some? <==> exists t :: Meets(o, ray, tMin, tMax, t)
    ensures HitOf(o, ray, tMin, tMax, sqrt).Some? ==>
              var t0 := HitOf(o, ray, tMin, tMax, sqrt).value.t;
              Meets(o, ray, tMin, tMax, t0) && forall t :: Meets(o, ray, tMin, tMax, t) ==> t0 <= t
    decreases o
  {
    match o
    case SphereObject(s) =>
      HitIsNearest(s, ray, tMin, tMax, sqrt);
      if exists t :: Meets(o, ray, tMin, tMax, t) {
        var t :| Meets(o, ray, tMin, tMax, t);
        assert IsHitTime(s, ray, tMin, tMax, t);
      }
      var r := HitOf(o, ray, tMin, tMax, sqrt);
      if r.Some? {
        assert r.value.t == HitTime(s, ray, tMin, tMax, sqrt).value;
        assert Meets(o, ray, tMin, tMax, r.value.t);
      }
    case ListObject(objects) =>
      ClosestIsMinimum(objects, ray, tMin, tMax, sqrt);
      forall i | 0 <= i < |objects| {
        NearestInScene(objects[i], ray, tMin, tMax, sqrt);
      }
      var r := HitOf(o, ray, tMin, tMax, sqrt);
      if r.Some? {
        var j :| 0 <= j < |objects| && HitOf(objects[j], ray, tMin, tMax, sqrt) == r;
        assert Meets(objects[j], ray, tMin, tMax, r.value.t);
        assert Meets(o, ray, tMin, tMax, r.value.t);
      }
      forall t | Meets(o, ray, tMin, tMax, t)
        ensures r.Some? && r.value.t <= t
      {
        var i :| 0 <= i < |objects| && Meets(objects[i], ray, tMin, tMax, t);
      }
  }

  /** `s` is one of the spheres of `o`, at any depth of nesting. */
  ghost predicate HasSphere(o: Hittable, s: Sphere)
    decreases o
  {
    match o
    case SphereObject(s') => s' == s
    case ListObject(objects) => exists i | 0 <= i < |objects| :: HasSphere(objects[i], s)
  }

  /** The record any object reports is the record one of its spheres
      reports for the same ray and interval. */
  lemma {:induction false} HitFromSomeSphere(o: Hittable, ray: Ray, tMin: real, tMax: real, sqrt: real -> real)
    requires ValidObject(o) && ray.direction != Zero && IsSqrt(sqrt)
    requires HitOf(o, ray, tMin, tMax, sqrt).Some?
    ensures exists s :: HasSphere(o, s) && s.Valid() && SphereHit(s, ray, tMin, tMax, sqrt) == HitOf(o, ray, tMin, tMax, sqrt)
    decreases o
  {
    match o
    case SphereObject(s) =>
      assert HasSphere(o, s);
    case ListObject(objects) =>
      var r := HitOf(o, ray, tMin, tMax, sqrt);
      ClosestIsMinimum(objects, ray, tMin, tMax, sqrt);
      var j :| 0 <= j < |objects| && HitOf(objects[j], ray, tMin, tMax, sqrt) == r;
      HitFromSomeSphere(objects[j], ray, tMin, tMax, sqrt);
      var s :| HasSphere(objects[j], s) && s.Valid() && SphereHit(s, ray, tMin, tMax, sqrt) == r;
      assert HasSphere(o, s);
  }

  /** Whatever the scene, a reported record has its point on the ray at
      its parameter and on the surface of one of the spheres, and a unit
      normal that never points along the ray. */
  lemma SceneHitGeometry(o: Hittable, ray: Ray, tMin: real, tMax: real, sqrt: real -> real)
    requires ValidObject(o) && ray.direction != Zero && IsSqrt(sqrt)
    requires HitOf(o, ray, tMin, tMax, sqrt).Some?
    ensures var h := HitOf(o, ray, tMin, tMax, sqrt).value;
            && tMin < h.t < tMax
            && h.point == ray.At(h.t)
            && (exists s :: HasSphere(o, s) && OnSphere(s, h.point))
            && Dot(h.normal, h.normal) == 1.0
            && Dot(ray.direction, h.normal) <= 0.0
  {
    ObjectHitInInterval(o, ray, tMin, tMax, sqrt);
    HitFromSomeSphere(o, ray, tMin, tMax, sqrt);
    var s :| HasSphere(o, s) && s.Valid() && SphereHit(s, ray, tMin, tMax, sqrt) == HitOf(o, ray, tMin, tMax, sqrt);
    HitPointOnSphere(s, ray, tMin, tMax, sqrt);
    HitNormal(s, ray, tMin, tMax, sqrt);
  }

  /** A list holding every object of `objects` (and perhaps more) reports
      a hit whenever `objects` does, and no later one. */
  lemma SupersetHitsNoLater(objects: seq<Hittable>, others: seq<Hittable>, ray: Ray, tMin: real,
                            tMax: real, sqrt: real -> real)
    requires AllValid(objects) && AllValid(others) && ray.direction != Zero && IsSqrt(sqrt)
    requires forall o | o in objects :: o in others
    ensures var r := ClosestHit(objects, ray, tMin, tMax, sqrt);
            var r' := ClosestHit(others, ray, tMin, tMax, sqrt);
            r.Some? ==> r'.Some? && r'.value.t <= r.value.t
  {
    var r := ClosestHit(objects, ray, tMin, tMax, sqrt);
    ClosestIsMinimum(objects, ray, tMin, tMax, sqrt);
    if r.Some? {
      var j :| 0 <= j < |objects| && HitOf(objects[j], ray, tMin, tMax, sqrt) == r;
      assert objects[j] in others;
      var k :| 0 <= k < |others| && others[k] == objects[j];
      ClosestIsMinimum(others, ray, tMin, tMax, sqrt);
    }
  }

  /** The parameter of the nearest hit does not depend on the order in
      which the objects were added. */
  lemma ClosestOrderIndependent(objects: seq<Hittable>, others: seq<Hittable>, ray: Ray, tMin: real,
                                tMax: real, sqrt: real -> real)
    requires AllValid(objects) && AllValid(others) && ray.direction != Zero && IsSqrt(sqrt)
    requires multiset(objects) == multiset(others)
    ensures ClosestHit(objects, ray, tMin, tMax, sqrt).Some? == ClosestHit(others, ray, tMin, tMax, sqrt).Some?
    ensures ClosestHit(objects, ray, tMin, tMax, sqrt).Some? ==>
              ClosestHit(objects, ray, tMin, tMax, sqrt).value.t == ClosestHit(others, ray, tMin, tMax, sqrt).value.t
  {
    assert forall o | o in objects :: o in others by {
      forall o | o in objects
        ensures o in others
      {
        assert o in multiset(others);
      }
    }
    assert forall o | o in others :: o in objects by {
      forall o | o in others
        ensures o in objects
      {
        assert o in multiset(objects);
      }
    }
    SupersetHitsNoLater(objects, others, ray, tMin, tMax, sqrt);
    SupersetHitsNoLater(others, objects, ray, tMin, tMax, sqrt);
  }
}
