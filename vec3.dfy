/** Three-component vectors over the reals: the value type `Vec3`, its
    operators, and a mutable binding whose storage the compound operators
    (`+=`, `-=`, `*=`, `/=`) update in place.

    The source computes in IEEE `f64`; here every component is an exact
    `real`, so the algebraic laws hold exactly. The square root used by
    `Length` is passed in as a function that is only known to return the
    non-negative root. */
module Vectors {
  import opened RealArith

  /** A vector `(x, y, z)`. The constructor is `Vec3::new`; the destructors
      `x`, `y`, `z` are the getters. */
  datatype Vec3 = Vec3(x: real, y: real, z: real)

  const Zero: Vec3 := Vec3(0.0, 0.0, 0.0)

  /** `sqrt` returns, for every non-negative argument, its non-negative root. */
  ghost predicate IsSqrt(sqrt: real -> real) {
    forall v :: 0.0 <= v ==> 0.0 <= sqrt(v) && sqrt(v) * sqrt(v) == v
  }

  // ---------------------------------------------------------------------
  // Operators
  // ---------------------------------------------------------------------

  /** Component-wise sum (`impl Add`). */
  function Add(a: Vec3, b: Vec3): Vec3 {
    Vec3(a.x + b.x, a.y + b.y, a.z + b.z)
  }

  /** Component-wise difference (`impl Sub`): it undoes `Add`. */
  function Sub(a: Vec3, b: Vec3): (r: Vec3)
    ensures Add(r, b) == a
  {
    Vec3(a.x - b.x, a.y - b.y, a.z - b.z)
  }

  /** Component-wise negation (`impl Neg`): the additive inverse. */
  function Neg(v: Vec3): (r: Vec3)
    ensures Add(v, r) == Zero
    ensures Sub(Zero, v) == r
  {
    Vec3(-v.x, -v.y, -v.z)
  }

  /** Multiplication by a scalar (`impl Mul<f64>`). */
  function Scale(v: Vec3, t: real): Vec3 {
    Vec3(v.x * t, v.y * t, v.z * t)
  }

  /** The dot product (`impl Mul` for two vectors). */
  function Dot(a: Vec3, b: Vec3): real {
    a.x * b.x + a.y * b.y + a.z * b.z
  }

  /** Division by a scalar (`impl Div<f64>`): multiplication by `1/t`. */
  function Div(v: Vec3, t: real): Vec3
    requires t != 0.0
  {
    Scale(v, 1.0 / t)
  }

  /** The cross product: orthogonal to both inputs. */
  function Cross(a: Vec3, b: Vec3): (r: Vec3)
    ensures Dot(a, r) == 0.0 && Dot(b, r) == 0.0
  {
    Vec3(a.y * b.z - a.z * b.y,
         a.z * b.x - a.x * b.z,
         a.x * b.y - a.y * b.x)
  }

  /** The Euclidean norm: the non-negative root of `v · v`, positive for
      every non-zero vector. */
  function Length(v: Vec3, sqrt: real -> real): (r: real)
    requires IsSqrt(sqrt)
    ensures 0.0 <= r && r * r == Dot(v, v)
    ensures v != Zero ==> 0.0 < r
  {
    var d := Dot(v, v);
    DotSelf(v);
    SqrtFacts(sqrt, d);
    PositiveRoot(sqrt(d), d);
    sqrt(d)
  }

  /** The unit vector in the direction of `v`; the zero vector has none
      (the source divides by zero there). */
  function Unit(v: Vec3, sqrt: real -> real): (r: Vec3)
    requires IsSqrt(sqrt)
    requires v != Zero
    ensures Dot(r, r) == 1.0
    ensures Length(r, sqrt) == 1.0
    ensures Scale(r, Length(v, sqrt)) == v
  {
    var len := Length(v, sqrt);
    var r := Div(v, len);
    UnitDotOne(v, len);
    SqrtOfOne(sqrt);
    DivUndoesScale(v, len);
    r
  }

  // ---------------------------------------------------------------------
  // Helpers about lengths and roots
  // ---------------------------------------------------------------------

  lemma SqrtFacts(sqrt: real -> real, d: real)
    requires IsSqrt(sqrt) && 0.0 <= d
    ensures 0.0 <= sqrt(d) && sqrt(d) * sqrt(d) == d
  {
  }

  /** The root of a positive number is positive. */
  lemma PositiveRoot(r: real, d: real)
    requires 0.0 <= r && r * r == d
    ensures 0.0 < d ==> 0.0 < r
  {
    Square(r, d);
  }

  lemma UnitDotOne(v: Vec3, len: real)
    requires 0.0 < len && len * len == Dot(v, v)
    ensures Dot(Div(v, len), Div(v, len)) == 1.0
  {
    var k := 1.0 / len;
    ScaleSquaresDot(v, k);
    assert Div(v, len) == Scale(v, k);
    assert k * k * (len * len) == 1.0;
  }

  lemma SqrtOfOne(sqrt: real -> real)
    requires IsSqrt(sqrt)
    ensures sqrt(1.0) == 1.0
  {
    RootUnique(sqrt(1.0), 1.0);
  }

  // ---------------------------------------------------------------------
  // Algebraic laws
  // ---------------------------------------------------------------------

  lemma AddCommutative(a: Vec3, b: Vec3)
    ensures Add(a, b) == Add(b, a)
  {
  }

  lemma AddAssociative(a: Vec3, b: Vec3, c: Vec3)
    ensures Add(Add(a, b), c) == Add(a, Add(b, c))
  {
  }

  lemma SubUndoesAdd(a: Vec3, b: Vec3)
    ensures Sub(Add(a, b), b) == a
  {
  }

  lemma NegInvolution(v: Vec3)
    ensures Neg(Neg(v)) == v
  {
  }

  lemma DotSymmetric(a: Vec3, b: Vec3)
    ensures Dot(a, b) == Dot(b, a)
  {
  }

  /** `v · v` is non-negative, and zero only for the zero vector. */
  lemma DotSelf(v: Vec3)
    ensures 0.0 <= Dot(v, v)
    ensures v != Zero <==> 0.0 < Dot(v, v)
  {
    Square(v.x, v.x * v.x);
    Square(v.y, v.y * v.y);
    Square(v.z, v.z * v.z);
  }

  lemma SubZeroIffEqual(a: Vec3, b: Vec3)
    ensures Sub(a, b) == Zero <==> a == b
  {
  }

  lemma CrossAntiCommutative(a: Vec3, b: Vec3)
    ensures Cross(a, b) == Neg(Cross(b, a))
  {
  }

  lemma ScaleDistributes(a: Vec3, b: Vec3, s: real, t: real)
    ensures Scale(Add(a, b), t) == Add(Scale(a, t), Scale(b, t))
    ensures Scale(a, s * t) == Scale(Scale(a, s), t)
  {
    assert (a.x + b.x) * t == a.x * t + b.x * t;
    assert (a.y + b.y) * t == a.y * t + b.y * t;
    assert (a.z + b.z) * t == a.z * t + b.z * t;
    var once := Scale(a, s * t);
    var twice := Scale(Scale(a, s), t);
    assert once.x == twice.x;
    assert once.y == twice.y;
    assert once.z == twice.z;
  }

  /** Division by `t` divides each component, and undoes scaling by `t`. */
  lemma DivUndoesScale(v: Vec3, t: real)
    requires t != 0.0
    ensures Div(v, t) == Vec3(v.x / t, v.y / t, v.z / t)
    ensures Div(Scale(v, t), t) == v
    ensures Scale(Div(v, t), t) == v
  {
    var w := Scale(v, t);
    assert w.x / t == v.x && w.y / t == v.y && w.z / t == v.z;
    var d := Div(v, t);
    assert d.x * t == v.x && d.y * t == v.y && d.z * t == v.z;
  }

  /** Scaling by `t` scales the squared length by `t * t`. */
  lemma ScaleSquaresDot(v: Vec3, t: real)
    ensures Dot(Scale(v, t), Scale(v, t)) == t * t * Dot(v, v)
  {
  }

  /** The worked examples of the unit tests, exact over the reals. */
  lemma OperatorExamples()
    ensures Add(Vec3(1.0, 2.0, 3.0), Vec3(4.0, 5.0, 6.0)) == Vec3(5.0, 7.0, 9.0)
    ensures Sub(Vec3(5.0, 7.0, 9.0), Vec3(1.0, 2.0, 3.0)) == Vec3(4.0, 5.0, 6.0)
    ensures Scale(Vec3(1.0, -2.0, 3.0), 2.0) == Vec3(2.0, -4.0, 6.0)
    ensures Div(Vec3(2.0, 4.0, 6.0), 2.0) == Vec3(1.0, 2.0, 3.0)
    ensures Dot(Vec3(1.0, 2.0, 3.0), Vec3(4.0, -5.0, 6.0)) == 12.0
    ensures Cross(Vec3(1.0, 2.0, 3.0), Vec3(4.0, 5.0, 6.0)) == Vec3(-3.0, 6.0, -3.0)
    ensures Neg(Vec3(1.0, -2.0, 3.0)) == Vec3(-1.0, 2.0, -3.0)
  {
  }

  lemma LengthExample(sqrt: real -> real)
    requires IsSqrt(sqrt)
    ensures Length(Vec3(3.0, 4.0, 0.0), sqrt) == 5.0
    ensures Length(Unit(Vec3(3.0, 4.0, 0.0), sqrt), sqrt) == 1.0
  {
    RootUnique(Length(Vec3(3.0, 4.0, 0.0), sqrt), 5.0);
  }

  // ---------------------------------------------------------------------
  // In-place compound operators
  // ---------------------------------------------------------------------

  /** A mutable `Vec3` binding: its three components live in `e`, which the
      compound operators update one component at a time. Each leaves the
      binding equal to the result of the corresponding plain operator. */
  class MutableVec3 {
    const e: array<real>

    predicate Valid() {
      e.Length == 3
    }

    /** The value the getters `x()`, `y()` and `z()` read: `e[0]`, `e[1]`
        and `e[2]`. */
    function Value(): Vec3
      reads e
      requires Valid()
    {
      Vec3(e[0], e[1], e[2])
    }

    /** `Vec3::new`: the getters read back exactly the components given. */
    constructor (x: real, y: real, z: real)
      ensures Valid() && fresh(e)
      ensures Value() == Vec3(x, y, z)
    {
      e := new real[3] [x, y, z];
    }

    /** `self += other` */
    method AddAssign(other: Vec3)
      requires Valid()
      modifies e
      ensures Value() == Add(old(Value()), other)
    {
      e[0] := e[0] + other.x;
      e[1] := e[1] + other.y;
      e[2] := e[2] + other.z;
    }

    /** `self -= other` */
    method SubAssign(other: Vec3)
      requires Valid()
      modifies e
      ensures Value() == Sub(old(Value()), other)
    {
      e[0] := e[0] - other.x;
      e[1] := e[1] - other.y;
      e[2] := e[2] - other.z;
    }

    /** `self *= t` */
    method MulAssign(t: real)
      requires Valid()
      modifies e
      ensures Value() == Scale(old(Value()), t)
    {
      e[0] := e[0] * t;
      e[1] := e[1] * t;
      e[2] := e[2] * t;
    }

    /** `self /= t`, which the source performs as `self *= 1/t`. */
    method DivAssign(t: real)
      requires Valid()
      requires t != 0.0
      modifies e
      ensures Value() == Div(old(Value()), t)
    {
      MulAssign(1.0 / t);
    }
  }
}
