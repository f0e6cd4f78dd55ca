/**
 * The part of the engine's math library (Mathf, Vector2, Vector3) that the navigation code uses,
 * over exact reals. The transcendental functions are not interpreted: they are carried in a `Trig`
 * value, and every property that needs one of their values names that value as a premise.
 */
module UnityMath {

  /** Mathf.PI, the single-precision value of pi. */
  const PI: real := 3.14159274

  /** Vector2.kEpsilon and Vector3.kEpsilon. */
  const Epsilon: real := 0.00001

  /** Mathf.Sin, Mathf.Cos, Mathf.Atan2 and Mathf.Sqrt, left uninterpreted. */
  datatype Trig = Trig(sin: real -> real, cos: real -> real, atan2: (real, real) -> real, sqrt: real -> real)
  {
    /** cos 0 = 1 and sin 0 = 0 */
    predicate AtZero()
    {
      cos(0.0) == 1.0 && sin(0.0) == 0.0
    }

    /** sin^2 a + cos^2 a = 1 at the angle a */
    predicate PythagoreanAt(a: real)
    {
      sin(a) * sin(a) + cos(a) * cos(a) == 1.0
    }

    /** sqrt v is the non-negative square root of v */
    predicate SqrtAt(v: real)
    {
      sqrt(v) >= 0.0 && sqrt(v) * sqrt(v) == v
    }
  }

  /** Mathf.Sign: +1 for every non-negative argument, zero included, and -1 otherwise. */
  function Sign(f: real): (s: real)
    ensures s == 1.0 || s == -1.0
    ensures s == 1.0 <==> f >= 0.0
  {
    if f >= 0.0 then 1.0 else -1.0
  }

  datatype Vector2 = Vector2(x: real, y: real)
  {
    function Plus(v: Vector2): Vector2 { Vector2(x + v.x, y + v.y) }

    function Minus(v: Vector2): Vector2 { Vector2(x - v.x, y - v.y) }

    function SqrMagnitude(): real { x * x + y * y }

    /** The engine's `==` on Vector2: the two points are less than kEpsilon apart. */
    predicate ApproxEquals(v: Vector2)
    {
      Minus(v).SqrMagnitude() < Epsilon * Epsilon
    }
  }

  datatype Vector3 = Vector3(x: real, y: real, z: real)
  {
    function Plus(v: Vector3): Vector3 { Vector3(x + v.x, y + v.y, z + v.z) }

    function Scale(k: real): Vector3 { Vector3(x * k, y * k, z * k) }

    function Neg(): Vector3 { Vector3(-x, -y, -z) }

    function Dot(v: Vector3): real { x * v.x + y * v.y + z * v.z }

    function Cross(v: Vector3): Vector3
    {
      Vector3(y * v.z - z * v.y, z * v.x - x * v.z, x * v.y - y * v.x)
    }

    function SqrMagnitude(): real { x * x + y * y + z * z }

    function Magnitude(trig: Trig): real { trig.sqrt(SqrMagnitude()) }

    /** Vector3.normalized: the vector scaled to length 1, or the zero vector when it is shorter than kEpsilon. */
    function Normalized(trig: Trig): Vector3
    {
      var m := Magnitude(trig);
      if m > Epsilon then Vector3(x / m, y / m, z / m) else Vector3(0.0, 0.0, 0.0)
    }

    /** The implicit conversion to Vector2, which drops z. */
    function XY(): Vector2 { Vector2(x, y) }
  }

  /** The implicit conversion from Vector2 to Vector3, which sets z to 0. */
  function Lift(v: Vector2): Vector3
  {
    Vector3(v.x, v.y, 0.0)
  }

  /** Swapping the operands of a cross product negates it. */
  lemma CrossAntiCommutative(a: Vector3, b: Vector3)
    ensures b.Cross(a) == a.Cross(b).Neg()
  {
  }

  /** The cross product is perpendicular to both of its operands. */
  lemma CrossPerpendicular(a: Vector3, b: Vector3)
    ensures a.Cross(b).Dot(a) == 0.0 && a.Cross(b).Dot(b) == 0.0
  {
  }

  /** The non-negative square root of 1 is 1. */
  lemma SqrtOne(trig: Trig)
    requires trig.SqrtAt(1.0)
    ensures trig.sqrt(1.0) == 1.0
  {
    var m := trig.sqrt(1.0);
    assert m * m == 1.0;
    assert !(m > 1.0);
    assert m < 1.0 ==> m * m <= m * 1.0;
  }

  /** A vector of length 1 is its own normalisation, given that sqrt 1 = 1. */
  lemma NormalizedUnit(v: Vector3, trig: Trig)
    requires v.SqrMagnitude() == 1.0
    requires trig.SqrtAt(1.0)
    ensures v.Normalized(trig) == v
  {
    SqrtOne(trig);
  }

  /** Lagrange's identity: |a x b|^2 + (a . b)^2 = |a|^2 |b|^2. */
  lemma Lagrange(a: Vector3, b: Vector3)
    ensures a.Cross(b).SqrMagnitude() + a.Dot(b) * a.Dot(b) == a.SqrMagnitude() * b.SqrMagnitude()
  {
  }
}
