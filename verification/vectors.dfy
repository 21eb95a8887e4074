/** Three-component vectors, points, colours and rays over `real`.
    `vec3.hh` and `ray.hh` are not part of this model; this is the minimal
    vector algebra the rest of the renderer uses. */
module Vectors {

  datatype Vec3 = Vec3(x: real, y: real, z: real)

  type Point3 = Vec3
  type Color = Vec3

  const Zero: Vec3 := Vec3(0.0, 0.0, 0.0)
  const White: Color := Vec3(1.0, 1.0, 1.0)

  function Add(a: Vec3, b: Vec3): Vec3 {
    Vec3(a.x + b.x, a.y + b.y, a.z + b.z)
  }

  function Sub(a: Vec3, b: Vec3): Vec3 {
    Vec3(a.x - b.x, a.y - b.y, a.z - b.z)
  }

  function Neg(a: Vec3): Vec3 {
    Vec3(-a.x, -a.y, -a.z)
  }

  function Scale(k: real, a: Vec3): Vec3 {
    Vec3(k * a.x, k * a.y, k * a.z)
  }

  function Div(a: Vec3, k: real): Vec3
    requires k != 0.0
  {
    Vec3(a.x / k, a.y / k, a.z / k)
  }

  function Dot(a: Vec3, b: Vec3): real {
    a.x * b.x + a.y * b.y + a.z * b.z
  }

  function Cross(a: Vec3, b: Vec3): Vec3 {
    Vec3(a.y * b.z - a.z * b.y, a.z * b.x - a.x * b.z, a.x * b.y - a.y * b.x)
  }

  function LengthSquared(a: Vec3): real {
    Dot(a, a)
  }

  /** `len` is the Euclidean length of `a`: the defining equation of the
      `sqrt` inside `length()` and `unit_vector`. */
  predicate IsLength(a: Vec3, len: real) {
    0.0 <= len && len * len == LengthSquared(a)
  }

  /** `unit_vector(a)`, given the length of a non-zero `a`. */
  function Unit(a: Vec3, len: real): (u: Vec3)
    requires 0.0 < len && IsLength(a, len)
    ensures LengthSquared(u) == 1.0
    ensures Scale(len, u) == a
  {
    var u := Div(a, len);
    assert u.x * len == a.x && u.y * len == a.y && u.z * len == a.z;
    assert (u.x * u.x) * (len * len) == a.x * a.x;
    assert (u.y * u.y) * (len * len) == a.y * a.y;
    assert (u.z * u.z) * (len * len) == a.z * a.z;
    var l2 := len * len;
    PositiveProduct(len, len);
    calc {
      l2;
      len * len;
    >
      0.0;
    }
    calc {
      LengthSquared(u) * l2;
      (u.x * u.x) * l2 + (u.y * u.y) * l2 + (u.z * u.z) * l2;
      LengthSquared(a);
      1.0 * l2;
    }
    MulCancel(LengthSquared(u), 1.0, l2);
    u
  }

  lemma LengthSquaredNonNegative(a: Vec3)
    ensures 0.0 <= LengthSquared(a)
  {
    SquareNonNegative(a.x);
    SquareNonNegative(a.y);
    SquareNonNegative(a.z);
  }

  lemma SquareNonNegative(r: real)
    ensures 0.0 <= r * r
  {
    if r < 0.0 {
      assert r * r == (-r) * (-r);
      PositiveProduct(-r, -r);
    }
  }

  /** Only zero squares to zero. */
  lemma ZeroSquare(s: real)
    requires 0.0 <= s && s * s == 0.0
    ensures s == 0.0
  {
    if s != 0.0 {
      PositiveProduct(s, s);
      calc {
        0.0;
      <
        s * s;
      ==
        0.0;
      }
    }
  }

  lemma PositiveProduct(a: real, b: real)
    requires 0.0 < a && 0.0 < b
    ensures 0.0 < a * b
  {
  }

  lemma MulCancel(a: real, b: real, k: real)
    requires 0.0 < k && a * k == b * k
    ensures a == b
  {
    assert a == (a * k) / k;
    assert b == (b * k) / k;
  }

  /** Each component of a unit vector lies in [-1, 1]. */
  lemma UnitComponentsBounded(u: Vec3)
    requires LengthSquared(u) == 1.0
    ensures -1.0 <= u.x <= 1.0 && -1.0 <= u.y <= 1.0 && -1.0 <= u.z <= 1.0
  {
    SquareAtMostOne(u.x, u.y * u.y + u.z * u.z);
    SquareAtMostOne(u.y, u.x * u.x + u.z * u.z);
    SquareAtMostOne(u.z, u.x * u.x + u.y * u.y);
  }

  lemma SquareAtMostOne(a: real, rest: real)
    requires 0.0 <= rest && a * a + rest == 1.0
    ensures -1.0 <= a <= 1.0
  {
  }

  datatype Ray = Ray(origin: Point3, direction: Vec3)

  /** `ray::at`: the point reached after travelling `t` directions. */
  function At(r: Ray, t: real): (p: Point3)
    ensures Sub(p, r.origin) == Scale(t, r.direction)
  {
    Add(r.origin, Scale(t, r.direction))
  }

  /** `dirLen` is the (non-zero) length of the ray's direction. */
  predicate HasLength(r: Ray, dirLen: real) {
    0.0 < dirLen && IsLength(r.direction, dirLen)
  }

  /** `unit_vector(r.direction())`, given the direction's length. A zero
      direction has no unit vector. */
  function UnitDirection(r: Ray, dirLen: real): (u: Vec3)
    requires HasLength(r, dirLen)
    ensures LengthSquared(u) == 1.0 && Scale(dirLen, u) == r.direction
  {
    Unit(r.direction, dirLen)
  }
}
