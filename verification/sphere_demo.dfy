/** The first renderer of `main.cc`: one sphere tested by `hit_sphere`,
    which returns the near root of the ray-sphere quadratic or -1 for a
    miss, and a `ray_color` that shades the sphere by its normal and
    everything else by the sky gradient. */
module SphereDemo {
  import opened Vectors
  import opened Spheres
  import opened Camera

  /** `hit_sphere`: -1 when the discriminant is negative, the near root
      (-half_b - sqrt(discriminant)) / a otherwise. A zero direction makes
      that quotient NaN in C++, which fails every `t > 0` test just as -1
      does; the model returns -1 there too. */
  function HitSphere(s: Sphere, r: Ray, sqrtd: real): (t: real)
    requires IsSqrtOfDiscriminant(s, r, sqrtd)
    ensures Discriminant(s, r) < 0.0 || QuadA(r) == 0.0 ==> t == -1.0
    ensures 0.0 < t ==> 0.0 <= Discriminant(s, r) && 0.0 < QuadA(r) && IsRoot(s, r, t)
  {
    if Discriminant(s, r) < 0.0 || QuadA(r) == 0.0 then -1.0
    else
      LengthSquaredNonNegative(r.direction);
      RootsSolveQuadratic(s, r, sqrtd);
      NearRoot(s, r, sqrtd)
  }

  /** Unless the ray misses, `hit_sphere` returns the smallest root of the
      quadratic: it solves it and no root comes earlier. */
  lemma HitSphereIsNearestRoot(s: Sphere, r: Ray, sqrtd: real, t: real)
    requires IsSqrtOfDiscriminant(s, r, sqrtd)
    requires IsRoot(s, r, t) && QuadA(r) != 0.0
    ensures IsRoot(s, r, HitSphere(s, r, sqrtd))
    ensures HitSphere(s, r, sqrtd) <= t
  {
    LengthSquaredNonNegative(r.direction);
    OnlyTwoRoots(s, r, sqrtd, t);
    RootsSolveQuadratic(s, r, sqrtd);
    NearBeforeFar(s, r, sqrtd);
  }

  /** A ray that meets no point of the sphere gets -1. */
  lemma HitSphereMissIsSentinel(s: Sphere, r: Ray, sqrtd: real)
    requires IsSqrtOfDiscriminant(s, r, sqrtd) && QuadA(r) != 0.0
    requires forall t :: !IsRoot(s, r, t)
    ensures HitSphere(s, r, sqrtd) == -1.0
  {
    LengthSquaredNonNegative(r.direction);
    if 0.0 <= Discriminant(s, r) {
      RootsSolveQuadratic(s, r, sqrtd);
    }
  }

  /** The sphere of `ray_color`: centre (0, 0, -1), radius 0.5. */
  const DemoSphere: Sphere := Sphere(Vec3(0.0, 0.0, -1.0), 0.5)

  /** The -1 sentinel is also a genuine root: a ray starting on the demo
      sphere and leaving it along +z met the sphere one direction behind
      its origin, so `hit_sphere` returns -1 with a non-negative
      discriminant. The caller only asks `t > 0`, so nothing is lost. */
  lemma SentinelIsAlsoARoot(r: Ray)
    requires r == Ray(Vec3(0.0, 0.0, -0.5), Vec3(0.0, 0.0, 1.0))
    ensures Discriminant(DemoSphere, r) == 0.25
    ensures IsSqrtOfDiscriminant(DemoSphere, r, 0.5)
    ensures HitSphere(DemoSphere, r, 0.5) == -1.0
    ensures IsRoot(DemoSphere, r, -1.0)
  {
    BackRayCoefficients(r);
    SentinelFromCoefficients(DemoSphere, r);
  }

  /** Any ray whose quadratic is t^2 + t = 0 gets -1, which is a root. */
  lemma SentinelFromCoefficients(s: Sphere, r: Ray)
    requires QuadA(r) == 1.0 && HalfB(s, r) == 0.5 && QuadC(s, r) == 0.0
    ensures Discriminant(s, r) == 0.25 && IsSqrtOfDiscriminant(s, r, 0.5)
    ensures HitSphere(s, r, 0.5) == -1.0
    ensures IsRoot(s, r, -1.0)
  {
    BackRayRoots(QuadA(r), HalfB(s, r), QuadC(s, r));
  }

  lemma BackRayRoots(a: real, hb: real, c: real)
    requires a == 1.0 && hb == 0.5 && c == 0.0
    ensures (-hb - 0.5) / a == -1.0
    ensures a * -1.0 * -1.0 + 2.0 * hb * -1.0 + c == 0.0
  {
  }

  /** The quadratic of that ray: t^2 + t = 0. */
  lemma BackRayCoefficients(r: Ray)
    requires r == Ray(Vec3(0.0, 0.0, -0.5), Vec3(0.0, 0.0, 1.0))
    ensures QuadA(r) == 1.0 && HalfB(DemoSphere, r) == 0.5 && QuadC(DemoSphere, r) == 0.0
    ensures Discriminant(DemoSphere, r) == 0.25
  {
    assert Sub(r.origin, DemoSphere.center) == Vec3(0.0, 0.0, 0.5);
  }

  /** `ray_color` of `main.cc`. `sqrtd` is the root taken in `hit_sphere`,
      `nLen` the length of `r.at(t) - (0, 0, -1)` (the hit point on the
      sphere) and `dirLen` the length of the direction, each needed only
      on its own branch. */
  function DemoRayColor(r: Ray, sqrtd: real, nLen: real, dirLen: real): (c: Color)
    requires IsSqrtOfDiscriminant(DemoSphere, r, sqrtd)
    requires var t := HitSphere(DemoSphere, r, sqrtd);
      0.0 < t ==> IsLength(Sub(At(r, t), DemoSphere.center), nLen)
    requires 0.0 < HitSphere(DemoSphere, r, sqrtd) || HasLength(r, dirLen)
    ensures var t := HitSphere(DemoSphere, r, sqrtd);
      (0.0 < t ==> nLen == 0.5 && c == NormalShade(OutwardNormal(DemoSphere, At(r, t)))) &&
      (t <= 0.0 ==> c == Sky(UnitDirection(r, dirLen)))
  {
    var t := HitSphere(DemoSphere, r, sqrtd);
    if 0.0 < t then
      var v := Sub(At(r, t), DemoSphere.center);
      RootOnSurface(DemoSphere, r, t);
      HalfLength(nLen, LengthSquared(v));
      var n := Unit(v, nLen);
      assert n == Div(v, 0.5);
      NormalShade(n)
    else
      Sky(UnitDirection(r, dirLen))
  }

  /** A length whose square is 1/4 is 1/2. */
  lemma HalfLength(len: real, sq: real)
    requires 0.0 <= len && len * len == sq && sq == 0.25
    ensures len == 0.5
  {
    assert (len - 0.5) * (len + 0.5) == 0.0;
    assert 0.0 < len + 0.5;
  }

  /** Every colour of the demo lies in the colour cube. */
  lemma DemoRayColorInUnitCube(r: Ray, sqrtd: real, nLen: real, dirLen: real)
    requires IsSqrtOfDiscriminant(DemoSphere, r, sqrtd)
    requires var t := HitSphere(DemoSphere, r, sqrtd);
      0.0 < t ==> IsLength(Sub(At(r, t), DemoSphere.center), nLen)
    requires 0.0 < HitSphere(DemoSphere, r, sqrtd) || HasLength(r, dirLen)
    ensures InUnitCube(DemoRayColor(r, sqrtd, nLen, dirLen))
  {
    var t := HitSphere(DemoSphere, r, sqrtd);
    if 0.0 < t {
      var p := At(r, t);
      RootOnSurface(DemoSphere, r, t);
      SurfaceNormalIsUnit(DemoSphere, p);
      NormalShadeInUnitCube(OutwardNormal(DemoSphere, p));
    } else {
      SkyBounds(UnitDirection(r, dirLen));
    }
  }
}
