/** `sphere.hh`: ray-sphere intersection with the half-b form of the
    quadratic formula. The square root of the discriminant is a parameter,
    constrained by its defining equation. */
module Spheres {
  import opened Vectors
  import opened Intervals
  import opened Hittable

  /** A negative radius is legal: it turns the normals inward. */
  datatype Sphere = Sphere(center: Point3, radius: real)

  /** The coefficients of a t^2 + 2 half_b t + c = 0, whose roots are the
      parameters at which the ray meets the sphere. */
  function QuadA(r: Ray): real {
    LengthSquared(r.direction)
  }

  function HalfB(s: Sphere, r: Ray): real {
    Dot(Sub(r.origin, s.center), r.direction)
  }

  function QuadC(s: Sphere, r: Ray): real {
    LengthSquared(Sub(r.origin, s.center)) - s.radius * s.radius
  }

  function Discriminant(s: Sphere, r: Ray): real {
    HalfB(s, r) * HalfB(s, r) - QuadA(r) * QuadC(s, r)
  }

  /** `t` solves the ray-sphere quadratic. */
  predicate IsRoot(s: Sphere, r: Ray, t: real) {
    QuadA(r) * t * t + 2.0 * HalfB(s, r) * t + QuadC(s, r) == 0.0
  }

  /** `sqrtd` is `sqrt(discriminant)` whenever the discriminant is not
      negative (the only case in which the C++ code takes the root). */
  predicate IsSqrtOfDiscriminant(s: Sphere, r: Ray, sqrtd: real) {
    Discriminant(s, r) < 0.0 || (0.0 <= sqrtd && sqrtd * sqrtd == Discriminant(s, r))
  }

  function NearRoot(s: Sphere, r: Ray, sqrtd: real): real
    requires QuadA(r) != 0.0
  {
    (-HalfB(s, r) - sqrtd) / QuadA(r)
  }

  function FarRoot(s: Sphere, r: Ray, sqrtd: real): real
    requires QuadA(r) != 0.0
  {
    (-HalfB(s, r) + sqrtd) / QuadA(r)
  }

  /** `(p - center) / radius`. A zero radius gives a NaN vector in C++; the
      model uses the zero vector there. */
  function OutwardNormal(s: Sphere, p: Point3): Vec3 {
    if s.radius != 0.0 then Div(Sub(p, s.center), s.radius) else Zero
  }

  /** `sphere::hit`. The near root is tried first, the far root only when
      the near one is not strictly inside `rayT`. A zero direction makes the
      C++ root NaN, which no interval surrounds: that is a miss here. The
      record's material is left as it was: `sphere::hit` never sets it. */
  function SphereHit(s: Sphere, r: Ray, rayT: Interval, rec: HitRecord, sqrtd: real): (o: HitOutcome)
    requires IsSqrtOfDiscriminant(s, r, sqrtd)
    ensures Discriminant(s, r) < 0.0 ==> !o.hit
    ensures !o.hit ==> o.rec == rec
    ensures o.hit ==> 0.0 < QuadA(r) && rayT.Surrounds(o.rec.t)
    ensures o.hit ==> o.rec.t == NearRoot(s, r, sqrtd) || o.rec.t == FarRoot(s, r, sqrtd)
    ensures o.hit ==> IsRoot(s, r, o.rec.t)
    ensures o.hit ==> o.rec.p == At(r, o.rec.t)
    ensures o.hit ==> o.rec == SetFaceNormal(rec.(t := o.rec.t, p := o.rec.p), r, OutwardNormal(s, o.rec.p))
    ensures o.hit ==> o.rec.mat == rec.mat
  {
    var a := QuadA(r);
    if Discriminant(s, r) < 0.0 then HitOutcome(false, rec)
    else if a == 0.0 then HitOutcome(false, rec)
    else
      LengthSquaredNonNegative(r.direction);
      RootsSolveQuadratic(s, r, sqrtd);
      var near := NearRoot(s, r, sqrtd);
      var far := FarRoot(s, r, sqrtd);
      if rayT.Surrounds(near) then Accept(s, r, rec, near)
      else if rayT.Surrounds(far) then Accept(s, r, rec, far)
      else HitOutcome(false, rec)
  }

  /** Lines 35-40 of `sphere::hit`: record the accepted root. */
  function Accept(s: Sphere, r: Ray, rec: HitRecord, root: real): HitOutcome {
    var p := At(r, root);
    HitOutcome(true, SetFaceNormal(rec.(t := root, p := p), r, OutwardNormal(s, p)))
  }

  /** Both roots given by the half-b formula solve the quadratic. */
  lemma RootsSolveQuadratic(s: Sphere, r: Ray, sqrtd: real)
    requires IsSqrtOfDiscriminant(s, r, sqrtd) && 0.0 <= Discriminant(s, r)
    requires 0.0 < QuadA(r)
    ensures IsRoot(s, r, NearRoot(s, r, sqrtd))
    ensures IsRoot(s, r, FarRoot(s, r, sqrtd))
  {
    var a, hb, c := QuadA(r), HalfB(s, r), QuadC(s, r);
    QuadraticRoot(a, hb, c, -sqrtd);
    QuadraticRoot(a, hb, c, sqrtd);
  }

  /** (-hb + e) / a solves a t^2 + 2 hb t + c = 0 when e^2 = hb^2 - a c. */
  lemma QuadraticRoot(a: real, hb: real, c: real, e: real)
    requires 0.0 < a && e * e == hb * hb - a * c
    ensures var t := (-hb + e) / a; a * t * t + 2.0 * hb * t + c == 0.0
  {
    var t := (-hb + e) / a;
    assert a * t == -hb + e;
    calc {
      a * (a * t * t + 2.0 * hb * t + c);
      (a * t) * (a * t) + 2.0 * hb * (a * t) + a * c;
      (-hb + e) * (-hb + e) + 2.0 * hb * (-hb + e) + a * c;
      e * e - hb * hb + a * c;
      0.0;
    }
    ZeroProduct(a, a * t * t + 2.0 * hb * t + c);
  }

  lemma ZeroProduct(a: real, x: real)
    requires 0.0 < a && a * x == 0.0
    ensures x == 0.0
  {
    assert x == (a * x) / a;
  }

  lemma ProductZero(x: real, y: real)
    requires x * y == 0.0
    ensures x == 0.0 || y == 0.0
  {
    if x != 0.0 {
      assert y == (x * y) / x;
    }
  }

  /** The quadratic factors through its two half-b roots. */
  lemma QuadraticFactors(a: real, hb: real, c: real, e: real, t: real)
    requires 0.0 < a && 0.0 <= e && e * e == hb * hb - a * c
    ensures var t1, t2 := (-hb - e) / a, (-hb + e) / a;
      a * t * t + 2.0 * hb * t + c == a * ((t - t1) * (t - t2))
  {
    var t1, t2 := (-hb - e) / a, (-hb + e) / a;
    assert a * t1 == -hb - e;
    assert a * t2 == -hb + e;
    calc {
      a * (a * ((t - t1) * (t - t2)));
      (a * t - a * t1) * (a * t - a * t2);
      (a * t + hb + e) * (a * t + hb - e);
      (a * t + hb) * (a * t + hb) - e * e;
      a * (a * t * t + 2.0 * hb * t + c);
    }
    MulCancelLeft(a, a * ((t - t1) * (t - t2)), a * t * t + 2.0 * hb * t + c);
  }

  lemma MulCancelLeft(a: real, x: real, y: real)
    requires 0.0 < a && a * x == a * y
    ensures x == y
  {
    assert x == (a * x) / a;
    assert y == (a * y) / a;
  }

  /** Every root of the quadratic is one of the two half-b roots. */
  lemma OnlyTwoRoots(s: Sphere, r: Ray, sqrtd: real, t: real)
    requires IsSqrtOfDiscriminant(s, r, sqrtd) && 0.0 < QuadA(r)
    requires IsRoot(s, r, t)
    ensures 0.0 <= Discriminant(s, r)
    ensures t == NearRoot(s, r, sqrtd) || t == FarRoot(s, r, sqrtd)
  {
    var a, hb, c := QuadA(r), HalfB(s, r), QuadC(s, r);
    if Discriminant(s, r) < 0.0 {
      NoRootWhenNegative(a, hb, c, t);
    }
    QuadraticFactors(a, hb, c, sqrtd, t);
    var t1, t2 := NearRoot(s, r, sqrtd), FarRoot(s, r, sqrtd);
    ZeroProduct(a, (t - t1) * (t - t2));
    ProductZero(t - t1, t - t2);
  }

  /** A negative discriminant leaves the quadratic without real roots. */
  lemma NoRootWhenNegative(a: real, hb: real, c: real, t: real)
    requires 0.0 < a && hb * hb - a * c < 0.0
    ensures a * t * t + 2.0 * hb * t + c != 0.0
  {
    calc {
      a * (a * t * t + 2.0 * hb * t + c);
      (a * t + hb) * (a * t + hb) + (a * c - hb * hb);
    }
    SquareNonNegative(a * t + hb);
    assert 0.0 < a * (a * t * t + 2.0 * hb * t + c);
  }

  /** The near root never exceeds the far root. */
  lemma NearBeforeFar(s: Sphere, r: Ray, sqrtd: real)
    requires IsSqrtOfDiscriminant(s, r, sqrtd) && 0.0 <= Discriminant(s, r) && 0.0 < QuadA(r)
    ensures NearRoot(s, r, sqrtd) <= FarRoot(s, r, sqrtd)
  {
    var a, hb := QuadA(r), HalfB(s, r);
    assert (-hb - sqrtd) <= (-hb + sqrtd);
    DivMonotone(-hb - sqrtd, -hb + sqrtd, a);
  }

  lemma DivMonotone(x: real, y: real, a: real)
    requires x <= y && 0.0 < a
    ensures x / a <= y / a
  {
    assert (y - x) / a == y / a - x / a;
    assert 0.0 <= (y - x) / a;
  }

  /** The hit is the nearest root strictly inside `rayT`, and a miss means
      no root is strictly inside it. */
  lemma SphereHitIsNearestRoot(s: Sphere, r: Ray, rayT: Interval, rec: HitRecord, sqrtd: real, t: real)
    requires IsSqrtOfDiscriminant(s, r, sqrtd)
    requires IsRoot(s, r, t) && rayT.Surrounds(t)
    ensures SphereHit(s, r, rayT, rec, sqrtd).hit || QuadA(r) == 0.0
    ensures SphereHit(s, r, rayT, rec, sqrtd).hit ==> SphereHit(s, r, rayT, rec, sqrtd).rec.t <= t
  {
    var o := SphereHit(s, r, rayT, rec, sqrtd);
    LengthSquaredNonNegative(r.direction);
    if QuadA(r) != 0.0 {
      OnlyTwoRoots(s, r, sqrtd, t);
      NearBeforeFar(s, r, sqrtd);
    }
  }

  /** A root of the quadratic is a point of the sphere's surface. */
  lemma RootOnSurface(s: Sphere, r: Ray, t: real)
    requires IsRoot(s, r, t)
    ensures LengthSquared(Sub(At(r, t), s.center)) == s.radius * s.radius
  {
    var oc, d := Sub(r.origin, s.center), r.direction;
    assert Sub(At(r, t), s.center) == Add(oc, Scale(t, d));
    PointAtRoot(oc, d, t, s.radius * s.radius);
  }

  /** The quadratic in the form the sphere test uses says that o + t d is
      at squared distance rr from the centre. */
  lemma PointAtRoot(oc: Vec3, d: Vec3, t: real, rr: real)
    requires LengthSquared(d) * t * t + 2.0 * Dot(oc, d) * t + (LengthSquared(oc) - rr) == 0.0
    ensures LengthSquared(Add(oc, Scale(t, d))) == rr
  {
    LengthOfSum(oc, t, d);
    RootRearranged(LengthSquared(oc), Dot(oc, d), LengthSquared(d), t, rr);
  }

  lemma RootRearranged(c0: real, hb: real, a: real, t: real, rr: real)
    requires a * t * t + 2.0 * hb * t + (c0 - rr) == 0.0
    ensures c0 + 2.0 * t * hb + t * t * a == rr
  {
  }

  /** |o + t d|^2 = |o|^2 + 2 t (o . d) + t^2 |d|^2. */
  lemma LengthOfSum(o: Vec3, t: real, d: Vec3)
    ensures LengthSquared(Add(o, Scale(t, d))) ==
      LengthSquared(o) + 2.0 * t * Dot(o, d) + t * t * LengthSquared(d)
  {
    var p := Add(o, Scale(t, d));
    assert p.x == o.x + t * d.x && p.y == o.y + t * d.y && p.z == o.z + t * d.z;
    SquareOfSum(p.x, o.x, d.x, t);
    SquareOfSum(p.y, o.y, d.y, t);
    SquareOfSum(p.z, o.z, d.z, t);
    SumOfExpansions(p.x * p.x, p.y * p.y, p.z * p.z,
                    o.x * o.x, o.y * o.y, o.z * o.z, o.x * d.x, o.y * d.y, o.z * d.z,
                    d.x * d.x, d.y * d.y, d.z * d.z, t);
  }

  lemma SquareOfSum(q: real, a: real, b: real, t: real)
    requires q == a + t * b
    ensures q * q == a * a + 2.0 * t * (a * b) + t * t * (b * b)
  {
  }

  lemma SumOfExpansions(s1: real, s2: real, s3: real, a1: real, a2: real, a3: real,
                        m1: real, m2: real, m3: real, b1: real, b2: real, b3: real, t: real)
    requires s1 == a1 + 2.0 * t * m1 + t * t * b1
    requires s2 == a2 + 2.0 * t * m2 + t * t * b2
    requires s3 == a3 + 2.0 * t * m3 + t * t * b3
    ensures s1 + s2 + s3 == (a1 + a2 + a3) + 2.0 * t * (m1 + m2 + m3) + t * t * (b1 + b2 + b3)
  {
  }

  /** On a hit the outward normal is a unit vector, and its projection on
      the centre-to-point direction is the radius: it points away from the
      centre for a positive radius and towards it for a negative one. */
  lemma OutwardNormalOrientation(s: Sphere, r: Ray, rayT: Interval, rec: HitRecord, sqrtd: real)
    requires IsSqrtOfDiscriminant(s, r, sqrtd) && s.radius != 0.0
    requires SphereHit(s, r, rayT, rec, sqrtd).hit
    ensures var p := SphereHit(s, r, rayT, rec, sqrtd).rec.p;
      LengthSquared(OutwardNormal(s, p)) == 1.0 &&
      Dot(OutwardNormal(s, p), Sub(p, s.center)) == s.radius
  {
    var o := SphereHit(s, r, rayT, rec, sqrtd);
    RootOnSurface(s, r, o.rec.t);
    SurfaceNormalProjection(s, o.rec.p);
    SurfaceNormalIsUnit(s, o.rec.p);
  }

  lemma SurfaceNormalProjection(s: Sphere, p: Point3)
    requires s.radius != 0.0
    requires LengthSquared(Sub(p, s.center)) == s.radius * s.radius
    ensures Dot(OutwardNormal(s, p), Sub(p, s.center)) == s.radius
  {
    var v := Sub(p, s.center);
    var n := OutwardNormal(s, p);
    var rad := s.radius;
    assert n.x * rad == v.x && n.y * rad == v.y && n.z * rad == v.z;
    calc {
      Dot(n, v) * rad;
      (n.x * v.x + n.y * v.y + n.z * v.z) * rad;
      v.x * v.x + v.y * v.y + v.z * v.z;
      rad * rad;
    }
    MulCancelRight(Dot(n, v), rad, rad);
  }

  lemma SurfaceNormalIsUnit(s: Sphere, p: Point3)
    requires s.radius != 0.0
    requires LengthSquared(Sub(p, s.center)) == s.radius * s.radius
    ensures LengthSquared(OutwardNormal(s, p)) == 1.0
  {
    var v := Sub(p, s.center);
    var n := OutwardNormal(s, p);
    var rad := s.radius;
    assert n.x * rad == v.x && n.y * rad == v.y && n.z * rad == v.z;
    calc {
      LengthSquared(n) * (rad * rad);
      (n.x * rad) * (n.x * rad) + (n.y * rad) * (n.y * rad) + (n.z * rad) * (n.z * rad);
      v.x * v.x + v.y * v.y + v.z * v.z;
      rad * rad;
      1.0 * (rad * rad);
    }
    var k := rad * rad;
    if rad < 0.0 {
      PositiveProduct(-rad, -rad);
      calc {
        k;
        (-rad) * (-rad);
      >
        0.0;
      }
    } else {
      PositiveProduct(rad, rad);
      calc {
        k;
        rad * rad;
      >
        0.0;
      }
    }
    MulCancelRight(LengthSquared(n), 1.0, k);
  }

  lemma MulCancelRight(x: real, y: real, k: real)
    requires (k < 0.0 || 0.0 < k) && x * k == y * k
    ensures x == y
  {
    assert x == (x * k) / k;
    assert y == (y * k) / k;
  }

  /** A ray aimed straight at the centre of a sphere from distance `dist`
      outside it meets the surface first at `dist - radius`. */
  lemma HeadOnHit(s: Sphere, dir: Vec3, dist: real, rayT: Interval, rec: HitRecord)
    requires LengthSquared(dir) == 1.0 && 0.0 < s.radius < dist
    requires rayT.Surrounds(dist - s.radius)
    ensures var r := Ray(Add(s.center, Scale(dist, dir)), Neg(dir));
      IsSqrtOfDiscriminant(s, r, s.radius) &&
      SphereHit(s, r, rayT, rec, s.radius).hit &&
      SphereHit(s, r, rayT, rec, s.radius).rec.t == dist - s.radius
  {
    var r := Ray(Add(s.center, Scale(dist, dir)), Neg(dir));
    assert Sub(r.origin, s.center) == Scale(dist, dir);
    assert QuadA(r) == 1.0;
    calc {
      HalfB(s, r);
      -(dist * (dir.x * dir.x) + dist * (dir.y * dir.y) + dist * (dir.z * dir.z));
      -(dist * LengthSquared(dir));
      -dist;
    }
    calc {
      QuadC(s, r);
      dist * dist * LengthSquared(dir) - s.radius * s.radius;
      dist * dist - s.radius * s.radius;
    }
    assert Discriminant(s, r) == s.radius * s.radius;
    assert NearRoot(s, r, s.radius) == dist - s.radius;
  }

  /** A sphere as an abstract hittable object for the fixed ray `r`;
      `roots` supplies each sphere's `sqrt(discriminant)` for that ray. */
  function SphereHitFunction(r: Ray, roots: Sphere -> real): HitFunction<Sphere> {
    (s: Sphere, iv: Interval, rec: HitRecord) =>
      if IsSqrtOfDiscriminant(s, r, roots(s)) then SphereHit(s, r, iv, rec, roots(s))
      else HitOutcome(false, rec)
  }

  /** Spheres meet every assumption the nearest-hit scan of a scene makes
      about its objects. */
  lemma SphereHitFunctionQualifies(r: Ray, roots: Sphere -> real)
    requires forall s :: IsSqrtOfDiscriminant(s, r, roots(s))
    ensures Honest(SphereHitFunction(r, roots))
    ensures RecordBlind(SphereHitFunction(r, roots))
    ensures Narrowable(SphereHitFunction(r, roots))
    ensures Widenable(SphereHitFunction(r, roots))
  {
    var f := SphereHitFunction(r, roots);
    forall s, lo, hi, hi', rec
      | f(s, Interval(lo, hi), rec).hit && Le(hi', hi) && Lt(Finite(f(s, Interval(lo, hi), rec).rec.t), hi')
      ensures f(s, Interval(lo, hi'), rec).hit
      ensures f(s, Interval(lo, hi'), rec).rec.t <= f(s, Interval(lo, hi), rec).rec.t
    {
      var t := f(s, Interval(lo, hi), rec).rec.t;
      SphereHitIsNearestRoot(s, r, Interval(lo, hi'), rec, roots(s), t);
    }
    forall s, lo, hi, hi', rec | f(s, Interval(lo, hi'), rec).hit && Le(hi', hi)
      ensures f(s, Interval(lo, hi), rec).hit
      ensures f(s, Interval(lo, hi), rec).rec.t <= f(s, Interval(lo, hi'), rec).rec.t
    {
      var t := f(s, Interval(lo, hi'), rec).rec.t;
      SphereHitIsNearestRoot(s, r, Interval(lo, hi), rec, roots(s), t);
    }
  }

  /** A sphere with a non-zero radius: the kind whose normal is defined. */
  type SolidSphere = s: Sphere | s.radius != 0.0 witness Sphere(Zero, 1.0)

  /** Spheres of non-zero radius as abstract hittable objects of a scene. */
  function SolidSphereHitFunction(r: Ray, roots: Sphere -> real): HitFunction<SolidSphere> {
    (s: SolidSphere, iv: Interval, rec: HitRecord) => SphereHitFunction(r, roots)(s, iv, rec)
  }

  /** Every hit on a sphere of non-zero radius carries a unit normal, so a
      scene of such spheres meets the assumption of the colour bound. */
  lemma SolidSphereUnitNormals(r: Ray, roots: Sphere -> real)
    ensures UnitNormals(SolidSphereHitFunction(r, roots))
  {
    var f := SolidSphereHitFunction(r, roots);
    forall s: SolidSphere, iv, rec | f(s, iv, rec).hit
      ensures LengthSquared(f(s, iv, rec).rec.normal) == 1.0
    {
      assert f(s, iv, rec) == SphereHitFunction(r, roots)(s, iv, rec);
      assert IsSqrtOfDiscriminant(s, r, roots(s));
      assert f(s, iv, rec) == SphereHit(s, r, iv, rec, roots(s));
      OutwardNormalOrientation(s, r, iv, rec, roots(s));
    }
  }
}
