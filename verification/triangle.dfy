/** `triangle.hh`: a triangle given by a corner `Q` and two edges `u`, `v`.
    The constructor precomputes the plane; `hit` intersects the plane and
    computes barycentric coordinates. As written, the interior test's result
    is discarded, so every plane hit inside the range is reported; this
    module models that, and also the evidently intended gated version. */
module Triangles {
  import opened Vectors
  import opened Intervals
  import opened Options
  import opened Numeric
  import opened Materials
  import opened Hittable

  datatype Triangle = Triangle(
    q: Point3, u: Vec3, v: Vec3, mat: Material,
    normal: Vec3, d: real, w: Vec3)

  /** The constructor's guarantees for a non-degenerate triangle: a unit
      normal orthogonal to both edges, the corner on the plane, and w
      dual to u x v. */
  predicate Spans(tr: Triangle) {
    LengthSquared(tr.normal) == 1.0 &&
    Dot(tr.normal, tr.u) == 0.0 && Dot(tr.normal, tr.v) == 0.0 &&
    OnPlane(tr, tr.q) && Dot(tr.w, Cross(tr.u, tr.v)) == 1.0
  }

  /** The point Q + a u + b v of the triangle's plane. */
  function PointAt(tr: Triangle, a: real, b: real): Point3 {
    Add(tr.q, Add(Scale(a, tr.u), Scale(b, tr.v)))
  }

  /** `p` lies on the triangle's plane. */
  predicate OnPlane(tr: Triangle, p: Point3) {
    Dot(tr.normal, p) == tr.d
  }

  /** The constructor: n = u x v, normal = n / |n|, D = normal . Q and
      w = n / (n . n). `nLen` is |n|. For u x v = 0 the C++ values are NaN
      and every later hit fails at the range test; the model stores a zero
      normal, which the parallel test rejects, with the same outcome. */
  function MakeTriangle(q: Point3, u: Vec3, v: Vec3, mat: Material, nLen: real): (tr: Triangle)
    requires IsLength(Cross(u, v), nLen)
    ensures tr.q == q && tr.u == u && tr.v == v && tr.mat == mat
    ensures 0.0 < nLen ==> LengthSquared(tr.normal) == 1.0
    ensures 0.0 < nLen ==> Scale(nLen, tr.normal) == Cross(u, v)
    ensures 0.0 < nLen ==> Scale(Dot(Cross(u, v), Cross(u, v)), tr.w) == Cross(u, v)
    ensures 0.0 < nLen ==> Dot(tr.normal, u) == 0.0 && Dot(tr.normal, v) == 0.0
    ensures 0.0 < nLen ==> OnPlane(tr, q) && OnPlane(tr, Add(q, u)) && OnPlane(tr, Add(q, v))
    ensures 0.0 < nLen ==> Dot(tr.w, Cross(u, v)) == 1.0
    ensures nLen == 0.0 ==> tr.normal == Zero
    ensures 0.0 < nLen ==> Spans(tr)
  {
    var n := Cross(u, v);
    if nLen == 0.0 then Triangle(q, u, v, mat, Zero, 0.0, Zero)
    else
      var normal := Unit(n, nLen);
      CrossOrthogonal(u, v);
      PositiveProduct(nLen, nLen);
      assert 0.0 < Dot(n, n) by {
        calc {
          Dot(n, n);
          nLen * nLen;
        >
          0.0;
        }
      }
      var w := Div(n, Dot(n, n));
      ScaledOrthogonal(n, nLen, u);
      ScaledOrthogonal(n, nLen, v);
      DotDivSelf(n);
      ScaleDiv(n, Dot(n, n));
      Triangle(q, u, v, mat, normal, Dot(normal, q), w)
  }

  /** u x v is orthogonal to both u and v. */
  lemma CrossOrthogonal(u: Vec3, v: Vec3)
    ensures Dot(Cross(u, v), u) == 0.0 && Dot(Cross(u, v), v) == 0.0
  {
  }

  lemma ScaledOrthogonal(n: Vec3, len: real, a: Vec3)
    requires 0.0 < len && Dot(n, a) == 0.0
    ensures Dot(Div(n, len), a) == 0.0
  {
    assert Dot(Div(n, len), a) == Dot(n, a) / len;
  }

  lemma DotDivSelf(n: Vec3)
    requires 0.0 < Dot(n, n)
    ensures Dot(Div(n, Dot(n, n)), n) == 1.0
  {
    var k := Dot(n, n);
    assert Dot(Div(n, k), n) == k / k;
    DivSelf(k);
  }

  lemma ScaleDiv(n: Vec3, k: real)
    requires k != 0.0
    ensures Scale(k, Div(n, k)) == n
  {
    assert k * (n.x / k) == n.x && k * (n.y / k) == n.y && k * (n.z / k) == n.z;
  }

  lemma DivSelf(k: real)
    requires 0.0 < k
    ensures k / k == 1.0
  {
  }

  /** `is_interior` as written: only the sum a + b is tested, and on
      success the coordinates are stored in the record. */
  function IsInterior(a: real, b: real, rec: HitRecord): (res: (bool, HitRecord))
    ensures res.0 <==> 0.0 <= a + b <= 1.0
    ensures res.1 == if res.0 then rec.(u := a, v := b) else rec
  {
    if a + b < 0.0 || a + b > 1.0 then (false, rec)
    else (true, rec.(u := a, v := b))
  }

  /** The barycentric coordinates of `p` with respect to the triangle. */
  function Alpha(tr: Triangle, p: Point3): real {
    Dot(tr.w, Cross(Sub(p, tr.q), tr.v))
  }

  function Beta(tr: Triangle, p: Point3): real {
    Dot(tr.w, Cross(tr.u, Sub(p, tr.q)))
  }

  /** The ray parameter at which the ray meets the triangle's plane. */
  function PlaneT(tr: Triangle, r: Ray): real
    requires Dot(tr.normal, r.direction) != 0.0
  {
    (tr.d - Dot(tr.normal, r.origin)) / Dot(tr.normal, r.direction)
  }

  /** The ray is (nearly) parallel to the plane: |normal . direction| < 1e-8. */
  predicate Parallel(tr: Triangle, r: Ray) {
    Abs(Dot(tr.normal, r.direction)) < 0.00000001
  }

  /** `triangle::hit` as written: after the parallel and range tests the
      hit is reported whatever `is_interior` says. */
  function TriangleHit(tr: Triangle, r: Ray, rayT: Interval, rec: HitRecord): (o: HitOutcome)
    ensures o.hit <==> !Parallel(tr, r) && rayT.Contains(PlaneT(tr, r))
    ensures !o.hit ==> o.rec == rec
    ensures o.hit ==> o.rec.t == PlaneT(tr, r) && o.rec.p == At(r, o.rec.t)
    ensures o.hit ==> OnPlane(tr, o.rec.p) && o.rec.mat == Some(tr.mat)
    ensures o.hit ==> Dot(r.direction, o.rec.normal) <= 0.0
    ensures o.hit ==> (o.rec.frontFace <==> Dot(r.direction, tr.normal) < 0.0)
    ensures o.hit ==> o.rec.normal == (if o.rec.frontFace then tr.normal else Neg(tr.normal))
    ensures o.hit && 0.0 <= Alpha(tr, o.rec.p) + Beta(tr, o.rec.p) <= 1.0 ==>
      o.rec.u == Alpha(tr, o.rec.p) && o.rec.v == Beta(tr, o.rec.p)
    ensures o.hit && !(0.0 <= Alpha(tr, o.rec.p) + Beta(tr, o.rec.p) <= 1.0) ==>
      o.rec.u == rec.u && o.rec.v == rec.v
  {
    if Parallel(tr, r) then HitOutcome(false, rec)
    else
      var t := PlaneT(tr, r);
      if !rayT.Contains(t) then HitOutcome(false, rec)
      else
        var p := At(r, t);
        PlaneTOnPlane(tr, r);
        var interior := IsInterior(Alpha(tr, p), Beta(tr, p), rec);
        HitOutcome(true, SetFaceNormal(interior.1.(t := t, p := p, mat := Some(tr.mat)), r, tr.normal))
  }

  /** The point at the plane parameter is on the plane. */
  lemma PlaneTOnPlane(tr: Triangle, r: Ray)
    requires Dot(tr.normal, r.direction) != 0.0
    ensures OnPlane(tr, At(r, PlaneT(tr, r)))
  {
    var n, t := tr.normal, PlaneT(tr, r);
    var denom := Dot(n, r.direction);
    assert t * denom == tr.d - Dot(n, r.origin);
    calc {
      Dot(n, At(r, t));
      Dot(n, r.origin) + t * denom;
      tr.d;
    }
  }

  /** The intended interior test: both coordinates non-negative and their
      sum at most one. */
  predicate InsideTriangle(a: real, b: real) {
    0.0 <= a && 0.0 <= b && a + b <= 1.0
  }

  /** `triangle::hit` with the interior test gating the hit, as evidently
      intended: outside points are misses and leave the record unchanged. */
  function TriangleHitInside(tr: Triangle, r: Ray, rayT: Interval, rec: HitRecord): (o: HitOutcome)
    ensures o.hit ==> TriangleHit(tr, r, rayT, rec).hit
    ensures o.hit ==> InsideTriangle(Alpha(tr, o.rec.p), Beta(tr, o.rec.p))
    ensures o.hit ==> o.rec == TriangleHit(tr, r, rayT, rec).rec
    ensures !o.hit ==> o.rec == rec
  {
    if Parallel(tr, r) then HitOutcome(false, rec)
    else
      var t := PlaneT(tr, r);
      if !rayT.Contains(t) then HitOutcome(false, rec)
      else
        var p := At(r, t);
        if !InsideTriangle(Alpha(tr, p), Beta(tr, p)) then HitOutcome(false, rec)
        else TriangleHit(tr, r, rayT, rec)
  }

  /** The barycentric coordinates recover the point's coefficients. */
  lemma BarycentricRoundTrip(tr: Triangle, a: real, b: real)
    requires Spans(tr)
    ensures Alpha(tr, PointAt(tr, a, b)) == a
    ensures Beta(tr, PointAt(tr, a, b)) == b
  {
    var u, v, w := tr.u, tr.v, tr.w;
    var h := Sub(PointAt(tr, a, b), tr.q);
    assert h == Add(Scale(a, u), Scale(b, v));
    CrossLinearLeft(a, u, b, v);
    CrossLinearRight(a, u, b, v);
    DotScale(w, a, Cross(u, v));
    DotScale(w, b, Cross(u, v));
  }

  lemma CrossLinearLeft(a: real, u: Vec3, b: real, v: Vec3)
    ensures Cross(Add(Scale(a, u), Scale(b, v)), v) == Scale(a, Cross(u, v))
  {
    CrossLinearLeftX(a, u, b, v);
    CrossLinearLeftY(a, u, b, v);
    CrossLinearLeftZ(a, u, b, v);
  }

  lemma CrossLinearLeftX(a: real, u: Vec3, b: real, v: Vec3)
    ensures Cross(Add(Scale(a, u), Scale(b, v)), v).x == a * Cross(u, v).x
  {
    var h := Add(Scale(a, u), Scale(b, v));
    assert Cross(h, v).x == (a * u.y + b * v.y) * v.z - (a * u.z + b * v.z) * v.y;
    MinorLinear(a, b, u.y, u.z, v.y, v.z);
  }

  lemma CrossLinearLeftY(a: real, u: Vec3, b: real, v: Vec3)
    ensures Cross(Add(Scale(a, u), Scale(b, v)), v).y == a * Cross(u, v).y
  {
    var h := Add(Scale(a, u), Scale(b, v));
    assert Cross(h, v).y == (a * u.z + b * v.z) * v.x - (a * u.x + b * v.x) * v.z;
    MinorLinear(a, b, u.z, u.x, v.z, v.x);
  }

  lemma CrossLinearLeftZ(a: real, u: Vec3, b: real, v: Vec3)
    ensures Cross(Add(Scale(a, u), Scale(b, v)), v).z == a * Cross(u, v).z
  {
    var h := Add(Scale(a, u), Scale(b, v));
    assert Cross(h, v).z == (a * u.x + b * v.x) * v.y - (a * u.y + b * v.y) * v.x;
    MinorLinear(a, b, u.x, u.y, v.x, v.y);
  }

  lemma CrossLinearRight(a: real, u: Vec3, b: real, v: Vec3)
    ensures Cross(u, Add(Scale(a, u), Scale(b, v))) == Scale(b, Cross(u, v))
  {
    CrossLinearRightX(a, u, b, v);
    CrossLinearRightY(a, u, b, v);
    CrossLinearRightZ(a, u, b, v);
  }

  lemma CrossLinearRightX(a: real, u: Vec3, b: real, v: Vec3)
    ensures Cross(u, Add(Scale(a, u), Scale(b, v))).x == b * Cross(u, v).x
  {
    var h := Add(Scale(a, u), Scale(b, v));
    assert Cross(u, h).x == u.y * (a * u.z + b * v.z) - u.z * (a * u.y + b * v.y);
    MinorLinearRight(a, b, u.y, u.z, v.y, v.z);
  }

  lemma CrossLinearRightY(a: real, u: Vec3, b: real, v: Vec3)
    ensures Cross(u, Add(Scale(a, u), Scale(b, v))).y == b * Cross(u, v).y
  {
    var h := Add(Scale(a, u), Scale(b, v));
    assert Cross(u, h).y == u.z * (a * u.x + b * v.x) - u.x * (a * u.z + b * v.z);
    MinorLinearRight(a, b, u.z, u.x, v.z, v.x);
  }

  lemma CrossLinearRightZ(a: real, u: Vec3, b: real, v: Vec3)
    ensures Cross(u, Add(Scale(a, u), Scale(b, v))).z == b * Cross(u, v).z
  {
    var h := Add(Scale(a, u), Scale(b, v));
    assert Cross(u, h).z == u.x * (a * u.y + b * v.y) - u.y * (a * u.x + b * v.x);
    MinorLinearRight(a, b, u.x, u.y, v.x, v.y);
  }

  /** One component of the cross product, with the first argument a u + b v. */
  lemma MinorLinear(a: real, b: real, u1: real, u2: real, v1: real, v2: real)
    ensures (a * u1 + b * v1) * v2 - (a * u2 + b * v2) * v1 == a * (u1 * v2 - u2 * v1)
  {
    calc {
      (a * u1 + b * v1) * v2 - (a * u2 + b * v2) * v1;
      a * u1 * v2 + b * v1 * v2 - a * u2 * v1 - b * v2 * v1;
      a * (u1 * v2 - u2 * v1);
    }
  }

  /** One component of the cross product, with the second argument a u + b v. */
  lemma MinorLinearRight(a: real, b: real, u1: real, u2: real, v1: real, v2: real)
    ensures u1 * (a * u2 + b * v2) - u2 * (a * u1 + b * v1) == b * (u1 * v2 - u2 * v1)
  {
    calc {
      u1 * (a * u2 + b * v2) - u2 * (a * u1 + b * v1);
      a * u1 * u2 + b * u1 * v2 - a * u2 * u1 - b * u2 * v1;
      b * (u1 * v2 - u2 * v1);
    }
  }

  lemma DotScale(w: Vec3, k: real, n: Vec3)
    ensures Dot(w, Scale(k, n)) == k * Dot(w, n)
  {
  }

  /** Every point Q + a u + b v lies on the plane. */
  lemma PointAtOnPlane(tr: Triangle, a: real, b: real)
    requires Spans(tr)
    ensures OnPlane(tr, PointAt(tr, a, b))
  {
    var n := tr.normal;
    calc {
      Dot(n, PointAt(tr, a, b));
      Dot(n, tr.q) + a * Dot(n, tr.u) + b * Dot(n, tr.v);
      tr.d;
    }
  }

  /** A ray that passes through a plane point at `t0` meets the plane at
      exactly `t0`. */
  lemma PlaneTOfPlanePoint(tr: Triangle, r: Ray, t0: real)
    requires Dot(tr.normal, r.direction) != 0.0 && OnPlane(tr, At(r, t0))
    ensures PlaneT(tr, r) == t0
  {
    var n := tr.normal;
    var denom := Dot(n, r.direction);
    calc {
      tr.d;
      Dot(n, At(r, t0));
      Dot(n, r.origin) + t0 * denom;
    }
    assert t0 == (tr.d - Dot(n, r.origin)) / denom;
  }

  /** For a ray that crosses the plane at the point Q + a u + b v inside the
      range: the intended hit happens exactly when the point is inside the
      triangle, while the hit as written happens regardless. */
  lemma TriangleHitInsideIff(tr: Triangle, r: Ray, rayT: Interval, rec: HitRecord, a: real, b: real, t0: real)
    requires Spans(tr) && !Parallel(tr, r)
    requires rayT.Contains(t0) && At(r, t0) == PointAt(tr, a, b)
    ensures TriangleHitInside(tr, r, rayT, rec).hit <==> InsideTriangle(a, b)
    ensures TriangleHit(tr, r, rayT, rec).hit
  {
    PointAtOnPlane(tr, a, b);
    PlaneTOfPlanePoint(tr, r, t0);
    BarycentricRoundTrip(tr, a, b);
  }

  /** A degenerate triangle (u x v = 0) is never hit. */
  lemma DegenerateNeverHit(q: Point3, u: Vec3, v: Vec3, mat: Material, r: Ray, rayT: Interval, rec: HitRecord)
    requires IsLength(Cross(u, v), 0.0)
    ensures !TriangleHit(MakeTriangle(q, u, v, mat, 0.0), r, rayT, rec).hit
  {
  }

  /** The discarded interior test: a ray that crosses the plane inside the
      range at a point outside the triangle is reported as a hit at that
      point, while the gated version misses it. */
  lemma TriangleHitIgnoresInterior(tr: Triangle, r: Ray, rayT: Interval, rec: HitRecord, a: real, b: real, t0: real)
    requires Spans(tr) && !Parallel(tr, r)
    requires rayT.Contains(t0) && At(r, t0) == PointAt(tr, a, b)
    requires !InsideTriangle(a, b)
    ensures TriangleHit(tr, r, rayT, rec).hit
    ensures TriangleHit(tr, r, rayT, rec).rec.p == PointAt(tr, a, b)
    ensures !TriangleHitInside(tr, r, rayT, rec).hit
  {
    TriangleHitInsideIff(tr, r, rayT, rec, a, b, t0);
    PointAtOnPlane(tr, a, b);
    PlaneTOfPlanePoint(tr, r, t0);
  }

  /** Such rays exist for every non-degenerate triangle and every plane
      point: the ray from one unit above Q + a u + b v straight down to it
      crosses the plane there at t = 1. */
  lemma PerpendicularRayIgnoresInterior(tr: Triangle, a: real, b: real, rec: HitRecord)
    requires Spans(tr) && !InsideTriangle(a, b)
    ensures var r := Ray(Add(PointAt(tr, a, b), tr.normal), Neg(tr.normal));
      var rayT := Interval(Finite(0.0), Finite(2.0));
      TriangleHit(tr, r, rayT, rec).hit &&
      TriangleHit(tr, r, rayT, rec).rec.p == PointAt(tr, a, b) &&
      !TriangleHitInside(tr, r, rayT, rec).hit
  {
    var p := PointAt(tr, a, b);
    var r := Ray(Add(p, tr.normal), Neg(tr.normal));
    assert Dot(tr.normal, r.direction) == -LengthSquared(tr.normal);
    assert At(r, 1.0) == p;
    TriangleHitIgnoresInterior(tr, r, Interval(Finite(0.0), Finite(2.0)), rec, a, b, 1.0);
  }

  /** The sum-only interior test accepts (-1, 1), the point Q - u + v,
      which is outside the triangle. */
  lemma IsInteriorAcceptsOutside(rec: HitRecord)
    ensures IsInterior(-1.0, 1.0, rec).0 && !InsideTriangle(-1.0, 1.0)
  {
  }

  /** A triangle as an abstract hittable object of a scene, with the
      interior test gating the hit. */
  function TriangleHitFunction(r: Ray): HitFunction<Triangle> {
    (tr: Triangle, iv: Interval, rec: HitRecord) => TriangleHitInside(tr, r, iv, rec)
  }

  /** A triangle as an abstract hittable object of a scene, as written:
      the interior test gates nothing. */
  function TriangleHitAsWrittenFunction(r: Ray): HitFunction<Triangle> {
    (tr: Triangle, iv: Interval, rec: HitRecord) => TriangleHit(tr, r, iv, rec)
  }

  /** Triangles as written also meet every assumption of the nearest-hit
      scan, so the scene theorems hold for them too: what they report is the
      nearest plane crossing rather than the nearest triangle. */
  lemma TriangleHitAsWrittenFunctionQualifies(r: Ray)
    ensures Honest(TriangleHitAsWrittenFunction(r))
    ensures RecordBlind(TriangleHitAsWrittenFunction(r))
    ensures Narrowable(TriangleHitAsWrittenFunction(r))
    ensures Widenable(TriangleHitAsWrittenFunction(r))
  {
  }

  /** Triangles meet every assumption the nearest-hit scan of a scene makes
      about its objects. */
  lemma TriangleHitFunctionQualifies(r: Ray)
    ensures Honest(TriangleHitFunction(r))
    ensures RecordBlind(TriangleHitFunction(r))
    ensures Narrowable(TriangleHitFunction(r))
    ensures Widenable(TriangleHitFunction(r))
  {
  }

  /** A triangle with the constructor's guarantees for u x v != 0. */
  type SpanningTriangle = tr: Triangle | Spans(tr)
    witness Triangle(Zero, Vec3(1.0, 0.0, 0.0), Vec3(0.0, 1.0, 0.0), Lambertian(Zero),
                     Vec3(0.0, 0.0, 1.0), 0.0, Vec3(0.0, 0.0, 1.0))

  /** Non-degenerate triangles, as written, as abstract hittable objects. */
  function SpanningTriangleHitFunction(r: Ray): HitFunction<SpanningTriangle> {
    (tr: SpanningTriangle, iv: Interval, rec: HitRecord) => TriangleHit(tr, r, iv, rec)
  }

  /** Non-degenerate triangles with the interior test gating the hit. */
  function SpanningTriangleHitInsideFunction(r: Ray): HitFunction<SpanningTriangle> {
    (tr: SpanningTriangle, iv: Interval, rec: HitRecord) => TriangleHitInside(tr, r, iv, rec)
  }

  /** Every hit on a non-degenerate triangle, as written or gated, carries
      a unit normal, so a scene of such triangles meets the assumption of
      the colour bound. */
  lemma SpanningTriangleUnitNormals(r: Ray)
    ensures UnitNormals(SpanningTriangleHitFunction(r))
    ensures UnitNormals(SpanningTriangleHitInsideFunction(r))
  {
  }
}
