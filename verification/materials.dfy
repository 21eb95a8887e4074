/** The material variants of `material.hh` and the helpers their scatter
    functions use. The scatter functions themselves are in module Scatter,
    because they read hit records, which in turn name a material. */
module Materials {
  import opened Vectors

  /** `lambertian(albedo)`, `metal(albedo, fuzz)`, `dielectric(ir)`. */
  datatype Material =
    | Lambertian(albedo: Color)
    | Metal(albedo: Color, fuzz: real)
    | Dielectric(ir: real)

  /** The `metal` constructor: a fuzz of 1 or more is stored as 1. */
  function MakeMetal(albedo: Color, f: real): (m: Material)
    ensures m.Metal? && m.albedo == albedo
    ensures m.fuzz <= 1.0
    ensures f < 1.0 ==> m.fuzz == f
    ensures 1.0 <= f ==> m.fuzz == 1.0
  {
    Metal(albedo, if f < 1.0 then f else 1.0)
  }

  /** `reflect(v, n)` of `vec3.hh` (not part of this model): v - 2(v.n)n. */
  function Reflect(v: Vec3, n: Vec3): Vec3 {
    Sub(v, Scale(2.0 * Dot(v, n), n))
  }

  /** Reflecting about a unit normal flips the component along it. */
  lemma ReflectMirrors(v: Vec3, n: Vec3)
    requires LengthSquared(n) == 1.0
    ensures Dot(Reflect(v, n), n) == -Dot(v, n)
  {
    var k := Dot(v, n);
    DotSubScale(v, 2.0 * k, n, n);
    assert Dot(n, n) == LengthSquared(n);
  }

  /** Reflecting twice about the same unit normal gives the vector back. */
  lemma ReflectInvolutive(v: Vec3, n: Vec3)
    requires LengthSquared(n) == 1.0
    ensures Reflect(Reflect(v, n), n) == v
  {
    ReflectMirrors(v, n);
  }

  /** Reflection about a unit normal keeps the length. */
  lemma ReflectKeepsLength(v: Vec3, n: Vec3)
    requires LengthSquared(n) == 1.0
    ensures LengthSquared(Reflect(v, n)) == LengthSquared(v)
  {
    var k := Dot(v, n);
    var c := 2.0 * k;
    SubScaleSquared(v.x, c, n.x);
    SubScaleSquared(v.y, c, n.y);
    SubScaleSquared(v.z, c, n.z);
    calc {
      LengthSquared(Reflect(v, n));
      LengthSquared(v) - 2.0 * c * k + c * c * (n.x * n.x + n.y * n.y + n.z * n.z);
      LengthSquared(v) - 2.0 * c * k + c * c * LengthSquared(n);
      LengthSquared(v) - 2.0 * c * k + c * c;
      LengthSquared(v);
    }
  }

  lemma DotSubScale(a: Vec3, c: real, n: Vec3, b: Vec3)
    ensures Dot(Sub(a, Scale(c, n)), b) == Dot(a, b) - c * Dot(n, b)
  {
  }

  lemma SubScaleSquared(a: real, c: real, m: real)
    ensures (a - c * m) * (a - c * m) == a * a - 2.0 * c * (a * m) + c * c * (m * m)
  {
  }

  /** `near_zero()` of `vec3.hh` (not part of this model): every component
      is below 1e-8 in magnitude. */
  predicate NearZero(v: Vec3) {
    -0.00000001 < v.x < 0.00000001 &&
    -0.00000001 < v.y < 0.00000001 &&
    -0.00000001 < v.z < 0.00000001
  }

  function Pow5(b: real): real {
    b * b * b * b * b
  }

  /** Schlick's approximation `reflectance(cos, ref_idx)`. */
  function Reflectance(cosine: real, refIdx: real): real
    requires refIdx != -1.0
  {
    var r0 := (1.0 - refIdx) / (1.0 + refIdx);
    var r0sq := r0 * r0;
    r0sq + (1.0 - r0sq) * Pow5(1.0 - cosine)
  }

  /** The Schlick base reflectance r0 = ((1 - r) / (1 + r))^2. */
  function BaseReflectance(refIdx: real): real
    requires refIdx != -1.0
  {
    ((1.0 - refIdx) / (1.0 + refIdx)) * ((1.0 - refIdx) / (1.0 + refIdx))
  }

  /** At normal incidence the reflectance is exactly r0. */
  lemma ReflectanceAtNormalIncidence(refIdx: real)
    requires refIdx != -1.0
    ensures Reflectance(1.0, refIdx) == BaseReflectance(refIdx)
  {
  }

  /** For cos in [0, 1] and a non-negative index the reflectance is a
      probability no smaller than r0. */
  lemma ReflectanceBounds(cosine: real, refIdx: real)
    requires 0.0 <= cosine <= 1.0 && 0.0 <= refIdx
    ensures BaseReflectance(refIdx) <= Reflectance(cosine, refIdx) <= 1.0
  {
    var r0 := (1.0 - refIdx) / (1.0 + refIdx);
    var b := 1.0 - cosine;
    assert -1.0 < r0 <= 1.0 by {
      assert r0 * (1.0 + refIdx) == 1.0 - refIdx;
    }
    UnitIntervalPowers(b);
    UnitIntervalSquare(r0);
    var r0sq := r0 * r0;
    var p := Pow5(b);
    assert 0.0 <= (1.0 - r0sq) * p <= 1.0 - r0sq by {
      ProductBounds(1.0 - r0sq, p);
    }
  }

  lemma UnitIntervalPowers(b: real)
    requires 0.0 <= b <= 1.0
    ensures 0.0 <= Pow5(b) <= 1.0
  {
    ProductBounds(b, b);
    ProductBounds(b * b, b);
    ProductBounds(b * b * b, b);
    ProductBounds(b * b * b * b, b);
  }

  lemma UnitIntervalSquare(r: real)
    requires -1.0 <= r <= 1.0
    ensures 0.0 <= r * r <= 1.0
  {
    if r < 0.0 {
      ProductBounds(-r, -r);
      assert r * r == (-r) * (-r);
    } else {
      ProductBounds(r, r);
    }
  }

  /** A non-negative number scaled by a factor in [0, 1] shrinks. */
  lemma ProductBounds(a: real, p: real)
    requires 0.0 <= a && 0.0 <= p <= 1.0
    ensures 0.0 <= a * p <= a
  {
    assert a * p <= a * 1.0;
  }

  /** Entering and leaving a medium of index r give the same reflectance:
      r and 1/r have the same Schlick base. */
  lemma ReflectanceFaceSymmetric(cosine: real, refIdx: real)
    requires 0.0 < refIdx
    ensures Reflectance(cosine, refIdx) == Reflectance(cosine, 1.0 / refIdx)
  {
    var inv := 1.0 / refIdx;
    assert (1.0 - inv) / (1.0 + inv) == -((1.0 - refIdx) / (1.0 + refIdx)) by {
      assert 1.0 - inv == (refIdx - 1.0) / refIdx;
      assert 1.0 + inv == (refIdx + 1.0) / refIdx;
    }
  }
}
