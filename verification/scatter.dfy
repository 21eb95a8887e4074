/** The `scatter` functions of `material.hh`. C++ writes the attenuation and
    the scattered ray through reference parameters and returns a flag; here
    the three come back together. Random vectors and draws, and the results
    of `unit_vector`, `sqrt` and `refract`, are parameters. */
module Scatter {
  import opened Vectors
  import opened Numeric
  import opened Options
  import opened Materials
  import opened Hittable

  /** The flag `scatter` returns, `attenuation` and `scattered`. */
  datatype Scattered = Scattered(scatters: bool, attenuation: Color, ray: Ray)

  /** `lambertian::scatter`: normal plus a random unit vector, or the normal
      itself when that sum is nearly zero; it always scatters. */
  function LambertianScatter(albedo: Color, rec: HitRecord, randomUnit: Vec3): (s: Scattered)
    ensures s.scatters && s.attenuation == albedo && s.ray.origin == rec.p
    ensures s.ray.direction == Add(rec.normal, randomUnit) || s.ray.direction == rec.normal
    ensures !NearZero(Add(rec.normal, randomUnit)) ==> s.ray.direction == Add(rec.normal, randomUnit)
    ensures NearZero(s.ray.direction) ==> s.ray.direction == rec.normal
  {
    var direction := Add(rec.normal, randomUnit);
    Scattered(true, albedo, Ray(rec.p, if NearZero(direction) then rec.normal else direction))
  }

  /** `metal::scatter`: the mirror reflection of the unit direction, pushed
      by `fuzz` times a random unit vector; it scatters only when the result
      leaves on the normal's side. */
  function MetalScatter(albedo: Color, fuzz: real, rIn: Ray, rec: HitRecord, dirLen: real, randomUnit: Vec3): (s: Scattered)
    requires HasLength(rIn, dirLen)
    ensures s.attenuation == albedo && s.ray.origin == rec.p
    ensures s.scatters <==> Dot(s.ray.direction, rec.normal) > 0.0
    ensures Sub(s.ray.direction, Reflect(UnitDirection(rIn, dirLen), rec.normal)) == Scale(fuzz, randomUnit)
  {
    var reflected := Reflect(UnitDirection(rIn, dirLen), rec.normal);
    var scattered := Ray(rec.p, Add(reflected, Scale(fuzz, randomUnit)));
    Scattered(Dot(scattered.direction, rec.normal) > 0.0, albedo, scattered)
  }

  /** Without fuzz a metal is a perfect mirror: it reflects the unit
      direction exactly, and about a unit normal it scatters exactly when
      the ray arrives against the normal. */
  lemma MetalWithoutFuzzMirrors(albedo: Color, rIn: Ray, rec: HitRecord, dirLen: real, randomUnit: Vec3)
    requires HasLength(rIn, dirLen)
    ensures MetalScatter(albedo, 0.0, rIn, rec, dirLen, randomUnit).ray.direction
         == Reflect(UnitDirection(rIn, dirLen), rec.normal)
    ensures LengthSquared(rec.normal) == 1.0 ==>
      (MetalScatter(albedo, 0.0, rIn, rec, dirLen, randomUnit).scatters <==>
       Dot(UnitDirection(rIn, dirLen), rec.normal) < 0.0)
  {
    var u := UnitDirection(rIn, dirLen);
    var s := MetalScatter(albedo, 0.0, rIn, rec, dirLen, randomUnit);
    assert s.ray.direction == Reflect(u, rec.normal);
    if LengthSquared(rec.normal) == 1.0 {
      ReflectMirrors(u, rec.normal);
    }
  }

  /** `refraction_ratio`: 1/ir entering through the front face, ir leaving. */
  function RefractionRatio(ir: real, frontFace: bool): (ratio: real)
    requires frontFace ==> ir != 0.0
    ensures frontFace ==> ratio * ir == 1.0
    ensures !frontFace ==> ratio == ir
  {
    if frontFace then 1.0 / ir else ir
  }

  /** Entering and leaving the same medium use reciprocal ratios. */
  lemma RefractionRatiosReciprocal(ir: real)
    requires ir != 0.0
    ensures RefractionRatio(ir, true) * RefractionRatio(ir, false) == 1.0
  {
  }

  /** `cos_theta = fmin(dot(-unit_direction, normal), 1.0)`. */
  function CosTheta(unitDirection: Vec3, normal: Vec3): (c: real)
    ensures c <= 1.0
    ensures c == Dot(Neg(unitDirection), normal) || c == 1.0
    ensures c <= Dot(Neg(unitDirection), normal)
  {
    FMin(Dot(Neg(unitDirection), normal), 1.0)
  }

  /** `sin_theta = sqrt(1 - cos_theta^2)`: the parameter is that root
      whenever it exists (a negative argument yields NaN in C++, for which
      the comparison with 1 below is false). */
  predicate IsSinTheta(cosTheta: real, sinTheta: real) {
    1.0 - cosTheta * cosTheta >= 0.0 ==>
      0.0 <= sinTheta && sinTheta * sinTheta == 1.0 - cosTheta * cosTheta
  }

  /** `cannot_refract = refraction_ratio * sin_theta > 1.0` (false for NaN). */
  predicate CannotRefract(ratio: real, cosTheta: real, sinTheta: real) {
    1.0 - cosTheta * cosTheta >= 0.0 && ratio * sinTheta > 1.0
  }

  /** The reflect-or-refract decision of `dielectric::scatter`: reflect when
      refraction is impossible or when the draw falls below the Schlick
      reflectance. */
  predicate Reflects(ratio: real, cosTheta: real, sinTheta: real, draw: real)
    requires ratio != -1.0
  {
    CannotRefract(ratio, cosTheta, sinTheta) || Reflectance(cosTheta, ratio) > draw
  }

  /** `dielectric::scatter`: always scatters with white attenuation, in the
      reflected direction or in `refracted`, the result of `refract` (which
      is not part of this model). */
  function DielectricScatter(ir: real, rIn: Ray, rec: HitRecord, dirLen: real,
                             sinTheta: real, draw: real, refracted: Vec3): (s: Scattered)
    requires HasLength(rIn, dirLen)
    requires ir != -1.0 && (rec.frontFace ==> ir != 0.0)
    requires IsSinTheta(CosTheta(UnitDirection(rIn, dirLen), rec.normal), sinTheta)
    ensures s.scatters && s.attenuation == White && s.ray.origin == rec.p
    ensures var u := UnitDirection(rIn, dirLen);
      var ratio := RefractionRatio(ir, rec.frontFace);
      var cosTheta := CosTheta(u, rec.normal);
      (CannotRefract(ratio, cosTheta, sinTheta) ==> s.ray.direction == Reflect(u, rec.normal)) &&
      (!CannotRefract(ratio, cosTheta, sinTheta) && Reflectance(cosTheta, ratio) > draw ==>
         s.ray.direction == Reflect(u, rec.normal)) &&
      (!CannotRefract(ratio, cosTheta, sinTheta) && Reflectance(cosTheta, ratio) <= draw ==>
         s.ray.direction == refracted)
  {
    var u := UnitDirection(rIn, dirLen);
    var ratio := RefractionRatio(ir, rec.frontFace);
    assert ratio != -1.0;
    var cosTheta := CosTheta(u, rec.normal);
    var direction := if Reflects(ratio, cosTheta, sinTheta, draw) then Reflect(u, rec.normal) else refracted;
    Scattered(true, White, Ray(rec.p, direction))
  }

  /** Total internal reflection cannot happen when entering a medium at
      least as dense as air through its front face: the ratio 1/ir is at
      most one and so is sin(theta). */
  lemma NoTotalReflectionEnteringDenser(ir: real, cosTheta: real, sinTheta: real)
    requires 1.0 <= ir && IsSinTheta(cosTheta, sinTheta)
    ensures !CannotRefract(RefractionRatio(ir, true), cosTheta, sinTheta)
  {
    var ratio := RefractionRatio(ir, true);
    if 1.0 - cosTheta * cosTheta >= 0.0 {
      assert 0.0 < ratio <= 1.0 by {
        assert ratio * ir == 1.0;
      }
      SquareNonNegative(cosTheta);
      SinAtMostOne(sinTheta, cosTheta * cosTheta);
      ProductBounds(sinTheta, ratio);
    }
  }

  lemma SinAtMostOne(s: real, c2: real)
    requires 0.0 <= s && 0.0 <= c2 && s * s == 1.0 - c2
    ensures s <= 1.0
  {
    if s > 1.0 {
      PositiveProduct(s - 1.0, s + 1.0);
    }
  }

  /** At normal incidence (cos(theta) = 1) refraction is always possible. */
  lemma NormalIncidenceRefracts(ratio: real, sinTheta: real)
    requires IsSinTheta(1.0, sinTheta)
    ensures !CannotRefract(ratio, 1.0, sinTheta)
  {
    ZeroSquare(sinTheta);
  }

  /** A draw below the base reflectance r0 always reflects, whatever the
      angle, for a non-negative ratio and cos(theta) in [0, 1]. */
  lemma LowDrawReflects(ratio: real, cosTheta: real, sinTheta: real, draw: real)
    requires 0.0 <= ratio && 0.0 <= cosTheta <= 1.0
    requires draw < BaseReflectance(ratio)
    ensures Reflects(ratio, cosTheta, sinTheta, draw)
  {
    ReflectanceBounds(cosTheta, ratio);
  }

  /** The random inputs of one `scatter` call, and the results of the
      square roots and of `refract` it needs. */
  datatype Draws = Draws(randomUnit: Vec3, dirLen: real, sinTheta: real, draw: real, refracted: Vec3)

  /** What the metal and dielectric branches need of their inputs: the
      length of the incoming direction and, for a dielectric, sin(theta)
      as the square root of 1 - cos(theta)^2. */
  predicate ScatterReady(m: Material, rIn: Ray, rec: HitRecord, d: Draws) {
    (m.Metal? || m.Dielectric? ==> HasLength(rIn, d.dirLen)) &&
    (m.Dielectric? ==>
       m.ir != -1.0 && (rec.frontFace ==> m.ir != 0.0) &&
       IsSinTheta(CosTheta(UnitDirection(rIn, d.dirLen), rec.normal), d.sinTheta))
  }

  /** The virtual call `rec.mat->scatter(...)`. */
  function ScatterBy(m: Material, rIn: Ray, rec: HitRecord, d: Draws): (s: Scattered)
    requires ScatterReady(m, rIn, rec, d)
    ensures s.ray.origin == rec.p
    ensures !s.scatters ==> m.Metal?
    ensures s.attenuation == (if m.Dielectric? then White else m.albedo)
  {
    match m
    case Lambertian(albedo) => LambertianScatter(albedo, rec, d.randomUnit)
    case Metal(albedo, fuzz) => MetalScatter(albedo, fuzz, rIn, rec, d.dirLen, d.randomUnit)
    case Dielectric(ir) => DielectricScatter(ir, rIn, rec, d.dirLen, d.sinTheta, d.draw, d.refracted)
  }
}
