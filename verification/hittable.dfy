/** `hittable.hh`: the hit record and the contract every hittable object
    follows. C++ passes the record by reference; here a hit takes the
    caller's record and returns it, updated or not, beside the boolean. */
module Hittable {
  import opened Vectors
  import opened Intervals
  import opened Options
  import opened Materials

  /** `hit_record`. `mat` is `None` where the C++ pointer is null. The
      fields `u` and `v` are written by `triangle::is_interior`; the C++
      class lacks them, so they are added here. */
  datatype HitRecord = HitRecord(
    p: Point3,
    normal: Vec3,
    mat: Option<Material>,
    t: real,
    frontFace: bool,
    u: real,
    v: real)

  /** The boolean result of `hit` together with the record after the call. */
  datatype HitOutcome = HitOutcome(hit: bool, rec: HitRecord)

  /** `set_face_normal`: the stored normal always faces against the ray. */
  function SetFaceNormal(rec: HitRecord, r: Ray, outward: Vec3): (rec': HitRecord)
    ensures rec'.frontFace <==> Dot(r.direction, outward) < 0.0
    ensures rec'.normal == (if rec'.frontFace then outward else Neg(outward))
    ensures Dot(r.direction, rec'.normal) <= 0.0
    ensures LengthSquared(rec'.normal) == LengthSquared(outward)
    ensures rec'.(normal := rec.normal, frontFace := rec.frontFace) == rec
  {
    var front := Dot(r.direction, outward) < 0.0;
    rec.(frontFace := front, normal := if front then outward else Neg(outward))
  }

  /** The abstract `hittable::hit`: an object, the allowed parameter range
      and the caller's record give a hit flag and the record afterwards. */
  type HitFunction<!O> = (O, Interval, HitRecord) -> HitOutcome

  /** Every reported hit lies in the closed range the object was given. */
  ghost predicate Honest<O(!new)>(hit: HitFunction<O>) {
    forall o, iv, rec :: hit(o, iv, rec).hit ==> iv.Contains(hit(o, iv, rec).rec.t)
  }

  /** Whether an object is hit, and where, does not depend on the record
      passed in. */
  ghost predicate RecordBlind<O(!new)>(hit: HitFunction<O>) {
    forall o, iv, a, b {:trigger hit(o, iv, a), hit(o, iv, b)} ::
      hit(o, iv, a).hit == hit(o, iv, b).hit &&
      (hit(o, iv, a).hit ==> hit(o, iv, a).rec.t == hit(o, iv, b).rec.t)
  }

  /** Shrinking the upper bound to just above a reported hit still yields a
      hit, no farther away. */
  ghost predicate Narrowable<O(!new)>(hit: HitFunction<O>) {
    forall o, lo, hi, hi', rec {:trigger hit(o, Interval(lo, hi), rec), hit(o, Interval(lo, hi'), rec)} ::
      hit(o, Interval(lo, hi), rec).hit &&
      Le(hi', hi) && Lt(Finite(hit(o, Interval(lo, hi), rec).rec.t), hi') ==>
        hit(o, Interval(lo, hi'), rec).hit &&
        hit(o, Interval(lo, hi'), rec).rec.t <= hit(o, Interval(lo, hi), rec).rec.t
  }

  /** A hit inside a sub-range also counts in the wider range, where the
      hit reported is no farther away. */
  ghost predicate Widenable<O(!new)>(hit: HitFunction<O>) {
    forall o, lo, hi, hi', rec {:trigger hit(o, Interval(lo, hi), rec), hit(o, Interval(lo, hi'), rec)} ::
      hit(o, Interval(lo, hi'), rec).hit && Le(hi', hi) ==>
        hit(o, Interval(lo, hi), rec).hit &&
        hit(o, Interval(lo, hi), rec).rec.t <= hit(o, Interval(lo, hi'), rec).rec.t
  }

  /** Every reported hit carries a unit normal. */
  ghost predicate UnitNormals<O(!new)>(hit: HitFunction<O>) {
    forall o, iv, rec :: hit(o, iv, rec).hit ==> LengthSquared(hit(o, iv, rec).rec.normal) == 1.0
  }
}
