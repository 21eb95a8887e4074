/** `hittable_list.hh`: a scene is a list of objects, and a ray hits the
    scene where it hits the nearest object. The objects are of any type `O`
    with a hit function; the list scans them in order, shrinking the upper
    end of the range to the nearest hit found so far. */
module HittableList {
  import opened Vectors
  import opened Intervals
  import opened Hittable

  datatype HittableList<O> = HittableList(objects: seq<O>)

  /** `hittable_list()`: the empty scene. */
  function EmptyList<O>(): (l: HittableList<O>)
    ensures |l.objects| == 0
  {
    HittableList([])
  }

  /** `hittable_list(object)`: a scene holding one object. */
  function FromObject<O>(o: O): (l: HittableList<O>)
    ensures |l.objects| == 1 && l.objects[0] == o
  {
    HittableList([o])
  }

  /** `clear`: every object is removed. */
  function Clear<O>(l: HittableList<O>): (l': HittableList<O>)
    ensures |l'.objects| == 0
  {
    HittableList([])
  }

  /** `add`: the object is appended after the existing ones. */
  function AddObject<O>(l: HittableList<O>, o: O): (l': HittableList<O>)
    ensures |l'.objects| == |l.objects| + 1
    ensures l'.objects[..|l.objects|] == l.objects && l'.objects[|l.objects|] == o
  {
    HittableList(l.objects + [o])
  }

  /** The local state of `hittable_list::hit`: `hit_anything`,
      `closest_so_far`, `temp_rec` and the caller's `rec`. */
  datatype Scan = Scan(hitAnything: bool, closest: ExtReal, temp: HitRecord, rec: HitRecord)

  /** The state before the loop. `temp_rec` is uninitialised in C++; its
      starting value is a parameter. */
  function Start(rayT: Interval, temp: HitRecord, rec: HitRecord): Scan {
    Scan(false, rayT.max, temp, rec)
  }

  /** One loop iteration: the object is asked for a hit in
      `[min, closest_so_far]`, writing into `temp_rec`; on a hit the closest
      distance and the caller's record are updated. */
  function Step<O>(hit: HitFunction<O>, lo: ExtReal, s: Scan, o: O): (s': Scan)
    ensures s'.temp == hit(o, Interval(lo, s.closest), s.temp).rec
    ensures s'.hitAnything <==> s.hitAnything || hit(o, Interval(lo, s.closest), s.temp).hit
    ensures !hit(o, Interval(lo, s.closest), s.temp).hit ==> s'.closest == s.closest && s'.rec == s.rec
    ensures hit(o, Interval(lo, s.closest), s.temp).hit ==> s'.closest == Finite(s'.rec.t) && s'.rec == s'.temp
  {
    var out := hit(o, Interval(lo, s.closest), s.temp);
    if out.hit then Scan(true, Finite(out.rec.t), out.rec, out.rec)
    else s.(temp := out.rec)
  }

  /** The state after scanning `objs` in order from `init`. */
  function ScanOf<O>(hit: HitFunction<O>, lo: ExtReal, objs: seq<O>, init: Scan): Scan
    decreases |objs|
  {
    if |objs| == 0 then init
    else Step(hit, lo, ScanOf(hit, lo, objs[..|objs| - 1], init), objs[|objs| - 1])
  }

  /** The result of `hittable_list::hit`: the flag and the caller's record. */
  function ListHitResult<O>(l: HittableList<O>, hit: HitFunction<O>, rayT: Interval,
                            temp: HitRecord, rec: HitRecord): (o: HitOutcome)
    ensures |l.objects| == 0 ==> !o.hit
    ensures !o.hit ==> o.rec == rec
  {
    NoHitKeepsRecord(hit, rayT.min, l.objects, Start(rayT, temp, rec));
    var s := ScanOf(hit, rayT.min, l.objects, Start(rayT, temp, rec));
    HitOutcome(s.hitAnything, s.rec)
  }

  /** `hittable_list::hit` with its loop over the objects. */
  method ListHit<O>(l: HittableList<O>, hit: HitFunction<O>, rayT: Interval,
                    temp: HitRecord, rec: HitRecord) returns (hitAnything: bool, rec': HitRecord)
    ensures HitOutcome(hitAnything, rec') == ListHitResult(l, hit, rayT, temp, rec)
    ensures |l.objects| == 0 ==> !hitAnything
    ensures !hitAnything ==> rec' == rec
  {
    var tempRec := temp;
    var closest := rayT.max;
    hitAnything := false;
    rec' := rec;
    var i := 0;
    while i < |l.objects|
      invariant 0 <= i <= |l.objects|
      invariant Scan(hitAnything, closest, tempRec, rec')
             == ScanOf(hit, rayT.min, l.objects[..i], Start(rayT, temp, rec))
    {
      var out := hit(l.objects[i], Interval(rayT.min, closest), tempRec);
      tempRec := out.rec;
      if out.hit {
        hitAnything := true;
        closest := Finite(tempRec.t);
        rec' := tempRec;
      }
      assert l.objects[..i + 1][..i] == l.objects[..i];
      i := i + 1;
    }
    assert l.objects[..i] == l.objects;
  }

  /** Without any hit the caller's record is never written. */
  lemma {:induction false} NoHitKeepsRecord<O>(hit: HitFunction<O>, lo: ExtReal, objs: seq<O>, init: Scan)
    requires !init.hitAnything
    ensures !ScanOf(hit, lo, objs, init).hitAnything ==> ScanOf(hit, lo, objs, init).rec == init.rec
    decreases |objs|
  {
    if |objs| > 0 {
      NoHitKeepsRecord(hit, lo, objs[..|objs| - 1], init);
    }
  }

  /** The order of the extended reals is transitive. */
  lemma LeTrans(a: ExtReal, b: ExtReal, c: ExtReal)
    requires Le(a, b) && Le(b, c)
    ensures Le(a, c)
  {
  }

  /** The scan's invariant for honest objects: the bound never exceeds the
      range's upper end; once something is hit, the bound is the distance
      of the record kept, which lies in the range; before that the bound is
      the upper end and the record is the caller's. */
  ghost predicate Consistent(rayT: Interval, rec: HitRecord, s: Scan) {
    Le(s.closest, rayT.max) &&
    (s.hitAnything ==> s.closest == Finite(s.rec.t) && rayT.Contains(s.rec.t)) &&
    (!s.hitAnything ==> s.closest == rayT.max && s.rec == rec)
  }

  lemma {:induction false} ScanConsistent<O(!new)>(hit: HitFunction<O>, rayT: Interval, objs: seq<O>, temp: HitRecord, rec: HitRecord)
    requires Honest(hit)
    ensures Consistent(rayT, rec, ScanOf(hit, rayT.min, objs, Start(rayT, temp, rec)))
    decreases |objs|
  {
    if |objs| > 0 {
      var init := Start(rayT, temp, rec);
      var prev := ScanOf(hit, rayT.min, objs[..|objs| - 1], init);
      ScanConsistent(hit, rayT, objs[..|objs| - 1], temp, rec);
      var o := objs[|objs| - 1];
      var out := hit(o, Interval(rayT.min, prev.closest), prev.temp);
      if out.hit {
        assert Interval(rayT.min, prev.closest).Contains(out.rec.t);
        LeTrans(Finite(out.rec.t), prev.closest, rayT.max);
      }
    }
  }

  /** Each iteration can only bring the kept hit closer: the upper bound
      handed to the next object never grows. */
  lemma StepCloser<O(!new)>(hit: HitFunction<O>, rayT: Interval, rec: HitRecord, s: Scan, o: O)
    requires Honest(hit) && Consistent(rayT, rec, s)
    ensures Le(Step(hit, rayT.min, s, o).closest, s.closest)
    ensures s.hitAnything ==> Step(hit, rayT.min, s, o).hitAnything
    ensures s.hitAnything ==> Step(hit, rayT.min, s, o).rec.t <= s.rec.t
  {
    var out := hit(o, Interval(rayT.min, s.closest), s.temp);
    if out.hit {
      assert Interval(rayT.min, s.closest).Contains(out.rec.t);
    }
  }

  /** Every object of the scene that the ray hits in the full range is at
      least as far as the hit the scan reports: the scene hit is the
      nearest one. */
  lemma {:induction false} ScanIsNearest<O(!new)>(hit: HitFunction<O>, rayT: Interval, objs: seq<O>,
      temp: HitRecord, rec: HitRecord, i: int, any: HitRecord)
    requires Honest(hit) && RecordBlind(hit) && Narrowable(hit)
    requires 0 <= i < |objs| && hit(objs[i], rayT, any).hit
    ensures ScanOf(hit, rayT.min, objs, Start(rayT, temp, rec)).hitAnything
    ensures ScanOf(hit, rayT.min, objs, Start(rayT, temp, rec)).rec.t <= hit(objs[i], rayT, any).rec.t
    decreases |objs|
  {
    var init := Start(rayT, temp, rec);
    var n := |objs| - 1;
    var prefix := objs[..n];
    var prev := ScanOf(hit, rayT.min, prefix, init);
    var o := objs[n];
    ScanConsistent(hit, rayT, prefix, temp, rec);
    assert ScanOf(hit, rayT.min, objs, init) == Step(hit, rayT.min, prev, o);
    if i < n {
      assert prefix[i] == objs[i];
      ScanIsNearest(hit, rayT, prefix, temp, rec, i, any);
      StepCloser(hit, rayT, rec, prev, o);
    } else {
      var t0 := hit(o, rayT, any).rec.t;
      assert hit(o, rayT, prev.temp).hit && hit(o, rayT, prev.temp).rec.t == t0;
      assert rayT == Interval(rayT.min, rayT.max);
      if Lt(Finite(t0), prev.closest) {
        assert hit(o, Interval(rayT.min, prev.closest), prev.temp).hit;
      } else {
        StepCloser(hit, rayT, rec, prev, o);
      }
    }
  }

  /** Some object is hit in the full range (with any record passed in). */
  ghost predicate AnyHit<O>(hit: HitFunction<O>, objs: seq<O>, rayT: Interval, any: HitRecord) {
    exists i :: 0 <= i < |objs| && hit(objs[i], rayT, any).hit
  }

  /** The scan reports a hit exactly when some object is hit in the full
      range. */
  lemma {:induction false} ScanHitIff<O(!new)>(hit: HitFunction<O>, rayT: Interval, objs: seq<O>,
      temp: HitRecord, rec: HitRecord, any: HitRecord)
    requires Honest(hit) && RecordBlind(hit) && Narrowable(hit) && Widenable(hit)
    ensures ScanOf(hit, rayT.min, objs, Start(rayT, temp, rec)).hitAnything <==> AnyHit(hit, objs, rayT, any)
    decreases |objs|
  {
    if AnyHit(hit, objs, rayT, any) {
      var i :| 0 <= i < |objs| && hit(objs[i], rayT, any).hit;
      ScanIsNearest(hit, rayT, objs, temp, rec, i, any);
    }
    if |objs| > 0 && ScanOf(hit, rayT.min, objs, Start(rayT, temp, rec)).hitAnything {
      var init := Start(rayT, temp, rec);
      var n := |objs| - 1;
      var prev := ScanOf(hit, rayT.min, objs[..n], init);
      var o := objs[n];
      ScanConsistent(hit, rayT, objs[..n], temp, rec);
      if hit(o, Interval(rayT.min, prev.closest), prev.temp).hit {
        assert rayT == Interval(rayT.min, rayT.max);
        assert hit(o, rayT, prev.temp).hit;
        assert hit(objs[n], rayT, any).hit;
      } else {
        ScanHitIff(hit, rayT, objs[..n], temp, rec, any);
        var j :| 0 <= j < n && hit(objs[..n][j], rayT, any).hit;
        assert objs[..n][j] == objs[j];
      }
    }
  }

  /** The scan's hit is attained: once something is hit, the record kept
      is at the distance some object reports for the full range. */
  lemma {:induction false} ScanAttained<O(!new)>(hit: HitFunction<O>, rayT: Interval, objs: seq<O>,
      temp: HitRecord, rec: HitRecord)
    requires Honest(hit) && RecordBlind(hit) && Narrowable(hit) && Widenable(hit)
    ensures ScanOf(hit, rayT.min, objs, Start(rayT, temp, rec)).hitAnything ==>
      exists i :: 0 <= i < |objs| && hit(objs[i], rayT, temp).hit &&
        ScanOf(hit, rayT.min, objs, Start(rayT, temp, rec)).rec.t == hit(objs[i], rayT, temp).rec.t
    decreases |objs|
  {
    var init := Start(rayT, temp, rec);
    if |objs| > 0 && ScanOf(hit, rayT.min, objs, init).hitAnything {
      var n := |objs| - 1;
      var prefix := objs[..n];
      var prev := ScanOf(hit, rayT.min, prefix, init);
      var o := objs[n];
      var out := hit(o, Interval(rayT.min, prev.closest), prev.temp);
      ScanConsistent(hit, rayT, prefix, temp, rec);
      if out.hit {
        assert rayT == Interval(rayT.min, rayT.max);
        assert hit(o, rayT, prev.temp).hit && hit(o, rayT, prev.temp).rec.t <= out.rec.t;
        assert hit(o, rayT, temp).rec.t == hit(o, rayT, prev.temp).rec.t;
        ScanIsNearest(hit, rayT, objs, temp, rec, n, temp);
      } else {
        ScanAttained(hit, rayT, prefix, temp, rec);
        var j :| 0 <= j < n && hit(prefix[j], rayT, temp).hit &&
          prev.rec.t == hit(prefix[j], rayT, temp).rec.t;
        assert prefix[j] == objs[j];
      }
    }
  }

  /** The list's hit as a whole: in range, reported exactly when some
      object is hit, and at the distance of the nearest object hit. */
  lemma ListHitNearest<O(!new)>(l: HittableList<O>, hit: HitFunction<O>, rayT: Interval,
      temp: HitRecord, rec: HitRecord)
    requires Honest(hit) && RecordBlind(hit) && Narrowable(hit) && Widenable(hit)
    ensures ListHitResult(l, hit, rayT, temp, rec).hit <==> AnyHit(hit, l.objects, rayT, temp)
    ensures ListHitResult(l, hit, rayT, temp, rec).hit ==> rayT.Contains(ListHitResult(l, hit, rayT, temp, rec).rec.t)
    ensures forall i, any :: 0 <= i < |l.objects| && hit(l.objects[i], rayT, any).hit ==>
      ListHitResult(l, hit, rayT, temp, rec).rec.t <= hit(l.objects[i], rayT, any).rec.t
    ensures ListHitResult(l, hit, rayT, temp, rec).hit ==>
      exists i :: 0 <= i < |l.objects| && hit(l.objects[i], rayT, temp).hit &&
        ListHitResult(l, hit, rayT, temp, rec).rec.t == hit(l.objects[i], rayT, temp).rec.t
  {
    ScanAttained(hit, rayT, l.objects, temp, rec);
    ScanHitIff(hit, rayT, l.objects, temp, rec, temp);
    ScanConsistent(hit, rayT, l.objects, temp, rec);
    forall i, any | 0 <= i < |l.objects| && hit(l.objects[i], rayT, any).hit
      ensures ListHitResult(l, hit, rayT, temp, rec).rec.t <= hit(l.objects[i], rayT, any).rec.t
    {
      ScanIsNearest(hit, rayT, l.objects, temp, rec, i, any);
    }
  }

  /** The record the scan keeps after a hit is one an object reported, so
      it inherits every object's unit normal. */
  lemma {:induction false} ScanKeepsUnitNormal<O(!new)>(hit: HitFunction<O>, lo: ExtReal, objs: seq<O>, init: Scan)
    requires UnitNormals(hit) && !init.hitAnything
    ensures ScanOf(hit, lo, objs, init).hitAnything ==>
      LengthSquared(ScanOf(hit, lo, objs, init).rec.normal) == 1.0
    decreases |objs|
  {
    if |objs| > 0 {
      ScanKeepsUnitNormal(hit, lo, objs[..|objs| - 1], init);
    }
  }
}
