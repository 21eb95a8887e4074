/** `interval.hh`: a closed range of ray parameters. The C++ bounds are
    doubles and the empty and universal intervals use +/-infinity, so the
    bounds here are extended reals; the tested value `x` is always finite. */
module Intervals {

  datatype ExtReal = NegInf | Finite(value: real) | PosInf

  /** The order of the extended reals (IEEE comparison on non-NaN doubles). */
  predicate Le(a: ExtReal, b: ExtReal) {
    a.NegInf? || b.PosInf? || (a.Finite? && b.Finite? && a.value <= b.value)
  }

  predicate Lt(a: ExtReal, b: ExtReal) {
    Le(a, b) && a != b
  }

  datatype Interval = Interval(min: ExtReal, max: ExtReal) {

    /** `contains`: closed membership, `min <= x && x <= max`. */
    predicate Contains(x: real) {
      Le(min, Finite(x)) && Le(Finite(x), max)
    }

    /** `surrounds`: open membership, `min < x && x < max`. */
    predicate Surrounds(x: real)
      ensures Surrounds(x) ==> Contains(x)
    {
      Lt(min, Finite(x)) && Lt(Finite(x), max)
    }

    /** `clamp`: below the range gives `min`, above it `max`, otherwise `x`. */
    function Clamp(x: real): (r: ExtReal)
      ensures Le(min, max) ==> Le(min, r) && Le(r, max)
      ensures Contains(x) ==> r == Finite(x)
      ensures r == min || r == max || r == Finite(x)
    {
      if Lt(Finite(x), min) then min
      else if Lt(max, Finite(x)) then max
      else Finite(x)
    }
  }

  /** `interval()`, `interval::empty`: (+inf, -inf). */
  const Empty: Interval := Interval(PosInf, NegInf)

  /** `interval::universe`: (-inf, +inf). */
  const Universe: Interval := Interval(NegInf, PosInf)

  /** The empty interval neither contains nor surrounds any value. */
  lemma EmptyHoldsNothing(x: real)
    ensures !Empty.Contains(x) && !Empty.Surrounds(x)
  {
  }

  /** The universe contains and surrounds every finite value. */
  lemma UniverseHoldsEverything(x: real)
    ensures Universe.Contains(x) && Universe.Surrounds(x)
  {
  }

  /** Clamping a clamped value changes nothing. */
  lemma ClampIdempotent(iv: Interval, x: real)
    requires Le(iv.min, iv.max)
    ensures iv.Clamp(x).Finite? ==> iv.Clamp(iv.Clamp(x).value) == iv.Clamp(x)
  {
  }

  /** Clamping never reorders two values. */
  lemma ClampMonotone(iv: Interval, x: real, y: real)
    requires Le(iv.min, iv.max) && x <= y
    ensures Le(iv.Clamp(x), iv.Clamp(y))
  {
  }

  /** On a finite, non-empty interval the clamp is the nearest point of it. */
  lemma ClampFinite(lo: real, hi: real, x: real)
    requires lo <= hi
    ensures Interval(Finite(lo), Finite(hi)).Clamp(x).Finite?
    ensures lo <= Interval(Finite(lo), Finite(hi)).Clamp(x).value <= hi
  {
  }
}
