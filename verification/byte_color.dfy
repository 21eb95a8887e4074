/** `write_color` of `color.hh`, used by the renderer of `main.cc`: each
    component in [0, 1] becomes `static_cast<int>(255.999 * c)`, and the
    three values are written as one line. */
module ByteColor {
  import opened Numeric
  import opened Vectors
  import opened Options
  import opened PpmText
  import opened Camera

  /** `static_cast<int>(255.999 * c)`. */
  function ByteOf(c: real): (b: int)
    ensures 0.0 <= c ==> b as real <= 255.999 * c < b as real + 1.0
    ensures 0.0 <= c <= 1.0 ==> 0 <= b <= 255
  {
    Trunc(255.999 * c)
  }

  /** Black gives 0 and full intensity 255. */
  lemma ByteOfEnds()
    ensures ByteOf(0.0) == 0 && ByteOf(1.0) == 255
  {
  }

  /** A brighter component never gets a smaller byte. */
  lemma ByteOfMonotone(c1: real, c2: real)
    requires c1 <= c2
    ensures ByteOf(c1) <= ByteOf(c2)
  {
    TruncMonotone(255.999 * c1, 255.999 * c2);
  }

  /** Every byte value is reached: k is written for c = k / 255.999. */
  lemma ByteOfOnto(k: int)
    requires 0 <= k <= 255
    ensures ByteOf(k as real / 255.999) == k
  {
    assert 255.999 * (k as real / 255.999) == k as real;
    TruncOfInt(k);
  }

  /** The line `write_color` writes for one colour. */
  function ColorLine(c: Color): string {
    PixelLine(ByteOf(c.x), ByteOf(c.y), ByteOf(c.z))
  }

  /** A colour in the unit cube, as every colour of `ray_color` is, is
      written as three bytes that read back from its line. */
  lemma ColorLineReadsBack(c: Color, rest: string)
    requires InUnitCube(c)
    ensures ReadPixelLine(ColorLine(c) + rest) == Some((ByteOf(c.x), ByteOf(c.y), ByteOf(c.z), rest))
    ensures 0 <= ByteOf(c.x) <= 255 && 0 <= ByteOf(c.y) <= 255 && 0 <= ByteOf(c.z) <= 255
  {
    PixelLineRoundTrip(ByteOf(c.x), ByteOf(c.y), ByteOf(c.z), rest);
  }
}
