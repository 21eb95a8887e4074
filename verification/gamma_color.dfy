/** `write_color` of `src/cpp/color.hh`: each component of the
    accumulated colour is divided by the number of samples, gamma-corrected
    by a square root, clamped to [0, 0.999] and truncated from 256 times
    that; the header and one line per pixel go to the file. The square
    roots are parameters constrained by their defining equation. */
module GammaColor {
  import opened Numeric
  import opened Vectors
  import opened Intervals
  import opened Options
  import opened PpmText

  /** `linear_to_gamma(linear) = sqrt(linear)`: `g` is that root. */
  predicate IsGamma(linear: real, g: real) {
    0.0 <= g && g * g == linear
  }

  /** The square root never reorders two intensities. */
  lemma GammaMonotone(a: real, ga: real, b: real, gb: real)
    requires IsGamma(a, ga) && IsGamma(b, gb) && a <= b
    ensures ga <= gb
  {
    if gb < ga {
      MulLeft(gb, gb, ga);
      PositiveProduct(ga - gb, ga);
      calc {
        b;
      ==
        gb * gb;
      <=
        gb * ga;
      ==
        ga * ga - (ga - gb) * ga;
      <
        ga * ga;
      ==
        a;
      }
    }
  }

  lemma MulLeft(k: real, x: real, y: real)
    requires 0.0 <= k && x <= y
    ensures k * x <= k * y
  {
    assert k * y - k * x == k * (y - x);
  }

  /** Black and full intensity are fixed points of the gamma curve. */
  lemma GammaFixesEnds(g: real)
    ensures IsGamma(0.0, g) ==> g == 0.0
    ensures IsGamma(1.0, g) ==> g == 1.0
  {
    if IsGamma(0.0, g) {
      ZeroSquare(g);
    }
    if IsGamma(1.0, g) {
      assert (g - 1.0) * (g + 1.0) == 0.0;
      assert 0.0 < g + 1.0;
    }
  }

  /** `static const interval intensity(0.000, 0.999)`. */
  const Intensity: Interval := Interval(Finite(0.0), Finite(0.999))

  /** What one component needs: a positive sample count, a non-negative
      colour (a negative one would make `sqrt` NaN) and its gamma root. */
  predicate ComponentReady(c: real, samples: int, g: real) {
    0 < samples && 0.0 <= c && IsGamma(c * (1.0 / samples as real), g)
  }

  /** `static_cast<int>(256 * intensity.clamp(linear_to_gamma(c * scale)))`
      with `scale = 1.0 / samples_per_pixel`. */
  function ComponentByte(c: real, samples: int, g: real): (b: int)
    requires ComponentReady(c, samples, g)
    ensures 0 <= b <= 255
    ensures g < 0.999 ==> b as real <= 256.0 * g < b as real + 1.0
    ensures 0.999 <= g ==> b == 255
  {
    ClampFinite(0.0, 0.999, g);
    Trunc(256.0 * Intensity.Clamp(g).value)
  }

  /** A brighter component never gets a smaller byte. */
  lemma ComponentByteMonotone(c1: real, g1: real, c2: real, g2: real, samples: int)
    requires ComponentReady(c1, samples, g1) && ComponentReady(c2, samples, g2)
    requires c1 <= c2
    ensures ComponentByte(c1, samples, g1) <= ComponentByte(c2, samples, g2)
  {
    var scale := 1.0 / samples as real;
    assert 0.0 < scale;
    assert c1 * scale <= c2 * scale;
    GammaMonotone(c1 * scale, g1, c2 * scale, g2);
    ClampMonotone(Intensity, g1, g2);
    ClampFinite(0.0, 0.999, g1);
    ClampFinite(0.0, 0.999, g2);
    TruncMonotone(256.0 * Intensity.Clamp(g1).value, 256.0 * Intensity.Clamp(g2).value);
  }

  /** Black stays 0, and an average of at least full intensity gives 255. */
  lemma ComponentByteEnds(c: real, samples: int, g: real)
    requires ComponentReady(c, samples, g)
    ensures c == 0.0 ==> ComponentByte(c, samples, g) == 0
    ensures samples as real <= c ==> ComponentByte(c, samples, g) == 255
  {
    var scale := 1.0 / samples as real;
    if c == 0.0 {
      GammaFixesEnds(g);
    }
    if samples as real <= c {
      assert 1.0 <= c * scale by {
        assert samples as real * scale == 1.0;
        assert samples as real * scale <= c * scale;
      }
      GammaMonotone(1.0, 1.0, c * scale, g);
    }
  }

  /** A pixel's three components and their gamma roots. */
  predicate PixelReady(p: Color, samples: int, g: Color) {
    ComponentReady(p.x, samples, g.x) && ComponentReady(p.y, samples, g.y) &&
    ComponentReady(p.z, samples, g.z)
  }

  function PixelBytes(p: Color, samples: int, g: Color): (rgb: Rgb)
    requires PixelReady(p, samples, g)
    ensures 0 <= rgb.r <= 255 && 0 <= rgb.g <= 255 && 0 <= rgb.b <= 255
  {
    Rgb(ComponentByte(p.x, samples, g.x), ComponentByte(p.y, samples, g.y),
        ComponentByte(p.z, samples, g.z))
  }

  /** The number of pixels the loop visits: `image_width * image_height`,
      or none when that is negative. */
  function PixelCount(width: int, height: int): nat {
    if width * height < 0 then 0 else width * height
  }

  /** The bytes of the first `n` pixels, in buffer order. */
  function Quantise(image: seq<Color>, samples: int, gammas: seq<Color>, n: nat): (pixels: seq<Rgb>)
    requires n <= |image| && n <= |gammas|
    requires forall i :: 0 <= i < n ==> PixelReady(image[i], samples, gammas[i])
    ensures |pixels| == n
    ensures forall i :: 0 <= i < n ==> pixels[i] == PixelBytes(image[i], samples, gammas[i])
  {
    seq(n, i requires 0 <= i < n => PixelBytes(image[i], samples, gammas[i]))
  }

  /** One more pixel adds one more line. */
  lemma QuantiseStep(image: seq<Color>, samples: int, gammas: seq<Color>, i: nat)
    requires i < |image| && i < |gammas|
    requires forall k :: 0 <= k <= i ==> PixelReady(image[k], samples, gammas[k])
    ensures var rgb := PixelBytes(image[i], samples, gammas[i]);
      Lines(Quantise(image, samples, gammas, i + 1)) ==
      Lines(Quantise(image, samples, gammas, i)) + PixelLine(rgb.r, rgb.g, rgb.b)
  {
    var rgb := PixelBytes(image[i], samples, gammas[i]);
    var done := Quantise(image, samples, gammas, i);
    assert Quantise(image, samples, gammas, i + 1) == done + [rgb];
    LinesSnoc(done, rgb);
  }

  /** The file `write_color` writes: the header, then one line per pixel
      in buffer order. `gammas[i]` holds the roots for `image[i]`. */
  method WriteColor(image: seq<Color>, width: int, height: int, samples: int, gammas: seq<Color>)
    returns (text: string)
    requires PixelCount(width, height) <= |image| && PixelCount(width, height) <= |gammas|
    requires forall i :: 0 <= i < PixelCount(width, height) ==> PixelReady(image[i], samples, gammas[i])
    ensures text == Header(width, height) + Lines(Quantise(image, samples, gammas, PixelCount(width, height)))
  {
    var body := WritePixels(image, samples, gammas, PixelCount(width, height));
    text := Header(width, height) + body;
  }

  /** The loop of `write_color`: one line per pixel, in buffer order. */
  method WritePixels(image: seq<Color>, samples: int, gammas: seq<Color>, n: nat) returns (body: string)
    requires n <= |image| && n <= |gammas|
    requires forall i :: 0 <= i < n ==> PixelReady(image[i], samples, gammas[i])
    ensures body == Lines(Quantise(image, samples, gammas, n))
  {
    body := "";
    var i := 0;
    while i < n
      invariant 0 <= i <= n
      invariant body == Lines(Quantise(image, samples, gammas, i))
    {
      var rgb := PixelBytes(image[i], samples, gammas[i]);
      QuantiseStep(image, samples, gammas, i);
      body := body + PixelLine(rgb.r, rgb.g, rgb.b);
      i := i + 1;
    }
  }

  /** Reading the file back gives the dimensions and, for every pixel in
      buffer order, its three bytes, each in [0, 255]. */
  lemma WriteColorReadsBack(image: seq<Color>, width: int, height: int, samples: int, gammas: seq<Color>)
    requires PixelCount(width, height) <= |image| && PixelCount(width, height) <= |gammas|
    requires forall i :: 0 <= i < PixelCount(width, height) ==> PixelReady(image[i], samples, gammas[i])
    ensures var pixels := Quantise(image, samples, gammas, PixelCount(width, height));
      ReadImage(Header(width, height) + Lines(pixels)) == Some((width, height, pixels)) &&
      forall i :: 0 <= i < |pixels| ==>
        0 <= pixels[i].r <= 255 && 0 <= pixels[i].g <= 255 && 0 <= pixels[i].b <= 255
  {
    ImageRoundTrip(width, height, Quantise(image, samples, gammas, PixelCount(width, height)));
  }
}
