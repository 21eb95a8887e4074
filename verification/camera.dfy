/** `camera.hh`: the viewport layout computed by `initialize`, the ray
    through each pixel centre built in `render`, and `ray_color`, which
    shades a scene hit by its normal and a miss by a sky gradient. The same
    layout arithmetic appears in `main` of `main.cc`. */
module Camera {
  import opened Numeric
  import opened Vectors
  import opened Intervals
  import opened Hittable
  import opened HittableList

  /** `image_height`: the width over the aspect ratio, truncated toward
      zero and raised to at least 1. */
  function ImageHeight(width: int, aspectRatio: real): (h: int)
    requires aspectRatio != 0.0
    ensures 1 <= h
    ensures 1.0 <= width as real / aspectRatio ==>
      h as real <= width as real / aspectRatio < h as real + 1.0
    ensures width as real / aspectRatio < 1.0 ==> h == 1
  {
    var h := Trunc(width as real / aspectRatio);
    if h >= 1 then h else 1
  }

  /** The members `initialize` sets, with the viewport vectors and corner
      it computes on the way. */
  datatype Layout = Layout(
    imageWidth: int, imageHeight: int, center: Point3,
    viewportU: Vec3, viewportV: Vec3, upperLeft: Point3,
    du: Vec3, dv: Vec3, pixel00: Point3)

  /** What `initialize` establishes for an image of `width` by `height`
      pixels: the camera at the origin; a viewport two units high whose
      width-to-height ratio is the image's; pixel steps that divide the
      viewport into `width` by `height` cells, right and down; the
      viewport's top-left corner one focal length in front; and the first
      pixel centre half a step inside that corner. */
  predicate IsGrid(c: Layout, width: int, height: int) {
    c.imageWidth == width && c.imageHeight == height &&
    IsViewport(c, width as real, height as real)
  }

  predicate IsViewport(c: Layout, w: real, h: real) {
    c.center == Zero &&
    c.viewportU == Vec3(c.viewportU.x, 0.0, 0.0) &&
    c.viewportU.x * h == 2.0 * w &&
    c.viewportV == Vec3(0.0, -2.0, 0.0) &&
    c.du == Vec3(c.du.x, 0.0, 0.0) && c.du.x * w == c.viewportU.x &&
    c.dv == Vec3(0.0, c.dv.y, 0.0) && c.dv.y * h == -2.0 &&
    c.upperLeft == Vec3(-0.5 * c.viewportU.x, 1.0, -1.0) &&
    c.pixel00 == Vec3(c.upperLeft.x + 0.5 * c.du.x, c.upperLeft.y + 0.5 * c.dv.y, -1.0)
  }

  /** The layout `initialize` computes, with the height given by the
      aspect ratio. */
  predicate IsLayout(c: Layout, width: int, aspectRatio: real)
    requires aspectRatio != 0.0
  {
    IsGrid(c, width, ImageHeight(width, aspectRatio))
  }

  /** `camera::initialize` (and the same lines of `main`). Dividing by the
      width needs it non-zero. */
  function Initialize(width: int, aspectRatio: real): (c: Layout)
    requires aspectRatio != 0.0 && width != 0
    ensures IsLayout(c, width, aspectRatio)
  {
    var h := ImageHeight(width, aspectRatio);
    Viewport(width as real, h as real).(imageWidth := width, imageHeight := h)
  }

  /** The viewport arithmetic of `initialize` once the height is known
      (the image size fields are filled in by the caller). The vectors are
      written component by component: `viewport_u / image_width` is
      (width/w, 0, 0), and the corner `center - (0, 0, focal_length) -
      viewport_u/2 - viewport_v/2` is (-width/2, 1, -focal_length). */
  function Viewport(w: real, h: real): (c: Layout)
    requires w != 0.0 && h != 0.0
    ensures IsViewport(c, w, h)
  {
    var focalLength := 1.0;
    var viewportHeight := 2.0;
    var viewportWidth := viewportHeight * (w / h);
    var dux := viewportWidth / w;
    var dvy := -viewportHeight / h;
    var upperLeft := Vec3(-(viewportWidth / 2.0), viewportHeight / 2.0, -focalLength);
    DivTimes(w, h);
    assert viewportWidth * h == 2.0 * ((w / h) * h);
    DivTimes(viewportWidth, w);
    DivTimes(-2.0, h);
    Layout(0, 0, Vec3(0.0, 0.0, 0.0), Vec3(viewportWidth, 0.0, 0.0), Vec3(0.0, -viewportHeight, 0.0),
           upperLeft, Vec3(dux, 0.0, 0.0), Vec3(0.0, dvy, 0.0),
           Vec3(upperLeft.x + dux / 2.0, upperLeft.y + dvy / 2.0, upperLeft.z))
  }

  lemma DivTimes(a: real, b: real)
    requires b != 0.0
    ensures (a / b) * b == a
  {
  }

  /** `pixel_center = pixel00_loc + i du + j dv`. */
  function PixelCenter(c: Layout, i: int, j: int): Point3 {
    Add(Add(c.pixel00, Scale(i as real, c.du)), Scale(j as real, c.dv))
  }

  /** The ray of pixel (i, j): from the camera centre through the pixel
      centre, which it reaches at t = 1. */
  function PixelRay(c: Layout, i: int, j: int): (r: Ray)
    ensures r.origin == c.center && At(r, 1.0) == PixelCenter(c, i, j)
  {
    Ray(c.center, Sub(PixelCenter(c, i, j), c.center))
  }

  /** The coordinates of a pixel centre: half a step plus i (j) steps from
      the left (top) edge, on the plane one focal length ahead. */
  lemma PixelCenterCoordinates(c: Layout, width: int, aspectRatio: real, i: int, j: int)
    requires aspectRatio != 0.0 && IsLayout(c, width, aspectRatio)
    ensures PixelCenter(c, i, j).x == -0.5 * c.viewportU.x + 0.5 * c.du.x + i as real * c.du.x
    ensures PixelCenter(c, i, j).y == -(-1.0 + 0.5 * -c.dv.y + j as real * -c.dv.y)
    ensures PixelCenter(c, i, j).z == -1.0
  {
    NegMul(j as real, c.dv.y);
  }

  lemma NegMul(j: real, s: real)
    ensures j * -s == -(j * s)
  {
  }

  /** Every pixel centre lies strictly inside the viewport rectangle, on
      the plane one focal length in front of the camera. */
  lemma PixelCentersInViewport(c: Layout, width: int, aspectRatio: real, i: int, j: int)
    requires aspectRatio != 0.0 && 0 < width && IsLayout(c, width, aspectRatio)
    requires 0 <= i < width && 0 <= j < c.imageHeight
    ensures -0.5 * c.viewportU.x < PixelCenter(c, i, j).x < 0.5 * c.viewportU.x
    ensures -1.0 < PixelCenter(c, i, j).y < 1.0
    ensures PixelCenter(c, i, j).z == -1.0
  {
    PixelCenterCoordinates(c, width, aspectRatio, i, j);
    ColumnInside(c.viewportU.x, c.du.x, width as real, c.imageHeight as real, i as real);
    RowInside(c.dv.y, c.imageHeight as real, j as real);
  }

  /** Column k of the grid lies strictly between the viewport's left and
      right edges. */
  lemma ColumnInside(vw: real, dux: real, wr: real, hr: real, k: real)
    requires vw * hr == 2.0 * wr && dux * wr == vw
    requires 0.0 < wr && 0.0 < hr && 0.0 <= k && k + 1.0 <= wr
    ensures -0.5 * vw < -0.5 * vw + 0.5 * dux + k * dux < 0.5 * vw
  {
    PositiveProduct(2.0, wr);
    PositiveFactor(vw, hr);
    PositiveFactor(dux, wr);
    GridPointInside(wr, k, dux, vw);
  }

  /** Row k of the grid lies strictly between the viewport's top and
      bottom edges. */
  lemma RowInside(dvy: real, hr: real, k: real)
    requires dvy * hr == -2.0 && 0.0 < hr && 0.0 <= k && k + 1.0 <= hr
    ensures -1.0 < -(-1.0 + 0.5 * -dvy + k * -dvy) < 1.0
  {
    NegMul(dvy, hr);
    PositiveFactor(-dvy, hr);
    GridPointInside(hr, k, -dvy, 2.0);
  }

  /** The pixel grid is centred: pixel (i, j) and pixel
      (width - 1 - i, height - 1 - j) are mirror images through the
      viewport's centre. */
  lemma PixelGridCentred(c: Layout, width: int, aspectRatio: real, i: int, j: int)
    requires aspectRatio != 0.0 && IsLayout(c, width, aspectRatio)
    ensures PixelCenter(c, i, j).x + PixelCenter(c, width - 1 - i, c.imageHeight - 1 - j).x == 0.0
    ensures PixelCenter(c, i, j).y + PixelCenter(c, width - 1 - i, c.imageHeight - 1 - j).y == 0.0
  {
    var i', j' := width - 1 - i, c.imageHeight - 1 - j;
    var step := -c.dv.y;
    PixelCenterCoordinates(c, width, aspectRatio, i, j);
    PixelCenterCoordinates(c, width, aspectRatio, i', j');
    GridSymmetric(width as real, i as real, c.du.x, c.viewportU.x);
    NegMul(c.dv.y, c.imageHeight as real);
    GridSymmetric(c.imageHeight as real, j as real, step, 2.0);
  }

  /** A factor of a positive product with a positive other factor is
      positive. */
  lemma PositiveFactor(q: real, b: real)
    requires 0.0 < b && 0.0 < q * b
    ensures 0.0 < q
  {
  }

  /** Point k of a grid of n cells of size d spanning [-len/2, len/2] is
      the cell's midpoint, strictly inside the span. */
  lemma GridPointInside(n: real, k: real, d: real, len: real)
    requires 0.0 < d && d * n == len && 0.0 <= k && k + 1.0 <= n
    ensures -0.5 * len < -0.5 * len + 0.5 * d + k * d < 0.5 * len
  {
    MulRight(0.0, k, d);
    MulRight(k + 1.0, n, d);
    GridStep(k * d, (k + 1.0) * d, n * d, d, len);
  }

  lemma MulRight(a: real, b: real, d: real)
    requires a <= b && 0.0 < d
    ensures a * d <= b * d
  {
  }

  lemma GridStep(x: real, y: real, m: real, d: real, len: real)
    requires 0.0 < d && 0.0 <= x && y == x + d && y <= m && m == len
    ensures -0.5 * len < -0.5 * len + 0.5 * d + x < 0.5 * len
  {
  }

  /** Points k and n - 1 - k of such a grid are mirror images. */
  lemma GridSymmetric(n: real, k: real, d: real, len: real)
    requires d * n == len
    ensures (-0.5 * len + 0.5 * d + k * d) + (-0.5 * len + 0.5 * d + (n - 1.0 - k) * d) == 0.0
  {
    Distrib(k, n - 1.0 - k, d);
    Distrib(n, -1.0, d);
    SymmetricStep(k * d, (n - 1.0 - k) * d, (n - 1.0) * d, n * d, d, len);
  }

  lemma Distrib(a: real, b: real, d: real)
    ensures a * d + b * d == (a + b) * d
  {
  }

  lemma SymmetricStep(x: real, y: real, s: real, m: real, d: real, len: real)
    requires x + y == s && s == m + -1.0 * d && m == len
    ensures (-0.5 * len + 0.5 * d + x) + (-0.5 * len + 0.5 * d + y) == 0.0
  {
  }

  /** The rays `render` traces, in the order it writes them: row by row
      from the top, left to right within a row (see `PixelRaysInOrder`). */
  function PixelRays(c: Layout): (rays: seq<Ray>)
    requires 0 < c.imageWidth && 0 < c.imageHeight
    ensures |rays| == c.imageWidth * c.imageHeight
  {
    var w := c.imageWidth;
    seq(w * c.imageHeight, k requires 0 <= k => PixelRay(c, k % w, k / w))
  }

  /** Pixel (i, j) is traced as ray number j * width + i. */
  lemma PixelRaysInOrder(c: Layout, i: int, j: int)
    requires 0 < c.imageWidth && 0 < c.imageHeight
    requires 0 <= i < c.imageWidth && 0 <= j < c.imageHeight
    ensures j * c.imageWidth + i < |PixelRays(c)|
    ensures PixelRays(c)[j * c.imageWidth + i] == PixelRay(c, i, j)
  {
    var w := c.imageWidth;
    RowMajorInRange(j, i, w, c.imageHeight);
    RowMajorDivMod(j, i, w);
  }

  /** Every pixel ray points one focal length forward, so its direction is
      never zero and `unit_vector` is defined on it. */
  lemma PixelRayForward(c: Layout, width: int, aspectRatio: real, i: int, j: int)
    requires aspectRatio != 0.0 && IsLayout(c, width, aspectRatio)
    ensures PixelRay(c, i, j).direction.z == -1.0
    ensures 0.0 < LengthSquared(PixelRay(c, i, j).direction)
  {
    var d := PixelRay(c, i, j).direction;
    assert d.z == -1.0;
    SquareNonNegative(d.x);
    SquareNonNegative(d.y);
  }

  /** The 800-pixel-wide, 16:9 image of `main` is 450 pixels high. */
  lemma MainImageHeight()
    ensures ImageHeight(800, 16.0 / 9.0) == 450
  {
    assert 800 as real / (16.0 / 9.0) == 450.0;
    TruncOfInt(450);
  }

  /** Its viewport is 32/9 wide, with 1/225 between pixel centres. */
  lemma MainViewport(c: Layout)
    requires IsLayout(c, 800, 16.0 / 9.0)
    ensures c.viewportU.x == 32.0 / 9.0
    ensures c.du.x == 1.0 / 225.0 && c.dv.y == -1.0 / 225.0
  {
    MainImageHeight();
    assert c.viewportU.x * 450.0 == 1600.0;
    assert 800.0 * c.du.x == c.viewportU.x;
    assert 450.0 * c.dv.y == -2.0;
  }

  predicate InUnitCube(c: Color) {
    0.0 <= c.x <= 1.0 && 0.0 <= c.y <= 1.0 && 0.0 <= c.z <= 1.0
  }

  /** `0.5 * (normal + color(1, 1, 1))`: the shade encodes the normal, which
      can be read back from it. */
  function NormalShade(n: Vec3): (c: Color)
    ensures Sub(Scale(2.0, c), White) == n
  {
    Scale(0.5, Add(n, White))
  }

  /** A unit normal is shaded inside the colour cube. */
  lemma NormalShadeInUnitCube(n: Vec3)
    requires LengthSquared(n) == 1.0
    ensures InUnitCube(NormalShade(n))
  {
    UnitComponentsBounded(n);
  }

  /** `a = 0.5 * (unit_direction.y() + 1.0)`. */
  function BlendFactor(u: Vec3): real {
    0.5 * (u.y + 1.0)
  }

  /** The background `(1 - a) white + a (0.5, 0.7, 1.0)` for the unit
      direction `u`. */
  function Sky(u: Vec3): (c: Color)
    ensures c.z == 1.0
    ensures c.x == 1.0 - 0.5 * BlendFactor(u) && c.y == 1.0 - 0.3 * BlendFactor(u)
  {
    var a := BlendFactor(u);
    Add(Scale(1.0 - a, White), Scale(a, Vec3(0.5, 0.7, 1.0)))
  }

  /** For a unit direction the blend factor is in [0, 1], so the sky lies
      between white and (0.5, 0.7, 1.0). */
  lemma SkyBounds(u: Vec3)
    requires LengthSquared(u) == 1.0
    ensures 0.0 <= BlendFactor(u) <= 1.0
    ensures 0.5 <= Sky(u).x <= 1.0 && 0.7 <= Sky(u).y <= 1.0
    ensures InUnitCube(Sky(u))
  {
    UnitComponentsBounded(u);
  }

  /** Straight up is (0.5, 0.7, 1.0) and straight down white. */
  lemma SkyEnds(u: Vec3)
    ensures u.y == 1.0 ==> Sky(u) == Vec3(0.5, 0.7, 1.0)
    ensures u.y == -1.0 ==> Sky(u) == White
  {
    var c := Sky(u);
    assert c == Vec3(c.x, c.y, c.z);
  }

  /** The sky only gets bluer as the direction rises. */
  lemma SkyMonotone(u: Vec3, v: Vec3)
    requires u.y <= v.y
    ensures Sky(v).x <= Sky(u).x && Sky(v).y <= Sky(u).y
  {
  }

  /** The range `ray_color` searches: (0, +infinity). */
  const Forward: Interval := Interval(Finite(0.0), PosInf)

  /** `camera::ray_color` for a scene of objects with hit function `hit`.
      `rec` is the uninitialised local record and `temp` the list's
      uninitialised `temp_rec`; `dirLen` is the length of the ray's
      direction, needed only when nothing is hit. */
  function RayColor<O>(world: HittableList<O>, hit: HitFunction<O>, r: Ray, dirLen: real,
                       temp: HitRecord, rec: HitRecord): (c: Color)
    requires !ListHitResult(world, hit, Forward, temp, rec).hit ==> HasLength(r, dirLen)
    ensures var out := ListHitResult(world, hit, Forward, temp, rec);
      (out.hit ==> c == NormalShade(out.rec.normal)) &&
      (!out.hit ==> c == Sky(UnitDirection(r, dirLen)))
  {
    var out := ListHitResult(world, hit, Forward, temp, rec);
    if out.hit then NormalShade(out.rec.normal)
    else Sky(UnitDirection(r, dirLen))
  }

  /** When every object reports unit normals, every pixel colour lies in
      the colour cube. */
  lemma RayColorInUnitCube<O(!new)>(world: HittableList<O>, hit: HitFunction<O>, r: Ray, dirLen: real,
                                    temp: HitRecord, rec: HitRecord)
    requires UnitNormals(hit)
    requires !ListHitResult(world, hit, Forward, temp, rec).hit ==> HasLength(r, dirLen)
    ensures InUnitCube(RayColor(world, hit, r, dirLen, temp, rec))
  {
    var out := ListHitResult(world, hit, Forward, temp, rec);
    ScanKeepsUnitNormal(hit, Forward.min, world.objects, Start(Forward, temp, rec));
    if out.hit {
      NormalShadeInUnitCube(out.rec.normal);
    } else {
      SkyBounds(UnitDirection(r, dirLen));
    }
  }
}
