/** `parallel.hh`: the `image_memory` shared by the render threads. Worker
    threads claim scanlines with `get_render_line` and store pixels with
    `write_pixel`; `get_image` folds the finished pass into a running
    average. The calls are modelled one after another. The mutexes alone
    do not guarantee that: `get_image` updates `iterations` and `linesLeft`
    without a lock, and `copy_image` reads `iterations` before taking one,
    so the model relies on callers invoking `get_image` only after every
    worker of the pass has finished. */
module ImageMemory {
  import opened Numeric
  import opened Vectors

  /** The private members of `image_memory`: `lines` is the render height,
      `rows` the render width, and both buffers hold `lines * rows`
      pixels in row-major order. */
  datatype Memory = Memory(
    lines: int, rows: int, shared: seq<Color>, image: seq<Color>,
    linesLeft: int, iterations: nat)

  predicate Valid(m: Memory) {
    0 <= m.lines && 0 <= m.rows &&
    |m.shared| == m.lines * m.rows && |m.image| == m.lines * m.rows
  }

  /** The constructor. The buffers come from `new color[lines * rows]`;
      `blank` is the colour `vec3`'s default constructor gives each slot. */
  function New(renderWidth: int, renderHeight: int, blank: Color): (m: Memory)
    requires 0 <= renderWidth && 0 <= renderHeight
    ensures Valid(m) && m.lines == renderHeight && m.rows == renderWidth
    ensures m.linesLeft == m.lines && m.iterations == 0
    ensures forall k :: 0 <= k < |m.shared| ==> m.shared[k] == blank && m.image[k] == blank
  {
    NonNegativeProduct(renderHeight, renderWidth);
    var n := renderHeight * renderWidth;
    Memory(renderHeight, renderWidth, seq(n, _ => blank), seq(n, _ => blank), renderHeight, 0)
  }

  lemma NonNegativeProduct(a: int, b: int)
    requires 0 <= a && 0 <= b
    ensures 0 <= a * b
  {
  }

  /** `get_render_line`: `lines - (--linesLeft)`. Each call hands out the
      line after the previous one; nothing else changes. */
  function GetRenderLine(m: Memory): (res: (Memory, int))
    ensures res.0 == m.(linesLeft := m.linesLeft - 1)
    ensures res.1 == m.lines - m.linesLeft + 1
  {
    var left := m.linesLeft - 1;
    (m.(linesLeft := left), m.lines - left)
  }

  /** The lines handed out by `n` successive calls, and the state after
      them. */
  function Claims(m: Memory, n: nat): (res: (Memory, seq<int>))
    ensures |res.1| == n
    decreases n
  {
    if n == 0 then (m, [])
    else
      var (m', previous) := Claims(m, n - 1);
      var (m'', line) := GetRenderLine(m');
      (m'', previous + [line])
  }

  /** Successive calls count the lines handed out: the k-th call (from 0)
      returns the (lines - linesLeft + k + 1)-th line, and `linesLeft`
      has dropped by the number of calls. */
  lemma {:induction false} ClaimsCount(m: Memory, n: nat)
    ensures Claims(m, n).0 == m.(linesLeft := m.linesLeft - n)
    ensures forall k :: 0 <= k < n ==> Claims(m, n).1[k] == m.lines - m.linesLeft + k + 1
  {
    if n > 0 {
      ClaimsCount(m, n - 1);
    }
  }

  /** From a latest pass (`linesLeft == lines`, as after the constructor or
      `get_image`) the calls return 1, 2, ..., lines in order, each line
      once, and every call beyond the last line returns a value above
      `lines`. */
  lemma FreshPassClaimsEachLineOnce(m: Memory, n: nat)
    requires m.linesLeft == m.lines
    ensures forall k :: 0 <= k < n ==> Claims(m, n).1[k] == k + 1
    ensures forall k, k' :: 0 <= k < k' < n ==> Claims(m, n).1[k] < Claims(m, n).1[k']
    ensures forall k :: 0 <= k && m.lines <= k < n ==> Claims(m, n).1[k] > m.lines
    ensures forall line :: 1 <= line <= m.lines && line <= n ==> line in Claims(m, n).1
  {
    ClaimsCount(m, n);
    var lines := Claims(m, n).1;
    forall line | 1 <= line <= m.lines && line <= n
      ensures line in lines
    {
      assert lines[line - 1] == line;
    }
  }

  /** The slot `write_pixel` uses: `(line - 1) * rows + row`. */
  function PixelIndex(line: int, row: int, rows: int): int {
    (line - 1) * rows + row
  }

  /** For 1 <= line <= lines and 0 <= row < rows the index is a slot of
      the buffers, and line and row can be read back from it. */
  lemma PixelIndexInRange(line: int, row: int, rows: int, lines: int)
    requires 1 <= line <= lines && 0 <= row < rows
    ensures 0 <= PixelIndex(line, row, rows) < lines * rows
    ensures PixelIndex(line, row, rows) / rows == line - 1
    ensures PixelIndex(line, row, rows) % rows == row
  {
    RowMajorInRange(line - 1, row, rows, lines);
    RowMajorDivMod(line - 1, row, rows);
  }

  /** Different pixels never share a slot. */
  lemma PixelIndexInjective(line: int, row: int, line': int, row': int, rows: int, lines: int)
    requires 1 <= line <= lines && 0 <= row < rows
    requires 1 <= line' <= lines && 0 <= row' < rows
    requires PixelIndex(line, row, rows) == PixelIndex(line', row', rows)
    ensures line == line' && row == row'
  {
    PixelIndexInRange(line, row, rows, lines);
    PixelIndexInRange(line', row', rows, lines);
  }

  /** `write_pixel`: stores one colour in `shared_storage`, leaving every
      other slot and every other member as it was. */
  function WritePixel(m: Memory, line: int, row: int, c: Color): (m': Memory)
    requires Valid(m) && 1 <= line <= m.lines && 0 <= row < m.rows
    ensures Valid(m') && |m'.shared| == |m.shared|
    ensures 0 <= PixelIndex(line, row, m.rows) < |m'.shared|
    ensures m'.shared[PixelIndex(line, row, m.rows)] == c
    ensures forall k :: 0 <= k < |m.shared| && k != PixelIndex(line, row, m.rows) ==>
      m'.shared[k] == m.shared[k]
    ensures m' == m.(shared := m'.shared)
  {
    PixelIndexInRange(line, row, m.rows, m.lines);
    m.(shared := m.shared[PixelIndex(line, row, m.rows) := c])
  }

  /** A pixel written once and not overwritten is read back. */
  lemma WritePixelOthersSurvive(m: Memory, line: int, row: int, c: Color,
                                line': int, row': int, c': Color)
    requires Valid(m) && 1 <= line <= m.lines && 0 <= row < m.rows
    requires 1 <= line' <= m.lines && 0 <= row' < m.rows
    requires line != line' || row != row'
    ensures WritePixel(WritePixel(m, line, row, c), line', row', c').shared[PixelIndex(line, row, m.rows)] == c
  {
    PixelIndexInRange(line, row, m.rows, m.lines);
    if PixelIndex(line, row, m.rows) == PixelIndex(line', row', m.rows) {
      PixelIndexInjective(line, row, line', row', m.rows, m.lines);
    }
  }

  /** One slot of `copy_image`: `image[i] * (1 - factor) + shared_storage[i] * factor` with
      `factor = 1 / (iterations + 1)`. Scaled back by iterations + 1 it is
      the previous value counted `iterations` times plus the latest one. */
  function Mix(prev: Color, latest: Color, iterations: nat): (c: Color)
    ensures Scale(iterations as real + 1.0, c) == Add(Scale(iterations as real, prev), latest)
  {
    var n := iterations as real;
    var factor := 1.0 / (n + 1.0);
    MixComponent(prev.x, latest.x, n);
    MixComponent(prev.y, latest.y, n);
    MixComponent(prev.z, latest.z, n);
    Add(Scale(1.0 - factor, prev), Scale(factor, latest))
  }

  lemma MixComponent(a: real, b: real, n: real)
    requires 0.0 <= n
    ensures (n + 1.0) * ((1.0 - 1.0 / (n + 1.0)) * a + (1.0 / (n + 1.0)) * b) == n * a + b
  {
    var f := 1.0 / (n + 1.0);
    assert (n + 1.0) * f == 1.0;
    assert (n + 1.0) * (1.0 - f) == n;
    calc {
      (n + 1.0) * ((1.0 - f) * a + f * b);
      ((n + 1.0) * (1.0 - f)) * a + ((n + 1.0) * f) * b;
      n * a + b;
    }
  }

  /** The image after `copy_image`, slot by slot. */
  function Merge(image: seq<Color>, shared: seq<Color>, iterations: nat): (merged: seq<Color>)
    requires |image| == |shared|
    ensures |merged| == |image|
    ensures forall k :: 0 <= k < |merged| ==>
      Scale(iterations as real + 1.0, merged[k]) == Add(Scale(iterations as real, image[k]), shared[k])
  {
    seq(|image|, k requires 0 <= k < |image| => Mix(image[k], shared[k], iterations))
  }

  /** `copy_image`: the loop over all `lines * rows` slots. */
  method CopyImage(m: Memory) returns (m': Memory)
    requires Valid(m)
    ensures m' == m.(image := Merge(m.image, m.shared, m.iterations))
  {
    var image := m.image;
    var i := 0;
    while i < m.lines * m.rows
      invariant 0 <= i <= m.lines * m.rows == |image|
      invariant forall k :: 0 <= k < i ==> image[k] == Mix(m.image[k], m.shared[k], m.iterations)
      invariant forall k :: i <= k < |image| ==> image[k] == m.image[k]
    {
      image := image[i := Mix(image[i], m.shared[i], m.iterations)];
      i := i + 1;
    }
    m' := m.(image := image);
  }

  /** On the first pass the factor is 1, so the image becomes a copy of
      `shared_storage` whatever it held before. */
  lemma FirstPassCopies(image: seq<Color>, shared: seq<Color>)
    requires |image| == |shared|
    ensures Merge(image, shared, 0) == shared
  {
    var merged := Merge(image, shared, 0);
    forall k | 0 <= k < |merged|
      ensures merged[k] == shared[k]
    {
      assert Scale(1.0, merged[k]) == Add(Scale(0.0, image[k]), shared[k]);
    }
  }

  /** `get_image`: merge the pass, count it, and reopen every line for
      the next pass. `shared_storage` is left alone; the image is
      returned. */
  function GetImage(m: Memory): (res: (Memory, seq<Color>))
    requires Valid(m)
    ensures Valid(res.0) && res.1 == res.0.image
    ensures res.0.iterations == m.iterations + 1 && res.0.linesLeft == m.lines
    ensures res.0.shared == m.shared && res.0.lines == m.lines && res.0.rows == m.rows
    ensures forall k :: 0 <= k < |res.1| ==>
      Scale(res.0.iterations as real, res.1[k]) == Add(Scale(m.iterations as real, m.image[k]), m.shared[k])
  {
    var m' := m.(image := Merge(m.image, m.shared, m.iterations));
    var m'' := m'.(iterations := m.iterations + 1, linesLeft := m.lines);
    (m'', m''.image)
  }

  /** The component-wise sum of slot `k` over a list of finished passes. */
  function SlotSum(passes: seq<seq<Color>>, k: nat): Color
    requires forall p :: 0 <= p < |passes| ==> k < |passes[p]|
  {
    if passes == [] then Zero
    else Add(SlotSum(passes[..|passes| - 1], k), passes[|passes| - 1][k])
  }

  /** Each pass ends with the workers having filled `shared_storage` with
      `snapshot`, after which `get_image` is called. */
  function Passes(m: Memory, snapshots: seq<seq<Color>>): (m': Memory)
    requires Valid(m)
    requires forall p :: 0 <= p < |snapshots| ==> |snapshots[p]| == m.lines * m.rows
    ensures Valid(m') && m'.lines == m.lines && m'.rows == m.rows
    ensures m'.iterations == m.iterations + |snapshots|
  {
    if snapshots == [] then m
    else
      var before := Passes(m, snapshots[..|snapshots| - 1]);
      GetImage(before.(shared := snapshots[|snapshots| - 1])).0
  }

  /** The running average is exact: starting from no passes, after `n`
      calls of `get_image` every slot of the image is the mean of that
      slot over the `n` snapshots (n times it is their sum). */
  lemma {:induction false} PassesAverage(m: Memory, snapshots: seq<seq<Color>>)
    requires Valid(m) && m.iterations == 0
    requires forall p :: 0 <= p < |snapshots| ==> |snapshots[p]| == m.lines * m.rows
    ensures forall k :: 0 <= k < |Passes(m, snapshots).image| ==>
      Scale(|snapshots| as real, Passes(m, snapshots).image[k]) == SlotSum(snapshots, k)
  {
    if snapshots != [] {
      var init := snapshots[..|snapshots| - 1];
      var last := snapshots[|snapshots| - 1];
      var before := Passes(m, init);
      PassesAverage(m, init);
      var after := Passes(m, snapshots);
      forall k | 0 <= k < |after.image|
        ensures Scale(|snapshots| as real, after.image[k]) == SlotSum(snapshots, k)
      {
        assert |init| as real == before.iterations as real;
        assert Scale(|init| as real, before.image[k]) == SlotSum(init, k);
        assert SlotSum(snapshots, k) == Add(SlotSum(init, k), last[k]);
      }
    }
  }

  /** The image after n >= 1 passes is the mean of the snapshots. */
  lemma PassesMean(m: Memory, snapshots: seq<seq<Color>>, k: int)
    requires Valid(m) && m.iterations == 0 && snapshots != []
    requires forall p :: 0 <= p < |snapshots| ==> |snapshots[p]| == m.lines * m.rows
    requires 0 <= k < m.lines * m.rows
    ensures Passes(m, snapshots).image[k] == Scale(1.0 / |snapshots| as real, SlotSum(snapshots, k))
  {
    PassesAverage(m, snapshots);
    var n := |snapshots| as real;
    var c := Passes(m, snapshots).image[k];
    assert Scale(n, c) == SlotSum(snapshots, k);
    ScaleInverse(n, c);
  }

  lemma ScaleInverse(n: real, c: Vec3)
    requires 0.0 < n
    ensures Scale(1.0 / n, Scale(n, c)) == c
  {
    assert (1.0 / n) * n == 1.0;
    assert (1.0 / n) * (n * c.x) == ((1.0 / n) * n) * c.x;
    assert (1.0 / n) * (n * c.y) == ((1.0 / n) * n) * c.y;
    assert (1.0 / n) * (n * c.z) == ((1.0 / n) * n) * c.z;
  }
}
