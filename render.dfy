/** One frame of the renderer, specified on values: the zoomed region, the
    sample point of each pixel block, the colour chosen for it and the
    bounds-checked write of that colour into a `step` x `step` block of the
    flat, row-major pixel buffer. */
module Render {
  import opened Colour
  import opened Escape

  /** The fixed logical plane the buffer is mapped onto. */
  const XMin: real := -2.0
  const XMax: real := 2.0
  const YMin: real := -1.5
  const YMax: real := 1.5

  /** The focus point the animation zooms toward. */
  const Px: real := -0.7746806106269039
  const Py: real := -0.1374168856037867

  /** The zoomed region: corner `(left, top)` and size `width` x `height`. */
  datatype Region = Region(left: real, top: real, width: real, height: real)

  /** `RX1`, `RY1`, `dRx`, `dRy` as the renderer computes them: a square of
      side `zoom` centred on the focus point. */
  function ZoomRegion(zoom: real): (r: Region)
    ensures r.width == zoom && r.height == zoom
    ensures r.left + r.width / 2.0 == Px && r.top + r.height / 2.0 == Py
  {
    var rx1 := Px - zoom / 2.0;
    var ry1 := Py - zoom / 2.0;
    Region(rx1, ry1, Px + zoom / 2.0 - rx1, Py + zoom / 2.0 - ry1)
  }

  /** The block size: one pixel per sample in high resolution, 4 x 4 otherwise. */
  function PixelStep(highResolution: bool): int
  {
    if highResolution then 1 else 4
  }

  /** What one frame depends on: the animation state it is drawn with, the
      buffer's dimensions and the block size. */
  datatype View = View(zoom: real, maxIterations: int, width: int, height: int, step: int)

  predicate ValidView(v: View)
  {
    v.width > 0 && v.height > 0 && v.step > 0
  }

  /** The plane distance between neighbouring blocks' sample points: the
      plane's span over the image's pixels, times the block size. It is
      positive, so each sweep moves toward its bound. */
  function XStep(v: View): (d: real)
    requires ValidView(v)
    ensures d > 0.0
  {
    (XMax - XMin) / v.width as real * v.step as real
  }

  function YStep(v: View): (d: real)
    requires ValidView(v)
    ensures d > 0.0
  {
    (YMax - YMin) / v.height as real * v.step as real
  }

  /** The number of blocks of size `step` that cover `n` pixels: the trip
      count of the renderer's row (column) loop in exact arithmetic. */
  function BlockCount(n: int, step: int): nat
    requires step > 0
    decreases n
  {
    if n <= 0 then 0 else 1 + BlockCount(n - step, step)
  }

  /** The pixel coordinate of block `k`: `k` advances of `step` from 0. */
  function Pixel(k: nat, step: int): int
  {
    if k == 0 then 0 else Pixel(k - 1, step) + step
  }

  /** The plane coordinate of block `k`: `k` advances of `d` from `lo`. */
  function Sample(lo: real, k: nat, d: real): real
  {
    if k == 0 then lo else Sample(lo, k - 1, d) + d
  }

  lemma {:induction false} PixelLinear(k: nat, step: int)
    ensures Pixel(k, step) == k * step
  {
    if k > 0 {
      PixelLinear(k - 1, step);
      assert (k - 1) * step + step == k * step;
    }
  }

  lemma {:induction false} SampleLinear(lo: real, k: nat, d: real)
    ensures Sample(lo, k, d) == lo + k as real * d
  {
    if k > 0 {
      SampleLinear(lo, k - 1, d);
      assert (k - 1) as real * d + d == k as real * d;
    }
  }

  /** The sample point of block (`row`, `col`): the plane point
      `(XMin + col * xStep, YMin + row * yStep)` mapped into the zoomed region. */
  function BlockPoint(v: View, row: nat, col: nat): Complex
    requires ValidView(v)
  {
    var reg := ZoomRegion(v.zoom);
    var x := Sample(XMin, col, XStep(v));
    var y := Sample(YMin, row, YStep(v));
    Complex(x * reg.width + reg.left, y * reg.height + reg.top)
  }

  /** Where the sample points fall: every block inside the image samples a
      point of `[left + XMin * zoom, left + XMax * zoom) x [top + YMin * zoom,
      top + YMax * zoom)`. That rectangle is 4 x 3 times the zoomed region
      and is centred on the region's corner `(RX1, RY1)`, half a zoom away
      from the focus point in each direction. */
  lemma BlockPointSpan(v: View, row: nat, col: nat)
    requires ValidView(v) && v.zoom > 0.0
    requires Pixel(col, v.step) < v.width && Pixel(row, v.step) < v.height
    ensures var reg, p := ZoomRegion(v.zoom), BlockPoint(v, row, col);
      && reg.left + XMin * v.zoom <= p.re < reg.left + XMax * v.zoom
      && reg.top + YMin * v.zoom <= p.im < reg.top + YMax * v.zoom
  {
    ColumnSpan(v, row, col);
    RowSpan(v, row, col);
  }

  lemma ColumnSpan(v: View, row: nat, col: nat)
    requires ValidView(v) && v.zoom > 0.0 && Pixel(col, v.step) < v.width
    ensures var left := ZoomRegion(v.zoom).left;
      left + XMin * v.zoom <= BlockPoint(v, row, col).re < left + XMax * v.zoom
  {
    var x := Sample(XMin, col, XStep(v));
    BlockPointParts(v, row, col);
    SweepColumns(v, col);
    SampleAtLeast(XMin, col, XStep(v));
    MapInto(XMin, XMax, x, v.zoom, ZoomRegion(v.zoom).left, BlockPoint(v, row, col).re);
  }

  lemma RowSpan(v: View, row: nat, col: nat)
    requires ValidView(v) && v.zoom > 0.0 && Pixel(row, v.step) < v.height
    ensures var top := ZoomRegion(v.zoom).top;
      top + YMin * v.zoom <= BlockPoint(v, row, col).im < top + YMax * v.zoom
  {
    var y := Sample(YMin, row, YStep(v));
    BlockPointParts(v, row, col);
    SweepRows(v, row);
    SampleAtLeast(YMin, row, YStep(v));
    MapInto(YMin, YMax, y, v.zoom, ZoomRegion(v.zoom).top, BlockPoint(v, row, col).im);
  }

  lemma BlockPointParts(v: View, row: nat, col: nat)
    requires ValidView(v)
    ensures BlockPoint(v, row, col).re == Sample(XMin, col, XStep(v)) * v.zoom + ZoomRegion(v.zoom).left
    ensures BlockPoint(v, row, col).im == Sample(YMin, row, YStep(v)) * v.zoom + ZoomRegion(v.zoom).top
  {
  }

  lemma {:induction false} SampleAtLeast(lo: real, k: nat, d: real)
    requires d >= 0.0
    ensures Sample(lo, k, d) >= lo
  {
    if k > 0 {
      SampleAtLeast(lo, k - 1, d);
    }
  }

  /** `r = x * q + corner` keeps `x`'s place between `lo` and `hi` when `q > 0`. */
  lemma MapInto(lo: real, hi: real, x: real, q: real, corner: real, r: real)
    requires lo <= x < hi && q > 0.0 && r == x * q + corner
    ensures corner + lo * q <= r < corner + hi * q
  {
    ScaleLess(x, hi, q);
    ScaleLess(x, lo, q);
  }

  /** The region and the steps as `RenderImage` computes them are
      `ZoomRegion` and `XStep`, `YStep` of its view. */
  lemma FrameSetup(v: View, rx1: real, ry1: real, dRx: real, dRy: real, xStep: real, yStep: real)
    requires ValidView(v)
    requires rx1 == Px - v.zoom / 2.0 && ry1 == Py - v.zoom / 2.0
    requires dRx == Px + v.zoom / 2.0 - rx1 && dRy == Py + v.zoom / 2.0 - ry1
    requires xStep == (XMax - XMin) / v.width as real * v.step as real
    requires yStep == (YMax - YMin) / v.height as real * v.step as real
    ensures xStep == XStep(v) && yStep == YStep(v)
    ensures rx1 == ZoomRegion(v.zoom).left && dRx == ZoomRegion(v.zoom).width
    ensures ry1 == ZoomRegion(v.zoom).top && dRy == ZoomRegion(v.zoom).height
  {
  }

  /** The imaginary part of a row's sample points, from the row loop's
      running coordinate `y` and the region's height and top. */
  lemma RowStart(v: View, row: nat, y: real, yStep: real, dRy: real, ry1: real)
    requires ValidView(v) && yStep == YStep(v) && y == Sample(YMin, row, yStep)
    requires dRy == ZoomRegion(v.zoom).height && ry1 == ZoomRegion(v.zoom).top
    ensures y * dRy + ry1 == BlockPoint(v, row, 0).im
  {
  }

  /** The sample point of block (`row`, `col`), from the column loop's
      running coordinate `x`, the region's width and left edge and the
      row's imaginary part `y0`. */
  lemma BlockStart(v: View, row: nat, col: nat, x: real, xStep: real, dRx: real, rx1: real, y0: real)
    requires ValidView(v) && xStep == XStep(v) && x == Sample(XMin, col, xStep)
    requires dRx == ZoomRegion(v.zoom).width && rx1 == ZoomRegion(v.zoom).left
    requires y0 == BlockPoint(v, row, 0).im
    ensures Complex(x * dRx + rx1, y0) == BlockPoint(v, row, col)
  {
  }

  /** The colour of iteration count `n`: its palette entry when `n` is in
      range, the opaque-black sentinel otherwise. */
  function ChooseColour(palette: seq<Packed>, n: int): (c: Packed)
    requires 0 <= n
    ensures n < |palette| ==> c == palette[n]
    ensures |palette| <= n ==> c == Black
  {
    if n < |palette| then palette[n] else Black
  }

  /** The colour a frame gives block (`row`, `col`). */
  function BlockColour(palette: seq<Packed>, v: View, row: nat, col: nat): Packed
    requires ValidView(v)
  {
    ChooseColour(palette, EscapeTime(BlockPoint(v, row, col), v.maxIterations))
  }

  /** The buffer index of offset (`pX`, `pY`) in the block at (`xPix`, `yPix`). */
  function BlockIndex(width: int, xPix: int, yPix: int, pX: int, pY: int): int
  {
    (yPix + pY) * width + xPix + pX
  }

  /** `p` is written by the first `cols` columns of offsets of the block. */
  ghost predicate InColumns(p: int, width: int, xPix: int, yPix: int, step: int, cols: int)
  {
    exists pX, pY :: 0 <= pX < cols && 0 <= pY < step && p == BlockIndex(width, xPix, yPix, pX, pY)
  }

  /** `p` is written by the first `rows` offsets of column `pX` of the block. */
  ghost predicate InColumn(p: int, width: int, xPix: int, yPix: int, pX: int, rows: int)
  {
    exists pY :: 0 <= pY < rows && p == BlockIndex(width, xPix, yPix, pX, pY)
  }

  /** `p` is one of the indices the block at (`xPix`, `yPix`) writes. */
  ghost predicate InBlock(p: int, width: int, xPix: int, yPix: int, step: int)
  {
    InColumns(p, width, xPix, yPix, step, step)
  }

  /** `s` after the block at (`xPix`, `yPix`) is filled with `colour`:
      exactly its in-range indices change. */
  ghost function Filled(s: seq<Packed>, width: int, xPix: int, yPix: int, step: int, colour: Packed): seq<Packed>
  {
    seq(|s|, p requires 0 <= p < |s| => if InBlock(p, width, xPix, yPix, step) then colour else s[p])
  }

  lemma NextColumn(p: int, width: int, xPix: int, yPix: int, step: int, pX: int)
    requires 0 <= pX
    ensures InColumns(p, width, xPix, yPix, step, pX + 1)
      <==> InColumns(p, width, xPix, yPix, step, pX) || InColumn(p, width, xPix, yPix, pX, step)
  {
    if InColumns(p, width, xPix, yPix, step, pX + 1) {
      var qX, qY :| 0 <= qX < pX + 1 && 0 <= qY < step && p == BlockIndex(width, xPix, yPix, qX, qY);
      if qX == pX {
        assert InColumn(p, width, xPix, yPix, pX, step);
      } else {
        assert InColumns(p, width, xPix, yPix, step, pX);
      }
    }
    if InColumn(p, width, xPix, yPix, pX, step) {
      var qY :| 0 <= qY < step && p == BlockIndex(width, xPix, yPix, pX, qY);
      assert InColumns(p, width, xPix, yPix, step, pX + 1);
    }
  }

  lemma NextOffset(p: int, width: int, xPix: int, yPix: int, pX: int, pY: int)
    requires 0 <= pY
    ensures InColumn(p, width, xPix, yPix, pX, pY + 1)
      <==> InColumn(p, width, xPix, yPix, pX, pY) || p == BlockIndex(width, xPix, yPix, pX, pY)
  {
    if InColumn(p, width, xPix, yPix, pX, pY + 1) {
      var qY :| 0 <= qY < pY + 1 && p == BlockIndex(width, xPix, yPix, pX, qY);
      if qY < pY {
        assert InColumn(p, width, xPix, yPix, pX, pY);
      }
    }
  }

  /** The block write of the renderer: offsets column by column, each write
      dropped when its index is past the end of the buffer. */
  method FillBlock(data: array<Packed>, width: int, xPix: int, yPix: int, step: int, colour: Packed)
    requires 0 <= width && 0 <= xPix && 0 <= yPix
    modifies data
    ensures data[..] == Filled(old(data[..]), width, xPix, yPix, step, colour)
  {
    var pX := 0;
    while pX < step
      invariant 0 <= pX && (pX <= step || step <= 0)
      invariant forall p :: 0 <= p < data.Length ==>
        data[p] == if InColumns(p, width, xPix, yPix, step, pX) then colour else old(data[p])
      decreases step - pX
    {
      var pY := 0;
      while pY < step
        invariant 0 <= pY <= step
        invariant forall p :: 0 <= p < data.Length ==>
          data[p] == if InColumns(p, width, xPix, yPix, step, pX) || InColumn(p, width, xPix, yPix, pX, pY)
                     then colour else old(data[p])
        decreases step - pY
      {
        var p := (yPix + pY) * width + xPix + pX;
        if p < data.Length {
          data[p] := colour;
        }
        forall q | 0 <= q < data.Length
          ensures InColumn(q, width, xPix, yPix, pX, pY + 1)
            <==> InColumn(q, width, xPix, yPix, pX, pY) || q == p
        {
          NextOffset(q, width, xPix, yPix, pX, pY);
        }
        pY := pY + 1;
      }
      forall q | 0 <= q < data.Length
        ensures InColumns(q, width, xPix, yPix, step, pX + 1)
          <==> InColumns(q, width, xPix, yPix, step, pX) || InColumn(q, width, xPix, yPix, pX, step)
      {
        NextColumn(q, width, xPix, yPix, step, pX);
      }
      pX := pX + 1;
    }
    assert step <= 0 ==> forall q :: !InColumns(q, width, xPix, yPix, step, pX);
  }

  /** Row `row` of blocks after its first `cols` blocks are filled, left to right. */
  ghost function PaintRow(s: seq<Packed>, palette: seq<Packed>, v: View, row: nat, cols: nat): (t: seq<Packed>)
    requires ValidView(v)
    ensures |t| == |s|
  {
    if cols == 0 then s
    else
      var t := PaintRow(s, palette, v, row, cols - 1);
      Filled(t, v.width, Pixel(cols - 1, v.step), Pixel(row, v.step), v.step, BlockColour(palette, v, row, cols - 1))
  }

  /** The buffer after the first `rows` rows of `cols` blocks are filled, top
      to bottom: one whole frame when `rows` and `cols` are the loop trip counts. */
  ghost function PaintFrame(s: seq<Packed>, palette: seq<Packed>, v: View, rows: nat, cols: nat): (t: seq<Packed>)
    requires ValidView(v)
    ensures |t| == |s|
  {
    if rows == 0 then s
    else PaintRow(PaintFrame(s, palette, v, rows - 1, cols), palette, v, rows - 1, cols)
  }

  lemma {:induction false} BlockCountAligned(k: nat, step: int)
    requires step > 0
    ensures BlockCount(k * step, step) == k
  {
    if k > 0 {
      assert k * step - step == (k - 1) * step;
      BlockCountAligned(k - 1, step);
    }
  }

  /** `BlockCount(n, step)` blocks cover `n` pixels, and one fewer would not. */
  lemma {:induction false} BlockCountCovers(n: int, step: int)
    requires step > 0 && n > 0
    ensures (BlockCount(n, step) - 1) * step < n <= BlockCount(n, step) * step
    decreases n
  {
    if n - step > 0 {
      BlockCountCovers(n - step, step);
    }
  }

  /** The renderer's loop test on a sample coordinate, `lo + k * (hi - lo) /
      n * step < hi`, holds exactly while the pixel coordinate `k * step` is
      inside `0 .. n - 1`. */
  lemma SweepContinues(lo: real, hi: real, n: int, step: int, k: nat, d: real)
    requires lo < hi && n > 0 && step > 0 && d == (hi - lo) / n as real * step as real
    ensures Sample(lo, k, d) < hi <==> Pixel(k, step) < n
  {
    var q := (hi - lo) / n as real;
    var x := k as real * step as real;
    SampleLinear(lo, k, d);
    PixelAsReal(k, step);
    Regroup(k as real, step as real, q);
    BelowBound(lo, hi, n as real, q, x);
  }

  /** `Pixel` read as a real: `k * step`. */
  lemma {:induction false} PixelAsReal(k: nat, step: int)
    ensures Pixel(k, step) as real == k as real * step as real
  {
    if k > 0 {
      PixelAsReal(k - 1, step);
      assert (k - 1) as real * step as real + step as real == k as real * step as real;
    }
  }

  lemma Regroup(a: real, b: real, q: real)
    ensures a * (b * q) == (a * b) * q
  {
  }

  /** With `hi = lo + n * q` and `q > 0`, `lo + x * q < hi` exactly when `x < n`. */
  lemma BelowBound(lo: real, hi: real, n: real, q: real, x: real)
    requires n > 0.0 && q == (hi - lo) / n && lo < hi
    ensures lo + x * q < hi <==> x < n
  {
    assert q > 0.0;
    assert n * q == hi - lo;
    ScaleLess(x, n, q);
  }

  /** The column loop runs while the block's pixel column is inside the row. */
  lemma SweepColumns(v: View, k: nat)
    requires ValidView(v)
    ensures Sample(XMin, k, XStep(v)) < XMax <==> Pixel(k, v.step) < v.width
  {
    SweepContinues(XMin, XMax, v.width, v.step, k, XStep(v));
  }

  /** The row loop runs while the block's pixel row is inside the image. */
  lemma SweepRows(v: View, k: nat)
    requires ValidView(v)
    ensures Sample(YMin, k, YStep(v)) < YMax <==> Pixel(k, v.step) < v.height
  {
    SweepContinues(YMin, YMax, v.height, v.step, k, YStep(v));
  }

  lemma ScaleLess(a: real, b: real, q: real)
    requires q > 0.0
    ensures a * q < b * q <==> a < b
  {
    if a < b {
      assert b * q - a * q == (b - a) * q;
    } else {
      assert a * q - b * q == (a - b) * q;
    }
  }

  /** A row-major position with `b` and `b'` below `w` determines its row and column. */
  lemma RowMajorUnique(a: int, b: int, a': int, b': int, w: int)
    requires 0 <= b < w && 0 <= b' < w
    requires a * w + b == a' * w + b'
    ensures a == a' && b == b'
  {
    if a < a' {
      RowsApart(a, a' - a, w);
    } else if a' < a {
      RowsApart(a', a - a', w);
    }
  }

  lemma RowsApart(a: int, d: int, w: int)
    requires d >= 1 && w > 0
    ensures (a + d) * w >= a * w + w
  {
    assert (a + d) * w == a * w + d * w;
    assert d * w >= w;
  }

  /** In a frame whose width is a whole number of blocks, each pixel of the
      block area lies in exactly one block. */
  lemma BlocksDisjoint(cols: nat, step: int, r: nat, c: nat, i: int, j: int, r': nat, c': nat)
    requires step > 0 && c < cols && c' < cols
    requires 0 <= i < step && 0 <= j < step
    requires InBlock(BlockIndex(cols * step, c * step, r * step, j, i), cols * step, c' * step, r' * step, step)
    ensures r == r' && c == c'
  {
    var w := cols * step;
    var j', i' :| 0 <= j' < step && 0 <= i' < step
      && BlockIndex(w, c * step, r * step, j, i) == BlockIndex(w, c' * step, r' * step, j', i');
    SameOffset(cols, step, r, c, i, j, r', c', i', j');
  }

  lemma SameOffset(cols: nat, step: int, r: nat, c: nat, i: int, j: int, r': nat, c': nat, i': int, j': int)
    requires step > 0 && c < cols && c' < cols
    requires 0 <= i < step && 0 <= j < step && 0 <= i' < step && 0 <= j' < step
    requires BlockIndex(cols * step, c * step, r * step, j, i) == BlockIndex(cols * step, c' * step, r' * step, j', i')
    ensures r == r' && c == c'
  {
    var w := cols * step;
    InsideRow(cols, step, c, j);
    InsideRow(cols, step, c', j');
    RowMajorUnique(r * step + i, c * step + j, r' * step + i', c' * step + j', w);
    RowMajorUnique(r, i, r', i', step);
    RowMajorUnique(c, j, c', j', step);
  }

  lemma InsideRow(cols: nat, step: int, c: nat, j: int)
    requires step > 0 && c < cols && 0 <= j < step
    ensures 0 <= c * step + j < cols * step
  {
    RowsApart(c, cols - c, step);
  }

  /** `BlocksDisjoint` for block corners written as `Pixel`s. */
  lemma PixelBlocksDisjoint(cols: nat, step: int, r: nat, c: nat, i: int, j: int, r': nat, c': nat)
    requires step > 0 && c < cols && c' < cols
    requires 0 <= i < step && 0 <= j < step
    requires InBlock(BlockIndex(cols * step, Pixel(c, step), Pixel(r, step), j, i), cols * step, Pixel(c', step), Pixel(r', step), step)
    ensures r == r' && c == c'
  {
    PixelLinear(c, step);
    PixelLinear(r, step);
    PixelLinear(c', step);
    PixelLinear(r', step);
    BlocksDisjoint(cols, step, r, c, i, j, r', c');
  }

  lemma InOwnBlock(width: int, xPix: int, yPix: int, step: int, i: int, j: int)
    requires 0 <= i < step && 0 <= j < step
    ensures InBlock(BlockIndex(width, xPix, yPix, j, i), width, xPix, yPix, step)
  {
  }

  /** `p` is written by block (`row`, `col`) of frame `v`. */
  ghost predicate InBlockAt(p: int, v: View, row: nat, col: nat)
  {
    InBlock(p, v.width, Pixel(col, v.step), Pixel(row, v.step), v.step)
  }

  lemma {:induction false} PaintRowElsewhere(t: seq<Packed>, palette: seq<Packed>, v: View, row: nat, k: nat, p: int)
    requires ValidView(v) && 0 <= p < |t|
    requires forall c :: 0 <= c < k ==> !InBlockAt(p, v, row, c)
    ensures PaintRow(t, palette, v, row, k)[p] == t[p]
  {
    if k > 0 {
      assert !InBlockAt(p, v, row, k - 1);
      PaintRowElsewhere(t, palette, v, row, k - 1, p);
    }
  }

  lemma {:induction false} PaintRowAt(t: seq<Packed>, palette: seq<Packed>, v: View, row: nat, cols: nat, k: nat, c: nat, i: int, j: int)
    requires ValidView(v) && v.width == cols * v.step
    requires c < k <= cols && 0 <= i < v.step && 0 <= j < v.step
    requires 0 <= BlockIndex(v.width, Pixel(c, v.step), Pixel(row, v.step), j, i) < |t|
    ensures PaintRow(t, palette, v, row, k)[BlockIndex(v.width, Pixel(c, v.step), Pixel(row, v.step), j, i)]
      == BlockColour(palette, v, row, c)
  {
    var p := BlockIndex(v.width, Pixel(c, v.step), Pixel(row, v.step), j, i);
    if k - 1 == c {
      InOwnBlock(v.width, Pixel(c, v.step), Pixel(row, v.step), v.step, i, j);
    } else {
      if InBlockAt(p, v, row, k - 1) {
        PixelBlocksDisjoint(cols, v.step, row, c, i, j, row, k - 1);
      }
      PaintRowAt(t, palette, v, row, cols, k - 1, c, i, j);
    }
  }

  /** In a frame whose width is a whole number `cols` of blocks, every pixel
      of block (`r`, `c`) that is inside the buffer ends with that block's
      colour: the block at the sample point's escape count, and no other
      block's write reaches it. */
  lemma {:induction false} PaintFrameAt(s: seq<Packed>, palette: seq<Packed>, v: View, rows: nat, cols: nat, r: nat, c: nat, i: int, j: int)
    requires ValidView(v) && v.width == cols * v.step
    requires r < rows && c < cols && 0 <= i < v.step && 0 <= j < v.step
    requires 0 <= BlockIndex(v.width, Pixel(c, v.step), Pixel(r, v.step), j, i) < |s|
    ensures PaintFrame(s, palette, v, rows, cols)[BlockIndex(v.width, Pixel(c, v.step), Pixel(r, v.step), j, i)]
      == BlockColour(palette, v, r, c)
  {
    var p := BlockIndex(v.width, Pixel(c, v.step), Pixel(r, v.step), j, i);
    var prev := PaintFrame(s, palette, v, rows - 1, cols);
    if rows - 1 == r {
      PaintRowAt(prev, palette, v, r, cols, cols, c, i, j);
    } else {
      var last := rows - 1;
      forall c' | 0 <= c' < cols
        ensures !InBlockAt(p, v, last, c')
      {
        if InBlockAt(p, v, last, c') {
          PixelBlocksDisjoint(cols, v.step, r, c, i, j, last, c');
        }
      }
      PaintRowElsewhere(prev, palette, v, last, cols, p);
      PaintFrameAt(s, palette, v, rows - 1, cols, r, c, i, j);
    }
  }

  /** High resolution: pixel `p` of the `width` x `height` image gets the
      colour of its own sample point, row `p / width`, column `p % width`. */
  lemma HighResolutionPixel(s: seq<Packed>, palette: seq<Packed>, v: View, p: int)
    requires ValidView(v) && v.step == 1
    requires 0 <= p < |s| && p < v.width * v.height
    ensures PaintFrame(s, palette, v, BlockCount(v.height, 1), BlockCount(v.width, 1))[p]
      == BlockColour(palette, v, p / v.width, p % v.width)
  {
    BlockCountAligned(v.height, 1);
    BlockCountAligned(v.width, 1);
    PixelPosition(p, v.width, v.height);
    PixelLinear(p / v.width, 1);
    PixelLinear(p % v.width, 1);
    PaintFrameAt(s, palette, v, v.height, v.width, p / v.width, p % v.width, 0, 0);
  }

  lemma PixelPosition(p: int, w: int, h: int)
    requires w > 0 && 0 <= p < w * h
    ensures 0 <= p / w < h && 0 <= p % w < w
    ensures p == BlockIndex(w, (p % w) * 1, (p / w) * 1, 0, 0)
    ensures h * 1 == h && w * 1 == w
  {
    var r, c := p / w, p % w;
    assert p == r * w + c;
    if r >= h {
      RowsApart(h, r - h + 1, w);
    }
  }

  /** Low resolution with a width that is a multiple of 4: the 4 x 4 block at
      block row `r`, block column `c` is painted in one colour. */
  lemma LowResolutionBlock(s: seq<Packed>, palette: seq<Packed>, v: View, cols: nat, r: nat, c: nat, i: int, j: int)
    requires ValidView(v) && v.step == 4 && v.width == cols * 4
    requires r < BlockCount(v.height, 4) && c < cols && 0 <= i < 4 && 0 <= j < 4
    requires 0 <= BlockIndex(v.width, c * 4, r * 4, j, i) < |s|
    ensures PaintFrame(s, palette, v, BlockCount(v.height, 4), BlockCount(v.width, 4))[BlockIndex(v.width, c * 4, r * 4, j, i)]
      == BlockColour(palette, v, r, c)
  {
    BlockCountAligned(cols, 4);
    PixelLinear(c, 4);
    PixelLinear(r, 4);
    PaintFrameAt(s, palette, v, BlockCount(v.height, 4), cols, r, c, i, j);
  }

  /** Low resolution with a width that is not a multiple of 4: in a 10 x 4
      buffer the last block of the first row, at column 8, writes past the
      row's end, and pixel 10 (row 1, column 0) ends with that block's colour
      rather than the colour of the block at column 0. */
  lemma LowResolutionSpill(s: seq<Packed>, palette: seq<Packed>, zoom: real, maxIterations: int)
    requires |s| == 40
    ensures var v := View(zoom, maxIterations, 10, 4, 4);
      PaintFrame(s, palette, v, BlockCount(4, 4), BlockCount(10, 4))[10] == BlockColour(palette, v, 0, 2)
  {
    var v := View(zoom, maxIterations, 10, 4, 4);
    assert BlockCount(4, 4) == 1 && BlockCount(10, 4) == 3;
    assert Pixel(2, 4) == 8 && Pixel(0, 4) == 0;
    assert 10 == BlockIndex(10, 8, 0, 2, 0);
    assert InBlock(10, 10, 8, 0, 4);
  }

  /** `c` is the black sentinel or a palette entry other than entry 0. */
  ghost predicate FromPalette(c: Packed, palette: seq<Packed>)
  {
    c == Black || exists n :: 1 <= n < |palette| && palette[n] == c
  }

  /** Every block colour comes from the palette or is black; entry 0 is never
      used, because every escape count is at least 1. */
  lemma BlockColourFromPalette(palette: seq<Packed>, v: View, row: nat, col: nat)
    requires ValidView(v)
    ensures FromPalette(BlockColour(palette, v, row, col), palette)
  {
    var n := EscapeTime(BlockPoint(v, row, col), v.maxIterations);
    if n < |palette| {
      assert palette[n] == BlockColour(palette, v, row, col);
    }
  }

  /** `t` is `s` with some pixels replaced by palette colours or black. */
  ghost predicate KeptOrPainted(t: seq<Packed>, s: seq<Packed>, palette: seq<Packed>)
  {
    |t| == |s| && forall p :: 0 <= p < |s| ==> t[p] == s[p] || FromPalette(t[p], palette)
  }

  lemma {:induction false} PaintRowFromPalette(s: seq<Packed>, t: seq<Packed>, palette: seq<Packed>, v: View, row: nat, k: nat)
    requires ValidView(v) && KeptOrPainted(t, s, palette)
    ensures KeptOrPainted(PaintRow(t, palette, v, row, k), s, palette)
  {
    if k > 0 {
      PaintRowFromPalette(s, t, palette, v, row, k - 1);
      BlockColourFromPalette(palette, v, row, k - 1);
    }
  }

  /** A frame writes only palette colours (never entry 0) and black; every
      other pixel keeps its value. */
  lemma {:induction false} PaintFrameFromPalette(s: seq<Packed>, palette: seq<Packed>, v: View, rows: nat, cols: nat)
    requires ValidView(v)
    ensures KeptOrPainted(PaintFrame(s, palette, v, rows, cols), s, palette)
  {
    if rows > 0 {
      PaintFrameFromPalette(s, palette, v, rows - 1, cols);
      PaintRowFromPalette(s, PaintFrame(s, palette, v, rows - 1, cols), palette, v, rows - 1, cols);
    }
  }

  /** With an opaque palette every pixel a frame writes is opaque. */
  lemma PaintFrameOpaque(s: seq<Packed>, palette: seq<Packed>, v: View, rows: nat, cols: nat)
    requires ValidView(v)
    requires forall n :: 0 <= n < |palette| ==> IsOpaque(palette[n])
    ensures var t := PaintFrame(s, palette, v, rows, cols);
      forall p :: 0 <= p < |s| ==> t[p] == s[p] || IsOpaque(t[p])
  {
    PaintFrameFromPalette(s, palette, v, rows, cols);
    assert IsOpaque(Black);
  }
}
