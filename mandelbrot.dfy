/** The renderer object: its colour table, its animation state and the
    frame it draws into a caller's pixel buffer. */
module Renderer {
  import opened Colour
  import opened Escape
  import opened Palette
  import opened Render
  import opened Animation

  class Mandelbrot {
    /** The colour table, built once by the constructor. */
    const colours: array<Packed>
    var zoom: real
    var maxIterations: int

    /** The colour table has its 1000 entries and every one is opaque. */
    ghost predicate Valid()
      reads this, colours
    {
      colours.Length == Size && forall i :: 0 <= i < colours.Length ==> IsOpaque(colours[i])
    }

    function State(): AnimationState
      reads this
    {
      AnimationState(zoom, maxIterations)
    }

    /** Builds the colour table and starts in the initial animation state. */
    constructor (quarterPower: real -> real)
      ensures Valid() && fresh(colours) && State() == Initial
      ensures colours[..] == Colours(quarterPower, Size)
    {
      var table := BuildColours(quarterPower);
      colours := table;
      zoom := 0.01;
      maxIterations := 200;
    }

    /** The constructor's loop: entry `i` of the 1000-entry table gets the
        colour of hue `(i / 1000)^0.25`, computed by `TableEntry`. */
    static method BuildColours(quarterPower: real -> real) returns (table: array<Packed>)
      ensures fresh(table) && table[..] == Colours(quarterPower, Size)
    {
      table := new Packed[1000];
      ghost var wanted := Colours(quarterPower, Size);
      var i := 0;
      while i < table.Length
        invariant 0 <= i <= table.Length
        invariant forall j :: 0 <= j < i ==> table[j] == wanted[j]
      {
        table[i] := TableEntry(quarterPower, i, table.Length);
        assert table[i] == wanted[i];
        i := i + 1;
      }
    }

    /** The body of the constructor's loop: entry `i` of a table of `count`
        entries. */
    static method TableEntry(quarterPower: real -> real, i: int, count: int) returns (c: Packed)
      requires count == Size
      ensures c == Entry(quarterPower, i)
    {
      var colourIndex := i as real / count as real;
      var hue := quarterPower(colourIndex);
      c := ColorFromHSLA(hue, 0.9, 0.6);
    }

    /** Back to the initial zoom and iteration budget; the colour table is kept. */
    method Reset()
      requires Valid()
      modifies this
      ensures Valid() && State() == Initial
      ensures colours[..] == old(colours[..])
    {
      zoom := 0.01;
      maxIterations := 200;
    }

    /** Advances the animation one frame and draws it: every block of the
        `width` x `height` buffer, row by row and left to right, gets the
        colour of the escape count of its sample point. */
    method RenderImage(data: array<Packed>, width: int, height: int, highResolution: bool)
      requires Valid() && data != colours && width > 0 && height > 0
      modifies this, data
      ensures Valid() && State() == Advance(old(State()))
      ensures colours[..] == old(colours[..])
      ensures var v := View(zoom, maxIterations, width, height, PixelStep(highResolution));
        data[..] == PaintFrame(old(data[..]), colours[..], v, BlockCount(height, v.step), BlockCount(width, v.step))
      ensures forall p :: 0 <= p < data.Length ==> data[p] == old(data[p]) || IsOpaque(data[p])
    {
      zoom := zoom * 0.9;
      maxIterations := maxIterations + 10;

      var rx1 := Px - zoom / 2.0;
      var ry1 := Py - zoom / 2.0;
      var dRx := Px + zoom / 2.0 - rx1;
      var dRy := Py + zoom / 2.0 - ry1;

      var step := if highResolution then 1 else 4;
      var xStep := (XMax - XMin) / width as real * step as real;
      var yStep := (YMax - YMin) / height as real * step as real;

      ghost var v := View(zoom, maxIterations, width, height, step);
      ghost var s0 := data[..];
      FrameSetup(v, rx1, ry1, dRx, dRy, xStep, yStep);
      RenderRows(data, width, height, step, xStep, yStep, rx1, dRx, ry1, dRy, v);
      PaintFrameOpaque(s0, colours[..], v, BlockCount(height, step), BlockCount(width, step));
    }

    /** The row loop of `RenderImage`: the rows of blocks top to bottom,
        from the frame's steps and the zoomed region's corner and size. */
    method RenderRows(data: array<Packed>, width: int, height: int, step: int, xStep: real, yStep: real,
                      rx1: real, dRx: real, ry1: real, dRy: real, ghost v: View)
      requires ValidView(v) && v.width == width && v.height == height && v.step == step
      requires v.maxIterations == maxIterations && xStep == XStep(v) && yStep == YStep(v)
      requires rx1 == ZoomRegion(v.zoom).left && dRx == ZoomRegion(v.zoom).width
      requires ry1 == ZoomRegion(v.zoom).top && dRy == ZoomRegion(v.zoom).height
      requires data != colours
      modifies data
      ensures data[..] == PaintFrame(old(data[..]), colours[..], v, BlockCount(height, step), BlockCount(width, step))
    {
      ghost var s0 := data[..];
      ghost var rows, cols := BlockCount(height, step), BlockCount(width, step);
      var yPix := 0;
      var y := YMin;
      ghost var row: nat := 0;
      while y < YMax
        invariant 0 <= yPix == Pixel(row, step) && y == Sample(YMin, row, yStep)
        invariant row + BlockCount(height - yPix, step) == rows
        invariant data[..] == PaintFrame(s0, colours[..], v, row, cols)
        decreases height - yPix
      {
        SweepRows(v, row);
        var y0 := y * dRy + ry1;
        RowStart(v, row, y, yStep, dRy, ry1);
        RenderRow(data, width, step, xStep, rx1, dRx, y0, yPix, v, row);
        yPix := yPix + step;
        y := y + yStep;
        row := row + 1;
      }
      SweepRows(v, row);
    }

    /** One row of blocks of `RenderImage`: the blocks left to right. */
    method RenderRow(data: array<Packed>, width: int, step: int, xStep: real, rx1: real, dRx: real,
                     y0: real, yPix: int, ghost v: View, ghost row: nat)
      requires ValidView(v) && v.width == width && v.step == step && v.maxIterations == maxIterations
      requires xStep == XStep(v) && rx1 == ZoomRegion(v.zoom).left && dRx == ZoomRegion(v.zoom).width
      requires y0 == BlockPoint(v, row, 0).im && 0 <= yPix == Pixel(row, step)
      requires data != colours
      modifies data
      ensures data[..] == PaintRow(old(data[..]), colours[..], v, row, BlockCount(width, step))
    {
      ghost var s0 := data[..];
      ghost var cols := BlockCount(width, step);
      var xPix := 0;
      var x := XMin;
      ghost var col: nat := 0;
      while x < XMax
        invariant 0 <= xPix == Pixel(col, step) && x == Sample(XMin, col, xStep)
        invariant col + BlockCount(width - xPix, step) == cols
        invariant data[..] == PaintRow(s0, colours[..], v, row, col)
        decreases width - xPix
      {
        SweepColumns(v, col);
        BlockStart(v, row, col, x, xStep, dRx, rx1, y0);
        RenderBlock(data, width, step, x * dRx + rx1, y0, xPix, yPix, v, row, col);
        xPix := xPix + step;
        x := x + xStep;
        col := col + 1;
      }
      SweepColumns(v, col);
    }

    /** One block of `RenderImage`: the escape count of the sample point
        `(x0, y0)`, its colour, and the block write. */
    method RenderBlock(data: array<Packed>, width: int, step: int, x0: real, y0: real,
                       xPix: int, yPix: int, ghost v: View, ghost row: nat, ghost col: nat)
      requires ValidView(v) && v.width == width && v.step == step && v.maxIterations == maxIterations
      requires Complex(x0, y0) == BlockPoint(v, row, col)
      requires xPix == Pixel(col, step) && yPix == Pixel(row, step) && xPix >= 0 && yPix >= 0
      requires data != colours
      modifies data
      ensures data[..] == Filled(old(data[..]), width, xPix, yPix, step, BlockColour(colours[..], v, row, col))
    {
      var n := EscapeCount(Complex(x0, y0), maxIterations);
      var colour := if n < colours.Length then colours[n] else Black;
      assert colour == ChooseColour(colours[..], n);
      FillBlock(data, width, xPix, yPix, step, colour);
    }
  }
}
