# BlazorMandelbrot renderer, modelled in Dafny

This project models the `Mandelbrot` class of BlazorMandelbrot, an animated
escape-time fractal renderer that draws into a caller-owned pixel buffer.
The model covers:

- the colour table built by the constructor;
- the HSL to RGB conversion `ColorFromHSLA` and its packing into
  `alpha<<24 | blue<<16 | green<<8 | red`;
- the animation state (`_zoom`, `_maxIterations`), its per-frame update and `Reset`;
- one frame of `RenderImage`: the zoomed region, the row and column sweeps,
  the escape-time loop with its pre-increment count, the palette lookup
  with the black sentinel, and the bounds-checked write of each
  `step` x `step` block.

C# `double` is modelled as exact `real`, and a packed colour as `bv32`,
bit for bit the C# `int`. The `(int)` cast is `Colour.Trunc`, which
truncates toward zero.

Modules:

- `Colour` (colour.dfy): the conversion and the packing, as functions.
  Lemmas state the sextant table, the grey fallback, channel bounds,
  opacity, lane-by-lane unpacking, and that the standard RGB to HSL
  conversion undoes it.
- `Palette` (palette.dfy): entry `i` of the 1000-entry table and the
  bounds of its channels.
- `Escape` (escape.dfy): the escape loop as a method. It is proved
  against a recursive function and against a declarative characterisation of
  the count.
- `Render` (render.dfy): one frame on values.
  - `PaintFrame` folds the block writes row by row, and `FillBlock` is
    the in-place block loop.
  - Lemmas state which pixel ends with which colour, that blocks are
    disjoint, and that only palette colours and black are written.
- `Animation` (animation.dfy): the state after `n` frames.
- `Renderer` (mandelbrot.dfy): the class `Mandelbrot`.
  - It has the fields `colours`, `zoom` and `maxIterations`, and the
    constructor, `Reset` and `RenderImage`.
  - The loops of `RenderImage` (the rows, one row, one block) and the
    constructor's loop body (one entry) are methods of their own, each
    proved against the value-level specification.
  - `RenderImage`'s postcondition ties the buffer to `Render.PaintFrame`.

Notes on what the code does:

- `_zoom` is the full side of the zoomed square, not a half-width:
  `dRx = _px + _zoom/2 - RX1 = _zoom` (Mandelbrot.cs:46-49).
- The sample points are not centred on the focus point `(_px, _py)`.
  The plane coordinate `x` runs over [-2, 2) and is mapped to
  `x * dRx + RX1`. The points therefore span `[RX1 - 2 zoom, RX1 + 2 zoom)`
  around the region's corner `RX1`, and likewise for `y`
  (`Render.BlockPointSpan`).
- The iteration count is not clamped. Any count of 1000 or more selects
  `_black` (Mandelbrot.cs:80).
- With a width that is not a multiple of 4, a low-resolution 4 x 4 block
  is not one colour. The last block of a row writes past the row's end
  into the next pixel row (`Render.LowResolutionSpill`).

## Model

| member | source | states |
|---|---|---|
| Colour.Trunc | BlazorMandelbrot/BlazorMandelbrot/Mandelbrot.cs:122 | the `(int)` cast truncates toward zero: the result is within 1 of `x`, on the side of zero |
| Colour.Pack | BlazorMandelbrot/BlazorMandelbrot/Mandelbrot.cs:168-171 | the four values shifted into their byte lanes (alpha at bit 24, blue 16, green 8, red 0) and OR-ed as 32-bit two's complement words, bits shifted past bit 31 dropped as in C#; `PackOpaque` and `PackUnpack` state what it gives |
| Colour.PackOpaque | BlazorMandelbrot/BlazorMandelbrot/Mandelbrot.cs:168-171 | whatever the channel values, OR-ing with `255 << 24` leaves the alpha byte 255 |
| Colour.PackUnpack | BlazorMandelbrot/BlazorMandelbrot/Mandelbrot.cs:168-171 | with byte-sized channels, the packed colour reads back alpha 255 and exactly those blue, green and red bytes |
| Colour.ColorFromHSLA | BlazorMandelbrot/BlazorMandelbrot/Mandelbrot.cs:101-172 | every result of the conversion is opaque (alpha 255), for every input |
| Colour.HslToRgb | BlazorMandelbrot/BlazorMandelbrot/Mandelbrot.cs:103-166 | the channels before packing: all `L` unless `v > 0`, then the sextant switch; `GreyFallback`, `Table`, `ChannelsBetween` and `HslRoundTrip` state its results |
| Colour.Peak | BlazorMandelbrot/BlazorMandelbrot/Mandelbrot.cs:110 | `v` by the two branches on `L <= 0.5`; `Spread` states that for a saturation in (0, 1] and a lightness in (0, 1), `v > 0` and `v - m` is `2LS` or `2S(1 - L)`, which is positive |
| Colour.Spread | BlazorMandelbrot/BlazorMandelbrot/Mandelbrot.cs:110-120 | for a saturation in (0, 1] and a lightness in (0, 1), `v > 0` and `v - m` is `2LS` when `L <= 0.5` and `2S(1 - L)` otherwise, so `m < v` |
| Colour.SextantColour | BlazorMandelbrot/BlazorMandelbrot/Mandelbrot.cs:128-165 | the switch on the sextant, with `(L, L, L)` kept for a sextant outside 0..5; `Table` and `GreyFallback` state its results |
| Colour.PackRgb | BlazorMandelbrot/BlazorMandelbrot/Mandelbrot.cs:168-171 | truncating and packing any three channels gives an opaque colour |
| Colour.SextantInRange | BlazorMandelbrot/BlazorMandelbrot/Mandelbrot.cs:121-122 | the sextant `(int)(6H)` is one of the switch's cases 0..5 exactly when `-1/6 < H < 1` |
| Colour.GreyFallback | BlazorMandelbrot/BlazorMandelbrot/Mandelbrot.cs:106-166 | when `v <= 0`, or the hue's sextant is outside 0..5, all three channels stay at `L` |
| Colour.Table | BlazorMandelbrot/BlazorMandelbrot/Mandelbrot.cs:119-165 | for a hue in [0, 1), a saturation in (0, 1] and a lightness in (0, 1): the sextant is 0..5, `m < v`, and the channels are the sextant's row of `{v, m + vsf, v - vsf, m}` with `vsf = (v - m) * fract` |
| Colour.HslRoundTrip | BlazorMandelbrot/BlazorMandelbrot/Mandelbrot.cs:110-165 | the standard RGB to HSL conversion gives back `(H, S, L)` from every colour the conversion produces for a hue in [0, 1), a saturation in (0, 1] and a lightness in (0, 1) |
| Colour.ChannelsBetween | BlazorMandelbrot/BlazorMandelbrot/Mandelbrot.cs:110-165 | for a hue in [0, 1), a saturation in (0, 1] and a lightness in (0, 1), every channel lies between `m = 2L - v` and `v` |
| Palette.Entry | BlazorMandelbrot/BlazorMandelbrot/Mandelbrot.cs:29-31 | every table entry is opaque |
| Palette.EntryHue | BlazorMandelbrot/BlazorMandelbrot/Mandelbrot.cs:29-30 | the hue of entry `i` of 1000 lies in [0, 1) when the fourth root maps [0, 1) into [0, 1) |
| Palette.PaletteChannels | BlazorMandelbrot/BlazorMandelbrot/Mandelbrot.cs:110-126 | with saturation 0.9 and lightness 0.6, every channel of every hue in [0, 1) lies in [0.24, 0.96] |
| Palette.EntryChannels | BlazorMandelbrot/BlazorMandelbrot/Mandelbrot.cs:29-31 | every table entry's truncated channels lie in 61..244, so each fits its byte |
| Palette.Colours | BlazorMandelbrot/BlazorMandelbrot/Mandelbrot.cs:26-32 | the table has one entry per index and every entry is opaque |
| Escape.Next | BlazorMandelbrot/BlazorMandelbrot/Mandelbrot.cs:69-72 | one step of the loop body on the real and imaginary parts; `NextIsSquarePlus` states that it is `z * z + c` |
| Escape.NextIsSquarePlus | BlazorMandelbrot/BlazorMandelbrot/Mandelbrot.cs:69-72 | the loop body computes the complex map `z * z + c`, against the textbook complex product and sum |
| Escape.MulMagnitude | BlazorMandelbrot/BlazorMandelbrot/Mandelbrot.cs:69-74 | the squared magnitude of a textbook complex product is the product of the squared magnitudes |
| Escape.ZeroStepSquares | BlazorMandelbrot/BlazorMandelbrot/Mandelbrot.cs:69-74 | a loop step from `z` with `c = 0` gives a point whose `x2 + y2` is the square of `z`'s |
| Escape.EscapeFrom | BlazorMandelbrot/BlazorMandelbrot/Mandelbrot.cs:67-78 | the count reached from count `n` never drops below `n` nor exceeds the budget, or `n` when `n` is already past the budget |
| Escape.EscapeTime | BlazorMandelbrot/BlazorMandelbrot/Mandelbrot.cs:66-78 | the count is between 1 and `max(1, maxIterations)` |
| Escape.EscapeTimeIsCount | BlazorMandelbrot/BlazorMandelbrot/Mandelbrot.cs:66-78 | the count meets `IsEscapeCount`: in range; the orbit points before it had squared magnitude below 4; and a count below the budget follows a point of squared magnitude at least 4 |
| Escape.EscapeCountUnique | BlazorMandelbrot/BlazorMandelbrot/Mandelbrot.cs:66-78 | two counts that both meet `IsEscapeCount` are equal |
| Escape.CountIsEscapeTime | BlazorMandelbrot/BlazorMandelbrot/Mandelbrot.cs:66-78 | any count meeting `IsEscapeCount` is the count `EscapeTime` computes |
| Escape.OriginUsesWholeBudget | BlazorMandelbrot/BlazorMandelbrot/Mandelbrot.cs:66-78 | the origin never escapes: its count is `max(1, maxIterations)` |
| Escape.FarPointCountsOne | BlazorMandelbrot/BlazorMandelbrot/Mandelbrot.cs:66-78 | a point of squared magnitude at least 4, such as (2, 2), is counted 1: one step is taken, then the escape is seen |
| Escape.EscapeCount | BlazorMandelbrot/BlazorMandelbrot/Mandelbrot.cs:66-78 | the loop's count meets `IsEscapeCount` and equals `EscapeTime` |
| Render.ZoomRegion | BlazorMandelbrot/BlazorMandelbrot/Mandelbrot.cs:46-49 | the region is a square of side `zoom` centred on the focus point |
| Render.PixelStep | BlazorMandelbrot/BlazorMandelbrot/Mandelbrot.cs:51 | the block side, 1 in high resolution and 4 otherwise; `HighResolutionPixel` and `LowResolutionBlock` state what each gives |
| Render.XStep | BlazorMandelbrot/BlazorMandelbrot/Mandelbrot.cs:52 | the plane step between columns of blocks is positive, so the column sweep moves toward its bound |
| Render.YStep | BlazorMandelbrot/BlazorMandelbrot/Mandelbrot.cs:53 | the plane step between rows of blocks is positive, so the row sweep moves toward its bound |
| Render.BlockPoint | BlazorMandelbrot/BlazorMandelbrot/Mandelbrot.cs:58-62 | the sample point of block (r, c), `(x * dRx + RX1, y * dRy + RY1)` at the sweeps' `k`-th coordinates; `BlockPointSpan` states where it falls |
| Render.BlockPointSpan | BlazorMandelbrot/BlazorMandelbrot/Mandelbrot.cs:46-62 | the sample point of every block inside the image lies in `[RX1 - 2 zoom, RX1 + 2 zoom) x [RY1 - 1.5 zoom, RY1 + 1.5 zoom)`, centred on the region's corner rather than on the focus point |
| Render.ChooseColour | BlazorMandelbrot/BlazorMandelbrot/Mandelbrot.cs:80 | count `n` picks palette entry `n` when `n` is in range, and black otherwise |
| Render.BlockColour | BlazorMandelbrot/BlazorMandelbrot/Mandelbrot.cs:62-80 | the colour of block (r, c): the escape count of its sample point, then the palette or black; `BlockColourFromPalette` and `PaintFrameAt` state its properties |
| Render.FillBlock | BlazorMandelbrot/BlazorMandelbrot/Mandelbrot.cs:82-92 | afterwards, every in-range index of the `step` x `step` block holds the colour and every other element is unchanged |
| Render.BlockIndex | BlazorMandelbrot/BlazorMandelbrot/Mandelbrot.cs:86 | the buffer index `(yPix + pY) * width + xPix + pX`; `Filled` writes the block at exactly these indices, and `LowResolutionSpill` shows where it leaves the row |
| Render.PaintRow | BlazorMandelbrot/BlazorMandelbrot/Mandelbrot.cs:58-95 | painting a row of blocks keeps the buffer's length; `PaintRowAt` and `PaintRowFromPalette` state its contents |
| Render.PaintFrame | BlazorMandelbrot/BlazorMandelbrot/Mandelbrot.cs:56-97 | painting a frame keeps the buffer's length; `PaintFrameAt`, `PaintFrameFromPalette` and `PaintFrameOpaque` state its contents |
| Render.PixelLinear | BlazorMandelbrot/BlazorMandelbrot/Mandelbrot.cs:94-96 | the pixel counter of block `k` is `k * step`, a multiple of the step |
| Render.SampleLinear | BlazorMandelbrot/BlazorMandelbrot/Mandelbrot.cs:56-60 | the plane coordinate of block `k` is `lo + k * d` |
| Render.BlockCount | BlazorMandelbrot/BlazorMandelbrot/Mandelbrot.cs:56-60 | the trip count of the row (column) loop in exact arithmetic: one trip per started block; `BlockCountAligned` and `BlockCountCovers` state its value |
| Render.BlockCountAligned | BlazorMandelbrot/BlazorMandelbrot/Mandelbrot.cs:56-60 | a length of `k` whole blocks takes exactly `k` loop trips |
| Render.BlockCountCovers | BlazorMandelbrot/BlazorMandelbrot/Mandelbrot.cs:56-60 | the trips cover the length, and one trip fewer would not |
| Render.SweepContinues | BlazorMandelbrot/BlazorMandelbrot/Mandelbrot.cs:56-60 | the loop test on the plane coordinate holds exactly while the pixel counter is inside the image |
| Render.SweepColumns | BlazorMandelbrot/BlazorMandelbrot/Mandelbrot.cs:60 | the column loop runs exactly while the block's pixel column is below the width |
| Render.SweepRows | BlazorMandelbrot/BlazorMandelbrot/Mandelbrot.cs:56 | the row loop runs exactly while the block's pixel row is below the height |
| Render.BlocksDisjoint | BlazorMandelbrot/BlazorMandelbrot/Mandelbrot.cs:82-92 | when the width is a whole number of blocks, a pixel written by one block is written by no other |
| Render.PaintFrameAt | BlazorMandelbrot/BlazorMandelbrot/Mandelbrot.cs:56-97 | when the width is a whole number of blocks, every in-range pixel of block (r, c) ends with the colour of that block's escape count |
| Render.HighResolutionPixel | BlazorMandelbrot/BlazorMandelbrot/Mandelbrot.cs:51-97 | in high resolution, pixel `p` ends with the colour of the sample point at row `p / width`, column `p % width` |
| Render.LowResolutionBlock | BlazorMandelbrot/BlazorMandelbrot/Mandelbrot.cs:51-97 | in low resolution with a width that is a multiple of 4, each 4 x 4 block is one colour, that of its sample point |
| Render.LowResolutionSpill | BlazorMandelbrot/BlazorMandelbrot/Mandelbrot.cs:82-92 | with a width that is not a multiple of 4, the last block of a row writes into the next pixel row; in a 10 x 4 buffer, pixel 10 ends with the colour of block column 2 |
| Render.BlockColourFromPalette | BlazorMandelbrot/BlazorMandelbrot/Mandelbrot.cs:66-80 | every block colour is black or a palette entry other than entry 0, since every count is at least 1 |
| Render.PaintFrameFromPalette | BlazorMandelbrot/BlazorMandelbrot/Mandelbrot.cs:56-97 | a frame writes only palette entries (never entry 0) and black; every other pixel keeps its value |
| Render.PaintFrameOpaque | BlazorMandelbrot/BlazorMandelbrot/Mandelbrot.cs:56-97 | with an opaque palette, every pixel a frame changes is opaque |
| Animation.Advance | BlazorMandelbrot/BlazorMandelbrot/Mandelbrot.cs:43-44 | the update at the start of every frame: zoom times 0.9, budget plus 10; `FramesFromReset` and `ZoomShrinks` state what repeating it gives |
| Animation.FramesFromReset | BlazorMandelbrot/BlazorMandelbrot/Mandelbrot.cs:43-44 | after `n` frames from the initial state, zoom is `0.01 * 0.9^n` and the budget is `200 + 10n` |
| Animation.ZoomShrinks | BlazorMandelbrot/BlazorMandelbrot/Mandelbrot.cs:43-44 | each frame strictly shrinks the zoom without reaching 0, and strictly raises the budget |
| Renderer.Mandelbrot.constructor | BlazorMandelbrot/BlazorMandelbrot/Mandelbrot.cs:24-33 | the renderer starts at zoom 0.01 and budget 200, with a fresh 1000-entry table of opaque colours whose entry `i` is `Palette.Entry(i)` |
| Renderer.Mandelbrot.BuildColours | BlazorMandelbrot/BlazorMandelbrot/Mandelbrot.cs:26-32 | the loop fills a fresh array with the table, entry by entry |
| Renderer.Mandelbrot.Reset | BlazorMandelbrot/BlazorMandelbrot/Mandelbrot.cs:35-39 | zoom and budget return to 0.01 and 200; the table is unchanged |
| Renderer.Mandelbrot.RenderImage | BlazorMandelbrot/BlazorMandelbrot/Mandelbrot.cs:41-98 | the state advances one frame (zoom times 0.9, budget plus 10) before drawing; the table is unchanged and stays 1000 opaque entries; the buffer ends as `PaintFrame` of its old contents over the exact trip counts; every pixel either keeps its value or becomes opaque |
| Renderer.Mandelbrot.RenderRows | BlazorMandelbrot/BlazorMandelbrot/Mandelbrot.cs:55-97 | the row loop paints the rows of blocks top to bottom, as `PaintFrame` over the exact number of row trips |
| Renderer.Mandelbrot.RenderRow | BlazorMandelbrot/BlazorMandelbrot/Mandelbrot.cs:58-95 | one row sweep paints the row's blocks left to right, as `PaintRow` |
| Renderer.Mandelbrot.RenderBlock | BlazorMandelbrot/BlazorMandelbrot/Mandelbrot.cs:62-92 | one block gets the colour of its sample point's escape count, as `Filled` |

## Left out

- The Blazor page (`Pages/MandelbrotCpu.razor.cs`) is not part of this
  model. That covers the component lifecycle, the timer, canvas blitting
  and mouse handlers.
- IEEE-754 rounding: doubles are exact reals. The float-accumulated
  `x += xStep` and `y += yStep` loops may run one more or one fewer
  time than the exact count `BlockCount`. The escape iteration is exact in
  the model but rounded in the program.
- `Math.Pow(t, 0.25)` is a parameter `quarterPower` of the constructor.
  The channel-bound lemmas assume it maps [0, 1) into [0, 1).
- Renderer.Mandelbrot.RenderImage: requires a positive width and height.
  - A zero width or height makes C# divide to an infinite step, so that
    loop runs once; exact reals cannot express that. With a zero width,
    `p = (yPix + pY) * 0 + xPix + pX` is `pX`, so each row of blocks
    still writes pixels 0 .. step - 1: such a frame is not a no-op.
  - A negative width makes the first low-resolution block compute
    `p = (0 + 1) * width + 0 + 0`, which is negative and passes the test
    `p < data.Count`, so the write throws `ArgumentOutOfRangeException`.
  - In high resolution with a negative width, or with a negative height,
    the step is negative and the loop test always holds. The loop runs
    until the `int` counters wrap and `p` turns negative, then the write
    throws the same exception.
  - The precondition excludes these exceptions.
- Renderer.Mandelbrot.RenderImage: requires that the buffer is not the
  colour table. The table is private, so no caller can pass it.
- Renderer.Mandelbrot.RenderImage: `maxIterations` and the buffer index
  are unbounded integers. The C# `int` wrap-around, reached after about
  2^31 / 10 frames or with huge buffers, is not modelled.
- The C# default `highResolution = false` is not modelled: callers of
  `RenderImage` always pass the flag.
- `ArraySegment<int>` is modelled as a plain array. Its offset into a
  larger array is not modelled.
- `(int)` casts of NaN or of doubles beyond the `int` range are not
  modelled: `Trunc` is total over the reals.
- `[MethodImpl(MethodImplOptions.AggressiveInlining)]` is a performance
  hint with no behaviour.
- Palette.EntryChannels: states the channel bytes of an entry.
  `Colour.PackUnpack` states that such bytes unpack back exactly. No
  single lemma states both for a table entry.
