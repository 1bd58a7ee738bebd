/** HSL to RGB conversion and packing into the 32-bit pixel format
    `alpha<<24 | blue<<16 | green<<8 | red` used by the renderer's palette.
    Doubles are modelled as exact reals. */
module Colour {

  /** A 32-bit packed colour, bit for bit the C# `int` the renderer stores. */
  type Packed = bv32

  /** The interior sentinel: opaque black. */
  const Black: Packed := 0xFF00_0000

  datatype Rgb = Rgb(r: real, g: real, b: real)
  datatype Hsl = Hsl(h: real, s: real, l: real)

  /** C#'s `(int)` cast of a double: truncation toward zero. */
  function Trunc(x: real): (n: int)
    ensures 0.0 <= x ==> 0 <= n && n as real <= x < n as real + 1.0
    ensures x < 0.0 ==> n <= 0 && n as real - 1.0 < x <= n as real
  {
    if x >= 0.0 then x.Floor else -((-x).Floor)
  }

  /** The bits of a C# `int` holding `x` (two's complement, wrapping). */
  function Bits(x: int): Packed
  {
    (x % 0x1_0000_0000) as Packed
  }

  /** The four byte lanes of a packed colour, each as a value below 256. */
  function Alpha(c: Packed): Packed { c >> 24 }
  function Blue(c: Packed): Packed { (c >> 16) & 0xFF }
  function Green(c: Packed): Packed { (c >> 8) & 0xFF }
  function Red(c: Packed): Packed { c & 0xFF }

  predicate IsOpaque(c: Packed) { Alpha(c) == 0xFF }

  /** `a << 24 | b << 16 | g << 8 | r` over C# `int`s (Dafny's `|` binds
      tighter than `<<`, hence the parentheses). */
  function Pack(a: int, b: int, g: int, r: int): Packed
  {
    (Bits(a) << 24) | (Bits(b) << 16) | (Bits(g) << 8) | Bits(r)
  }

  /** With alpha 255 the top byte is all ones already, so whatever the
      channel values, the packed colour is opaque. */
  lemma PackOpaque(b: int, g: int, r: int)
    ensures IsOpaque(Pack(255, b, g, r))
  {
    var lo := (Bits(b) << 16) | (Bits(g) << 8) | Bits(r);
    assert Pack(255, b, g, r) == 0xFF00_0000 | lo;
  }

  /** The byte lanes of a packed colour, on bit-vectors alone. */
  lemma Lanes(b: Packed, g: Packed, r: Packed)
    requires b < 256 && g < 256 && r < 256
    ensures var c := 0xFF00_0000 | (b << 16) | (g << 8) | r;
      c >> 24 == 0xFF && (c >> 16) & 0xFF == b && (c >> 8) & 0xFF == g && c & 0xFF == r
  {
  }

  lemma ByteBits(x: int)
    requires 0 <= x < 256
    ensures Bits(x) == x as Packed && x as Packed < 256
  {
  }

  /** Channels that are bytes unpack to what was packed. */
  lemma PackUnpack(b: int, g: int, r: int)
    requires 0 <= b < 256 && 0 <= g < 256 && 0 <= r < 256
    ensures var c := Pack(255, b, g, r);
      Alpha(c) == 0xFF && Blue(c) == Bits(b) && Green(c) == Bits(g) && Red(c) == Bits(r)
  {
    ByteBits(b); ByteBits(g); ByteBits(r); ByteBits(255);
    var bb, gg, rr := b as Packed, g as Packed, r as Packed;
    Lanes(bb, gg, rr);
    assert Pack(255, b, g, r) == 0xFF00_0000 | (bb << 16) | (gg << 8) | rr;
  }

  /** `v` of the conversion: the largest channel whenever the result is not grey. */
  function Peak(s: real, l: real): real
  {
    if l <= 0.5 then l * (1.0 + s) else l + s - l * s
  }

  /** The channel table of `ColorFromHSLA`, before truncation: a grey
      `(L, L, L)` unless `v > 0` and the sextant is one of 0..5. */
  function HslToRgb(h: real, s: real, l: real): Rgb
  {
    var v := Peak(s, l);
    if v > 0.0 then
      var m := l + l - v;
      var sv := (v - m) / v;
      var h6 := h * 6.0;
      var sextant := Trunc(h6);
      var fract := h6 - sextant as real;
      SextantColour(sextant, v, m, v * sv * fract, l)
    else
      Rgb(l, l, l)
  }

  /** The switch on the sextant: `mid1 = m + vsf` and `mid2 = v - vsf`
      placed by sextant 0..5, and the grey `(L, L, L)` for any other. */
  function SextantColour(sextant: int, v: real, m: real, vsf: real, l: real): Rgb
  {
    var mid1 := m + vsf;
    var mid2 := v - vsf;
    match sextant
    case 0 => Rgb(v, mid1, m)
    case 1 => Rgb(mid2, v, m)
    case 2 => Rgb(m, v, mid1)
    case 3 => Rgb(m, mid2, v)
    case 4 => Rgb(mid1, m, v)
    case 5 => Rgb(v, m, mid2)
    case _ => Rgb(l, l, l)
  }

  /** The packed colour of hue `h`, saturation `s` and lightness `l`: each
      channel scaled by 255 and truncated, alpha 255. */
  function ColorFromHSLA(h: real, s: real, l: real): (c: Packed)
    ensures IsOpaque(c)
  {
    PackRgb(HslToRgb(h, s, l))
  }

  /** `rgb` with each channel scaled by 255 and truncated, packed with alpha 255. */
  function PackRgb(rgb: Rgb): (c: Packed)
    ensures IsOpaque(c)
  {
    var b, g, r := Trunc(rgb.b * 255.0), Trunc(rgb.g * 255.0), Trunc(rgb.r * 255.0);
    PackOpaque(b, g, r);
    Pack(255, b, g, r)
  }

  /** The sextant `(int)(6h)` lies in 0..5 exactly for hues in (-1/6, 1). */
  lemma SextantInRange(h: real)
    ensures 0 <= Trunc(h * 6.0) <= 5 <==> -1.0 / 6.0 < h < 1.0
  {
  }

  /** The grey fallback: no positive `v`, or a hue whose sextant falls
      outside the switch, leaves all three channels at `L`. */
  lemma GreyFallback(h: real, s: real, l: real)
    requires Peak(s, l) <= 0.0 || h <= -1.0 / 6.0 || 1.0 <= h
    ensures HslToRgb(h, s, l) == Rgb(l, l, l)
  {
    SextantInRange(h);
  }

  function Max3(a: real, b: real, c: real): real
  {
    if a >= b && a >= c then a else if b >= c then b else c
  }

  function Min3(a: real, b: real, c: real): real
  {
    if a <= b && a <= c then a else if b <= c then b else c
  }

  /** The standard RGB to HSL conversion, the inverse of `HslToRgb`. Ties for
      the largest channel go to red, then green. */
  function RgbToHsl(c: Rgb): Hsl
  {
    var mx, mn := Max3(c.r, c.g, c.b), Min3(c.r, c.g, c.b);
    if mx == mn then Hsl(0.0, 0.0, (mx + mn) / 2.0)
    else Hsl(Hue6(c, mx, mx - mn) / 6.0, Saturation(mx, mn), (mx + mn) / 2.0)
  }

  /** The HSL saturation of a colour whose largest and smallest channels are
      `mx` and `mn`. */
  function Saturation(mx: real, mn: real): real
  {
    var denom := if (mx + mn) / 2.0 <= 0.5 then mx + mn else 2.0 - mx - mn;
    if denom == 0.0 then 0.0 else (mx - mn) / denom
  }

  /** Six times the hue of `c`, from its largest channel `mx` and spread `d`. */
  function Hue6(c: Rgb, mx: real, d: real): real
    requires d != 0.0
  {
    if c.r == mx then (c.g - c.b) / d + (if c.g < c.b then 6.0 else 0.0)
    else if c.g == mx then (c.b - c.r) / d + 2.0
    else (c.r - c.g) / d + 4.0
  }

  /** The six rows of the sextant table, with `e = vsf` written out. */
  function Row(k: int, v: real, m: real, e: real): Rgb
  {
    match k
    case 0 => Rgb(v, m + e, m)
    case 1 => Rgb(v - e, v, m)
    case 2 => Rgb(m, v, m + e)
    case 3 => Rgb(m, v - e, v)
    case 4 => Rgb(m + e, m, v)
    case _ => Rgb(v, m, v - e)
  }

  /** The spread `v - m` of the channels: `2*L*S` up to lightness 0.5,
      `2*S*(1 - L)` above it; positive for a positive saturation. */
  lemma Spread(s: real, l: real)
    requires 0.0 < s <= 1.0 && 0.0 < l < 1.0
    ensures var v := Peak(s, l);
      && 0.0 < v
      && v - (l + l - v) == (if l <= 0.5 then 2.0 * l * s else 2.0 * s * (1.0 - l))
      && 0.0 < v - (l + l - v)
  {
    if l > 0.5 {
      assert l + s - l * s == l + s * (1.0 - l);
      assert 0.0 < s * (1.0 - l);
    } else {
      assert 0.0 < l * s;
    }
  }

  lemma Cancel(v: real, x: real)
    requires v != 0.0
    ensures v * (x / v) == x
  {
  }

  /** `fract` of a hue in [0, 1): its sextant is 0..5 and `fract` in [0, 1). */
  lemma Sextant(h: real)
    requires 0.0 <= h < 1.0
    ensures 0 <= Trunc(h * 6.0) <= 5 && 0.0 <= h * 6.0 - Trunc(h * 6.0) as real < 1.0
  {
  }

  lemma DivChar(x: real, d: real, y: real)
    requires d != 0.0 && x == y * d
    ensures x / d == y
  {
  }

  /** For an in-range colour, `HslToRgb` is the table row of sextant `k`
      with `vsf = (v - m) * fract`, and `m < v`. */
  lemma Table(h: real, s: real, l: real, k: int, v: real, m: real, f: real, e: real)
    requires 0.0 <= h < 1.0 && 0.0 < s <= 1.0 && 0.0 < l < 1.0
    requires v == Peak(s, l) && k == Trunc(h * 6.0)
    requires m == l + l - v && f == h * 6.0 - k as real && e == (v - m) * f
    ensures 0 <= k <= 5 && 0.0 <= f < 1.0 && m < v
    ensures HslToRgb(h, s, l) == Row(k, v, m, e)
  {
    Spread(s, l);
    Sextant(h);
    Vsf(v, m, f, e);
    InRangeIsSextant(h, s, l, k, v, m, f, e);
    RowIsSextant(k, v, m, e, l);
  }

  /** `vsf = v * sv * fract` with `sv = (v - m) / v` is `(v - m) * fract`. */
  lemma Vsf(v: real, m: real, f: real, e: real)
    requires 0.0 < v && e == (v - m) * f
    ensures v * ((v - m) / v) * f == e
  {
    Cancel(v, v - m);
  }

  /** With a positive `v`, `HslToRgb` is the switch on the sextant. */
  lemma InRangeIsSextant(h: real, s: real, l: real, k: int, v: real, m: real, f: real, e: real)
    requires v == Peak(s, l) && 0.0 < v && k == Trunc(h * 6.0)
    requires m == l + l - v && f == h * 6.0 - k as real && e == v * ((v - m) / v) * f
    ensures HslToRgb(h, s, l) == SextantColour(k, v, m, e, l)
  {
  }

  /** For sextants 0..5 the switch is the table row with `vsf = e`. */
  lemma RowIsSextant(k: int, v: real, m: real, e: real, l: real)
    requires 0 <= k <= 5
    ensures SextantColour(k, v, m, e, l) == Row(k, v, m, e)
  {
  }

  /** `Table` with its quantities named: sextant `k`, `v`, `m`, `fract` and
      `vsf = e`. */
  lemma Shape(h: real, s: real, l: real) returns (k: int, v: real, m: real, f: real, e: real)
    requires 0.0 <= h < 1.0 && 0.0 < s <= 1.0 && 0.0 < l < 1.0
    ensures v == Peak(s, l) && m == l + l - v && k == Trunc(h * 6.0) && f == h * 6.0 - k as real
    ensures 0 <= k <= 5 && 0.0 <= f < 1.0 && m < v
    ensures e == (v - m) * f && 0.0 <= e < v - m
    ensures e / (v - m) == f && (e - (v - m)) / (v - m) == f - 1.0
    ensures HslToRgb(h, s, l) == Row(k, v, m, e)
  {
    v, k := Peak(s, l), Trunc(h * 6.0);
    m, f := l + l - v, h * 6.0 - k as real;
    e := (v - m) * f;
    Table(h, s, l, k, v, m, f, e);
    Fraction(v - m, f, e);
  }

  /** A fraction `e = d * f` of the spread `d`, and its quotients by `d`. */
  lemma Fraction(d: real, f: real, e: real)
    requires 0.0 < d && 0.0 <= f < 1.0 && e == d * f
    ensures 0.0 <= e < d && e / d == f && (e - d) / d == f - 1.0
  {
    assert d - e == d * (1.0 - f);
    DivChar(e, d, f);
    DivChar(e - d, d, f - 1.0);
  }

  /** The largest and smallest channels of a table row are `v` and `m`. */
  lemma RowExtremes(k: int, v: real, m: real, e: real)
    requires 0.0 <= e < v - m
    ensures var c := Row(k, v, m, e);
      && Max3(c.r, c.g, c.b) == v && Min3(c.r, c.g, c.b) == m
      && m <= c.r <= v && m <= c.g <= v && m <= c.b <= v
  {
  }

  /** Converting a table row back recovers six times the hue, `k + f`. */
  lemma RowHue(k: int, v: real, m: real, e: real, f: real)
    requires 0 <= k <= 5 && 0.0 <= e < v - m
    requires e / (v - m) == f && (e - (v - m)) / (v - m) == f - 1.0
    ensures Hue6(Row(k, v, m, e), v, v - m) == k as real + f
  {
    var d := v - m;
    DivChar(d, d, 1.0);
    var c := Row(k, v, m, e);
    if k == 0 {
      assert c.g - c.b == e;
    } else if k == 1 {
      if e == 0.0 { assert c.g - c.b == d; } else { assert c.b - c.r == e - d; }
    } else if k == 2 {
      assert c.b - c.r == e;
    } else if k == 3 {
      if e == 0.0 { assert c.b - c.r == d; } else { assert c.r - c.g == e - d; }
    } else if k == 4 {
      assert c.r - c.g == e;
    } else {
      assert c.g - c.b == e - d;
    }
  }

  /** A table row converts back to hue `(k + f) / 6`, the saturation of its
      extremes and lightness `(v + m) / 2`. */
  lemma RowToHsl(k: int, v: real, m: real, e: real, f: real)
    requires 0 <= k <= 5 && 0.0 <= e < v - m
    requires e / (v - m) == f && (e - (v - m)) / (v - m) == f - 1.0
    ensures RgbToHsl(Row(k, v, m, e)) == Hsl((k as real + f) / 6.0, Saturation(v, m), (v + m) / 2.0)
  {
    RowExtremes(k, v, m, e);
    RowHue(k, v, m, e, f);
  }

  /** The extremes `v` and `m` of a lightness-`l` saturation-`s` colour give back `s`. */
  lemma SaturationOf(s: real, l: real)
    requires 0.0 < s <= 1.0 && 0.0 < l < 1.0
    ensures Saturation(Peak(s, l), l + l - Peak(s, l)) == s
  {
    Spread(s, l);
    var v := Peak(s, l);
    var m, d := l + l - v, v - (l + l - v);
    assert (v + m) / 2.0 == l;
    if l <= 0.5 {
      assert v + m == 2.0 * l && d == s * (v + m);
      DivChar(d, v + m, s);
    } else {
      assert 2.0 - v - m == 2.0 * (1.0 - l) && d == s * (2.0 - v - m);
      DivChar(d, 2.0 - v - m, s);
    }
  }

  /** `RgbToHsl` undoes `HslToRgb` on every colour it can produce from a hue
      in [0, 1), a positive saturation and a lightness strictly between 0 and 1. */
  lemma HslRoundTrip(h: real, s: real, l: real)
    requires 0.0 <= h < 1.0 && 0.0 < s <= 1.0 && 0.0 < l < 1.0
    ensures RgbToHsl(HslToRgb(h, s, l)) == Hsl(h, s, l)
  {
    var k, v, m, f, e := Shape(h, s, l);
    RowToHsl(k, v, m, e, f);
    SaturationOf(s, l);
    assert (k as real + f) / 6.0 == h;
    assert (v + m) / 2.0 == l;
  }

  /** Every channel lies between the smallest and largest, `m` and `v`. */
  lemma ChannelsBetween(h: real, s: real, l: real)
    requires 0.0 <= h < 1.0 && 0.0 < s <= 1.0 && 0.0 < l < 1.0
    ensures var c, v := HslToRgb(h, s, l), Peak(s, l);
      && l + l - v <= c.r <= v && l + l - v <= c.g <= v && l + l - v <= c.b <= v
  {
    var k, v, m, f, e := Shape(h, s, l);
    RowExtremes(k, v, m, e);
  }
}
