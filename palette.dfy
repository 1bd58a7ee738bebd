/** The renderer's 1000-entry colour table: entry `i` is the colour of hue
    `(i / 1000)^0.25` at saturation 0.9 and lightness 0.6. */
module Palette {
  import opened Colour

  const Size: nat := 1000
  const PaletteSaturation: real := 0.9
  const PaletteLightness: real := 0.6

  /** Entry `i` of the table. `quarterPower` stands for `Math.Pow(t, 0.25)`,
      a library call outside this model. */
  function Entry(quarterPower: real -> real, i: int): (c: Packed)
    ensures IsOpaque(c)
  {
    ColorFromHSLA(quarterPower(i as real / Size as real), PaletteSaturation, PaletteLightness)
  }

  /** The hue of entry `i` lies in [0, 1) whenever the power function maps
      [0, 1) into [0, 1). */
  lemma EntryHue(quarterPower: real -> real, i: int)
    requires forall t :: 0.0 <= t < 1.0 ==> 0.0 <= quarterPower(t) < 1.0
    requires 0 <= i < Size
    ensures 0.0 <= quarterPower(i as real / Size as real) < 1.0
  {
    assert 0.0 <= i as real / Size as real < 1.0;
  }

  lemma ScaledChannel(x: real)
    requires 0.24 <= x <= 0.96
    ensures 61 <= Trunc(x * 255.0) <= 244
  {
  }

  /** For every hue in [0, 1) the palette's saturation and lightness give
      channels in [m, v] = [0.24, 0.96]. */
  lemma PaletteChannels(h: real)
    requires 0.0 <= h < 1.0
    ensures var rgb := HslToRgb(h, PaletteSaturation, PaletteLightness);
      && 0.24 <= rgb.r <= 0.96 && 0.24 <= rgb.g <= 0.96 && 0.24 <= rgb.b <= 0.96
  {
    assert Peak(PaletteSaturation, PaletteLightness) == 0.96;
    ChannelsBetween(h, PaletteSaturation, PaletteLightness);
  }

  /** Channels in [0.24, 0.96] scale and truncate to 61..244, so each is a byte. */
  lemma PackedChannels(rgb: Rgb)
    requires 0.24 <= rgb.r <= 0.96 && 0.24 <= rgb.g <= 0.96 && 0.24 <= rgb.b <= 0.96
    ensures var r, g, b := Trunc(rgb.r * 255.0), Trunc(rgb.g * 255.0), Trunc(rgb.b * 255.0);
      61 <= r <= 244 && 61 <= g <= 244 && 61 <= b <= 244
  {
    ScaledChannel(rgb.r);
    ScaledChannel(rgb.g);
    ScaledChannel(rgb.b);
  }

  /** Every entry of the table has its three channels in 61..244, so no
      channel overflows its byte when `ColorFromHSLA` packs them behind
      alpha 255, and `PackUnpack` reads them back lane by lane. */
  lemma EntryChannels(quarterPower: real -> real, i: int)
    requires forall t :: 0.0 <= t < 1.0 ==> 0.0 <= quarterPower(t) < 1.0
    requires 0 <= i < Size
    ensures var rgb := HslToRgb(quarterPower(i as real / Size as real), PaletteSaturation, PaletteLightness);
      var r, g, b := Trunc(rgb.r * 255.0), Trunc(rgb.g * 255.0), Trunc(rgb.b * 255.0);
      61 <= r <= 244 && 61 <= g <= 244 && 61 <= b <= 244
  {
    var h := quarterPower(i as real / Size as real);
    EntryHue(quarterPower, i);
    PaletteChannels(h);
    PackedChannels(HslToRgb(h, PaletteSaturation, PaletteLightness));
  }

  /** The first `n` entries of the table, in order. */
  function Colours(quarterPower: real -> real, n: nat): (t: seq<Packed>)
    ensures |t| == n && forall i :: 0 <= i < n ==> IsOpaque(t[i])
  {
    seq(n, i => Entry(quarterPower, i))
  }
}
