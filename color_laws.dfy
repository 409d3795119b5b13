/**
 * Properties of the colour factories and conversions that relate several
 * operations: the hex and 8-bit round trips, the special cases of the HSL
 * construction, the luma of the fixed colours and what the HSL transforms
 * do at the ends of their coefficient range.
 */
module ColorLaws {
  import opened Colors
  import HexText

  // Hex text

  /** Parsing `#RRGGBB` and formatting the colour back gives the same text, lower-cased. */
  lemma HexRoundTrip(s: string)
    requires FromHex(s).Ok?
    ensures FromHex(s).value.ToHex() == "#" + HexText.Lowered(s[1..])
  {
    var r, g, b := HexText.ParseByte(s[1..3]), HexText.ParseByte(s[3..5]), HexText.ParseByte(s[5..7]);
    var c := FromHex(s).value;
    assert c.ToRGB888() == (r.value, g.value, b.value);
    HexText.FormatParseByte(s[1..3]);
    HexText.FormatParseByte(s[3..5]);
    HexText.FormatParseByte(s[5..7]);
    var low := HexText.Lowered(s[1..]);
    assert low == HexText.Lowered(s[1..3]) + HexText.Lowered(s[3..5]) + HexText.Lowered(s[5..7]);
  }

  /** The text `ToHex` writes parses back to the truncated 8-bit channels, opaque. */
  lemma ToHexParsesBack(c: Color)
    requires c.Valid()
    ensures FromHex(c.ToHex()).Ok?
    ensures FromHex(c.ToHex()) == FromRGB888(c.ToRGB888().0, c.ToRGB888().1, c.ToRGB888().2)
  {
    var (r, g, b) := c.ToRGB888();
    var s := c.ToHex();
    assert s[1..3] == HexText.FormatByte(r);
    assert s[3..5] == HexText.FormatByte(g);
    assert s[5..7] == HexText.FormatByte(b);
    HexText.ParseFormatByte(r);
    HexText.ParseFormatByte(g);
    HexText.ParseFormatByte(b);
  }

  /** `ToHex` of a colour that `FromHex` built loses nothing of its red, green and blue. */
  lemma ToHexOfFromHexIsStable(s: string)
    requires FromHex(s).Ok?
    ensures FromHex(FromHex(s).value.ToHex()) == FromHex(s)
  {
    var r, g, b := HexText.ParseByte(s[1..3]), HexText.ParseByte(s[3..5]), HexText.ParseByte(s[5..7]);
    assert FromHex(s) == FromRGB888(r.value, g.value, b.value);
    var c := FromHex(s).value;
    assert c.ToRGB888() == (r.value, g.value, b.value);
    ToHexParsesBack(c);
  }

  // 8-bit channels

  /** For integers in 0..255 the 8-bit round trip is exact. */
  lemma Rgba8888RoundTrip(r: int, g: int, b: int, a: int)
    requires InByte(r) && InByte(g) && InByte(b) && InByte(a)
    ensures FromRGBA8888(r, g, b, a).Ok?
    ensures FromRGBA8888(r, g, b, a).value.ToRGBA8888() == (r, g, b, a)
  {
  }

  /**
   * Going through 8 bits loses less than one step of 1/255 per channel, and
   * always downward, since `int()` truncates.
   */
  lemma Rgba8888Quantizes(c: Color)
    requires c.Valid()
    ensures var (r, g, b, a) := c.ToRGBA8888();
      var d := FromRGBA8888(r, g, b, a);
      && d.Ok?
      && d.value.red <= c.red < d.value.red + 1.0 / 255.0
      && d.value.green <= c.green < d.value.green + 1.0 / 255.0
      && d.value.blue <= c.blue < d.value.blue + 1.0 / 255.0
      && d.value.alpha <= c.alpha < d.value.alpha + 1.0 / 255.0
  {
  }

  /** `ToRGB888` is `ToRGBA8888` without its alpha component. */
  lemma Rgb888IsRgba8888WithoutAlpha(c: Color)
    requires c.Valid()
    ensures c.ToRGB888() == (c.ToRGBA8888().0, c.ToRGBA8888().1, c.ToRGBA8888().2)
  {
  }

  /** A colour made from three 8-bit channels is fully opaque in 8 bits as well. */
  lemma FromRgb888IsOpaque(r: int, g: int, b: int)
    requires InByte(r) && InByte(g) && InByte(b)
    ensures FromRGB888(r, g, b).Ok?
    ensures FromRGB888(r, g, b).value.ToRGBA8888() == (r, g, b, 255)
  {
    var c := FromRGB888(r, g, b).value;
    assert c.alpha == 1.0;
    var rgba := c.ToRGBA8888();
    assert Truncates(rgba.3, 255.0);
    assert rgba.3 == 255;
    assert rgba.0 == r && rgba.1 == g && rgba.2 == b;
  }

  // HSL

  /**
   * `FromHSL` fails exactly when the darkest channel `l - c/2` or the
   * brightest `l + c/2` leaves [0, 1]; the middle channel lies between them.
   */
  lemma FromHslSucceedsIff(hue: real, saturation: real, lightness: real)
    ensures var c := Chroma(saturation, lightness);
      FromHSL(hue, saturation, lightness).Ok? <==>
        InUnit(lightness - c / 2.0) && InUnit(lightness + c / 2.0)
  {
    var c := Chroma(saturation, lightness);
    var x := Intermediate(hue, c);
    var m := lightness - c / 2.0;
    var row := SectorRow(SectorIndex(hue), c, x);
    RowIsArrangement(SectorIndex(hue), c, x);
    if InUnit(m) && InUnit(m + c) {
      assert InUnit(row.0 + m) && InUnit(row.1 + m) && InUnit(row.2 + m);
    }
  }

  /** Each channel offset is `c`, `x` or 0, and each of the three occurs. */
  lemma RowIsArrangement(index: int, c: real, x: real)
    requires 0 <= index < 6
    ensures var row := SectorRow(index, c, x);
      && (row.0 == c || row.0 == x || row.0 == 0.0)
      && (row.1 == c || row.1 == x || row.1 == 0.0)
      && (row.2 == c || row.2 == x || row.2 == 0.0)
      && (row.0 == c || row.1 == c || row.2 == c)
      && (row.0 == 0.0 || row.1 == 0.0 || row.2 == 0.0)
  {
    var row := SectorRow(index, c, x);
    RowIsPermutation(index, c, x);
    var ms := multiset{row.0, row.1, row.2};
    assert c in ms && 0.0 in ms && x in ms;
    assert row.0 in multiset{c, x, 0.0};
    assert row.1 in multiset{c, x, 0.0};
    assert row.2 in multiset{c, x, 0.0};
  }

  /** Every row of the sector table is a permutation of `c`, `x` and 0. */
  lemma RowIsPermutation(index: int, c: real, x: real)
    requires 0 <= index < 6
    ensures var row := SectorRow(index, c, x);
      multiset{row.0, row.1, row.2} == multiset{c, x, 0.0}
  {
  }

  /** With no saturation every hue gives the grey of the lightness. */
  lemma FromHslUnsaturatedIsGray(hue: real, lightness: real)
    ensures FromHSL(hue, 0.0, lightness) == Gray(lightness)
  {
    var x := Intermediate(hue, 0.0);
    RowIsArrangement(SectorIndex(hue), 0.0, x);
  }

  /** Lightness 0 is black and lightness 1 is white, whatever the hue and saturation. */
  lemma FromHslLightnessExtremes(hue: real, saturation: real)
    ensures FromHSL(hue, saturation, 0.0) == Ok(Black())
    ensures FromHSL(hue, saturation, 1.0) == Ok(White())
  {
    RowIsArrangement(SectorIndex(hue), 0.0, Intermediate(hue, 0.0));
  }

  /** Hue is an angle: whole turns added or removed change nothing. */
  lemma FromHslPeriodic(hue: real, saturation: real, lightness: real, turns: int)
    ensures FromHSL(hue + 360.0 * turns as real, saturation, lightness)
         == FromHSL(hue, saturation, lightness)
  {
    SectorIndexPeriodic(hue, turns);
    TentPeriodic(hue, turns);
  }

  /** A whole turn is six sectors, so the sector index is unchanged. */
  lemma SectorIndexPeriodic(hue: real, turns: int)
    ensures SectorIndex(hue + 360.0 * turns as real) == SectorIndex(hue)
  {
    var sectors := 6 * turns;
    assert 360.0 * turns as real == sectors as real * 60.0;
    Numeric.FloorDivShift(hue, 60.0, sectors);
    var j := Numeric.FloorDiv(hue, 60.0);
    assert (j + sectors) % 6 == j % 6;
  }

  /** A whole turn is three periods of the tent, so the factor is unchanged. */
  lemma TentPeriodic(hue: real, turns: int)
    ensures Tent(hue + 360.0 * turns as real) == Tent(hue)
  {
    var periods := 3 * turns;
    assert (hue + 360.0 * turns as real) / 60.0 == hue / 60.0 + periods as real * 2.0;
    Numeric.FloorModShift(hue / 60.0, 2.0, periods);
  }

  // Luma

  /** The weights sum to 1: white has luma 1, black and the transparent colour 0. */
  lemma BrightnessOfFixedColors()
    ensures White().Brightness() == 1.0
    ensures Black().Brightness() == 0.0
    ensures Transparent().Brightness() == 0.0
  {
  }

  /** A grey's luma is its grayness. */
  lemma BrightnessOfGray(grayness: real)
    requires InUnit(grayness)
    ensures Gray(grayness).value.Brightness() == grayness
  {
  }

  /** Replacing alpha leaves the luma alone. */
  lemma BrightnessIgnoresAlpha(c: Color, a: real)
    requires c.Valid() && InUnit(a)
    ensures c.WithAlpha(a).value.Brightness() == c.Brightness()
  {
  }

  // Alpha and the HSL transforms

  /** Replacing alpha by the colour's own alpha is the identity. */
  lemma WithOwnAlpha(c: Color)
    requires c.Valid()
    ensures c.WithAlpha(c.alpha) == Ok(c)
  {
  }

  /** `darker(1)` is black and `lighter(1)` is white, each with the original alpha. */
  lemma FullDarkerAndLighter(c: Color, hls: Hls)
    requires c.Valid()
    ensures c.Darker(1.0, hls) == Ok(Color(0.0, 0.0, 0.0, c.alpha))
    ensures c.Lighter(1.0, hls) == Ok(Color(1.0, 1.0, 1.0, c.alpha))
  {
    var (h, s, l) := c.ToHSL(hls);
    FromHslLightnessExtremes(h, s);
  }

  /** `desaturated(1)` is the grey of the colour's lightness, with the original alpha. */
  lemma FullDesaturationIsGray(c: Color, hls: Hls)
    requires c.Valid() && InUnit(hls.lightness)
    ensures c.Desaturated(1.0, hls) == Ok(Color(hls.lightness, hls.lightness, hls.lightness, c.alpha))
  {
    var (h, s, l) := c.ToHSL(hls);
    FromHslUnsaturatedIsGray(h, l);
  }

  /**
   * When `hls` is an exact HSL description of the colour, a zero coefficient
   * gives the colour back from all four transforms.
   */
  lemma ZeroCoefficientIsIdentity(c: Color, hls: Hls)
    requires c.Valid()
    requires FromHSL(c.ToHSL(hls).0, c.ToHSL(hls).1, c.ToHSL(hls).2) == Ok(Color(c.red, c.green, c.blue, 1.0))
    ensures c.Darker(0.0, hls) == Ok(c)
    ensures c.Lighter(0.0, hls) == Ok(c)
    ensures c.Saturated(0.0, hls) == Ok(c)
    ensures c.Desaturated(0.0, hls) == Ok(c)
  {
  }
}
