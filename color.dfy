/**
 * The colour value type of `rs.misc.color`: four channels in [0, 1], the
 * factories that build one (from channels, 8-bit integers, `#RRGGBB` text
 * and HSL) and the queries and transforms on it.
 *
 * Channels are exact reals rather than IEEE doubles. The constructor's range
 * assertions, the k-assertions of the transforms and the `ValueError` of
 * hex parsing all become an `Err` result instead of an exception.
 */
module Colors {
  import opened Numeric
  import HexText

  /** Largest channel value in the 8-bit integer formats. */
  const RGBA8888_MAX: int := 255

  /** Luma weights of ITU-R BT.709. */
  const LUMA_R: real := 0.2126
  const LUMA_G: real := 0.7152
  const LUMA_B: real := 0.0722

  datatype Error =
    | ChannelOutOfRange       // a channel handed to the constructor lies outside [0, 1]
    | HexWrongLength          // a hex string that is not 7 characters long
    | HexMissingHash          // a hex string that does not start with '#'
    | HexInvalidDigit         // a channel pair that `int(_, 16)` rejects
    | CoefficientOutOfRange   // the k of darker/lighter/saturated/desaturated lies outside [0, 1]

  datatype Result<T> = Ok(value: T) | Err(error: Error)

  predicate InUnit(x: real) {
    0.0 <= x <= 1.0
  }

  predicate InByte(n: int) {
    0 <= n <= RGBA8888_MAX
  }

  /** `n` is what `int()` makes of the non-negative float `x`: its integer part. */
  predicate Truncates(n: int, x: real) {
    n as real <= x < n as real + 1.0
  }

  /**
   * What `colorsys.rgb_to_hls` returns for a colour's red, green and blue:
   * hue as a fraction of a full turn, then lightness, then saturation.
   */
  datatype Hls = Hls(hue: real, lightness: real, saturation: real) {
    /** The ranges the library yields for channels in [0, 1]. */
    predicate InRange() {
      0.0 <= hue < 1.0 && InUnit(lightness) && InUnit(saturation)
    }
  }

  datatype Color = Color(red: real, green: real, blue: real, alpha: real) {

    /** The invariant the constructor asserts. */
    predicate Valid() {
      InUnit(red) && InUnit(green) && InUnit(blue) && InUnit(alpha)
    }

    /** Each colour channel times 255, truncated. */
    function ToRGB888(): (rgb: (int, int, int))
      requires Valid()
      ensures InByte(rgb.0) && InByte(rgb.1) && InByte(rgb.2)
      ensures Truncates(rgb.0, red * 255.0) && Truncates(rgb.1, green * 255.0)
      ensures Truncates(rgb.2, blue * 255.0)
    {
      (Trunc(red * RGBA8888_MAX as real),
       Trunc(green * RGBA8888_MAX as real),
       Trunc(blue * RGBA8888_MAX as real))
    }

    /** Each of the four channels times 255, truncated. */
    function ToRGBA8888(): (rgba: (int, int, int, int))
      requires Valid()
      ensures InByte(rgba.0) && InByte(rgba.1) && InByte(rgba.2) && InByte(rgba.3)
      ensures Truncates(rgba.0, red * 255.0) && Truncates(rgba.1, green * 255.0)
      ensures Truncates(rgba.2, blue * 255.0) && Truncates(rgba.3, alpha * 255.0)
    {
      (Trunc(red * RGBA8888_MAX as real),
       Trunc(green * RGBA8888_MAX as real),
       Trunc(blue * RGBA8888_MAX as real),
       Trunc(alpha * RGBA8888_MAX as real))
    }

    /**
     * `(h * 360, s, l)` from the library's `(h, l, s)`; `hls` stands for
     * `colorsys.rgb_to_hls(red, green, blue)`.
     */
    function ToHSL(hls: Hls): (hsl: (real, real, real))
      ensures hls.InRange() ==> 0.0 <= hsl.0 < 360.0 && InUnit(hsl.1) && InUnit(hsl.2)
      ensures hsl.0 == hls.hue * 360.0
      ensures hsl.1 == hls.saturation && hsl.2 == hls.lightness
    {
      (hls.hue * 360.0, hls.saturation, hls.lightness)
    }

    /** `#rrggbb` from `ToRGB888`: lower case, two digits per channel. */
    function ToHex(): (s: string)
      requires Valid()
      ensures |s| == 7 && s[0] == '#'
      ensures forall i | 1 <= i < 7 :: HexText.IsLowerHexDigit(s[i])
    {
      var (r, g, b) := ToRGB888();
      "#" + HexText.FormatByte(r) + HexText.FormatByte(g) + HexText.FormatByte(b)
    }

    /** Luma of the colour channels; alpha plays no part. */
    function Brightness(): (y: real)
      requires Valid()
      ensures 0.0 <= y <= 1.0
      ensures y <= red || y <= green || y <= blue
      ensures y >= red || y >= green || y >= blue
    {
      LUMA_R * red + LUMA_G * green + LUMA_B * blue
    }

    /** A copy with only alpha replaced, subject to the constructor's check. */
    function WithAlpha(a: real): (r: Result<Color>)
      requires Valid()
      ensures r.Ok? <==> InUnit(a)
      ensures r.Ok? ==> r.value.Valid() && r.value.alpha == a
      ensures r.Ok? ==> r.value.red == red && r.value.green == green && r.value.blue == blue
    {
      New(red, green, blue, a)
    }

    /** Lightness scaled by `1 - k`, back through `FromHSL`, original alpha kept. */
    function Darker(k: real, hls: Hls): (r: Result<Color>)
      requires Valid()
      ensures !InUnit(k) ==> r == Err(CoefficientOutOfRange)
      ensures InUnit(k) && hls.InRange() ==> r.Ok? && r.value.Valid() && r.value.alpha == alpha
    {
      if !InUnit(k) then Err(CoefficientOutOfRange)
      else
        var hsl := ToHSL(hls);
        WithOriginalAlpha(FromHSL(hsl.0, hsl.1, TowardZero(hsl.2, k)))
    }

    /** Lightness moved toward 1 by the fraction `k`. */
    function Lighter(k: real, hls: Hls): (r: Result<Color>)
      requires Valid()
      ensures !InUnit(k) ==> r == Err(CoefficientOutOfRange)
      ensures InUnit(k) && hls.InRange() ==> r.Ok? && r.value.Valid() && r.value.alpha == alpha
    {
      if !InUnit(k) then Err(CoefficientOutOfRange)
      else
        var hsl := ToHSL(hls);
        WithOriginalAlpha(FromHSL(hsl.0, hsl.1, TowardOne(hsl.2, k)))
    }

    /** Saturation moved toward 1 by the fraction `k`. */
    function Saturated(k: real, hls: Hls): (r: Result<Color>)
      requires Valid()
      ensures !InUnit(k) ==> r == Err(CoefficientOutOfRange)
      ensures InUnit(k) && hls.InRange() ==> r.Ok? && r.value.Valid() && r.value.alpha == alpha
    {
      if !InUnit(k) then Err(CoefficientOutOfRange)
      else
        var hsl := ToHSL(hls);
        WithOriginalAlpha(FromHSL(hsl.0, TowardOne(hsl.1, k), hsl.2))
    }

    /** Saturation scaled by `1 - k`. */
    function Desaturated(k: real, hls: Hls): (r: Result<Color>)
      requires Valid()
      ensures !InUnit(k) ==> r == Err(CoefficientOutOfRange)
      ensures InUnit(k) && hls.InRange() ==> r.Ok? && r.value.Valid() && r.value.alpha == alpha
    {
      if !InUnit(k) then Err(CoefficientOutOfRange)
      else
        var hsl := ToHSL(hls);
        WithOriginalAlpha(FromHSL(hsl.0, TowardZero(hsl.1, k), hsl.2))
    }

    /** `.withAlpha(self.alpha)` applied to the outcome of `FromHSL`. */
    function WithOriginalAlpha(made: Result<Color>): (r: Result<Color>)
      requires Valid()
      requires made.Ok? ==> made.value.Valid()
      ensures r.Ok? <==> made.Ok?
      ensures r.Ok? ==> r.value.Valid() && r.value.alpha == alpha
      ensures r.Ok? ==> r.value.red == made.value.red && r.value.green == made.value.green
      ensures r.Ok? ==> r.value.blue == made.value.blue
    {
      match made
      case Err(e) => Err(e)
      case Ok(c) => c.WithAlpha(alpha)
    }
  }

  /**
   * `x * (1 - k)`: `x` moved the fraction `k` of the way to 0, as `darker`
   * does to the lightness and `desaturated` to the saturation.
   */
  function TowardZero(x: real, k: real): (y: real)
    ensures InUnit(x) && InUnit(k) ==> InUnit(y) && y <= x
    ensures k == 0.0 ==> y == x
    ensures k == 1.0 ==> y == 0.0
  {
    assert InUnit(x) && InUnit(k) ==> 0.0 <= x * (1.0 - k) <= x by {
      if InUnit(x) && InUnit(k) { UnitScale(x, 1.0 - k); }
    }
    x * (1.0 - k)
  }

  /**
   * `x + (1 - x) * k`: `x` moved the fraction `k` of the way to 1, as
   * `lighter` does to the lightness and `saturated` to the saturation.
   */
  function TowardOne(x: real, k: real): (y: real)
    ensures InUnit(x) && InUnit(k) ==> InUnit(y) && x <= y
    ensures k == 0.0 ==> y == x
    ensures k == 1.0 ==> y == 1.0
  {
    TowardOneFits(x, k);
    x + (1.0 - x) * k
  }

  /** The step `TowardOne` takes stays within the room left below 1. */
  lemma TowardOneFits(x: real, k: real)
    ensures InUnit(x) && InUnit(k) ==> 0.0 <= (1.0 - x) * k <= 1.0 - x
  {
    if InUnit(x) && InUnit(k) {
      UnitScale(1.0 - x, k);
    }
  }

  // Factories

  /** `Color(r, g, b, a)`: succeeds exactly when every channel lies in [0, 1]. */
  function New(red: real, green: real, blue: real, alpha: real): (r: Result<Color>)
    ensures r.Ok? <==> InUnit(red) && InUnit(green) && InUnit(blue) && InUnit(alpha)
    ensures r.Ok? ==> r.value.Valid()
    ensures r.Ok? ==> r.value.red == red && r.value.green == green
    ensures r.Ok? ==> r.value.blue == blue && r.value.alpha == alpha
    ensures r.Err? ==> r.error == ChannelOutOfRange
  {
    var c := Color(red, green, blue, alpha);
    if c.Valid() then Ok(c) else Err(ChannelOutOfRange)
  }

  /** Fully transparent black. */
  function Transparent(): (c: Color)
    ensures c.Valid() && c.alpha == 0.0
    ensures c.red == 0.0 && c.green == 0.0 && c.blue == 0.0
  {
    New(0.0, 0.0, 0.0, 0.0).value
  }

  /** Opaque white, built from `#ffffff`. */
  function White(): (c: Color)
    ensures c.Valid() && c == Color(1.0, 1.0, 1.0, 1.0)
  {
    FromHexWhite();
    FromHex("#ffffff").value
  }

  /** Opaque black, built from `#000000`. */
  function Black(): (c: Color)
    ensures c.Valid() && c == Color(0.0, 0.0, 0.0, 1.0)
  {
    FromHexBlack();
    FromHex("#000000").value
  }

  /** Opaque grey with all three colour channels equal to `grayness`. */
  function Gray(grayness: real): (r: Result<Color>)
    ensures r.Ok? <==> InUnit(grayness)
    ensures r.Ok? ==> r.value.Valid() && r.value.alpha == 1.0
    ensures r.Ok? ==> r.value.red == grayness && r.value.green == grayness && r.value.blue == grayness
  {
    New(grayness, grayness, grayness, 1.0)
  }

  /** The "Blurple" palette entry, built from `#5865F2`. */
  function Primary(): (c: Color)
    ensures c.Valid() && c.alpha == 1.0
    ensures c.ToHex() == "#5865f2"
  {
    FromHexPrimary();
    FromHex("#5865F2").value
  }

  /**
   * `#RRGGBB` text (either case) to an opaque colour. The length is checked
   * first, then the `#`, then the three digit pairs.
   */
  function FromHex(s: string): (r: Result<Color>)
    ensures r.Ok? <==> |s| == 7 && s[0] == '#' && forall i | 1 <= i < 7 :: HexText.IsHexDigit(s[i])
    ensures r.Ok? ==> r.value.Valid() && r.value.alpha == 1.0
    ensures |s| != 7 ==> r == Err(HexWrongLength)
    ensures |s| == 7 && s[0] != '#' ==> r == Err(HexMissingHash)
    ensures |s| == 7 && s[0] == '#' && r.Err? ==> r.error == HexInvalidDigit
  {
    if |s| != 7 then Err(HexWrongLength)
    else if s[0] != '#' then Err(HexMissingHash)
    else
      var r, g, b := HexText.ParseByte(s[1..3]), HexText.ParseByte(s[3..5]), HexText.ParseByte(s[5..7]);
      if r.Some? && g.Some? && b.Some? then FromRGB888(r.value, g.value, b.value)
      else Err(HexInvalidDigit)
  }

  /** Three 8-bit channels to an opaque colour. */
  function FromRGB888(r: int, g: int, b: int): (res: Result<Color>)
    ensures res.Ok? <==> InByte(r) && InByte(g) && InByte(b)
    ensures res.Ok? ==> res.value.Valid() && res.value.alpha == 1.0
    ensures res.Ok? ==> res.value.red * 255.0 == r as real && res.value.green * 255.0 == g as real
    ensures res.Ok? ==> res.value.blue * 255.0 == b as real
  {
    FromRGBA8888(r, g, b, RGBA8888_MAX)
  }

  /** Four 8-bit channels, each divided by 255; any argument outside 0..255 fails the range check. */
  function FromRGBA8888(r: int, g: int, b: int, a: int): (res: Result<Color>)
    ensures res.Ok? <==> InByte(r) && InByte(g) && InByte(b) && InByte(a)
    ensures res.Ok? ==> res.value.Valid()
    ensures res.Ok? ==> res.value.red * 255.0 == r as real && res.value.green * 255.0 == g as real
    ensures res.Ok? ==> res.value.blue * 255.0 == b as real && res.value.alpha * 255.0 == a as real
    ensures res.Err? ==> res.error == ChannelOutOfRange
  {
    var max := RGBA8888_MAX as real;
    New(r as real / max, g as real / max, b as real / max, a as real / max)
  }

  // HSL to RGB

  /** `c = (1 - |2l - 1|) * s`: it fits in the room lightness leaves on both sides. */
  function Chroma(saturation: real, lightness: real): (c: real)
    ensures InUnit(saturation) && InUnit(lightness) ==>
              0.0 <= c && 0.0 <= lightness - c / 2.0 && lightness + c / 2.0 <= 1.0
    ensures saturation == 0.0 || lightness == 0.0 || lightness == 1.0 ==> c == 0.0
  {
    var room := 1.0 - Abs(2.0 * lightness - 1.0);
    assert InUnit(saturation) && InUnit(lightness) ==>
             0.0 <= room * saturation && 0.0 <= lightness - room * saturation / 2.0
             && lightness + room * saturation / 2.0 <= 1.0 by {
      if InUnit(saturation) && InUnit(lightness) { ChromaFits(room, saturation, lightness); }
    }
    assert lightness == 0.0 || lightness == 1.0 ==> room == 0.0;
    room * saturation
  }

  lemma ChromaFits(room: real, saturation: real, lightness: real)
    requires InUnit(saturation) && InUnit(lightness)
    requires room == 1.0 - Abs(2.0 * lightness - 1.0)
    ensures 0.0 <= room * saturation
    ensures 0.0 <= lightness - room * saturation / 2.0 && lightness + room * saturation / 2.0 <= 1.0
  {
    assert 0.0 <= room / 2.0 <= lightness && lightness + room / 2.0 <= 1.0;
    UnitScale(room, saturation);
  }

  lemma UnitScale(x: real, y: real)
    requires 0.0 <= x && InUnit(y)
    ensures 0.0 <= x * y <= x
  {
  }

  /** `x = c * (1 - |(hue / 60) % 2 - 1|)`: always between 0 and `c`. */
  function Intermediate(hue: real, c: real): (x: real)
    ensures 0.0 <= c ==> 0.0 <= x <= c
    ensures c <= 0.0 ==> c <= x <= 0.0
  {
    Scale(c, Tent(hue))
  }

  /** `c` scaled by a factor in [0, 1] lies between 0 and `c`, whatever the sign of `c`. */
  function Scale(c: real, f: real): (x: real)
    requires InUnit(f)
    ensures 0.0 <= c ==> 0.0 <= x <= c
    ensures c <= 0.0 ==> c <= x <= 0.0
  {
    c * f
  }

  /**
   * `1 - |(hue / 60) % 2 - 1|`, the factor that scales `c` into `x`: 0 at
   * every multiple of 120 degrees, 1 at every odd multiple of 60.
   */
  function Tent(hue: real): (f: real)
    ensures InUnit(f)
  {
    1.0 - Abs(FloorMod(hue / 60.0, 2.0) - 1.0)
  }

  /** `int(hue // 60) % 6`: which 60-degree sector of the wheel `hue` falls in. */
  function SectorIndex(hue: real): (i: int)
    ensures 0 <= i < 6
  {
    FloorDiv(hue, 60.0) % 6
  }

  /**
   * Row `index` of the six-row sector table. Red carries the full chroma `c`
   * in sectors 5 and 0, green in 1 and 2, blue in 3 and 4; the channel
   * opposite is 0. Every row is a permutation of `c`, `x` and 0
   * (`ColorLaws.RowIsPermutation`).
   */
  function SectorRow(index: int, c: real, x: real): (row: (real, real, real))
    requires 0 <= index < 6
    ensures index == 5 || index == 0 ==> row.0 == c
    ensures index == 1 || index == 2 ==> row.1 == c
    ensures index == 3 || index == 4 ==> row.2 == c
    ensures index == 2 || index == 3 ==> row.0 == 0.0
    ensures index == 4 || index == 5 ==> row.1 == 0.0
    ensures index == 0 || index == 1 ==> row.2 == 0.0
  {
    if index == 0 then (c, x, 0.0)
    else if index == 1 then (x, c, 0.0)
    else if index == 2 then (0.0, c, x)
    else if index == 3 then (0.0, x, c)
    else if index == 4 then (x, 0.0, c)
    else (c, 0.0, x)
  }

  /** HSL to an opaque colour; fails only where a channel would leave [0, 1]. */
  function FromHSL(hue: real, saturation: real, lightness: real): (r: Result<Color>)
    ensures r.Ok? ==> r.value.Valid() && r.value.alpha == 1.0
    ensures InUnit(saturation) && InUnit(lightness) ==> r.Ok?
  {
    var c := Chroma(saturation, lightness);
    var x := Intermediate(hue, c);
    var m := lightness - c / 2.0;
    var (r, g, b) := SectorRow(SectorIndex(hue), c, x);
    assert InUnit(saturation) && InUnit(lightness) ==> InUnit(r + m) && InUnit(g + m) && InUnit(b + m) by {
      if InUnit(saturation) && InUnit(lightness) {
        RowWithinChroma(SectorIndex(hue), c, x);
      }
    }
    New(r + m, g + m, b + m, 1.0)
  }

  /** Every entry of a row lies between 0 and `c` when `x` does. */
  lemma RowWithinChroma(index: int, c: real, x: real)
    requires 0 <= index < 6 && 0.0 <= x <= c
    ensures var row := SectorRow(index, c, x);
      0.0 <= row.0 <= c && 0.0 <= row.1 <= c && 0.0 <= row.2 <= c
  {
  }

  // Fixed hex strings the palette factories parse

  lemma FromHexWhite()
    ensures FromHex("#ffffff") == Ok(Color(1.0, 1.0, 1.0, 1.0))
  {
    assert "#ffffff"[1..3] == "ff" && "#ffffff"[3..5] == "ff" && "#ffffff"[5..7] == "ff";
  }

  lemma FromHexBlack()
    ensures FromHex("#000000") == Ok(Color(0.0, 0.0, 0.0, 1.0))
  {
    assert "#000000"[1..3] == "00" && "#000000"[3..5] == "00" && "#000000"[5..7] == "00";
  }

  lemma FromHexPrimary()
    ensures FromHex("#5865F2").Ok?
    ensures FromHex("#5865F2").value.alpha == 1.0
    ensures FromHex("#5865F2").value.ToHex() == "#5865f2"
  {
    var s := "#5865F2";
    assert s[1..3] == "58" && s[3..5] == "65" && s[5..7] == "F2";
    var c := FromHex(s).value;
    assert c == Color(88.0 / 255.0, 101.0 / 255.0, 242.0 / 255.0, 1.0);
    assert c.ToRGB888() == (88, 101, 242);
  }
}
