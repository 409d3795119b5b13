# Colour value type of `rs.misc.color`

A Dafny model of `Color` from `lib/rs-lib/rs/misc/color.py`. It is an immutable
colour with red, green, blue and alpha channels, each in [0, 1]. The model
covers the factories (`none`, `white`, `black`, `gray`, the `primary` palette
entry, `fromHex`, `fromRGB888`, `fromRGBA8888`, `fromHSL`) and the conversions
(`toRGB888`, `toRGBA8888`, `toHSL`, `toHex`). It also covers the luma
(`brightness`), `withAlpha` and the four HSL transforms (`darker`, `lighter`,
`saturated`, `desaturated`).

Modules:

- `Numeric` (`numeric.dfy`): Python's `abs`, `int()` on a float, and float
  `//` and `%`, written out over exact reals.
- `HexText` (`hex_text.dfy`): two-digit hexadecimal parsing, the strict
  form of `int(p, 16)` that accepts exactly two ASCII hex digits, and the
  `{n:02x}` formatting.
- `Colors` (`color.dfy`): the `Color` datatype with its `Valid()` invariant
  (the constructor's range assertions), and every factory, conversion and
  transform.
- `ColorLaws` (`color_laws.dfy`): the properties that relate several
  operations: round trips, special cases of HSL, luma of the fixed colours,
  and the transforms at coefficients 0 and 1.
- `HslReference` (`hsl_reference.dfy`): an independent closed form of HSL to
  RGB, from section 7.1 of CSS Color Module Level 4. It is proved equal to
  the sector-table construction of `fromHSL`.
- `TransformLaws` (`transform_laws.dfy`): what the four
  transforms do to the channels. The proofs go through the closed form.

Python's assertion failures and `int(_, 16)`'s `ValueError` become an `Err`
result that names the failed check; a pair that is not two ASCII hex digits
is `HexInvalidDigit`, even where `int(_, 16)` would accept it. The model never raises.
`colorsys.rgb_to_hls` is not modelled. Its result enters as a parameter
`hls: Hls`, and contracts that need its ranges are conditioned on
`hls.InRange()`.

## Model

| member | source | states |
|---|---|---|
| Colors.New | lib/rs-lib/rs/misc/color.py:27-31 | construction succeeds exactly when all four channels lie in [0, 1], which is the invariant `Colors.Color.Valid`; the colour keeps the given channels; otherwise the error is `ChannelOutOfRange` |
| Colors.Transparent | lib/rs-lib/rs/misc/color.py:35-38 | valid, all channels 0, alpha 0 |
| Colors.White | lib/rs-lib/rs/misc/color.py:40-43 | parsing `#ffffff` gives the valid colour (1, 1, 1, 1) |
| Colors.Black | lib/rs-lib/rs/misc/color.py:45-48 | parsing `#000000` gives the valid colour (0, 0, 0, 1) |
| Colors.Gray | lib/rs-lib/rs/misc/color.py:50-56 | succeeds exactly when grayness is in [0, 1]; red = green = blue = grayness and alpha 1 |
| Colors.Primary | lib/rs-lib/rs/misc/color.py:75-78 | `#5865F2` parses to a valid opaque colour whose hex text is `#5865f2` |
| Colors.FromHex | lib/rs-lib/rs/misc/color.py:102-112 | succeeds exactly for 7 characters, a leading `#` and six hex digits; the length is checked before the `#`, and each has its own error; the result is valid and opaque |
| Colors.FromRGB888 | lib/rs-lib/rs/misc/color.py:114-117 | succeeds exactly when r, g, b are in 0..255; each channel times 255 is the integer given; alpha is 1 |
| Colors.FromRGBA8888 | lib/rs-lib/rs/misc/color.py:119-127 | succeeds exactly when all four integers are in 0..255, else `ChannelOutOfRange`; each channel times 255 is the integer given |
| Colors.Chroma | lib/rs-lib/rs/misc/color.py:138 | for s and l in [0, 1], `l - c/2` and `l + c/2` stay in [0, 1]; c is 0 when s is 0 or l is 0 or 1 |
| Colors.Intermediate | lib/rs-lib/rs/misc/color.py:139 | x lies between 0 and c, on the side of c |
| Colors.Tent | lib/rs-lib/rs/misc/color.py:139 | the factor that scales c into x, one minus the distance of (hue / 60) mod 2 from 1, lies in [0, 1] |
| Colors.Scale | lib/rs-lib/rs/misc/color.py:139 | c times a factor in [0, 1] lies between 0 and c, whichever the sign of c |
| Colors.SectorRow | lib/rs-lib/rs/misc/color.py:144-153 | red carries the full chroma c in sectors 5 and 0, green in 1 and 2, blue in 3 and 4; red is 0 in sectors 2 and 3, green in 4 and 5, blue in 0 and 1 |
| Colors.SectorIndex | lib/rs-lib/rs/misc/color.py:142 | the sector index is in 0..5 for every real hue |
| Colors.FromHSL | lib/rs-lib/rs/misc/color.py:129-154 | for saturation and lightness in [0, 1] and any hue, the result is a valid colour with alpha 1 |
| Colors.Color.ToRGB888 | lib/rs-lib/rs/misc/color.py:158-164 | each component is in 0..255 and is the truncation of channel × 255 |
| Colors.Color.ToRGBA8888 | lib/rs-lib/rs/misc/color.py:166-173 | each of the four components is in 0..255 and is the truncation of channel × 255 |
| Colors.Color.ToHSL | lib/rs-lib/rs/misc/color.py:175-178 | reorders the library's (h, l, s) into (h × 360, s, l); hue in [0, 360) and s, l in [0, 1] when the library's triple is in range |
| Colors.Color.ToHex | lib/rs-lib/rs/misc/color.py:182-185 | exactly 7 characters: `#` and six lower-case hex digits |
| Colors.Color.Brightness | lib/rs-lib/rs/misc/color.py:187-189 | the BT.709 luma lies in [0, 1] and between the smallest and the largest colour channel |
| Colors.Color.WithAlpha | lib/rs-lib/rs/misc/color.py:237-242 | succeeds exactly when the new alpha is in [0, 1]; red, green and blue are unchanged and alpha is the new one |
| Colors.Color.WithOriginalAlpha | lib/rs-lib/rs/misc/color.py:199 | `.withAlpha(self.alpha)` on a `fromHSL` outcome keeps its channels and success, and sets the original alpha |
| Colors.TowardZero | lib/rs-lib/rs/misc/color.py:197 | `x * (1 - k)` stays in [0, 1] and does not exceed x; it is x at k = 0 and 0 at k = 1 |
| Colors.TowardOne | lib/rs-lib/rs/misc/color.py:209 | `x + (1 - x) * k` stays in [0, 1] and is not below x; it is x at k = 0 and 1 at k = 1 |
| Colors.TowardOneFits | lib/rs-lib/rs/misc/color.py:209 | the step `(1 - x) * k` is between 0 and the room `1 - x` left below 1 |
| Colors.Color.Darker | lib/rs-lib/rs/misc/color.py:191-199 | k outside [0, 1] is rejected; otherwise, with the library's triple in range, the result is valid and keeps the original alpha |
| Colors.Color.Lighter | lib/rs-lib/rs/misc/color.py:201-211 | k outside [0, 1] is rejected; otherwise, with the library's triple in range, the result is valid and keeps the original alpha |
| Colors.Color.Saturated | lib/rs-lib/rs/misc/color.py:213-223 | k outside [0, 1] is rejected; otherwise, with the library's triple in range, the result is valid and keeps the original alpha |
| Colors.Color.Desaturated | lib/rs-lib/rs/misc/color.py:225-235 | k outside [0, 1] is rejected; otherwise, with the library's triple in range, the result is valid and keeps the original alpha |
| Numeric.Abs | lib/rs-lib/rs/misc/color.py:138-139 | Python's `abs`: non-negative, and equal to x or -x |
| Numeric.Trunc | lib/rs-lib/rs/misc/color.py:161 | `int()` of a float: the integer part, toward zero on both signs |
| Numeric.FloorDiv | lib/rs-lib/rs/misc/color.py:142 | float `//` with a positive divisor: the q with q·b ≤ a < (q + 1)·b |
| Numeric.FloorMod | lib/rs-lib/rs/misc/color.py:139 | float `%` with a positive divisor: the remainder lies in [0, b) |
| Numeric.FloorModShift | lib/rs-lib/rs/misc/color.py:139 | adding whole multiples of the divisor leaves the remainder unchanged |
| HexText.ParseByte | lib/rs-lib/rs/misc/color.py:108-110 | a two-character pair parses exactly when both are hex digits; the value is below 256 |
| HexText.FormatByte | lib/rs-lib/rs/misc/color.py:185 | `{n:02x}`: two lower-case hex digits |
| HexText.ParseFormatByte | lib/rs-lib/rs/misc/color.py:185 | formatting a byte and parsing it back gives the byte |
| HexText.FormatParseByte | lib/rs-lib/rs/misc/color.py:108-110 | parsing a pair and formatting it back gives the pair lower-cased |
| ColorLaws.HexRoundTrip | lib/rs-lib/rs/misc/color.py:102-112 | `toHex(fromHex(s))` is `#` followed by the six digits of `s`, lower-cased |
| ColorLaws.ToHexParsesBack | lib/rs-lib/rs/misc/color.py:182-185 | the text `toHex` writes always parses, to the opaque colour of the truncated 8-bit channels |
| ColorLaws.ToHexOfFromHexIsStable | lib/rs-lib/rs/misc/color.py:102-112 | parsing the hex text of a parsed colour gives the same colour |
| ColorLaws.Rgba8888RoundTrip | lib/rs-lib/rs/misc/color.py:119-127 | for integers in 0..255, `toRGBA8888(fromRGBA8888(r, g, b, a)) == (r, g, b, a)` |
| ColorLaws.Rgba8888Quantizes | lib/rs-lib/rs/misc/color.py:166-173 | going through 8 bits moves every channel down by less than 1/255 |
| ColorLaws.Rgb888IsRgba8888WithoutAlpha | lib/rs-lib/rs/misc/color.py:158-173 | `toRGB888` is the first three components of `toRGBA8888` |
| ColorLaws.FromRgb888IsOpaque | lib/rs-lib/rs/misc/color.py:114-117 | a colour from three bytes converts back to those bytes with alpha 255 |
| ColorLaws.FromHslSucceedsIff | lib/rs-lib/rs/misc/color.py:138-154 | `fromHSL` succeeds exactly when `l - c/2` and `l + c/2` both lie in [0, 1] |
| ColorLaws.RowIsPermutation | lib/rs-lib/rs/misc/color.py:144-153 | every row of the sector table is a permutation of c, x and 0 |
| ColorLaws.RowIsArrangement | lib/rs-lib/rs/misc/color.py:144-153 | every entry of a row is c, x or 0, and c and 0 both occur |
| ColorLaws.FromHslUnsaturatedIsGray | lib/rs-lib/rs/misc/color.py:129-154 | saturation 0 gives `gray(l)` for every hue |
| ColorLaws.FromHslLightnessExtremes | lib/rs-lib/rs/misc/color.py:129-154 | lightness 0 gives black and lightness 1 gives white, for every hue and saturation |
| ColorLaws.FromHslPeriodic | lib/rs-lib/rs/misc/color.py:129-154 | adding any whole number of turns of 360 to the hue changes nothing |
| ColorLaws.SectorIndexPeriodic | lib/rs-lib/rs/misc/color.py:142 | `int(hue // 60) % 6` is the same for hue and hue plus any whole number of turns |
| ColorLaws.TentPeriodic | lib/rs-lib/rs/misc/color.py:139 | the factor `1 - abs((hue / 60) % 2 - 1)` is the same for hue and hue plus any whole number of turns |
| ColorLaws.BrightnessOfFixedColors | lib/rs-lib/rs/misc/color.py:187-189 | white has luma 1, black and the transparent colour 0 |
| ColorLaws.BrightnessOfGray | lib/rs-lib/rs/misc/color.py:187-189 | the luma of `gray(k)` is k |
| ColorLaws.BrightnessIgnoresAlpha | lib/rs-lib/rs/misc/color.py:187-189 | replacing alpha leaves the luma unchanged |
| ColorLaws.WithOwnAlpha | lib/rs-lib/rs/misc/color.py:237-242 | `withAlpha(alpha)` with the colour's own alpha is the identity |
| ColorLaws.FullDarkerAndLighter | lib/rs-lib/rs/misc/color.py:191-211 | `darker(1)` is black and `lighter(1)` is white, with the original alpha, whatever `toHSL` returns |
| ColorLaws.FullDesaturationIsGray | lib/rs-lib/rs/misc/color.py:225-235 | `desaturated(1)` is the grey of the lightness, with the original alpha |
| ColorLaws.ZeroCoefficientIsIdentity | lib/rs-lib/rs/misc/color.py:191-235 | when `fromHSL` rebuilds the colour from its own HSL triple, all four transforms with k = 0 return the colour |
| HslReference.FromHslIsClosedForm | lib/rs-lib/rs/misc/color.py:138-154 | for every real hue, saturation and lightness, `fromHSL` equals the CSS closed form `l - s·min(l, 1 - l)·max(-1, min(k - 3, 9 - k, 1))` channel by channel |
| TransformLaws.FromHslLightnessMonotone | lib/rs-lib/rs/misc/color.py:129-154 | with hue and saturation fixed, more lightness never lowers any channel |
| TransformLaws.FromHslSaturationSpreads | lib/rs-lib/rs/misc/color.py:129-154 | with hue and lightness fixed, more saturation moves every channel further from the lightness, on the side it was on |
| TransformLaws.DarkerNeverBrightens | lib/rs-lib/rs/misc/color.py:191-199 | no channel of `darker(k)` exceeds that of the colour rebuilt from its own HSL |
| TransformLaws.LighterNeverDarkens | lib/rs-lib/rs/misc/color.py:201-211 | no channel of `lighter(k)` is below that of the colour rebuilt from its own HSL |
| TransformLaws.SaturatedSpreads | lib/rs-lib/rs/misc/color.py:213-223 | `saturated(k)` moves every channel away from the lightness |
| TransformLaws.DesaturatedGathers | lib/rs-lib/rs/misc/color.py:225-235 | `desaturated(k)` draws every channel toward the lightness |

## Left out

- Floating point: channels are exact reals, not IEEE-754 doubles, so rounding is not modelled. The [0, 1] guarantee of `Colors.FromHSL` and the `Ok` results of the four transforms hold over exact reals only. With doubles, `fromHSL(0, 1.0, 0.005)` computes c = 0.010000000000000009 and m = l - c/2 ≈ -4.3e-18. The green channel is then m, below 0, and the constructor's assertion fails. `darker`, `lighter`, `saturated` and `desaturated` can fail the same way through `fromHSL`.
- `colorsys.rgb_to_hls` is not part of this model. `toHSL` takes its result as the parameter `hls`. Nothing ties `hls` to the colour's channels, so no HSL round trip is stated.
- Colors.Color.Darker: the contract states only the k-check, validity and the kept alpha, and only when the `hls` triple is in range. The effect on the channels is stated by `TransformLaws.DarkerNeverBrightens` and `ColorLaws.FullDarkerAndLighter`. The same holds for `Lighter`, `Saturated` and `Desaturated` and their partner lemmas.
- Colors.FromHex: accepts only two ASCII hex digits per channel. Python's `int(_, 16)` also accepts surrounding whitespace, a `+` or `-` sign, and non-ASCII decimal digits (`int("٣٤", 16)` is 52). So `"# f0000"` or `"#+f0000"` parse in Python but are `HexInvalidDigit` here. A negative pair such as `-f` fails the range check in Python and fails here as `HexInvalidDigit`.
- HexText.ParseByte: returns `None` for any pair that is not two ASCII hex digits. Python's `int(_, 16)` also parses pairs such as `" f"`, `"+f"` and `"-0"` (to 15, 15 and 0).
- The other palette entries (`grey`, `nitro`, `online`, `secondary`, `success`, `danger`, `warning`) are fixed calls of `fromHex` on literal strings. Only `primary` is modelled, as a representative.
- The kind of exception (`AssertionError` or `ValueError`) is kept only as the `Error` variant. Running Python with assertions disabled is not modelled.
- `lib/bytelang-lib/bytelang/abc/serializer.py` is not part of this model. It is an abstract interface without bodies.
- `test/dpg_test_modal.py` is not part of this model. It is GUI wiring for a demo window.
