/**
 * An independent statement of HSL to RGB: the closed form that CSS Color
 * Module Level 4 gives as sample code in section 7.1 ("Converting HSL
 * Colors to sRGB"). There each channel is
 *
 *     l - a * max(-1, min(k - 3, 9 - k, 1))
 *
 * with `a = s * min(l, 1 - l)` and `k = (n + hue / 30) mod 12`, where n is
 * 0 for red, 8 for green and 4 for blue. No sector table appears in it.
 * `FromHslIsClosedForm` proves that the chroma / sector-table construction of
 * `FromHSL` computes exactly these channels, for every real hue, saturation
 * and lightness.
 */
module HslReference {
  import opened Numeric
  import opened Colors

  function Min(x: real, y: real): real {
    if x <= y then x else y
  }

  function Max(x: real, y: real): real {
    if x <= y then y else x
  }

  /** The clamped tent profile of the closed form, for a position k on a 12-step wheel. */
  function Ramp(k: real): (f: real)
    ensures -1.0 <= f <= 1.0
  {
    Max(-1.0, Min(Min(k - 3.0, 9.0 - k), 1.0))
  }

  /** Channel `n` (0 red, 8 green, 4 blue) of the closed form. */
  function ClosedFormChannel(n: real, hue: real, saturation: real, lightness: real): real {
    var k := FloorMod(n + hue / 30.0, 12.0);
    var a := saturation * Min(lightness, 1.0 - lightness);
    lightness - a * Ramp(k)
  }

  /** The sector-table construction and the closed form give the same colour. */
  lemma FromHslIsClosedForm(hue: real, saturation: real, lightness: real)
    ensures FromHSL(hue, saturation, lightness)
         == New(ClosedFormChannel(0.0, hue, saturation, lightness),
                ClosedFormChannel(8.0, hue, saturation, lightness),
                ClosedFormChannel(4.0, hue, saturation, lightness),
                1.0)
  {
    ChannelMatches(0, hue, saturation, lightness);
    ChannelMatches(1, hue, saturation, lightness);
    ChannelMatches(2, hue, saturation, lightness);
  }

  /** One channel of `FromHSL` before the range check, against the closed form. */
  lemma ChannelMatches(channel: int, hue: real, saturation: real, lightness: real)
    requires 0 <= channel < 3
    ensures Entry(SectorRow(SectorIndex(hue), Chroma(saturation, lightness),
                            Intermediate(hue, Chroma(saturation, lightness))), channel)
            + (lightness - Chroma(saturation, lightness) / 2.0)
         == ClosedFormChannel(Offset(channel), hue, saturation, lightness)
  {
    RowAtHue(channel, hue, Chroma(saturation, lightness));
    ScaledChannel(channel, hue, saturation, lightness);
  }

  /** The channel written with the unit table's entry `w`, against the closed form's profile. */
  lemma ScaledChannel(channel: int, hue: real, saturation: real, lightness: real)
    requires 0 <= channel < 3
    ensures Chroma(saturation, lightness) * Entry(SectorRow(SectorIndex(hue), 1.0, Tent(hue)), channel)
            + (lightness - Chroma(saturation, lightness) / 2.0)
         == ClosedFormChannel(Offset(channel), hue, saturation, lightness)
  {
    ClosedFormChannelIs(Offset(channel), hue, saturation, lightness);
    ChromaIsTwiceA(saturation, lightness);
    RampAtHue(channel, hue);
    ChannelAgrees(lightness, saturation * Min(lightness, 1.0 - lightness), Chroma(saturation, lightness),
      Entry(SectorRow(SectorIndex(hue), 1.0, Tent(hue)), channel), Ramp(FloorMod(Offset(channel) + hue / 30.0, 12.0)));
  }

  /** A channel's entry in the table at `hue` is `c` times its entry for unit chroma. */
  lemma RowAtHue(channel: int, hue: real, c: real)
    requires 0 <= channel < 3
    ensures Entry(SectorRow(SectorIndex(hue), c, Intermediate(hue, c)), channel)
         == c * Entry(SectorRow(SectorIndex(hue), 1.0, Tent(hue)), channel)
  {
    ScaledRow(channel, SectorIndex(hue), c, Tent(hue));
  }

  lemma ClosedFormChannelIs(n: real, hue: real, saturation: real, lightness: real)
    ensures ClosedFormChannel(n, hue, saturation, lightness)
         == lightness - saturation * Min(lightness, 1.0 - lightness) * Ramp(FloorMod(n + hue / 30.0, 12.0))
  {
  }

  /** `1 - |2l - 1|` is twice the smaller of `l` and `1 - l`. */
  lemma ChromaIsTwiceA(saturation: real, lightness: real)
    ensures Chroma(saturation, lightness) == 2.0 * (saturation * Min(lightness, 1.0 - lightness))
  {
    var room := 1.0 - Abs(2.0 * lightness - 1.0);
    var least := Min(lightness, 1.0 - lightness);
    assert room == 2.0 * least;
    assert room * saturation == 2.0 * (saturation * least);
  }

  /** The closed form's profile at `hue` for a channel, in terms of the unit sector table. */
  lemma RampAtHue(channel: int, hue: real)
    requires 0 <= channel < 3
    ensures Ramp(FloorMod(Offset(channel) + hue / 30.0, 12.0))
         == 1.0 - 2.0 * Entry(SectorRow(SectorIndex(hue), 1.0, Tent(hue)), channel)
  {
    var i := SectorIndex(hue);
    var frac, turns := SectorPosition(hue);
    RampMatchesRow(channel, i, frac);
    Wrap12(Offset(channel), i as real + frac, turns);
  }

  /**
   * `hue` is `frac` of the way through sector `SectorIndex(hue)`, after
   * `turns` whole turns.
   */
  lemma SectorPosition(hue: real) returns (frac: real, turns: int)
    ensures 0.0 <= frac < 1.0
    ensures hue / 30.0 == 2.0 * (SectorIndex(hue) as real + frac) + 12.0 * turns as real
    ensures FloorMod(hue / 60.0, 2.0) == (SectorIndex(hue) % 2) as real + frac
  {
    var j := FloorDiv(hue, 60.0);
    var i := SectorIndex(hue);
    turns := j / 6;
    assert j == 6 * turns + i;
    var y := hue / 60.0;
    assert j as real <= y < j as real + 1.0 by {
      var next := j as real + 1.0;
      DivMonotone(j as real * 60.0, hue, 60.0);
      DivStrict(hue, next * 60.0, 60.0);
    }
    frac := y - j as real;
    var pairs := 3 * turns + i / 2;
    assert j == 2 * pairs + i % 2;
    assert pairs as real * 2.0 <= y < (pairs as real + 1.0) * 2.0;
    FloorModUnique(y, 2.0, pairs);
  }

  function WrapOnce(p: real): real {
    if p < 12.0 then p else p - 12.0
  }

  /** Reducing `n + 2v` (with `0 <= v < 6`) modulo 12 wraps it at most once. */
  lemma Wrap12(n: real, v: real, turns: int)
    requires 0.0 <= n < 12.0 && 0.0 <= v < 6.0
    ensures FloorMod(n + (2.0 * v + 12.0 * turns as real), 12.0) == WrapOnce(n + 2.0 * v)
  {
    var base := turns as real * 12.0;
    var p := n + (2.0 * v + 12.0 * turns as real);
    assert p == n + 2.0 * v + base;
    assert (turns as real + 1.0) * 12.0 == base + 12.0;
    if n + 2.0 * v < 12.0 {
      assert base <= p < base + 12.0;
      FloorModUnique(p, 12.0, turns);
    } else {
      var next := turns + 1;
      assert next as real * 12.0 == base + 12.0;
      assert (next as real + 1.0) * 12.0 == base + 24.0;
      assert base + 12.0 <= p < base + 24.0;
      FloorModUnique(p, 12.0, next);
    }
  }

  /** The closed form's `n` for a channel: 0 for red, 8 for green, 4 for blue. */
  function Offset(channel: int): real
    requires 0 <= channel < 3
  {
    if channel == 0 then 0.0 else if channel == 1 then 8.0 else 4.0
  }

  function Entry(row: (real, real, real), channel: int): real
    requires 0 <= channel < 3
  {
    if channel == 0 then row.0 else if channel == 1 then row.1 else row.2
  }

  /**
   * At every position of the wheel, the closed form's profile for a channel
   * is `1 - 2w`, where `w` is that channel's entry in the sector table for
   * unit chroma.
   */
  lemma RampMatchesRow(channel: int, i: int, frac: real)
    requires 0 <= channel < 3 && 0 <= i < 6 && 0.0 <= frac < 1.0
    ensures var v := i as real + frac;
      var f := 1.0 - Abs((i % 2) as real + frac - 1.0);
      Ramp(WrapOnce(Offset(channel) + 2.0 * v)) == 1.0 - 2.0 * Entry(SectorRow(i, 1.0, f), channel)
  {
    var v := i as real + frac;
    var f := 1.0 - Abs((i % 2) as real + frac - 1.0);
    var unit := SectorRow(i, 1.0, f);
    RampPieces(WrapOnce(Offset(channel) + 2.0 * v));
    if i == 0 {
      assert f == frac && unit == (1.0, frac, 0.0);
    } else if i == 1 {
      assert f == 1.0 - frac && unit == (1.0 - frac, 1.0, 0.0);
    } else if i == 2 {
      assert f == frac && unit == (0.0, 1.0, frac);
    } else if i == 3 {
      assert f == 1.0 - frac && unit == (0.0, 1.0 - frac, 1.0);
    } else if i == 4 {
      assert f == frac && unit == (frac, 0.0, 1.0);
    } else {
      assert f == 1.0 - frac && unit == (1.0, 0.0, 1.0 - frac);
    }
  }

  /** The tent profile piece by piece: -1, rising, 1, falling, -1. */
  lemma RampPieces(k: real)
    ensures k <= 2.0 ==> Ramp(k) == -1.0
    ensures 2.0 <= k <= 4.0 ==> Ramp(k) == k - 3.0
    ensures 4.0 <= k <= 8.0 ==> Ramp(k) == 1.0
    ensures 8.0 <= k <= 10.0 ==> Ramp(k) == 9.0 - k
    ensures 10.0 <= k ==> Ramp(k) == -1.0
  {
  }

  /** The sector table is linear in the chroma. */
  lemma ScaledRow(channel: int, i: int, c: real, f: real)
    requires 0 <= channel < 3 && 0 <= i < 6
    ensures Entry(SectorRow(i, c, c * f), channel) == c * Entry(SectorRow(i, 1.0, f), channel)
  {
    var scaled, unit := SectorRow(i, c, c * f), SectorRow(i, 1.0, f);
    RowCases(i, c, c * f);
    RowCases(i, 1.0, f);
    assert c * 1.0 == c && c * 0.0 == 0.0;
    assert scaled.0 == c * unit.0;
    assert scaled.1 == c * unit.1;
    assert scaled.2 == c * unit.2;
  }

  /** The table row by row. */
  lemma RowCases(i: int, c: real, x: real)
    requires 0 <= i < 6
    ensures i == 0 ==> SectorRow(i, c, x) == (c, x, 0.0)
    ensures i == 1 ==> SectorRow(i, c, x) == (x, c, 0.0)
    ensures i == 2 ==> SectorRow(i, c, x) == (0.0, c, x)
    ensures i == 3 ==> SectorRow(i, c, x) == (0.0, x, c)
    ensures i == 4 ==> SectorRow(i, c, x) == (x, 0.0, c)
    ensures i == 5 ==> SectorRow(i, c, x) == (c, 0.0, x)
  {
  }

  /** `w * c + (l - c/2)` equals `l - a * (1 - 2w)` once `c = 2a`. */
  lemma ChannelAgrees(l: real, a: real, c: real, w: real, ramp: real)
    requires c == 2.0 * a && ramp == 1.0 - 2.0 * w
    ensures c * w + (l - c / 2.0) == l - a * ramp
  {
  }
}
