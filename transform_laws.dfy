/**
 * What the four HSL transforms do to the channels, read off the closed form
 * of `HslReference`: with hue and saturation fixed every channel grows with
 * the lightness, so `darker` never brightens and `lighter` never darkens a
 * channel; with hue and lightness fixed every channel moves away from the
 * lightness as the saturation grows, so `saturated` spreads the channels
 * and `desaturated` draws them together.
 *
 * "Before" is the colour `FromHSL` rebuilds from the colour's own HSL
 * triple, which is the colour itself whenever that triple is exact.
 */
module TransformLaws {
  import opened Numeric
  import opened Colors
  import opened HslReference

  // The closed-form profile

  /** `l - min(l, 1 - l) * t` is non-decreasing in `l` on [0, 1] when `|t| <= 1`. */
  lemma ProfileMonotone(t: real, l1: real, l2: real)
    requires -1.0 <= t <= 1.0 && 0.0 <= l1 <= l2 <= 1.0
    ensures l1 - Min(l1, 1.0 - l1) * t <= l2 - Min(l2, 1.0 - l2) * t
  {
    if l2 <= 0.5 {
      LowerHalfMonotone(t, l1, l2);
    } else if 0.5 <= l1 {
      UpperHalfMonotone(t, l1, l2);
    } else {
      LowerHalfMonotone(t, l1, 0.5);
      UpperHalfMonotone(t, 0.5, l2);
    }
  }

  /** Below one half the profile is `l * (1 - t)`. */
  lemma LowerHalfMonotone(t: real, l1: real, l2: real)
    requires -1.0 <= t <= 1.0 && 0.0 <= l1 <= l2 <= 0.5
    ensures l1 - Min(l1, 1.0 - l1) * t <= l2 - Min(l2, 1.0 - l2) * t
  {
    assert l1 - l1 * t == l1 * (1.0 - t) && l2 - l2 * t == l2 * (1.0 - t);
    MulMonotone(l1, l2, 1.0 - t);
  }

  /** Above one half it is `l * (1 + t) - t`. */
  lemma UpperHalfMonotone(t: real, l1: real, l2: real)
    requires -1.0 <= t <= 1.0 && 0.5 <= l1 <= l2 <= 1.0
    ensures l1 - Min(l1, 1.0 - l1) * t <= l2 - Min(l2, 1.0 - l2) * t
  {
    assert l1 - (1.0 - l1) * t == l1 * (1.0 + t) - t;
    assert l2 - (1.0 - l2) * t == l2 * (1.0 + t) - t;
    MulMonotone(l1, l2, 1.0 + t);
  }

  /** `s * t` stays in [-1, 1] for `s` in [0, 1] and `t` in [-1, 1]. */
  lemma UnitTimesSigned(s: real, t: real)
    requires InUnit(s) && -1.0 <= t <= 1.0
    ensures -1.0 <= s * t <= 1.0
  {
    if 0.0 <= t {
      UnitScale(t, s);
      assert s * t == t * s;
    } else {
      UnitScale(-t, s);
      assert s * t == -((-t) * s);
    }
  }

  /** One closed-form channel is non-decreasing in the lightness. */
  lemma ChannelMonotoneInLightness(n: real, hue: real, saturation: real, l1: real, l2: real)
    requires InUnit(saturation) && 0.0 <= l1 <= l2 <= 1.0
    ensures ClosedFormChannel(n, hue, saturation, l1) <= ClosedFormChannel(n, hue, saturation, l2)
  {
    var ramp := Ramp(FloorMod(n + hue / 30.0, 12.0));
    var t := saturation * ramp;
    UnitTimesSigned(saturation, ramp);
    ClosedFormChannelIs(n, hue, saturation, l1);
    ClosedFormChannelIs(n, hue, saturation, l2);
    Regroup(saturation, Min(l1, 1.0 - l1), ramp);
    Regroup(saturation, Min(l2, 1.0 - l2), ramp);
    ProfileMonotone(t, l1, l2);
  }

  lemma Regroup(s: real, m: real, r: real)
    ensures s * m * r == m * (s * r)
  {
  }

  /**
   * One closed-form channel's distance from the lightness, as the
   * saturation grows: it keeps its side and does not shrink.
   */
  lemma ChannelSpreadsWithSaturation(n: real, hue: real, s1: real, s2: real, lightness: real)
    requires 0.0 <= s1 <= s2 && InUnit(lightness)
    ensures var d1 := ClosedFormChannel(n, hue, s1, lightness) - lightness;
      var d2 := ClosedFormChannel(n, hue, s2, lightness) - lightness;
      && (0.0 < d1 ==> d1 <= d2)
      && (d1 < 0.0 ==> d2 <= d1)
      && Abs(d1) <= Abs(d2)
  {
    var ramp := Ramp(FloorMod(n + hue / 30.0, 12.0));
    var w := Min(lightness, 1.0 - lightness) * ramp;
    ClosedFormChannelIs(n, hue, s1, lightness);
    ClosedFormChannelIs(n, hue, s2, lightness);
    Regroup(s1, Min(lightness, 1.0 - lightness), ramp);
    Regroup(s2, Min(lightness, 1.0 - lightness), ramp);
    Spread(s1, s2, w);
  }

  /** `-s * w` moves away from 0 as `s >= 0` grows. */
  lemma Spread(s1: real, s2: real, w: real)
    requires 0.0 <= s1 <= s2
    ensures var d1 := -(s1 * w);
      var d2 := -(s2 * w);
      && (0.0 < d1 ==> d1 <= d2)
      && (d1 < 0.0 ==> d2 <= d1)
      && Abs(d1) <= Abs(d2)
  {
    if 0.0 <= w {
      MulMonotone(s1, s2, w);
    } else {
      MulMonotone(s1, s2, -w);
      assert s1 * w == -(s1 * -w) && s2 * w == -(s2 * -w);
    }
  }

  // FromHSL

  /** With hue and saturation fixed, more lightness never lowers a channel of `FromHSL`. */
  lemma FromHslLightnessMonotone(hue: real, saturation: real, l1: real, l2: real)
    requires InUnit(saturation) && 0.0 <= l1 <= l2 <= 1.0
    ensures FromHSL(hue, saturation, l1).Ok? && FromHSL(hue, saturation, l2).Ok?
    ensures NoBrighter(FromHSL(hue, saturation, l1).value, FromHSL(hue, saturation, l2).value)
  {
    FromHslIsClosedForm(hue, saturation, l1);
    FromHslIsClosedForm(hue, saturation, l2);
    ChannelMonotoneInLightness(0.0, hue, saturation, l1, l2);
    ChannelMonotoneInLightness(8.0, hue, saturation, l1, l2);
    ChannelMonotoneInLightness(4.0, hue, saturation, l1, l2);
  }

  /**
   * With hue and lightness fixed, more saturation moves every channel of
   * `FromHSL` further from the lightness, on the side it was already on.
   */
  lemma FromHslSaturationSpreads(hue: real, s1: real, s2: real, lightness: real)
    requires 0.0 <= s1 <= s2 <= 1.0 && InUnit(lightness)
    ensures FromHSL(hue, s1, lightness).Ok? && FromHSL(hue, s2, lightness).Ok?
    ensures Spreads(lightness, FromHSL(hue, s1, lightness).value, FromHSL(hue, s2, lightness).value)
  {
    FromHslIsClosedForm(hue, s1, lightness);
    FromHslIsClosedForm(hue, s2, lightness);
    ChannelSpreadsWithSaturation(0.0, hue, s1, s2, lightness);
    ChannelSpreadsWithSaturation(8.0, hue, s1, s2, lightness);
    ChannelSpreadsWithSaturation(4.0, hue, s1, s2, lightness);
  }

  /** `far` lies on the same side of `centre` as `near`, at least as far away. */
  predicate AwayFrom(centre: real, near: real, far: real) {
    && (centre < near ==> near <= far)
    && (near < centre ==> far <= near)
    && Abs(near - centre) <= Abs(far - centre)
  }

  /** Each colour channel of `vivid` is `AwayFrom` `lightness` relative to `dull`'s. */
  predicate Spreads(lightness: real, dull: Color, vivid: Color) {
    && AwayFrom(lightness, dull.red, vivid.red)
    && AwayFrom(lightness, dull.green, vivid.green)
    && AwayFrom(lightness, dull.blue, vivid.blue)
  }

  /** No colour channel of `dim` exceeds that of `bright`. */
  predicate NoBrighter(dim: Color, bright: Color) {
    dim.red <= bright.red && dim.green <= bright.green && dim.blue <= bright.blue
  }

  // The transforms

  /**
   * The colour `FromHSL` builds from the triple `ToHSL` returns, before any
   * coefficient is applied.
   */
  function Rebuilt(c: Color, hls: Hls): Result<Color> {
    FromHSL(c.ToHSL(hls).0, c.ToHSL(hls).1, c.ToHSL(hls).2)
  }

  /** `darker(k)` never raises a channel above the colour rebuilt from its own HSL. */
  lemma DarkerNeverBrightens(c: Color, k: real, hls: Hls)
    requires c.Valid() && InUnit(k) && hls.InRange()
    ensures Rebuilt(c, hls).Ok? && c.Darker(k, hls).Ok?
    ensures NoBrighter(c.Darker(k, hls).value, Rebuilt(c, hls).value)
  {
    FromHslLightnessMonotone(c.ToHSL(hls).0, c.ToHSL(hls).1, TowardZero(c.ToHSL(hls).2, k), c.ToHSL(hls).2);
    SameChannels(c, FromHSL(c.ToHSL(hls).0, c.ToHSL(hls).1, TowardZero(c.ToHSL(hls).2, k)), c.Darker(k, hls));
  }

  /** `lighter(k)` never lowers a channel below the colour rebuilt from its own HSL. */
  lemma LighterNeverDarkens(c: Color, k: real, hls: Hls)
    requires c.Valid() && InUnit(k) && hls.InRange()
    ensures Rebuilt(c, hls).Ok? && c.Lighter(k, hls).Ok?
    ensures NoBrighter(Rebuilt(c, hls).value, c.Lighter(k, hls).value)
  {
    FromHslLightnessMonotone(c.ToHSL(hls).0, c.ToHSL(hls).1, c.ToHSL(hls).2,
      TowardOne(c.ToHSL(hls).2, k));
    SameChannels(c, FromHSL(c.ToHSL(hls).0, c.ToHSL(hls).1, TowardOne(c.ToHSL(hls).2, k)),
      c.Lighter(k, hls));
  }

  /** `saturated(k)` moves every channel away from the lightness. */
  lemma SaturatedSpreads(c: Color, k: real, hls: Hls)
    requires c.Valid() && InUnit(k) && hls.InRange()
    ensures Rebuilt(c, hls).Ok? && c.Saturated(k, hls).Ok?
    ensures Spreads(hls.lightness, Rebuilt(c, hls).value, c.Saturated(k, hls).value)
  {
    FromHslSaturationSpreads(c.ToHSL(hls).0, c.ToHSL(hls).1,
      TowardOne(c.ToHSL(hls).1, k), c.ToHSL(hls).2);
    SameChannels(c, FromHSL(c.ToHSL(hls).0, TowardOne(c.ToHSL(hls).1, k), c.ToHSL(hls).2),
      c.Saturated(k, hls));
  }

  /** `desaturated(k)` draws every channel toward the lightness. */
  lemma DesaturatedGathers(c: Color, k: real, hls: Hls)
    requires c.Valid() && InUnit(k) && hls.InRange()
    ensures Rebuilt(c, hls).Ok? && c.Desaturated(k, hls).Ok?
    ensures Spreads(hls.lightness, c.Desaturated(k, hls).value, Rebuilt(c, hls).value)
  {
    FromHslSaturationSpreads(c.ToHSL(hls).0, TowardZero(c.ToHSL(hls).1, k), c.ToHSL(hls).1, c.ToHSL(hls).2);
    SameChannels(c, FromHSL(c.ToHSL(hls).0, TowardZero(c.ToHSL(hls).1, k), c.ToHSL(hls).2), c.Desaturated(k, hls));
  }

  /** The transforms keep the channels `FromHSL` produced and only replace alpha. */
  lemma SameChannels(c: Color, made: Result<Color>, r: Result<Color>)
    requires c.Valid() && made.Ok? && made.value.Valid()
    requires r == c.WithOriginalAlpha(made)
    ensures r.Ok? && r.value.red == made.value.red && r.value.green == made.value.green
    ensures r.value.blue == made.value.blue
  {
  }
}

