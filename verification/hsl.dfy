/** The numeric side of the picker: `hslToRgb` and `rgbToHsl`
    (src/components/ColorPicker.js, lines 12-86), over exact reals. */
module HslConvert {
  import opened JsMath
  import opened Colour

  // ---------------------------------------------------------------------------
  // HSL to RGB
  // ---------------------------------------------------------------------------

  /** `c = (1 - |2l - 1|) * s`, the chroma, for saturation and lightness as fractions. */
  function Chroma(sn: real, ln: real): (chroma: real)
    ensures chroma == sn * (if ln <= 0.5 then 2.0 * ln else 2.0 - 2.0 * ln)
    ensures 0.0 <= sn <= 1.0 && 0.0 <= ln <= 1.0 ==>
      0.0 <= chroma && chroma / 2.0 <= ln && ln + chroma / 2.0 <= 1.0
  {
    var span := 1.0 - Abs(2.0 * ln - 1.0);
    assert span == (if ln <= 0.5 then 2.0 * ln else 2.0 - 2.0 * ln);
    assert 0.0 <= sn <= 1.0 && 0.0 <= ln <= 1.0 ==>
      0.0 <= span * sn && span * sn / 2.0 <= ln && ln + span * sn / 2.0 <= 1.0 by {
      if 0.0 <= sn <= 1.0 && 0.0 <= ln <= 1.0 {
        ChromaBounds(span, sn, ln);
      }
    }
    span * sn
  }

  /** The chroma is at most the span `1 - |2l - 1|`, which is `2l` below half lightness and
      `2 - 2l` above it, so half the chroma fits on either side of the lightness. */
  lemma ChromaBounds(span: real, sn: real, ln: real)
    requires 0.0 <= sn <= 1.0 && 0.0 <= ln <= 1.0
    requires span == 1.0 - Abs(2.0 * ln - 1.0)
    ensures 0.0 <= span * sn && span * sn / 2.0 <= ln && ln + span * sn / 2.0 <= 1.0
  {
    assert span == (if ln <= 0.5 then 2.0 * ln else 2.0 - 2.0 * ln);
    ScaleByFraction(span, sn);
  }

  /** `x = c * (1 - |(h / 60) % 2 - 1|)`, the second-largest component before the offset. For a
      non-negative hue it ramps linearly across each 60-degree sector: up from 0 to the chroma in
      the even sectors, and back down in the odd ones. */
  function SecondComponent(h: int, chroma: real): (x: real)
    ensures 0 <= h ==> x == chroma * SectorRamp(h)
    ensures 0 <= h && 0.0 <= chroma ==> 0.0 <= x <= chroma
  {
    var slope := 1.0 - Abs(RemainderTwo(h as real / 60.0) - 1.0);
    assert 0 <= h ==> slope == SectorRamp(h) && 0.0 <= slope <= 1.0 by {
      if 0 <= h {
        SlopeIsRamp(h);
      }
    }
    assert 0 <= h && 0.0 <= chroma ==> 0.0 <= chroma * slope <= chroma by {
      if 0 <= h && 0.0 <= chroma {
        ScaleByFraction(chroma, slope);
      }
    }
    chroma * slope
  }

  /** How far through its 60-degree sector a non-negative hue is, in whole-degree terms: rising
      in the even sectors (0-60, 120-180, 240-300) and falling in the odd ones. */
  function SectorRamp(h: nat): real {
    if (h / 60) % 2 == 0 then (h % 60) as real / 60.0 else (60 - h % 60) as real / 60.0
  }

  /** JavaScript's `1 - |(h / 60) % 2 - 1|` on a non-negative whole hue is the sector ramp. */
  lemma SlopeIsRamp(h: nat)
    ensures 1.0 - Abs(RemainderTwo(h as real / 60.0) - 1.0) == SectorRamp(h)
    ensures 0.0 <= SectorRamp(h) <= 1.0
  {
    var q, r := h / 120, h % 120;
    assert h as real / 60.0 / 2.0 == q as real + r as real / 120.0;
    assert Trunc(h as real / 60.0 / 2.0) == q;
    assert RemainderTwo(h as real / 60.0) == r as real / 60.0;
    assert (h / 60) % 2 == 0 <==> r < 60;
    assert h % 60 == (if r < 60 then r else r - 60);
  }

  /** The if-chain over the six 60-degree sectors: which of `c`, `x` and `0` goes to red, green
      and blue. Inside [0, 360) the three are dealt out once each, the chroma to the sector's
      dominant channel and the zero to the opposite one; a hue outside matches no branch and
      keeps the initial zeros. */
  function SectorComponents(h: int, chroma: real, x: real): (rgb: (real, real, real))
    ensures 0 <= h < 360 ==> multiset{rgb.0, rgb.1, rgb.2} == multiset{chroma, x, 0.0}
    ensures (0 <= h < 60 || 300 <= h < 360) ==> rgb.0 == chroma
    ensures 60 <= h < 180 ==> rgb.1 == chroma
    ensures 180 <= h < 300 ==> rgb.2 == chroma
    ensures 0 <= h < 120 ==> rgb.2 == 0.0
    ensures 120 <= h < 240 ==> rgb.0 == 0.0
    ensures 240 <= h < 360 ==> rgb.1 == 0.0
    ensures h < 0 || 360 <= h ==> rgb.0 == rgb.1 == rgb.2 == 0.0
  {
    if 0 <= h < 60 then (chroma, x, 0.0)
    else if 60 <= h < 120 then (x, chroma, 0.0)
    else if 120 <= h < 180 then (0.0, chroma, x)
    else if 180 <= h < 240 then (0.0, x, chroma)
    else if 240 <= h < 300 then (x, 0.0, chroma)
    else if 300 <= h < 360 then (chroma, 0.0, x)
    else (0.0, 0.0, 0.0)
  }

  /** `Math.round((v + m) * 255)`: one output channel. */
  function ToChannel(v: real, m: real): (n: int)
    ensures 0.0 <= v + m <= 1.0 ==> 0 <= n <= 255
  {
    Round((v + m) * 255.0)
  }

  /** `hslToRgb(h, s, l)` */
  function HslToRgb(h: int, s: int, l: int): (c: Rgb)
    ensures 0 <= s <= 100 && 0 <= l <= 100 ==> ValidRgb(c)
    ensures s == 0 ==> IsGrey(c) && c.r == Round(l as real * 255.0 / 100.0)
    ensures h < 0 || h >= 360 ==> IsGrey(c)
  {
    var sn := s as real / 100.0;
    var ln := l as real / 100.0;
    var chroma := Chroma(sn, ln);
    var x := SecondComponent(h, chroma);
    var m := ln - chroma / 2.0;
    assert s == 0 ==>
      SectorComponents(h, chroma, x) == (0.0, 0.0, 0.0) && (0.0 + m) * 255.0 == l as real * 255.0 / 100.0 by {
      if s == 0 {
        assert chroma == 0.0 && x == 0.0;
      }
    }
    SectorColour(h, chroma, x, m)
  }

  /** The sector's three components, each offset by `m` and rounded to a channel. */
  function SectorColour(h: int, chroma: real, x: real, m: real): Rgb {
    var sector := SectorComponents(h, chroma, x);
    Rgb(ToChannel(sector.0, m), ToChannel(sector.1, m), ToChannel(sector.2, m))
  }

  /** Inside [0, 360) the sector decides the order of the three channels: the sector's
      dominant channel is largest and its opposite channel smallest. */
  lemma SectorOrdersChannels(h: int, s: int, l: int)
    requires 0 <= h < 360 && 0 <= s <= 100 && 0 <= l <= 100
    ensures var c := HslToRgb(h, s, l);
      && (0 <= h < 60 ==> c.r >= c.g >= c.b)
      && (60 <= h < 120 ==> c.g >= c.r >= c.b)
      && (120 <= h < 180 ==> c.g >= c.b >= c.r)
      && (180 <= h < 240 ==> c.b >= c.g >= c.r)
      && (240 <= h < 300 ==> c.b >= c.r >= c.g)
      && (300 <= h < 360 ==> c.r >= c.b >= c.g)
  {
    var sn := s as real / 100.0;
    var ln := l as real / 100.0;
    var chroma := Chroma(sn, ln);
    var x := SecondComponent(h, chroma);
    var m := ln - chroma / 2.0;
    assert 0.0 <= x <= chroma;
    RoundMonotone((0.0 + m) * 255.0, (x + m) * 255.0);
    RoundMonotone((x + m) * 255.0, (chroma + m) * 255.0);
  }

  /** What the colour means: for a hue inside [0, 360), the largest and smallest channels
      straddle the lightness (their sum is within one of `2l·255`) and are the chroma apart
      (their difference is within one of `c·255`). Both extremes come from a rounding each. */
  lemma {:induction false} HslToRgbSpread(h: int, s: int, l: int, c: Rgb)
    requires 0 <= h < 360 && 0 <= s <= 100 && 0 <= l <= 100
    requires c == HslToRgb(h, s, l)
    ensures ChannelSpread(c, l as real / 100.0 * 510.0, Chroma(s as real / 100.0, l as real / 100.0) * 255.0)
  {
    var chroma := Chroma(s as real / 100.0, l as real / 100.0);
    var x := SecondComponent(h, chroma);
    SpreadOfSector(h, chroma, x, l as real / 100.0, c);
  }

  /** The largest and smallest channels sum to within one of `lightness` and lie within one
      of `chroma` apart. */
  predicate ChannelSpread(c: Rgb, lightness: real, chroma: real) {
    && lightness - 1.0 <= (MaxChannel(c) + MinChannel(c)) as real <= lightness + 1.0
    && chroma - 1.0 <= (MaxChannel(c) - MinChannel(c)) as real <= chroma + 1.0
  }

  /** The spread of the three rounded sector components, for any chroma, second component
      and lightness fraction. */
  lemma SpreadOfSector(h: int, chroma: real, x: real, ln: real, c: Rgb)
    requires 0 <= h < 360 && 0.0 <= x <= chroma
    requires c == SectorColour(h, chroma, x, ln - chroma / 2.0)
    ensures ChannelSpread(c, ln * 510.0, chroma * 255.0)
  {
    var m := ln - chroma / 2.0;
    SectorExtremes(h, chroma, x, m, c);
    OffsetSpread(chroma, ln);
    var top, bottom := ToChannel(chroma, m), ToChannel(0.0, m);
    assert (MaxChannel(c) + MinChannel(c)) as real == top as real + bottom as real;
    assert (MaxChannel(c) - MinChannel(c)) as real == top as real - bottom as real;
  }

  /** The offset `m = l - c/2` puts the rounded chroma and the rounded zero around `2l·255`,
      `c·255` apart, each to within one. */
  lemma OffsetSpread(chroma: real, ln: real)
    ensures var m := ln - chroma / 2.0;
      var top, bottom := ToChannel(chroma, m) as real, ToChannel(0.0, m) as real;
      && ln * 510.0 - 1.0 <= top + bottom <= ln * 510.0 + 1.0
      && chroma * 255.0 - 1.0 <= top - bottom <= chroma * 255.0 + 1.0
  {
    var m := ln - chroma / 2.0;
    RoundingSpread((chroma + m) * 255.0, (0.0 + m) * 255.0);
  }

  /** Two roundings add and subtract to within one of the exact sum and difference. */
  lemma RoundingSpread(a: real, b: real)
    ensures a + b - 1.0 <= (Round(a) + Round(b)) as real <= a + b + 1.0
    ensures a - b - 1.0 <= (Round(a) - Round(b)) as real <= a - b + 1.0
  {
  }

  /** Rounding the sector's components after the offset `m`: the chroma gives the largest
      channel and the zero the smallest. */
  lemma SectorExtremes(h: int, chroma: real, x: real, m: real, c: Rgb)
    requires 0 <= h < 360 && 0.0 <= x <= chroma
    requires c == SectorColour(h, chroma, x, m)
    ensures MaxChannel(c) == ToChannel(chroma, m) && MinChannel(c) == ToChannel(0.0, m)
  {
    var sector := SectorComponents(h, chroma, x);
    assert sector.0 in multiset{chroma, x, 0.0};
    assert sector.1 in multiset{chroma, x, 0.0};
    assert sector.2 in multiset{chroma, x, 0.0};
    RoundedComponentBetween(sector.0, chroma, x, m);
    RoundedComponentBetween(sector.1, chroma, x, m);
    RoundedComponentBetween(sector.2, chroma, x, m);
    ExtremesOf(c, ToChannel(chroma, m), ToChannel(0.0, m));
  }

  /** A component that is the chroma, the second component or zero rounds to a channel between
      the rounded zero and the rounded chroma. */
  lemma RoundedComponentBetween(v: real, chroma: real, x: real, m: real)
    requires v in multiset{chroma, x, 0.0} && 0.0 <= x <= chroma
    ensures ToChannel(0.0, m) <= ToChannel(v, m) <= ToChannel(chroma, m)
  {
    RoundMonotone((0.0 + m) * 255.0, (v + m) * 255.0);
    RoundMonotone((v + m) * 255.0, (chroma + m) * 255.0);
  }

  /** When every channel lies in [bottom, top] and both bounds are taken, they are the extremes. */
  lemma ExtremesOf(c: Rgb, top: int, bottom: int)
    requires bottom <= c.r <= top && bottom <= c.g <= top && bottom <= c.b <= top
    requires c.r == top || c.g == top || c.b == top
    requires c.r == bottom || c.g == bottom || c.b == bottom
    ensures MaxChannel(c) == top && MinChannel(c) == bottom
  {
  }

  // ---------------------------------------------------------------------------
  // RGB to HSL
  // ---------------------------------------------------------------------------

  /** A channel scaled into [0, 1] (`r /= 255`). */
  function Unit(v: int): real {
    v as real / 255.0
  }

  function MaxChannel(c: Rgb): int {
    if c.r >= c.g && c.r >= c.b then c.r else if c.g >= c.b then c.g else c.b
  }

  function MinChannel(c: Rgb): int {
    if c.r <= c.g && c.r <= c.b then c.r else if c.g <= c.b then c.g else c.b
  }

  /** The three `switch (max)` branch formulas, as a fraction of a full turn. `d` is
      `max - min` of the scaled channels. */
  function SectorHue(c: Rgb, ch: Channel): real
    requires !IsGrey(c)
  {
    var d := Unit(MaxChannel(c)) - Unit(MinChannel(c));
    var rn, gn, bn := Unit(c.r), Unit(c.g), Unit(c.b);
    match ch
    case Red => ((gn - bn) / d + (if gn < bn then 6.0 else 0.0)) / 6.0
    case Green => ((bn - rn) / d + 2.0) / 6.0
    case Blue => ((rn - gn) / d + 4.0) / 6.0
  }

  /** Each branch formula, used when its channel holds the maximum, lands in that channel's
      part of the wheel. */
  lemma SectorHueRange(c: Rgb, ch: Channel)
    requires ValidRgb(c) && !IsGrey(c) && ChannelOf(c, ch) == MaxChannel(c)
    ensures var f := SectorHue(c, ch);
      && 0.0 <= f < 1.0
      && (ch == Red && c.g >= c.b ==> f <= 1.0 / 6.0)
      && (ch == Red && c.g < c.b ==> 5.0 / 6.0 <= f)
      && (ch == Green ==> 1.0 / 6.0 <= f <= 3.0 / 6.0)
      && (ch == Blue ==> 3.0 / 6.0 <= f <= 5.0 / 6.0)
  {
    var d := Unit(MaxChannel(c)) - Unit(MinChannel(c));
    var rn, gn, bn := Unit(c.r), Unit(c.g), Unit(c.b);
    match ch
    case Red => QuotientBounds(gn - bn, d);
    case Green => QuotientBounds(bn - rn, d);
    case Blue => QuotientBounds(rn - gn, d);
  }

  /** When two channels tie for the maximum, their branch formulas give the same hue: the
      order of the `switch` cases cannot be observed. */
  lemma TiedSectorsAgree(c: Rgb, a: Channel, b: Channel)
    requires ValidRgb(c) && !IsGrey(c)
    requires ChannelOf(c, a) == MaxChannel(c) && ChannelOf(c, b) == MaxChannel(c)
    ensures SectorHue(c, a) == SectorHue(c, b)
  {
    var d := Unit(MaxChannel(c)) - Unit(MinChannel(c));
    var rn, gn, bn := Unit(c.r), Unit(c.g), Unit(c.b);
    if a != b {
      if {a, b} == {Red, Green} {
        assert MinChannel(c) == c.b && d == rn - bn;
        UnitQuotients(gn - bn, bn - rn, d);
      } else if {a, b} == {Green, Blue} {
        assert MinChannel(c) == c.r && d == gn - rn;
        UnitQuotients(bn - rn, rn - gn, d);
      } else {
        assert MinChannel(c) == c.g && d == rn - gn;
        UnitQuotients(rn - gn, gn - bn, d);
      }
    }
  }

  lemma UnitQuotients(up: real, down: real, d: real)
    requires d > 0.0 && up == d && down == -d
    ensures up / d == 1.0 && down / d == -1.0
  {
  }

  /** `s = l > 0.5 ? d / (2 - max - min) : d / (max + min)` lies in (0, 1]. */
  function Saturation(mx: real, mn: real): (sf: real)
    requires 0.0 <= mn < mx <= 1.0
    ensures 0.0 < sf <= 1.0
  {
    var d := mx - mn;
    var l := (mx + mn) / 2.0;
    if l > 0.5 then
      QuotientBounds(d, 2.0 - mx - mn);
      d / (2.0 - mx - mn)
    else
      QuotientBounds(d, mx + mn);
      d / (mx + mn)
  }

  /** The `switch (max)` on the scaled maximum: the first channel equal to it picks the
      branch formula. */
  function HueFraction(c: Rgb, mx: real): (h: real)
    requires ValidRgb(c) && !IsGrey(c) && mx == Max3(Unit(c.r), Unit(c.g), Unit(c.b))
    ensures 0.0 <= h < 1.0
    ensures forall ch :: ChannelOf(c, ch) == MaxChannel(c) ==> h == SectorHue(c, ch)
  {
    var h :=
      if mx == Unit(c.r) then SectorHue(c, Red)
      else if mx == Unit(c.g) then SectorHue(c, Green)
      else if mx == Unit(c.b) then SectorHue(c, Blue)
      else 0.0;
    HueFollowsAnyMaximum(c, h);
    h
  }

  /** The hue the `switch` picks equals the branch formula of every channel that holds the
      maximum, and lies in [0, 1). */
  lemma HueFollowsAnyMaximum(c: Rgb, h: real)
    requires ValidRgb(c) && !IsGrey(c)
    requires h == (if c.r == MaxChannel(c) then SectorHue(c, Red)
                   else if c.g == MaxChannel(c) then SectorHue(c, Green)
                   else SectorHue(c, Blue))
    ensures 0.0 <= h < 1.0
    ensures forall ch :: ChannelOf(c, ch) == MaxChannel(c) ==> h == SectorHue(c, ch)
  {
    var first := if c.r == MaxChannel(c) then Red else if c.g == MaxChannel(c) then Green else Blue;
    SectorHueRange(c, first);
    forall ch | ChannelOf(c, ch) == MaxChannel(c)
      ensures h == SectorHue(c, ch)
    {
      TiedSectorsAgree(c, first, ch);
    }
  }

  /** The lightness of a colour with largest channel `mx` and smallest `mn`, in percent:
      their mean as a share of 255. */
  function LightnessPercent(mx: int, mn: int): real {
    (mx + mn) as real * 100.0 / 510.0
  }

  /** The saturation in percent: the spread `mx - mn` over the sum `mx + mn`, or, for a colour
      lighter than half, over what the sum leaves of 510. */
  function SaturationPercent(mx: int, mn: int): real
    requires 0 <= mn < mx <= 255
  {
    (mx - mn) as real * 100.0 / (if mx + mn > 255 then 510 - mx - mn else mx + mn) as real
  }

  /** `rgbToHsl(r, g, b)`, for channels in [0, 255] as every caller passes. */
  function RgbToHsl(c: Rgb): (hsl: Hsl)
    requires ValidRgb(c)
    ensures 0 <= hsl.h <= 360 && 0 <= hsl.s <= 100 && 0 <= hsl.l <= 100
    ensures hsl.l == Round(LightnessPercent(MaxChannel(c), MinChannel(c)))
    ensures IsGrey(c) ==> hsl.h == 0 && hsl.s == 0
    ensures !IsGrey(c) ==> hsl.s == Round(SaturationPercent(MaxChannel(c), MinChannel(c)))
    ensures !IsGrey(c) ==> forall ch :: ChannelOf(c, ch) == MaxChannel(c) ==>
      hsl.h == Round(SectorHue(c, ch) * 360.0)
  {
    var rn, gn, bn := Unit(c.r), Unit(c.g), Unit(c.b);
    var mx := Max3(rn, gn, bn);
    var mn := Min3(rn, gn, bn);
    var l := (mx + mn) / 2.0;
    assert l * 100.0 == LightnessPercent(MaxChannel(c), MinChannel(c)) && (mx == mn <==> IsGrey(c)) by {
      ScaledExtremes(c);
    }
    if mx == mn then
      Hsl(Round(0.0 * 360.0), Round(0.0 * 100.0), Round(l * 100.0))
    else
      var s := Saturation(mx, mn);
      assert s * 100.0 == SaturationPercent(MaxChannel(c), MinChannel(c)) by {
        ScaledExtremes(c);
        ScaledSaturation(MaxChannel(c), MinChannel(c));
      }
      var h := HueFraction(c, mx);
      Hsl(Round(h * 360.0), Round(s * 100.0), Round(l * 100.0))
  }

  /** The largest and smallest scaled channels are the scaled largest and smallest channels. */
  lemma ScaledExtremes(c: Rgb)
    ensures Max3(Unit(c.r), Unit(c.g), Unit(c.b)) == Unit(MaxChannel(c))
    ensures Min3(Unit(c.r), Unit(c.g), Unit(c.b)) == Unit(MinChannel(c))
    ensures IsGrey(c) <==> MaxChannel(c) == MinChannel(c)
  {
  }

  /** The saturation quotient of two scaled channels is the same quotient of the channels. */
  lemma ScaledSaturation(mx: int, mn: int)
    requires 0 <= mn < mx <= 255
    ensures Saturation(Unit(mx), Unit(mn)) * 100.0 == SaturationPercent(mx, mn)
  {
    var d := Unit(mx) - Unit(mn);
    var below := if mx + mn > 255 then 510 - mx - mn else mx + mn;
    assert d == (mx - mn) as real / 255.0;
    assert (Unit(mx) + Unit(mn)) / 2.0 > 0.5 <==> mx + mn > 255;
    assert (if mx + mn > 255 then 2.0 - Unit(mx) - Unit(mn) else Unit(mx) + Unit(mn)) == below as real / 255.0;
    ScaledQuotient((mx - mn) as real, below as real);
  }

  /** Scaling numerator and denominator alike leaves a quotient unchanged. */
  lemma ScaledQuotient(a: real, b: real)
    requires b > 0.0
    ensures (a / 255.0) / (b / 255.0) * 100.0 == a * 100.0 / b
  {
    var q := a / b;
    assert q * b == a;
    assert q * (b / 255.0) == a / 255.0;
  }

  /** The hue lands in the part of the wheel that belongs to the dominant channel: red near 0
      and 360, green in [60, 180], blue in [180, 300]. */
  lemma HueMatchesDominantChannel(c: Rgb)
    requires ValidRgb(c) && !IsGrey(c)
    ensures var h := RgbToHsl(c).h;
      && (c.r == MaxChannel(c) && c.g >= c.b ==> 0 <= h <= 60)
      && (c.r == MaxChannel(c) && c.g < c.b ==> 300 <= h <= 360)
      && (c.g == MaxChannel(c) ==> 60 <= h <= 180)
      && (c.b == MaxChannel(c) ==> 180 <= h <= 300)
  {
    if c.r == MaxChannel(c) {
      SectorHueRange(c, Red);
    }
    if c.g == MaxChannel(c) {
      SectorHueRange(c, Green);
    }
    if c.b == MaxChannel(c) {
      SectorHueRange(c, Blue);
    }
  }

  // ---------------------------------------------------------------------------
  // How the two conversions relate
  // ---------------------------------------------------------------------------

  /** A grey converts to an HSL triple with zero saturation, and that converts back to a grey. */
  lemma GreyStaysGrey(c: Rgb)
    requires ValidRgb(c) && IsGrey(c)
    ensures RgbToHsl(c).s == 0 && IsGrey(HslToRgb(RgbToHsl(c).h, RgbToHsl(c).s, RgbToHsl(c).l))
  {
  }

  /** `rgbToHsl` can answer a hue of 360 (rgb(255, 0, 1) is hsl(360, 100, 50)), which
      `hslToRgb` sends down no sector branch: the colour comes back black. */
  lemma Hue360CollapsesToBlack()
    ensures RgbToHsl(Rgb(255, 0, 1)) == Hsl(360, 100, 50)
    ensures HslToRgb(360, 100, 50) == Rgb(0, 0, 0)
  {
    var c := Rgb(255, 0, 1);
    assert MaxChannel(c) == 255 && MinChannel(c) == 0;
    assert SectorHue(c, Red) == (-1.0 / 255.0 / (255.0 / 255.0) + 6.0) / 6.0;
    assert LightnessPercent(255, 0) == 50.0;
    assert SaturationPercent(255, 0) == 100.0;
    FullChromaAtHalfLightness(360);
  }

  /** A red just below full converts to the same HSL as full red, which converts back to full red. */
  lemma NearRedConverts()
    ensures RgbToHsl(Rgb(254, 0, 0)) == Hsl(0, 100, 50)
    ensures HslToRgb(0, 100, 50) == Rgb(255, 0, 0)
  {
    var c := Rgb(254, 0, 0);
    assert MaxChannel(c) == 254 && MinChannel(c) == 0;
    assert SectorHue(c, Red) == 0.0;
    assert LightnessPercent(254, 0) == 25400.0 / 510.0;
    assert SaturationPercent(254, 0) == 100.0;
    FullChromaAtHalfLightness(0);
    assert SecondComponent(0, 1.0) == 0.0;
  }

  /** At full saturation and half lightness the chroma is 1 and the offset 0. */
  lemma FullChromaAtHalfLightness(h: int)
    ensures Chroma(1.0, 0.5) == 1.0
    ensures HslToRgb(h, 100, 50) == Rgb(
      Round(SectorComponents(h, 1.0, SecondComponent(h, 1.0)).0 * 255.0),
      Round(SectorComponents(h, 1.0, SecondComponent(h, 1.0)).1 * 255.0),
      Round(SectorComponents(h, 1.0, SecondComponent(h, 1.0)).2 * 255.0))
  {
    assert Abs(2.0 * 0.5 - 1.0) == 0.0;
  }

  /** Converting to HSL and back is not within one unit per channel: rounding lightness to a
      whole percent turns rgb(2, 0, 0) into black. */
  lemma RoundTripExceedsOneUnit()
    ensures RgbToHsl(Rgb(2, 0, 0)) == Hsl(0, 100, 0)
    ensures HslToRgb(0, 100, 0) == Rgb(0, 0, 0)
  {
    var c := Rgb(2, 0, 0);
    assert MaxChannel(c) == 2 && MinChannel(c) == 0;
    assert SectorHue(c, Red) == 0.0;
    assert LightnessPercent(2, 0) == 200.0 / 510.0;
    assert SaturationPercent(2, 0) == 100.0;
    ZeroLightnessIsBlack(0, 100);
  }

  /** Zero lightness leaves no chroma and no offset: every hue gives black. */
  lemma ZeroLightnessIsBlack(h: int, s: int)
    requires 0 <= s <= 100
    ensures HslToRgb(h, s, 0) == Rgb(0, 0, 0)
  {
    var sn := s as real / 100.0;
    assert Abs(2.0 * 0.0 - 1.0) == 1.0;
    assert Chroma(sn, 0.0) == 0.0;
    var sector := SectorComponents(h, 0.0, SecondComponent(h, 0.0));
    assert SecondComponent(h, 0.0) == 0.0;
    assert sector.0 == 0.0 && sector.1 == 0.0 && sector.2 == 0.0;
  }

  /** The corners of lightness: zero is black and a hundred is white, whatever the hue. */
  lemma LightnessCorners()
    ensures HslToRgb(0, 0, 0) == Rgb(0, 0, 0)
    ensures HslToRgb(0, 0, 100) == Rgb(255, 255, 255)
  {
    ZeroLightnessIsBlack(0, 0);
  }

  /** Full-saturation magenta converts both ways exactly. */
  lemma MagentaRoundTrip()
    ensures RgbToHsl(Rgb(255, 0, 255)) == Hsl(300, 100, 50)
    ensures HslToRgb(300, 100, 50) == Rgb(255, 0, 255)
  {
    var c := Rgb(255, 0, 255);
    assert MaxChannel(c) == 255 && MinChannel(c) == 0;
    assert SectorHue(c, Red) == (-1.0 + 6.0) / 6.0;
    assert LightnessPercent(255, 0) == 50.0;
    assert SaturationPercent(255, 0) == 100.0;
    FullChromaAtHalfLightness(300);
    assert SecondComponent(300, 1.0) == 1.0 by {
      assert Trunc(300.0 / 60.0 / 2.0) == 2;
      assert RemainderTwo(300.0 / 60.0) == 1.0;
    }
  }

  /** hsl(249, 78, 73) step by step: chroma 0.4212, second component 0.06318 (hue 249 is 0.15
      into its double sector), offset 0.5194, and the sector 240-300 puts them in blue and red. */
  lemma DefaultHslColour()
    ensures HslToRgb(249, 78, 73) == Rgb(149, 132, 240)
  {
    assert Chroma(0.78, 0.73) == 0.4212 by {
      assert Abs(2.0 * 0.73 - 1.0) == 0.46;
    }
    assert SecondComponent(249, 0.4212) == 0.06318 by {
      assert Trunc(249.0 / 60.0 / 2.0) == 2;
      assert RemainderTwo(249.0 / 60.0) == 0.15;
    }
    assert SectorComponents(249, 0.4212, 0.06318) == (0.06318, 0.0, 0.4212);
    var m := 0.73 - 0.4212 / 2.0;
    assert ToChannel(0.06318, m) == 149 && ToChannel(0.0, m) == 132 && ToChannel(0.4212, m) == 240;
  }
}
