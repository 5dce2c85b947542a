/**
 * RGB to HSL conversion (`HslFormatter::from_color`,
 * src/template/color_field/format/hsl.rs), computed over exact real numbers
 * with the channels normalised to `c / 255`.
 */
module HslConversion {
  import opened HexCodec
  import opened RgbColorCodec

  /** `HslFormatter`: hue in degrees, luminance and saturation as fractions. */
  datatype Hsl = Hsl(hue: real, luminance: real, saturation: real)

  function Normalise(b: Byte): (x: real)
    ensures 0.0 <= x <= 1.0
  {
    b as real / 255.0
  }

  /** The value `min_by(total_cmp)` picks. */
  function MinOf(v: seq<real>): (m: real)
    requires |v| >= 1
    ensures forall j :: 0 <= j < |v| ==> m <= v[j]
    ensures m in v
  {
    if |v| == 1 then v[0]
    else
      var m := MinOf(v[..|v| - 1]);
      assert v == v[..|v| - 1] + [v[|v| - 1]];
      if v[|v| - 1] < m then v[|v| - 1] else m
  }

  /**
   * The position `enumerate().max_by(total_cmp)` picks: a maximal element,
   * and on ties the last one, since `max_by` keeps the later of two equal
   * elements.
   */
  function MaxBy(v: seq<real>): (k: nat)
    requires |v| >= 1
    ensures k < |v|
    ensures forall j :: 0 <= j < |v| ==> v[j] <= v[k]
    ensures forall j :: k < j < |v| ==> v[j] < v[k]
  {
    if |v| == 1 then 0
    else
      var k := MaxBy(v[..|v| - 1]);
      if v[|v| - 1] >= v[k] then |v| - 1 else k
  }

  /** `x.rem_euclid(360.0)` on reals: the remainder of `x` modulo 360, in `[0, 360)`. */
  function RemEuclid360(x: real): (r: real)
    ensures 0.0 <= r < 360.0
    ensures 0.0 <= x < 360.0 ==> r == x
  {
    x - 360.0 * ((x / 360.0).Floor as real)
  }

  lemma RemEuclid360Periodic(x: real)
    ensures RemEuclid360(x + 360.0) == RemEuclid360(x)
  {
    assert (x + 360.0) / 360.0 == x / 360.0 + 1.0;
    assert ((x + 360.0) / 360.0).Floor == (x / 360.0).Floor + 1;
  }

  lemma QuotientInUnit(a: real, b: real)
    requires 0.0 <= a <= b && b > 0.0
    ensures 0.0 <= a / b <= 1.0
  {
  }

  /**
   * The saturation of a colour whose extremes differ, chosen by comparing
   * the luminance with one half.
   */
  function ChromaticSaturation(max: real, min: real): (saturation: real)
    requires 0.0 <= min < max <= 1.0
    ensures 0.0 < saturation <= 1.0
  {
    if (max + min) / 2.0 <= 0.5 then
      QuotientInUnit(max - min, max + min);
      PositiveQuotient(max - min, max + min);
      (max - min) / (max + min)
    else
      QuotientInUnit(max - min, 2.0 - max - min);
      PositiveQuotient(max - min, 2.0 - max - min);
      (max - min) / (2.0 - max - min)
  }

  /**
   * The hue in sixths of a turn, before reduction, from the channel at
   * `maxIndex`. When the channels lie between `min` and `max` and the chosen
   * one is the maximum, the result is within one sixth of a turn of that
   * channel's centre: red at 0, green at 2, blue at 4.
   */
  function Sector(color: seq<real>, maxIndex: nat, max: real, min: real): (s: real)
    requires |color| == 3 && maxIndex < 3 && max != min
    ensures (forall i :: 0 <= i < 3 ==> min <= color[i] <= max) && color[maxIndex] == max ==>
              2.0 * maxIndex as real - 1.0 <= s <= 2.0 * maxIndex as real + 1.0
  {
    var r, g, b := color[0], color[1], color[2];
    match maxIndex
    case 0 => UnitQuotient(g - b, max - min); (g - b) / (max - min)
    case 1 => UnitQuotient(b - r, max - min); 2.0 + (b - r) / (max - min)
    case 2 => UnitQuotient(r - g, max - min); 4.0 + (r - g) / (max - min)
  }

  /** A quotient whose numerator is no larger in size than its positive denominator lies in [-1, 1]. */
  lemma UnitQuotient(a: real, d: real)
    ensures d > 0.0 && -d <= a <= d ==> -1.0 <= a / d <= 1.0
  {
    if d > 0.0 && -d <= a <= d {
      assert a / d * d == a;
    }
  }

  /** `from_color`. */
  function FromColor(c: RgbColor): (h: Hsl)
    ensures 0.0 <= h.hue < 360.0
    ensures 0.0 <= h.luminance <= 1.0
    ensures 0.0 <= h.saturation <= 1.0
  {
    var color := [Normalise(c.red), Normalise(c.green), Normalise(c.blue)];
    var min := MinOf(color);
    var maxIndex := MaxBy(color);
    var max := color[maxIndex];
    var luminance := (max + min) / 2.0;
    if min == max then
      Hsl(0.0, luminance, 0.0)
    else
      Hsl(RemEuclid360(Sector(color, maxIndex, max, min) * 60.0), luminance, ChromaticSaturation(max, min))
  }

  function MaxChannel(c: RgbColor): (m: Byte)
    ensures m == c.red || m == c.green || m == c.blue
    ensures c.red <= m && c.green <= m && c.blue <= m
  {
    if c.red >= c.green && c.red >= c.blue then c.red
    else if c.green >= c.blue then c.green
    else c.blue
  }

  function MinChannel(c: RgbColor): (m: Byte)
    ensures m == c.red || m == c.green || m == c.blue
    ensures m <= c.red && m <= c.green && m <= c.blue
  {
    if c.red <= c.green && c.red <= c.blue then c.red
    else if c.green <= c.blue then c.green
    else c.blue
  }

  predicate Achromatic(c: RgbColor)
  {
    c.red == c.green == c.blue
  }

  /** The extremes the conversion works with are the normalised extreme channels. */
  lemma Extremes(c: RgbColor)
    ensures var color := [Normalise(c.red), Normalise(c.green), Normalise(c.blue)];
      && MinOf(color) == Normalise(MinChannel(c))
      && color[MaxBy(color)] == Normalise(MaxChannel(c))
      && Channels(c)[MaxBy(color)] == MaxChannel(c)
  {
  }

  lemma QuotientOf(a: real, d: real, q: real)
    requires d != 0.0 && a == q * d
    ensures a / d == q
  {
  }

  lemma QuotientBounded(a: real, d: real)
    requires d > 0.0 && -d <= a <= d
    ensures -1.0 <= a / d <= 1.0
  {
    var q := a / d;
    assert a == q * d;
  }

  lemma PositiveQuotient(a: real, b: real)
    requires a > 0.0 && b > 0.0
    ensures a / b > 0.0
  {
  }

  lemma ScaledQuotient(a: int, b: int)
    requires b != 0
    ensures (a as real / 255.0) / (b as real / 255.0) == a as real / b as real
  {
    var q := a as real / b as real;
    assert a as real == q * b as real;
    assert a as real / 255.0 == q * (b as real / 255.0);
  }

  /** `from_color` in terms of the extreme channels: the early return, and the general case. */
  lemma FromColorByExtremes(c: RgbColor)
    ensures var color := [Normalise(c.red), Normalise(c.green), Normalise(c.blue)];
      var max, min := Normalise(MaxChannel(c)), Normalise(MinChannel(c));
      && (Achromatic(c) ==> FromColor(c) == Hsl(0.0, (max + min) / 2.0, 0.0))
      && (!Achromatic(c) ==>
            max > min &&
            FromColor(c) == Hsl(RemEuclid360(Sector(color, MaxBy(color), max, min) * 60.0),
                                (max + min) / 2.0, ChromaticSaturation(max, min)))
  {
    Extremes(c);
  }

  /** Luminance is the mean of the largest and the smallest channel, as a fraction of 255. */
  lemma Luminance(c: RgbColor)
    ensures FromColor(c).luminance == (MaxChannel(c) + MinChannel(c)) as real / 510.0
  {
    FromColorByExtremes(c);
  }

  /** Equal channels give hue 0, saturation 0 and the common channel as luminance; only they give saturation 0. */
  lemma AchromaticColor(c: RgbColor)
    ensures Achromatic(c) ==> FromColor(c) == Hsl(0.0, Normalise(c.red), 0.0)
    ensures FromColor(c).saturation == 0.0 <==> Achromatic(c)
  {
    FromColorByExtremes(c);
  }

  /**
   * Saturation is the spread of the channels over their sum while the
   * luminance is at most one half, and over the distance of their sum from
   * 510 above that.
   */
  lemma Saturation(c: RgbColor)
    requires !Achromatic(c)
    ensures var M, m := MaxChannel(c), MinChannel(c);
      FromColor(c).saturation ==
        if M + m <= 255 then (M - m) as real / (M + m) as real
        else (M - m) as real / (510 - M - m) as real
  {
    FromColorByExtremes(c);
    var M: int, m: int := MaxChannel(c), MinChannel(c);
    assert FromColor(c).saturation == ChromaticSaturation(Normalise(M), Normalise(m));
    SaturationScaled(M, m);
  }

  lemma SaturationScaled(M: int, m: int)
    requires 0 <= m < M <= 255
    ensures ChromaticSaturation(M as real / 255.0, m as real / 255.0) ==
      if M + m <= 255 then (M - m) as real / (M + m) as real
      else (M - m) as real / (510 - M - m) as real
  {
    var max, min := M as real / 255.0, m as real / 255.0;
    assert max - min == (M - m) as real / 255.0;
    if M + m <= 255 {
      assert (max + min) / 2.0 <= 0.5;
      assert max + min == (M + m) as real / 255.0;
      ScaledQuotient(M - m, M + m);
    } else {
      assert !((max + min) / 2.0 <= 0.5);
      assert 2.0 - max - min == (510 - M - m) as real / 255.0;
      ScaledQuotient(M - m, 510 - M - m);
    }
  }

  /** The hue, before reduction modulo 360, computed from channel `k` taken as the maximum. */
  function SectorDegrees(c: RgbColor, k: nat): real
    requires k < 3 && !Achromatic(c)
  {
    var d := (MaxChannel(c) - MinChannel(c)) as real;
    if k == 0 then ((c.green - c.blue) as real / d) * 60.0
    else if k == 1 then (2.0 + (c.blue - c.red) as real / d) * 60.0
    else (4.0 + (c.red - c.green) as real / d) * 60.0
  }

  /** The sector formula over normalised channels is the one over bytes: the factor 1/255 cancels. */
  lemma SectorScaled(c: RgbColor, k: nat)
    requires k < 3 && !Achromatic(c)
    ensures var color := [Normalise(c.red), Normalise(c.green), Normalise(c.blue)];
      Normalise(MaxChannel(c)) != Normalise(MinChannel(c)) &&
      Sector(color, k, Normalise(MaxChannel(c)), Normalise(MinChannel(c))) * 60.0 == SectorDegrees(c, k)
  {
    var color := [Normalise(c.red), Normalise(c.green), Normalise(c.blue)];
    var M: int, m: int := MaxChannel(c), MinChannel(c);
    assert M > m;
    assert Normalise(M) - Normalise(m) == (M - m) as real / 255.0;
    if k == 0 {
      assert color[1] - color[2] == (c.green - c.blue) as real / 255.0;
      ScaledQuotient(c.green - c.blue, M - m);
    } else if k == 1 {
      assert color[2] - color[0] == (c.blue - c.red) as real / 255.0;
      ScaledQuotient(c.blue - c.red, M - m);
    } else {
      assert color[0] - color[1] == (c.red - c.green) as real / 255.0;
      ScaledQuotient(c.red - c.green, M - m);
    }
  }

  /** The hue is the sector formula of the channel `max_by` selects, the last maximal one. */
  lemma HueFromSelectedChannel(c: RgbColor)
    requires !Achromatic(c)
    ensures var color := [Normalise(c.red), Normalise(c.green), Normalise(c.blue)];
      FromColor(c).hue == RemEuclid360(SectorDegrees(c, MaxBy(color)))
  {
    FromColorByExtremes(c);
    var color := [Normalise(c.red), Normalise(c.green), Normalise(c.blue)];
    SectorScaled(c, MaxBy(color));
  }

  /**
   * Which of two equal maximal channels is taken does not change the hue:
   * the sector formulas of any maximal channel agree modulo 360.
   */
  lemma HueFromAnyMaximalChannel(c: RgbColor, k: nat)
    requires !Achromatic(c) && k < 3 && Channels(c)[k] == MaxChannel(c)
    ensures FromColor(c).hue == RemEuclid360(SectorDegrees(c, k))
  {
    HueFromSelectedChannel(c);
    Extremes(c);
    var color := [Normalise(c.red), Normalise(c.green), Normalise(c.blue)];
    var j := MaxBy(color);
    if k != j {
      SectorTie(c, k, j);
    }
  }

  /** The sector formulas of two different maximal channels agree modulo 360. */
  lemma SectorTie(c: RgbColor, k: nat, j: nat)
    requires !Achromatic(c) && k < j < 3
    requires Channels(c)[k] == MaxChannel(c) && Channels(c)[j] == MaxChannel(c)
    ensures RemEuclid360(SectorDegrees(c, k)) == RemEuclid360(SectorDegrees(c, j))
  {
    var M: int, m: int := MaxChannel(c), MinChannel(c);
    var d := (M - m) as real;
    assert d > 0.0;
    QuotientOf((M - m) as real, d, 1.0);
    QuotientOf((m - M) as real, d, -1.0);
    if k == 0 && j == 1 {
      assert c.blue == m;
      assert SectorDegrees(c, k) == 60.0 == SectorDegrees(c, j);
    } else if k == 1 && j == 2 {
      assert c.red == m;
      assert SectorDegrees(c, k) == 180.0 == SectorDegrees(c, j);
    } else {
      assert k == 0 && j == 2 && c.green == m;
      assert SectorDegrees(c, k) == -60.0;
      assert SectorDegrees(c, j) == 300.0;
      RemEuclid360Periodic(-60.0);
    }
  }

  /** The hue lies in the sector of the maximal channel: red near 0, green in [60, 180], blue in [180, 300]. */
  lemma HueSector(c: RgbColor, k: nat)
    requires !Achromatic(c) && k < 3 && Channels(c)[k] == MaxChannel(c)
    ensures var hue := FromColor(c).hue;
      && (k == 0 ==> hue <= 60.0 || hue >= 300.0)
      && (k == 1 ==> 60.0 <= hue <= 180.0)
      && (k == 2 ==> 180.0 <= hue <= 300.0)
  {
    HueFromAnyMaximalChannel(c, k);
    var M: int, m: int := MaxChannel(c), MinChannel(c);
    var d := (M - m) as real;
    var x: int, y: int := if k == 0 then c.green else if k == 1 then c.blue else c.red,
                if k == 0 then c.blue else if k == 1 then c.red else c.green;
    assert -(M - m) <= x - y <= M - m;
    QuotientBounded((x - y) as real, d);
    var q := (x - y) as real / d;
    assert SectorDegrees(c, k) == (2.0 * k as real + q) * 60.0;
    if k == 0 && q < 0.0 {
      RemEuclid360Periodic(q * 60.0);
    }
  }

  /** Pure red has hue 0, full saturation and luminance one half. */
  lemma PureRed()
    ensures FromColor(RgbColor(255, 0, 0)) == Hsl(0.0, 0.5, 1.0)
  {
    var c := RgbColor(255, 0, 0);
    Saturation(c);
    Luminance(c);
    HueFromAnyMaximalChannel(c, 0);
  }

  /** The colour `7cafc2` has hue 1374/7 degrees (about 196.29). */
  lemma SampleHue()
    ensures FromColor(RgbColor(0x7c, 0xaf, 0xc2)).hue == 1374.0 / 7.0
  {
    var c := RgbColor(0x7c, 0xaf, 0xc2);
    HueFromAnyMaximalChannel(c, 2);
  }

  /** The colour `012000` has hue 118.125 degrees, exactly half-way between two hundredths. */
  lemma SampleTieHue()
    ensures FromColor(RgbColor(0x01, 0x20, 0x00)).hue == 118.125
  {
    var c := RgbColor(0x01, 0x20, 0x00);
    HueFromAnyMaximalChannel(c, 1);
  }
}
