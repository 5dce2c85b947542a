/**
 * The colour formatter of the revision in which a format is one enumeration
 * with a variant per output kind (src/scheme/rgb_color/formatter.rs), HSL
 * components included. Its `render_escaped` writes what `Display` writes,
 * so `Display` stands for both.
 */
module ColorFormatter {
  import opened Wrappers
  import opened Text
  import opened HexCodec
  import opened RgbColorCodec
  import HslConversion
  import FieldFormat

  datatype HexVariant = Rgb | R | G | B | Bgr
  datatype RgbVariant = R | G | B
  datatype DecVariant = R | G | B
  datatype HslVariant = H | L | S

  datatype Format =
    | Hex(hex: HexVariant)
    | Rgb(rgb: RgbVariant)
    | Dec(dec: DecVariant)
    | Hsl(hsl: HslVariant)

  datatype RgbColorFormatter = RgbColorFormatter(color: RgbColor, format: Format)

  /**
   * `Display::fmt`, which `render_escaped` hands the formatter to: every
   * format writes something, and an HSL format writes the nearest hundredths
   * of that component of the converted colour.
   */
  function Display(v: RgbColorFormatter): (s: string)
    ensures |s| >= 1
    ensures v.format.Hsl? ==>
              DenotesHundredths(s, RoundHundredths(HslValue(HslConversion.FromColor(v.color), v.format.hsl)))
  {
    match v.format
    case Hex(x) => HexText(v.color, x)
    case Rgb(x) => RgbText(v.color, x)
    case Dec(x) => DecText(v.color, x)
    case Hsl(x) => HslText(v.color, x)
  }

  /** The hex arms: two lowercase digits per channel written, six for the whole colour in either order. */
  function HexText(c: RgbColor, x: HexVariant): (s: string)
    ensures |s| == (if x == HexVariant.Rgb || x == Bgr then 6 else 2) && AllLowerHex(s)
    ensures x == HexVariant.R ==> 16 * HexValue(s[0]) + HexValue(s[1]) == c.red
    ensures x == HexVariant.G ==> 16 * HexValue(s[0]) + HexValue(s[1]) == c.green
    ensures x == HexVariant.B ==> 16 * HexValue(s[0]) + HexValue(s[1]) == c.blue
  {
    match x
    case Rgb => Lower2(c.red) + Lower2(c.green) + Lower2(c.blue)
    case R => Lower2(c.red)
    case G => Lower2(c.green)
    case B => Lower2(c.blue)
    case Bgr => Lower2(c.blue) + Lower2(c.green) + Lower2(c.red)
  }

  /** The decimal arms: the selected channel in unpadded decimal. */
  function RgbText(c: RgbColor, x: RgbVariant): (s: string)
    ensures 1 <= |s| <= 3 && AllDigits(s) && (|s| > 1 ==> s[0] != '0')
    ensures DecimalValue(s) == match x case R => c.red case G => c.green case B => c.blue
  {
    match x
    case R => Decimal(c.red)
    case G => Decimal(c.green)
    case B => Decimal(c.blue)
  }

  /** The fraction arms: the selected channel over 255 to the nearest hundredth. */
  function DecText(c: RgbColor, x: DecVariant): (s: string)
    ensures |s| == 4 && s[1] == '.'
    ensures DenotesHundredths(s, FieldFormat.FractionHundredths(
              match x case R => c.red case G => c.green case B => c.blue))
  {
    match x
    case R => FieldFormat.Fraction(c.red)
    case G => FieldFormat.Fraction(c.green)
    case B => FieldFormat.Fraction(c.blue)
  }

  /**
   * The HSL component a variant selects: for a conversion in range, a hue in
   * degrees below 360, or a fraction for the luminance and the saturation.
   */
  function HslValue(h: HslConversion.Hsl, x: HslVariant): (v: real)
    ensures v in {h.hue, h.luminance, h.saturation}
    ensures 0.0 <= h.hue < 360.0 && 0.0 <= h.luminance <= 1.0 && 0.0 <= h.saturation <= 1.0 ==>
              0.0 <= v < 360.0 && (x != H ==> v <= 1.0)
  {
    match x
    case H => h.hue
    case L => h.luminance
    case S => h.saturation
  }

  /** The HSL arms: the selected component of the converted colour to the nearest hundredth. */
  function HslText(c: RgbColor, x: HslVariant): (s: string)
    ensures DenotesHundredths(s, RoundHundredths(HslValue(HslConversion.FromColor(c), x)))
  {
    var h := HslConversion.FromColor(c);
    Fixed2(HslValue(h, x))
  }

  /** `is_truthy` is constant in this revision: every formatter is truthy. */
  predicate IsTruthy(v: RgbColorFormatter)
    ensures IsTruthy(v)
  {
    true
  }

  /**
   * The format of the struct revision that means the same, when there is one:
   * HSL components have no counterpart there.
   */
  function ToFieldFormat(f: Format): (r: Option<FieldFormat.Format>)
    ensures r.None? <==> f.Hsl?
    ensures r.Some? ==> r.value in FieldFormat.SupportedFormats
  {
    match f
    case Hex(Rgb) => Some(FieldFormat.Format(FieldFormat.Hex, FieldFormat.OutputVariant.Rgb))
    case Hex(R) => Some(FieldFormat.Format(FieldFormat.Hex, FieldFormat.R))
    case Hex(G) => Some(FieldFormat.Format(FieldFormat.Hex, FieldFormat.G))
    case Hex(B) => Some(FieldFormat.Format(FieldFormat.Hex, FieldFormat.B))
    case Hex(Bgr) => Some(FieldFormat.Format(FieldFormat.Hex, FieldFormat.Bgr))
    case Rgb(R) => Some(FieldFormat.Format(FieldFormat.OutputFormat.Rgb, FieldFormat.R))
    case Rgb(G) => Some(FieldFormat.Format(FieldFormat.OutputFormat.Rgb, FieldFormat.G))
    case Rgb(B) => Some(FieldFormat.Format(FieldFormat.OutputFormat.Rgb, FieldFormat.B))
    case Dec(R) => Some(FieldFormat.Format(FieldFormat.Dec, FieldFormat.R))
    case Dec(G) => Some(FieldFormat.Format(FieldFormat.Dec, FieldFormat.G))
    case Dec(B) => Some(FieldFormat.Format(FieldFormat.Dec, FieldFormat.B))
    case Hsl(_) => None
  }

  /**
   * The format of this revision that means the same as a struct format: one
   * exists exactly for the pairs the struct revision supports.
   */
  function FromFieldFormat(f: FieldFormat.Format): (r: Option<Format>)
    ensures r.Some? <==> f in FieldFormat.SupportedFormats
    ensures r.Some? ==> !r.value.Hsl?
  {
    match f
    case Format(Hex, Rgb) => Some(Format.Hex(HexVariant.Rgb))
    case Format(Hex, R) => Some(Format.Hex(HexVariant.R))
    case Format(Hex, G) => Some(Format.Hex(HexVariant.G))
    case Format(Hex, B) => Some(Format.Hex(HexVariant.B))
    case Format(Hex, Bgr) => Some(Format.Hex(HexVariant.Bgr))
    case Format(Rgb, R) => Some(Format.Rgb(RgbVariant.R))
    case Format(Rgb, G) => Some(Format.Rgb(RgbVariant.G))
    case Format(Rgb, B) => Some(Format.Rgb(RgbVariant.B))
    case Format(Dec, R) => Some(Format.Dec(DecVariant.R))
    case Format(Dec, G) => Some(Format.Dec(DecVariant.G))
    case Format(Dec, B) => Some(Format.Dec(DecVariant.B))
    case Format(Rgb, Rgb) | Format(Rgb, Bgr) | Format(Dec, Rgb) | Format(Dec, Bgr) => None
  }

  /** The two translations are inverse to each other where they are defined. */
  lemma TranslationsInverse(f: Format, g: FieldFormat.Format)
    ensures ToFieldFormat(f).Some? ==> FromFieldFormat(ToFieldFormat(f).value) == Some(f)
    ensures FromFieldFormat(g).Some? ==> ToFieldFormat(FromFieldFormat(g).value) == Some(g)
  {
  }

  /**
   * The two renderers agree: the struct revision writes what this one writes
   * for the same format, and nothing for the pairs this revision lacks.
   */
  lemma RenderersAgree(c: RgbColor, g: FieldFormat.Format)
    ensures FromFieldFormat(g).Some? ==>
              FieldFormat.RenderEscaped(FieldFormat.RgbColorFormatter(c, g))
              == Display(RgbColorFormatter(c, FromFieldFormat(g).value))
    ensures FromFieldFormat(g).None? ==> FieldFormat.RenderEscaped(FieldFormat.RgbColorFormatter(c, g)) == ""
  {
    match g.outputFormat
    case Hex => HexAgrees(c, g);
    case Rgb => RgbAgrees(c, g);
    case Dec => DecAgrees(c, g);
  }

  lemma HexAgrees(c: RgbColor, g: FieldFormat.Format)
    requires g.outputFormat == FieldFormat.Hex
    ensures FromFieldFormat(g).Some? ==>
              FieldFormat.RenderEscaped(FieldFormat.RgbColorFormatter(c, g))
              == Display(RgbColorFormatter(c, FromFieldFormat(g).value))
    ensures FromFieldFormat(g).None? ==> FieldFormat.RenderEscaped(FieldFormat.RgbColorFormatter(c, g)) == ""
  {
    match g.outputVariant
    case Rgb => assert FromFieldFormat(g) == Some(Format.Hex(HexVariant.Rgb));
    case R => assert FromFieldFormat(g) == Some(Format.Hex(HexVariant.R));
    case G => assert FromFieldFormat(g) == Some(Format.Hex(HexVariant.G));
    case B => assert FromFieldFormat(g) == Some(Format.Hex(HexVariant.B));
    case Bgr => assert FromFieldFormat(g) == Some(Format.Hex(HexVariant.Bgr));
  }

  lemma RgbAgrees(c: RgbColor, g: FieldFormat.Format)
    requires g.outputFormat == FieldFormat.OutputFormat.Rgb
    ensures FromFieldFormat(g).Some? ==>
              FieldFormat.RenderEscaped(FieldFormat.RgbColorFormatter(c, g))
              == Display(RgbColorFormatter(c, FromFieldFormat(g).value))
    ensures FromFieldFormat(g).None? ==> FieldFormat.RenderEscaped(FieldFormat.RgbColorFormatter(c, g)) == ""
  {
    match g.outputVariant
    case Rgb => assert g == FieldFormat.Format(FieldFormat.OutputFormat.Rgb, FieldFormat.OutputVariant.Rgb);
    case R => assert FromFieldFormat(g) == Some(Format.Rgb(RgbVariant.R));
    case G => assert FromFieldFormat(g) == Some(Format.Rgb(RgbVariant.G));
    case B => assert FromFieldFormat(g) == Some(Format.Rgb(RgbVariant.B));
    case Bgr => assert g == FieldFormat.Format(FieldFormat.OutputFormat.Rgb, FieldFormat.OutputVariant.Bgr);
  }

  lemma DecAgrees(c: RgbColor, g: FieldFormat.Format)
    requires g.outputFormat == FieldFormat.Dec
    ensures FromFieldFormat(g).Some? ==>
              FieldFormat.RenderEscaped(FieldFormat.RgbColorFormatter(c, g))
              == Display(RgbColorFormatter(c, FromFieldFormat(g).value))
    ensures FromFieldFormat(g).None? ==> FieldFormat.RenderEscaped(FieldFormat.RgbColorFormatter(c, g)) == ""
  {
    match g.outputVariant
    case Rgb => assert g == FieldFormat.Format(FieldFormat.Dec, FieldFormat.OutputVariant.Rgb);
    case R => assert FromFieldFormat(g) == Some(Format.Dec(DecVariant.R));
    case G => assert FromFieldFormat(g) == Some(Format.Dec(DecVariant.G));
    case B => assert FromFieldFormat(g) == Some(Format.Dec(DecVariant.B));
    case Bgr => assert g == FieldFormat.Format(FieldFormat.Dec, FieldFormat.OutputVariant.Bgr);
  }

  /** The luminance written is the nearest hundredths of `(max + min) / 510` over the channel bytes. */
  lemma HslLuminance(c: RgbColor)
    ensures Display(RgbColorFormatter(c, Hsl(L)))
         == Fixed2((HslConversion.MaxChannel(c) + HslConversion.MinChannel(c)) as real / 510.0)
  {
    HslConversion.Luminance(c);
    DisplayHsl(c, L);
  }

  /** An HSL format writes `{:.2}` of the selected component of the converted colour. */
  lemma DisplayHsl(c: RgbColor, x: HslVariant)
    ensures Display(RgbColorFormatter(c, Hsl(x))) == Fixed2(HslValue(HslConversion.FromColor(c), x))
  {
  }

  /** A grey writes hue and saturation as `0.00`. */
  lemma HslGrey(c: RgbColor)
    requires c.red == c.green == c.blue
    ensures Display(RgbColorFormatter(c, Hsl(H))) == "0.00"
    ensures Display(RgbColorFormatter(c, Hsl(S))) == "0.00"
  {
    HslConversion.AchromaticColor(c);
    assert RoundHundredths(0.0) == 0;
    assert Decimal(0) == "0";
    assert FixedHundredths(0) == "0" + ['.'] + ['0', '0'];
  }

  /** A hue exactly half-way between two hundredths goes to the even one: `012000` writes `118.12`. */
  lemma HslTieToEven()
    ensures Display(RgbColorFormatter(RgbColor(0x01, 0x20, 0x00), Hsl(H))) == "118.12"
  {
    HslConversion.SampleTieHue();
    Fixed2TieToEven(118.125);
  }

  /** `{:.2}` of 118.125 writes `118.12`. */
  lemma Fixed2TieToEven(x: real)
    requires x == 118.125
    ensures Fixed2(x) == "118.12"
  {
    RoundTieToEven(x);
    FixedSample(11812);
  }

  /** 11812.5 hundredths round to the even neighbour 11812. */
  lemma RoundTieToEven(x: real)
    requires x == 118.125
    ensures RoundHundredths(x) == 11812
  {
    assert (100.0 * x + 0.5).Floor == 11813;
  }

  lemma FixedSample(n: nat)
    requires n == 11812
    ensures FixedHundredths(n) == "118.12"
  {
    DecimalSample(n / 100);
    var s := FixedHundredths(n);
    assert s == Decimal(118) + ['.'] + [DigitChar(1), DigitChar(2)];
  }

  lemma DecimalSample(n: nat)
    requires n == 118
    ensures Decimal(n) == "118"
  {
    assert Decimal(1) == "1";
    assert Decimal(11) == "11";
  }
}
