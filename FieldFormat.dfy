/**
 * The output formats a colour field can ask for, as the parser builds them
 * (src/template/color_field/format.rs): a pair of an output kind and a
 * variant, the check of which pairs are supported, and the renderer that
 * writes a colour in one of them.
 */
module FieldFormat {
  import opened Wrappers
  import opened Text
  import opened HexCodec
  import opened RgbColorCodec

  datatype OutputFormat = Hex | Rgb | Dec

  datatype OutputVariant = Rgb | R | G | B | Bgr

  datatype Format = Format(outputFormat: OutputFormat, outputVariant: OutputVariant)

  /** A colour together with the format to write it in. */
  datatype RgbColorFormatter = RgbColorFormatter(color: RgbColor, format: Format)

  /**
   * `is_supported_format`: whole-colour hex in either byte order, or one
   * channel in any kind; the four pairs left out are the whole-colour and
   * byte-swapped variants of the decimal and fractional kinds.
   */
  predicate IsSupportedFormat(v: RgbColorFormatter)
    ensures IsSupportedFormat(v) <==> v.format in SupportedFormats
    ensures !IsSupportedFormat(v) <==>
              v.format.outputFormat != Hex && v.format.outputVariant in {OutputVariant.Rgb, Bgr}
  {
    match v.format
    case Format(Hex, Rgb) | Format(Hex, Bgr) => true
    case Format(_, R) | Format(_, G) | Format(_, B) => true
    case _ => false
  }

  /** `Content::is_truthy`: a formatter is truthy exactly for the eleven supported pairs. */
  predicate IsTruthy(v: RgbColorFormatter)
    ensures IsTruthy(v) <==> v.format in SupportedFormats
  {
    IsSupportedFormat(v)
  }

  /**
   * Hundredths of `b / 255` rounded to the nearest: the number `{:.2}`
   * writes for the fraction. `100 * b / 255` is never half-way between two
   * integers, so the rounding rule does not matter.
   */
  function FractionHundredths(b: Byte): (n: nat)
    ensures n <= 100
    ensures -255 < 2 * (100 * b - 255 * n) < 255
  {
    (100 * b + 127) / 255
  }

  /** `{:.2}` of `b as f64 / 255.0`: one digit, a point and two digits denoting the nearest hundredths. */
  function Fraction(b: Byte): (s: string)
    ensures |s| == 4 && s[1] == '.'
    ensures DenotesHundredths(s, FractionHundredths(b))
  {
    RoundedFraction(b);
    Fixed2(b as real / 255.0)
  }

  /**
   * The hundredths nearest to a channel over 255 are the integer
   * `FractionHundredths`: no channel lies half-way between two hundredths,
   * so how ties are broken plays no part.
   */
  lemma RoundedFraction(b: Byte)
    ensures RoundHundredths(b as real / 255.0) == FractionHundredths(b)
  {
    var n := FractionHundredths(b);
    FractionHundredthsNearest(b);
    var k := RoundHundredths(b as real / 255.0);
    assert k as real - 0.5 <= 100.0 * (b as real / 255.0) < k as real + 0.5;
    assert n as real - 0.5 < 100.0 * (b as real / 255.0) < n as real + 0.5;
  }

  /** The fraction written for a channel is the text of its integer hundredths. */
  lemma FractionExact(b: Byte)
    ensures Fraction(b) == FixedHundredths(FractionHundredths(b))
  {
    RoundedFraction(b);
  }

  /** `render_escaped`: the text of the colour in the requested format; nothing for the four unsupported pairs. */
  function RenderEscaped(v: RgbColorFormatter): (s: string)
    ensures s == [] <==> !IsTruthy(v)
  {
    var RgbColor(r, g, b) := v.color;
    match v.format
    case Format(Hex, Rgb) => Lower2(r) + Lower2(g) + Lower2(b)
    case Format(Hex, R) => Lower2(r)
    case Format(Hex, G) => Lower2(g)
    case Format(Hex, B) => Lower2(b)
    case Format(Hex, Bgr) => Lower2(b) + Lower2(g) + Lower2(r)
    case Format(Rgb, R) => Decimal(r)
    case Format(Rgb, G) => Decimal(g)
    case Format(Rgb, B) => Decimal(b)
    case Format(Dec, R) => Fraction(r)
    case Format(Dec, G) => Fraction(g)
    case Format(Dec, B) => Fraction(b)
    case Format(Rgb, Rgb) | Format(Rgb, Bgr) | Format(Dec, Rgb) | Format(Dec, Bgr) => ""
  }

  /** The eleven pairs the renderer writes something for. */
  const SupportedFormats: set<Format> := {
    Format(Hex, OutputVariant.Rgb), Format(Hex, R), Format(Hex, G), Format(Hex, B), Format(Hex, Bgr),
    Format(OutputFormat.Rgb, R), Format(OutputFormat.Rgb, G), Format(OutputFormat.Rgb, B),
    Format(Dec, R), Format(Dec, G), Format(Dec, B)
  }

  /** The channel a single-channel variant selects. */
  function Selected(c: RgbColor, v: OutputVariant): Byte
    requires v == R || v == G || v == B
  {
    match v
    case R => c.red
    case G => c.green
    case B => c.blue
  }

  /** Whole-colour hex is the serialised form of the colour. */
  lemma HexRgbIsSerialized(c: RgbColor)
    ensures RenderEscaped(RgbColorFormatter(c, Format(Hex, OutputVariant.Rgb))) == Serialize(c)
  {
    var bytes := Channels(c);
    assert bytes == [c.red] + [c.green, c.blue];
    assert [c.green, c.blue] == [c.green] + [c.blue];
    assert Encode([c.blue]) == Lower2(c.blue) + Encode([]);
    assert Encode([c.green, c.blue]) == Lower2(c.green) + Encode([c.blue]);
  }

  /** Whole-colour hex in `bgr` order is the serialised form of the colour with red and blue swapped. */
  lemma HexBgrIsSwapped(c: RgbColor)
    ensures RenderEscaped(RgbColorFormatter(c, Format(Hex, Bgr)))
         == Serialize(RgbColor(c.blue, c.green, c.red))
  {
    HexRgbIsSerialized(RgbColor(c.blue, c.green, c.red));
  }

  /** Whole-colour hex is read back as the colour it was written from. */
  lemma HexRgbRoundTrip(c: RgbColor)
    ensures Deserialize(RenderEscaped(RgbColorFormatter(c, Format(Hex, OutputVariant.Rgb)))) == Success(c)
  {
    HexRgbIsSerialized(c);
    DeserializeSerialize(c);
  }

  /** Whole-colour hex is the three single-channel hex texts put together, red first. */
  lemma HexRgbIsChannels(c: RgbColor)
    ensures RenderEscaped(RgbColorFormatter(c, Format(Hex, OutputVariant.Rgb)))
         == RenderEscaped(RgbColorFormatter(c, Format(Hex, R)))
          + RenderEscaped(RgbColorFormatter(c, Format(Hex, G)))
          + RenderEscaped(RgbColorFormatter(c, Format(Hex, B)))
  {
  }

  /** A single channel in hex: two lowercase digits whose value is that channel. */
  lemma HexChannel(c: RgbColor, v: OutputVariant)
    requires v == R || v == G || v == B
    ensures var s := RenderEscaped(RgbColorFormatter(c, Format(Hex, v)));
            |s| == 2 && IsLowerHex(s[0]) && IsLowerHex(s[1])
            && 16 * HexValue(s[0]) + HexValue(s[1]) == Selected(c, v)
  {
  }

  /** A single channel in decimal: the digits of that channel's value, without leading zeros. */
  lemma RgbChannel(c: RgbColor, v: OutputVariant)
    requires v == R || v == G || v == B
    ensures var s := RenderEscaped(RgbColorFormatter(c, Format(OutputFormat.Rgb, v)));
            1 <= |s| <= 3 && AllDigits(s) && (|s| > 1 ==> s[0] != '0')
            && DecimalValue(s) == Selected(c, v)
  {
  }

  /** Hundredths grow with the channel. */
  lemma FractionHundredthsMonotone(a: Byte, b: Byte)
    requires a <= b
    ensures FractionHundredths(a) <= FractionHundredths(b)
  {
    var x, y := 100 * a + 127, 100 * b + 127;
    var qx, qy := x / 255, y / 255;
    assert x == 255 * qx + x % 255 && y == 255 * qy + y % 255;
  }

  /** The hundredths are the nearest to `b / 255`: strictly closer than half a hundredth. */
  lemma FractionHundredthsNearest(b: Byte)
    ensures var n := FractionHundredths(b) as real / 100.0;
            -0.005 < n - b as real / 255.0 < 0.005
  {
    var n := FractionHundredths(b);
    assert -255 < 2 * (100 * b - 255 * n) < 255;
    var d := (100 * b - 255 * n) as real;
    assert n as real / 100.0 - b as real / 255.0 == -d / 25500.0;
  }

  /**
   * A single channel as a fraction: a whole part of `0` or `1`, a point and
   * two digits, which together are the hundredths nearest to `channel / 255`.
   */
  lemma DecChannel(c: RgbColor, v: OutputVariant)
    requires v == R || v == G || v == B
    ensures var s := RenderEscaped(RgbColorFormatter(c, Format(Dec, v)));
            var n := FractionHundredths(Selected(c, v));
            |s| == 4 && s[1] == '.' && AllDigits(s[..1]) && AllDigits(s[2..])
            && 100 * DecimalValue(s[..1]) + DecimalValue(s[2..]) == n
  {
    var s := RenderEscaped(RgbColorFormatter(c, Format(Dec, v)));
    var n := FractionHundredths(Selected(c, v));
    FractionExact(Selected(c, v));
    assert s == FixedHundredths(n);
    assert s[..|s| - 3] == Decimal(n / 100);
  }

  /** The extremes of a channel are written `0.00` and `1.00`. */
  lemma DecEndpoints(b: Byte)
    ensures b == 0 ==> Fraction(b) == "0.00"
    ensures b == 255 ==> Fraction(b) == "1.00"
  {
    if b == 0 {
      FractionExact(b);
      var n := FractionHundredths(b);
      assert n == 0;
      FixedWhole(n, 0);
    } else if b == 255 {
      FractionExact(b);
      var n := FractionHundredths(b);
      assert n == 100;
      FixedWhole(n, 1);
    }
  }

  /** A whole number of units `d < 10` is written as that digit and `.00`. */
  lemma FixedWhole(n: nat, d: nat)
    requires d < 10 && n == 100 * d
    ensures FixedHundredths(n) == [DigitChar(d), '.', '0', '0']
  {
    assert Decimal(n / 100) == [DigitChar(d)];
  }

  /**
   * Whatever the format, at most six ASCII characters are written: the two
   * characters per channel of three channels that the capacity hint of a
   * scheme counts on.
   */
  lemma RenderEscapedShape(v: RgbColorFormatter)
    ensures |RenderEscaped(v)| <= 6 && IsAscii(RenderEscaped(v))
  {
    var c := v.color;
    match v.format
    case Format(Hex, Rgb) =>
      HexRgbIsSerialized(c);
      HexAscii(Serialize(c));
    case Format(Hex, Bgr) =>
      HexBgrIsSwapped(c);
      HexAscii(Serialize(RgbColor(c.blue, c.green, c.red)));
    case Format(Hex, R) => HexAscii(Lower2(c.red));
    case Format(Hex, G) => HexAscii(Lower2(c.green));
    case Format(Hex, B) => HexAscii(Lower2(c.blue));
    case Format(Rgb, R) => DecimalAscii(c.red);
    case Format(Rgb, G) => DecimalAscii(c.green);
    case Format(Rgb, B) => DecimalAscii(c.blue);
    case Format(Dec, R) => FractionAscii(c.red);
    case Format(Dec, G) => FractionAscii(c.green);
    case Format(Dec, B) => FractionAscii(c.blue);
    case Format(_, _) =>
  }

  lemma HexAscii(s: string)
    requires |s| == 2 ==> IsLowerHex(s[0]) && IsLowerHex(s[1])
    requires |s| != 2 ==> AllLowerHex(s)
    ensures IsAscii(s)
  {
    forall i | 0 <= i < |s| ensures s[i] as int < 0x80 {
      assert IsLowerHex(s[i]);
    }
  }

  lemma FractionAscii(b: Byte)
    ensures |Fraction(b)| == 4 && IsAscii(Fraction(b))
  {
    var s := Fraction(b);
    FractionExact(b);
    assert s == FixedHundredths(FractionHundredths(b));
    assert |s| == 4;
    forall i | 0 <= i < 4 ensures s[i] as int < 0x80 {
      if i == 0 { assert s[i] == s[..1][0]; } else if i >= 2 { assert s[i] == s[2..][i - 2]; }
    }
  }

  lemma DecimalAscii(b: Byte)
    ensures |Decimal(b)| <= 3 && IsAscii(Decimal(b))
  {
    var s := Decimal(b);
    forall i | 0 <= i < |s| ensures s[i] as int < 0x80 {
      assert IsDigit(s[i]);
    }
  }
}
