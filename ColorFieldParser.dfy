/**
 * The colour-field parser (src/template/color_field.rs): a field name such as
 * `base0A-rgb-g` becomes the index byte and the format to write it in. The
 * parser combinators are written out: `tag(t)` strips the prefix `t`, `take(2)`
 * takes two characters, `alt` tries its alternatives in order and keeps the
 * first that succeeds, and a successful parse leaves the unconsumed rest.
 */
module ColorFieldParser {
  import opened Wrappers
  import opened Text
  import opened HexCodec
  import opened FieldFormat
  import BaseIndexCodec
  import RgbColorCodec

  /** A successful parse: what was not consumed, and the value built. */
  datatype Parsed<+T> = Parsed(rest: string, value: T)

  datatype ColorField = ColorField(number: Byte, format: Format)

  /** The error of `from_str`, which carries nothing. */
  datatype ColorFieldError = ColorFieldError

  /** `take(2usize)` on a string: the first two characters. */
  function Take2(s: string): (r: Option<Parsed<string>>)
    ensures r.Some? <==> |s| >= 2
    ensures r.Some? ==> s == r.value.value + r.value.rest && |r.value.value| == 2
  {
    if |s| < 2 then None else Some(Parsed(s[2..], s[..2]))
  }

  /**
   * `map_res(take(2), ..)` with `hex::decode_to_slice` into a one-byte
   * buffer: two characters that are the hexadecimal text of one byte.
   */
  function ParseNumber(s: string): (r: Option<Parsed<Byte>>)
    ensures r.Some? <==> |s| >= 2 && IsHexDigit(s[0]) && IsHexDigit(s[1])
    ensures r.Some? ==> r.value == Parsed(s[2..], 16 * HexValue(s[0]) + HexValue(s[1]))
  {
    match Take2(s)
    case None => None
    case Some(Parsed(rest, two)) =>
      match Decode(two, 1)
      case Success(bytes) =>
        DecodeDigitsAt(two, 0);
        Some(Parsed(rest, bytes[0]))
      case Failure(_) => None
  }

  /** `tag(t).map(|_| v)`. */
  function TagAs<T>(t: string, v: T, s: string): (r: Option<Parsed<T>>)
    ensures r.Some? <==> t <= s
    ensures r.Some? ==> s == t + r.value.rest && r.value.value == v
  {
    match StripPrefix(t, s)
    case Some(rest) => Some(Parsed(rest, v))
    case None => None
  }

  /** `alt` of two parsers' results: the first if it succeeded, else the second. */
  function Or<T>(first: Option<Parsed<T>>, second: Option<Parsed<T>>): (r: Option<Parsed<T>>)
    ensures r.Some? <==> first.Some? || second.Some?
    ensures first.Some? ==> r == first
    ensures r.Some? && r != first ==> r == second
  {
    if first.Some? then first else second
  }

  /**
   * The variant after `hex`: the alternatives `""`, `-r`, `-g`, `-b`, `-bgr`
   * in this order. The empty tag always matches, so the whole-colour variant
   * is chosen whatever follows and nothing is consumed.
   */
  function ParseHexVariant(s: string): (r: Option<Parsed<OutputVariant>>)
    ensures r == Some(Parsed(s, OutputVariant.Rgb))
  {
    Or(TagAs("", OutputVariant.Rgb, s),
    Or(TagAs("-r", R, s),
    Or(TagAs("-g", G, s),
    Or(TagAs("-b", B, s),
       TagAs("-bgr", Bgr, s)))))
  }

  /** The channel after `rgb` or `dec`: `-r`, `-g` or `-b`. */
  function ParseChannel(s: string): (r: Option<Parsed<OutputVariant>>)
    ensures r.Some? <==> "-r" <= s || "-g" <= s || "-b" <= s
    ensures r.Some? ==> |s| >= 2 && r.value.rest == s[2..]
    ensures r.Some? ==> r.value.value == (if s[1] == 'r' then R else if s[1] == 'g' then G else B)
  {
    Or(TagAs("-r", R, s),
    Or(TagAs("-g", G, s),
       TagAs("-b", B, s)))
  }

  /** `.map(..)` after `tag(kind).and(variant)`: the keyword's output kind with the variant parsed. */
  function WithKind(f: OutputFormat, variant: Option<Parsed<OutputVariant>>): (r: Option<Parsed<Format>>)
    ensures r.Some? <==> variant.Some?
    ensures r.Some? ==> r.value == Parsed(variant.value.rest, Format(f, variant.value.value))
  {
    match variant
    case Some(Parsed(rest, v)) => Some(Parsed(rest, Format(f, v)))
    case None => None
  }

  /**
   * The format part: the alternatives `hex`, `rgb` and `dec`, each followed
   * by its variant. It succeeds on any `hex` and on `rgb` or `dec` followed
   * by a channel, consumes a non-empty prefix, and never yields a hex channel
   * or the byte-swapped variant.
   */
  function ParseFormat(s: string): (r: Option<Parsed<Format>>)
    ensures r.Some? <==> "hex" <= s || (("rgb" <= s || "dec" <= s) && ParseChannel(s[3..]).Some?)
    ensures r.Some? ==> |r.value.rest| < |s| && r.value.rest == s[|s| - |r.value.rest|..]
    ensures r.Some? ==> r.value.value.outputVariant != Bgr
    ensures r.Some? && r.value.value.outputFormat == Hex ==> r.value.value.outputVariant == OutputVariant.Rgb
  {
    Or(if "hex" <= s then WithKind(Hex, ParseHexVariant(s[3..])) else None,
    Or(if "rgb" <= s then WithKind(OutputFormat.Rgb, ParseChannel(s[3..])) else None,
       if "dec" <= s then WithKind(Dec, ParseChannel(s[3..])) else None))
  }

  /**
   * `parse_field`: `base`, two hexadecimal digits, `-`, a format; the rest is
   * left unconsumed. It succeeds exactly when the name has that shape, and
   * yields the byte the digits denote and what the format part makes of the
   * text after the dash.
   */
  function ParseField(s: string): (r: Option<Parsed<(Byte, Format)>>)
    ensures IsFieldParse(s, r)
  {
    match StripPrefix("base", s)
    case None =>
      NoBaseParse(s);
      None
    case Some(afterBase) =>
      var r := ParseAfterBase(afterBase);
      AfterBaseShifted(s, afterBase, r);
      r
  }

  /**
   * `r` is what parsing a field from the start of `s` gives: a parse exactly
   * when `s` starts with `base`, two hexadecimal digits, `-` and a format,
   * holding the byte the digits denote, the format and the text after it.
   */
  predicate IsFieldParse(s: string, r: Option<Parsed<(Byte, Format)>>)
  {
    && (r.Some? <==>
          |s| >= 7 && s[..4] == "base" && IsHexDigit(s[4]) && IsHexDigit(s[5])
          && s[6] == '-' && ParseFormat(s[7..]).Some?)
    && (r.Some? ==>
          var f := ParseFormat(s[7..]).value;
          r == Some(Parsed(f.rest, (16 * HexValue(s[4]) + HexValue(s[5]), f.value))))
  }

  /** A name that does not start with `base` has no field parse. */
  lemma NoBaseParse(s: string)
    requires !("base" <= s)
    ensures IsFieldParse(s, None)
  {
    if |s| >= 4 {
      PrefixIsTake("base", s);
    }
  }

  /**
   * `r` is what parsing the text after `base` gives: a parse exactly when `a`
   * starts with two hexadecimal digits, `-` and a format.
   */
  predicate IsAfterBaseParse(a: string, r: Option<Parsed<(Byte, Format)>>)
  {
    && (r.Some? <==>
          |a| >= 3 && IsHexDigit(a[0]) && IsHexDigit(a[1]) && a[2] == '-' && ParseFormat(a[3..]).Some?)
    && (r.Some? ==>
          var f := ParseFormat(a[3..]).value;
          r == Some(Parsed(f.rest, (16 * HexValue(a[0]) + HexValue(a[1]), f.value))))
  }

  /** A parse of the text after `base` is a field parse of the whole name. */
  lemma AfterBaseShifted(s: string, a: string, r: Option<Parsed<(Byte, Format)>>)
    requires s == "base" + a && IsAfterBaseParse(a, r)
    ensures IsFieldParse(s, r)
  {
    assert |s| == |a| + 4 && s[..4] == "base" && s[4..] == a;
    if |s| >= 7 {
      LongAfterBase(s, a, r);
    }
  }

  /** The digits, the dash and the format of a long enough name sit four places on from those after `base`. */
  lemma LongAfterBase(s: string, a: string, r: Option<Parsed<(Byte, Format)>>)
    requires |s| >= 7 && s[4..] == a && IsAfterBaseParse(a, r)
    ensures r.Some? <==> IsHexDigit(s[4]) && IsHexDigit(s[5]) && s[6] == '-' && ParseFormat(s[7..]).Some?
    ensures r.Some? ==>
              var f := ParseFormat(s[7..]).value;
              r == Some(Parsed(f.rest, (16 * HexValue(s[4]) + HexValue(s[5]), f.value)))
  {
    assert a[3..] == s[7..];
    assert a[0] == s[4] && a[1] == s[5] && a[2] == s[6];
  }

  /** What follows `base`: two hexadecimal digits, `-` and a format. */
  function ParseAfterBase(a: string): (r: Option<Parsed<(Byte, Format)>>)
    ensures IsAfterBaseParse(a, r)
  {
    match ParseNumber(a)
    case None => None
    case Some(Parsed(afterNumber, number)) =>
      assert afterNumber == a[2..];
      match StripPrefix("-", afterNumber)
      case None =>
        assert |a| >= 3 ==> a[2] == afterNumber[0];
        None
      case Some(afterDash) =>
        assert afterDash == a[3..] && a[2] == '-';
        match ParseFormat(afterDash)
        case None => None
        case Some(Parsed(rest, format)) => Some(Parsed(rest, (number, format)))
  }

  /**
   * `ColorField::from_str`: a parse that consumes the whole name. A name is a
   * colour field exactly when it is `base`, two hexadecimal digits of either
   * case, `-` and one of the seven format texts, with nothing before or
   * after; the field holds the byte the digits denote and the format the
   * text names.
   */
  function FromStr(s: string): (r: Result<ColorField, ColorFieldError>)
    ensures r.Success? <==>
              |s| >= 7 && s[..4] == "base" && IsHexDigit(s[4]) && IsHexDigit(s[5])
              && s[6] == '-' && s[7..] in ParsableSuffixes
    ensures r.Success? ==>
              r.value == ColorField(16 * HexValue(s[4]) + HexValue(s[5]), ParsableSuffixes[s[7..]])
  {
    ParseFormatWhole(if |s| >= 7 then s[7..] else s);
    match ParseField(s)
    case None => Failure(ColorFieldError)
    case Some(Parsed(rest, (number, format))) =>
      if rest != [] then Failure(ColorFieldError) else Success(ColorField(number, format))
  }

  /** The format texts a whole name may end in, and the format each denotes. */
  const ParsableSuffixes: map<string, Format> := map[
    "hex" := Format(Hex, OutputVariant.Rgb),
    "rgb-r" := Format(OutputFormat.Rgb, R),
    "rgb-g" := Format(OutputFormat.Rgb, G),
    "rgb-b" := Format(OutputFormat.Rgb, B),
    "dec-r" := Format(Dec, R),
    "dec-g" := Format(Dec, G),
    "dec-b" := Format(Dec, B)
  ]

  /** The format part consumes a whole text exactly when that text is one of the seven format texts. */
  lemma ParseFormatWhole(t: string)
    ensures (ParseFormat(t).Some? && ParseFormat(t).value.rest == []) <==> t in ParsableSuffixes
    ensures t in ParsableSuffixes ==> ParseFormat(t).value.value == ParsableSuffixes[t]
  {
    if "hex" <= t {
      HexWhole(t);
    } else if "rgb" <= t {
      RgbWhole(t);
    } else if "dec" <= t {
      DecWhole(t);
    } else {
      NoKeyword(t);
    }
  }

  lemma HexWhole(t: string)
    requires "hex" <= t
    ensures (ParseFormat(t).Some? && ParseFormat(t).value.rest == []) <==> t in ParsableSuffixes
    ensures t in ParsableSuffixes ==> ParseFormat(t).value.value == ParsableSuffixes[t]
  {
    HexParsed(t);
    if t == "hex" {
      assert ParsableSuffixes[t] == Format(Hex, OutputVariant.Rgb);
    } else {
      HexLonger(t);
    }
  }

  /** After `hex`, the format is the whole colour and the rest is left over. */
  lemma HexParsed(t: string)
    requires "hex" <= t
    ensures ParseFormat(t) == Some(Parsed(t[3..], Format(Hex, OutputVariant.Rgb)))
  {
    var u := t[3..];
    assert t == "hex" + u;
    assert ParseHexVariant(u) == Some(Parsed(u, OutputVariant.Rgb));
  }

  /** A text longer than `hex` that starts with it is no suffix. */
  lemma HexLonger(t: string)
    requires "hex" <= t && t != "hex"
    ensures t[3..] != [] && t !in ParsableSuffixes
  {
    assert |t| > 3;
    assert t[0] == 'h';
  }

  lemma RgbWhole(t: string)
    requires "rgb" <= t
    ensures (ParseFormat(t).Some? && ParseFormat(t).value.rest == []) <==> t in ParsableSuffixes
    ensures t in ParsableSuffixes ==> ParseFormat(t).value.value == ParsableSuffixes[t]
  {
    KeywordThenChannel("rgb", t);
    assert t[0] == 'r';
    assert ParseFormat(t) == WithKind(OutputFormat.Rgb, ParseChannel(t[3..]));
    assert t in ParsableSuffixes <==> t == "rgb-r" || t == "rgb-g" || t == "rgb-b";
  }

  lemma DecWhole(t: string)
    requires "dec" <= t
    ensures (ParseFormat(t).Some? && ParseFormat(t).value.rest == []) <==> t in ParsableSuffixes
    ensures t in ParsableSuffixes ==> ParseFormat(t).value.value == ParsableSuffixes[t]
  {
    KeywordThenChannel("dec", t);
    assert t[0] == 'd';
    assert ParseFormat(t) == WithKind(Dec, ParseChannel(t[3..]));
    assert t in ParsableSuffixes <==> t == "dec-r" || t == "dec-g" || t == "dec-b";
  }

  /** A text that starts with none of the three keywords is no format. */
  lemma NoKeyword(t: string)
    requires !("hex" <= t) && !("rgb" <= t) && !("dec" <= t)
    ensures ParseFormat(t).None? && t !in ParsableSuffixes
  {
    assert "hex" <= "hex";
    assert "rgb" <= "rgb-r" && "rgb" <= "rgb-g" && "rgb" <= "rgb-b";
    assert "dec" <= "dec-r" && "dec" <= "dec-g" && "dec" <= "dec-b";
  }

  lemma KeywordThenChannel(keyword: string, t: string)
    requires |keyword| == 3 && keyword <= t
    ensures var u := t[3..];
            (ParseChannel(u).Some? && ParseChannel(u).value.rest == []) <==>
            (t == keyword + "-r" || t == keyword + "-g" || t == keyword + "-b")
  {
    var u := t[3..];
    assert t == keyword + u;
    if ParseChannel(u).Some? && ParseChannel(u).value.rest == [] {
      assert u == u[..2] + u[2..];
    }
  }

  /** The name of an index as it is serialised, a dash and a format text read back as that index and format. */
  lemma IndexNameRoundTrip(i: BaseIndexCodec.BaseIndex, t: string)
    requires t in ParsableSuffixes
    ensures FromStr(BaseIndexCodec.Serialize(i) + "-" + t) == Success(ColorField(i.value, ParsableSuffixes[t]))
  {
    var k := BaseIndexCodec.Serialize(i);
    var s := k + "-" + t;
    assert s[..6] == k;
    assert s[..4] == k[..4];
    assert s[4] == k[4] && s[5] == k[5] && s[6] == '-';
    assert s[7..] == t;
    assert 16 * HexValue(s[4]) + HexValue(s[5]) == i.value;
    var r := FromStr(s);
    assert r.Success? && r.value == ColorField(i.value, ParsableSuffixes[t]);
  }

  /** The two index digits are read without regard to case. */
  lemma FromStrIgnoresDigitCase(s: string)
    requires |s| >= 6 && IsHexDigit(s[4]) && IsHexDigit(s[5])
    ensures FromStr(s[4 := AsciiLower(s[4])][5 := AsciiLower(s[5])]) == FromStr(s)
  {
    LowerDigitOfValue(s[4]);
    LowerDigitOfValue(s[5]);
    var l := s[4 := AsciiLower(s[4])][5 := AsciiLower(s[5])];
    var a, b := s[4..], l[4..];
    assert l[..4] == s[..4] && a[2..] == b[2..];
    assert ParseNumber(a) == ParseNumber(b);
    if "base" <= s {
      assert s == "base" + a && l == "base" + b;
      assert StripPrefix("base", s) == Some(a) && StripPrefix("base", l) == Some(b);
    } else {
      assert !("base" <= l);
    }
    assert ParseField(l) == ParseField(s);
  }

  /**
   * A hex channel or byte-swapped name parses as whole-colour hex and leaves
   * its variant text unconsumed, so the whole name is turned down.
   */
  lemma HexVariantsRejected(s: string)
    requires |s| >= 7 && s[..4] == "base" && IsHexDigit(s[4]) && IsHexDigit(s[5]) && s[6] == '-'
    requires s[7..] in {"hex-r", "hex-g", "hex-b", "hex-bgr"}
    ensures ParseField(s) == Some(Parsed(s[10..], (16 * HexValue(s[4]) + HexValue(s[5]), Format(Hex, OutputVariant.Rgb))))
    ensures s[10..] != [] && FromStr(s).Failure?
  {
    var t := s[7..];
    assert t == "hex" + t[3..];
    assert t[3..] == s[10..];
    assert ParseFormat(t) == Some(Parsed(t[3..], Format(Hex, OutputVariant.Rgb)));
  }

  /** Every field that parses asks for a supported format, and never for a hex channel or `bgr`. */
  lemma ParsedFormatsSupported(s: string, c: RgbColorCodec.RgbColor)
    requires FromStr(s).Success?
    ensures IsSupportedFormat(RgbColorFormatter(c, FromStr(s).value.format))
    ensures FromStr(s).value.format.outputVariant != Bgr
    ensures FromStr(s).value.format.outputFormat == Hex ==> FromStr(s).value.format.outputVariant == OutputVariant.Rgb
  {
  }

  /** This parser knows no `hsl` format: a name whose format part starts with `hsl` is turned down. */
  lemma NoHslFields(s: string)
    requires |s| >= 10 && s[7..10] == "hsl"
    ensures FromStr(s).Failure?
  {
    var t := s[7..];
    assert t[1] == 's';
    if t in ParsableSuffixes {
      assert t in {"hex", "rgb-r", "rgb-g", "rgb-b", "dec-r", "dec-g", "dec-b"};
    }
  }
}
