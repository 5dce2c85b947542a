/**
 * A colour scheme and how template fields are resolved against it
 * (src/scheme.rs): the name, author and slug texts, the colours by index,
 * the slug derived from the name, and the text a field name renders to.
 */
module Schemes {
  import opened Wrappers
  import opened Text
  import opened HexCodec
  import opened BaseIndexCodec
  import opened RgbColorCodec
  import FieldFormat
  import ColorFieldParser
  import opened TemplateFields

  datatype Scheme = Scheme(
    scheme: string,
    author: string,
    slug: string,
    colors: map<BaseIndex, RgbColor>)

  /** What `create_slug` turns one character of the name into. */
  function SlugChar(c: char): (d: char)
    ensures d != ' ' && !IsAsciiUpper(d)
  {
    if c == ' ' then '-' else AsciiLower(c)
  }

  /**
   * `create_slug`: the name with every space turned into `-` and letters
   * lowercased; every other character is kept.
   */
  function CreateSlug(name: string): (slug: string)
    ensures |slug| == |name|
    ensures forall i :: 0 <= i < |slug| ==> slug[i] != ' ' && !IsAsciiUpper(slug[i])
    ensures forall i :: 0 <= i < |name| && name[i] == ' ' ==> slug[i] == '-'
    ensures forall i :: 0 <= i < |name| && IsAsciiUpper(name[i]) ==> slug[i] as int == name[i] as int + 32
    ensures forall i :: 0 <= i < |name| && name[i] != ' ' && !IsAsciiUpper(name[i]) ==> slug[i] == name[i]
  {
    if name == [] then []
    else [SlugChar(name[0])] + CreateSlug(name[1..])
  }

  /** A slug is its own slug. */
  lemma CreateSlugIdempotent(name: string)
    ensures CreateSlug(CreateSlug(name)) == CreateSlug(name)
  {
    var slug := CreateSlug(name);
    var again := CreateSlug(slug);
    assert forall i :: 0 <= i < |slug| ==> again[i] == slug[i];
  }

  /** `Scheme::create_slug`: the same scheme with its slug derived from its name. */
  function WithSlug(s: Scheme): (r: Scheme)
    ensures r.slug == CreateSlug(s.scheme)
    ensures r.scheme == s.scheme && r.author == s.author && r.colors == s.colors
  {
    s.(slug := CreateSlug(s.scheme))
  }

  /** `Scheme::color`: the colour at the field's index, paired with the field's format, if the scheme has one. */
  function Color(s: Scheme, field: ColorFieldParser.ColorField): (r: Option<FieldFormat.RgbColorFormatter>)
    ensures r.Some? <==> BaseIndex(field.number) in s.colors
    ensures r.Some? ==> r.value.color == s.colors[BaseIndex(field.number)] && r.value.format == field.format
  {
    var key := BaseIndex(field.number);
    if key in s.colors then Some(FieldFormat.RgbColorFormatter(s.colors[key], field.format)) else None
  }

  /**
   * `capacity_hint`: the byte lengths of the three texts plus six bytes per
   * colour; at least their character counts, and exactly those when all three
   * texts are ASCII.
   */
  function CapacityHint(s: Scheme): (n: nat)
    ensures n >= |s.scheme| + |s.author| + |s.slug| + 6 * |s.colors|
    ensures n == |s.scheme| + |s.author| + |s.slug| + 6 * |s.colors|
            <==> IsAscii(s.scheme) && IsAscii(s.author) && IsAscii(s.slug)
  {
    Utf8Len(s.scheme) + Utf8Len(s.author) + Utf8Len(s.slug) + |s.colors| * 6
  }

  /** The slug as written: the placeholder `scheme-slug` while the slug is empty. */
  function SlugText(s: Scheme): (t: string)
    ensures t != []
    ensures s.slug != [] ==> t == s.slug
  {
    if s.slug == [] then "scheme-slug" else s.slug
  }

  /**
   * `render_field_escaped`: the text written for a field name, or `None`
   * when nothing is written and the engine is told the field was not found.
   * A field is found exactly when it is one of the four fixed names, or a
   * colour field whose index the scheme has; the fixed names write the
   * scheme's texts, the slug falling back to `scheme-slug` while empty, and a
   * colour field writes the stored colour in its format.
   */
  function RenderFieldEscaped(s: Scheme, name: string): (r: Option<string>)
    ensures r.Some? <==>
              name in {"scheme-name", "scheme", "scheme-author", "scheme-slug"}
              || (ColorFieldParser.FromStr(name).Success?
                  && BaseIndex(ColorFieldParser.FromStr(name).value.number) in s.colors)
    ensures name == "scheme-name" || name == "scheme" ==> r == Some(s.scheme)
    ensures name == "scheme-author" ==> r == Some(s.author)
    ensures name == "scheme-slug" ==> r == Some(if s.slug == [] then "scheme-slug" else s.slug)
    ensures ColorFieldParser.FromStr(name).Success? ==>
              var field := ColorFieldParser.FromStr(name).value;
              var key := BaseIndex(field.number);
              r == if key in s.colors
                   then Some(FieldFormat.RenderEscaped(FieldFormat.RgbColorFormatter(s.colors[key], field.format)))
                   else None
  {
    match ParseField(name)
    case SchemeName => Some(s.scheme)
    case SchemeAuthor => Some(s.author)
    case SchemeSlug => Some(SlugText(s))
    case ColorField(field) =>
      (match Color(s, field)
       case Some(value) => Some(FieldFormat.RenderEscaped(value))
       case None => None)
    case UnparsableField => None
  }

  /** What `render_field_inverse` does for a field name. */
  datatype InverseOutcome =
    | Written(text: string)
    | Section(value: FieldFormat.RgbColorFormatter)
    | NotFound

  /**
   * `render_field_inverse`: the same dispatch as `render_field_escaped`. The
   * texts are written as there, a missing field is not found there either,
   * and a colour field hands the inverted section to a truthy formatter whose
   * plain rendering is what `render_field_escaped` writes.
   */
  function RenderFieldInverse(s: Scheme, name: string): (r: InverseOutcome)
    ensures r.NotFound? <==> RenderFieldEscaped(s, name).None?
    ensures r.Written? ==> RenderFieldEscaped(s, name) == Some(r.text)
    ensures r.Section? ==>
              RenderFieldEscaped(s, name) == Some(FieldFormat.RenderEscaped(r.value))
              && FieldFormat.IsTruthy(r.value)
  {
    match ParseField(name)
    case SchemeName => Written(s.scheme)
    case SchemeAuthor => Written(s.author)
    case SchemeSlug => Written(SlugText(s))
    case ColorField(field) =>
      ColorFieldParser.ParsedFormatsSupported(name, RgbColor(0, 0, 0));
      (match Color(s, field)
       case Some(value) => Section(value)
       case None => NotFound)
    case UnparsableField => NotFound
  }

  /**
   * The colours of a scheme are kept in a map ordered by index, so they are
   * visited in ascending index order, every stored index once; the texts of
   * those indices then come out in ascending text order as well.
   */
  lemma ColorsInTextOrder(s: Scheme)
    ensures var keys := Ascending(s.colors.Keys);
            (forall k :: k in keys <==> k in s.colors)
            && forall i, j :: 0 <= i < j < |keys| ==>
                 LexLess(BaseIndexCodec.Serialize(keys[i]), BaseIndexCodec.Serialize(keys[j]))
  {
    var keys := Ascending(s.colors.Keys);
    forall i, j | 0 <= i < j < |keys|
      ensures LexLess(BaseIndexCodec.Serialize(keys[i]), BaseIndexCodec.Serialize(keys[j]))
    {
      SerializePreservesOrder(keys[i], keys[j]);
    }
  }

  /** Once the slug is derived, a scheme with a name writes that name's slug. */
  lemma RenderDerivedSlug(s: Scheme)
    requires s.scheme != []
    ensures RenderFieldEscaped(WithSlug(s), "scheme-slug") == Some(CreateSlug(s.scheme))
  {
    assert CreateSlug(s.scheme) != [];
  }

  /** The field named by an index's text and a format text writes that index's colour in that format. */
  lemma RenderColorField(s: Scheme, i: BaseIndex, t: string)
    requires t in ColorFieldParser.ParsableSuffixes
    ensures var name := BaseIndexCodec.Serialize(i) + "-" + t;
            RenderFieldEscaped(s, name)
            == if i in s.colors
               then Some(FieldFormat.RenderEscaped(
                      FieldFormat.RgbColorFormatter(s.colors[i], ColorFieldParser.ParsableSuffixes[t])))
               else None
  {
    var name := BaseIndexCodec.Serialize(i) + "-" + t;
    ColorFieldParser.IndexNameRoundTrip(i, t);
    assert name != "scheme-name" && name != "scheme" && name != "scheme-author" && name != "scheme-slug" by {
      assert name[0] == 'b';
    }
  }

  /** The whole-colour hex field writes the colour as the scheme file stores it. */
  lemma RenderStoredColor(s: Scheme, i: BaseIndex)
    requires i in s.colors
    ensures RenderFieldEscaped(s, BaseIndexCodec.Serialize(i) + "-hex") == Some(RgbColorCodec.Serialize(s.colors[i]))
  {
    var f := FieldFormat.Format(FieldFormat.Hex, FieldFormat.OutputVariant.Rgb);
    assert ColorFieldParser.ParsableSuffixes["hex"] == f;
    assert BaseIndexCodec.Serialize(i) + "-" + "hex" == BaseIndexCodec.Serialize(i) + "-hex";
    RenderColorField(s, i, "hex");
    FieldFormat.HexRgbIsSerialized(s.colors[i]);
    assert FieldFormat.RenderEscaped(FieldFormat.RgbColorFormatter(s.colors[i], f)) == RgbColorCodec.Serialize(s.colors[i]);
  }

  /**
   * Any text a field writes fits in the capacity hint, except the slug
   * placeholder written for an empty slug.
   */
  lemma RenderWithinHint(s: Scheme, name: string)
    requires RenderFieldEscaped(s, name).Some?
    requires !(ParseField(name).SchemeSlug? && s.slug == [])
    ensures Utf8Len(RenderFieldEscaped(s, name).value) <= CapacityHint(s)
  {
    match ParseField(name)
    case ColorField(field) =>
      var v := Color(s, field).value;
      FieldFormat.RenderEscapedShape(v);
      var key := BaseIndex(field.number);
      assert key in s.colors.Keys;
      assert |s.colors.Keys| >= 1;
    case _ =>
  }

  /** The colour `7cafc2` used in the examples below. */
  const SampleColor := RgbColor(0x7c, 0xaf, 0xc2)

  /** Whole hex of a `base00` of `7cafc2` is those six digits. */
  lemma SampleHex(s: Scheme, name: string)
    requires BaseIndex(0) in s.colors && s.colors[BaseIndex(0)] == SampleColor
    requires name == "base00-hex"
    ensures RenderFieldEscaped(s, name) == Some("7cafc2")
  {
    var zero := BaseIndex(0);
    assert BaseIndexCodec.Serialize(zero) + "-hex" == name;
    RenderStoredColor(s, zero);
    SampleText(s.colors[zero]);
  }

  lemma SampleText(c: RgbColor)
    requires c == SampleColor
    ensures RgbColorCodec.Serialize(c) == "7cafc2"
  {
    var bytes := Channels(c);
    assert RgbColorCodec.Serialize(c) == Encode(bytes);
    assert Encode(bytes[2..]) == Lower2(bytes[2]) + Encode([]);
    assert Encode(bytes[1..]) == Lower2(bytes[1]) + Encode(bytes[2..]);
    assert Encode(bytes) == Lower2(bytes[0]) + Encode(bytes[1..]);
    assert Lower2(bytes[0]) == ['7', 'c'] && Lower2(bytes[1]) == ['a', 'f'] && Lower2(bytes[2]) == ['c', '2'];
  }

  /** The red channel of a `base00` of `7cafc2` in decimal. */
  lemma SampleRgbRed(s: Scheme, name: string)
    requires BaseIndex(0) in s.colors && s.colors[BaseIndex(0)] == SampleColor
    requires name == "base00-rgb-r"
    ensures RenderFieldEscaped(s, name) == Some("124")
  {
    var zero := BaseIndex(0);
    assert BaseIndexCodec.Serialize(zero) + "-rgb-r" == name;
    RenderRgbRed(s, zero);
    Decimal124(s.colors[zero].red);
  }

  /** The decimal red field of a colour the scheme holds is that channel's decimal value. */
  lemma RenderRgbRed(s: Scheme, i: BaseIndex)
    requires i in s.colors
    ensures RenderFieldEscaped(s, BaseIndexCodec.Serialize(i) + "-rgb-r") == Some(Decimal(s.colors[i].red))
  {
    var c := s.colors[i];
    var f := ColorFieldParser.ParsableSuffixes["rgb-r"];
    assert f == FieldFormat.Format(FieldFormat.OutputFormat.Rgb, FieldFormat.R) && FieldFormat.RenderEscaped(FieldFormat.RgbColorFormatter(c, f)) == Decimal(c.red);
    assert BaseIndexCodec.Serialize(i) + "-" + "rgb-r" == BaseIndexCodec.Serialize(i) + "-rgb-r";
    RenderColorField(s, i, "rgb-r");
  }

  lemma Decimal124(n: nat)
    requires n == 124
    ensures Decimal(n) == "124"
  {
    var m := n / 10;
    assert Decimal(n) == Decimal(m) + [DigitChar(4)];
    assert Decimal(m) == Decimal(m / 10) + [DigitChar(2)];
    assert Decimal(m / 10) == [DigitChar(1)];
  }

  /** The green channel of a `base00` of `7cafc2` as a fraction. */
  lemma SampleDecGreen(s: Scheme, name: string)
    requires BaseIndex(0) in s.colors && s.colors[BaseIndex(0)] == SampleColor
    requires name == "base00-dec-g"
    ensures RenderFieldEscaped(s, name) == Some("0.69")
  {
    var zero := BaseIndex(0);
    assert BaseIndexCodec.Serialize(zero) + "-dec-g" == name;
    RenderDecGreen(s, zero);
    Fraction69(s.colors[zero].green);
  }

  /** The fractional green field of a colour the scheme holds is that channel over 255. */
  lemma RenderDecGreen(s: Scheme, i: BaseIndex)
    requires i in s.colors
    ensures RenderFieldEscaped(s, BaseIndexCodec.Serialize(i) + "-dec-g") == Some(FieldFormat.Fraction(s.colors[i].green))
  {
    var c := s.colors[i];
    var f := ColorFieldParser.ParsableSuffixes["dec-g"];
    assert f == FieldFormat.Format(FieldFormat.Dec, FieldFormat.G) && FieldFormat.RenderEscaped(FieldFormat.RgbColorFormatter(c, f)) == FieldFormat.Fraction(c.green);
    assert BaseIndexCodec.Serialize(i) + "-" + "dec-g" == BaseIndexCodec.Serialize(i) + "-dec-g";
    RenderColorField(s, i, "dec-g");
  }

  lemma Fraction69(b: Byte)
    requires b == 0xaf
    ensures FieldFormat.Fraction(b) == "0.69"
  {
    FieldFormat.FractionExact(b);
    var n: nat := FieldFormat.FractionHundredths(b);
    assert n == 69;
    Fixed69(n);
  }

  lemma Fixed69(n: nat)
    requires n == 69
    ensures FixedHundredths(n) == "0.69"
  {
    assert Decimal(n / 100) == [DigitChar(0)];
  }

  /** The byte-swapped hex name is not found. */
  lemma SampleBgr(s: Scheme, name: string)
    requires name == "base00-hex-bgr"
    ensures RenderFieldEscaped(s, name) == None
  {
    assert name[..4] == "base" && name[6] == '-' && name[7..] == "hex-bgr";
    ColorFieldParser.HexVariantsRejected(name);
    NotFixedName(name);
    assert ParseField(name) == UnparsableField;
  }

  lemma NotFixedName(name: string)
    requires |name| >= 1 && name[0] == 'b'
    ensures name != "scheme-name" && name != "scheme" && name != "scheme-author" && name != "scheme-slug"
  {
  }

  /** An HSL name is not found. */
  lemma SampleHsl(s: Scheme, name: string)
    requires name == "base00-hsl-h"
    ensures RenderFieldEscaped(s, name) == None
  {
    assert name[7..10] == "hsl";
    ColorFieldParser.NoHslFields(name);
    NotFixedName(name);
    assert ParseField(name) == UnparsableField;
  }

  /** An index the scheme lacks is not found. */
  lemma SampleMissing(s: Scheme, name: string)
    requires BaseIndex(1) !in s.colors
    requires name == "base01-hex"
    ensures RenderFieldEscaped(s, name) == None
  {
    var one := BaseIndex(1);
    assert BaseIndexCodec.Serialize(one) + "-" + "hex" == name;
    RenderColorField(s, one, "hex");
  }
}
