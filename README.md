# base16_color_scheme field pipeline in Dafny

A model of the field-specifier pipeline of the base16 colour-scheme library.

- A template placeholder name such as `base0D-rgb-r` is parsed into a template field.
- The field is resolved against a scheme, which maps one-byte indices to RGB colours.
- The colour is written as hex digits, a decimal integer, a two-decimal fraction or an HSL component.

The model also covers the two text codecs of scheme documents: `baseXX` for indices and `rrggbb` for colours.

Everything is modelled as pure functions over datatypes:

- **Writes:** a renderer's writes to its encoder are the string the function returns.
- **Outcome:** "found, wrote text" is `Some(text)` and "not found" is `None`.
- **Slug:** `Scheme::create_slug`, which takes the scheme by value and sets its slug, is a record update.

The modules follow the source files:

| module | source |
|---|---|
| `BaseIndexCodec` | src/scheme/base_index.rs |
| `RgbColorCodec` | src/scheme/rgb_color.rs |
| `HslConversion` | src/template/color_field/format/hsl.rs |
| `FieldFormat` | src/template/color_field/format.rs (the struct `Format` and its renderer) |
| `ColorFormatter` | src/scheme/rgb_color/formatter.rs (the enum `Format` with HSL components, and its `Display`) |
| `ColorFieldParser` | src/template/color_field.rs |
| `TemplateFields` | src/template.rs |
| `Schemes` | src/scheme.rs |

Shared helpers live in three modules:

- `Wrappers`: `Option` and `Result`.
- `Text`: prefix stripping, ASCII lowercasing, UTF-8 byte length, and the `{}` and `{:.2}` number formats.
- `HexCodec`: the observable behaviour of the `hex` crate's encoder and `decode_to_slice`.

The source files come from two revisions of the format type:

- **Parser revision.** The parser builds the struct format (output kind × variant, no HSL). Its renderer writes nothing for four of the fifteen pairs.
- **Formatter revision.** The formatter file matches an enumeration with HSL components.
- **How the model joins them.** Fields are resolved with the struct renderer. A partial translation between the two formats is proved to be a bijection on the eleven supported pairs. The two renderers are proved to agree through it.

The formatter renders per-channel hex (`Hex::R`, `Hex::G`, `Hex::B`), byte-swapped hex (`Hex::Bgr`) and the HSL components (src/scheme/rgb_color/formatter.rs:20-23, 33-38), and the parser lists `-r`, `-g`, `-b` and `-bgr` after `hex` (src/template/color_field.rs:48-81). Field names reach none of these formats, and the model follows the code:

- The parser has no `hsl` alternative.
- After `hex`, the parser tries the empty tag first. It therefore always chooses the whole-colour variant without consuming anything, so `base00-hex-r` leaves `-r` unconsumed and is rejected.
- `Schemes.SampleBgr` and `Schemes.SampleHsl` state that those names are not found.

The `{:.2}` fraction of a channel (`c / 255.0`) is exact in integers. The model writes the hundredths `(100c + 127) / 255` and proves that this is the nearest hundredth, strictly closer than half a hundredth. No rounding tie can arise.

## Model

| member | source | states |
|---|---|---|
| BaseIndexCodec.Serialize | src/scheme/base_index.rs:8-15 | the text is `base` and two uppercase hex digits whose value is the index |
| BaseIndexCodec.Deserialize | src/scheme/base_index.rs:35-46 | succeeds exactly for `base` followed by exactly two hex digits of either case, giving their value; without the prefix the error is the missing prefix, otherwise a hex error |
| BaseIndexCodec.DeserializeSerialize | src/scheme/base_index.rs:8-46 | reading the written text of any index gives that index back |
| BaseIndexCodec.DeserializeIgnoresCase | src/scheme/base_index.rs:39-42 | `baseXY` reads the same whatever the case of its digits, and always succeeds |
| BaseIndexCodec.SerializePreservesOrder | src/scheme/base_index.rs:5-13 | one index is less than another exactly when its text is lexicographically less |
| BaseIndexCodec.Less | src/scheme/base_index.rs:5-6 | the derived order relates no index to itself |
| BaseIndexCodec.LessStrictTotal | src/scheme/base_index.rs:5-6 | the derived order is asymmetric and relates any two distinct indices |
| BaseIndexCodec.Ascending | src/scheme.rs:21 | the order in which the scheme's `BTreeMap` of colours visits its keys: strictly ascending by the derived order, each key exactly once |
| RgbColorCodec.Serialize | src/scheme/rgb_color.rs:10-17 | six lowercase hex digits, two per channel, red then green then blue |
| RgbColorCodec.Deserialize | src/scheme/rgb_color.rs:19-26 | succeeds exactly for six hex digits of either case, giving the three channels in order |
| RgbColorCodec.DeserializeSerialize | src/scheme/rgb_color.rs:10-26 | reading the written text of a colour gives the colour back |
| RgbColorCodec.SerializeDeserialize | src/scheme/rgb_color.rs:10-26 | writing a colour that was read gives the lowercase form of the text read |
| RgbColorCodec.DeserializeIgnoresCase | src/scheme/rgb_color.rs:19-26 | reading the lowercase form of a text gives the same result as reading the text |
| HexCodec.Lower2 | src/template/color_field/format.rs:64 | `{:02x}`: two lowercase hex digits whose value is the byte |
| HexCodec.Upper2 | src/scheme/base_index.rs:13 | `{:02X}`: two uppercase hex digits whose value is the byte |
| HexCodec.Encode | src/scheme/rgb_color.rs:15 | two lowercase hex digits per byte |
| HexCodec.DecodeDigits | src/template/color_field.rs:40-46 | one byte per pair of hex digits |
| HexCodec.DecodeDigitsAt | src/template/color_field.rs:40-46 | byte `i` is the value of the digit pair at `2i` |
| HexCodec.Decode | src/template/color_field.rs:40-46 | succeeds exactly for `2n` hex digits of either case, giving their bytes; an odd byte length fails first, then a byte length other than `2n`, then a non-hex character |
| HexCodec.DecodeEncode | src/scheme/rgb_color.rs:10-26 | decoding an encoding gives the bytes back |
| HexCodec.EncodeDecode | src/scheme/rgb_color.rs:10-26 | encoding what was decoded gives the lowercase form of the input |
| HexCodec.DecodeIgnoresCase | src/scheme/rgb_color.rs:19-26 | decoding does not depend on the case of the digits |
| Text.StripPrefix | src/scheme/base_index.rs:39 | present exactly when the text starts with the prefix, and then the text is the prefix and the remainder |
| Text.Utf8Len | src/scheme.rs:64-69 | the byte length is between the character count and four times it, equal to it exactly for ASCII text |
| Text.Decimal | src/template/color_field/format.rs:82-93 | `{}`: digits only, no leading zero, denoting the number |
| Text.FixedHundredths | src/template/color_field/format.rs:95-106 | the integer part in decimal, a point, and two digits of hundredths |
| Text.RoundHundredths | src/scheme/rgb_color/formatter.rs:29-38 | the whole number of hundredths within half a hundredth of a non-negative value; at exactly half a hundredth, the even one |
| Text.Fixed2 | src/scheme/rgb_color/formatter.rs:29-38 | `{:.2}`: the text denotes the nearest hundredths of the value, ties to even |
| Text.AsciiLower | src/scheme.rs:52-55 | the result is never an ASCII uppercase letter, and is ASCII exactly when the input is |
| HslConversion.Normalise | src/template/color_field/format/hsl.rs:18 | a channel over 255 lies in [0, 1] |
| HslConversion.MinOf | src/template/color_field/format/hsl.rs:19 | an element no greater than any other |
| HslConversion.MaxBy | src/template/color_field/format/hsl.rs:20-24 | the index of a largest element, the last one among equals as `max_by` picks it |
| HslConversion.RemEuclid360 | src/template/color_field/format/hsl.rs:51 | the result is in [0, 360) and leaves values already there unchanged |
| HslConversion.RemEuclid360Periodic | src/template/color_field/format/hsl.rs:51 | adding a full turn does not change the result |
| HslConversion.ChromaticSaturation | src/template/color_field/format/hsl.rs:35-36 | the saturation of a non-grey colour is in (0, 1] |
| HslConversion.FromColor | src/template/color_field/format/hsl.rs:15-55 | hue in [0, 360), luminance and saturation in [0, 1]; total, so the unreachable arm is never taken |
| HslConversion.Extremes | src/template/color_field/format/hsl.rs:18-24 | the minimum and the selected maximum are the smallest and largest channels |
| HslConversion.FromColorByExtremes | src/template/color_field/format/hsl.rs:15-55 | a grey returns early with hue and saturation 0; otherwise hue from the sector of the maximum, luminance (max + min) / 2, saturation by the luminance branch |
| HslConversion.Luminance | src/template/color_field/format/hsl.rs:26 | the luminance is (max + min) / 510 of the channel bytes |
| HslConversion.AchromaticColor | src/template/color_field/format/hsl.rs:27-34 | a grey has hue 0, saturation 0 and luminance channel / 255; the saturation is 0 exactly for greys |
| HslConversion.Saturation | src/template/color_field/format/hsl.rs:27-37 | the saturation is (max - min) / (max + min) when max + min ≤ 255, else (max - min) / (510 - max - min), over the bytes |
| HslConversion.SaturationScaled | src/template/color_field/format/hsl.rs:35-36 | the two saturation branches over normalised channels equal the byte quotients |
| HslConversion.Sector | src/template/color_field/format/hsl.rs:40-48 | with the channels between the minimum and the maximum and the chosen channel maximal, the sector value is within one of 0, 2 or 4 for red, green or blue |
| HslConversion.SectorScaled | src/template/color_field/format/hsl.rs:40-48 | each sector's hue in degrees over normalised channels equals the byte formula |
| HslConversion.HueFromSelectedChannel | src/template/color_field/format/hsl.rs:39-51 | the hue is the wrapped sector formula of the channel `max_by` selects |
| HslConversion.HueFromAnyMaximalChannel | src/template/color_field/format/hsl.rs:20-51 | the hue is the wrapped sector formula of any channel holding the maximum |
| HslConversion.SectorTie | src/template/color_field/format/hsl.rs:20-24 | when two channels tie for the maximum, both sectors give the same hue, so picking the last is harmless |
| HslConversion.HueSector | src/template/color_field/format/hsl.rs:40-48 | red maximal gives a hue within 60° of 0, green one in [60, 180], blue one in [180, 300] |
| HslConversion.PureRed | src/template/color_field/format/hsl.rs:15-55 | (255, 0, 0) has hue 0, luminance 0.5 and saturation 1 |
| HslConversion.SampleHue | src/template/color_field/format/hsl.rs:39-51 | `7cafc2` has hue 1374/7 degrees |
| HslConversion.SampleTieHue | src/template/color_field/format/hsl.rs:39-51 | `012000` has hue exactly 118.125 degrees |
| FieldFormat.FractionHundredths | src/template/color_field/format.rs:95-106 | at most 100 hundredths, within half a hundredth of channel / 255 |
| FieldFormat.Fraction | src/template/color_field/format.rs:95-106 | `{:.2}` of channel / 255: digit, point, two digits, denoting the integer hundredths `(100c + 127) / 255` |
| FieldFormat.RoundedFraction | src/template/color_field/format.rs:95-106 | the nearest hundredths of channel / 255 are the integer hundredths `(100c + 127) / 255` |
| FieldFormat.FractionExact | src/template/color_field/format.rs:95-106 | the `{:.2}` text of channel / 255 is the text of the integer hundredths |
| FieldFormat.FractionHundredthsMonotone | src/template/color_field/format.rs:95-106 | a larger channel never gives fewer hundredths |
| FieldFormat.FractionHundredthsNearest | src/template/color_field/format.rs:95-106 | the hundredths written lie strictly within 0.005 of channel / 255 |
| FieldFormat.IsSupportedFormat | src/template/color_field/format.rs:33-48 | supported exactly for the eleven pairs; unsupported exactly for Rgb or Dec with the whole-colour or byte-swapped variant |
| FieldFormat.IsTruthy | src/template/color_field/format.rs:52-54 | truthy exactly for the eleven supported pairs |
| FieldFormat.RenderEscaped | src/template/color_field/format.rs:56-111 | writes nothing exactly when the formatter is not truthy |
| FieldFormat.HexRgbIsSerialized | src/template/color_field/format.rs:60-64 | whole-colour hex is the colour's scheme-file text |
| FieldFormat.HexRgbRoundTrip | src/template/color_field/format.rs:60-64 | reading whole-colour hex back as a colour gives the colour |
| FieldFormat.HexBgrIsSwapped | src/template/color_field/format.rs:77-80 | byte-swapped hex is whole-colour hex of the colour with red and blue exchanged |
| FieldFormat.HexRgbIsChannels | src/template/color_field/format.rs:60-76 | whole-colour hex is the red, green and blue hex fields one after another |
| FieldFormat.HexChannel | src/template/color_field/format.rs:65-76 | a channel in hex is two lowercase digits of that channel |
| FieldFormat.RgbChannel | src/template/color_field/format.rs:82-93 | a channel in decimal is one to three digits, no leading zero, denoting the channel |
| FieldFormat.DecChannel | src/template/color_field/format.rs:95-106 | a channel as a fraction is digit, point, two digits, denoting the nearest hundredths of channel / 255 |
| FieldFormat.DecEndpoints | src/template/color_field/format.rs:95-106 | channel 0 is written `0.00` and channel 255 `1.00` |
| FieldFormat.RenderEscapedShape | src/template/color_field/format.rs:56-111 | every format writes at most six ASCII characters |
| ColorFormatter.Display | src/scheme/rgb_color/formatter.rs:14-42 | every format writes at least one character; an HSL format denotes the nearest hundredths, ties to even, of that component of the conversion of the colour |
| ColorFormatter.HexText | src/scheme/rgb_color/formatter.rs:19-23 | six lowercase hex digits for the whole colour and the byte-swapped colour, else two denoting the chosen channel |
| ColorFormatter.RgbText | src/scheme/rgb_color/formatter.rs:25-27 | one to three digits, no leading zero, denoting the chosen channel |
| ColorFormatter.DecText | src/scheme/rgb_color/formatter.rs:29-31 | digit, point, two digits, denoting the integer hundredths of the chosen channel over 255 |
| ColorFormatter.HslValue | src/scheme/rgb_color/formatter.rs:33-38 | one of the three components; for a conversion in range, a hue below 360 or a fraction at most 1 |
| ColorFormatter.HslText | src/scheme/rgb_color/formatter.rs:33-38 | denotes the nearest hundredths of the chosen component of the colour's HSL conversion, ties to even |
| ColorFormatter.HslTieToEven | src/scheme/rgb_color/formatter.rs:33 | `012000` has hue exactly 118.125 and its hue field writes `118.12` |
| ColorFormatter.Fixed2TieToEven | src/scheme/rgb_color/formatter.rs:33 | `{:.2}` of 118.125 writes `118.12` |
| ColorFormatter.RoundTieToEven | src/scheme/rgb_color/formatter.rs:33 | 11812.5 hundredths round to 11812 |
| ColorFormatter.IsTruthy | src/scheme/rgb_color/formatter.rs:45-47 | every formatter is truthy |
| ColorFormatter.ToFieldFormat | src/scheme/rgb_color/formatter.rs:18-39 | exactly the HSL formats have no struct counterpart; the others map to supported pairs |
| ColorFormatter.FromFieldFormat | src/template/color_field/format.rs:33-48 | defined exactly on the supported pairs, never giving an HSL format |
| ColorFormatter.TranslationsInverse | src/scheme/rgb_color/formatter.rs:18-39 | the two translations undo each other where defined |
| ColorFormatter.RenderersAgree | src/scheme/rgb_color/formatter.rs:14-42 | the struct renderer writes what `Display` writes for the matching format, and nothing where there is none |
| ColorFormatter.HexAgrees | src/scheme/rgb_color/formatter.rs:19-23 | the hex arms of both renderers agree |
| ColorFormatter.RgbAgrees | src/scheme/rgb_color/formatter.rs:25-27 | the decimal arms of both renderers agree |
| ColorFormatter.DecAgrees | src/scheme/rgb_color/formatter.rs:29-31 | the fraction arms of both renderers agree |
| ColorFormatter.HslLuminance | src/scheme/rgb_color/formatter.rs:34-36 | the luminance field is the two-decimal text of (max + min) / 510 |
| ColorFormatter.HslGrey | src/scheme/rgb_color/formatter.rs:33-38 | a grey writes hue and saturation as `0.00` |
| ColorFieldParser.Take2 | src/template/color_field.rs:40 | takes exactly two characters when there are at least two, else fails |
| ColorFieldParser.ParseNumber | src/template/color_field.rs:40-46 | succeeds exactly on two leading hex digits of either case, consuming them and giving their byte |
| ColorFieldParser.TagAs | src/template/color_field.rs:39 | succeeds exactly when the text starts with the tag, consuming it |
| ColorFieldParser.Or | src/template/color_field.rs:48-81 | `alt`: succeeds exactly when either alternative does, and the first one's success wins |
| ColorFieldParser.ParseHexVariant | src/template/color_field.rs:50-56 | always the whole-colour variant, consuming nothing, because the empty tag comes first |
| ColorFieldParser.ParseChannel | src/template/color_field.rs:62-66 | succeeds exactly on `-r`, `-g` or `-b`, consuming two characters and selecting that channel |
| ColorFieldParser.WithKind | src/template/color_field.rs:57-60 | pairs the keyword's output kind with the parsed variant, failing when the variant fails |
| ColorFieldParser.ParseFormat | src/template/color_field.rs:48-81 | succeeds exactly on any text starting `hex`, and on `rgb` or `dec` followed by a channel; consumes a non-empty prefix; never byte-swapped, and whole-colour when hex |
| ColorFieldParser.ParseAfterBase | src/template/color_field.rs:40-81 | succeeds exactly on two hex digits, `-` and a format, giving the byte and the format |
| ColorFieldParser.ParseFormatWhole | src/template/color_field.rs:48-81 | the format part consumes a whole text exactly when it is one of the seven format texts, giving its format |
| ColorFieldParser.HexWhole | src/template/color_field.rs:49-60 | after `hex` only the bare keyword is consumed whole |
| ColorFieldParser.RgbWhole | src/template/color_field.rs:61-70 | after `rgb` exactly `rgb-r`, `rgb-g`, `rgb-b` are consumed whole |
| ColorFieldParser.DecWhole | src/template/color_field.rs:71-80 | after `dec` exactly `dec-r`, `dec-g`, `dec-b` are consumed whole |
| ColorFieldParser.NoKeyword | src/template/color_field.rs:48-81 | a text starting with no keyword is no format |
| ColorFieldParser.ParseField | src/template/color_field.rs:36-84 | succeeds exactly for `base`, two hex digits, `-` and a format prefix, and gives the byte, the format and the unconsumed rest |
| ColorFieldParser.AfterBaseShifted | src/template/color_field.rs:38-47 | a parse of the text after `base` is a parse of the whole name, four places on |
| ColorFieldParser.FromStr | src/template/color_field.rs:22-34 | a name is a colour field exactly when it is `base`, two hex digits, `-` and one of the seven format texts with nothing left over; the field holds the digits' byte and that text's format |
| ColorFieldParser.IndexNameRoundTrip | src/template/color_field.rs:22-84 | the written text of any index, `-` and any format text parses to that index and format |
| ColorFieldParser.FromStrIgnoresDigitCase | src/template/color_field.rs:40-46 | lowercasing the two index digits does not change the parse |
| ColorFieldParser.HexVariantsRejected | src/template/color_field.rs:25-60 | `hex-r`, `hex-g`, `hex-b`, `hex-bgr` parse as whole-colour hex with text left over, so the name is rejected |
| ColorFieldParser.ParsedFormatsSupported | src/template/color_field.rs:48-81 | every parsed format is supported, never byte-swapped, and whole-colour when hex |
| ColorFieldParser.NoHslFields | src/template/color_field.rs:48-81 | no name with `hsl` after the index parses |
| TemplateFields.ParseField | src/template.rs:15-30 | the exact, case-sensitive names give the three text fields; any other name is a colour field exactly when it parses as one, else unparsable |
| Schemes.SlugChar | src/scheme.rs:52-55 | a slug character is never a space or an ASCII uppercase letter |
| Schemes.CreateSlug | src/scheme.rs:49-57 | same length; each space becomes `-`, each ASCII uppercase letter its lowercase, everything else is kept |
| Schemes.CreateSlugIdempotent | src/scheme.rs:49-57 | the slug of a slug is the slug |
| Schemes.WithSlug | src/scheme.rs:33-36 | the slug becomes the slug of the name; name, author and colours are unchanged |
| Schemes.Color | src/scheme.rs:42-46 | present exactly when the index is a key, pairing the stored colour with the field's format |
| Schemes.SlugText | src/scheme.rs:82-85 | never empty; the slug itself when it is not empty |
| Schemes.CapacityHint | src/scheme.rs:64-69 | at least the character counts of the three texts plus six per colour, and exactly that when the texts are ASCII |
| Schemes.RenderFieldEscaped | src/scheme.rs:71-92 | found exactly for the four fixed names and for colour fields whose index the scheme has; the fixed names write the name, the author and the slug, with `scheme-slug` for an empty slug; a colour field writes the stored colour in its format |
| Schemes.RenderFieldInverse | src/scheme.rs:94-120 | finds the same fields as `RenderFieldEscaped`, writes the same texts, and hands a colour section a truthy formatter rendering the same text |
| Schemes.ColorsInTextOrder | src/scheme.rs:21 | the colours are visited in ascending index order, every stored index once, and the index texts come out in ascending text order |
| Schemes.RenderDerivedSlug | src/scheme.rs:33-36 | after deriving the slug of a non-empty name, `scheme-slug` writes that slug |
| Schemes.RenderColorField | src/scheme.rs:86-89 | a colour name writes the stored colour in the named format, or is not found when the index is absent |
| Schemes.RenderStoredColor | src/scheme.rs:86-89 | `baseXX-hex` writes the colour as the scheme file stores it |
| Schemes.RenderRgbRed | src/scheme.rs:86-89 | `baseXX-rgb-r` writes the decimal red channel |
| Schemes.RenderDecGreen | src/scheme.rs:86-89 | `baseXX-dec-g` writes the green channel as a fraction |
| Schemes.RenderWithinHint | src/scheme.rs:64-69 | any text written, except the empty-slug placeholder, fits within the capacity hint |
| Schemes.SampleHex | src/scheme.rs:71-92 | with `base00` = `7cafc2`, `base00-hex` writes `7cafc2` |
| Schemes.SampleRgbRed | src/scheme.rs:71-92 | with `base00` = `7cafc2`, `base00-rgb-r` writes `124` |
| Schemes.SampleDecGreen | src/scheme.rs:71-92 | with `base00` = `7cafc2`, `base00-dec-g` writes `0.69` |
| Schemes.SampleBgr | src/scheme.rs:71-92 | `base00-hex-bgr` is not found |
| Schemes.SampleHsl | src/scheme.rs:71-92 | `base00-hsl-h` is not found |
| Schemes.SampleMissing | src/scheme.rs:71-92 | `base01-hex` is not found when the scheme has no `base01` |

## Left out

- HTML escaping done by the template engine's encoder in `write_escaped` and `format_escaped` is not modelled: the model returns the raw text.
- Encoder errors (`E::Error`) are not modelled. Writing always succeeds: `Ok(true)` is `Some(text)` and `Ok(false)` is `None`.
- Schemes.RenderFieldInverse: the colour formatter's `render_inverse` renders a template section, which belongs to the template engine. The model returns the formatter it is handed to, and proves it truthy.
- The serde machinery is not modelled: the serializer and deserializer protocol, the visitor's `expecting` message, and the `flatten`/`skip` wiring of the scheme record. Only the string codecs it wraps are modelled.
- HexCodec.Decode: the character and index carried by a bad-character error are left out; only the kind of error is kept.
- Schemes.SlugChar, Schemes.CreateSlug, Text.AsciiLower: lowercase ASCII letters only. Rust's `char::to_lowercase` also lowercases other scripts and can expand one character into several; these Unicode tables are not modelled.
- HslConversion.FromColor: computes over exact reals where the source uses `f64`. Rounding in the divisions and in `rem_euclid` is not modelled.
- ColorFormatter.HslText, ColorFormatter.Display: round the exact real component to hundredths, ties to even as `{:.2}` does. Rust rounds the `f64` value instead. Results may differ where the exact component and its `f64` approximation lie on opposite sides of a half hundredth.
- Schemes.CapacityHint: an unbounded sum. Overflow of `usize` is not modelled.
- Accessors and constant truthiness are written as direct field reads and constants: `scheme_name`, `scheme_author`, `scheme_slug`, and `is_truthy` of a scheme. The `_hash` argument of the render functions is unused in the source and absent here.
- The example program `basic_usage.rs` is not part of this model: it reads files, parses YAML and prints.
- Derived `Debug` and `Hash` implementations are not modelled. The derived ordering is modelled for indices only (`BaseIndexCodec.Less`).
