/**
 * A colour of a scheme (`RgbColor`, src/scheme/rgb_color.rs): three bytes,
 * red, green and blue, written as six lowercase hexadecimal digits and read
 * back from six digits of either case.
 */
module RgbColorCodec {
  import opened Wrappers
  import opened Text
  import opened HexCodec

  datatype RgbColor = RgbColor(red: Byte, green: Byte, blue: Byte)

  /** The three bytes of the colour in the order `[r, g, b]` of the source array. */
  function Channels(c: RgbColor): seq<Byte>
  {
    [c.red, c.green, c.blue]
  }

  /** `serialize` through `hex::serialize`: two lowercase digits per channel, red first. */
  function Serialize(c: RgbColor): (s: string)
    ensures |s| == 6 && AllLowerHex(s)
    ensures 16 * HexValue(s[0]) + HexValue(s[1]) == c.red
    ensures 16 * HexValue(s[2]) + HexValue(s[3]) == c.green
    ensures 16 * HexValue(s[4]) + HexValue(s[5]) == c.blue
  {
    var s := Encode(Channels(c));
    EncodeAt(Channels(c), 0);
    EncodeAt(Channels(c), 1);
    EncodeAt(Channels(c), 2);
    s
  }

  /** `deserialize` through `hex::deserialize`: exactly three bytes of hexadecimal text. */
  function Deserialize(s: string): (r: Result<RgbColor, HexError>)
    ensures r.Success? <==> |s| == 6 && AllHex(s)
    ensures r.Success? ==> r.value.red == 16 * HexValue(s[0]) + HexValue(s[1])
    ensures r.Success? ==> r.value.green == 16 * HexValue(s[2]) + HexValue(s[3])
    ensures r.Success? ==> r.value.blue == 16 * HexValue(s[4]) + HexValue(s[5])
  {
    match Decode(s, 3)
    case Success(bytes) =>
      DecodeDigitsAt(s, 0);
      DecodeDigitsAt(s, 1);
      DecodeDigitsAt(s, 2);
      Success(RgbColor(bytes[0], bytes[1], bytes[2]))
    case Failure(e) => Failure(e)
  }

  /** Reading the text of a colour gives that colour back. */
  lemma DeserializeSerialize(c: RgbColor)
    ensures Deserialize(Serialize(c)) == Success(c)
  {
    DecodeEncode(Channels(c));
  }

  /** Writing a colour that was read gives back the text read, in lowercase. */
  lemma SerializeDeserialize(s: string)
    requires Deserialize(s).Success?
    ensures Serialize(Deserialize(s).value) == LowerString(s)
  {
    EncodeDecode(s, 3);
    assert Channels(Deserialize(s).value) == Decode(s, 3).value;
  }

  /** Reading is case-insensitive: the result, success or error, is that of the lowercase text. */
  lemma DeserializeIgnoresCase(s: string)
    ensures Deserialize(LowerString(s)) == Deserialize(s)
  {
    DecodeIgnoresCase(s, 3);
  }
}
