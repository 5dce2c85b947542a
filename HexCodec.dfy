/**
 * The observable behaviour of the `hex` crate that the core uses: lowercase
 * encoding of bytes (`hex::encode`, `{:02x}`), uppercase digits (`{:02X}`)
 * and decoding into a fixed number of bytes (`FromHex` for `[u8; N]`,
 * `hex::decode_to_slice`), which accepts digits of either case.
 */
module HexCodec {
  import opened Wrappers
  import opened Text

  type Byte = b: int | 0 <= b < 256

  type Nibble = n: int | 0 <= n < 16

  predicate IsHexDigit(c: char) { '0' <= c <= '9' || 'a' <= c <= 'f' || 'A' <= c <= 'F' }

  predicate IsLowerHex(c: char) { '0' <= c <= '9' || 'a' <= c <= 'f' }

  predicate IsUpperHex(c: char) { '0' <= c <= '9' || 'A' <= c <= 'F' }

  predicate AllHex(s: string) { forall i :: 0 <= i < |s| ==> IsHexDigit(s[i]) }

  predicate AllLowerHex(s: string) { forall i :: 0 <= i < |s| ==> IsLowerHex(s[i]) }

  /** The value of one hexadecimal digit of either case. */
  function HexValue(c: char): Nibble
    requires IsHexDigit(c)
  {
    if '0' <= c <= '9' then c as int - '0' as int
    else if 'a' <= c <= 'f' then c as int - 'a' as int + 10
    else c as int - 'A' as int + 10
  }

  function LowerDigit(n: Nibble): (c: char)
    ensures IsLowerHex(c) && HexValue(c) == n
  {
    if n < 10 then ('0' as int + n) as char else ('a' as int + n - 10) as char
  }

  function UpperDigit(n: Nibble): (c: char)
    ensures IsUpperHex(c) && HexValue(c) == n
  {
    if n < 10 then ('0' as int + n) as char else ('A' as int + n - 10) as char
  }

  /** A digit of either case has the value of its lowercase form, which is the lowercase digit of that value. */
  lemma LowerDigitOfValue(c: char)
    requires IsHexDigit(c)
    ensures IsHexDigit(AsciiLower(c)) && HexValue(AsciiLower(c)) == HexValue(c)
    ensures LowerDigit(HexValue(c)) == AsciiLower(c)
  {
  }

  /** `{:02x}` of a byte: two lowercase digits, most significant first. */
  function Lower2(b: Byte): (s: string)
    ensures |s| == 2 && IsLowerHex(s[0]) && IsLowerHex(s[1])
    ensures 16 * HexValue(s[0]) + HexValue(s[1]) == b
  {
    [LowerDigit(b / 16), LowerDigit(b % 16)]
  }

  /** `{:02X}` of a byte: two uppercase digits, most significant first. */
  function Upper2(b: Byte): (s: string)
    ensures |s| == 2 && IsUpperHex(s[0]) && IsUpperHex(s[1])
    ensures 16 * HexValue(s[0]) + HexValue(s[1]) == b
  {
    [UpperDigit(b / 16), UpperDigit(b % 16)]
  }

  /** `hex::encode`: two lowercase digits per byte, the bytes in order. */
  function Encode(bytes: seq<Byte>): (s: string)
    ensures |s| == 2 * |bytes| && AllLowerHex(s)
  {
    if bytes == [] then [] else Lower2(bytes[0]) + Encode(bytes[1..])
  }

  /** The bytes an even-length string of hexadecimal digits denotes, two digits per byte. */
  function DecodeDigits(s: string): (bytes: seq<Byte>)
    requires |s| % 2 == 0 && AllHex(s)
    ensures |bytes| == |s| / 2
  {
    if s == [] then [] else [16 * HexValue(s[0]) + HexValue(s[1])] + DecodeDigits(s[2..])
  }

  /** Byte `i` of the encoding is written as the digit pair at `2 * i`. */
  lemma {:induction false} EncodeAt(bytes: seq<Byte>, i: nat)
    requires i < |bytes|
    ensures Encode(bytes)[2 * i..2 * i + 2] == Lower2(bytes[i])
  {
    if i > 0 {
      EncodeAt(bytes[1..], i - 1);
      assert Encode(bytes) == Lower2(bytes[0]) + Encode(bytes[1..]);
    }
  }

  /** Byte `i` of the decoded text is the value of the digit pair at `2 * i`. */
  lemma {:induction false} DecodeDigitsAt(s: string, i: nat)
    requires |s| % 2 == 0 && AllHex(s) && i < |s| / 2
    ensures DecodeDigits(s)[i] == 16 * HexValue(s[2 * i]) + HexValue(s[2 * i + 1])
  {
    if i > 0 {
      DecodeDigitsAt(s[2..], i - 1);
    }
  }

  /** Why a string is not the hexadecimal text of the expected number of bytes. */
  datatype HexError = OddLength | InvalidStringLength | InvalidHexCharacter

  /**
   * `hex::decode_to_slice` into `n` bytes: an odd byte length, then a byte
   * length other than `2 * n`, then a non-hex character are reported, in
   * that order; otherwise every pair of digits of either case gives one byte.
   */
  function Decode(s: string, n: nat): (r: Result<seq<Byte>, HexError>)
    ensures r.Success? <==> |s| == 2 * n && AllHex(s)
    ensures r.Success? ==> |r.value| == n && r.value == DecodeDigits(s)
    ensures Utf8Len(s) % 2 != 0 ==> r == Failure(OddLength)
    ensures Utf8Len(s) % 2 == 0 && Utf8Len(s) != 2 * n ==> r == Failure(InvalidStringLength)
    ensures Utf8Len(s) == 2 * n && !AllHex(s) ==> r == Failure(InvalidHexCharacter)
  {
    var len := Utf8Len(s);
    if len % 2 != 0 then Failure(OddLength)
    else if len / 2 != n then Failure(InvalidStringLength)
    else if !AllHex(s) then Failure(InvalidHexCharacter)
    else
      AllHexIsAscii(s);
      Success(DecodeDigits(s))
  }

  function LowerString(s: string): (l: string)
    ensures |l| == |s| && forall i :: 0 <= i < |s| ==> l[i] == AsciiLower(s[i])
  {
    seq(|s|, i requires 0 <= i < |s| => AsciiLower(s[i]))
  }

  lemma AllHexIsAscii(s: string)
    requires AllHex(s)
    ensures IsAscii(s) && Utf8Len(s) == |s|
  {
    forall i | 0 <= i < |s| ensures s[i] as int < 0x80 { assert IsHexDigit(s[i]); }
  }

  lemma DecodeOfHex(s: string, n: nat)
    requires AllHex(s) && |s| == 2 * n
    ensures Decode(s, n) == Success(DecodeDigits(s))
  {
    AllHexIsAscii(s);
  }

  lemma EncodeIsHex(bytes: seq<Byte>)
    ensures AllHex(Encode(bytes))
  {
    var s := Encode(bytes);
    forall i | 0 <= i < |s| ensures IsHexDigit(s[i]) { assert IsLowerHex(s[i]); }
  }

  lemma {:induction false} DigitsOfEncode(bytes: seq<Byte>)
    requires AllHex(Encode(bytes))
    ensures DecodeDigits(Encode(bytes)) == bytes
  {
    if bytes != [] {
      var b0 := bytes[0];
      var s, rest := Encode(bytes), Encode(bytes[1..]);
      assert s == Lower2(b0) + rest;
      EncodeIsHex(bytes[1..]);
      DigitsOfEncode(bytes[1..]);
      var pair := Lower2(b0);
      assert s[2..] == rest && s[0] == pair[0] && s[1] == pair[1];
      assert 16 * HexValue(pair[0]) + HexValue(pair[1]) == b0;
      assert DecodeDigits(s) == [b0] + DecodeDigits(rest);
      assert bytes == [b0] + bytes[1..];
    }
  }

  /** Decoding the encoding of any bytes gives those bytes back. */
  lemma DecodeEncode(bytes: seq<Byte>)
    ensures Decode(Encode(bytes), |bytes|) == Success(bytes)
  {
    EncodeIsHex(bytes);
    DecodeOfHex(Encode(bytes), |bytes|);
    DigitsOfEncode(bytes);
  }

  lemma NibblesUnique(a: Nibble, b: Nibble, c: Nibble, d: Nibble)
    requires 16 * a + b == 16 * c + d
    ensures a == c && b == d
  {
  }

  /** Two digit pairs that denote the same byte agree digit by digit, up to case. */
  lemma SameByteSameDigits(e0: char, e1: char, s0: char, s1: char)
    requires IsLowerHex(e0) && IsLowerHex(e1) && IsHexDigit(s0) && IsHexDigit(s1)
    requires 16 * HexValue(e0) + HexValue(e1) == 16 * HexValue(s0) + HexValue(s1)
    ensures e0 == AsciiLower(s0) && e1 == AsciiLower(s1)
  {
    NibblesUnique(HexValue(e0), HexValue(e1), HexValue(s0), HexValue(s1));
    LowerDigitOfValue(s0);
    LowerDigitOfValue(s1);
  }

  lemma {:induction false} EncodeDigits(s: string)
    requires |s| % 2 == 0 && AllHex(s)
    ensures Encode(DecodeDigits(s)) == LowerString(s)
  {
    if s != [] {
      var bytes, rest := DecodeDigits(s), DecodeDigits(s[2..]);
      assert bytes == [16 * HexValue(s[0]) + HexValue(s[1])] + rest;
      assert bytes[1..] == rest;
      var pair := Lower2(bytes[0]);
      SameByteSameDigits(pair[0], pair[1], s[0], s[1]);
      EncodeDigits(s[2..]);
      assert LowerString(s) == [AsciiLower(s[0]), AsciiLower(s[1])] + LowerString(s[2..]);
    }
  }

  /** Encoding what a string decodes to gives the string back in lowercase. */
  lemma EncodeDecode(s: string, n: nat)
    requires Decode(s, n).Success?
    ensures Encode(Decode(s, n).value) == LowerString(s)
  {
    DecodeOfHex(s, n);
    EncodeDigits(s);
  }

  lemma {:induction false} LowerStringUtf8Len(s: string)
    ensures Utf8Len(LowerString(s)) == Utf8Len(s)
  {
    if s != [] {
      assert LowerString(s)[1..] == LowerString(s[1..]);
      LowerStringUtf8Len(s[1..]);
    }
  }

  /** Decoding does not depend on the case of the digits, on success and on every error. */
  lemma DecodeIgnoresCase(s: string, n: nat)
    ensures Decode(LowerString(s), n) == Decode(s, n)
  {
    var l := LowerString(s);
    LowerStringUtf8Len(s);
    assert AllHex(l) <==> AllHex(s) by {
      forall i | 0 <= i < |s| ensures IsHexDigit(l[i]) <==> IsHexDigit(s[i]) {
        if IsHexDigit(s[i]) { LowerDigitOfValue(s[i]); }
      }
    }
    if AllHex(s) && |s| == 2 * n {
      LowerDigits(s);
    }
  }

  lemma {:induction false} LowerDigits(s: string)
    requires |s| % 2 == 0 && AllHex(s) && AllHex(LowerString(s))
    ensures DecodeDigits(LowerString(s)) == DecodeDigits(s)
  {
    if s != [] {
      var l := LowerString(s);
      assert l[2..] == LowerString(s[2..]);
      LowerDigitOfValue(s[0]);
      LowerDigitOfValue(s[1]);
      LowerDigits(s[2..]);
    }
  }
}
