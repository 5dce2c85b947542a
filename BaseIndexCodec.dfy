/**
 * The index of a colour in a scheme (`BaseIndex`, src/scheme/base_index.rs):
 * one byte, ordered numerically, written `base` followed by two uppercase
 * hexadecimal digits and read back from `base` and two digits of either case.
 */
module BaseIndexCodec {
  import opened Wrappers
  import opened Text
  import opened HexCodec

  datatype BaseIndex = BaseIndex(value: Byte)

  /** The derived `Ord`: the numeric order of the byte. */
  predicate Less(a: BaseIndex, b: BaseIndex)
    ensures Less(a, b) ==> a != b
  {
    a.value < b.value
  }

  /** `Less` is a strict total order: asymmetric, and any two distinct indices are related. */
  lemma LessStrictTotal(a: BaseIndex, b: BaseIndex)
    ensures Less(a, b) ==> !Less(b, a)
    ensures a != b ==> Less(a, b) || Less(b, a)
  {
  }

  /** `serialize`: the text `base{:02X}`. */
  function Serialize(i: BaseIndex): (s: string)
    ensures |s| == 6 && s[..4] == "base"
    ensures IsUpperHex(s[4]) && IsUpperHex(s[5])
    ensures 16 * HexValue(s[4]) + HexValue(s[5]) == i.value
  {
    "base" + Upper2(i.value)
  }

  /** Why a string is not the text of an index. */
  datatype IndexError = MissingPrefix | InvalidHex(cause: HexError)

  /**
   * `BaseIndexVisitor::visit_str`: strip the `base` prefix, then decode the
   * rest as the hexadecimal text of exactly one byte.
   */
  function Deserialize(s: string): (r: Result<BaseIndex, IndexError>)
    ensures r.Success? <==> |s| == 6 && s[..4] == "base" && IsHexDigit(s[4]) && IsHexDigit(s[5])
    ensures r.Success? ==> r.value.value == 16 * HexValue(s[4]) + HexValue(s[5])
    ensures !("base" <= s) ==> r == Failure(MissingPrefix)
    ensures "base" <= s && r.Failure? ==> r.error.InvalidHex?
  {
    match StripPrefix("base", s)
    case Some(number) =>
      (match Decode(number, 1)
       case Success(bytes) =>
         DecodeDigitsAt(number, 0);
         Success(BaseIndex(bytes[0]))
       case Failure(e) => Failure(InvalidHex(e)))
    case None => Failure(MissingPrefix)
  }

  /** Reading the text of an index gives that index back. */
  lemma DeserializeSerialize(i: BaseIndex)
    ensures Deserialize(Serialize(i)) == Success(i)
  {
  }

  /** The two digits after the prefix are read without regard to case. */
  lemma DeserializeIgnoresCase(hi: char, lo: char)
    requires IsHexDigit(hi) && IsHexDigit(lo)
    ensures Deserialize("base" + [hi, lo]) == Deserialize("base" + [AsciiLower(hi), AsciiLower(lo)])
    ensures Deserialize("base" + [hi, lo]).Success?
  {
    LowerDigitOfValue(hi);
    LowerDigitOfValue(lo);
    var s, t := "base" + [hi, lo], "base" + [AsciiLower(hi), AsciiLower(lo)];
    assert s[..4] == "base" && s[4] == hi && s[5] == lo;
    assert t[..4] == "base" && t[4] == AsciiLower(hi) && t[5] == AsciiLower(lo);
    var r, q := Deserialize(s), Deserialize(t);
    assert r.Success? && q.Success?;
    assert r.value.value == q.value.value;
  }

  lemma UpperDigitOrder(n: Nibble, m: Nibble)
    ensures n < m <==> UpperDigit(n) < UpperDigit(m)
  {
  }

  /** Index order is the order of the texts: the serialised keys of a scheme sort like the indices. */
  lemma {:induction false} SerializePreservesOrder(a: BaseIndex, b: BaseIndex)
    ensures Less(a, b) <==> LexLess(Serialize(a), Serialize(b))
  {
    var x, y := Upper2(a.value), Upper2(b.value);
    LexLessCommonPrefix("base", x, y);
    LexLessPair(x[0], x[1], y[0], y[1]);
    UpperDigitOrder(a.value / 16, b.value / 16);
    UpperDigitOrder(a.value % 16, b.value % 16);
    assert x[0] == UpperDigit(a.value / 16) && y[0] == UpperDigit(b.value / 16);
    assert x[1] == UpperDigit(a.value % 16) && y[1] == UpperDigit(b.value % 16);
  }

  /**
   * The indices of `keys` from `from` upwards, in ascending order: the order
   * in which a `BTreeMap` keyed by indices visits its entries.
   */
  function AscendingFrom(keys: set<BaseIndex>, from: nat): (r: seq<BaseIndex>)
    requires from <= 256
    ensures forall i, j :: 0 <= i < j < |r| ==> Less(r[i], r[j])
    ensures forall k :: k in r <==> k in keys && k.value >= from
    decreases 256 - from
  {
    if from == 256 then []
    else
      var rest := AscendingFrom(keys, from + 1);
      assert forall j :: 0 <= j < |rest| ==> rest[j] in rest;
      if BaseIndex(from) in keys then [BaseIndex(from)] + rest else rest
  }

  /** Every index of `keys`, each once, in ascending order. */
  function Ascending(keys: set<BaseIndex>): (r: seq<BaseIndex>)
    ensures forall i, j :: 0 <= i < j < |r| ==> Less(r[i], r[j])
    ensures forall k :: k in r <==> k in keys
  {
    AscendingFrom(keys, 0)
  }
}
