/**
 * The pieces of Rust's `str` and `fmt` behaviour that the core relies on:
 * `strip_prefix`, ASCII lower-casing, the UTF-8 byte length that `String::len`
 * reports, `{}` of an unsigned integer and `{:.2}` of a value given in hundredths.
 */
module Text {
  import opened Wrappers

  /** `s.strip_prefix(prefix)`: the rest of `s` when it starts with `prefix`. */
  function StripPrefix(prefix: string, s: string): (r: Option<string>)
    ensures r.Some? <==> prefix <= s
    ensures r.Some? ==> s == prefix + r.value
  {
    if prefix <= s then Some(s[|prefix|..]) else None
  }

  /** A text at least as long as `prefix` starts with it exactly when its first characters are it. */
  lemma PrefixIsTake(prefix: string, s: string)
    requires |prefix| <= |s|
    ensures prefix <= s <==> s[..|prefix|] == prefix
  {
  }

  predicate IsAsciiUpper(c: char) { 'A' <= c <= 'Z' }

  predicate IsAscii(s: string) { forall i :: 0 <= i < |s| ==> s[i] as int < 0x80 }

  /** ASCII lower-casing of one character; every other character is kept. */
  function AsciiLower(c: char): (l: char)
    ensures !IsAsciiUpper(l)
    ensures c as int < 0x80 <==> l as int < 0x80
  {
    if IsAsciiUpper(c) then (c as int + 32) as char else c
  }

  /** Number of bytes of the UTF-8 encoding of one character. */
  function CharUtf8Len(c: char): (n: nat)
    ensures 1 <= n <= 4
    ensures n == 1 <==> c as int < 0x80
  {
    if c as int < 0x80 then 1
    else if c as int < 0x800 then 2
    else if c as int < 0x1_0000 then 3
    else 4
  }

  /** `String::len`: the number of bytes of the UTF-8 encoding of `s`. */
  function Utf8Len(s: string): (n: nat)
    ensures |s| <= n <= 4 * |s|
    ensures n == |s| <==> IsAscii(s)
  {
    if s == [] then 0 else CharUtf8Len(s[0]) + Utf8Len(s[1..])
  }

  lemma {:induction false} Utf8LenConcat(a: string, b: string)
    ensures Utf8Len(a + b) == Utf8Len(a) + Utf8Len(b)
  {
    if a != [] {
      calc {
        Utf8Len(a + b);
        { assert (a + b)[0] == a[0]; assert (a + b)[1..] == a[1..] + b; }
        CharUtf8Len(a[0]) + Utf8Len(a[1..] + b);
        { Utf8LenConcat(a[1..], b); }
        CharUtf8Len(a[0]) + Utf8Len(a[1..]) + Utf8Len(b);
      }
    } else {
      assert a + b == b;
    }
  }

  type Digit = d: int | 0 <= d < 10

  predicate IsDigit(c: char) { '0' <= c <= '9' }

  predicate AllDigits(s: string) { forall i :: 0 <= i < |s| ==> IsDigit(s[i]) }

  function DigitChar(d: Digit): (c: char)
    ensures IsDigit(c) && DigitValue(c) == d
  {
    ('0' as int + d) as char
  }

  function DigitValue(c: char): Digit
    requires IsDigit(c)
  {
    c as int - '0' as int
  }

  /** The number a string of decimal digits denotes, most significant digit first. */
  function DecimalValue(s: string): nat
    requires AllDigits(s)
  {
    if s == [] then 0 else 10 * DecimalValue(s[..|s| - 1]) + DigitValue(s[|s| - 1])
  }

  /** `{}` of an unsigned integer: its decimal digits, without padding. */
  function Decimal(n: nat): (s: string)
    ensures |s| >= 1 && AllDigits(s)
    ensures |s| > 1 ==> s[0] != '0'
    ensures DecimalValue(s) == n
    ensures n < 10 ==> |s| == 1
    ensures 10 <= n < 100 ==> |s| == 2
    ensures 100 <= n < 1000 ==> |s| == 3
  {
    if n < 10 then [DigitChar(n)]
    else
      var s := Decimal(n / 10) + [DigitChar(n % 10)];
      assert s[..|s| - 1] == Decimal(n / 10);
      s
  }

  /**
   * `{:.2}` of the value `n / 100`: the integer part in decimal, a point and
   * exactly two digits of hundredths.
   */
  function FixedHundredths(n: nat): (s: string)
    ensures |s| >= 4 && s[|s| - 3] == '.'
    ensures AllDigits(s[..|s| - 3]) && AllDigits(s[|s| - 2..])
    ensures s[..|s| - 3] == Decimal(n / 100)
    ensures DecimalValue(s[|s| - 2..]) == n % 100
  {
    var m := n % 100;
    var tail := [DigitChar(m / 10), DigitChar(m % 10)];
    var s := Decimal(n / 100) + ['.'] + tail;
    assert s[..|s| - 3] == Decimal(n / 100);
    assert s[|s| - 2..] == tail;
    TwoDigitValue(m);
    s
  }

  lemma TwoDigitValue(m: nat)
    requires m < 100
    ensures DecimalValue([DigitChar(m / 10), DigitChar(m % 10)]) == m
  {
    var t := [DigitChar(m / 10), DigitChar(m % 10)];
    assert t[..1] == [DigitChar(m / 10)];
    assert DecimalValue(t[..1]) == m / 10 by {
      assert t[..1][..0] == [];
    }
    assert DecimalValue(t) == 10 * (m / 10) + m % 10;
  }

  /**
   * The number of hundredths `{:.2}` writes for a non-negative value: the
   * nearest integer to `100 * x`; a value exactly half-way between two
   * integers goes to the even one.
   */
  function RoundHundredths(x: real): (n: nat)
    requires x >= 0.0
    ensures -0.5 <= n as real - 100.0 * x <= 0.5
    ensures n as real - 100.0 * x == 0.5 || 100.0 * x - n as real == 0.5 ==> n % 2 == 0
  {
    var k := (100.0 * x + 0.5).Floor;
    if k as real == 100.0 * x + 0.5 && k % 2 == 1 then k - 1 else k
  }

  /** `s` is an integer part, a point and two digits that together denote `n` hundredths. */
  predicate DenotesHundredths(s: string, n: nat)
  {
    |s| >= 4 && s[|s| - 3] == '.' && AllDigits(s[..|s| - 3]) && AllDigits(s[|s| - 2..])
    && 100 * DecimalValue(s[..|s| - 3]) + DecimalValue(s[|s| - 2..]) == n
  }

  /** `{:.2}` of a non-negative value: integer part, point, two digits, together the nearest hundredths. */
  function Fixed2(x: real): (s: string)
    requires x >= 0.0
    ensures DenotesHundredths(s, RoundHundredths(x))
  {
    FixedHundredths(RoundHundredths(x))
  }

  /** `Ord` on strings: lexicographic order of the characters (UTF-8 byte order agrees with it). */
  predicate LexLess(a: string, b: string)
  {
    b != [] && (a == [] || a[0] < b[0] || (a[0] == b[0] && LexLess(a[1..], b[1..])))
  }

  /** A common prefix does not change how two strings compare. */
  lemma {:induction false} LexLessCommonPrefix(p: string, x: string, y: string)
    ensures LexLess(p + x, p + y) <==> LexLess(x, y)
  {
    if p == [] {
      assert p + x == x && p + y == y;
    } else {
      assert (p + x)[0] == p[0] == (p + y)[0];
      assert (p + x)[1..] == p[1..] + x && (p + y)[1..] == p[1..] + y;
      LexLessCommonPrefix(p[1..], x, y);
    }
  }

  lemma LexLessPair(a0: char, a1: char, b0: char, b1: char)
    ensures LexLess([a0, a1], [b0, b1]) <==> a0 < b0 || (a0 == b0 && a1 < b1)
  {
    assert [a0, a1][1..] == [a1] && [b0, b1][1..] == [b1];
    assert [a1][1..] == [] && [b1][1..] == [];
    assert !LexLess([], []);
    assert LexLess([a1], [b1]) <==> a1 < b1;
  }
}
