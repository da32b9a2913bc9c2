/**
 * Byte-level encodings the value cipher relies on: the UTF-8 encoding a
 * `TextEncoder` produces, and the base64 encoding of section 4 of RFC 4648
 * that `btoa` applies to a byte string.
 */
module Encoding {
  import opened Wrappers

  type byte = x: int | 0 <= x < 256

  // ---------------------------------------------------------------- UTF-8

  /** The UTF-8 bytes of one Unicode scalar value (RFC 3629, section 3). */
  function Utf8Char(c: char): (r: seq<byte>)
    ensures 1 <= |r| <= 4
    ensures |r| == 1 <==> (c as int) < 0x80
    ensures |r| == 1 ==> r[0] == c as int
  {
    var n := c as int;
    if n < 0x80 then [n]
    else if n < 0x800 then [0xC0 + n / 64, 0x80 + n % 64]
    else if n < 0x10000 then [0xE0 + n / 4096, 0x80 + (n / 64) % 64, 0x80 + n % 64]
    else [0xF0 + n / 262144, 0x80 + (n / 4096) % 64, 0x80 + (n / 64) % 64, 0x80 + n % 64]
  }

  /** The UTF-8 encoding of a string, character by character. */
  function Utf8(s: string): (r: seq<byte>)
  {
    if s == [] then [] else Utf8Char(s[0]) + Utf8(s[1..])
  }

  /** Every character takes one to four bytes. */
  lemma {:induction false} Utf8Length(s: string)
    ensures |s| <= |Utf8(s)| <= 4 * |s|
  {
    if s != [] {
      Utf8Length(s[1..]);
    }
  }

  predicate IsAscii(s: string)
  {
    forall i :: 0 <= i < |s| ==> (s[i] as int) < 0x80
  }

  /** An ASCII string encodes to its own character codes, one byte each. */
  lemma {:induction false} Utf8Ascii(s: string)
    requires IsAscii(s)
    ensures |Utf8(s)| == |s|
    ensures forall i :: 0 <= i < |s| ==> Utf8(s)[i] == s[i] as int
  {
    if s != [] {
      Utf8Ascii(s[1..]);
    }
  }

  /** UTF-8 encoding distributes over concatenation. */
  lemma {:induction false} Utf8Append(a: string, b: string)
    ensures Utf8(a + b) == Utf8(a) + Utf8(b)
  {
    if a == [] {
      assert a + b == b;
    } else {
      assert (a + b)[1..] == a[1..] + b;
      Utf8Append(a[1..], b);
    }
  }

  // --------------------------------------------------------------- base64

  /** The base64 alphabet of table 1 of RFC 4648: A-Z, a-z, 0-9, '+', '/'. */
  function Digit(v: nat): (c: char)
    requires v < 64
  {
    if v < 26 then ('A' as int + v) as char
    else if v < 52 then ('a' as int + (v - 26)) as char
    else if v < 62 then ('0' as int + (v - 52)) as char
    else if v == 62 then '+'
    else '/'
  }

  /** The value of a base64 digit, or -1 for a character outside the alphabet. */
  function DigitValue(c: char): (v: int)
    ensures -1 <= v < 64
    ensures 0 <= v ==> Digit(v) == c
  {
    if 'A' <= c <= 'Z' then c as int - 'A' as int
    else if 'a' <= c <= 'z' then c as int - 'a' as int + 26
    else if '0' <= c <= '9' then c as int - '0' as int + 52
    else if c == '+' then 62
    else if c == '/' then 63
    else -1
  }

  lemma DigitValueOfDigit(v: nat)
    requires v < 64
    ensures DigitValue(Digit(v)) == v
  {
  }

  predicate IsDigit(c: char)
  {
    DigitValue(c) >= 0
  }

  /**
   * Base64 encoding (RFC 4648, section 4): each group of three bytes becomes
   * four digits; a final group of one or two bytes is padded with '='.
   */
  function Base64(b: seq<byte>): (s: string)
    decreases |b|
  {
    if |b| == 0 then ""
    else if |b| == 1 then
      [Digit(b[0] / 4), Digit((b[0] % 4) * 16), '=', '=']
    else if |b| == 2 then
      [Digit(b[0] / 4), Digit((b[0] % 4) * 16 + b[1] / 16), Digit((b[1] % 16) * 4), '=']
    else
      [Digit(b[0] / 4), Digit((b[0] % 4) * 16 + b[1] / 16),
       Digit((b[1] % 16) * 4 + b[2] / 64), Digit(b[2] % 64)] + Base64(b[3..])
  }

  /** The decoder of RFC 4648, section 4: rejects any text that is not whole padded groups of digits. */
  function Base64Decode(s: string): (r: Option<seq<byte>>)
    decreases |s|
  {
    if |s| == 0 then Some([])
    else if |s| < 4 then None
    else
      var a, b := DigitValue(s[0]), DigitValue(s[1]);
      if a < 0 || b < 0 then None
      else if s[2] == '=' && s[3] == '=' then
        if |s| == 4 && b % 16 == 0 then Some([a * 4 + b / 16]) else None
      else if s[3] == '=' then
        var c := DigitValue(s[2]);
        if |s| == 4 && 0 <= c && c % 4 == 0 then Some([a * 4 + b / 16, (b % 16) * 16 + c / 4]) else None
      else
        var c, d := DigitValue(s[2]), DigitValue(s[3]);
        if c < 0 || d < 0 then None
        else match Base64Decode(s[4..])
          case None => None
          case Some(rest) => Some([a * 4 + b / 16, (b % 16) * 16 + c / 4, (c % 4) * 64 + d] + rest)
  }

  /** The encoding is four characters per started group of three bytes, all digits or padding. */
  lemma Base64Shape(b: seq<byte>)
    ensures |Base64(b)| == 4 * ((|b| + 2) / 3)
    ensures forall i :: 0 <= i < |Base64(b)| ==> IsDigit(Base64(b)[i]) || Base64(b)[i] == '='
  {
    Base64Length(b);
    Base64Alphabet(b);
  }

  lemma {:induction false} Base64Length(b: seq<byte>)
    ensures |Base64(b)| == 4 * ((|b| + 2) / 3)
    decreases |b|
  {
    if |b| >= 3 {
      Base64Length(b[3..]);
      Base64Step(b);
      assert (|b| + 2) / 3 == (|b[3..]| + 2) / 3 + 1;
    }
  }

  lemma {:induction false} Base64Alphabet(b: seq<byte>)
    ensures forall i :: 0 <= i < |Base64(b)| ==> IsDigit(Base64(b)[i]) || Base64(b)[i] == '='
    decreases |b|
  {
    if |b| == 1 {
      DigitValueOfDigit(b[0] / 4);
      DigitValueOfDigit((b[0] % 4) * 16);
    } else if |b| == 2 {
      Base64TwoBytes(b);
      DigitValueOfDigit(b[0] / 4);
      DigitValueOfDigit((b[0] % 4) * 16 + b[1] / 16);
      DigitValueOfDigit((b[1] % 16) * 4);
    } else if |b| >= 3 {
      Base64Alphabet(b[3..]);
      Base64Step(b);
      var x, y, z, w := b[0] / 4, (b[0] % 4) * 16 + b[1] / 16, (b[1] % 16) * 4 + b[2] / 64, b[2] % 64;
      DigitValueOfDigit(x);
      DigitValueOfDigit(y);
      DigitValueOfDigit(z);
      DigitValueOfDigit(w);
    }
  }

  lemma Base64TwoBytes(b: seq<byte>)
    requires |b| == 2
    ensures Base64(b) == [Digit(b[0] / 4), Digit((b[0] % 4) * 16 + b[1] / 16), Digit((b[1] % 16) * 4), '=']
  {
  }

  /** Two bytes split into three digits, the last with two zero bits, which reassemble to the same two bytes. */
  lemma SplitTwo(b: seq<byte>, x: int, y: int, z: int)
    requires |b| == 2
    requires x == b[0] / 4 && y == (b[0] % 4) * 16 + b[1] / 16 && z == (b[1] % 16) * 4
    ensures 0 <= x < 64 && 0 <= y < 64 && 0 <= z < 64 && z % 4 == 0
    ensures x * 4 + y / 16 < 256 && (y % 16) * 16 + z / 4 < 256
    ensures [x * 4 + y / 16, (y % 16) * 16 + z / 4] == b
  {
    var p, q := x * 4 + y / 16, (y % 16) * 16 + z / 4;
    assert p == b[0] && q == b[1];
  }

  /** A full group of four digits decodes to three bytes ahead of what the rest decodes to. */
  lemma DecodeFullGroup(x: nat, y: nat, z: nat, w: nat, rest: string, tail: seq<byte>)
    requires x < 64 && y < 64 && z < 64 && w < 64
    requires x * 4 + y / 16 < 256 && (y % 16) * 16 + z / 4 < 256 && (z % 4) * 64 + w < 256
    requires Base64Decode(rest) == Some(tail)
    ensures Base64Decode([Digit(x), Digit(y), Digit(z), Digit(w)] + rest) ==
      Some([x * 4 + y / 16, (y % 16) * 16 + z / 4, (z % 4) * 64 + w] + tail)
  {
    var s := [Digit(x), Digit(y), Digit(z), Digit(w)] + rest;
    DigitValueOfDigit(x);
    DigitValueOfDigit(y);
    DigitValueOfDigit(z);
    DigitValueOfDigit(w);
    assert s[4..] == rest;
  }

  /** A final group of three digits and one '=' decodes to two bytes. */
  lemma DecodeTwoByteGroup(x: nat, y: nat, z: nat)
    requires x < 64 && y < 64 && z < 64 && z % 4 == 0
    requires x * 4 + y / 16 < 256 && (y % 16) * 16 + z / 4 < 256
    ensures Base64Decode([Digit(x), Digit(y), Digit(z), '=']) == Some([x * 4 + y / 16, (y % 16) * 16 + z / 4])
  {
    DigitValueOfDigit(x);
    DigitValueOfDigit(y);
    DigitValueOfDigit(z);
  }

  /** A final group of two digits and "==" decodes to one byte. */
  lemma DecodeOneByteGroup(x: nat, y: nat)
    requires x < 64 && y < 64 && y % 16 == 0 && x * 4 + y / 16 < 256
    ensures Base64Decode([Digit(x), Digit(y), '=', '=']) == Some([x * 4 + y / 16])
  {
    DigitValueOfDigit(x);
    DigitValueOfDigit(y);
  }

  lemma RoundTripTwoBytes(b: seq<byte>)
    requires |b| == 2
    ensures Base64Decode(Base64(b)) == Some(b)
  {
    var x, y, z := b[0] / 4, (b[0] % 4) * 16 + b[1] / 16, (b[1] % 16) * 4;
    Base64TwoBytes(b);
    SplitTwo(b, x, y, z);
    DecodeTwoByteGroup(x, y, z);
  }

  lemma RoundTripOneByte(b: seq<byte>)
    requires |b| == 1
    ensures Base64Decode(Base64(b)) == Some(b)
  {
    var x, y := b[0] / 4, (b[0] % 4) * 16;
    assert Base64(b) == [Digit(x), Digit(y), '=', '='];
    DecodeOneByteGroup(x, y);
    assert b == [x * 4 + y / 16];
  }

  /** Three bytes split into four 6-bit digits, which reassemble to the same three bytes. */
  lemma SplitThree(b: seq<byte>, x: int, y: int, z: int, w: int)
    requires |b| >= 3
    requires x == b[0] / 4 && y == (b[0] % 4) * 16 + b[1] / 16
    requires z == (b[1] % 16) * 4 + b[2] / 64 && w == b[2] % 64
    ensures 0 <= x < 64 && 0 <= y < 64 && 0 <= z < 64 && 0 <= w < 64
    ensures x * 4 + y / 16 < 256 && (y % 16) * 16 + z / 4 < 256 && (z % 4) * 64 + w < 256
    ensures [x * 4 + y / 16, (y % 16) * 16 + z / 4, (z % 4) * 64 + w] + b[3..] == b
  {
    var p, q, r := x * 4 + y / 16, (y % 16) * 16 + z / 4, (z % 4) * 64 + w;
    assert p == b[0] && q == b[1] && r == b[2];
  }

  lemma Base64Step(b: seq<byte>)
    requires |b| >= 3
    ensures Base64(b) == [Digit(b[0] / 4), Digit((b[0] % 4) * 16 + b[1] / 16),
      Digit((b[1] % 16) * 4 + b[2] / 64), Digit(b[2] % 64)] + Base64(b[3..])
  {
  }

  lemma RoundTripStep(b: seq<byte>, tail: seq<byte>, rest: string)
    requires |b| >= 3 && tail == b[3..] && rest == Base64(tail)
    requires Base64Decode(rest) == Some(tail)
    ensures Base64Decode(Base64(b)) == Some(b)
  {
    var x, y, z, w := b[0] / 4, (b[0] % 4) * 16 + b[1] / 16, (b[1] % 16) * 4 + b[2] / 64, b[2] % 64;
    SplitThree(b, x, y, z, w);
    Base64Step(b);
    DecodeFullGroup(x, y, z, w, rest, tail);
  }

  /** Decoding the encoding gives back the bytes: base64 loses nothing. */
  lemma {:induction false} Base64RoundTrip(b: seq<byte>)
    ensures Base64Decode(Base64(b)) == Some(b)
    decreases |b|
  {
    if |b| == 1 {
      RoundTripOneByte(b);
    } else if |b| == 2 {
      RoundTripTwoBytes(b);
    } else if |b| >= 3 {
      Base64RoundTrip(b[3..]);
      RoundTripStep(b, b[3..], Base64(b[3..]));
    }
  }
}
