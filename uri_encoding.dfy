/**
 * Percent-encoding of a query keyword: encodeURI and encodeURIComponent of
 * ECMA-262 5.1 (sections 15.1.3.3 and 15.1.3.4), which escape every code point
 * outside a kept set as the UTF-8 bytes of that code point, each written `%XY`
 * with upper-case hexadecimal digits; and the decoding of a value of an
 * application/x-www-form-urlencoded query string, as a server reads it.
 */
module UriEncoding {

  newtype byte = b: int | 0 <= b < 256

  /** The UTF-8 encoding of one Unicode scalar value. */
  function Utf8(c: char): (bs: seq<byte>)
    ensures 1 <= |bs| <= 4
    ensures |bs| == 1 <==> c as int < 0x80
    ensures |bs| == 1 ==> bs[0] as int == c as int
    ensures |bs| > 1 ==> bs[0] >= 0xC0 && forall k :: 1 <= k < |bs| ==> 0x80 <= bs[k] < 0xC0
  {
    var v := c as int;
    if v < 0x80 then
      [v as byte]
    else if v < 0x800 then
      [(0xC0 + v / 0x40) as byte, (0x80 + v % 0x40) as byte]
    else if v < 0x1_0000 then
      [(0xE0 + v / 0x1000) as byte, (0x80 + (v / 0x40) % 0x40) as byte, (0x80 + v % 0x40) as byte]
    else
      [(0xF0 + v / 0x4_0000) as byte, (0x80 + (v / 0x1000) % 0x40) as byte,
       (0x80 + (v / 0x40) % 0x40) as byte, (0x80 + v % 0x40) as byte]
  }

  /** Reads back the code point of one UTF-8 sequence of one to four bytes. */
  function Utf8Value(bs: seq<byte>): int
    requires 1 <= |bs| <= 4
  {
    if |bs| == 1 then bs[0] as int
    else if |bs| == 2 then (bs[0] as int - 0xC0) * 0x40 + (bs[1] as int - 0x80)
    else if |bs| == 3 then
      (bs[0] as int - 0xE0) * 0x1000 + (bs[1] as int - 0x80) * 0x40 + (bs[2] as int - 0x80)
    else
      (bs[0] as int - 0xF0) * 0x4_0000 + (bs[1] as int - 0x80) * 0x1000
        + (bs[2] as int - 0x80) * 0x40 + (bs[3] as int - 0x80)
  }

  /** No information is lost: the bytes of a code point give that code point back. */
  lemma Utf8RoundTrip(c: char)
    ensures Utf8Value(Utf8(c)) == c as int
  {
    var v := c as int;
    if v >= 0x1_0000 {
      var q := v / 0x40;
      var q2 := v / 0x1000;
      assert v == q * 0x40 + v % 0x40;
      assert q == (q / 0x40) * 0x40 + q % 0x40;
      assert q / 0x40 == q2;
      assert q2 == (q2 / 0x40) * 0x40 + q2 % 0x40;
      assert q2 / 0x40 == v / 0x4_0000;
    } else if v >= 0x800 {
      var q := v / 0x40;
      assert v == q * 0x40 + v % 0x40;
      assert q == (q / 0x40) * 0x40 + q % 0x40;
      assert q / 0x40 == v / 0x1000;
    }
  }

  const HEX_DIGITS: string := "0123456789ABCDEF"

  predicate IsUpperHex(c: char) {
    '0' <= c <= '9' || 'A' <= c <= 'F'
  }

  predicate IsHexChar(c: char) {
    '0' <= c <= '9' || 'A' <= c <= 'F' || 'a' <= c <= 'f'
  }

  function HexValue(c: char): (v: int)
    requires IsHexChar(c)
    ensures 0 <= v < 16
  {
    if '0' <= c <= '9' then c as int - '0' as int
    else if 'A' <= c <= 'F' then c as int - 'A' as int + 10
    else c as int - 'a' as int + 10
  }

  /** The upper-case hexadecimal digit of `d`, read back by HexValue. */
  function HexDigit(d: int): (c: char)
    requires 0 <= d < 16
    ensures IsUpperHex(c) && HexValue(c) == d
  {
    HEX_DIGITS[d]
  }

  /** `%XY` for one byte. */
  function EscapeByte(b: byte): (r: string)
    ensures |r| == 3 && r[0] == '%' && IsUpperHex(r[1]) && IsUpperHex(r[2])
    ensures HexValue(r[1]) * 16 + HexValue(r[2]) == b as int
  {
    ['%', HexDigit(b as int / 16), HexDigit(b as int % 16)]
  }

  function EscapeBytes(bs: seq<byte>): (r: string)
    ensures |r| == 3 * |bs|
    ensures forall i :: 0 <= i < |r| ==> r[i] == '%' || IsUpperHex(r[i])
  {
    if bs == [] then [] else EscapeByte(bs[0]) + EscapeBytes(bs[1..])
  }

  /** One code point: kept as it is, or escaped byte by byte. */
  function EncodeChar(c: char, keep: char -> bool): string {
    if keep(c) then [c] else EscapeBytes(Utf8(c))
  }

  /** The shared Encode operation of ECMA-262 5.1 section 15.1.3, for a kept set `keep`. */
  function PercentEncode(s: string, keep: char -> bool): (r: string)
    ensures forall i :: 0 <= i < |r| ==> keep(r[i]) || r[i] == '%' || IsUpperHex(r[i])
  {
    if s == [] then [] else EncodeChar(s[0], keep) + PercentEncode(s[1..], keep)
  }

  predicate IsAsciiAlphaNum(c: char) {
    'a' <= c <= 'z' || 'A' <= c <= 'Z' || '0' <= c <= '9'
  }

  /** uriUnescaped: letters, digits and the marks `- _ . ! ~ * ' ( )`. */
  predicate IsUriUnescaped(c: char) {
    IsAsciiAlphaNum(c) || c in "-_.!~*'()"
  }

  /** uriReserved: `; / ? : @ & = + $ ,`. */
  predicate IsUriReserved(c: char) {
    c in ";/?:@&=+$,"
  }

  /** What encodeURI leaves alone: uriReserved, uriUnescaped and `#`. */
  predicate EncodeUriKeeps(c: char) {
    IsUriReserved(c) || IsUriUnescaped(c) || c == '#'
  }

  /** encodeURI: everything but uriReserved, uriUnescaped and `#` is escaped. */
  function EncodeUri(s: string): (r: string)
    ensures forall i :: 0 <= i < |r| ==> EncodeUriKeeps(r[i]) || r[i] == '%'
  {
    PercentEncode(s, EncodeUriKeeps)
  }

  /** encodeURIComponent: everything but uriUnescaped is escaped, so no `&`, `#`, `+` or `=` survives. */
  function EncodeUriComponent(s: string): (r: string)
    ensures forall i :: 0 <= i < |r| ==> IsUriUnescaped(r[i]) || r[i] == '%'
  {
    PercentEncode(s, IsUriUnescaped)
  }

  /** Characters with a meaning of their own in a form-encoded query value. */
  predicate IsFormSpecial(c: char) {
    c == '%' || c == '+'
  }

  /**
   * Decoding of one form-encoded value, byte by byte: `+` is a space, `%XY`
   * is the byte XY (as the code point of the same number), anything else is itself.
   */
  function FormDecode(s: string): (r: string)
    decreases |s|
  {
    if s == [] then []
    else if s[0] == '+' then [' '] + FormDecode(s[1..])
    else if |s| >= 3 && s[0] == '%' && IsHexChar(s[1]) && IsHexChar(s[2]) then
      [(HexValue(s[1]) * 16 + HexValue(s[2])) as char] + FormDecode(s[3..])
    else [s[0]] + FormDecode(s[1..])
  }

  predicate IsAscii(c: char) {
    c as int < 0x80
  }

  /** Encoding distributes over concatenation. */
  lemma {:induction false} PercentEncodeAppend(a: string, b: string, keep: char -> bool)
    ensures PercentEncode(a + b, keep) == PercentEncode(a, keep) + PercentEncode(b, keep)
  {
    if a == [] {
      assert a + b == b;
    } else {
      assert (a + b)[1..] == a[1..] + b;
      PercentEncodeAppend(a[1..], b, keep);
    }
  }

  /** An escaped ASCII character decodes back to itself. */
  lemma DecodeEscaped(c: char, keep: char -> bool, rest: string)
    requires IsAscii(c) && !keep(c)
    ensures FormDecode(EncodeChar(c, keep) + rest) == [c] + FormDecode(rest)
  {
    var e := EscapeByte(c as int as byte);
    assert Utf8(c) == [c as int as byte];
    assert EscapeBytes(Utf8(c)) == e + [];
    assert (e + rest)[3..] == rest;
    assert (e + rest)[..3] == e;
  }

  /** A kept character the decoder gives no meaning to decodes as itself. */
  lemma DecodePlain(c: char, keep: char -> bool, rest: string)
    requires keep(c) && !IsFormSpecial(c)
    ensures FormDecode(EncodeChar(c, keep) + rest) == [c] + FormDecode(rest)
  {
    assert ([c] + rest)[1..] == rest;
  }

  /** One encoded ASCII character, kept or escaped, decodes back to itself. */
  lemma DecodeChar(c: char, keep: char -> bool, rest: string)
    requires IsAscii(c) && !(keep(c) && IsFormSpecial(c))
    ensures FormDecode(EncodeChar(c, keep) + rest) == [c] + FormDecode(rest)
  {
    if keep(c) {
      DecodePlain(c, keep, rest);
    } else {
      DecodeEscaped(c, keep, rest);
    }
  }

  /**
   * Decoding undoes encoding for ASCII text, as long as no kept character has a
   * meaning of its own to the decoder.
   */
  lemma {:induction false} FormDecodeOfEncode(s: string, keep: char -> bool)
    requires forall i :: 0 <= i < |s| ==> IsAscii(s[i]) && !(keep(s[i]) && IsFormSpecial(s[i]))
    ensures FormDecode(PercentEncode(s, keep)) == s
  {
    if s != [] {
      var rest := PercentEncode(s[1..], keep);
      assert PercentEncode(s, keep) == EncodeChar(s[0], keep) + rest;
      FormDecodeOfEncode(s[1..], keep);
      DecodeChar(s[0], keep, rest);
      assert s == [s[0]] + s[1..];
    }
  }
}
