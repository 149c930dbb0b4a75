/**
 * Characters, hexadecimal digits and the UTF-8 / percent-escape encoding that
 * the entry-name decoder relies on.
 *
 * Java's `URLEncoder.encode(String.valueOf(c), "UTF-8")` is given the body the
 * JDK documents for one character: the characters `a-z A-Z 0-9 . - * _` stand
 * for themselves, a space becomes `+`, and every other character becomes the
 * upper-case `%XY` escapes of its UTF-8 bytes (section 3 of RFC 3629, escapes as
 * in section 2.1 of RFC 3986). A supplementary character reaches the encoder
 * as two lone UTF-16 units, each of which encodes as the byte `?`.
 */
module UrlEncoding {

  import opened Failures

  /** One octet, as ByteArrayOutputStream.write(int) stores it (the low eight bits). */
  newtype Byte = b: int | 0 <= b < 0x100

  predicate IsAsciiChar(c: char)
  {
    c as int <= 127
  }

  predicate IsAscii(s: string)
  {
    forall k :: 0 <= k < |s| ==> IsAsciiChar(s[k])
  }

  /** The hexadecimal digits this model accepts: ASCII `0-9`, `a-f`, `A-F`. */
  predicate IsHexDigit(c: char)
  {
    '0' <= c <= '9' || 'a' <= c <= 'f' || 'A' <= c <= 'F'
  }

  /** `Character.digit(c, 16)` on ASCII: the digit's value, or -1 when `c` is not a hex digit. */
  function HexDigit(c: char): (v: int)
    ensures -1 <= v < 16
    ensures v == -1 <==> !IsHexDigit(c)
  {
    if '0' <= c <= '9' then c as int - '0' as int
    else if 'a' <= c <= 'f' then c as int - 'a' as int + 10
    else if 'A' <= c <= 'F' then c as int - 'A' as int + 10
    else -1
  }

  /** The upper-case digit URLEncoder writes for a nibble. */
  function UpperHexChar(v: int): (c: char)
    requires 0 <= v < 16
    ensures IsHexDigit(c) && IsAsciiChar(c) && HexDigit(c) == v
    ensures !('a' <= c <= 'f')
    ensures c == "0123456789ABCDEF"[v]
  {
    if v < 10 then ('0' as int + v) as char else ('A' as int + v - 10) as char
  }

  /** The lower-case digit for a nibble (an escape may be written in either case): the upper-case one, lowered. */
  function LowerHexChar(v: int): (c: char)
    requires 0 <= v < 16
    ensures IsHexDigit(c) && IsAsciiChar(c) && HexDigit(c) == v
    ensures !('A' <= c <= 'F')
    ensures c == "0123456789abcdef"[v]
  {
    var u := UpperHexChar(v);
    if v < 10 then u else (u as int + 32) as char
  }

  /** The UTF-8 encoding of one Unicode scalar value (RFC 3629, section 3). */
  function Utf8(c: char): (bs: seq<Byte>)
    ensures 1 <= |bs| <= 4
    ensures (|bs| == 1) == (c as int < 0x80)
  {
    var n := c as int;
    if n < 0x80 then [n as Byte]
    else if n < 0x800 then [(0xC0 + n / 64) as Byte, (0x80 + n % 64) as Byte]
    else if n < 0x1_0000 then
      [(0xE0 + n / 4096) as Byte, (0x80 + (n / 64) % 64) as Byte, (0x80 + n % 64) as Byte]
    else
      [(0xF0 + n / 262144) as Byte, (0x80 + (n / 4096) % 64) as Byte,
       (0x80 + (n / 64) % 64) as Byte, (0x80 + n % 64) as Byte]
  }

  /** True for a continuation byte `10xxxxxx`. */
  predicate IsContinuation(b: Byte)
  {
    0x80 <= b as int < 0xC0
  }

  /** An independent UTF-8 reader for one encoded character: the code point, or None. */
  function Utf8Decode(bs: seq<Byte>): (r: Option<int>)
  {
    if |bs| == 1 && bs[0] as int < 0x80 then Some(bs[0] as int)
    else if |bs| == 2 && 0xC0 <= bs[0] as int < 0xE0 && IsContinuation(bs[1]) then
      Some((bs[0] as int - 0xC0) * 64 + (bs[1] as int - 0x80))
    else if |bs| == 3 && 0xE0 <= bs[0] as int < 0xF0 && IsContinuation(bs[1]) && IsContinuation(bs[2]) then
      Some(((bs[0] as int - 0xE0) * 64 + (bs[1] as int - 0x80)) * 64 + (bs[2] as int - 0x80))
    else if |bs| == 4 && 0xF0 <= bs[0] as int < 0xF8 && IsContinuation(bs[1]) && IsContinuation(bs[2])
            && IsContinuation(bs[3]) then
      Some((((bs[0] as int - 0xF0) * 64 + (bs[1] as int - 0x80)) * 64 + (bs[2] as int - 0x80)) * 64
           + (bs[3] as int - 0x80))
    else None
  }

  /** Reading back what Utf8 wrote gives the character's code point. */
  lemma Utf8RoundTrip(c: char)
    ensures Utf8Decode(Utf8(c)) == Some(c as int)
  {
    var n := c as int;
    if n < 0x80 {
    } else if n < 0x800 {
      Utf8TwoBytes(n);
    } else if n < 0x1_0000 {
      Utf8ThreeBytes(n);
    } else {
      Utf8FourBytes(n);
    }
  }

  lemma Utf8TwoBytes(n: int)
    requires 0x80 <= n < 0x800
    ensures (n / 64) * 64 + n % 64 == n && 2 <= n / 64 < 32
  {
  }

  lemma Utf8ThreeBytes(n: int)
    requires 0x800 <= n < 0x1_0000
    ensures (n / 4096) * 64 + (n / 64) % 64 == n / 64 && (n / 64) * 64 + n % 64 == n
    ensures n / 4096 < 16
  {
  }

  lemma Utf8FourBytes(n: int)
    requires 0x1_0000 <= n < 0x11_0000
    ensures (n / 262144) * 64 + (n / 4096) % 64 == n / 4096
    ensures (n / 4096) * 64 + (n / 64) % 64 == n / 64 && (n / 64) * 64 + n % 64 == n
    ensures n / 262144 < 8
  {
  }

  /**
   * The bytes `URLEncoder.encode(String.valueOf((char) u), "UTF-8")` escapes for
   * the UTF-16 units `u` of `c`, one call per unit as the decoder makes them.
   * A character outside the Basic Multilingual Plane is two surrogate units in
   * Java; each is encoded alone, has no UTF-8 form by itself, and is replaced by
   * the encoder's substitute byte `?` (0x3F).
   */
  function JavaUnitBytes(c: char): (bs: seq<Byte>)
    ensures c as int < 0x1_0000 ==> bs == Utf8(c)
    ensures c as int >= 0x1_0000 ==> bs == [0x3F, 0x3F]
  {
    if c as int >= 0x1_0000 then [0x3F, 0x3F] else Utf8(c)
  }

  /** The characters URLEncoder leaves as they are. */
  predicate IsUnreserved(c: char)
  {
    'a' <= c <= 'z' || 'A' <= c <= 'Z' || '0' <= c <= '9' || c == '.' || c == '-' || c == '*' || c == '_'
  }

  /** `%XY` escapes, upper-case, one per byte (RFC 3986, section 2.1). */
  function PercentEncode(bs: seq<Byte>): (e: string)
    ensures |e| == 3 * |bs|
    ensures IsAscii(e)
  {
    if bs == [] then []
    else ['%', UpperHexChar(bs[0] as int / 16), UpperHexChar(bs[0] as int % 16)] + PercentEncode(bs[1..])
  }

  /** URLEncoder.encode applied to the UTF-16 units of one character, outputs concatenated. */
  function UrlEncodeChar(c: char): (e: string)
    ensures IsAscii(e)
    ensures !IsUnreserved(c) && c != ' ' ==> e == PercentEncode(JavaUnitBytes(c))
  {
    if IsUnreserved(c) then [c]
    else if c == ' ' then "+"
    else PercentEncode(JavaUnitBytes(c))
  }
}
