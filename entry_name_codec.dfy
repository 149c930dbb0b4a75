/**
 * What the entry-name decoder of the jar URL connection computes, as functions:
 * the bytes `write` collects for a percent-escaped name, the name `decode`
 * returns, and the content type deduced from a name. The imperative decoder in
 * module JarConnections is proved to compute exactly these.
 */
module EntryNameCodec {

  import opened Failures
  import opened UrlEncoding

  /**
   * The collaborators the decoder calls but this model does not describe:
   * `AsciiBytes.toString(byte[])`, which turns the collected bytes into the
   * name, and `URLConnection.guessContentTypeFromName`, which maps a file name
   * to a media type or to null.
   */
  datatype Platform = Platform(
    asciiBytesToString: seq<Byte> -> string,
    guessContentTypeFromName: string -> Option<string>)

  /** The value `%XY` stands for: `(hi << 4) + lo`. */
  function EscapedValue(hi: char, lo: char): (v: Byte)
    requires IsHexDigit(hi) && IsHexDigit(lo)
    ensures v as int / 16 == HexDigit(hi) && v as int % 16 == HexDigit(lo)
  {
    (HexDigit(hi) * 16 + HexDigit(lo)) as Byte
  }

  /**
   * `decodeEscapeSequence(source, i)`: the value of the two characters after
   * the '%' at `i`, or the IllegalArgumentException naming `source[i..]` when
   * either is not a hexadecimal digit.
   */
  function DecodeEscapeSequence(source: string, i: nat): (r: Result<Byte>)
    requires i + 2 < |source|
    ensures r.Ok? <==> IsHexDigit(source[i + 1]) && IsHexDigit(source[i + 2])
    ensures r.Ok? ==> r.value as int == 16 * HexDigit(source[i + 1]) + HexDigit(source[i + 2])
    ensures r.Err? ==> r.failure == InvalidEncodedSequence(source[i..])
  {
    var hi := HexDigit(source[i + 1]);
    var lo := HexDigit(source[i + 2]);
    if hi == -1 || lo == -1 then Err(InvalidEncodedSequence(source[i..]))
    else Ok((hi * 16 + lo) as Byte)
  }

  /** Puts bytes in front of a decoding result; a failure stays the same failure. */
  function Prepend(prefix: seq<Byte>, r: Result<seq<Byte>>): (p: Result<seq<Byte>>)
    ensures p.Ok? == r.Ok?
    ensures r.Ok? ==> p.value == prefix + r.value
    ensures r.Err? ==> p == r
  {
    match r
    case Ok(bs) => Ok(prefix + bs)
    case Err(f) => Err(f)
  }

  /**
   * The bytes `write(s, out)` appends, read left to right: a character above
   * 127 contributes the bytes its URL-encoded form decodes to, `%XY` one byte,
   * any other character its own code; a '%' with fewer than two characters
   * after it, or with a non-hex follower, raises with the rest of the input.
   */
  function Decoded(s: string): Result<seq<Byte>>
    decreases |s|
  {
    if s == [] then Ok([])
    else if s[0] as int > 127 then Prepend(JavaUnitBytes(s[0]), Decoded(s[1..]))
    else if s[0] != '%' then Prepend([s[0] as int as Byte], Decoded(s[1..]))
    else if |s| <= 2 || !IsHexDigit(s[1]) || !IsHexDigit(s[2]) then Err(InvalidEncodedSequence(s))
    else Prepend([EscapedValue(s[1], s[2])], Decoded(s[3..]))
  }

  /**
   * `decode(source)`: the input itself when it is empty or holds no '%';
   * otherwise the collected bytes as text, or the decoder's exception.
   */
  function DecodedName(p: Platform, source: string): (r: Result<string>)
    ensures source == [] || '%' !in source ==> r == Ok(source)
    ensures '%' in source ==> (r.Ok? <==> Decoded(source).Ok?)
    ensures '%' in source && r.Ok? ==> r.value == p.asciiBytesToString(Decoded(source).value)
    ensures r.Err? ==> r.failure.InvalidEncodedSequence?
  {
    if source == [] || '%' !in source then Ok(source)
    else
      match Decoded(source)
      case Ok(bs) => Ok(p.asciiBytesToString(bs))
      case Err(f) => Err(DecodedFailsWithEscape(source); f)
  }

  /** The content type of a name: the jar's own type for the empty name, else the guess, else unknown. */
  function DeducedContentType(p: Platform, name: string): (t: string)
    ensures name == [] ==> t == "x-java/jar"
    ensures name != [] && p.guessContentTypeFromName(name).Some? ==> t == p.guessContentTypeFromName(name).value
    ensures name != [] && p.guessContentTypeFromName(name).None? ==> t == "content/unknown"
  {
    var guessed := if name == [] then Some("x-java/jar") else p.guessContentTypeFromName(name);
    if guessed.Some? then guessed.value else "content/unknown"
  }

  /** The byte each character contributes when the input has no escapes. */
  function CharBytes(s: string): (bs: seq<Byte>)
    ensures IsAscii(s) ==> |bs| == |s|
  {
    if s == [] then []
    else (if s[0] as int > 127 then JavaUnitBytes(s[0]) else [s[0] as int as Byte]) + CharBytes(s[1..])
  }

  // ---------------------------------------------------------------------------
  // Properties of the decoder

  /** Bytes put in front twice are the concatenation put in front once. */
  lemma PrependPrepend(a: seq<Byte>, b: seq<Byte>, r: Result<seq<Byte>>)
    ensures Prepend(a, Prepend(b, r)) == Prepend(a + b, r)
  {
    if r.Ok? {
      assert a + (b + r.value) == (a + b) + r.value;
    }
  }

  /** Decoding from position `i`: the character there decides, as in `write`'s loop body. */
  lemma DecodedAt(s: string, i: nat)
    requires i < |s|
    ensures s[i] as int > 127 ==> Decoded(s[i..]) == Prepend(JavaUnitBytes(s[i]), Decoded(s[i + 1..]))
    ensures s[i] as int <= 127 && s[i] != '%' ==> Decoded(s[i..]) == Prepend([s[i] as int as Byte], Decoded(s[i + 1..]))
    ensures s[i] == '%' && (i + 2 >= |s| || !IsHexDigit(s[i + 1]) || !IsHexDigit(s[i + 2])) ==>
              Decoded(s[i..]) == Err(InvalidEncodedSequence(s[i..]))
    ensures s[i] == '%' && i + 2 < |s| && IsHexDigit(s[i + 1]) && IsHexDigit(s[i + 2]) ==>
              Decoded(s[i..]) == Prepend([EscapedValue(s[i + 1], s[i + 2])], Decoded(s[i + 3..]))
  {
    var t := s[i..];
    assert t[0] == s[i] && t[1..] == s[i + 1..];
    if i + 2 < |s| {
      assert t[1] == s[i + 1] && t[2] == s[i + 2] && t[3..] == s[i + 3..];
    }
  }

  /** Every failure of the decoder is the malformed-escape exception. */
  lemma {:induction false} DecodedFailsWithEscape(s: string)
    ensures Decoded(s).Err? ==> Decoded(s).failure.InvalidEncodedSequence?
    decreases |s|
  {
    if s == [] {
    } else if s[0] as int > 127 || s[0] != '%' {
      DecodedFailsWithEscape(s[1..]);
    } else if |s| <= 2 || !IsHexDigit(s[1]) || !IsHexDigit(s[2]) {
    } else {
      DecodedFailsWithEscape(s[3..]);
    }
  }

  /**
   * An input without '%' never fails, and every character contributes its own
   * bytes; for ASCII input these are exactly the character codes.
   */
  lemma {:induction false} DecodedWithoutEscapes(s: string)
    requires '%' !in s
    ensures Decoded(s) == Ok(CharBytes(s))
    ensures IsAscii(s) ==> forall k :: 0 <= k < |s| ==> CharBytes(s)[k] as int == s[k] as int
    decreases |s|
  {
    if s != [] {
      assert '%' !in s[1..] by { assert forall k :: 0 <= k < |s[1..]| ==> s[1..][k] == s[k + 1]; }
      DecodedWithoutEscapes(s[1..]);
      if IsAscii(s) {
        assert IsAscii(s[1..]) by { assert forall k :: 0 <= k < |s[1..]| ==> s[1..][k] == s[k + 1]; }
        forall k | 0 <= k < |s| ensures CharBytes(s)[k] as int == s[k] as int {
          if k > 0 { assert CharBytes(s)[k] == CharBytes(s[1..])[k - 1]; }
        }
      }
    }
  }

  /** `%XY` followed by anything: one byte `(X << 4) + Y`, then the rest; case does not matter. */
  lemma DecodedEscape(x: char, y: char, rest: string)
    requires IsHexDigit(x) && IsHexDigit(y)
    ensures Decoded(['%', x, y] + rest) == Prepend([(16 * HexDigit(x) + HexDigit(y)) as Byte], Decoded(rest))
  {
    var s := ['%', x, y] + rest;
    assert s[3..] == rest;
  }

  /** A '%' that ends the input, or has one character after it, or a non-hex follower, raises. */
  lemma DecodedMalformedEscape(s: string)
    requires |s| > 0 && s[0] == '%'
    requires |s| <= 2 || !IsHexDigit(s[1]) || !IsHexDigit(s[2])
    ensures Decoded(s) == Err(InvalidEncodedSequence(s))
  {
  }

  /**
   * Decoding runs left to right: once a prefix decodes on its own, the whole
   * decodes to its bytes followed by those of the rest, or fails as the rest does.
   */
  lemma {:induction false} DecodedConcat(s: string, t: string)
    requires Decoded(s).Ok?
    ensures Decoded(s + t) == Prepend(Decoded(s).value, Decoded(t))
    decreases |s|
  {
    if s == [] {
      assert s + t == t;
      if Decoded(t).Ok? { assert [] + Decoded(t).value == Decoded(t).value; }
    } else {
      var n := if s[0] as int <= 127 && s[0] == '%' then 3 else 1;
      var head := DecodedFront(s, t, n);
      DecodedConcat(s[n..], t);
      PrependPrepend(head, Decoded(s[n..]).value, Decoded(t));
    }
  }

  /** The first character, or escape, of `s` decodes alike in `s` and in `s + t`. */
  lemma DecodedFront(s: string, t: string, n: nat) returns (head: seq<Byte>)
    requires s != [] && Decoded(s).Ok?
    requires n == if s[0] as int <= 127 && s[0] == '%' then 3 else 1
    ensures n <= |s|
    ensures Decoded(s) == Prepend(head, Decoded(s[n..]))
    ensures Decoded(s + t) == Prepend(head, Decoded(s[n..] + t))
  {
    if n == 3 {
      head := DecodedFrontEscape(s, t);
    } else {
      head := DecodedFrontChar(s, t);
    }
  }

  /** A leading escape: three characters, one byte. */
  lemma DecodedFrontEscape(s: string, t: string) returns (head: seq<Byte>)
    requires s != [] && Decoded(s).Ok? && s[0] == '%'
    ensures 3 <= |s|
    ensures Decoded(s) == Prepend(head, Decoded(s[3..]))
    ensures Decoded(s + t) == Prepend(head, Decoded(s[3..] + t))
  {
    assert |s| > 2 && IsHexDigit(s[1]) && IsHexDigit(s[2]);
    var u := s + t;
    assert u[0] == s[0] && u[1] == s[1] && u[2] == s[2] && u[3..] == s[3..] + t;
    head := [EscapedValue(s[1], s[2])];
  }

  /** A leading character other than an escape: its own bytes. */
  lemma DecodedFrontChar(s: string, t: string) returns (head: seq<Byte>)
    requires s != [] && (s[0] as int > 127 || s[0] != '%')
    ensures Decoded(s) == Prepend(head, Decoded(s[1..]))
    ensures Decoded(s + t) == Prepend(head, Decoded(s[1..] + t))
  {
    var u := s + t;
    assert u[0] == s[0] && u[1..] == s[1..] + t;
    head := if s[0] as int > 127 then JavaUnitBytes(s[0]) else [s[0] as int as Byte];
  }

  /** Every byte value, escaped in upper or in lower case, decodes to itself. */
  lemma DecodedAnyByte(b: Byte)
    ensures Decoded(['%', UpperHexChar(b as int / 16), UpperHexChar(b as int % 16)]) == Ok([b])
    ensures Decoded(['%', LowerHexChar(b as int / 16), LowerHexChar(b as int % 16)]) == Ok([b])
  {
    assert 16 * (b as int / 16) + b as int % 16 == b as int;
    assert [b] + [] == [b];
    DecodedEscape(UpperHexChar(b as int / 16), UpperHexChar(b as int % 16), []);
    DecodedEscape(LowerHexChar(b as int / 16), LowerHexChar(b as int % 16), []);
    assert ['%', UpperHexChar(b as int / 16), UpperHexChar(b as int % 16)] + [] ==
           ['%', UpperHexChar(b as int / 16), UpperHexChar(b as int % 16)];
    assert ['%', LowerHexChar(b as int / 16), LowerHexChar(b as int % 16)] + [] ==
           ['%', LowerHexChar(b as int / 16), LowerHexChar(b as int % 16)];
  }

  /** Percent-decoding undoes percent-encoding (RFC 3986, section 2.1), for every byte string. */
  lemma {:induction false} DecodedPercentEncode(bs: seq<Byte>)
    ensures Decoded(PercentEncode(bs)) == Ok(bs)
    decreases |bs|
  {
    if bs != [] {
      var e := PercentEncode(bs);
      var hi, lo := UpperHexChar(bs[0] as int / 16), UpperHexChar(bs[0] as int % 16);
      assert e == ['%', hi, lo] + PercentEncode(bs[1..]);
      DecodedPercentEncode(bs[1..]);
      DecodedEscape(hi, lo, PercentEncode(bs[1..]));
      assert [bs[0]] + bs[1..] == bs;
    }
  }

  /**
   * A character above 127 contributes what its URL-encoded form decodes to:
   * for a character of the Basic Multilingual Plane its UTF-8 bytes, so that
   * writing it raw or writing its escapes gives the same name.
   */
  lemma DecodedUrlEncodedChar(c: char)
    requires c as int > 127
    ensures Decoded(UrlEncodeChar(c)) == Ok(JavaUnitBytes(c))
    ensures c as int < 0x1_0000 ==> Decoded(UrlEncodeChar(c)) == Ok(Utf8(c))
    ensures Decoded([c]) == Ok(JavaUnitBytes(c))
  {
    DecodedPercentEncode(JavaUnitBytes(c));
    assert [c][1..] == [];
    assert JavaUnitBytes(c) + [] == JavaUnitBytes(c);
  }
}
