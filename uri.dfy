/** encodeURI and decodeURI (section 19.2.6 of ECMA-262): every character outside
    encodeURI's unescaped set becomes the `%XY` escapes of its UTF-8 bytes (RFC 3629,
    escapes as in section 2.1 of RFC 3986); decodeURI undoes this, but leaves the
    escape of a reserved character, or of `#`, as it is. */
module Uri {
  import opened JsValue

  /** The characters decodeURI keeps escaped: uriReserved and `#`. */
  predicate IsReservedForDecode(c: char) {
    c in ";/?:@&=+$,#"
  }

  /** The characters encodeURI leaves alone: letters, digits, uriMark, uriReserved and `#`. */
  predicate IsUnescaped(c: char) {
    'A' <= c <= 'Z' || 'a' <= c <= 'z' || '0' <= c <= '9' || c in "-_.!~*'()" || IsReservedForDecode(c)
  }

  predicate IsHexChar(c: char) {
    '0' <= c <= '9' || 'a' <= c <= 'f' || 'A' <= c <= 'F'
  }

  /** The upper-case digit encodeURI writes for a 4-bit value. */
  function HexDigit(v: int): (c: char)
    requires 0 <= v < 16
    ensures IsHexChar(c)
  {
    if v < 10 then ('0' as int + v) as char else ('A' as int + (v - 10)) as char
  }

  /** The value of a hexadecimal digit of either case; HexDigit is its inverse on upper case. */
  function HexValue(c: char): (v: int)
    requires IsHexChar(c)
    ensures 0 <= v < 16
  {
    if '0' <= c <= '9' then c as int - '0' as int
    else if 'a' <= c <= 'f' then c as int - 'a' as int + 10
    else c as int - 'A' as int + 10
  }

  lemma HexValueOfDigit(v: int)
    requires 0 <= v < 16
    ensures HexValue(HexDigit(v)) == v
  {
  }

  predicate IsContinuation(b: Byte) {
    0x80 <= b < 0xC0
  }

  /** The UTF-8 encoding of a scalar value: 1 to 4 bytes, six payload bits per
      continuation byte. */
  function Utf8Encode(c: char): (bytes: seq<Byte>)
    ensures 1 <= |bytes| <= 4
    ensures |bytes| == 1 <==> c as int < 0x80
  {
    var v := c as int;
    if v < 0x80 then [v]
    else if v < 0x800 then [0xC0 + v / 64, 0x80 + v % 64]
    else if v < 0x10000 then [0xE0 + v / 64 / 64, 0x80 + v / 64 % 64, 0x80 + v % 64]
    else [0xF0 + v / 64 / 64 / 64, 0x80 + v / 64 / 64 % 64, 0x80 + v / 64 % 64, 0x80 + v % 64]
  }

  /** The number of bytes a leading byte announces, its count of leading one bits;
      0 where decodeURI throws (a continuation byte, or five or more one bits). */
  function LeadLength(b: Byte): nat {
    if b < 0x80 then 1
    else if b < 0xC0 then 0
    else if b < 0xE0 then 2
    else if b < 0xF0 then 3
    else if b < 0xF8 then 4
    else 0
  }

  /** Decodes one character from exactly its UTF-8 bytes; overlong forms, surrogates
      and values above U+10FFFF are not valid UTF-8 and give None. */
  function Utf8Decode(bytes: seq<Byte>): Option<char> {
    if |bytes| == 1 && bytes[0] < 0x80 then
      Some(bytes[0] as char)
    else if |bytes| == 2 && 0xC0 <= bytes[0] < 0xE0 && IsContinuation(bytes[1]) then
      var v := (bytes[0] as int - 0xC0) * 64 + (bytes[1] as int - 0x80);
      if 0x80 <= v then Some(v as char) else None
    else if |bytes| == 3 && 0xE0 <= bytes[0] < 0xF0 && IsContinuation(bytes[1]) && IsContinuation(bytes[2]) then
      var v := (bytes[0] as int - 0xE0) * 4096 + (bytes[1] as int - 0x80) * 64 + (bytes[2] as int - 0x80);
      if 0x800 <= v && !(0xD800 <= v < 0xE000) then Some(v as char) else None
    else if |bytes| == 4 && 0xF0 <= bytes[0] < 0xF8 && IsContinuation(bytes[1])
            && IsContinuation(bytes[2]) && IsContinuation(bytes[3]) then
      var v := (bytes[0] as int - 0xF0) * 262144 + (bytes[1] as int - 0x80) * 4096 + (bytes[2] as int - 0x80) * 64 + (bytes[3] as int - 0x80);
      if 0x10000 <= v <= 0x10FFFF then Some(v as char) else None
    else
      None
  }

  /** The UTF-8 bytes of a character decode back to it, and their first byte
      announces how many there are. */
  lemma Utf8DecodeEncode(c: char)
    ensures Utf8Decode(Utf8Encode(c)) == Some(c)
    ensures LeadLength(Utf8Encode(c)[0]) == |Utf8Encode(c)|
  {
    var v := c as int;
    var q1 := v / 64;
    var q2 := q1 / 64;
    var q3 := q2 / 64;
    assert v == q1 * 64 + v % 64;
    assert q1 == q2 * 64 + q1 % 64;
    assert q2 == q3 * 64 + q2 % 64;
    if v < 0x80 {
    } else if v < 0x800 {
    } else if v < 0x10000 {
      assert (q2 * 64 + q1 % 64) * 64 + v % 64 == v;
    } else {
      assert ((q3 * 64 + q2 % 64) * 64 + q1 % 64) * 64 + v % 64 == v;
    }
  }

  function PercentEncode(bytes: seq<Byte>): (s: string)
    ensures |s| == 3 * |bytes|
    ensures IsAscii(s)
  {
    if bytes == [] then []
    else ['%', HexDigit(bytes[0] / 16), HexDigit(bytes[0] % 16)] + PercentEncode(bytes[1..])
  }

  function EncodeUriChar(c: char): (s: string)
    ensures IsAscii(s)
  {
    if IsUnescaped(c) then [c] else PercentEncode(Utf8Encode(c))
  }

  /** encodeURI. Its output is plain ASCII, which btoa accepts. A Dafny string holds
      no lone surrogate, so the URIError encodeURI raises for one cannot arise. */
  function EncodeUri(s: string): (r: string)
    ensures IsAscii(r)
    ensures |r| >= |s|
  {
    if s == [] then [] else EncodeUriChar(s[0]) + EncodeUri(s[1..])
  }

  /** The byte spelled by a `%XY` escape at the start of s. */
  function EscapedByte(s: string): Option<Byte> {
    if |s| >= 3 && s[0] == '%' && IsHexChar(s[1]) && IsHexChar(s[2]) then
      Some(HexValue(s[1]) * 16 + HexValue(s[2]))
    else
      None
  }

  /** The bytes of `count` consecutive escapes at the start of s. */
  function ReadEscapes(s: string, count: nat): (r: Option<seq<Byte>>)
    ensures r.Some? ==> |r.value| == count && 3 * count <= |s|
  {
    if count == 0 then Some([])
    else
      match EscapedByte(s)
      case None => None
      case Some(b) =>
        match ReadEscapes(s[3..], count - 1)
        case None => None
        case Some(rest) => Some([b] + rest)
  }

  /** Decodes the escape sequence at the start of s: the text it stands for and the
      number of characters it takes up. */
  function DecodeEscape(s: string): (r: Result<(string, nat)>)
    requires |s| > 0 && s[0] == '%'
    ensures r.Ok? ==> 3 <= r.value.1 <= |s|
    ensures r.Err? ==> r.error == UriError
  {
    match EscapedByte(s)
    case None => Err(UriError)
    case Some(b) =>
      if b < 0x80 then
        var c := b as char;
        Ok((if IsReservedForDecode(c) then s[..3] else [c], 3))
      else
        var n := LeadLength(b);
        if n < 2 then Err(UriError)
        else
          match ReadEscapes(s[3..], n - 1)
          case None => Err(UriError)
          case Some(tail) =>
            match Utf8Decode([b] + tail)
            case None => Err(UriError)
            case Some(c) => Ok(([c], 3 * n))
  }

  function Prepend(t: string, r: Result<string>): Result<string> {
    if r.Ok? then Ok(t + r.value) else r
  }

  /** decodeURI: malformed escapes and invalid UTF-8 throw a URIError. */
  function DecodeUri(s: string): (r: Result<string>)
    ensures r.Err? ==> r.error == UriError
    decreases |s|
  {
    if s == [] then Ok([])
    else if s[0] != '%' then Prepend([s[0]], DecodeUri(s[1..]))
    else
      match DecodeEscape(s)
      case Err(e) => Err(e)
      case Ok(p) => Prepend(p.0, DecodeUri(s[p.1..]))
  }

  lemma EscapedBytePercent(b: Byte, rest: string)
    ensures EscapedByte(['%', HexDigit(b / 16), HexDigit(b % 16)] + rest) == Some(b)
  {
    HexValueOfDigit(b / 16);
    HexValueOfDigit(b % 16);
  }

  lemma {:induction false} ReadEscapesPercent(bytes: seq<Byte>, rest: string)
    ensures ReadEscapes(PercentEncode(bytes) + rest, |bytes|) == Some(bytes)
  {
    if bytes != [] {
      var head := ['%', HexDigit(bytes[0] / 16), HexDigit(bytes[0] % 16)];
      var s := PercentEncode(bytes) + rest;
      assert s == head + (PercentEncode(bytes[1..]) + rest);
      EscapedBytePercent(bytes[0], PercentEncode(bytes[1..]) + rest);
      assert s[3..] == PercentEncode(bytes[1..]) + rest;
      ReadEscapesPercent(bytes[1..], rest);
      assert [bytes[0]] + bytes[1..] == bytes;
    }
  }

  /** The escapes of a character outside the unescaped set decode to that character. */
  lemma DecodeEscapedChar(c: char, rest: string)
    requires !IsUnescaped(c)
    ensures DecodeEscape(PercentEncode(Utf8Encode(c)) + rest) == Ok(([c], 3 * |Utf8Encode(c)|))
  {
    var bytes := Utf8Encode(c);
    var tail := PercentEncode(bytes[1..]) + rest;
    var s := PercentEncode(bytes) + rest;
    assert s == ['%', HexDigit(bytes[0] / 16), HexDigit(bytes[0] % 16)] + tail;
    EscapedBytePercent(bytes[0], tail);
    Utf8DecodeEncode(c);
    if bytes[0] >= 0x80 {
      assert s[3..] == tail;
      ReadEscapesPercent(bytes[1..], rest);
      assert [bytes[0]] + bytes[1..] == bytes;
    }
  }

  /** Decoding the encoding of one character, followed by anything, yields that
      character followed by the decoding of the rest. */
  lemma DecodeEncodedChar(c: char, rest: string)
    ensures DecodeUri(EncodeUriChar(c) + rest) == Prepend([c], DecodeUri(rest))
  {
    var s := EncodeUriChar(c) + rest;
    if IsUnescaped(c) {
      assert s[1..] == rest;
    } else {
      DecodeEscapedChar(c, rest);
      assert s[3 * |Utf8Encode(c)|..] == rest;
    }
  }

  /** encodeURI's partner: decodeURI returns the text encodeURI was given. */
  lemma {:induction false} DecodeUriEncodeUri(s: string)
    ensures DecodeUri(EncodeUri(s)) == Ok(s)
  {
    if s != [] {
      DecodeEncodedChar(s[0], EncodeUri(s[1..]));
      DecodeUriEncodeUri(s[1..]);
      assert [s[0]] + s[1..] == s;
    }
  }
}
