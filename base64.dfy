/** The browser's btoa and atob: base64 over binary strings, with the standard
    alphabet of section 4 of RFC 4648 and atob's forgiving decoder (the HTML
    standard's "forgiving-base64 decode"). */
module Base64 {
  import opened JsValue

  predicate IsAlphabetChar(c: char) {
    'A' <= c <= 'Z' || 'a' <= c <= 'z' || '0' <= c <= '9' || c == '+' || c == '/'
  }

  predicate IsAlphabetString(s: string) {
    forall i | 0 <= i < |s| :: IsAlphabetChar(s[i])
  }

  /** The character that encodes a 6-bit value. */
  function CharOf(v: int): (c: char)
    requires 0 <= v < 64
    ensures IsAlphabetChar(c)
  {
    if v < 26 then ('A' as int + v) as char
    else if v < 52 then ('a' as int + (v - 26)) as char
    else if v < 62 then ('0' as int + (v - 52)) as char
    else if v == 62 then '+'
    else '/'
  }

  /** The 6-bit value a character of the alphabet encodes; CharOf is its inverse. */
  function ValueOf(c: char): (v: int)
    requires IsAlphabetChar(c)
    ensures 0 <= v < 64
    ensures CharOf(v) == c
  {
    if 'A' <= c <= 'Z' then c as int - 'A' as int
    else if 'a' <= c <= 'z' then c as int - 'a' as int + 26
    else if '0' <= c <= '9' then c as int - '0' as int + 52
    else if c == '+' then 62
    else 63
  }

  lemma ValueOfCharOf(v: int)
    requires 0 <= v < 64
    ensures ValueOf(CharOf(v)) == v
  {
  }

  /** Three bytes as four characters, six bits each. */
  function EncodeTriple(b0: Byte, b1: Byte, b2: Byte): (s: string)
    ensures |s| == 4 && IsAlphabetString(s)
  {
    [CharOf(b0 / 4), CharOf(b0 % 4 * 16 + b1 / 16), CharOf(b1 % 16 * 4 + b2 / 64), CharOf(b2 % 64)]
  }

  /** Four characters as the three bytes their 24 bits spell. */
  function DecodeQuad(c0: char, c1: char, c2: char, c3: char): (bytes: seq<Byte>)
    requires IsAlphabetChar(c0) && IsAlphabetChar(c1) && IsAlphabetChar(c2) && IsAlphabetChar(c3)
    ensures |bytes| == 3
  {
    [ValueOf(c0) * 4 + ValueOf(c1) / 16, ValueOf(c1) % 16 * 16 + ValueOf(c2) / 4,
     ValueOf(c2) % 4 * 64 + ValueOf(c3)]
  }

  /** Base64 without the trailing padding: every 3 bytes become 4 characters, a
      final 1 or 2 bytes become the first 2 or 3 characters of their group, the
      missing bits taken as zero. */
  function EncodeUnpadded(bytes: seq<Byte>): (s: string)
    ensures |s| % 4 != 1
    ensures |s| == 0 <==> |bytes| == 0
    ensures IsAlphabetString(s)
    decreases |bytes|
  {
    if |bytes| == 0 then ""
    else if |bytes| == 1 then EncodeTriple(bytes[0], 0, 0)[..2]
    else if |bytes| == 2 then EncodeTriple(bytes[0], bytes[1], 0)[..3]
    else
      var rest := EncodeUnpadded(bytes[3..]);
      assert (4 + |rest|) % 4 == |rest| % 4;
      EncodeTriple(bytes[0], bytes[1], bytes[2]) + rest
  }

  /** Decodes an unpadded string of alphabet characters; a final group of 2 or 3
      characters gives 1 or 2 bytes, the low bits left over being discarded, as atob
      does. A single leftover character holds no whole byte and gives nothing; atob
      rejects such input before decoding. */
  function DecodeUnpadded(s: string): (bytes: seq<Byte>)
    requires IsAlphabetString(s)
    decreases |s|
  {
    if |s| < 2 then []
    else if |s| == 2 then DecodeQuad(s[0], s[1], 'A', 'A')[..1]
    else if |s| == 3 then DecodeQuad(s[0], s[1], s[2], 'A')[..2]
    else DecodeQuad(s[0], s[1], s[2], s[3]) + DecodeUnpadded(s[4..])
  }

  /** The number of `=` that pads an unpadded encoding of length n to a multiple of 4. */
  function PadCount(n: nat): (p: nat)
    ensures p < 4 && (n + p) % 4 == 0
    ensures n % 4 == 0 ==> p == 0
  {
    if n % 4 == 0 then 0 else 4 - n % 4
  }

  /** btoa: base64 of a binary string, padded with `=` to a multiple of 4; a
      character above 255 throws. */
  function Btoa(s: string): (r: Result<string>)
    ensures r.Ok? <==> IsBinaryString(s)
    ensures r.Err? ==> r.error == InvalidCharacterError
    ensures r.Ok? ==> |r.value| % 4 == 0
  {
    if IsBinaryString(s) then
      var u := EncodeUnpadded(BytesOf(s));
      Ok(u + Repeat('=', PadCount(|u|)))
    else
      Err(InvalidCharacterError)
  }

  predicate IsAsciiWhitespace(c: char) {
    c == '\t' || c == '\n' || c as int == 0x0C || c == '\r' || c == ' '
  }

  function RemoveWhitespace(s: string): (r: string)
    ensures forall i | 0 <= i < |r| :: !IsAsciiWhitespace(r[i])
    ensures (forall i | 0 <= i < |s| :: !IsAsciiWhitespace(s[i])) ==> r == s
    ensures forall x | x in s && !IsAsciiWhitespace(x) :: x in r
  {
    if s == [] then []
    else if IsAsciiWhitespace(s[0]) then RemoveWhitespace(s[1..])
    else [s[0]] + RemoveWhitespace(s[1..])
  }

  /** Drops one or two trailing `=`. */
  function StripPadding(s: string): (r: string)
    ensures forall x | x in s && x != '=' :: x in r
  {
    if |s| >= 2 && s[|s| - 2] == '=' && s[|s| - 1] == '=' then s[..|s| - 2]
    else if |s| >= 1 && s[|s| - 1] == '=' then s[..|s| - 1]
    else s
  }

  /** atob: drop ASCII whitespace; when the length is a multiple of 4, drop one or two
      trailing `=`; then a length of 1 mod 4 or a character outside the alphabet throws. */
  function Atob(s: string): (r: Result<string>)
    ensures r.Err? ==> r.error == InvalidCharacterError
    ensures r.Ok? ==> IsBinaryString(r.value)
  {
    var compact := RemoveWhitespace(s);
    var data := if |compact| % 4 == 0 then StripPadding(compact) else compact;
    if |data| % 4 == 1 || !IsAlphabetString(data) then Err(InvalidCharacterError)
    else Ok(CharsOf(DecodeUnpadded(data)))
  }

  /** The bit arithmetic of a group: the four 6-bit values of three bytes put back
      together give the bytes. */
  lemma RegroupBits(b0: Byte, b1: Byte, b2: Byte)
    ensures (b0 / 4) * 4 + (b0 % 4 * 16 + b1 / 16) / 16 == b0
    ensures (b0 % 4 * 16 + b1 / 16) % 16 * 16 + (b1 % 16 * 4 + b2 / 64) / 4 == b1
    ensures (b1 % 16 * 4 + b2 / 64) % 4 * 64 + b2 % 64 == b2
  {
  }

  lemma TripleRoundTrip(b0: Byte, b1: Byte, b2: Byte)
    ensures var e := EncodeTriple(b0, b1, b2);
      IsAlphabetString(e) && DecodeQuad(e[0], e[1], e[2], e[3]) == [b0, b1, b2]
  {
    var v0, v1, v2, v3 := b0 / 4, b0 % 4 * 16 + b1 / 16, b1 % 16 * 4 + b2 / 64, b2 % 64;
    ValueOfCharOf(v0);
    ValueOfCharOf(v1);
    ValueOfCharOf(v2);
    ValueOfCharOf(v3);
    RegroupBits(b0, b1, b2);
  }

  /** Decoding a full group of four characters followed by more text. */
  lemma DecodeLeadingQuad(q: string, t: string)
    requires |q| == 4 && IsAlphabetString(q)
    requires IsAlphabetString(t)
    ensures IsAlphabetString(q + t)
    ensures DecodeUnpadded(q + t) == DecodeQuad(q[0], q[1], q[2], q[3]) + DecodeUnpadded(t)
  {
    var s := q + t;
    assert s[4..] == t;
    assert s[..4] == q;
    assert IsAlphabetString(s) by {
      forall i | 0 <= i < |s| ensures IsAlphabetChar(s[i]) {
        if i >= 4 { assert s[i] == t[i - 4]; } else { assert s[i] == q[i]; }
      }
    }
  }

  /** The first byte of a group depends on its first two characters only, the
      second on its first three. */
  lemma DecodeQuadPrefix(c0: char, c1: char, c2: char, c3: char, d2: char, d3: char)
    requires IsAlphabetChar(c0) && IsAlphabetChar(c1) && IsAlphabetChar(c2) && IsAlphabetChar(c3)
    requires IsAlphabetChar(d2) && IsAlphabetChar(d3)
    ensures DecodeQuad(c0, c1, d2, d3)[..1] == DecodeQuad(c0, c1, c2, c3)[..1]
    ensures DecodeQuad(c0, c1, c2, d3)[..2] == DecodeQuad(c0, c1, c2, c3)[..2]
  {
  }

  /** Decoding undoes encoding for a final group of one byte. */
  lemma DecodeEncodeOne(bytes: seq<Byte>)
    requires |bytes| == 1
    ensures DecodeUnpadded(EncodeUnpadded(bytes)) == bytes
  {
    var b0 := bytes[0];
    var e := EncodeTriple(b0, 0, 0);
    TripleRoundTrip(b0, 0, 0);
    var u := e[..2];
    assert EncodeUnpadded(bytes) == u;
    calc {
      DecodeUnpadded(u);
      == { assert |u| == 2 && u[0] == e[0] && u[1] == e[1]; }
      DecodeQuad(e[0], e[1], 'A', 'A')[..1];
      == { DecodeQuadPrefix(e[0], e[1], e[2], e[3], 'A', 'A'); }
      DecodeQuad(e[0], e[1], e[2], e[3])[..1];
      [b0, 0, 0][..1];
      bytes;
    }
  }

  /** Decoding undoes encoding for a final group of two bytes. */
  lemma DecodeEncodeTwo(bytes: seq<Byte>)
    requires |bytes| == 2
    ensures DecodeUnpadded(EncodeUnpadded(bytes)) == bytes
  {
    var b0, b1 := bytes[0], bytes[1];
    var e := EncodeTriple(b0, b1, 0);
    TripleRoundTrip(b0, b1, 0);
    var u := e[..3];
    assert EncodeUnpadded(bytes) == u;
    calc {
      DecodeUnpadded(u);
      == { assert |u| == 3 && u[0] == e[0] && u[1] == e[1] && u[2] == e[2]; }
      DecodeQuad(e[0], e[1], e[2], 'A')[..2];
      == { DecodeQuadPrefix(e[0], e[1], e[2], e[3], 'A', 'A'); }
      DecodeQuad(e[0], e[1], e[2], e[3])[..2];
      [b0, b1, 0][..2];
      bytes;
    }
  }

  /** Decoding an encoded group of three bytes followed by more text. */
  lemma DecodeLeadingTriple(b0: Byte, b1: Byte, b2: Byte, t: string)
    requires IsAlphabetString(t)
    ensures IsAlphabetString(EncodeTriple(b0, b1, b2) + t)
    ensures DecodeUnpadded(EncodeTriple(b0, b1, b2) + t) == [b0, b1, b2] + DecodeUnpadded(t)
  {
    TripleRoundTrip(b0, b1, b2);
    DecodeLeadingQuad(EncodeTriple(b0, b1, b2), t);
  }

  lemma EncodeGroupUnfold(bytes: seq<Byte>)
    requires |bytes| >= 3
    ensures EncodeUnpadded(bytes) == EncodeTriple(bytes[0], bytes[1], bytes[2]) + EncodeUnpadded(bytes[3..])
  {
  }

  /** Decoding the encoding of three or more bytes starts with the first three. */
  lemma DecodeEncodeGroup(bytes: seq<Byte>)
    requires |bytes| >= 3
    ensures DecodeUnpadded(EncodeUnpadded(bytes))
      == [bytes[0], bytes[1], bytes[2]] + DecodeUnpadded(EncodeUnpadded(bytes[3..]))
  {
    EncodeGroupUnfold(bytes);
    DecodeLeadingTriple(bytes[0], bytes[1], bytes[2], EncodeUnpadded(bytes[3..]));
  }

  /** Decoding undoes encoding. */
  lemma {:induction false} DecodeEncode(bytes: seq<Byte>)
    ensures DecodeUnpadded(EncodeUnpadded(bytes)) == bytes
    decreases |bytes|
  {
    if |bytes| == 0 {
    } else if |bytes| == 1 {
      DecodeEncodeOne(bytes);
    } else if |bytes| == 2 {
      DecodeEncodeTwo(bytes);
    } else {
      var rest := bytes[3..];
      calc {
        DecodeUnpadded(EncodeUnpadded(bytes));
        == { DecodeEncodeGroup(bytes); }
        [bytes[0], bytes[1], bytes[2]] + DecodeUnpadded(EncodeUnpadded(rest));
        == { DecodeEncode(rest); }
        [bytes[0], bytes[1], bytes[2]] + rest;
        == { assert bytes == [bytes[0], bytes[1], bytes[2]] + rest; }
        bytes;
      }
    }
  }

  lemma PaddedHasNoWhitespace(u: string, n: nat)
    requires IsAlphabetString(u)
    ensures RemoveWhitespace(u + Repeat('=', n)) == u + Repeat('=', n)
  {
    var pad := Repeat('=', n);
    var s := u + pad;
    forall i | 0 <= i < |s| ensures !IsAsciiWhitespace(s[i]) {
      if i < |u| { assert s[i] == u[i]; } else { assert s[i] == pad[i - |u|]; }
    }
  }

  lemma StripExactPadding(u: string)
    requires IsAlphabetString(u)
    requires |u| % 4 != 1
    ensures StripPadding(u + Repeat('=', PadCount(|u|))) == u
  {
    var s := u + Repeat('=', PadCount(|u|));
    if |u| > 0 {
      var k := |u| - 1;
      assert IsAlphabetChar(u[k]);
      assert s[k] == u[k];
    }
    if PadCount(|u|) == 0 {
      assert s == u;
    } else if PadCount(|u|) == 1 {
      assert s[..|s| - 1] == u;
    } else {
      assert s[..|s| - 2] == u;
    }
  }

  /** atob on a string without whitespace whose length is a multiple of 4 decodes
      what is left once the padding is stripped, if that is well formed. */
  lemma AtobUnpads(s: string)
    requires RemoveWhitespace(s) == s && |s| % 4 == 0
    requires IsAlphabetString(StripPadding(s)) && |StripPadding(s)| % 4 != 1
    ensures Atob(s) == Ok(CharsOf(DecodeUnpadded(StripPadding(s))))
  {
  }

  /** atob accepts an unpadded encoding followed by exactly its padding. */
  lemma AtobPadded(u: string)
    requires IsAlphabetString(u)
    requires |u| % 4 != 1
    ensures Atob(u + Repeat('=', PadCount(|u|))) == Ok(CharsOf(DecodeUnpadded(u)))
  {
    var p := PadCount(|u|);
    var s := u + Repeat('=', p);
    assert |s| == |u| + p;
    PaddedHasNoWhitespace(u, p);
    StripExactPadding(u);
    AtobUnpads(s);
  }

  /** btoa's partner: atob returns the binary string btoa was given. */
  lemma AtobBtoa(s: string)
    requires IsBinaryString(s)
    ensures Atob(Btoa(s).value) == Ok(s)
  {
    var u := EncodeUnpadded(BytesOf(s));
    AtobPadded(u);
    DecodeEncode(BytesOf(s));
    CharsOfBytesOf(s);
  }
}
