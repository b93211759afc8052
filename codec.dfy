/** The content-state codec of src/index.js: encodeContentState, decodeContentState and
    restorePadding. A token is the unpadded base64url form (section 5 of RFC 4648, padding
    omitted as section 3.2 allows) of the encodeURI escape of the content-state text. */
module Codec {
  import opened JsValue
  import Base64
  import Uri

  predicate IsBase64UrlChar(c: char) {
    'A' <= c <= 'Z' || 'a' <= c <= 'z' || '0' <= c <= '9' || c == '-' || c == '_'
  }

  /** `s.replace(/from/g, to)` for a single character. */
  function ReplaceChar(s: string, from: char, to: char): (r: string)
    ensures |r| == |s|
    ensures forall i | 0 <= i < |s| :: r[i] == (if s[i] == from then to else s[i])
  {
    if s == [] then [] else [if s[0] == from then to else s[0]] + ReplaceChar(s[1..], from, to)
  }

  /** `s.replace(/c/g, "")`: s with every occurrence of c removed, the rest in order. */
  function RemoveChar(s: string, c: char): (r: string)
    ensures c !in r
    ensures forall x | x != c :: x in r <==> x in s
    ensures |r| <= |s|
    ensures multiset(r) == multiset(s)[c := 0]
  {
    if s == [] then []
    else
      assert s == [s[0]] + s[1..];
      if s[0] == c then RemoveChar(s[1..], c)
      else [s[0]] + RemoveChar(s[1..], c)
  }

  /** Removal works piece by piece, so the remaining characters keep their order. */
  lemma {:induction false} RemoveCharAppend(a: string, b: string, c: char)
    ensures RemoveChar(a + b, c) == RemoveChar(a, c) + RemoveChar(b, c)
    decreases |a|
  {
    if a != [] {
      assert (a + b)[0] == a[0];
      assert (a + b)[1..] == a[1..] + b;
      RemoveCharAppend(a[1..], b, c);
    } else {
      assert a + b == b;
    }
  }

  /** restorePadding (src/index.js:172-183): a length of 1 mod 4 cannot come from base64
      and throws; otherwise `=` is appended up to the next multiple of 4. */
  function RestorePadding(s: string): (r: Result<string>)
    ensures r.Err? <==> |s| % 4 == 1
    ensures r.Err? ==> r.error == ContentStateError(InvalidLength)
    ensures r.Ok? ==> |r.value| % 4 == 0
    ensures r.Ok? ==> |r.value| == |s| + (4 - |s| % 4) % 4
    ensures r.Ok? ==> r.value[..|s|] == s
    ensures r.Ok? ==> forall i | |s| <= i < |r.value| :: r.value[i] == '='
  {
    var pad := |s| % 4;
    if pad == 0 then Ok(s)
    else if pad == 1 then Err(ContentStateError(InvalidLength))
    else Ok(s + Repeat('=', 4 - pad))
  }

  /** The text encodeContentState escapes: JSON.stringify (supplied by the caller) for
      what `typeof` calls "object" (null, arrays, objects), the string itself for a
      string. For a number, boolean or undefined the value is passed to encodeURI as it
      is, which converts it with ToString. */
  function TextOf(value: Value, stringify: Value -> string): string {
    match value
    case Null => stringify(value)
    case Arr(_) => stringify(value)
    case Obj(_) => stringify(value)
    case Str(s) => s
    case Undefined => "undefined"
    case Bool(b) => if b then "true" else "false"
    case Num(n) => NumberText(n)
  }

  /** ToString of an integer below 10^21 in magnitude: decimal digits, with a leading
      `-` when negative. Larger numbers are written in exponent form by JavaScript,
      which this function does not model. */
  function NumberText(n: int): string
    decreases if n < 0 then 1 - n else n
  {
    if n < 0 then "-" + NumberText(-n)
    else if n < 10 then [('0' as int + n) as char]
    else NumberText(n / 10) + [('0' as int + n % 10) as char]
  }

  /** The body of encodeContentState after the text is chosen (src/index.js:157-161):
      encodeURI, btoa, then `+` to `-`, `/` to `_`, and every `=` dropped. encodeURI only
      produces ASCII, so btoa never throws here. */
  function EncodeText(data: string): (token: string)
    ensures forall i | 0 <= i < |token| :: IsBase64UrlChar(token[i])
    ensures |token| % 4 != 1
    ensures !StartsWith(token, "http")
    ensures token == [] <==> data == []
  {
    var uriEncoded := Uri.EncodeUri(data);
    var base64 := Base64.Btoa(uriEncoded).value;
    var base64url := ReplaceChar(ReplaceChar(base64, '+', '-'), '/', '_');
    EncodedTokenShape(uriEncoded);
    RemoveChar(base64url, '=')
  }

  /** encodeContentState (src/index.js:152-162). */
  function EncodeContentState(value: Value, stringify: Value -> string): (token: string)
    ensures forall i | 0 <= i < |token| :: IsBase64UrlChar(token[i])
    ensures |token| % 4 != 1
    ensures !StartsWith(token, "http")
    ensures token == [] <==> TextOf(value, stringify) == []
  {
    EncodeText(TextOf(value, stringify))
  }

  /** decodeContentState (src/index.js:164-170): restorePadding, `-` to `+`, `_` to `/`,
      atob, decodeURI. A length of 1 mod 4 is a ContentStateError; a character outside
      the base64 alphabet is atob's DOMException; a malformed escape decodeURI's URIError. */
  function DecodeContentState(token: string): (r: Result<string>)
    ensures r == Err(ContentStateError(InvalidLength)) <==> |token| % 4 == 1
    ensures r.Err? ==> r.error in {ContentStateError(InvalidLength), InvalidCharacterError, UriError}
  {
    var base64url :- RestorePadding(token);
    var base64 := ReplaceChar(ReplaceChar(base64url, '-', '+'), '_', '/');
    var binary :- Base64.Atob(base64);
    Uri.DecodeUri(binary)
  }

  /** A token holding a character outside ASCII never decodes: whatever its length,
      either restorePadding or atob rejects it. */
  lemma NonAsciiTokenFails(token: string, k: nat)
    requires k < |token| && token[k] as int >= 0x80
    ensures DecodeContentState(token).Err?
  {
    var c := token[k];
    if RestorePadding(token).Ok? {
      var padded := RestorePadding(token).value;
      assert padded[k] == padded[..|token|][k] == c;
      var base64 := ReplaceChar(ReplaceChar(padded, '-', '+'), '_', '/');
      assert base64[k] == c;
      var compact := Base64.RemoveWhitespace(base64);
      assert c in compact;
      var data := if |compact| % 4 == 0 then Base64.StripPadding(compact) else compact;
      assert c in data;
      assert !Base64.IsAlphabetString(data);
    }
  }

  // The proofs of the codec's laws, layer by layer.

  /** The url-safe substitution of a base64 string: `+` becomes `-` and `/` becomes `_`. */
  function UrlSafe(u: string): string {
    ReplaceChar(ReplaceChar(u, '+', '-'), '/', '_')
  }

  lemma UrlSafeShape(u: string)
    requires Base64.IsAlphabetString(u)
    ensures forall i | 0 <= i < |UrlSafe(u)| :: IsBase64UrlChar(UrlSafe(u)[i])
    ensures '=' !in UrlSafe(u)
    ensures ReplaceChar(ReplaceChar(UrlSafe(u), '-', '+'), '_', '/') == u
  {
    var w := UrlSafe(u);
    forall i | 0 <= i < |w| ensures IsBase64UrlChar(w[i]) && w[i] != '=' {
      assert Base64.IsAlphabetChar(u[i]);
    }
    var back := ReplaceChar(ReplaceChar(w, '-', '+'), '_', '/');
    forall i | 0 <= i < |u| ensures back[i] == u[i] {
      assert Base64.IsAlphabetChar(u[i]);
    }
  }

  /** What the encoding side does to u + padding: the substitutions leave the `=`
      alone and the removal drops exactly them. */
  lemma UrlSafePadded(u: string, n: nat)
    requires Base64.IsAlphabetString(u)
    ensures RemoveChar(ReplaceChar(ReplaceChar(u + Repeat('=', n), '+', '-'), '/', '_'), '=') == UrlSafe(u)
  {
    UrlSafeShape(u);
    var pad := Repeat('=', n);
    var whole := ReplaceChar(ReplaceChar(u + pad, '+', '-'), '/', '_');
    assert whole == UrlSafe(u) + pad by {
      forall i | 0 <= i < |whole| ensures whole[i] == (UrlSafe(u) + pad)[i] {
        if i >= |u| { assert (u + pad)[i] == pad[i - |u|]; }
      }
    }
    RemoveAppendedChar(UrlSafe(u), n);
  }

  lemma {:induction false} RemoveAppendedChar(w: string, n: nat)
    requires '=' !in w
    ensures RemoveChar(w + Repeat('=', n), '=') == w
  {
    if w == [] {
      assert w + Repeat('=', n) == Repeat('=', n);
      RemoveRepeated(n);
    } else {
      assert (w + Repeat('=', n))[1..] == w[1..] + Repeat('=', n);
      RemoveAppendedChar(w[1..], n);
      assert [w[0]] + w[1..] == w;
    }
  }

  lemma {:induction false} RemoveRepeated(n: nat)
    ensures RemoveChar(Repeat('=', n), '=') == []
  {
    if n > 0 {
      assert Repeat('=', n)[1..] == Repeat('=', n - 1);
      RemoveRepeated(n - 1);
    }
  }

  /** The token built from an ASCII string, expressed through the unpadded base64 u. */
  lemma EncodedTokenIs(ascii: string)
    requires IsAscii(ascii)
    ensures Base64.Btoa(ascii).Ok?
    ensures var u := Base64.EncodeUnpadded(BytesOf(ascii));
      && Base64.Btoa(ascii).value == u + Repeat('=', Base64.PadCount(|u|))
      && RemoveChar(ReplaceChar(ReplaceChar(Base64.Btoa(ascii).value, '+', '-'), '/', '_'), '=') == UrlSafe(u)
  {
    var u := Base64.EncodeUnpadded(BytesOf(ascii));
    UrlSafePadded(u, Base64.PadCount(|u|));
  }

  /** The first base64 character of an ASCII text encodes its first byte's top six
      bits, a value below 32: an upper-case letter or one of `a` to `f`, never `h`. */
  lemma FirstCharNotH(ascii: string)
    requires IsAscii(ascii)
    ensures var u := Base64.EncodeUnpadded(BytesOf(ascii));
      |u| > 0 ==> UrlSafe(u)[0] != 'h'
  {
    var bytes := BytesOf(ascii);
    var u := Base64.EncodeUnpadded(bytes);
    if |u| > 0 {
      assert bytes[0] < 0x80;
      assert u[0] == Base64.CharOf(bytes[0] / 4);
    }
  }

  lemma EncodedTokenShape(ascii: string)
    requires IsAscii(ascii)
    ensures Base64.Btoa(ascii).Ok?
    ensures var token := RemoveChar(ReplaceChar(ReplaceChar(Base64.Btoa(ascii).value, '+', '-'), '/', '_'), '=');
      && (forall i | 0 <= i < |token| :: IsBase64UrlChar(token[i]))
      && |token| % 4 != 1
      && !StartsWith(token, "http")
      && (token == [] <==> ascii == [])
  {
    EncodedTokenIs(ascii);
    var u := Base64.EncodeUnpadded(BytesOf(ascii));
    var token := UrlSafe(u);
    assert RemoveChar(ReplaceChar(ReplaceChar(Base64.Btoa(ascii).value, '+', '-'), '/', '_'), '=') == token;
    UrlSafeShape(u);
    assert |token| == |u|;
    assert token == [] <==> ascii == [] by {
      assert |BytesOf(ascii)| == |ascii|;
    }
    assert !StartsWith(token, "http") by {
      FirstCharNotH(ascii);
      if |token| >= 4 { assert token[..4][0] == token[0]; }
    }
  }

  /** restorePadding and the reverse substitution turn the url-safe form of an
      unpadded base64 string back into the padded base64 string. */
  lemma RestoreUrlSafe(u: string)
    requires Base64.IsAlphabetString(u) && |u| % 4 != 1
    ensures RestorePadding(UrlSafe(u)).Ok?
    ensures ReplaceChar(ReplaceChar(RestorePadding(UrlSafe(u)).value, '-', '+'), '_', '/')
      == u + Repeat('=', Base64.PadCount(|u|))
  {
    UrlSafeShape(u);
    var token := UrlSafe(u);
    var p := Repeat('=', Base64.PadCount(|u|));
    var padded := RestorePadding(token).value;
    assert padded == token + p by {
      forall i | 0 <= i < |padded| ensures padded[i] == (token + p)[i] {
        if i < |token| { assert padded[..|token|][i] == padded[i]; }
      }
    }
    var base64 := ReplaceChar(ReplaceChar(padded, '-', '+'), '_', '/');
    var back := ReplaceChar(ReplaceChar(token, '-', '+'), '_', '/');
    forall i | 0 <= i < |base64| ensures base64[i] == (u + p)[i] {
      if i < |u| { assert back[i] == u[i]; }
    }
  }

  /** Decoding the url-safe form of an unpadded base64 string u: atob of u, then decodeURI. */
  lemma DecodeUrlSafe(u: string)
    requires Base64.IsAlphabetString(u) && |u| % 4 != 1
    ensures DecodeContentState(UrlSafe(u)) == Uri.DecodeUri(CharsOf(Base64.DecodeUnpadded(u)))
  {
    RestoreUrlSafe(u);
    Base64.AtobPadded(u);
  }

  /** The round-trip law: decodeContentState returns exactly the text that was encoded. */
  lemma DecodeEncodeText(data: string)
    ensures DecodeContentState(EncodeText(data)) == Ok(data)
  {
    var ascii := Uri.EncodeUri(data);
    EncodedTokenIs(ascii);
    var u := Base64.EncodeUnpadded(BytesOf(ascii));
    assert EncodeText(data) == UrlSafe(u);
    DecodeUrlSafe(u);
    Base64.DecodeEncode(BytesOf(ascii));
    CharsOfBytesOf(ascii);
    Uri.DecodeUriEncodeUri(data);
  }

  /** encodeContentState's partner: decoding its token yields the JSON text of an object
      argument and a string argument itself. */
  lemma DecodeEncodeContentState(value: Value, stringify: Value -> string)
    ensures DecodeContentState(EncodeContentState(value, stringify)) == Ok(TextOf(value, stringify))
    ensures value.Str? ==> DecodeContentState(EncodeContentState(value, stringify)) == Ok(value.s)
    ensures (value.Obj? || value.Arr? || value.Null?) ==>
              DecodeContentState(EncodeContentState(value, stringify)) == Ok(stringify(value))
  {
    DecodeEncodeText(TextOf(value, stringify));
  }
}
