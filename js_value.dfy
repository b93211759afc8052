/** JavaScript values as the content-state library sees them, the errors it raises,
    and the few string helpers the codec layers share. */
module JsValue {

  /** A JavaScript value as produced by JSON.parse, plus `undefined`, which reading an
      absent property yields. Numbers are integers; an object is a map from key to value. */
  datatype Value =
    | Undefined
    | Null
    | Bool(b: bool)
    | Num(n: int)
    | Str(s: string)
    | Arr(items: seq<Value>)
    | Obj(props: map<string, Value>)

  /** The message of a ContentStateError: one constructor per throw site. */
  datatype Reason =
    | InvalidLength       // restorePadding: length mod 4 is 1
    | UnparsableToken     // parseContentState: decoding or JSON.parse failed
    | IncorrectContext    // validateAnnotation: a string context other than the IRI
    | IncorrectContexts   // validateAnnotation: an array context without the IRI
    | ContextNotJsonLd    // validateAnnotation: a context that is neither string nor array
    | NoTarget            // validateAnnotation: a falsy target
    | TargetInvalid       // extractManifests: a target that is neither array nor object
    | NoManifestId        // extractManifests: a Manifest target with a falsy id
    | UnknownTargetType   // extractManifests: a type outside the known five
    | InvalidUrl          // parseURL: the URL constructor rejected the input
    | NoContentParameter  // parseURL: no, or an empty, iiif-content parameter

  /** What a call can throw: the library's own error, or one of the runtime's. */
  datatype Failure =
    | ContentStateError(reason: Reason)
    | TypeError              // property read on null or undefined, call of a non-function
    | InvalidCharacterError  // the DOMException of btoa and atob
    | UriError               // the URIError of decodeURI

  datatype Result<+T> = Ok(value: T) | Err(error: Failure) {
    predicate IsFailure() { Err? }
    function PropagateFailure<U>(): Result<U> requires Err? { Err(error) }
    function Extract(): T requires Ok? { value }
  }

  datatype Option<+T> = None | Some(value: T)

  predicate IsNullish(v: Value) {
    v.Undefined? || v.Null?
  }

  /** JavaScript truthiness: undefined, null, false, 0 and "" are falsy; arrays and
      objects, even empty ones, are truthy. */
  predicate Truthy(v: Value) {
    match v
    case Undefined => false
    case Null => false
    case Bool(b) => b
    case Num(n) => n != 0
    case Str(s) => s != ""
    case Arr(_) => true
    case Obj(_) => true
  }

  /** The value `v[key]` yields when the read does not throw. */
  function Field(v: Value, key: string): Value {
    if v.Obj? && key in v.props then v.props[key] else Undefined
  }

  /** `v[key]`: throws a TypeError on null and undefined. */
  function Property(v: Value, key: string): Result<Value> {
    if IsNullish(v) then Err(TypeError) else Ok(Field(v, key))
  }

  /** A byte: one character of a JavaScript "binary string". */
  type Byte = b: int | 0 <= b < 256

  function Repeat(c: char, n: nat): (r: string)
    ensures |r| == n
    ensures forall i | 0 <= i < n :: r[i] == c
  {
    if n == 0 then [] else [c] + Repeat(c, n - 1)
  }

  predicate StartsWith(s: string, prefix: string) {
    |prefix| <= |s| && s[..|prefix|] == prefix
  }

  /** Every character is below 256, as btoa demands. */
  predicate IsBinaryString(s: string) {
    forall i | 0 <= i < |s| :: s[i] as int < 256
  }

  predicate IsAscii(s: string) {
    forall i | 0 <= i < |s| :: s[i] as int < 0x80
  }

  function BytesOf(s: string): (bytes: seq<Byte>)
    requires IsBinaryString(s)
    ensures |bytes| == |s|
    ensures forall i | 0 <= i < |s| :: bytes[i] == s[i] as int
  {
    if s == [] then [] else [s[0] as int] + BytesOf(s[1..])
  }

  function CharsOf(bytes: seq<Byte>): (s: string)
    ensures |s| == |bytes|
    ensures forall i | 0 <= i < |s| :: s[i] as int == bytes[i]
  {
    if bytes == [] then [] else [bytes[0] as char] + CharsOf(bytes[1..])
  }

  lemma CharsOfBytesOf(s: string)
    requires IsBinaryString(s)
    ensures CharsOf(BytesOf(s)) == s
  {
    var t := CharsOf(BytesOf(s));
    assert |t| == |s|;
    forall i | 0 <= i < |s| ensures t[i] == s[i] {
      assert t[i] as int == s[i] as int;
    }
  }
}
