/** parseContentState and the link helpers of src/index.js: a content-state token, or
    the URL of a IIIF resource, becomes the expanded, validated annotation together with
    the manifests it refers to. JSON.stringify, JSON.parse and fetch are parameters. */
module ContentState {
  import opened JsValue
  import Codec
  import opened Annotation
  import opened Manifests

  /** The query parameter that carries a content state. */
  const ContentParameter: string := "iiif-content"

  /** What parseContentState resolves to. */
  datatype Parsed = Parsed(manifests: seq<Value>, annotation: Value)

  /** The stand-in annotation checkURLType builds for a URL that names a manifest. */
  function ManifestStub(url: string): (m: Value)
    ensures HasType(m, "Manifest") && Field(m, "id") == Str(url)
  {
    Obj(map["id" := Str(url), "type" := Str("Manifest")])
  }

  /** The classification of an already fetched JSON body in checkURLType
      (src/index.js:135-143): a Presentation 3 or 2 manifest becomes a stub naming the
      URL, an annotation is taken as it is, and anything else gives undefined. */
  function ClassifyBody(url: string, data: Value): (r: Result<Value>)
    ensures r.Err? <==> IsNullish(data)
    ensures r.Err? ==> r.error == TypeError
    ensures r.Ok? && (HasType(data, "Manifest") || Field(data, "@type") == Str("sc:Manifest")) ==>
      r.value == ManifestStub(url)
    ensures r.Ok? && HasType(data, "Annotation") && Field(data, "@type") != Str("sc:Manifest") ==>
      r.value == data
    ensures r.Ok? && !IsKnownBody(data) ==> r.value == Undefined
  {
    var ty :- Property(data, "type");
    if ty == Str("Manifest") || Field(data, "@type") == Str("sc:Manifest") then Ok(ManifestStub(url))
    else if ty == Str("Annotation") then Ok(data)
    else Ok(Undefined)
  }

  predicate IsKnownBody(data: Value) {
    HasType(data, "Manifest") || Field(data, "@type") == Str("sc:Manifest") || HasType(data, "Annotation")
  }

  /** The first step of parseContentState (src/index.js:226-237): a URL is fetched and
      classified; anything else is decoded and parsed as JSON, and any failure of
      either, including restorePadding's, becomes one ContentStateError. */
  function Resolve(input: string, parse: string -> Option<Value>, fetch: string -> Value): (r: Result<Value>)
    ensures !StartsWith(input, "http") ==>
      (r.Err? <==> Codec.DecodeContentState(input).Err? || parse(Codec.DecodeContentState(input).value).None?)
    ensures !StartsWith(input, "http") && r.Err? ==> r.error == ContentStateError(UnparsableToken)
    ensures !StartsWith(input, "http") && r.Ok? ==> Some(r.value) == parse(Codec.DecodeContentState(input).value)
    ensures StartsWith(input, "http") ==> r == ClassifyBody(input, fetch(input))
  {
    if StartsWith(input, "http") then ClassifyBody(input, fetch(input))
    else
      match Codec.DecodeContentState(input)
      case Err(_) => Err(ContentStateError(UnparsableToken))
      case Ok(text) =>
        match parse(text)
        case None => Err(ContentStateError(UnparsableToken))
        case Some(v) => Ok(v)
  }

  /** The rest of parseContentState (src/index.js:239-245): expand, validate, extract. */
  function Normalize(v: Value): (r: Result<Parsed>)
    ensures r.Ok? <==>
      && Expand(v).Ok?
      && Validate(Expand(v).value).Ok?
      && ExtractManifests(Expand(v).value).Ok?
    ensures Expand(v).Err? ==> r == Err(Expand(v).error)
    ensures Expand(v).Ok? && Validate(Expand(v).value).Err? ==> r == Err(Validate(Expand(v).value).error)
    ensures Expand(v).Ok? && Validate(Expand(v).value).Ok? && ExtractManifests(Expand(v).value).Err? ==>
      r == Err(ExtractManifests(Expand(v).value).error)
    ensures r.Ok? ==> Expand(v).Ok? && r.value.annotation == Expand(v).value
    ensures r.Ok? ==> Validate(r.value.annotation) == Ok(())
    ensures r.Ok? ==> ExtractManifests(r.value.annotation) == Ok(r.value.manifests)
    ensures r.Ok? ==> NoRepeats(r.value.manifests)
    ensures IsNullish(v) ==> r == Err(TypeError)
  {
    var expanded :- Expand(v);
    var valid :- Validate(expanded);
    var manifests :- ExtractManifests(expanded);
    Ok(Parsed(manifests, expanded))
  }

  /** parseContentState (src/index.js:225-246). */
  function ParseContentState(input: string, parse: string -> Option<Value>, fetch: string -> Value): (r: Result<Parsed>)
    ensures !StartsWith(input, "http") && Codec.DecodeContentState(input).Err? ==>
      r == Err(ContentStateError(UnparsableToken))
    ensures !StartsWith(input, "http") && |input| % 4 == 1 ==> r == Err(ContentStateError(UnparsableToken))
    ensures r.Ok? ==> Validate(r.value.annotation) == Ok(()) && NoRepeats(r.value.manifests)
    ensures Resolve(input, parse, fetch).Err? ==> r == Err(Resolve(input, parse, fetch).error)
    ensures Resolve(input, parse, fetch).Ok? ==> r == Normalize(Resolve(input, parse, fetch).value)
    ensures r.Ok? ==> Resolve(input, parse, fetch).Ok?
  {
    var annotation :- Resolve(input, parse, fetch);
    Normalize(annotation)
  }

  /** A content-state annotation that already carries the Presentation 3 context and a
      target, and whose targets all yield manifests, is accepted as it is. */
  lemma ValidAnnotationAccepted(v: Value)
    requires IsContentStateAnnotation(v) == Ok(true)
    requires HasPresentation3Context(Field(v, "@context")) && Truthy(Field(v, "target"))
    requires ExtractManifests(v).Ok?
    ensures Normalize(v) == Ok(Parsed(ExtractManifests(v).value, v))
  {
    assert Expand(v) == Ok(v);
  }

  /** A content-state annotation whose context is some other non-empty string is
      rejected with IncorrectContext. */
  lemma WrongContextRejected(v: Value)
    requires IsContentStateAnnotation(v) == Ok(true)
    requires var c := Field(v, "@context"); c.Str? && c.s != "" && c.s != Presentation3Context
    ensures Normalize(v) == Err(ContentStateError(IncorrectContext))
  {
    assert Expand(v) == Ok(v);
  }

  /** An encoded annotation with a wrong context makes parseContentState fail with
      IncorrectContext. */
  lemma EncodedWrongContextRejected(v: Value, stringify: Value -> string, parse: string -> Option<Value>, fetch: string -> Value)
    requires IsContentStateAnnotation(v) == Ok(true)
    requires var c := Field(v, "@context"); c.Str? && c.s != "" && c.s != Presentation3Context
    requires parse(stringify(v)) == Some(v)
    ensures ParseContentState(Codec.EncodeContentState(v, stringify), parse, fetch)
      == Err(ContentStateError(IncorrectContext))
  {
    ParseEncoded(v, stringify, parse, fetch);
    WrongContextRejected(v);
  }

  /** A token made by encodeContentState is decoded, not fetched, and parses back to
      what the pipeline makes of the encoded object itself. */
  lemma ParseEncoded(v: Value, stringify: Value -> string, parse: string -> Option<Value>, fetch: string -> Value)
    requires v.Obj? || v.Arr? || v.Null?
    requires parse(stringify(v)) == Some(v)
    ensures ParseContentState(Codec.EncodeContentState(v, stringify), parse, fetch) == Normalize(v)
  {
    Codec.DecodeEncodeContentState(v, stringify);
  }

  lemma ExpandStub(url: string)
    ensures Expand(ManifestStub(url)) == Ok(Wrap(ManifestStub(url)))
  {
    var stub := ManifestStub(url);
    assert Field(stub, "motivation") == Undefined;
    assert IsContentStateAnnotation(stub) == Ok(false);
    assert HasWrappableType(stub);
  }

  lemma ExtractStub(url: string)
    requires url != ""
    ensures ExtractManifests(Wrap(ManifestStub(url))) == Ok([Str(url)])
  {
    var stub := ManifestStub(url);
    assert TargetList(Wrap(stub)) == Ok([stub]);
    assert Contribution(stub) == Ok([Str(url)]);
    assert [stub][1..] == [];
    assert Collect([]) == Ok([]);
    assert [Str(url)] + [] == [Str(url)];
    assert Collect([stub]) == Ok([Str(url)]);
    assert [Str(url)][..0] == [];
    assert Distinct([Str(url)]) == [Str(url)];
  }

  /** A bare manifest reference is wrapped into a content-state annotation, and its id
      is the one manifest listed. */
  lemma NormalizeStub(url: string)
    requires url != ""
    ensures Normalize(ManifestStub(url)) == Ok(Parsed([Str(url)], Wrap(ManifestStub(url))))
  {
    ExpandStub(url);
    ExtractStub(url);
  }

  /** A bare manifest reference survives the encode-parse round trip. */
  lemma ManifestRoundTrip(url: string, stringify: Value -> string, parse: string -> Option<Value>, fetch: string -> Value)
    requires url != ""
    requires parse(stringify(ManifestStub(url))) == Some(ManifestStub(url))
    ensures ParseContentState(Codec.EncodeContentState(ManifestStub(url), stringify), parse, fetch)
      == Ok(Parsed([Str(url)], Wrap(ManifestStub(url))))
  {
    ParseEncoded(ManifestStub(url), stringify, parse, fetch);
    NormalizeStub(url);
  }

  /** A fetched manifest body resolves to the stub for its URL, whose only manifest is
      that URL. */
  lemma FetchedManifestParses(url: string, parse: string -> Option<Value>, fetch: string -> Value)
    requires StartsWith(url, "http")
    requires HasType(fetch(url), "Manifest") || Field(fetch(url), "@type") == Str("sc:Manifest")
    ensures ParseContentState(url, parse, fetch) == Ok(Parsed([Str(url)], Wrap(ManifestStub(url))))
  {
    assert Resolve(url, parse, fetch) == Ok(ManifestStub(url));
    NormalizeStub(url);
  }

  /** A fetched body that is neither a manifest nor an annotation gives undefined, on
      which expandAnnotation throws. */
  lemma FetchedOtherFails(url: string, parse: string -> Option<Value>, fetch: string -> Value)
    requires StartsWith(url, "http")
    requires !IsNullish(fetch(url)) && !IsKnownBody(fetch(url))
    ensures ParseContentState(url, parse, fetch) == Err(TypeError)
  {
  }

  /** The motivation is not checked once the context and target are right: an
      annotation without one is accepted as it is. */
  lemma MotivationNotRequired()
    ensures var a := Obj(map["@context" := Str(Presentation3Context), "target" := ManifestStub("m")]);
      && IsContentStateAnnotation(a) == Ok(false)
      && Normalize(a) == Ok(Parsed([Str("m")], a))
  {
    var stub := ManifestStub("m");
    var a := Obj(map["@context" := Str(Presentation3Context), "target" := stub]);
    assert Field(a, "motivation") == Undefined;
    assert Field(a, "type") == Undefined;
    assert Expand(a) == Ok(a);
    assert Validate(a) == Ok(());
    assert TargetList(a) == Ok([stub]);
    assert Contribution(stub) == Ok([Str("m")]);
    assert [stub][1..] == [];
    assert Collect([]) == Ok([]);
    assert [Str("m")] + [] == [Str("m")];
    assert Collect([stub]) == Ok([Str("m")]);
    assert [Str("m")][..0] == [];
    assert Distinct([Str("m")]) == [Str("m")];
  }

  /** `URLSearchParams.get`: the value of the first parameter with that name. */
  function FirstValue(params: seq<(string, string)>, name: string): (r: Option<string>)
    ensures r.None? <==> forall i | 0 <= i < |params| :: params[i].0 != name
    ensures r.Some? ==> exists i | 0 <= i < |params| ::
      params[i] == (name, r.value) && forall j | 0 <= j < i :: params[j].0 != name
  {
    if params == [] then None
    else if params[0].0 == name then Some(params[0].1)
    else
      var rest := FirstValue(params[1..], name);
      assert forall i | 1 <= i < |params| :: params[1..][i - 1] == params[i];
      if rest.Some? then
        var i :| 0 <= i < |params[1..]| && params[1..][i] == (name, rest.value)
          && forall j | 0 <= j < i :: params[1..][j].0 != name;
        assert params[i + 1] == (name, rest.value);
        rest
      else rest
  }

  /** Appending after existing parameters does not change which value comes first. */
  lemma {:induction false} FirstValueAppend(params: seq<(string, string)>, name: string, value: string)
    ensures FirstValue(params + [(name, value)], name) ==
      if FirstValue(params, name).Some? then FirstValue(params, name) else Some(value)
  {
    if params != [] {
      assert (params + [(name, value)])[1..] == params[1..] + [(name, value)];
      FirstValueAppend(params[1..], name, value);
    }
  }

  /** parseURL (src/index.js:210-223) after the URL is split: None stands for a URL the
      URL constructor rejects; otherwise the query parameters in order. */
  function ParseUrl(query: Option<seq<(string, string)>>, parse: string -> Option<Value>, fetch: string -> Value): (r: Result<Parsed>)
    ensures query.None? ==> r == Err(ContentStateError(InvalidUrl))
    ensures query.Some? && (FirstValue(query.value, ContentParameter) in {None, Some("")}) ==>
      r == Err(ContentStateError(NoContentParameter))
    ensures query.Some? && FirstValue(query.value, ContentParameter).Some? && FirstValue(query.value, ContentParameter).value != "" ==>
      r == ParseContentState(FirstValue(query.value, ContentParameter).value, parse, fetch)
  {
    if query.None? then Err(ContentStateError(InvalidUrl))
    else
      match FirstValue(query.value, ContentParameter)
      case None => Err(ContentStateError(NoContentParameter))
      case Some(content) =>
        if content == "" then Err(ContentStateError(NoContentParameter))
        else ParseContentState(content, parse, fetch)
  }

  /** The query parameters of a URL, which encodeLink extends. */
  class SearchParams {
    var entries: seq<(string, string)>

    constructor (init: seq<(string, string)>)
      ensures entries == init
    {
      entries := init;
    }

    /** `URLSearchParams.append`: a new entry after all others, even one with the same name. */
    method Append(name: string, value: string)
      modifies this
      ensures entries == old(entries) + [(name, value)]
    {
      entries := entries + [(name, value)];
    }
  }

  /** encodeLink (src/index.js:192-203) on the query parameters of the URL: the token
      is appended as a new `iiif-content` parameter. */
  method EncodeLink(existing: seq<(string, string)>, annotation: Value, stringify: Value -> string)
    returns (query: seq<(string, string)>)
    ensures query == existing + [(ContentParameter, Codec.EncodeContentState(annotation, stringify))]
    ensures FirstValue(existing, ContentParameter).None? ==>
      FirstValue(query, ContentParameter) == Some(Codec.EncodeContentState(annotation, stringify))
  {
    var params := new SearchParams(existing);
    var data := Codec.EncodeContentState(annotation, stringify);
    params.Append(ContentParameter, data);
    query := params.entries;
    FirstValueAppend(existing, ContentParameter, data);
  }

  /** encodeLink's partner: parseURL on a link to a URL without a content parameter
      parses the token encodeLink added. */
  lemma LinkRoundTrip(existing: seq<(string, string)>, annotation: Value, stringify: Value -> string,
                      parse: string -> Option<Value>, fetch: string -> Value)
    requires FirstValue(existing, ContentParameter).None?
    requires Codec.TextOf(annotation, stringify) != ""
    ensures var token := Codec.EncodeContentState(annotation, stringify);
      ParseUrl(Some(existing + [(ContentParameter, token)]), parse, fetch) == ParseContentState(token, parse, fetch)
  {
    FirstValueAppend(existing, ContentParameter, Codec.EncodeContentState(annotation, stringify));
  }

  /** When the URL already carries a content parameter, parseURL keeps reading the old
      one: the token encodeLink appends is ignored. */
  lemma LinkKeepsEarlierContent(existing: seq<(string, string)>, token: string,
                                parse: string -> Option<Value>, fetch: string -> Value)
    requires FirstValue(existing, ContentParameter).Some?
    ensures ParseUrl(Some(existing + [(ContentParameter, token)]), parse, fetch) == ParseUrl(Some(existing), parse, fetch)
  {
    FirstValueAppend(existing, ContentParameter, token);
  }
}
