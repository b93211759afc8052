# content-state, modelled in Dafny

This project models the core of the `content-state` JavaScript library (src/index.js), which implements the IIIF Content State API 0.9. A content state is a W3C annotation whose motivation is `"contentState"`. The annotation points at IIIF resources: manifests, canvases and ranges. The library does two things:

- **Codec.** `encodeContentState` turns the annotation, or its JSON text, into a URL-safe token. The token is the unpadded base64url form (section 5 of RFC 4648) of the `encodeURI` escape of the text. `decodeContentState` and `restorePadding` undo this.
- **Annotation pipeline.** `parseContentState` takes a token or a resource URL. It decodes or fetches it, expands shorthand input into a full annotation and validates that annotation. It returns the annotation with the de-duplicated list of manifests its targets refer to.

## Modules

- `js_value.dfy` (`JsValue`) holds what the other modules share:
  - the JavaScript values the library handles: `undefined`, `null`, booleans, integer numbers, strings, arrays and objects;
  - truthiness, and property reads, which throw a TypeError on `null` and `undefined`;
  - the errors: `ContentStateError` with one reason per throw site, TypeError, the DOMException of `btoa`/`atob`, and URIError.
- `base64.dfy` (`Base64`) models the browser's `btoa` and `atob`. It uses the alphabet of section 4 of RFC 4648 and the HTML standard's forgiving-base64 decoder.
- `uri.dfy` (`Uri`) models `encodeURI` and `decodeURI` (section 19.2.6 of ECMA-262). Escapes are the `%XY` form of section 2.1 of RFC 3986, applied to UTF-8 bytes (RFC 3629). `decodeURI` keeps the escapes of reserved characters.
- `codec.dfy` (`Codec`) models `restorePadding`, `encodeContentState` and `decodeContentState`, and proves the round trip layer by layer.
- `annotation.dfy` (`Annotation`) models `isContentStateAnnotation`, `expandAnnotation` and `validateAnnotation`.
- `manifests.dfy` (`Manifests`) models `extractManifests`, including the `[...new Set(...)]` de-duplication.
- `content_state.dfy` (`ContentState`) covers the pipeline and the link helpers:
  - `parseContentState`, with the body classification of `checkURLType`;
  - `parseURL` over an already split parameter list;
  - `encodeLink`, as an append to a `SearchParams` object.

`JSON.stringify`, `JSON.parse` and `fetch` are parameters of the functions that use them:

- `stringify: Value -> string`;
- `parse: string -> Option<Value>`, where `None` means JSON.parse throws;
- `fetch: string -> Value`, the parsed body of the response.

### Where the code differs from the library's documentation

The model follows the code in each of these cases:

- **Nulls are kept in the manifest list.** The documentation says absent entries are dropped and the result is an unordered set. The code (src/index.js:111-128) keeps a `null` for every Annotation or Collection target, and keeps `undefined` for a `partOf` entry without an id. The list is ordered by first occurrence. `Manifests.NullForAnnotationTargets`, `Manifests.PartOfIdListed` and `Manifests.DistinctPrefix` state this.
- **The motivation is not validated.** The documentation says an annotation whose motivation lacks `"contentState"` is rejected. `validateAnnotation` (src/index.js:54-72) checks only the context and the target. `ContentState.MotivationNotRequired` exhibits an accepted annotation without a motivation.
- **A falsy context is replaced, not only an absent one.** The documentation speaks of a missing context. `expandAnnotation` (src/index.js:26) replaces any falsy context.
- **The result is a pair.** Some of the library's tests expect `parseContentState` to resolve to the bare annotation. The code returns `{manifests, annotation}`, modelled as `Parsed`.

## Model

| member | source | states |
|---|---|---|
| `Codec.RestorePadding` | src/index.js:172-183 | fails with ContentStateError exactly when the length is 1 mod 4; otherwise it returns the input followed by (4 - len mod 4) mod 4 `=` characters, so the length is a multiple of 4 and the prefix is unchanged |
| `Codec.ReplaceChar` | src/index.js:159 | a global one-character `replace`: same length, every `from` becomes `to`, every other character kept |
| `Codec.RemoveChar` | src/index.js:160 | removing every `=`: none is left, and every other character keeps its count (the multiset of the input with `=` taken out) |
| `Codec.RemoveCharAppend` | src/index.js:160 | removal works piece by piece, so the remaining characters keep their order |
| `Codec.EncodeText` | src/index.js:157-161 | the token uses only the base64url alphabet (no `+`, `/` or `=`); its length is never 1 mod 4, so restorePadding accepts it; it never starts with `http`; it is empty exactly when the text is |
| `Codec.EncodeContentState` | src/index.js:152-162 | the same alphabet, length and prefix guarantees for any argument; JSON text for objects, arrays and null, the string itself for a string |
| `Codec.DecodeContentState` | src/index.js:164-170 | the InvalidLength ContentStateError arises exactly for a length of 1 mod 4; the only other failures are atob's DOMException and decodeURI's URIError |
| `Codec.NonAsciiTokenFails` | src/index.js:164-183 | a token holding a character outside ASCII never decodes: restorePadding or atob rejects it, whatever its length |
| `Codec.UrlSafeShape` | src/index.js:159-166 | the url-safe substitution of a base64 string yields only base64url characters and no `=`, and the reverse substitution restores it |
| `Codec.UrlSafePadded` | src/index.js:159-160 | substituting and then removing `=` from padded base64 gives the url-safe form of the unpadded part |
| `Codec.EncodedTokenShape` | src/index.js:157-161 | for any ASCII text, btoa succeeds and the resulting token has the alphabet, length and no-`http` properties |
| `Codec.FirstCharNotH` | src/index.js:158 | the first base64 character of an ASCII text is never `h`, so a token is never taken for a URL by parseContentState |
| `Codec.DecodeEncodeText` | src/index.js:152-170 | round trip: decodeContentState of the token made from a text returns exactly that text |
| `Codec.DecodeEncodeContentState` | src/index.js:152-170 | decodeContentState of encodeContentState(v) is the JSON text of v for objects, arrays and null, and v itself for a string |
| `Base64.Btoa` | src/index.js:158 | succeeds exactly on binary strings (every character below 256), otherwise the DOMException; the output length is a multiple of 4 |
| `Base64.Atob` | src/index.js:167 | every failure is the DOMException, and a success is a binary string |
| `Base64.EncodeUnpadded` | src/index.js:158 | base64 without padding: only alphabet characters, never a length of 1 mod 4, and empty exactly for no bytes |
| `Base64.TripleRoundTrip` | src/index.js:158-167 | the four characters that encode three bytes decode back to those three bytes |
| `Base64.DecodeEncodeOne` | src/index.js:158-167 | a final single byte, encoded as two characters, decodes back to itself |
| `Base64.DecodeEncodeTwo` | src/index.js:158-167 | a final pair of bytes, encoded as three characters, decodes back to itself |
| `Base64.DecodeEncode` | src/index.js:167 | decoding an unpadded encoding returns the original bytes |
| `Base64.AtobPadded` | src/index.js:167 | atob accepts an unpadded encoding followed by exactly its padding, and decodes it |
| `Base64.AtobBtoa` | src/index.js:167 | atob returns exactly the binary string that btoa was given |
| `Uri.EncodeUri` | src/index.js:157 | encodeURI produces only ASCII, which btoa always accepts, and never shortens its input |
| `Uri.DecodeUri` | src/index.js:168 | every failure of decodeURI is a URIError |
| `Uri.Utf8DecodeEncode` | src/index.js:157-168 | the UTF-8 bytes of a character decode back to it, and the lead byte announces their count |
| `Uri.DecodeUriEncodeUri` | src/index.js:168 | decodeURI returns exactly the text that encodeURI was given |
| `Annotation.IsContentStateAnnotation` | src/index.js:81-99 | throws on null or undefined; false for a falsy motivation, for a string other than "contentState" and for an array without it; true for every other truthy motivation, including objects and numbers |
| `Annotation.Wrap` | src/index.js:37-42 | the wrapper is a content-state annotation with the Presentation 3 context, type Annotation, and the input as its target |
| `Annotation.Expand` | src/index.js:22-46 | a content-state annotation keeps a truthy context, gets the Presentation 3 context in place of a falsy one, and every other field is unchanged; otherwise a wrappable type is wrapped; anything else is returned as it is; null and undefined throw |
| `Annotation.ExpandIdempotent` | src/index.js:22-46 | expanding twice gives the same result as expanding once |
| `Annotation.ExpandedTargetValidates` | src/index.js:31-43 | a wrapped bare target always passes validateAnnotation |
| `Annotation.Validate` | src/index.js:54-72 | succeeds iff the context is the Presentation 3 IRI or an array holding it and the target is truthy; each failure has its own error: wrong string, array without the IRI, any other context (including `{}`), falsy target, and TypeError on null or undefined |
| `Manifests.Distinct` | src/index.js:128 | `[...new Set(xs)]` keeps every entry of xs, repeats no primitive, and is no longer than xs |
| `Manifests.DistinctPrefix` | src/index.js:128 | entries keep their first-occurrence order: the result for a prefix is a prefix of the result |
| `Manifests.DistinctOfDistinct` | src/index.js:128 | a list without repeated entries comes back unchanged |
| `Manifests.TargetList` | src/index.js:104-110 | an array target is used as it is, an object or null target becomes a one-element list, and any other target is the TargetInvalid ContentStateError |
| `Manifests.PartIds` | src/index.js:122 | the ids of the `partOf` entries in order, possibly undefined; a null or undefined entry throws a TypeError |
| `Manifests.Contribution` | src/index.js:111-126 | Annotation and Collection targets give null; a Manifest target gives its id, or the NoManifestId error exactly when the id is falsy; Canvas and Range targets give their parts' ids, or a TypeError without a `partOf` array; any other type is the UnknownTargetType error; every error kind holds exactly in its own case |
| `Manifests.PartOfTargetContributes` | src/index.js:121-122 | a Canvas or Range target whose `partOf` is an array without null entries succeeds and contributes those entries' ids in order |
| `Manifests.Collect` | src/index.js:111-128 | succeeds iff every target does; the first failing target decides the error; the flattened list holds exactly what the targets contribute |
| `Manifests.CollectOne` | src/index.js:111-128 | a single target contributes exactly its own list, or its error |
| `Manifests.CollectAppend` | src/index.js:128 | `flat()` joins contributions in target order: the list for two runs of targets is the first run's list followed by the second's |
| `Manifests.CollectStep` | src/index.js:111-128 | adding a target in front adds exactly its contribution to the flattened list |
| `Manifests.ExtractManifests` | src/index.js:101-129 | succeeds iff the target is an array, an object or null and every target contributes; TargetInvalid exactly for any other target; on success, no repeated entry, and exactly the values the targets contribute |
| `Manifests.ExtractKeepsTargetOrder` | src/index.js:111-128 | the manifests of the first k targets come first in the result, in first-occurrence order |
| `Manifests.FirstFailingTargetDecides` | src/index.js:111-126 | the first target that throws (a Manifest without an id, an unknown type, a missing `partOf`) makes extractManifests throw the same error |
| `Manifests.NullForAnnotationTargets` | src/index.js:112-115 | an Annotation or Collection target puts null in the result, and it is not filtered out |
| `Manifests.ManifestIdListed` | src/index.js:116-120 | the id of every Manifest target whose id is not an array is in the result (an array id is spliced in by `flat()`) |
| `Manifests.PartOfIdListed` | src/index.js:121-122 | the id of every `partOf` entry of a Canvas or Range target is in the result, even when undefined |
| `Manifests.OnlyContributionsListed` | src/index.js:111-128 | every entry of the result comes from some target |
| `Manifests.SharedManifestListedOnce` | src/index.js:121-128 | two Canvas targets that are part of the same manifest list that manifest once |
| `ContentState.ManifestStub` | src/index.js:136-139 | the stub is a Manifest whose id is the URL |
| `ContentState.ClassifyBody` | src/index.js:135-143 | a body of type Manifest or `@type` sc:Manifest gives the stub for the URL; otherwise a body of type Annotation is taken as it is; anything else gives undefined; a null body throws |
| `ContentState.Resolve` | src/index.js:226-237 | a URL is classified after fetching; a token that fails to decode, or whose text fails to parse, gives the single UnparsableToken ContentStateError; otherwise it gives the parsed value |
| `ContentState.Normalize` | src/index.js:239-245 | succeeds iff expansion, validation and extraction all succeed; otherwise the first failing stage's error is the result; a success carries the expanded annotation, which passes validation, and its manifest list, which has no repeats |
| `ContentState.ValidAnnotationAccepted` | src/index.js:239-245 | a content-state annotation with the Presentation 3 context, a target and extractable manifests is accepted unchanged |
| `ContentState.WrongContextRejected` | src/index.js:54-61 | a content-state annotation with another non-empty string context fails with IncorrectContext |
| `ContentState.ParseContentState` | src/index.js:225-246 | a failure to resolve the input is the result; otherwise the result is what expand, validate and extract make of the resolved value; a token that is not a URL and fails to decode, including a length of 1 mod 4, gives UnparsableToken; a success is a validated annotation with a repeat-free manifest list |
| `ContentState.EncodedWrongContextRejected` | src/index.js:152-246 | the token of an annotation whose context is another string makes parseContentState fail with IncorrectContext |
| `ContentState.ParseEncoded` | src/index.js:225-246 | for an object, array or null that JSON.parse reads back from its JSON text, the token encodeContentState makes is decoded, not fetched, and parses to what the pipeline makes of that value; string arguments are not covered |
| `ContentState.ExpandStub` | src/index.js:31-43 | a bare manifest reference is wrapped by expandAnnotation |
| `ContentState.ExtractStub` | src/index.js:116-128 | the wrapped manifest reference lists its URL as the one manifest |
| `ContentState.NormalizeStub` | src/index.js:239-245 | a bare manifest reference normalises to its wrapper, listing its own id |
| `ContentState.ManifestRoundTrip` | src/index.js:152-246 | encoding a bare manifest reference and parsing the token gives the wrapped reference and its id as the one manifest |
| `ContentState.FetchedManifestParses` | src/index.js:227-228 | a URL whose body is a manifest parses to the stub for that URL, listing the URL as its manifest |
| `ContentState.FetchedOtherFails` | src/index.js:140-143 | a URL whose body is neither a manifest nor an annotation gives undefined, and expandAnnotation then throws a TypeError |
| `ContentState.MotivationNotRequired` | src/index.js:54-72 | an annotation with the right context and a target but no motivation is accepted unchanged |
| `ContentState.FirstValue` | src/index.js:218 | `URLSearchParams.get`: none iff no parameter has the name, otherwise the value of the first one that has it |
| `ContentState.FirstValueAppend` | src/index.js:196 | appending a parameter changes what `get` returns only when the name was absent |
| `ContentState.ParseUrl` | src/index.js:210-223 | an invalid URL gives InvalidUrl; a missing or empty `iiif-content` parameter gives NoContentParameter; otherwise it parses the first such parameter |
| `ContentState.SearchParams.constructor` | src/index.js:194 | the parameter list starts as the URL's own |
| `ContentState.SearchParams.Append` | src/index.js:196 | appends exactly one entry after all the others |
| `ContentState.EncodeLink` | src/index.js:192-203 | the query is the existing parameters followed by `iiif-content` and the token; when there was none before, `get` returns the token |
| `ContentState.LinkRoundTrip` | src/index.js:192-222 | for a value whose text is not empty, on a URL without a content parameter, parseURL of the link parses exactly the token encodeLink added (an empty text gives an empty token, which parseURL reports as NoContentParameter) |
| `ContentState.LinkKeepsEarlierContent` | src/index.js:196-222 | on a URL that already has a content parameter, parseURL of the link ignores the new token and reads the old one |

## Left out

- **Network and asynchrony.** `fetch` and `response.json()` (src/index.js:133-134) are the parameter `fetch`, which returns the parsed body. Network errors and bodies that are not JSON are not modelled. Promises are modelled as `Result` values.
- **URL syntax.** `new URL` and `URLSearchParams` (src/index.js:193-201, 213-217) are not modelled. That includes protocol, host and path reconstruction, dropping the fragment, and the form encoding of the query string. `parseURL` takes `None` for a URL the constructor rejects, or the decoded parameter list. `encodeLink` works on the parameter list.
- **JSON.** `JSON.stringify` and `JSON.parse` are parameters, so key order and number formatting are opaque. The `JSON.stringify` dump in the message at src/index.js:66 is left out, together with all error message text; each error is modelled by its kind.
- **Numbers.** Numbers are integers. Floating point, `NaN` and `-0` are not modelled.
- Codec.NumberText: gives the decimal form of an integer passed to encodeContentState, which is JavaScript's ToString only below 10^21 in magnitude. JavaScript writes larger numbers in exponent form with the shortest digits that round-trip a double (`1e+21`), which needs floating point.
- **Equality.** The loose equality `==` at src/index.js:112-121, 135 and 140 is modelled as strict equality. Coercions such as `["Manifest"] == "Manifest"` are not modelled.
- **Object identity.** A Set compares arrays and objects by reference. The model treats every array or object entry as a new element, which holds for parsed JSON, where no two positions share a reference.
- **In-place update.** `Annotation.Expand` returns the updated object rather than writing `@context` into its argument. Callers that keep a reference to the argument do not see the write. In `parseContentState` the argument is a freshly parsed or built object, so the difference cannot be observed there.
- Codec.RestorePadding: lengths are counted in Unicode scalar values, while JavaScript counts UTF-16 code units. For a token holding a character above U+FFFF the two lengths can differ mod 4, so Codec.RestorePadding and Codec.DecodeContentState may report InvalidLength where the library reports atob's DOMException, or the reverse. Both always fail on such a token (`Codec.NonAsciiTokenFails`), and parseContentState turns either error into UnparsableToken.
- **Lone surrogates.** Dafny strings hold Unicode scalar values, so the URIError that `encodeURI` raises for a lone surrogate cannot arise.
- **Built-in properties.** `JsValue.Field` reads only own properties of objects. The keys the library reads (`motivation`, `type`, `id`, `partOf`, `target`, `@context`, `@type`) are not properties of `Object.prototype`, `Array.prototype` or `String.prototype`, so nothing is lost.
- **Other TypeErrors.** A call of `.map` on a `partOf` that is not an array gives a generic TypeError, without distinguishing the causes.
