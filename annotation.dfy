/** The annotation rules of src/index.js: isContentStateAnnotation, expandAnnotation and
    validateAnnotation. A content state is a W3C annotation whose motivation names
    "contentState" and whose JSON-LD context is the IIIF Presentation 3 context. */
module Annotation {
  import opened JsValue

  const Presentation3Context: string := "http://iiif.io/api/presentation/3/context.json"
  const ContentStateMotivation: string := "contentState"

  /** The `type` values expandAnnotation treats as a bare target. */
  const WrappableTypes: seq<string> := ["Annotation", "Collection", "Manifest", "Canvas", "Range"]

  /** A motivation that isContentStateAnnotation accepts: truthy, and if it is a string
      or an array, the string "contentState" or an array holding it. */
  predicate NamesContentState(m: Value) {
    && Truthy(m)
    && (m.Str? ==> m.s == ContentStateMotivation)
    && (m.Arr? ==> Str(ContentStateMotivation) in m.items)
  }

  /** isContentStateAnnotation (src/index.js:81-99). Reading `motivation` of null or
      undefined throws a TypeError. */
  function IsContentStateAnnotation(a: Value): (r: Result<bool>)
    ensures r.Err? <==> IsNullish(a)
    ensures r.Err? ==> r.error == TypeError
    ensures r.Ok? ==> (r.value <==> NamesContentState(Field(a, "motivation")))
    ensures r.Ok? && r.value ==> a.Obj?
    ensures var m := Field(a, "motivation");
      && (!IsNullish(a) && !Truthy(m) ==> r == Ok(false))
      && (!IsNullish(a) && m.Str? ==> r == Ok(m.s == ContentStateMotivation))
      && (!IsNullish(a) && m.Arr? ==> r == Ok(Str(ContentStateMotivation) in m.items))
      && (!IsNullish(a) && Truthy(m) && !m.Str? && !m.Arr? ==> r == Ok(true))
  {
    var m :- Property(a, "motivation");
    if !Truthy(m) then Ok(false)
    else if m.Str? && m.s != ContentStateMotivation then Ok(false)
    else if m.Arr? && Str(ContentStateMotivation) !in m.items then Ok(false)
    else Ok(true)
  }

  /** The `type` is one of the five resource types a bare target may have. */
  predicate HasWrappableType(a: Value) {
    var t := Field(a, "type");
    t.Str? && t.s in WrappableTypes
  }

  predicate HasPresentation3Context(c: Value) {
    c == Str(Presentation3Context) || (c.Arr? && Str(Presentation3Context) in c.items)
  }

  /** The annotation expandAnnotation builds around a bare target. */
  function Wrap(target: Value): (w: Value)
    ensures IsContentStateAnnotation(w) == Ok(true)
    ensures HasPresentation3Context(Field(w, "@context"))
    ensures Field(w, "type") == Str("Annotation")
    ensures Field(w, "target") == target
  {
    Obj(map[
      "@context" := Str(Presentation3Context),
      "type" := Str("Annotation"),
      "motivation" := Arr([Str(ContentStateMotivation)]),
      "target" := target])
  }

  /** expandAnnotation (src/index.js:22-46), returning the updated object instead of
      writing `@context` into its argument. A content-state annotation gets the
      Presentation 3 context when its own is falsy and is otherwise unchanged; any other
      value with a wrappable `type` is wrapped; everything else comes back as it is. */
  function Expand(a: Value): (r: Result<Value>)
    ensures r.Err? <==> IsNullish(a)
    ensures r.Err? ==> r.error == TypeError
    ensures IsContentStateAnnotation(a) == Ok(true) ==>
      && r.Ok? && r.value.Obj?
      && Truthy(Field(r.value, "@context"))
      && (Truthy(Field(a, "@context")) ==> r.value == a)
      && (!Truthy(Field(a, "@context")) ==> Field(r.value, "@context") == Str(Presentation3Context))
      && (forall k | k != "@context" :: Field(r.value, k) == Field(a, k))
    ensures IsContentStateAnnotation(a) == Ok(false) && HasWrappableType(a) ==> r == Ok(Wrap(a))
    ensures IsContentStateAnnotation(a) == Ok(false) && !HasWrappableType(a) ==> r == Ok(a)
    ensures r.Ok? ==> IsContentStateAnnotation(r.value).Ok?
  {
    var isContentState :- IsContentStateAnnotation(a);
    if isContentState then
      if Truthy(Field(a, "@context")) then Ok(a)
      else Ok(Obj(a.props["@context" := Str(Presentation3Context)]))
    else if HasWrappableType(a) then Ok(Wrap(a))
    else Ok(a)
  }

  /** Expanding an expanded annotation changes nothing. */
  lemma ExpandIdempotent(a: Value)
    requires Expand(a).Ok?
    ensures Expand(Expand(a).value) == Expand(a)
  {
    var e := Expand(a).value;
    if IsContentStateAnnotation(a) == Ok(true) {
      assert Field(e, "motivation") == Field(a, "motivation");
    }
  }

  /** Whatever expandAnnotation wraps passes validation: the wrapper carries the
      context, and the target, an object, is truthy. */
  lemma ExpandedTargetValidates(a: Value)
    requires IsContentStateAnnotation(a) == Ok(false) && HasWrappableType(a)
    ensures Expand(a).Ok? && Validate(Expand(a).value) == Ok(())
  {
  }

  /** validateAnnotation (src/index.js:54-72): the context must be the Presentation 3
      IRI or an array holding it, and the target must be truthy. Each failure has its
      own error; reading `@context` of null or undefined throws a TypeError. */
  function Validate(a: Value): (r: Result<()>)
    ensures r.Ok? <==>
      !IsNullish(a) && HasPresentation3Context(Field(a, "@context")) && Truthy(Field(a, "target"))
    ensures r == Err(TypeError) <==> IsNullish(a)
    ensures var c := Field(a, "@context");
      r == Err(ContentStateError(IncorrectContext)) <==>
        !IsNullish(a) && c.Str? && c.s != Presentation3Context
    ensures var c := Field(a, "@context");
      r == Err(ContentStateError(IncorrectContexts)) <==>
        !IsNullish(a) && c.Arr? && Str(Presentation3Context) !in c.items
    ensures var c := Field(a, "@context");
      r == Err(ContentStateError(ContextNotJsonLd)) <==> !IsNullish(a) && !c.Str? && !c.Arr?
    ensures r == Err(ContentStateError(NoTarget)) <==>
      !IsNullish(a) && HasPresentation3Context(Field(a, "@context")) && !Truthy(Field(a, "target"))
  {
    var context :- Property(a, "@context");
    if context.Str? && context.s != Presentation3Context then
      Err(ContentStateError(IncorrectContext))
    else if context.Arr? && Str(Presentation3Context) !in context.items then
      Err(ContentStateError(IncorrectContexts))
    else if !context.Str? && !context.Arr? then
      Err(ContentStateError(ContextNotJsonLd))
    else if !Truthy(Field(a, "target")) then
      Err(ContentStateError(NoTarget))
    else
      Ok(())
  }
}
