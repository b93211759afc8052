/** extractManifests (src/index.js:101-129): the manifests an annotation's targets
    belong to, each listed once, in the order of first occurrence. */
module Manifests {
  import opened JsValue

  /** The values a JavaScript Set compares by content (SameValueZero); arrays and
      objects are compared by reference. */
  predicate IsPrimitive(v: Value) {
    !v.Arr? && !v.Obj?
  }

  /** Whether `new Set` treats two entries as the same element. Distinct arrays and
      objects of a parsed JSON document are distinct references, so they never are. */
  predicate SameEntry(x: Value, y: Value) {
    IsPrimitive(x) && x == y
  }

  predicate NoRepeats(xs: seq<Value>) {
    forall i, j | 0 <= i < j < |xs| :: !SameEntry(xs[i], xs[j])
  }

  /** `[...new Set(xs)]`: the entries in insertion order, a primitive that is already
      present being skipped. */
  function Distinct(xs: seq<Value>): (r: seq<Value>)
    ensures forall v :: v in r <==> v in xs
    ensures NoRepeats(r)
    ensures |r| <= |xs|
    decreases |xs|
  {
    if xs == [] then []
    else
      var d := Distinct(xs[..|xs| - 1]);
      var x := xs[|xs| - 1];
      if IsPrimitive(x) && x in d then d else d + [x]
  }

  /** Adding entries later never reorders or drops the earlier ones: the result for a
      prefix is a prefix of the result, so entries keep their first-occurrence order. */
  lemma {:induction false} DistinctPrefix(xs: seq<Value>, ys: seq<Value>)
    ensures |Distinct(xs)| <= |Distinct(xs + ys)|
    ensures Distinct(xs + ys)[..|Distinct(xs)|] == Distinct(xs)
    decreases |ys|
  {
    if ys == [] {
      assert xs + ys == xs;
    } else {
      var ys' := ys[..|ys| - 1];
      assert (xs + ys)[..|xs + ys| - 1] == xs + ys';
      DistinctPrefix(xs, ys');
    }
  }

  /** A list without repeated entries is its own Set. */
  lemma {:induction false} DistinctOfDistinct(xs: seq<Value>)
    requires NoRepeats(xs)
    ensures Distinct(xs) == xs
    decreases |xs|
  {
    if xs != [] {
      var init := xs[..|xs| - 1];
      assert NoRepeats(init) by {
        forall i, j | 0 <= i < j < |init| ensures !SameEntry(init[i], init[j]) {
          assert init[i] == xs[i] && init[j] == xs[j];
        }
      }
      DistinctOfDistinct(init);
      assert init + [xs[|xs| - 1]] == xs;
    }
  }

  /** `annotation.target` as a list (src/index.js:104-110): an array as it is, anything
      `typeof` calls "object" (an object, or null) as a one-element list. */
  function TargetList(a: Value): (r: Result<seq<Value>>)
    ensures r.Err? ==> IsNullish(a) || r.error == ContentStateError(TargetInvalid)
    ensures r == Err(TypeError) <==> IsNullish(a)
    ensures var t := Field(a, "target");
      r == Err(ContentStateError(TargetInvalid)) <==> !IsNullish(a) && !t.Arr? && !t.Obj? && !t.Null?
    ensures r.Ok? && Field(a, "target").Arr? ==> r.value == Field(a, "target").items
    ensures r.Ok? && !Field(a, "target").Arr? ==> r.value == [Field(a, "target")]
  {
    var t :- Property(a, "target");
    if t.Arr? then Ok(t.items)
    else if t.Obj? || t.Null? then Ok([t])
    else Err(ContentStateError(TargetInvalid))
  }

  /** `partOf.map((part) => part.id)`: a null or undefined part throws. */
  function PartIds(parts: seq<Value>): (r: Result<seq<Value>>)
    ensures r.Err? <==> exists i | 0 <= i < |parts| :: IsNullish(parts[i])
    ensures r.Err? ==> r.error == TypeError
    ensures r.Ok? ==> |r.value| == |parts| && forall i | 0 <= i < |parts| :: r.value[i] == Field(parts[i], "id")
  {
    if parts == [] then Ok([])
    else
      var id :- Property(parts[0], "id");
      var rest :- PartIds(parts[1..]);
      assert forall i | 1 <= i < |parts| :: parts[i] == parts[1..][i - 1];
      Ok([id] + rest)
  }

  /** The errors a single target can raise. */
  const TargetErrors: set<Failure> :=
    {TypeError, ContentStateError(NoManifestId), ContentStateError(UnknownTargetType)}

  predicate HasType(t: Value, name: string) {
    Field(t, "type") == Str(name)
  }

  predicate IsKnownType(t: Value) {
    HasType(t, "Annotation") || HasType(t, "Collection") || HasType(t, "Manifest")
      || HasType(t, "Canvas") || HasType(t, "Range")
  }

  /** What one target adds to the result once `flat()` has spliced it in
      (src/index.js:111-126, 128): null for an Annotation or Collection, a Manifest's id
      (the elements of an array id), and the id of every `partOf` entry of a Canvas or
      Range. */
  function Contribution(t: Value): (r: Result<seq<Value>>)
    ensures r.Err? ==> r.error in TargetErrors
    ensures r == Err(TypeError) <==>
      || IsNullish(t)
      || ((HasType(t, "Canvas") || HasType(t, "Range")) &&
          (!Field(t, "partOf").Arr? || exists p | p in Field(t, "partOf").items :: IsNullish(p)))
    ensures !IsNullish(t) && (HasType(t, "Annotation") || HasType(t, "Collection")) ==> r == Ok([Null])
    ensures !IsNullish(t) && HasType(t, "Manifest") ==>
      var id := Field(t, "id");
      && (!Truthy(id) ==> r == Err(ContentStateError(NoManifestId)))
      && (Truthy(id) && !id.Arr? ==> r == Ok([id]))
      && (id.Arr? ==> r == Ok(id.items))
    ensures !IsNullish(t) && (HasType(t, "Canvas") || HasType(t, "Range")) && r.Ok? ==>
      var parts := Field(t, "partOf").items;
      |r.value| == |parts| && forall i | 0 <= i < |parts| :: r.value[i] == Field(parts[i], "id")
    ensures r == Err(ContentStateError(UnknownTargetType)) <==> !IsNullish(t) && !IsKnownType(t)
    ensures r == Err(ContentStateError(NoManifestId)) <==>
      !IsNullish(t) && HasType(t, "Manifest") && !Truthy(Field(t, "id"))
  {
    var ty :- Property(t, "type");
    if ty == Str("Annotation") || ty == Str("Collection") then Ok([Null])
    else if ty == Str("Manifest") then
      var id := Field(t, "id");
      if !Truthy(id) then Err(ContentStateError(NoManifestId))
      else if id.Arr? then Ok(id.items)
      else Ok([id])
    else if ty == Str("Canvas") || ty == Str("Range") then
      var partOf := Field(t, "partOf");
      if !partOf.Arr? then Err(TypeError)
      else PartIds(partOf.items)
    else Err(ContentStateError(UnknownTargetType))
  }

  /** A Canvas or Range target whose `partOf` is an array without null or undefined
      entries contributes the ids of those entries. */
  lemma PartOfTargetContributes(t: Value)
    requires HasType(t, "Canvas") || HasType(t, "Range")
    requires var partOf := Field(t, "partOf");
      partOf.Arr? && forall p | p in partOf.items :: !IsNullish(p)
    ensures Contribution(t).Ok?
    ensures var parts := Field(t, "partOf").items;
      |Contribution(t).value| == |parts| &&
      forall i | 0 <= i < |parts| :: Contribution(t).value[i] == Field(parts[i], "id")
  {
  }

  /** `targets.map(...).flat()`: the contributions in target order; the first target
      that throws decides the error. */
  function Collect(ts: seq<Value>): (r: Result<seq<Value>>)
    ensures r.Err? ==> r.error in TargetErrors
    ensures r.Ok? <==> forall i | 0 <= i < |ts| :: Contribution(ts[i]).Ok?
    ensures forall k | 0 <= k < |ts| && Contribution(ts[k]).Err? && (forall j | 0 <= j < k :: Contribution(ts[j]).Ok?) ::
      r == Err(Contribution(ts[k]).error)
    ensures r.Ok? ==> forall v :: v in r.value <==>
      exists i | 0 <= i < |ts| :: Contribution(ts[i]).Ok? && v in Contribution(ts[i]).value
  {
    if ts == [] then Ok([])
    else
      var head :- Contribution(ts[0]);
      var rest :- Collect(ts[1..]);
      CollectStep(ts, head, rest);
      Ok(head + rest)
  }

  lemma CollectStep(ts: seq<Value>, head: seq<Value>, rest: seq<Value>)
    requires |ts| > 0 && Contribution(ts[0]) == Ok(head)
    requires forall v :: v in rest <==>
      exists i | 0 <= i < |ts[1..]| :: Contribution(ts[1..][i]).Ok? && v in Contribution(ts[1..][i]).value
    ensures forall v :: v in head + rest <==>
      exists i | 0 <= i < |ts| :: Contribution(ts[i]).Ok? && v in Contribution(ts[i]).value
  {
    forall v | v in head + rest
      ensures exists i | 0 <= i < |ts| :: Contribution(ts[i]).Ok? && v in Contribution(ts[i]).value
    {
      if v !in head {
        var i :| 0 <= i < |ts[1..]| && Contribution(ts[1..][i]).Ok? && v in Contribution(ts[1..][i]).value;
        assert ts[1..][i] == ts[i + 1];
      }
    }
    forall v, i | 0 <= i < |ts| && Contribution(ts[i]).Ok? && v in Contribution(ts[i]).value
      ensures v in head + rest
    {
      if i > 0 {
        assert ts[1..][i - 1] == ts[i];
      }
    }
  }

  /** A single target contributes exactly its own list. */
  lemma CollectOne(t: Value)
    ensures Collect([t]) == (if Contribution(t).Ok? then Ok(Contribution(t).value) else Err(Contribution(t).error))
  {
    assert [t][1..] == [];
    if Contribution(t).Ok? {
      assert Contribution(t).value + [] == Contribution(t).value;
    }
  }

  /** `flat()` joins the contributions in target order: the list for two runs of
      targets is the list for the first followed by the list for the second. */
  lemma {:induction false} CollectAppend(ts1: seq<Value>, ts2: seq<Value>)
    requires Collect(ts1 + ts2).Ok?
    ensures Collect(ts1).Ok? && Collect(ts2).Ok?
    ensures Collect(ts1 + ts2).value == Collect(ts1).value + Collect(ts2).value
    decreases |ts1|
  {
    if ts1 == [] {
      assert ts1 + ts2 == ts2;
    } else {
      var ts := ts1 + ts2;
      assert ts[0] == ts1[0];
      assert ts[1..] == ts1[1..] + ts2;
      CollectAppend(ts1[1..], ts2);
      assert Collect(ts1).Ok? by {
        forall i | 0 <= i < |ts1| ensures Contribution(ts1[i]).Ok? {
          assert ts1[i] == ts[i];
        }
      }
    }
  }

  /** extractManifests (src/index.js:101-129). */
  function ExtractManifests(a: Value): (r: Result<seq<Value>>)
    ensures r == Err(TypeError) ==> IsNullish(a) || TargetList(a).Ok?
    ensures IsNullish(a) ==> r == Err(TypeError)
    ensures var t := Field(a, "target");
      r == Err(ContentStateError(TargetInvalid)) <==> !IsNullish(a) && !t.Arr? && !t.Obj? && !t.Null?
    ensures r.Ok? <==>
      && TargetList(a).Ok?
      && forall i | 0 <= i < |TargetList(a).value| :: Contribution(TargetList(a).value[i]).Ok?
    ensures r.Ok? ==> NoRepeats(r.value)
    ensures r.Ok? ==> TargetList(a).Ok? && forall v :: v in r.value <==>
      exists i | 0 <= i < |TargetList(a).value| ::
        Contribution(TargetList(a).value[i]).Ok? && v in Contribution(TargetList(a).value[i]).value
  {
    var targets :- TargetList(a);
    var ids :- Collect(targets);
    Ok(Distinct(ids))
  }

  /** The manifests of the first k targets come first in the result, in their own
      first-occurrence order; later targets only add entries after them. */
  lemma ExtractKeepsTargetOrder(a: Value, k: nat)
    requires ExtractManifests(a).Ok?
    requires k <= |TargetList(a).value|
    ensures var ts := TargetList(a).value;
      && Collect(ts[..k]).Ok?
      && var early := Distinct(Collect(ts[..k]).value);
      && |early| <= |ExtractManifests(a).value|
      && ExtractManifests(a).value[..|early|] == early
  {
    var ts := TargetList(a).value;
    assert ts[..k] + ts[k..] == ts;
    CollectAppend(ts[..k], ts[k..]);
    DistinctPrefix(Collect(ts[..k]).value, Collect(ts[k..]).value);
  }

  /** The first target of an unknown type, a Manifest without an id, or any other
      failing target, makes the whole call fail with that target's error. */
  lemma FirstFailingTargetDecides(a: Value, k: nat)
    requires TargetList(a).Ok?
    requires var ts := TargetList(a).value;
      k < |ts| && Contribution(ts[k]).Err? && forall j | 0 <= j < k :: Contribution(ts[j]).Ok?
    ensures ExtractManifests(a) == Err(Contribution(TargetList(a).value[k]).error)
  {
  }

  /** Every Annotation or Collection target puts null in the list; it is not filtered. */
  lemma NullForAnnotationTargets(a: Value, k: nat)
    requires ExtractManifests(a).Ok?
    requires k < |TargetList(a).value|
    requires var t := TargetList(a).value[k]; HasType(t, "Annotation") || HasType(t, "Collection")
    ensures Null in ExtractManifests(a).value
  {
    assert Null in Contribution(TargetList(a).value[k]).value;
  }

  /** Every Manifest target's id is listed. */
  lemma ManifestIdListed(a: Value, k: nat)
    requires ExtractManifests(a).Ok?
    requires k < |TargetList(a).value|
    requires var t := TargetList(a).value[k]; HasType(t, "Manifest") && !Field(t, "id").Arr?
    ensures Field(TargetList(a).value[k], "id") in ExtractManifests(a).value
  {
    var t := TargetList(a).value[k];
    assert Field(t, "id") in Contribution(t).value;
  }

  /** The id of every part a Canvas or Range target is part of is listed, even when it
      is undefined. */
  lemma PartOfIdListed(a: Value, k: nat, p: nat)
    requires ExtractManifests(a).Ok?
    requires k < |TargetList(a).value|
    requires var t := TargetList(a).value[k];
      (HasType(t, "Canvas") || HasType(t, "Range")) && p < |Field(t, "partOf").items|
    ensures var t := TargetList(a).value[k];
      Field(Field(t, "partOf").items[p], "id") in ExtractManifests(a).value
  {
    var t := TargetList(a).value[k];
    assert Field(Field(t, "partOf").items[p], "id") == Contribution(t).value[p];
  }

  /** Nothing but what the targets contribute is listed. */
  lemma OnlyContributionsListed(a: Value, v: Value)
    requires ExtractManifests(a).Ok? && v in ExtractManifests(a).value
    ensures exists t | t in TargetList(a).value :: Contribution(t).Ok? && v in Contribution(t).value
  {
    var ts := TargetList(a).value;
    var i :| 0 <= i < |ts| && Contribution(ts[i]).Ok? && v in Contribution(ts[i]).value;
    assert ts[i] in ts;
  }

  lemma CanvasOfM1()
    ensures var part := Obj(map["id" := Str("M1")]);
      Contribution(Obj(map["type" := Str("Canvas"), "partOf" := Arr([part])])) == Ok([Str("M1")])
  {
    var part := Obj(map["id" := Str("M1")]);
    assert PartIds([part]) == Ok([Str("M1")]) by {
      assert [part][1..] == [];
      assert PartIds([]) == Ok([]);
      assert Field(part, "id") == Str("M1");
      assert [Str("M1")] + [] == [Str("M1")];
    }
  }

  lemma CollectTwoCanvases()
    ensures var part := Obj(map["id" := Str("M1")]);
      var canvas := Obj(map["type" := Str("Canvas"), "partOf" := Arr([part])]);
      Collect([canvas, canvas]) == Ok([Str("M1"), Str("M1")])
  {
    var part := Obj(map["id" := Str("M1")]);
    var canvas := Obj(map["type" := Str("Canvas"), "partOf" := Arr([part])]);
    CanvasOfM1();
    assert [canvas, canvas][1..] == [canvas];
    assert [canvas][1..] == [];
    assert Collect([]) == Ok([]);
    assert [Str("M1")] + [] == [Str("M1")];
    assert Collect([canvas]) == Ok([Str("M1")]);
    assert [Str("M1")] + [Str("M1")] == [Str("M1"), Str("M1")];
  }

  lemma DistinctOfPair(x: Value)
    requires IsPrimitive(x)
    ensures Distinct([x, x]) == [x]
  {
    assert [x, x][..1] == [x];
    assert [x][..0] == [];
    assert Distinct([x]) == [x];
  }

  /** Two Canvas targets that are part of the same manifest list it once. */
  lemma SharedManifestListedOnce()
    ensures var part := Obj(map["id" := Str("M1")]);
      var canvas := Obj(map["type" := Str("Canvas"), "partOf" := Arr([part])]);
      ExtractManifests(Obj(map["target" := Arr([canvas, canvas])])) == Ok([Str("M1")])
  {
    var part := Obj(map["id" := Str("M1")]);
    var canvas := Obj(map["type" := Str("Canvas"), "partOf" := Arr([part])]);
    var a := Obj(map["target" := Arr([canvas, canvas])]);
    assert TargetList(a) == Ok([canvas, canvas]);
    CollectTwoCanvases();
    DistinctOfPair(Str("M1"));
  }
}
