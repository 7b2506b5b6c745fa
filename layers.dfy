/** Choosing the layer and the feature (ZonalStats.py:47-52, 69-74 and
    198-203). A vector source is modelled by its list of layers in index
    order; a layer by its name and its features in traversal order. */
module Layers {
  import opened Outcome
  import opened Geometry

  /** A feature: the identifier the data source stores and its geometry. */
  datatype Feature = Feature(fid: int, shape: Shape)

  datatype Layer = Layer(name: string, features: seq<Feature>)

  function Names(layers: seq<Layer>): (r: seq<string>)
    ensures |r| == |layers| && forall i :: 0 <= i < |layers| ==> r[i] == layers[i].name
  {
    seq(|layers|, i requires 0 <= i < |layers| => layers[i].name)
  }

  /** The first index at or after `from` holding `name`. */
  function FirstIndex(names: seq<string>, name: string, from: nat): (r: Option<nat>)
    decreases |names| - from
    ensures r.Some? ==>
      from <= r.value < |names| && names[r.value] == name
      && forall j :: from <= j < r.value ==> names[j] != name
    ensures r.None? ==> forall j :: from <= j < |names| ==> names[j] != name
  {
    if from >= |names| then None
    else if names[from] == name then Some(from)
    else FirstIndex(names, name, from + 1)
  }

  /** The outcome of the layer-search loop: the first matching index, a
      fatal "not found" when layers exist but none matches, and `NoLayers`
      when there is no layer at all (the loop never binds `lyr`; the failure
      surfaces at its first use). */
  function LayerSearch(names: seq<string>, fcName: string, filePath: string): (r: Result<nat>)
    ensures r.Ok? ==> r.value < |names| && names[r.value] == fcName
  {
    if |names| == 0 then Err(NoLayers)
    else match FirstIndex(names, fcName, 0)
      case Some(i) => Ok(i)
      case None => Err(FeatureNotFound(fcName, filePath))
  }

  /** Each outcome of the search, stated both ways. */
  lemma LayerSearchCases(names: seq<string>, fcName: string, filePath: string, i: nat)
    ensures LayerSearch(names, fcName, filePath) == Ok(i) <==>
      i < |names| && names[i] == fcName && forall j :: 0 <= j < i ==> names[j] != fcName
    ensures LayerSearch(names, fcName, filePath) == Err(FeatureNotFound(fcName, filePath)) <==>
      |names| > 0 && fcName !in names
    ensures LayerSearch(names, fcName, filePath) == Err(NoLayers) <==> |names| == 0
  {
    var r := FirstIndex(names, fcName, 0);
    if fcName in names {
      var k :| 0 <= k < |names| && names[k] == fcName;
      assert r.Some?;
    }
  }

  /** The search loop, leaving at the first match (`break`) or failing when
      the last index is reached without one. */
  method FindLayer(names: seq<string>, fcName: string, filePath: string) returns (r: Result<nat>)
    ensures r == LayerSearch(names, fcName, filePath)
  {
    r := Err(NoLayers);
    var i := 0;
    while i < |names|
      invariant 0 <= i <= |names|
      invariant forall j :: 0 <= j < i ==> names[j] != fcName
      invariant i < |names| ==> FirstIndex(names, fcName, 0) == FirstIndex(names, fcName, i)
      invariant |names| > 0 ==> i < |names|
      invariant r == Err(NoLayers)
    {
      if names[i] == fcName {
        r := Ok(i);
        break;
      } else if |names| - 1 == i {
        assert FirstIndex(names, fcName, i + 1) == None;
        r := Err(FeatureNotFound(fcName, filePath));
        break;
      }
      i := i + 1;
    }
  }

  /** The element at 0-based position `pos` of the traversal, if any. */
  function FeatureAt(features: seq<Feature>, pos: nat): (r: Option<Feature>)
    ensures r.Some? <==> pos < |features|
    ensures r.Some? ==> r.value == features[pos]
  {
    if pos < |features| then Some(features[pos]) else None
  }

  /** A freshly opened layer's read cursor. */
  class FeatureCursor {
    const features: seq<Feature>
    var position: nat

    constructor (features: seq<Feature>)
      ensures this.features == features && position == 0
    {
      this.features := features;
      position := 0;
    }

    /** `GetNextFeature`: the feature under the cursor, or None once the
        layer is exhausted; the cursor moves on either way. */
    method GetNextFeature() returns (f: Option<Feature>)
      modifies this
      ensures position == old(position) + 1
      ensures f == FeatureAt(features, old(position))
    {
      f := FeatureAt(features, position);
      position := position + 1;
    }
  }

  /** The feature lookup of `zonal_stats`: a fresh cursor, advanced once for
      FID 0 and FID + 1 times otherwise. Both branches read FID + 1 features (`advanced`),
      so the result is the feature at position FID, whatever identifiers the
      features carry. */
  method FetchFeature(features: seq<Feature>, fid: nat) returns (f: Option<Feature>, advanced: nat)
    ensures advanced == fid + 1
    ensures f.Some? <==> fid < |features|
    ensures f.Some? ==> f.value == features[fid]
  {
    var cursor := new FeatureCursor(features);
    if fid == 0 {
      f := cursor.GetNextFeature();
    } else {
      f := None;
      for i := 0 to fid + 1
        invariant cursor.features == features && cursor.position == i
        invariant i > 0 ==> f == FeatureAt(features, i - 1)
      {
        f := cursor.GetNextFeature();
      }
    }
    advanced := cursor.position;
  }

  /** Positions, not stored identifiers, select the feature: with sparse
      identifiers 3 and 7, FID 1 reaches the feature whose identifier is 7. */
  lemma SparseIdentifiers(s: Shape)
    ensures FeatureAt([Feature(3, s), Feature(7, s)], 1) == Some(Feature(7, s))
  {
  }
}
