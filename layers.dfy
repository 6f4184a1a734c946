/** The point layers built from the grouped results (the part of `create_results_layer` that is not host glue). */
module Layers {
  import opened TnmData
  import opened Naming
  import opened Grouping

  /** The feature for one result: a point at (x, y), z dropped, and the four attributes in field order. */
  function ToFeature(r: ReceiverResult): Feature
  {
    Feature(PointXY(r.x, r.y),
      Attributes(r.name, r.withBarrierLevel, r.noBarrierLevel, r.noiseReductionDifference))
  }

  /** One feature per result, in the same order. */
  function Features(rs: seq<ReceiverResult>): seq<Feature>
  {
    seq(|rs|, i requires 0 <= i < |rs| => ToFeature(rs[i]))
  }

  /** One layer per key, in dict order, titled after the key and holding that key's results. */
  function LayersOf(g: Levels): seq<Layer>
    requires forall k :: k in g.order ==> k in g.groups
  {
    seq(|g.order|, i requires 0 <= i < |g.order| =>
      Layer(LayerTitle(g.order[i]), Features(g.groups[g.order[i]])))
  }

  /** The number of features over all layers. */
  function TotalFeatures(layers: seq<Layer>): nat
  {
    if layers == [] then 0
    else TotalFeatures(layers[..|layers| - 1]) + |layers[|layers| - 1].features|
  }

  /**
   * `create_results_layer`: a layer with the given title and one feature per
   * result, in order, each at the result's (x, y) with attributes
   * [name, with_barrier, no_barrier, noise_reduction].
   */
  method CreateResultsLayer(layerName: string, results: seq<ReceiverResult>) returns (layer: Layer)
    ensures layer == Layer(layerName, Features(results))
  {
    var features: seq<Feature> := [];
    for n := 0 to |results|
      invariant |features| == n
      invariant forall m :: 0 <= m < n ==> features[m] == ToFeature(results[m])
    {
      var result := results[n];
      var fet := Feature(PointXY(result.x, result.y),
        Attributes(result.name, result.withBarrierLevel, result.noBarrierLevel, result.noiseReductionDifference));
      features := features + [fet];
    }
    layer := Layer(layerName, features);
  }

  /** The layers hold as many features as the groups hold results. */
  lemma {:induction false} LayersHoldAllResults(order: seq<string>, groups: map<string, seq<ReceiverResult>>)
    requires forall k :: k in order ==> k in groups
    ensures TotalFeatures(LayersOf(Levels(order, groups))) == SumSizes(order, groups)
  {
    if order != [] {
      var front := order[..|order| - 1];
      LayersHoldAllResults(front, groups);
      var ls := LayersOf(Levels(order, groups));
      assert ls[..|ls| - 1] == LayersOf(Levels(front, groups));
    }
  }

  /** Layers of distinct keys have distinct titles. */
  lemma DistinctTitles(g: Levels)
    requires forall k :: k in g.order ==> k in g.groups
    requires Distinct(g.order)
    ensures forall a, b :: 0 <= a < b < |LayersOf(g)| ==> LayersOf(g)[a].title != LayersOf(g)[b].title
  {
    forall a, b | 0 <= a < b < |g.order| ensures LayerTitle(g.order[a]) != LayerTitle(g.order[b]) {
      LayerTitleInjective(g.order[a], g.order[b]);
    }
  }
}
