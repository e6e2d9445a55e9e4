/**
 The overlay store as values: one data layer per district code, each with
 the base style set once at load, its boundary features, whether it is on
 the map, and the per-feature style overrides a hover puts on. This module
 states what loading, reconciling and hovering must produce; the component
 class in DccaMapComponent carries it out step by step.
 */
module Overlays {

  import opened DistrictColors

  /** A boundary feature of a layer; `serial` tells apart features that
      carry the same area identifier. */
  datatype Feature = Feature(serial: nat, id: string)

  /** The style given to `overrideStyle`: only the fill colour. */
  datatype StyleOverride = StyleOverride(fillColor: FillColor)

  datatype Layer = Layer(
    style: Style,
    features: seq<Feature>,
    attached: bool,
    overrides: map<Feature, StyleOverride>)

  /** The amount passed to `brighten`. */
  const BrightenAmount: nat := 15

  /** A freshly built layer: styled by the colour assigner, holding the
      district's features, not on the map, nothing overridden. */
  function NewLayer(code: string, features: seq<Feature>): (l: Layer)
    ensures l.style == DataStyle(code) && l.features == features
    ensures !l.attached && l.overrides == map[]
  {
    Layer(DataStyle(code), features, false, map[])
  }

  /** The store `loadDCCAOverlay` builds from the code list. */
  function InitialLayers(codes: seq<string>, geometry: map<string, seq<Feature>>): (r: map<string, Layer>)
    requires forall c :: c in codes ==> c in geometry
    ensures r.Keys == JsText.Elems(codes)
  {
    map c | c in codes :: NewLayer(c, geometry[c])
  }

  /** The store as `updateDCCAOverlay(visible)` must leave it: every layer on
      the map exactly when its code is in `visible`, nothing else changed. */
  function Reconciled(layers: map<string, Layer>, visible: seq<string>): (r: map<string, Layer>)
    ensures r.Keys == layers.Keys
  {
    map c | c in layers :: layers[c].(attached := c in visible)
  }

  /** The codes whose layer is attached where it should not be, or detached
      where it should be attached: one `setMap` call each. */
  function Mismatched(layers: map<string, Layer>, visible: seq<string>): (m: set<string>)
    ensures m <= layers.Keys
  {
    set c | c in layers && layers[c].attached != (c in visible)
  }

  /** The store part way through a reconciliation: the layers of the codes in
      `done` already match `visible`, the others are as they were. */
  function ReconciledOn(layers: map<string, Layer>, visible: seq<string>, done: set<string>): map<string, Layer>
  {
    map c | c in layers :: if c in done then layers[c].(attached := c in visible) else layers[c]
  }

  /** One more code handled: its layer is set to match, and it adds one
      `setMap` call exactly when it was mismatched. */
  lemma ReconcileStep(layers: map<string, Layer>, visible: seq<string>, done: set<string>, code: string)
    requires code in layers && code !in done
    ensures ReconciledOn(layers, visible, done + {code})
      == ReconciledOn(layers, visible, done)[code := layers[code].(attached := code in visible)]
    ensures |Mismatched(layers, visible) * (done + {code})|
      == |Mismatched(layers, visible) * done| + (if code in Mismatched(layers, visible) then 1 else 0)
  {
    var wrong := Mismatched(layers, visible);
    if code in wrong {
      assert wrong * (done + {code}) == (wrong * done) + {code};
    } else {
      assert wrong * (done + {code}) == wrong * done;
    }
  }

  /** A walk over the whole key order of a store reconciles all of it, with
      one `setMap` call per mismatched layer. */
  lemma WalkAll(layers: map<string, Layer>, visible: seq<string>, order: seq<string>)
    requires JsText.Distinct(order)
    requires forall c :: c in layers <==> c in order
    ensures WalkStore(layers, visible, order) == Reconciled(layers, visible)
    ensures WalkCalls(layers, visible, order) == |Mismatched(layers, visible)|
  {
    WalkReconciles(layers, visible, order);
    WalkCounts(layers, visible, order);
    assert Mismatched(layers, visible) * JsText.Elems(order) == Mismatched(layers, visible);
  }

  /** What the reconciling walk does with the codes it has visited so far, in
      visiting order: set a layer's attachment only when it differs from the
      wanted one. */
  function WalkStore(layers: map<string, Layer>, visible: seq<string>, codes: seq<string>): (r: map<string, Layer>)
    ensures r.Keys == layers.Keys
  {
    if codes == [] then layers
    else
      var before := WalkStore(layers, visible, codes[..|codes| - 1]);
      var code := codes[|codes| - 1];
      if code in before && before[code].attached != (code in visible)
      then before[code := before[code].(attached := code in visible)]
      else before
  }

  /** The number of `setMap` calls the walk over `codes` makes. */
  function WalkCalls(layers: map<string, Layer>, visible: seq<string>, codes: seq<string>): nat
  {
    if codes == [] then 0
    else
      var before := WalkStore(layers, visible, codes[..|codes| - 1]);
      var code := codes[|codes| - 1];
      WalkCalls(layers, visible, codes[..|codes| - 1])
        + if code in before && before[code].attached != (code in visible) then 1 else 0
  }

  /** A walk over distinct codes of the store has reconciled exactly the
      codes it visited. */
  lemma {:induction false} WalkReconciles(layers: map<string, Layer>, visible: seq<string>, codes: seq<string>)
    requires JsText.Distinct(codes)
    requires forall c :: c in codes ==> c in layers
    ensures WalkStore(layers, visible, codes) == ReconciledOn(layers, visible, JsText.Elems(codes))
  {
    if codes != [] {
      var prefix := codes[..|codes| - 1];
      JsText.DistinctDropLast(codes);
      WalkReconciles(layers, visible, prefix);
      ReconcileStep(layers, visible, JsText.Elems(prefix), codes[|codes| - 1]);
    }
  }

  /** The walk over distinct codes of the store calls `setMap` once per
      mismatched code it visited. */
  lemma {:induction false} WalkCounts(layers: map<string, Layer>, visible: seq<string>, codes: seq<string>)
    requires JsText.Distinct(codes)
    requires forall c :: c in codes ==> c in layers
    ensures WalkCalls(layers, visible, codes) == |Mismatched(layers, visible) * JsText.Elems(codes)|
  {
    if codes != [] {
      var prefix := codes[..|codes| - 1];
      JsText.DistinctDropLast(codes);
      WalkCounts(layers, visible, prefix);
      WalkReconciles(layers, visible, prefix);
      ReconcileStep(layers, visible, JsText.Elems(prefix), codes[|codes| - 1]);
    }
  }

  /** The style a feature is drawn with: the base style, with the fill colour
      of its override when it has one. */
  function EffectiveStyle(layer: Layer, f: Feature): Style
  {
    if f in layer.overrides then layer.style.(fillColor := layer.overrides[f].fillColor)
    else layer.style
  }

  /** `overrideStyle(feature, {fillColor: brighten(base fill)})`: the fill of
      the base style, not of any current override, is brightened. */
  function Highlight(layer: Layer, f: Feature): (l: Layer)
    ensures l.style == layer.style && l.features == layer.features && l.attached == layer.attached
    ensures l.overrides.Keys == layer.overrides.Keys + {f}
    ensures forall g :: g in layer.overrides && g != f ==> l.overrides[g] == layer.overrides[g]
  {
    var bright := StyleOverride(Brightened(layer.style.fillColor, BrightenAmount));
    layer.(overrides := layer.overrides[f := bright])
  }

  /** `revertStyle(feature)`: drops that feature's override. */
  function Revert(layer: Layer, f: Feature): (l: Layer)
    ensures l.style == layer.style && l.features == layer.features && l.attached == layer.attached
    ensures l.overrides.Keys == layer.overrides.Keys - {f}
    ensures forall g :: g in l.overrides ==> l.overrides[g] == layer.overrides[g]
  {
    layer.(overrides := layer.overrides - {f})
  }

  /** Loading gives one layer per listed code and no other, each styled from
      its own code, holding its own features, detached and not overridden. */
  lemma InitialLayersShape(codes: seq<string>, geometry: map<string, seq<Feature>>)
    requires forall c :: c in codes ==> c in geometry
    ensures forall c :: c in InitialLayers(codes, geometry) <==> c in codes
    ensures forall c :: c in codes ==>
      var l := InitialLayers(codes, geometry)[c];
      && l.style == DataStyle(c)
      && l.features == geometry[c]
      && !l.attached
      && l.overrides == map[]
  {
  }

  /** After reconciling, a layer is attached exactly when its code is
      visible; the set of layers, their styles, features and overrides stay
      as they were. */
  lemma ReconciledAttachesVisible(layers: map<string, Layer>, visible: seq<string>)
    ensures Reconciled(layers, visible).Keys == layers.Keys
    ensures forall c :: c in layers ==>
      var l := Reconciled(layers, visible)[c];
      && l.attached == (c in visible)
      && l.style == layers[c].style
      && l.features == layers[c].features
      && l.overrides == layers[c].overrides
  {
  }

  /** Only membership counts: visible lists with the same codes, in any order
      and with any repetition, reconcile to the same store with the same
      number of `setMap` calls. */
  lemma ReconcileByMembershipOnly(layers: map<string, Layer>, v1: seq<string>, v2: seq<string>)
    requires forall c :: c in v1 <==> c in v2
    ensures Reconciled(layers, v1) == Reconciled(layers, v2)
    ensures Mismatched(layers, v1) == Mismatched(layers, v2)
  {
  }

  /** Reconciling again with the same list finds nothing to change. */
  lemma ReconcileIdempotent(layers: map<string, Layer>, visible: seq<string>)
    ensures Mismatched(Reconciled(layers, visible), visible) == {}
    ensures Reconciled(Reconciled(layers, visible), visible) == Reconciled(layers, visible)
  {
    var r := Reconciled(layers, visible);
    forall c | c in r ensures r[c].attached == (c in visible) {
    }
    assert forall c :: c !in Mismatched(r, visible);
  }

  /** A store that already matches the list is left exactly as it is. */
  lemma ReconcileMatching(layers: map<string, Layer>, visible: seq<string>)
    requires Mismatched(layers, visible) == {}
    ensures Reconciled(layers, visible) == layers
  {
    forall c | c in layers ensures layers[c].attached == (c in visible) {
      assert c !in Mismatched(layers, visible);
    }
  }

  /** Applying the full code list to a freshly loaded store attaches every
      layer, with one `setMap` per layer. */
  lemma FirstApplyAttachesAll(codes: seq<string>, geometry: map<string, seq<Feature>>)
    requires forall c :: c in codes ==> c in geometry
    ensures var r := Reconciled(InitialLayers(codes, geometry), codes);
      && r.Keys == JsText.Elems(codes)
      && forall c :: c in r ==> r[c].attached && r[c].overrides == map[]
    ensures Mismatched(InitialLayers(codes, geometry), codes) == JsText.Elems(codes)
  {
  }

  /** Hovering changes how that one feature is drawn (its fill becomes the
      brightened base fill) and no other; the base style is untouched. */
  lemma HighlightOnlyThatFeature(layer: Layer, f: Feature, g: Feature)
    ensures Highlight(layer, f).style == layer.style
    ensures EffectiveStyle(Highlight(layer, f), f)
      == layer.style.(fillColor := Brightened(layer.style.fillColor, BrightenAmount))
    ensures EffectiveStyle(Highlight(layer, f), f) != layer.style
    ensures g != f ==> EffectiveStyle(Highlight(layer, f), g) == EffectiveStyle(layer, g)
  {
  }

  /** Leaving restores the base style of the feature exactly; the layer is
      back to what it was exactly when the feature had no override before
      the hover. */
  lemma HighlightThenRevert(layer: Layer, f: Feature)
    ensures EffectiveStyle(Revert(Highlight(layer, f), f), f) == layer.style
    ensures f !in layer.overrides ==> Revert(Highlight(layer, f), f) == layer
    ensures f in layer.overrides ==> Revert(Highlight(layer, f), f) != layer
  {
    if f in layer.overrides {
      assert f !in Revert(Highlight(layer, f), f).overrides;
    } else {
      assert layer.overrides[f := StyleOverride(Brightened(layer.style.fillColor, BrightenAmount))] - {f}
        == layer.overrides;
    }
  }

  /** A second hover leaves the layer as a single hover does, and a second
      leave leaves it as a single leave does. */
  lemma HoverIdempotent(layer: Layer, f: Feature)
    ensures Highlight(Highlight(layer, f), f) == Highlight(layer, f)
    ensures Revert(Revert(layer, f), f) == Revert(layer, f)
  {
  }

}
