/**
 The map component itself: its properties (set once), its React state
 (updated immediately, one handler at a time), the overlay store it builds
 at mount, and the handlers for the checklist and for pointer events. The
 Google Maps host is seen only through what the component does to it: how
 many `setMap` calls it makes and what each layer looks like; the optional
 `onDccaChange` observer is seen through the list of calls it receives.
 */
module DccaMapComponent {

  import opened Options
  import opened JsText
  import opened DistrictColors
  import opened Districts
  import opened Overlays

  /** A tooltip position in screen pixels, as computed by the map projection. */
  datatype Point = Point(x: real, y: real)

  class DccaMap {

    // Properties.
    const districtNames: NameTable
    const dccaNames: map<string, NameRecord>
    const codeList: seq<string>
    const labelMap: map<string, string>
    /** Whether `onDccaChange` is a function. */
    const hasObserver: bool

    // State.
    var initialized: bool
    var tooltipText: string
    var tooltipPosition: Point
    var visibleDistrictIds: seq<string>

    /** `dccaLayerByDistrct`, with its keys in insertion order (empty before mount). */
    var layers: map<string, Layer>
    var layerOrder: seq<string>

    /** The `setMap` calls made so far, and the calls `onDccaChange` received
        (Some(id) on mouse-over, None on mouse-out). */
    var setMapCalls: nat
    var notifications: seq<Option<string>>

    ghost predicate Valid()
      reads this
    {
      && Distinct(codeList)
      && Distinct(layerOrder)
      && (forall c :: c in layers <==> c in layerOrder)
      && (layerOrder == [] || layerOrder == codeList)
      && (initialized ==> layerOrder == codeList)
    }

    /** The tooltip is shown exactly when its text is not empty. */
    predicate TooltipVisible()
      reads this
      ensures TooltipVisible() <==> |tooltipText| > 0
    {
      tooltipText != ""
    }

    /** `getDefaultProps` followed by `getInitialState`. */
    constructor (districtNames: NameTable, dccaNames: map<string, NameRecord>, hasObserver: bool)
      requires WellFormed(districtNames)
      ensures Valid()
      ensures this.districtNames == districtNames && this.dccaNames == dccaNames
      ensures this.hasObserver == hasObserver
      ensures codeList == CodeList(districtNames) && labelMap == LabelMap(districtNames)
      ensures !initialized && tooltipText == "" && tooltipPosition == Point(0.0, 0.0)
      ensures visibleDistrictIds == codeList
      ensures layers == map[] && layerOrder == []
      ensures setMapCalls == 0 && notifications == []
    {
      this.districtNames := districtNames;
      this.dccaNames := dccaNames;
      this.hasObserver := hasObserver;
      codeList := CodeList(districtNames);
      labelMap := LabelMap(districtNames);
      initialized := false;
      tooltipText := "";
      tooltipPosition := Point(0.0, 0.0);
      visibleDistrictIds := CodeList(districtNames);
      layers := map[];
      layerOrder := [];
      setMapCalls := 0;
      notifications := [];
      new;
      CodeListSortedAndComplete(districtNames);
      SortedDistinct(codeList);
    }

    /** `componentDidMount`: the first call loads the store and applies the
        visible list, then sets `initialized`; later calls do nothing. */
    method Mount(geometry: map<string, seq<Feature>>)
      requires Valid()
      requires !initialized ==> forall c :: c in codeList ==> c in geometry
      modifies this`layers, this`layerOrder, this`setMapCalls, this`initialized
      ensures Valid() && initialized
      ensures old(initialized) ==>
        layers == old(layers) && layerOrder == old(layerOrder) && setMapCalls == old(setMapCalls)
      ensures !old(initialized) ==>
        var loaded := InitialLayers(codeList, geometry);
        && layers == Reconciled(loaded, visibleDistrictIds)
        && layerOrder == codeList
        && setMapCalls == old(setMapCalls) + |codeList| + |Mismatched(loaded, visibleDistrictIds)|
    {
      if !initialized {
        Load(geometry);
        UpdateOverlay(visibleDistrictIds);
        initialized := true;
      }
    }

    /** `loadDCCAOverlay`: one new layer per code of the code list, styled by
        the colour assigner, filled with that district's features and sent a
        `setMap(null)`; the new store replaces the old one. */
    method Load(geometry: map<string, seq<Feature>>)
      requires Valid() && !initialized
      requires forall c :: c in codeList ==> c in geometry
      modifies this`layers, this`layerOrder, this`setMapCalls
      ensures Valid()
      ensures layers == InitialLayers(codeList, geometry) && layerOrder == codeList
      ensures setMapCalls == old(setMapCalls) + |codeList|
    {
      var built: map<string, Layer> := map[];
      var i := 0;
      while i < |codeList|
        invariant 0 <= i <= |codeList|
        invariant built == InitialLayers(codeList[..i], geometry)
        invariant setMapCalls == old(setMapCalls) + i
      {
        var code := codeList[i];
        // new Data, setStyle, addGeoJson and setMap(null) in one value
        built := built[code := NewLayer(code, geometry[code])];
        setMapCalls := setMapCalls + 1;
        assert codeList[..i + 1] == codeList[..i] + [code];
        i := i + 1;
      }
      assert codeList[..i] == codeList;
      layers := built;
      layerOrder := codeList;
    }

    /** `updateDCCAOverlay`: walks the store and calls `setMap` on a layer
        only when its attachment differs from membership in `visible`. */
    method UpdateOverlay(visible: seq<string>)
      requires Valid()
      modifies this`layers, this`setMapCalls
      ensures Valid()
      ensures layers == Reconciled(old(layers), visible)
      ensures setMapCalls == old(setMapCalls) + |Mismatched(old(layers), visible)|
    {
      var store, order := layers, layerOrder;
      var calls := 0;
      var i := 0;
      while i < |order|
        invariant 0 <= i <= |order|
        invariant store == WalkStore(layers, visible, order[..i])
        invariant calls == WalkCalls(layers, visible, order[..i])
      {
        var code := order[i];
        assert order[..i + 1][..i] == order[..i];
        if store[code].attached != (code in visible) {
          store := store[code := store[code].(attached := code in visible)];
          calls := calls + 1;
        }
        i := i + 1;
      }
      assert order[..i] == order;
      WalkAll(layers, visible, order);
      layers := store;
      setMapCalls := setMapCalls + calls;
    }

    /** `onDCAreaFilterChanged`: the checked list replaces the visible list
        wholesale and the store is reconciled with it. */
    method OnFilterChanged(checked: seq<string>)
      requires Valid()
      modifies this`visibleDistrictIds, this`layers, this`setMapCalls
      ensures Valid()
      ensures visibleDistrictIds == checked
      ensures layers == Reconciled(old(layers), checked)
      ensures setMapCalls == old(setMapCalls) + |Mismatched(old(layers), checked)|
    {
      visibleDistrictIds := checked;
      UpdateOverlay(checked);
    }

    /** `onMapDataFeatureMouseOver`, bound to the layer of `code`. Without a
        name record for the feature's identifier, `getLocalizedString` throws
        before anything changes (`handled` is false). Otherwise the feature's
        fill is overridden with the brightened base fill, the tooltip shows
        "name (id)" at `position`, and a registered observer hears the id. */
    method MouseOver(code: string, feature: Feature, position: Point) returns (handled: bool)
      requires Valid() && code in layers
      modifies this`layers, this`tooltipText, this`tooltipPosition, this`notifications
      ensures Valid()
      ensures handled == (feature.id in dccaNames)
      ensures !handled ==>
        && layers == old(layers) && tooltipText == old(tooltipText)
        && tooltipPosition == old(tooltipPosition) && notifications == old(notifications)
      ensures handled ==>
        && layers == old(layers)[code := Highlight(old(layers)[code], feature)]
        && tooltipText == Caption(Display(Localized(dccaNames[feature.id])), feature.id)
        && tooltipPosition == position
        && notifications == old(notifications) + (if hasObserver then [Some(feature.id)] else [])
        && TooltipVisible()
    {
      var id := feature.id;
      if id !in dccaNames {
        return false;
      }
      var text := Caption(Display(Localized(dccaNames[id])), id);
      layers := layers[code := Highlight(layers[code], feature)];
      tooltipText, tooltipPosition := text, position;
      if hasObserver {
        notifications := notifications + [Some(id)];
      }
      CaptionRoundTrip(Display(Localized(dccaNames[id])), id);
      return true;
    }

    /** `onMapDataFeatureMouseOut`, bound to the layer of `code`: reverts the
        feature's override, hides the tooltip (its position stays) and tells
        a registered observer that no area is active. */
    method MouseOut(code: string, feature: Feature)
      requires Valid() && code in layers
      modifies this`layers, this`tooltipText, this`notifications
      ensures Valid()
      ensures layers == old(layers)[code := Revert(old(layers)[code], feature)]
      ensures tooltipText == "" && !TooltipVisible()
      ensures notifications == old(notifications) + (if hasObserver then [None] else [])
    {
      layers := layers[code := Revert(layers[code], feature)];
      tooltipText := "";
      if hasObserver {
        notifications := notifications + [None];
      }
    }
  }

  /** React's mount sequence: the component is constructed and then mounted.
      Every district's layer ends up on the map, after one `setMap(null)` at
      load and one `setMap(map)` at the first reconciliation per district. */
  method Start(districtNames: NameTable, dccaNames: map<string, NameRecord>, hasObserver: bool,
               geometry: map<string, seq<Feature>>) returns (m: DccaMap)
    requires WellFormed(districtNames)
    requires forall c :: c in districtNames.entries ==> c in geometry
    ensures fresh(m) && m.Valid() && m.initialized
    ensures m.codeList == CodeList(districtNames) && m.visibleDistrictIds == m.codeList
    ensures forall c :: c in m.layers <==> c in districtNames.entries
    ensures forall c :: c in m.layers ==> m.layers[c].attached && m.layers[c].overrides == map[]
    ensures !m.TooltipVisible() && m.notifications == []
    ensures m.setMapCalls == 2 * |m.codeList|
  {
    FirstMount(districtNames, geometry);
    ghost var codes := CodeList(districtNames);
    ghost var loaded := InitialLayers(codes, geometry);
    m := new DccaMap(districtNames, dccaNames, hasObserver);
    m.Mount(geometry);
    assert m.layers == Reconciled(loaded, codes);
  }

  /** The store the first mount leaves: a layer for every district of the
      name map, each attached and without overrides, after two `setMap`
      calls per district. */
  lemma FirstMount(districtNames: NameTable, geometry: map<string, seq<Feature>>)
    requires WellFormed(districtNames)
    requires forall c :: c in districtNames.entries ==> c in geometry
    ensures var codes := CodeList(districtNames);
      && (forall c :: c in codes ==> c in geometry)
      && var loaded := InitialLayers(codes, geometry);
      && var store := Reconciled(loaded, codes);
      && (forall c :: c in store <==> c in districtNames.entries)
      && (forall c :: c in store ==> store[c].attached && store[c].overrides == map[])
      && |codes| + |Mismatched(loaded, codes)| == 2 * |codes|
  {
    var codes := CodeList(districtNames);
    CodeListSortedAndComplete(districtNames);
    SortedDistinct(codes);
    FirstApplyAttachesAll(codes, geometry);
    DistinctCount(codes);
  }

}
