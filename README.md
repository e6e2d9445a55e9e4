# DCCA map overlays: a verified model

This project models the core of `DCCAMap.jsx`, the React component of the
Hong Kong 2011 district-council explorer that draws every district's
constituency-area (DCCA) boundaries as a coloured overlay on a Google map.
It covers four parts of the component:

- **Colour assigner** (`computeDataStyle`). The leading letter of a district
  code picks one of 18 palette colours. District codes skip the letters I and
  O, so the letter's offset from 'A' drops by one for each whole-string test
  `code >= "I"` and `code >= "O"` that holds.
- **Overlay store and visibility reconciler** (`loadDCCAOverlay`,
  `updateDCCAOverlay`, `onDCAreaFilterChanged`, `componentDidMount`). At
  mount there is one layer per district code, and each starts off the map.
  Reconciling attaches a layer exactly when its code is in the visible list.
  It calls `setMap` only on layers whose attachment has to change.
- **Hover and tooltip** (`onMapDataFeatureMouseOver`,
  `onMapDataFeatureMouseOut`, and tooltip visibility in `render`). Mouse-over
  puts a brightened fill on that one feature and shows "name (id)". Mouse-out
  removes that override and empties the text, which hides the tooltip.
- **District list and labels** (`getDefaultProps`, `getInitialState`). The
  code list is the name map's keys in ascending string order, and each label
  is "name (code)". The visible list starts as a copy of the code list.

Modules, one file each:

- `Options` (options.dfy): `Option`, standing for JavaScript's `undefined`.
- `JsText` (js_text.dfy): JavaScript's `<` on strings, `_.sortBy` of keys
  under it, and the "name (code)" caption.
- `DistrictColors` (district_colors.dfy): the palette and `computeDataStyle`.
- `Districts` (districts.dfy): the name maps, `districtCodeList` and
  `districtLabelMap`.
- `Overlays` (overlays.dfy): layers as values. It holds the functions that
  say what loading, reconciling and hovering must produce, and the lemmas
  about them.
- `DccaMapComponent` (dcca_map.dfy): the component as a class. It has the
  props as constants, the React state and the layer store as fields, and
  one method per lifecycle step and handler. Each method's `ensures` ties the
  new state to the functions in `Overlays`.

The Google Maps host is modelled only through what the component does to
it. Each layer records its base style, its features, whether it is on the
map, and its per-feature overrides, and a counter records the `setMap`
calls. The optional `onDccaChange` prop is a flag saying whether it is a
function. The calls it receives are kept as a list: `Some(id)` on
mouse-over, `None` on mouse-out.

Where the design description and the code disagree, the model follows the
code:

- The description wants a start-up error when the palette is smaller than
  the number of codes. The code has no such check. An index outside the
  palette gives `undefined` (`Undefined` here), and
  `UndefinedOutsideUsedRange` states when that happens.
- The description wants a fast failure when a code has no geometry. The
  code has no such check either (see Left out).
- The description says a stray event is harmless. In the code, a mouse-over
  whose feature has no DCCA name record throws inside `getLocalizedString`
  before anything changes. `MouseOver` models this by returning
  `handled == false` with the state unchanged.
- A repeated mouse-over on the same feature is not a no-op in the code. The
  layer is left as one mouse-over leaves it (`HoverIdempotent`), but the
  tooltip position is set again and a registered observer is notified
  again.

## Model

| member | source | states |
|---|---|---|
| JsText.Less | app/src/DCCAMap.jsx:22-23 | JavaScript's string `<`: the right-hand string is never empty, and a non-empty left-hand string does not start with a larger unit |
| JsText.PrefixLess | app/src/DCCAMap.jsx:22-23 | a proper prefix comes before the longer string |
| JsText.LessAsymmetric | app/src/DCCAMap.jsx:34 | `a < b` and `b < a` never both hold |
| JsText.AtLeast | app/src/DCCAMap.jsx:22-23 | `a >= b` holds exactly when the strings are equal or `b < a` |
| JsText.AtLeastLetter | app/src/DCCAMap.jsx:22-23 | for a non-empty code, the whole-string test `code >= "X"` against a one-letter string holds exactly when the code's first letter is at least X |
| JsText.LessTransitive | app/src/DCCAMap.jsx:34 | JavaScript's string `<`, used by the sort, is transitive |
| JsText.LessTotal | app/src/DCCAMap.jsx:34 | any two different strings are ordered one way or the other by `<` |
| JsText.Insert | app/src/DCCAMap.jsx:34 | inserting a key adds one entry, and the key is among the entries |
| JsText.SortBy | app/src/DCCAMap.jsx:34 | `_.sortBy` returns as many keys as it is given |
| JsText.SortByPermutes | app/src/DCCAMap.jsx:34 | `_.sortBy` keeps every key exactly as often as it occurs (a permutation) |
| JsText.SortBySorted | app/src/DCCAMap.jsx:34 | sorting distinct keys gives them in strictly ascending string order |
| JsText.SortedUnique | app/src/DCCAMap.jsx:34 | two strictly sorted lists with the same elements are equal |
| JsText.SortByOrderIndependent | app/src/DCCAMap.jsx:34 | sorting two orderings of the same distinct keys gives the same list |
| JsText.Display | app/src/DCCAMap.jsx:35 | a present name is its own text, and a missing one becomes the text "undefined" |
| JsText.Caption | app/src/DCCAMap.jsx:35 | "name (code)" is name + code + 3 long, starts with the name and ends with ')' |
| JsText.CaptionRoundTrip | app/src/DCCAMap.jsx:118 | "name (code)" is never empty (length of name + code + 3), starts with the name, and the code can be read back from it |
| JsText.CaptionInjective | app/src/DCCAMap.jsx:35 | captions over names of equal length are equal only when both the names and the codes are |
| DistrictColors.ColorIndex | app/src/DCCAMap.jsx:21-23 | the index is NaN (None) exactly for the empty code; otherwise it is the first letter's offset from 'A', lowered by at most two |
| DistrictColors.PaletteColor | app/src/DCCAMap.jsx:26 | a palette colour exactly when the index is a number inside the palette, and then that entry; never a brightened colour |
| DistrictColors.DataStyle | app/src/DCCAMap.jsx:19-30 | every code gets stroke weight 1.25 and fill opacity 0.5, and a fill that is either a palette colour or `undefined` |
| DistrictColors.ColorIndexOfFirstLetter | app/src/DCCAMap.jsx:19-23 | for a non-empty code, the computed index is the first letter's offset from 'A' minus the number of letters in {I, O} at or before it |
| DistrictColors.LetterIndexMonotone | app/src/DCCAMap.jsx:21-23 | the index never decreases as the first letter grows, and grows strictly between used letters |
| DistrictColors.UsedLetterInPalette | app/src/DCCAMap.jsx:17-23 | every used letter (A-T without I and O) gets an index in [0, 18), and LetterAt maps that index back to the letter |
| DistrictColors.LetterAtIsUsed | app/src/DCCAMap.jsx:17-23 | every palette index 0..17 is the index of exactly the used letter LetterAt(i), so the used letters fill the palette with no gap |
| DistrictColors.PaletteDistinct | app/src/DCCAMap.jsx:16-17 | the 18 palette colours are pairwise different |
| DistrictColors.DataStyleOfUsedCode | app/src/DCCAMap.jsx:19-30 | a code starting with a used letter gets palette entry LetterIndex of that letter, with stroke weight 1.25 and fill opacity 0.5 |
| DistrictColors.DistinctLettersDistinctColors | app/src/DCCAMap.jsx:16-26 | codes starting with different used letters get different fill colours |
| DistrictColors.ColorOnlyFromFirstLetter | app/src/DCCAMap.jsx:21-23 | two non-empty codes with the same first letter get the same style |
| DistrictColors.UndefinedOutsideUsedRange | app/src/DCCAMap.jsx:21-26 | the empty code and codes starting before A or after T get an `undefined` fill colour |
| DistrictColors.ColorIndexExamples | app/src/DCCAMap.jsx:20-26 | A is 0, D is 3, H is 7, J is 8, P is 13 and T is 17, and D's fill is "#71D0C9"; the unused I and O would share H's and N's index |
| Districts.Localized | app/src/DCCAMap.jsx:12-14 | the record's "T" text when it has one, `undefined` exactly when it does not |
| Districts.CodeList | app/src/DCCAMap.jsx:34 | `districtCodeList` has one entry per key of the name map |
| Districts.LabelMap | app/src/DCCAMap.jsx:35 | `districtLabelMap` has a label for exactly the districts of the name map, each ending with ')' |
| Districts.CodeListSortedAndComplete | app/src/DCCAMap.jsx:34 | `districtCodeList` is strictly ascending, holds exactly the name map's keys, and has one entry per key |
| Districts.CodeListOrderIndependent | app/src/DCCAMap.jsx:34 | `districtCodeList` depends only on the set of district codes, not on the key order of the name file |
| Districts.LabelOfDistrict | app/src/DCCAMap.jsx:35 | every district has a label; it starts with the localized name ("undefined" when the record has no "T" entry) and gives the district's code back |
| Districts.LabelKeys | app/src/DCCAMap.jsx:35 | there are labels for exactly the districts of the name map |
| Overlays.NewLayer | app/src/DCCAMap.jsx:106-113 | a new layer has the code's `computeDataStyle`, the district's features, is off the map and overrides nothing |
| Overlays.InitialLayers | app/src/DCCAMap.jsx:103-115 | the loaded store has a layer for exactly the codes of the list |
| Overlays.Reconciled | app/src/DCCAMap.jsx:145-152 | reconciling keeps exactly the store's set of layers |
| Overlays.Mismatched | app/src/DCCAMap.jsx:147-150 | only layers of the store can need a `setMap` call |
| Overlays.InitialLayersShape | app/src/DCCAMap.jsx:103-115 | loading makes one layer per listed code and no other; each is styled by `computeDataStyle` of its own code, holds that district's features, is detached, and has no overrides |
| Overlays.ReconciledAttachesVisible | app/src/DCCAMap.jsx:145-152 | after reconciling, a layer is attached exactly when its code is in the visible list; the layer set, styles, features and overrides are unchanged |
| Overlays.ReconcileByMembershipOnly | app/src/DCCAMap.jsx:147 | visible lists with the same members, in any order and with any repeats, give the same store and the same number of `setMap` calls |
| Overlays.ReconcileIdempotent | app/src/DCCAMap.jsx:147-150 | after reconciling, no layer is mismatched, so applying the same list again changes nothing and makes no `setMap` call |
| Overlays.ReconcileMatching | app/src/DCCAMap.jsx:148-150 | a store that already matches the visible list is left exactly as it is |
| Overlays.FirstApplyAttachesAll | app/src/DCCAMap.jsx:59-60 | applying the full code list to a freshly loaded store attaches every layer; every layer needs a `setMap` call |
| Overlays.WalkStore | app/src/DCCAMap.jsx:146-151 | walking the store keeps exactly its set of layers |
| Overlays.WalkReconciles | app/src/DCCAMap.jsx:146-151 | a walk over distinct codes has reconciled exactly the codes it visited and left the rest alone |
| Overlays.WalkCounts | app/src/DCCAMap.jsx:147-150 | the walk calls `setMap` once per mismatched layer among the codes it visited |
| Overlays.WalkAll | app/src/DCCAMap.jsx:145-152 | walking the whole key order gives the reconciled store, with exactly as many `setMap` calls as there are mismatched layers |
| Overlays.Highlight | app/src/DCCAMap.jsx:119-120 | mouse-over keeps the layer's base style, features and attachment, adds an override for the hovered feature and keeps every other override |
| Overlays.Revert | app/src/DCCAMap.jsx:134 | mouse-out keeps the layer's base style, features and attachment, removes the hovered feature's override and keeps every other override |
| Overlays.HighlightOnlyThatFeature | app/src/DCCAMap.jsx:119-120 | mouse-over draws the hovered feature with the brightened base fill, which differs from the base style; other features and the base style are untouched |
| Overlays.HighlightThenRevert | app/src/DCCAMap.jsx:120-134 | mouse-over then mouse-out draws the feature in its base style again; the layer is restored if the feature had no override before, and differs from the original if it had one |
| Overlays.HoverIdempotent | app/src/DCCAMap.jsx:120-134 | a second mouse-over on the same feature leaves the layer as a single mouse-over does, and a second mouse-out leaves it as a single mouse-out does |
| DccaMapComponent.DccaMap.TooltipVisible | app/src/DCCAMap.jsx:66 | the tooltip is visible exactly when its text is not empty |
| DccaMapComponent.DccaMap.constructor | app/src/DCCAMap.jsx:33-51 | props: the sorted code list and the label map; state: not initialized, empty tooltip at (0, 0), visible list equal to the code list, no layers |
| DccaMapComponent.DccaMap.Mount | app/src/DCCAMap.jsx:52-63 | the first mount loads the store and reconciles it with the visible list, with one `setMap` per code plus one per mismatched layer, then sets `initialized`; later mounts change nothing |
| DccaMapComponent.DccaMap.Load | app/src/DCCAMap.jsx:103-115 | the new store equals InitialLayers of the code list, and one `setMap(null)` is made per code |
| DccaMapComponent.DccaMap.UpdateOverlay | app/src/DCCAMap.jsx:145-152 | the store becomes Reconciled(old store, visible), and the `setMap` count grows by the number of mismatched layers |
| DccaMapComponent.DccaMap.OnFilterChanged | app/src/DCCAMap.jsx:141-144 | the visible list is replaced wholesale by the checked list, and the store is reconciled with it |
| DccaMapComponent.DccaMap.MouseOver | app/src/DCCAMap.jsx:116-132 | with a name record: that feature is highlighted in its layer only, the tooltip shows "name (id)" at the given position and is visible, and a registered observer gets the id; without one, nothing changes |
| DccaMapComponent.DccaMap.MouseOut | app/src/DCCAMap.jsx:133-140 | the feature's override is removed, the tooltip text is empty so the tooltip is hidden, and a registered observer gets a call with no id |
| DccaMapComponent.FirstMount | app/src/DCCAMap.jsx:52-63 | after the first mount every district of the name map has a layer, attached and without overrides, and two `setMap` calls were made per district |
| DccaMapComponent.Start | app/src/DCCAMap.jsx:44-62 | construct then mount: every district's layer is attached with no override, the tooltip is hidden, and there were exactly two `setMap` calls per district |

## Left out

- Google Maps construction, `getZoom`, `getBounds`, `getProjection` and `latLngToXY` (app/src/DCCAMap.jsx:54-58, 80-102) are left out. They are foreign calls doing floating-point arithmetic. The tooltip position is a `Point` passed into `MouseOver`.
- `tinycolor(...).brighten(15)` is a foreign colour library. Its result is the opaque value `Brightened(base fill, 15)`, which differs from every palette colour.
- `topojson.feature`, the topojson bundle and the JSON name files are left out. Features, the geometry per code and the name maps are inputs.
- `addListener` is not modelled as data. Each handler method takes the code of the layer it is bound to.
- React rendering, JSX, `AutoHidePanel` and `CheckboxList` are UI and are left out. `setState` takes effect immediately.
- Layers are values in the store map, not shared objects. No two codes share a layer in the source, so no aliasing is lost.
- Strings are sequences of Unicode scalar values. JavaScript compares UTF-16 code units, and the two orders differ only for characters outside the Basic Multilingual Plane, which district codes do not use.
- Hover exclusivity (at most one feature hovered at a time) is left out. The source does not enforce it. It depends on the order in which the map host sends pointer events.
- `_.sortBy` is stable, and the model's sort is not. This makes no difference for distinct keys, and a name map's keys are always distinct.
- DccaMapComponent.DccaMap.Mount: requires a geometry object for every listed code on the first mount. What `topojson.feature` does with a missing object is not part of this model.
- DccaMapComponent.DccaMap.Load: has the same geometry requirement as Mount.
- DccaMapComponent.Start: has the same geometry requirement as Mount.
