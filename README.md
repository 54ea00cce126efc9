# RenewableEnergy: a Dafny model of the map's time-slider logic

The RenewableEnergy web map shows two datasets as proportional circle markers:
renewable-energy production and fossil-fuel consumption, as percentages per
country, over nine years. A slider with forward and reverse buttons picks the
year. Each move resizes the markers of both layers, rebinds their popups and
redraws the two legends and the year label.

Most of `js/main.js` is Leaflet and jQuery wiring. This project models its
discrete logic:

- **Attribute extraction** (`processData`): the first feature's property
  keys that contain `"perc_"`, kept in their original order.
- **Key and year helpers**:
  - the fossil-fuel key is the renewable key with its first `"ren"` replaced
    by `"ff"`;
  - the year token is the third `_`-separated field;
  - a key containing `"ren"` gets the green style and the renewable popup
    sentence, and `"ren"` is tested before `"ff"`.
- **Markers**: each marker is a `Marker` object whose `radius` and `popup`
  are updated in place. A layer is an `array<Marker>`. `calcPropRadius` is
  the uninterpreted function `propRadius`.
- **Symbol update** (`updatePropSymbolsRen` / `updatePropSymbolsFos`): only
  markers whose property for the key is truthy are resized. Truthy means the
  key is present and the value is not `null` and not `0`.
- **Legend statistics** (`getCircleValuesRen` / `getCircleValuesFos`, which
  are the same code):
  - a min/max fold that starts from `Infinity` / `-Infinity`;
  - it uses JavaScript's comparisons, so NaN never takes part;
  - the "mean" is the midpoint `(max + min) / 2`.
- **Sequence controls**:
  - the slider index, whose forward and reverse steps wrap at the literal
    bound 8;
  - the drag handler, which sets the index directly with no wrap;
  - the two handlers, which redraw both layers, both legends and the year
    label.

Modules:
- `Wrappers`: `Option`, `Result`.
- `JsValues`: JavaScript numbers with NaN and the infinities; `Number()`,
  truthiness, `<`, `+`, `/ 2`.
- `Strings`: `indexOf`, `includes`, `replace`, `split`. It also has `Join`,
  which the script never calls. It is there only as the inverse of `Split`
  in the round-trip lemmas.
- `Features`: features and `processData`.
- `Symbols`: markers, styles, popups, `pointToLayer`, the resize loop.
- `Legend`: the legend fold.
- `Sequence`: the slider and the sequence control.

A property value is modelled as `Num(x)` or `Null`, since JSON has no NaN or
infinities. A missing key is `None`, which stands for `undefined`.
`Number(undefined)` is NaN and `Number(null)` is 0. So in the legend, a
missing value is skipped, while a `null` counts as 0.

Three places where the code's behaviour is easy to misread. The model follows
the code in each:
- `processData` on a collection with no features throws a TypeError at
  `data.features[0].properties`. It does not return an empty list.
- The buttons wrap at the constant 8 (js/main.js:195, js/main.js:199). They
  do not wrap at the length of the attribute list.
- A key containing both `"ren"` and `"ff"` gets the renewable popup. A key
  containing neither gets the blank popup `" "`.

## Model

| member | source | states |
|---|---|---|
| `Strings.IndexFrom` | js/main.js:406 | the search from index k returns the first occurrence at or after k, or -1 when there is none |
| `Strings.IndexOf` | js/main.js:406 | `indexOf` is -1 exactly when the pattern does not occur; otherwise it is an occurrence with none before it |
| `Strings.ReplaceFirst` | js/main.js:471 | a string without the pattern is returned unchanged |
| `Strings.ReplaceFirstAt` | js/main.js:471 | only the first occurrence is replaced: if `p` first occurs right after `a` in `a + p + b`, the result is `a + rep + b` |
| `Strings.FossilKeyContainsFf` | js/main.js:470-471 | a key containing "ren" has a fossil key containing "ff" |
| `Strings.JoinSplit` | js/main.js:294 | joining the fields of `split("_")` gives back the key |
| `Strings.SplitJoin` | js/main.js:294 | splitting a join of separator-free fields gives back the fields |
| `Strings.SplitPrefix` | js/main.js:294 | a separator-free prefix becomes part of the first field |
| `Strings.SplitFieldsFree` | js/main.js:294 | no field of a split contains the separator |
| `Strings.YearFieldOfKey` | js/main.js:493 | the year token of `a_b_y...` is `y`, for any separator-free `a`, `b`, `y` and any continuation that starts at a separator |
| `Strings.ReplacePieceLength` | js/main.js:471 | replacing a separator-free piece keeps the number of `_` fields |
| `Strings.ReplacePiece` | js/main.js:471 | replacing a separator-free piece changes no field except the one that holds it |
| `Strings.FossilKeyKeepsYear` | js/main.js:471-481 | the fossil key has the same year token as the renewable key, unless the first "ren" is inside the year field |
| `Features.ProcessData` | js/main.js:396-415 | fails exactly when there is no first feature; otherwise returns the marked keys of the first feature's key list |
| `Features.MarkedKeysMembers` | js/main.js:404-409 | a key is extracted if and only if it is a key of the first feature and contains "perc_" |
| `Features.MarkedKeysCount` | js/main.js:404-409 | every marked key keeps its number of occurrences; every other key occurs zero times |
| `Features.MarkedKeysInOrder` | js/main.js:404-409 | the extracted keys form a subsequence of the input, so their relative order is kept |
| `Features.MarkedKeysAppend` | js/main.js:404-409 | extraction distributes over concatenation of key lists |
| `JsValues.ToNumber` | js/main.js:336 | `Number(v)` is finite exactly when the key is present; `null` converts to 0, a number converts to itself, and the result is never infinite |
| `JsValues.Truthy` | js/main.js:452 | a property is truthy exactly when its `Number(...)` is a finite non-zero number |
| `JsValues.Less` | js/main.js:339-346 | `<` is false when either side is NaN and is irreflexive; on finite numbers it is the order on reals; `-Infinity` is below and `Infinity` above every finite number |
| `JsValues.Plus` | js/main.js:351 | `+` adds finite numbers, and `Infinity + -Infinity` is NaN |
| `JsValues.Half` | js/main.js:351 | `/ 2` of a finite number is a finite number whose double is the input; NaN and the infinities stay as they are |
| `Strings.FossilKey` | js/main.js:471 | the `"ff"` key (also built at js/main.js:290) is the key with its first `"ren"` replaced; a key without `"ren"` is unchanged (`FossilKeyContainsFf` gives the other case) |
| `Strings.Split` | js/main.js:294 | `split` always gives at least one field; `JoinSplit`, `SplitJoin` and `SplitFieldsFree` state what the fields are |
| `Strings.YearField` | js/main.js:493 | `split("_")[2]` (also at js/main.js:294 and js/main.js:463) is defined exactly when the key has at least three fields, and the token holds no `_` |
| `Symbols.StyleFor` | js/main.js:70-86 | the marker style is the green palette if and only if the key contains "ren", and the gray palette otherwise |
| `Symbols.SourceOf` | js/main.js:496-500 | renewables exactly when the key contains "ren"; fossil fuels exactly when it contains "ff" but not "ren"; no source exactly when it contains neither |
| `Symbols.PopupFor` | js/main.js:489-500 | the popup is blank exactly when there is no source; otherwise it names that source, the feature's country, `Number` of the property and the year token |
| `Symbols.PopupCategory` | js/main.js:496-500 | the popup is blank exactly when the key contains neither "ren" nor "ff"; a described popup names renewables exactly when the marker is green |
| `Symbols.FossilKeyDescribesFossil` | js/main.js:496-500 | a substituted key with no "ren" left gets the fossil-fuel popup |
| `Symbols.Marker.constructor` | js/main.js:94 | a circle marker with the given feature, style, radius and popup |
| `Symbols.PointToLayer` | js/main.js:65-111 | throws exactly when there are no attributes; otherwise returns a fresh marker for the feature, styled, sized by `propRadius` of `Number` of the first attribute, with that attribute's popup |
| `Symbols.Qualifies` | js/main.js:452 | the guard (the fossil copy is js/main.js:472) holds only for a marker with a feature that has the key, and exactly when its `Number(...)` is finite and non-zero |
| `Symbols.Updated` | js/main.js:450-458 | one update keeps the layer's length; a marker's look changes only if it qualifies, and each qualifying marker takes the radius and popup of its own property |
| `Symbols.FeaturesOf` | js/main.js:450 | the features of a layer's markers, one per marker, in the layer's order |
| `Symbols.Looks` | js/main.js:457-461 | the radius and popup of each of a layer's markers, in the layer's order |
| `Symbols.Resize` | js/main.js:450-465 | each qualifying marker (has a feature, property truthy) gets the new radius and popup, and every other marker keeps both; `shown` is true exactly when some marker qualifies |
| `Symbols.UpdatedIdempotent` | js/main.js:452-458 | a second update with the same key changes nothing more |
| `Symbols.UpdatedSkipsMissingKey` | js/main.js:472-478 | a key that no marker carries truthily leaves the whole layer unchanged |
| `Legend.Extremes` | js/main.js:331-348 | the running (min, max) of the fold, from (`Infinity`, `-Infinity`) over the markers with a feature, using JavaScript's `<` and `>`; `ExtremesAreMinMax` states what it computes |
| `Legend.Summarize` | js/main.js:350-358 | the returned object: max and min of the fold, and mean `(max + min) / 2`; `LegendBounds` states its properties |
| `Legend.GetCircleValues` | js/main.js:330-358 | the `eachLayer` loop returns the legend summary of the layer's features (the fossil copy at js/main.js:361-392 is the same code) |
| `Legend.ExtremesAreMinMax` | js/main.js:333-348 | over no values both sentinels stay; otherwise min and max are values of some marker and bound every value |
| `Legend.LegendBounds` | js/main.js:350-358 | non-empty: min <= mean <= max, mean = (max + min) / 2, and min and max are values of markers; empty: (max, min, mean) = (-Infinity, +Infinity, NaN) |
| `Legend.LegendIgnoresFeatureless` | js/main.js:335 | dropping the layers without a feature does not change the legend |
| `Legend.MeanIsMidpoint` | js/main.js:351 | for values 10, 20 and 90 the mean is 50, not 40 |
| `Sequence.NextIndex` | js/main.js:192-195 | on 0..8 the forward step is (i + 1) mod 9 and stays in 0..8; from 8 or above it gives 0 |
| `Sequence.PrevIndex` | js/main.js:196-199 | on 0..8 the reverse step is (i - 1) mod 9 and stays in 0..8; from 0 or below it gives 8 |
| `Sequence.StepsAreInverse` | js/main.js:188-200 | forward then reverse, and reverse then forward, are the identity on 0..8 |
| `Sequence.ClicksStayInRange` | js/main.js:188-202 | no sequence of button clicks leaves 0..8 |
| `Sequence.ForwardClicks` | js/main.js:192-195 | n forward clicks from i give (i + n) mod 9 |
| `Sequence.ReverseClicks` | js/main.js:196-199 | n reverse clicks from i give (i - n) mod 9 |
| `Sequence.NineClicksReturn` | js/main.js:188-202 | nine clicks in either direction return to the starting index |
| `Sequence.RangeSlider.constructor` | js/main.js:162 | the slider starts at value 0, inside 0..8 |
| `Sequence.RangeSlider.Forward` | js/main.js:192-195 | the index becomes `NextIndex` of the old index and stays in range |
| `Sequence.RangeSlider.Reverse` | js/main.js:196-199 | the index becomes `PrevIndex` of the old index and stays in range |
| `Sequence.RangeSlider.SetDirect` | js/main.js:206-208 | the index becomes the dragged value with no wrap; it is in range exactly when the value is |
| `Sequence.SequenceControl.constructor` | js/main.js:178-182 | slider at 0; year label, renewable legend and fossil legend drawn for the first attribute and its "ff" substitute |
| `Sequence.SequenceControl.UpdateRen` | js/main.js:448-466 | the renewable layer is resized for the key, the fossil layer is untouched, and the legend and year label are redrawn exactly when some marker qualified |
| `Sequence.SequenceControl.UpdateFos` | js/main.js:468-486 | the fossil layer is resized for the "ff" substitute of the key, the renewable layer is untouched, and the fossil legend is redrawn exactly when some marker qualified |
| `Sequence.SequenceControl.ShowAttribute` | js/main.js:203-204 | both updates for the attribute at the index, with their combined effect |
| `Sequence.SequenceControl.Skip` | js/main.js:188-205 | the slider steps with wraparound, then both layers, both legends and the year label show the attribute at the new index |
| `Sequence.SequenceControl.Input` | js/main.js:206-211 | the slider takes the dragged value, then both layers, both legends and the year label show that attribute |

## Left out

- The map, tile layers, layer control, `L.Control.extend` containers and all
  SVG/HTML markup (js/main.js:2-44, js/main.js:154-182, js/main.js:217-291).
  These are presentation done by Leaflet and jQuery.
- The `$.ajax` loads (js/main.js:418-445) and the race between them. These
  are asynchronous I/O. The sequence control is given both layers, as if
  both loads had completed.
- `L.geoJson`'s construction of a layer from a collection (js/main.js:129-150).
  The layer is an array that the caller passes in. `PointToLayer` models one
  marker of it.
- The radius formula `Math.sqrt(value * 50 / Math.PI)` (js/main.js:115-124)
  and `Math.round(x * 100) / 100` (js/main.js:310, js/main.js:325,
  js/main.js:497-499). These are floating-point code. The radius is the
  parameter `propRadius`. Popups and legends keep the unrounded number.
- The popup's HTML text and its offset `-radius` (js/main.js:502-504), the
  hover handlers (js/main.js:100-107) and the unused `onEachFeature`
  (js/main.js:50-60). Popups are modelled by their content: blank, or
  source, country, percentage and year.
- The legend's DOM writes of `cy`, `r` and text (js/main.js:299-327). The
  legend is kept as the returned max/mean/min values. The source recomputes
  it once per qualifying marker. It gets the same values each time because
  the fold reads no radii, so the model computes it once.
- `console.log` of the attribute list (js/main.js:412).
- Floating point: property values and the legend's `+` and `/ 2`
  (js/main.js:351) are exact `real`s, not IEEE doubles. The rounding of
  `maxR + minR` to a double is not modelled.
- Object key enumeration order: JavaScript lists integer-like keys first.
  The model takes a feature's `keys` sequence as the enumeration order.
- String-valued properties: `Country` is a separate field of `Feature`, and
  `Number()` of a string is not modelled. No attribute key can be `Country`,
  since attribute keys contain `"perc_"`.
- Sequence.SequenceControl.constructor: requires at least nine attributes.
  The source builds the controls with 1 to 8 attributes without error. The
  first failure comes when the slider reaches an index at or past
  `attributes.length`. Then `attributes[index]` is `undefined`, and
  `attribute.replace` inside the `eachLayer` callback of
  `updatePropSymbolsFos` (js/main.js:469-471) throws a TypeError, but only
  if the fossil layer holds a marker. That path is not modelled.
- Sequence.SequenceControl.Input: requires a value in 0..8, which is what a
  range input with `min=0 max=8` reports.
- A `.skip` element with an id other than `forward` or `reverse`: only those
  two buttons exist.
