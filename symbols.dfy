/** The proportional-symbol markers: their style, popup content, creation
    (`pointToLayer`) and the in-place resize of `updatePropSymbolsRen` /
    `updatePropSymbolsFos`. `calcPropRadius` is taken as an uninterpreted
    function `propRadius`. */
module Symbols {
  import opened Wrappers
  import opened JsValues
  import opened Strings
  import opened Features

  /** The circle-marker options other than the radius. */
  datatype Style = Style(fillColor: string, color: string, weight: real, opacity: real, fillOpacity: real)

  const RENEWABLE_STYLE := Style("#31a354", "#006d2c", 1.0, 1.0, 0.8)
  const FOSSIL_STYLE := Style("#636363", "#000", 1.0, 0.7, 0.5)

  /** The green palette for keys containing "ren", the gray one otherwise. */
  function StyleFor(attribute: string): (style: Style)
    ensures style == RENEWABLE_STYLE <==> Contains(attribute, "ren")
    ensures style == FOSSIL_STYLE <==> !Contains(attribute, "ren")
  {
    if Contains(attribute, "ren") then RENEWABLE_STYLE else FOSSIL_STYLE
  }

  datatype EnergySource = Renewables | FossilFuels

  /** The category sentence of a popup: "ren" is tested before "ff". */
  function SourceOf(attribute: string): (source: Option<EnergySource>)
    ensures source == Some(Renewables) <==> Contains(attribute, "ren")
    ensures source == Some(FossilFuels) <==> !Contains(attribute, "ren") && Contains(attribute, "ff")
    ensures source == None <==> !Contains(attribute, "ren") && !Contains(attribute, "ff")
  {
    if Contains(attribute, "ren") then Some(Renewables)
    else if Contains(attribute, "ff") then Some(FossilFuels)
    else None
  }

  /** The content of a popup: `Blank` is the bare " " left when the key
      names neither source; otherwise the country, the percentage (before
      rounding to two decimals), the energy source and the year token. */
  datatype Popup =
    | Blank
    | Description(source: EnergySource, country: string, percent: JsNumber, year: Option<string>)

  /** `createPopUp(properties, attribute, ...)`, content only. */
  function PopupFor(f: Feature, attribute: string): (popup: Popup)
    ensures popup.Blank? <==> SourceOf(attribute) == None
    ensures popup.Description? ==>
      popup.source == SourceOf(attribute).value && popup.country == f.country
    ensures popup.Description? ==>
      popup.percent == ToNumber(Lookup(f, attribute)) && popup.year == YearField(attribute)
  {
    match SourceOf(attribute)
    case None => Blank
    case Some(source) =>
      Description(source, f.country, ToNumber(Lookup(f, attribute)), YearField(attribute))
  }

  /** A key holding both "ren" and "ff" is described as renewable; one
      holding neither yields the blank popup. */
  lemma PopupCategory(f: Feature, attribute: string)
    ensures PopupFor(f, attribute) == Blank <==>
      !Contains(attribute, "ren") && !Contains(attribute, "ff")
    ensures PopupFor(f, attribute).Description? ==>
      (PopupFor(f, attribute).source == Renewables <==> StyleFor(attribute) == RENEWABLE_STYLE)
  {
  }

  /** The fossil key of a renewable key in which no other "ren" remains
      yields fossil-fuel popups. */
  lemma FossilKeyDescribesFossil(f: Feature, key: string)
    requires Contains(key, "ren") && !Contains(FossilKey(key), "ren")
    ensures PopupFor(f, FossilKey(key)).Description?
    ensures PopupFor(f, FossilKey(key)).source == FossilFuels
  {
    FossilKeyContainsFf(key);
  }

  /** A circle marker. Its feature (if any) never changes; the radius and
      the bound popup are updated in place. */
  class Marker {
    const feature: Option<Feature>
    const style: Style
    var radius: JsNumber
    var popup: Popup

    constructor (feature: Option<Feature>, style: Style, radius: JsNumber, popup: Popup)
      ensures this.feature == feature && this.style == style
      ensures this.radius == radius && this.popup == popup
    {
      this.feature := feature;
      this.style := style;
      this.radius := radius;
      this.popup := popup;
    }
  }

  /** `pointToLayer`: a marker for `f` styled and sized by the first
      attribute. With no attributes, `attribute.includes` throws. */
  method PointToLayer(f: Feature, attributes: seq<string>, propRadius: JsNumber -> JsNumber)
    returns (r: Result<Marker>)
    ensures r.Failure? <==> attributes == []
    ensures r.Success? ==> fresh(r.value) && r.value.feature == Some(f)
    ensures r.Success? ==> r.value.style == StyleFor(attributes[0])
    ensures r.Success? ==> r.value.radius == propRadius(ToNumber(Lookup(f, attributes[0])))
    ensures r.Success? ==> r.value.popup == PopupFor(f, attributes[0])
  {
    if attributes == [] {
      return Failure("TypeError: attribute is undefined");
    }
    var attribute := attributes[0];
    var options := StyleFor(attribute);
    var attValue := ToNumber(Lookup(f, attribute));
    var radius := propRadius(attValue);
    var layer := new Marker(Some(f), options, radius, PopupFor(f, attribute));
    return Success(layer);
  }

  /** The guard of the update: the marker has a feature and its property
      for the key is truthy (present, not `null`, not 0). */
  function Qualifies(feature: Option<Feature>, key: string): (q: bool)
    ensures q ==> feature.Some? && key in feature.value.values
    ensures q <==> (feature.Some? && ToNumber(Lookup(feature.value, key)).Finite? &&
                    ToNumber(Lookup(feature.value, key)).r != 0.0)
  {
    feature.Some? && Truthy(Lookup(feature.value, key))
  }

  /** What a marker shows: its radius and its popup. */
  datatype Look = Look(radius: JsNumber, popup: Popup)

  /** The look a qualifying marker takes for the key. */
  function NewLook(f: Feature, key: string, propRadius: JsNumber -> JsNumber): Look {
    Look(propRadius(ToNumber(Lookup(f, key))), PopupFor(f, key))
  }

  /** The specification of one update: the looks of a layer after every
      qualifying marker is resized for `key`, the others left as they were. */
  function Updated(features: seq<Option<Feature>>, looks: seq<Look>, key: string,
                   propRadius: JsNumber -> JsNumber): (r: seq<Look>)
    requires |features| == |looks|
    ensures |r| == |looks|
    ensures forall i :: 0 <= i < |r| && r[i] != looks[i] ==> Qualifies(features[i], key)
    ensures forall i :: 0 <= i < |r| && Qualifies(features[i], key) ==>
      r[i] == NewLook(features[i].value, key, propRadius)
  {
    seq(|looks|, i requires 0 <= i < |looks| =>
      if Qualifies(features[i], key) then NewLook(features[i].value, key, propRadius) else looks[i])
  }

  /** Whether any marker qualifies, which decides whether the legend and
      the timestamp are refreshed. */
  predicate AnyQualifies(features: seq<Option<Feature>>, key: string) {
    exists i :: 0 <= i < |features| && Qualifies(features[i], key)
  }

  function FeaturesOf(layer: array<Marker>): (fs: seq<Option<Feature>>)
    reads layer
    ensures |fs| == layer.Length
    ensures forall i :: 0 <= i < layer.Length ==> fs[i] == layer[i].feature
  {
    seq(layer.Length, i requires 0 <= i < layer.Length reads layer => layer[i].feature)
  }

  function Looks(layer: array<Marker>): (ls: seq<Look>)
    reads layer, layer[..]
    ensures |ls| == layer.Length
    ensures forall i :: 0 <= i < layer.Length ==> ls[i] == Look(layer[i].radius, layer[i].popup)
  {
    seq(layer.Length, i requires 0 <= i < layer.Length reads layer, layer[..] =>
      Look(layer[i].radius, layer[i].popup))
  }

  /** The loop of `updatePropSymbolsRen` / `updatePropSymbolsFos` over the
      layer's markers: `setRadius` and a new popup for each qualifying
      marker. `shown` tells whether the legend update was triggered. */
  method Resize(layer: array<Marker>, key: string, propRadius: JsNumber -> JsNumber)
    returns (shown: bool)
    modifies layer[..]
    ensures Looks(layer) == Updated(FeaturesOf(layer), old(Looks(layer)), key, propRadius)
    ensures shown <==> AnyQualifies(FeaturesOf(layer), key)
  {
    ghost var fs := FeaturesOf(layer);
    ghost var before := Looks(layer);
    ghost var after := Updated(fs, before, key, propRadius);
    shown := false;
    var i := 0;
    while i < layer.Length
      invariant 0 <= i <= layer.Length
      invariant shown <==> exists j :: 0 <= j < i && Qualifies(fs[j], key)
      invariant forall j :: 0 <= j < layer.Length ==>
        Look(layer[j].radius, layer[j].popup) ==
          if layer[j] in layer[..i] then after[j] else before[j]
    {
      var marker := layer[i];
      assert layer[..i + 1] == layer[..i] + [marker];
      if marker.feature.Some? && Truthy(Lookup(marker.feature.value, key)) {
        var prop := marker.feature.value;
        var rad := propRadius(ToNumber(Lookup(prop, key)));
        marker.radius := rad;
        marker.popup := PopupFor(prop, key);
        shown := true;
      }
      i := i + 1;
    }
    assert layer[..i] == layer[..];
  }

  /** A second update with the same key changes nothing more. */
  lemma UpdatedIdempotent(features: seq<Option<Feature>>, looks: seq<Look>, key: string,
                          propRadius: JsNumber -> JsNumber)
    requires |features| == |looks|
    ensures Updated(features, Updated(features, looks, key, propRadius), key, propRadius)
         == Updated(features, looks, key, propRadius)
  {
  }

  /** A key that no marker carries truthily (a missing year, a failed
      "ren" to "ff" substitution) leaves the whole layer as it was. */
  lemma UpdatedSkipsMissingKey(features: seq<Option<Feature>>, looks: seq<Look>, key: string,
                               propRadius: JsNumber -> JsNumber)
    requires |features| == |looks|
    requires !AnyQualifies(features, key)
    ensures Updated(features, looks, key, propRadius) == looks
  {
  }
}
