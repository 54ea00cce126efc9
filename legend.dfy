/** The legend statistics of `getCircleValuesRen` / `getCircleValuesFos`
    (the two are the same code): the smallest and largest value of the
    attribute over the markers that carry a feature, and their midpoint. */
module Legend {
  import opened Wrappers
  import opened JsValues
  import opened Features
  import opened Symbols

  /** The three numbers the legend shows, in the slots max, mean, min. */
  datatype CircleValues = CircleValues(max: JsNumber, min: JsNumber, mean: JsNumber)

  /** `Number(layer.feature.properties[attribute])` for a marker with a
      feature: 0 for `null`, NaN for a missing key. */
  function ValueOf(f: Feature, key: string): JsNumber {
    ToNumber(Lookup(f, key))
  }

  /** The running `(min, max)` after visiting the markers `fs` in order,
      starting from `(Infinity, -Infinity)` and using JavaScript's `<` and
      `>`, so that NaN never replaces either. */
  function Extremes(fs: seq<Option<Feature>>, key: string): (JsNumber, JsNumber) {
    if fs == [] then (PosInf, NegInf)
    else
      var (lo, hi) := Extremes(fs[..|fs| - 1], key);
      match fs[|fs| - 1]
      case None => (lo, hi)
      case Some(f) =>
        var v := ValueOf(f, key);
        (if Less(v, lo) then v else lo, if Less(hi, v) then v else hi)
  }

  /** The result object: `mean` is `(max + min) / 2`, not an average. */
  function Summarize(fs: seq<Option<Feature>>, key: string): CircleValues {
    var (lo, hi) := Extremes(fs, key);
    CircleValues(hi, lo, Half(Plus(hi, lo)))
  }

  /** The numbers that take part: the values of markers with a feature,
      leaving out NaN (a missing key). */
  function Values(fs: seq<Option<Feature>>, key: string): seq<real> {
    if fs == [] then []
    else
      Values(fs[..|fs| - 1], key) +
      match fs[|fs| - 1]
      case None => []
      case Some(f) => if ValueOf(f, key).Finite? then [ValueOf(f, key).r] else []
  }

  /** Over no values both sentinels stay; otherwise they are the least
      and the greatest of the values. */
  lemma {:induction false} ExtremesAreMinMax(fs: seq<Option<Feature>>, key: string)
    ensures var (lo, hi) := Extremes(fs, key);
      (Values(fs, key) == [] ==> lo == PosInf && hi == NegInf) &&
      (Values(fs, key) != [] ==>
        lo.Finite? && hi.Finite? && lo.r in Values(fs, key) && hi.r in Values(fs, key) &&
        forall v :: v in Values(fs, key) ==> lo.r <= v <= hi.r)
  {
    if fs != [] {
      var init := fs[..|fs| - 1];
      ExtremesAreMinMax(init, key);
      var vs := Values(fs, key);
      var vs0 := Values(init, key);
      match fs[|fs| - 1]
      case None =>
        assert vs == vs0 + [];
      case Some(f) =>
        var v := ValueOf(f, key);
        if v.Finite? {
          assert vs == vs0 + [v.r];
          assert forall u :: u in vs <==> u in vs0 || u == v.r;
        } else {
          assert vs == vs0 + [];
        }
    }
  }

  /** The legend over a non-empty set of values: min and max are values
      of some marker, bound all the others, and the mean is their
      midpoint; over none, min is +Infinity, max -Infinity, mean NaN. */
  lemma LegendBounds(fs: seq<Option<Feature>>, key: string)
    ensures var c := Summarize(fs, key);
      (Values(fs, key) == [] ==> c == CircleValues(NegInf, PosInf, NaN)) &&
      (Values(fs, key) != [] ==>
        c.min.Finite? && c.max.Finite? && c.mean.Finite? &&
        c.min.r in Values(fs, key) && c.max.r in Values(fs, key) &&
        (forall v :: v in Values(fs, key) ==> c.min.r <= v <= c.max.r) &&
        c.mean.r == (c.max.r + c.min.r) / 2.0 &&
        c.min.r <= c.mean.r <= c.max.r)
  {
    ExtremesAreMinMax(fs, key);
  }

  /** The entries of `fs` that carry a feature, in order. */
  function WithFeature(fs: seq<Option<Feature>>): seq<Option<Feature>> {
    if fs == [] then []
    else WithFeature(fs[..|fs| - 1]) + (if fs[|fs| - 1].Some? then [fs[|fs| - 1]] else [])
  }

  /** Layers without a feature play no part in the legend. */
  lemma {:induction false} LegendIgnoresFeatureless(fs: seq<Option<Feature>>, key: string)
    ensures Extremes(WithFeature(fs), key) == Extremes(fs, key)
    ensures Summarize(WithFeature(fs), key) == Summarize(fs, key)
  {
    if fs != [] {
      var init := fs[..|fs| - 1];
      LegendIgnoresFeatureless(init, key);
      var w := WithFeature(fs);
      if fs[|fs| - 1].Some? {
        assert w[..|w| - 1] == WithFeature(init);
      } else {
        assert w == WithFeature(init) + [] == WithFeature(init);
      }
    }
  }

  /** Three markers with 10, 20 and 90 percent: the legend's mean is the
      midpoint 50, not the average 40. */
  lemma MeanIsMidpoint(k: string)
    ensures Summarize([Some(Feature([k], map[k := Num(10.0)], "")),
                       Some(Feature([k], map[k := Num(20.0)], "")),
                       Some(Feature([k], map[k := Num(90.0)], ""))], k).mean == Finite(50.0)
  {
    var a := Some(Feature([k], map[k := Num(10.0)], ""));
    var b := Some(Feature([k], map[k := Num(20.0)], ""));
    var c := Some(Feature([k], map[k := Num(90.0)], ""));
    var fs := [a, b, c];
    assert fs[..2] == [a, b] && [a, b][..1] == [a] && [a][..0] == [];
    assert Extremes([a], k) == (Finite(10.0), Finite(10.0));
    assert Extremes([a, b], k) == (Finite(10.0), Finite(20.0));
    assert Extremes(fs, k) == (Finite(10.0), Finite(90.0));
  }

  /** The `eachLayer` loop of `getCircleValuesRen` / `getCircleValuesFos`. */
  method GetCircleValues(layer: array<Marker>, attribute: string) returns (c: CircleValues)
    ensures c == Summarize(FeaturesOf(layer), attribute)
  {
    ghost var fs := FeaturesOf(layer);
    var minV, maxV := PosInf, NegInf;
    var i := 0;
    while i < layer.Length
      invariant 0 <= i <= layer.Length
      invariant (minV, maxV) == Extremes(fs[..i], attribute)
    {
      assert fs[..i + 1][..i] == fs[..i];
      var marker := layer[i];
      if marker.feature.Some? {
        var attributeValue := ToNumber(Lookup(marker.feature.value, attribute));
        if Less(attributeValue, minV) {
          minV := attributeValue;
        }
        if Less(maxV, attributeValue) {
          maxV := attributeValue;
        }
      }
      i := i + 1;
    }
    assert fs[..i] == fs;
    var meanV := Half(Plus(maxV, minV));
    c := CircleValues(maxV, minV, meanV);
  }
}
