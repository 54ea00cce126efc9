/** Loaded GeoJSON features and the attribute extraction of `processData`. */
module Features {
  import opened Wrappers
  import opened JsValues
  import opened Strings

  /** The properties of one point feature: `keys` lists every property
      name in the order `for (... in properties)` visits them, `values`
      holds the numeric year-percentage properties and `country` the
      `Country` property. In JavaScript `keys` and `values` come from the
      same object; here they are deliberately left unconstrained, so every
      lemma holds for any pairing of the two. */
  datatype Feature = Feature(keys: seq<string>, values: map<string, Value>, country: string)

  /** `properties[key]`, `None` standing for `undefined`. */
  function Lookup(f: Feature, key: string): Option<Value> {
    if key in f.values then Some(f.values[key]) else None
  }

  /** The substring that marks a year-percentage attribute. */
  const MARKER := "perc_"

  predicate IsAttribute(key: string) {
    Contains(key, MARKER)
  }

  /** The keys that contain the marker, in their original order. */
  function MarkedKeys(keys: seq<string>): seq<string>
  {
    if keys == [] then []
    else
      var last := keys[|keys| - 1];
      MarkedKeys(keys[..|keys| - 1]) + (if IsAttribute(last) then [last] else [])
  }

  /** `processData`: the attribute names of the first feature. With no
      features, `data.features[0].properties` throws a TypeError. */
  method ProcessData(features: seq<Feature>) returns (r: Result<seq<string>>)
    ensures features == [] <==> r.Failure?
    ensures features != [] ==> r == Success(MarkedKeys(features[0].keys))
  {
    if features == [] {
      return Failure("TypeError: data.features[0] is undefined");
    }
    var properties := features[0].keys;
    var attributes: seq<string> := [];
    var i := 0;
    while i < |properties|
      invariant 0 <= i <= |properties|
      invariant attributes == MarkedKeys(properties[..i])
    {
      assert properties[..i + 1][..i] == properties[..i];
      if IndexOf(properties[i], MARKER) > -1 {
        attributes := attributes + [properties[i]];
      }
      i := i + 1;
    }
    assert properties[..i] == properties;
    return Success(attributes);
  }

  /** Every extracted key holds the marker and came from the input, and
      every input key holding the marker is extracted. */
  lemma {:induction false} MarkedKeysMembers(keys: seq<string>, x: string)
    ensures x in MarkedKeys(keys) <==> x in keys && IsAttribute(x)
  {
    if keys != [] {
      var init := keys[..|keys| - 1];
      MarkedKeysMembers(init, x);
      assert keys == init + [keys[|keys| - 1]];
    }
  }

  /** Each marked key is kept as often as it occurs, every other key is
      dropped. */
  lemma {:induction false} MarkedKeysCount(keys: seq<string>, x: string)
    ensures multiset(MarkedKeys(keys))[x] == if IsAttribute(x) then multiset(keys)[x] else 0
  {
    if keys != [] {
      var init := keys[..|keys| - 1];
      MarkedKeysCount(init, x);
      assert keys == init + [keys[|keys| - 1]];
    }
  }

  /** `r` is `s` with some elements left out, the rest in their order. */
  predicate IsSubsequence(r: seq<string>, s: seq<string>) {
    if r == [] then true
    else if s == [] then false
    else
      IsSubsequence(r, s[..|s| - 1]) ||
      (r[|r| - 1] == s[|s| - 1] && IsSubsequence(r[..|r| - 1], s[..|s| - 1]))
  }

  /** The extracted keys keep their relative order in the input. */
  lemma {:induction false} MarkedKeysInOrder(keys: seq<string>)
    ensures IsSubsequence(MarkedKeys(keys), keys)
  {
    if keys != [] {
      var init := keys[..|keys| - 1];
      var m := MarkedKeys(init);
      MarkedKeysInOrder(init);
      if IsAttribute(keys[|keys| - 1]) {
        assert MarkedKeys(keys)[..|MarkedKeys(keys)| - 1] == m;
      } else {
        assert MarkedKeys(keys) == m + [] == m;
        assert keys[..|keys| - 1] == init;
      }
    }
  }

  /** Extraction distributes over concatenation of key lists. */
  lemma {:induction false} MarkedKeysAppend(s: seq<string>, t: seq<string>)
    ensures MarkedKeys(s + t) == MarkedKeys(s) + MarkedKeys(t)
    decreases |t|
  {
    if t == [] {
      assert s + t == s;
    } else {
      var t' := t[..|t| - 1];
      MarkedKeysAppend(s, t');
      assert (s + t)[..|s + t| - 1] == s + t';
    }
  }
}
