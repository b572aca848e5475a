/** Attribute filters (src/util/attrs.ts): restrict a map of attributes, properties or
    event handlers to the keys outside, or inside, a list. */
module Attrs {
  import opened Js

  /** `exclude(attributes, exclude)`: a missing map or list returns the map as given;
      otherwise the entries whose key is not listed. */
  function Exclude<V>(attributes: Option<map<string, V>>, keys: Option<seq<string>>): (r: Option<map<string, V>>)
    ensures attributes.None? || keys.None? ==> r == attributes
    ensures attributes.Some? && keys.Some? ==>
              r.Some? &&
              (forall k :: k in r.value <==> k in attributes.value && k !in keys.value) &&
              (forall k :: k in r.value ==> r.value[k] == attributes.value[k])
  {
    if attributes.None? || keys.None? then attributes
    else Some(map k | k in attributes.value && k !in keys.value :: attributes.value[k])
  }

  /** `include(attributes, include)`: a missing map or list returns the map as given;
      otherwise the entries whose key is listed. */
  function Include<V>(attributes: Option<map<string, V>>, keys: Option<seq<string>>): (r: Option<map<string, V>>)
    ensures attributes.None? || keys.None? ==> r == attributes
    ensures attributes.Some? && keys.Some? ==>
              r.Some? &&
              (forall k :: k in r.value <==> k in attributes.value && k in keys.value) &&
              (forall k :: k in r.value ==> r.value[k] == attributes.value[k])
  {
    if attributes.None? || keys.None? then attributes
    else Some(map k | k in attributes.value && k in keys.value :: attributes.value[k])
  }

  /** An empty list excludes nothing and includes nothing. */
  lemma EmptyList<V>(attributes: map<string, V>)
    ensures Exclude(Some(attributes), Some([])) == Some(attributes)
    ensures Include(Some(attributes), Some([])) == Some(map[])
  {
    var out := Exclude(Some(attributes), Some([])).value;
    assert out.Keys == attributes.Keys;
    assert out == attributes;
  }

  /** For one list the two filters split the map into disjoint parts that together make
      up the whole. */
  lemma SplitsTheMap<V>(attributes: map<string, V>, keys: seq<string>)
    ensures var out := Exclude(Some(attributes), Some(keys)).value;
      var kept := Include(Some(attributes), Some(keys)).value;
      out.Keys !! kept.Keys && out + kept == attributes
  {
  }

  /** Filtering a second time by the same list changes nothing. */
  lemma Idempotent<V>(attributes: map<string, V>, keys: seq<string>)
    ensures Exclude(Exclude(Some(attributes), Some(keys)), Some(keys)) == Exclude(Some(attributes), Some(keys))
    ensures Include(Include(Some(attributes), Some(keys)), Some(keys)) == Include(Some(attributes), Some(keys))
  {
    var out := Exclude(Some(attributes), Some(keys)).value;
    assert Exclude(Some(out), Some(keys)).value.Keys == out.Keys;
    assert Exclude(Some(out), Some(keys)).value == out;
    var kept := Include(Some(attributes), Some(keys)).value;
    assert Include(Some(kept), Some(keys)).value.Keys == kept.Keys;
  }
}
