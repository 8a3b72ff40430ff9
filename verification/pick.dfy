/** `pickObjProps(object, keys)`: a fresh object holding, for each requested
    key the source owns, the source's value. A null or undefined source gives
    an empty object. */
module Pick {
  import opened Outcomes

  /** The left fold over `keys`: the accumulator gains `key` when the source has it. */
  function Pick<V>(source: Option<map<string, V>>, keys: seq<string>): (r: map<string, V>)
    ensures forall k :: k in r <==> k in keys && source.Some? && k in source.value
    ensures forall k :: k in r ==> source.Some? && k in source.value && r[k] == source.value[k]
    ensures source.None? ==> r == map[]
    decreases |keys|
  {
    if |keys| == 0 then map[]
    else
      var acc := Pick(source, keys[..|keys| - 1]);
      var key := keys[|keys| - 1];
      assert forall k :: k in keys <==> k in keys[..|keys| - 1] || k == key;
      if source.Some? && key in source.value then acc[key := source.value[key]] else acc
  }

  /** Picking the same keys again changes nothing. */
  lemma PickIdempotent<V>(source: Option<map<string, V>>, keys: seq<string>)
    ensures Pick(Some(Pick(source, keys)), keys) == Pick(source, keys)
  {
  }

  /** The result is the source restricted to the requested keys. */
  lemma PickIsRestriction<V>(source: map<string, V>, keys: seq<string>)
    ensures Pick(Some(source), keys) == map k | k in source && k in keys :: source[k]
  {
  }

  /** Picking a subset of the keys from a pick is picking those keys directly. */
  lemma PickNarrows<V>(source: Option<map<string, V>>, keys: seq<string>, fewer: seq<string>)
    requires forall k :: k in fewer ==> k in keys
    ensures Pick(Some(Pick(source, keys)), fewer) == Pick(source, fewer)
  {
  }
}
